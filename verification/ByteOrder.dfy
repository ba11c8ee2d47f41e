/** Bytes, and numbers stored in a fixed number of them. */
module ByteOrder {

  newtype Byte = x: int | 0 <= x < 256

  function Power(n: nat): nat {
    if n == 0 then 1 else 256 * Power(n - 1)
  }

  /** The value of big-endian bytes. */
  function BigEndian(s: seq<Byte>): nat {
    if s == [] then 0 else BigEndian(s[..|s| - 1]) * 256 + s[|s| - 1] as int
  }

  /** A number in `n` big-endian bytes. */
  function ToBigEndian(value: nat, n: nat): (s: seq<Byte>)
    ensures |s| == n
  {
    if n == 0 then [] else ToBigEndian(value / 256, n - 1) + [(value % 256) as Byte]
  }

  lemma {:induction false} BigEndianRoundTrip(value: nat, n: nat)
    requires value < Power(n)
    ensures BigEndian(ToBigEndian(value, n)) == value
  {
    if n > 0 {
      BigEndianRoundTrip(value / 256, n - 1);
      var s := ToBigEndian(value, n);
      assert s[..|s| - 1] == ToBigEndian(value / 256, n - 1);
    }
  }

  lemma {:induction false} FourBytes()
    ensures Power(4) == 0x1_0000_0000
  {
    assert Power(1) == 256;
    assert Power(2) == 256 * 256;
    assert Power(3) == 256 * 256 * 256;
  }
}
