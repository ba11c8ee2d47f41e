/** Raw Mode 1 sectors: sync, header, user data, error detection code and the
    P/Q Reed-Solomon parity. */
module SectorCoder {
  import opened Galois
  import opened ByteTables
  import DivMod

  const COOKED_SECTOR_SIZE: nat := 2048
  const RAW_SECTOR_SIZE: nat := 2352

  // ----- tables of the parity code

  /** A table with an entry for every byte value. */
  type Table = seq<Byte>

  /** `forward` doubles and `backward` undoes `x ^ 2x`. */
  ghost predicate EccTables(forward: Table, backward: Table) {
    && |forward| == |backward| == 256
    && (forall v: Byte :: forward[Index(v)] == Double(v))
    && (forall v: Byte :: backward[Index(Triple(v))] == v)
  }

  function Triple(v: Byte): Byte {
    Xor(v, Double(v))
  }

  /** The doubling as the loop computes it, in nine bits. */
  function DoubleWide(value: Byte): Byte {
    var doubled: bv16 := (value as bv16) << 1;
    var reduced := if doubled & 0x100 != 0 then doubled ^ 0x11D else doubled;
    (reduced & 0xFF) as bv8
  }

  lemma {:induction false} DoubleWideIsDouble(v: Byte)
    ensures DoubleWide(v) == Double(v)
    ensures var doubled: bv16 := (v as bv16) << 1;
            (if doubled & 0x100 != 0 then doubled ^ 0x11D else doubled) < 0x100
  {
  }

  lemma {:induction false} PlacesDiffer(v: Byte, w: Byte)
    requires v != w
    ensures Index(v) != Index(w) && Index(Triple(v)) != Index(Triple(w))
  {
    if Index(v) == Index(w) {
      IndexIsInjective(v, w);
    }
    if Index(Triple(v)) == Index(Triple(w)) {
      IndexIsInjective(Triple(v), Triple(w));
      TripleIsInjective(v, w);
    }
  }

  ghost predicate TablesBelow(forward: Table, backward: Table, n: bv16) {
    && |forward| == |backward| == 256
    && (forall v: Byte :: Below(v, n) ==> forward[Index(v)] == Double(v))
    && (forall v: Byte :: Below(v, n) ==> backward[Index(Triple(v))] == v)
  }

  lemma {:induction false} TablesGrowAt(forward: Table, backward: Table, n: bv16, v: Byte)
    requires n < 256 && TablesBelow(forward, backward, n) && Below(v, n + 1)
    ensures var w := n as bv8;
            && forward[Index(w) := Double(w)][Index(v)] == Double(v)
            && backward[Index(Triple(w)) := w][Index(Triple(v))] == v
  {
    BelowNext(v, n);
    if v != n as bv8 {
      PlacesDiffer(v, n as bv8);
    }
  }

  lemma {:induction false} TablesGrow(forward: Table, backward: Table, n: bv16)
    requires n < 256 && TablesBelow(forward, backward, n)
    ensures var v := n as bv8;
            TablesBelow(forward[Index(v) := Double(v)], backward[Index(Triple(v)) := v], n + 1)
  {
    var w := n as bv8;
    var f, b := forward[Index(w) := Double(w)], backward[Index(Triple(w)) := w];
    forall v: Byte | Below(v, n + 1)
      ensures f[Index(v)] == Double(v) && b[Index(Triple(v))] == v
    {
      TablesGrowAt(forward, backward, n, v);
    }
  }

  /** `build_ecc_tables`. */
  method BuildEccTables() returns (forward: Table, backward: Table)
    ensures EccTables(forward, backward)
  {
    forward, backward := seq(256, _ => 0), seq(256, _ => 0);
    var value: bv16 := 0;
    while value < 256
      invariant value <= 256 && TablesBelow(forward, backward, value)
      decreases 256 - value
    {
      var v := value as bv8;
      var doubled := DoubleWide(v);
      DoubleWideIsDouble(v);
      TablesGrow(forward, backward, value);
      forward := forward[Index(v) := doubled];
      backward := backward[Index(Xor(v, doubled)) := v];
      value := value + 1;
    }
    forall v: Byte ensures Below(v, 256) { BelowAll(v); }
  }

  // ----- parity bytes

  /** The shape of a parity walk: `majors` codewords of `minors` bytes, over
      the first `size` bytes of the data. */
  datatype Walk = Walk(majors: nat, minors: nat, multiplier: nat, increment: nat, size: nat)

  function Start(w: Walk, major: nat): nat {
    (major / 2) * w.multiplier + major % 2
  }

  /** The index of the byte visited after `k` steps of a codeword. */
  function Visit(w: Walk, major: nat, k: nat): (i: nat)
    requires w.size > 0
    ensures i < w.size
  {
    if k == 0 then Start(w, major) % w.size else (Visit(w, major, k - 1) + w.increment) % w.size
  }

  /** Every walk starts inside the data and the data is long enough. */
  ghost predicate Fits(w: Walk, data: seq<Byte>) {
    && w.size == w.majors * w.minors && 0 < w.size <= |data|
    && forall major :: 0 <= major < w.majors ==> Start(w, major) < w.size
  }

  lemma {:induction false} WalkStarts(w: Walk, data: seq<Byte>, major: nat)
    requires Fits(w, data) && major < w.majors
    ensures Visit(w, major, 0) == Start(w, major)
  {
    DivMod.ModUnique(Start(w, major), 0, Start(w, major), w.size);
  }

  /** Where a walk stands after `k` steps, computed at once. */
  lemma {:induction false} VisitDirectly(w: Walk, major: nat, k: nat)
    requires w.size > 0
    ensures Visit(w, major, k) == (Start(w, major) + k * w.increment) % w.size
  {
    if k > 0 {
      VisitDirectly(w, major, k - 1);
      var at := Start(w, major) + (k - 1) * w.increment;
      assert at + w.increment == Start(w, major) + k * w.increment;
      DivMod.ModAdd(at, w.increment, w.size);
    }
  }

  /** The first `n` bytes along a walk. */
  function Visited(w: Walk, data: seq<Byte>, major: nat, n: nat): (word: seq<Byte>)
    requires 0 < w.size <= |data|
    ensures |word| == n
  {
    if n == 0 then [] else Visited(w, data, major, n - 1) + [data[Visit(w, major, n - 1)]]
  }

  /** Accumulating one byte keeps both sums. */
  lemma {:induction false} ScanStep(word: seq<Byte>, a: Byte, b: Byte, v: Byte)
    requires a == Double(Weighted(Bytes, word)) && b == Sum(Bytes, word)
    ensures Double(Xor(a, v)) == Double(Weighted(Bytes, word + [v]))
    ensures Xor(b, v) == Sum(Bytes, word + [v])
  {
    BytesAreLawful();
    SumAppend(Bytes, word, v);
    WeightedAppend(Bytes, word, v);
  }

  /** The two parity bytes found from the sums complete the word. */
  lemma {:induction false} ParityFromTables(forward: Table, backward: Table, word: seq<Byte>, a: Byte, b: Byte)
    requires EccTables(forward, backward)
    requires a == Double(Weighted(Bytes, word)) && b == Sum(Bytes, word)
    ensures var z := Xor(Double(a), b);
            var p := backward[Index(z)];
            IsCodeword(Bytes, word + [p, Xor(p, b)])
  {
    BytesAreLawful();
    var z := Xor(Double(a), b);
    var p := Third(z);
    ThirdInverts(z);
    assert Triple(p) == z;
    assert backward[Index(Triple(p))] == p;
    ParityCompletesWord(Bytes, word, p, Xor(p, b));
  }

  /** `p` and `q` complete the codeword of one walk. */
  ghost predicate Completes(w: Walk, data: seq<Byte>, major: nat, p: Byte, q: Byte)
    requires 0 < w.size <= |data|
  {
    IsCodeword(Bytes, Visited(w, data, major, w.minors) + [p, q])
  }

  /** `ecc`: for each codeword of the walk, two bytes that complete it. */
  method Ecc(data: seq<Byte>, w: Walk, forward: Table, backward: Table) returns (result: seq<Byte>)
    requires EccTables(forward, backward) && Fits(w, data)
    ensures |result| == 2 * w.majors
    ensures forall major :: 0 <= major < w.majors ==>
              Completes(w, data, major, result[major], result[major + w.majors])
  {
    result := seq(2 * w.majors, _ => 0);
    var major := 0;
    while major < w.majors
      invariant 0 <= major <= w.majors && |result| == 2 * w.majors
      invariant forall m :: 0 <= m < major ==> Completes(w, data, m, result[m], result[m + w.majors])
    {
      var p, q := Parity(data, w, major, forward, backward);
      result := result[major := p][major + w.majors := q];
      major := major + 1;
    }
  }

  /** One turn of the outer loop of `ecc`. */
  method Parity(data: seq<Byte>, w: Walk, major: nat, forward: Table, backward: Table) returns (p: Byte, q: Byte)
    requires EccTables(forward, backward) && Fits(w, data) && major < w.majors
    ensures Completes(w, data, major, p, q)
  {
    var a, b := Scan(data, w, major, forward);
    ParityFromTables(forward, backward, Visited(w, data, major, w.minors), a, b);
    p := backward[Index(Xor(forward[Index(a)], b))];
    q := Xor(p, b);
  }

  /** The inner loop of `ecc`: the running sums of one codeword. */
  method Scan(data: seq<Byte>, w: Walk, major: nat, forward: Table) returns (a: Byte, b: Byte)
    requires |forward| == 256 && forall v: Byte :: forward[Index(v)] == Double(v)
    requires Fits(w, data) && major < w.majors
    ensures a == Double(Weighted(Bytes, Visited(w, data, major, w.minors)))
    ensures b == Sum(Bytes, Visited(w, data, major, w.minors))
  {
    var index := Start(w, major);
    WalkStarts(w, data, major);
    a, b := 0, 0;
    var k := 0;
    assert Double(0) == 0;
    while k < w.minors
      invariant 0 <= k <= w.minors
      invariant index == Visit(w, major, k)
      invariant a == Double(Weighted(Bytes, Visited(w, data, major, k)))
      invariant b == Sum(Bytes, Visited(w, data, major, k))
    {
      var value := data[index];
      ScanStep(Visited(w, data, major, k), a, b, value);
      index := (index + w.increment) % w.size;
      a := Xor(a, value);
      b := Xor(b, value);
      a := forward[Index(a)];
      k := k + 1;
    }
  }
}
