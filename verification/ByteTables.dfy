/** Bytes as table indices, in the order a loop over all values visits them. */
module ByteTables {

  type Byte = bv8

  /** The place of a byte value in a table of 256 entries. */
  function Index(v: Byte): (i: nat)
    ensures i < 256
  {
    v as int
  }

  lemma {:induction false} IndexIsInjective(x: Byte, y: Byte)
    requires Index(x) == Index(y)
    ensures x == y
  {
  }

  /** The byte `v` is among the first `n` values. */
  predicate Below(v: Byte, n: bv16) {
    (v as bv16) < n
  }

  lemma {:induction false} BelowNext(v: Byte, n: bv16)
    requires n < 256
    ensures Below(v, n + 1) <==> Below(v, n) || v == n as bv8
  {
  }

  lemma {:induction false} BelowAll(v: Byte)
    ensures Below(v, 256)
  {
  }
}
