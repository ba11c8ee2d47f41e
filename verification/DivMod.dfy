/** Division with remainder, as far as the index arithmetic needs it. */
module DivMod {

  lemma {:induction false} NextMultiple(a: nat, b: nat, s: nat)
    requires a < b
    ensures a * s + s <= b * s
  {
    assert (b - a - 1) * s >= 0;
    assert b * s == a * s + s + (b - a - 1) * s;
  }

  lemma {:induction false} ModUnique(y: nat, d: nat, r: nat, size: nat)
    requires r < size && y == d * size + r
    ensures y % size == r && y / size == d
  {
    var q, m := y / size, y % size;
    assert y == q * size + m;
    if q > d {
      NextMultiple(d, q, size);
      assert false;
    }
    if q < d {
      NextMultiple(q, d, size);
      assert false;
    }
  }

  /** Reducing before adding does not change the remainder. */
  lemma {:induction false} ModAdd(x: nat, inc: nat, size: nat)
    requires size > 0
    ensures (x % size + inc) % size == (x + inc) % size
  {
    var y := x % size + inc;
    var q, r, d := y / size, y % size, x / size;
    assert x == d * size + x % size;
    assert y == q * size + r;
    assert (d + q) * size == d * size + q * size;
    ModUnique(x + inc, d + q, r, size);
  }
}
