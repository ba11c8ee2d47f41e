/** Bytes as the field GF(2^8) with the polynomial 0x11D, as far as the
    Reed-Solomon code of a raw CD sector needs it: sums, and products with
    powers of two. */
module Galois {

  /** Multiplication by two; the highest bit selects the polynomial. */
  function Double(v: bv8): bv8 {
    (v << 1) ^ ((v >> 7) * 0x1D)
  }

  lemma {:induction false} DoubleIsLinear(x: bv8, y: bv8)
    ensures Double(x ^ y) == Double(x) ^ Double(y)
  {
  }

  lemma {:induction false} DoubleIsInjective(x: bv8, y: bv8)
    requires Double(x) == Double(y)
    ensures x == y
  {
  }

  /** The quotient by three: the inverse of `x ^ 2x`. */
  function Third(z: bv8): bv8 {
    var z1 := Double(z);
    var z2 := Double(z1);
    var z4 := Double(Double(z2));
    var z5 := Double(z4);
    var z6 := Double(z5);
    Double(z6) ^ z6 ^ z5 ^ z4 ^ z2
  }

  lemma {:induction false} ThirdInverts(z: bv8)
    ensures Third(z) ^ Double(Third(z)) == z
  {
  }

  lemma {:induction false} TripleIsInjective(x: bv8, y: bv8)
    requires x ^ Double(x) == y ^ Double(y)
    ensures x == y
  {
  }

  // ----- the laws the code rests on

  /** A sum and a doubling; bytes are one instance. */
  datatype Arithmetic<!T> = Arithmetic(zero: T, add: (T, T) -> T, double: T -> T)

  predicate SumLaws<T(==)>(g: Arithmetic<T>, x: T, y: T, z: T) {
    && g.add(g.add(x, y), z) == g.add(x, g.add(y, z))
    && g.add(x, y) == g.add(y, x)
    && g.add(x, x) == g.zero
    && g.add(x, g.zero) == x
  }

  predicate DoubleLaw<T(==)>(g: Arithmetic<T>, x: T, y: T) {
    g.double(g.add(x, y)) == g.add(g.double(x), g.double(y))
  }

  ghost predicate Lawful<T(!new)>(g: Arithmetic<T>) {
    && (forall x, y, z :: SumLaws(g, x, y, z))
    && (forall x, y :: DoubleLaw(g, x, y))
  }

  function Xor(x: bv8, y: bv8): bv8 {
    x ^ y
  }

  const Bytes: Arithmetic<bv8> := Arithmetic(0, Xor, Double)

  lemma {:induction false} BytesAreLawful()
    ensures Lawful(Bytes)
  {
    forall x, y, z
      ensures SumLaws(Bytes, x, y, z)
    {
      BytesSumLaws(x, y, z);
    }
    forall x, y
      ensures DoubleLaw(Bytes, x, y)
    {
      BytesDoubleLaw(x, y);
    }
  }

  lemma {:induction false} BytesSumLaws(x: bv8, y: bv8, z: bv8)
    ensures SumLaws(Bytes, x, y, z)
  {
    XorLaws(x, y, z);
  }

  lemma {:induction false} BytesDoubleLaw(x: bv8, y: bv8)
    ensures DoubleLaw(Bytes, x, y)
  {
    var s := x ^ y;
    assert Bytes.add(x, y) == s;
    assert Bytes.double(s) == Double(s) && Bytes.double(x) == Double(x) && Bytes.double(y) == Double(y);
    DoubleIsLinear(x, y);
    assert Bytes.add(Double(x), Double(y)) == Double(x) ^ Double(y);
  }

  lemma {:induction false} XorLaws(x: bv8, y: bv8, z: bv8)
    ensures (x ^ y) ^ z == x ^ (y ^ z) && x ^ y == y ^ x && x ^ x == 0 && x ^ 0 == x
  {
  }

  // ----- words

  /** `v` times two to the power `n`. */
  function Times<T>(g: Arithmetic<T>, n: nat, v: T): T {
    if n == 0 then v else g.double(Times(g, n - 1, v))
  }

  /** The plain sum of a word. */
  function Sum<T>(g: Arithmetic<T>, word: seq<T>): T
    decreases |word|
  {
    if word == [] then g.zero else g.add(word[0], Sum(g, word[1..]))
  }

  /** The sum weighted by descending powers of two: the last letter has weight
      one, the one before it two, and so on. */
  function Weighted<T>(g: Arithmetic<T>, word: seq<T>): T
    decreases |word|
  {
    if word == [] then g.zero else g.add(Times(g, |word| - 1, word[0]), Weighted(g, word[1..]))
  }

  /** Both syndromes of a word vanish. */
  predicate IsCodeword<T(==)>(g: Arithmetic<T>, word: seq<T>) {
    Sum(g, word) == g.zero && Weighted(g, word) == g.zero
  }

  lemma {:induction false} SumAppend<T(!new)>(g: Arithmetic<T>, word: seq<T>, v: T)
    requires Lawful(g)
    ensures Sum(g, word + [v]) == g.add(Sum(g, word), v)
    decreases |word|
  {
    if word == [] {
      assert (word + [v])[1..] == [];
      assert SumLaws(g, v, g.zero, g.zero);
    } else {
      SumAppend(g, word[1..], v);
      assert (word + [v])[1..] == word[1..] + [v];
      assert SumLaws(g, word[0], Sum(g, word[1..]), v);
    }
  }

  lemma {:induction false} DoubleZero<T(!new)>(g: Arithmetic<T>)
    requires Lawful(g)
    ensures g.double(g.zero) == g.zero
  {
    var z := g.zero;
    assert SumLaws(g, z, z, z) && DoubleLaw(g, z, z) && SumLaws(g, g.double(z), z, z);
  }

  lemma {:induction false} WeightedAppend<T(!new)>(g: Arithmetic<T>, word: seq<T>, v: T)
    requires Lawful(g)
    ensures Weighted(g, word + [v]) == g.add(g.double(Weighted(g, word)), v)
    decreases |word|
  {
    if word == [] {
      assert (word + [v])[1..] == [];
      DoubleZero(g);
      assert SumLaws(g, v, g.zero, g.zero);
    } else {
      WeightedAppend(g, word[1..], v);
      assert (word + [v])[1..] == word[1..] + [v];
      var head, rest := Times(g, |word| - 1, word[0]), Weighted(g, word[1..]);
      assert DoubleLaw(g, head, rest);
      assert SumLaws(g, g.double(head), g.double(rest), v);
    }
  }

  /** The two parity letters of a word: `p` solves `p + 2p = 2a + b`, where `a`
      is twice the weighted sum and `b` the plain sum, and `q` is `p + b`. */
  lemma {:induction false} ParityCompletesWord<T(!new)>(g: Arithmetic<T>, word: seq<T>, p: T, q: T)
    requires Lawful(g)
    requires g.add(p, g.double(p)) == g.add(g.double(g.double(Weighted(g, word))), Sum(g, word))
    requires q == g.add(p, Sum(g, word))
    ensures IsCodeword(g, word + [p, q])
  {
    var a, b := g.double(Weighted(g, word)), Sum(g, word);
    assert word + [p, q] == (word + [p]) + [q];
    SumAppend(g, word, p);
    SumAppend(g, word + [p], q);
    WeightedAppend(g, word, p);
    WeightedAppend(g, word + [p], q);
    assert SumLaws(g, b, p, g.zero) && SumLaws(g, q, q, q);
    ParityCancels(g, g.double(a), b, p, g.double(p));
    assert DoubleLaw(g, a, p);
  }

  lemma {:induction false} ParityCancels<T(!new)>(g: Arithmetic<T>, a: T, b: T, p: T, p2: T)
    requires Lawful(g) && g.add(p, p2) == g.add(a, b)
    ensures g.add(g.add(a, p2), g.add(p, b)) == g.zero
  {
    calc {
      g.add(g.add(a, p2), g.add(p, b));
      { assert SumLaws(g, g.add(a, p2), p, b); }
      g.add(g.add(g.add(a, p2), p), b);
      { assert SumLaws(g, a, p2, p); assert SumLaws(g, p2, p, p); }
      g.add(g.add(a, g.add(a, b)), b);
      { assert SumLaws(g, a, a, b); }
      g.add(g.add(g.zero, b), b);
      { assert SumLaws(g, g.zero, b, b); assert SumLaws(g, b, g.zero, b); }
      g.zero;
    }
  }

  // ----- repeated doubling

  lemma {:induction false} TimesIsLinear<T(!new)>(g: Arithmetic<T>, n: nat, x: T, y: T)
    requires Lawful(g)
    ensures Times(g, n, g.add(x, y)) == g.add(Times(g, n, x), Times(g, n, y))
  {
    if n > 0 {
      TimesIsLinear(g, n - 1, x, y);
      assert DoubleLaw(g, Times(g, n - 1, x), Times(g, n - 1, y));
    }
  }

  lemma {:induction false} TimesTimes<T>(g: Arithmetic<T>, m: nat, n: nat, x: T)
    ensures Times(g, m, Times(g, n, x)) == Times(g, m + n, x)
  {
    if m > 0 {
      TimesTimes(g, m - 1, n, x);
    }
  }

  lemma {:induction false} TimesEight<T>(g: Arithmetic<T>, x: T)
    ensures var x4 := g.double(g.double(g.double(g.double(x))));
            Times(g, 8, x) == g.double(g.double(g.double(g.double(x4))))
  {
    var x2, x4, x6 := Times(g, 2, x), Times(g, 4, x), Times(g, 6, x);
    TimesTwo(g, x);
    TimesTwo(g, x2);
    TimesTwo(g, x4);
    TimesTwo(g, x6);
    TimesTimes(g, 2, 2, x);
    TimesTimes(g, 2, 4, x);
    TimesTimes(g, 2, 6, x);
  }

  lemma {:induction false} TimesTwo<T>(g: Arithmetic<T>, x: T)
    ensures Times(g, 2, x) == g.double(g.double(x))
  {
    assert Times(g, 1, x) == g.double(Times(g, 0, x));
  }

  // ----- changing one letter

  /** Changing a letter by `e` changes the plain sum by `e`, and the weighted sum by
      `e` times the weight of its place. */
  lemma {:induction false} ChangeOne<T(!new)>(g: Arithmetic<T>, word: seq<T>, k: nat, v: T)
    requires Lawful(g) && k < |word|
    ensures var e := g.add(word[k], v);
            && Sum(g, word[k := v]) == g.add(Sum(g, word), e)
            && Weighted(g, word[k := v]) == g.add(Weighted(g, word), Times(g, |word| - 1 - k, e))
    decreases |word|
  {
    var after, e := word[k := v], g.add(word[k], v);
    if k == 0 {
      assert after[1..] == word[1..];
      var n := |word| - 1;
      Replaced(g, word[0], v, Sum(g, word[1..]));
      TimesIsLinear(g, n, word[0], v);
      Replaced(g, Times(g, n, word[0]), Times(g, n, v), Weighted(g, word[1..]));
    } else {
      assert after[1..] == word[1..][k - 1 := v] && after[0] == word[0];
      ChangeOne(g, word[1..], k - 1, v);
      assert SumLaws(g, word[0], Sum(g, word[1..]), e);
      var first := Times(g, |word| - 1, word[0]);
      assert SumLaws(g, first, Weighted(g, word[1..]), Times(g, |word| - 1 - k, e));
    }
  }

  lemma {:induction false} Replaced<T(!new)>(g: Arithmetic<T>, x: T, y: T, rest: T)
    requires Lawful(g)
    ensures g.add(y, rest) == g.add(g.add(x, rest), g.add(x, y))
  {
    calc {
      g.add(g.add(x, rest), g.add(x, y));
      { assert SumLaws(g, x, rest, y); assert SumLaws(g, g.add(x, rest), x, y); }
      g.add(g.add(g.add(x, rest), x), y);
      { assert SumLaws(g, rest, x, x); assert SumLaws(g, x, rest, x); }
      g.add(rest, y);
      { assert SumLaws(g, rest, y, y); }
      g.add(y, rest);
    }
  }

  lemma {:induction false} DifferenceIsZero<T(!new)>(g: Arithmetic<T>, x: T, y: T)
    requires Lawful(g) && g.add(x, y) == g.zero
    ensures x == y
  {
    assert SumLaws(g, x, y, y) && SumLaws(g, y, g.zero, y) && SumLaws(g, y, y, y);
  }

  /** One changed letter of a codeword shows in the plain sum as the change itself,
      and in the weighted sum as the change times the weight of its place. */
  lemma {:induction false} OneErrorSyndromes<T(!new)>(g: Arithmetic<T>, word: seq<T>, k: nat, v: T)
    requires Lawful(g) && IsCodeword(g, word) && k < |word| && v != word[k]
    ensures var bad := word[k := v];
            && Sum(g, bad) == g.add(word[k], v) && Sum(g, bad) != g.zero
            && Weighted(g, bad) == Times(g, |word| - 1 - k, Sum(g, bad))
  {
    var e := g.add(word[k], v);
    ChangeOne(g, word, k, v);
    assert SumLaws(g, g.zero, e, e) && SumLaws(g, e, g.zero, e);
    var t := Times(g, |word| - 1 - k, e);
    assert SumLaws(g, g.zero, t, t) && SumLaws(g, t, g.zero, t);
    if e == g.zero {
      DifferenceIsZero(g, word[k], v);
      assert false;
    }
  }
}
