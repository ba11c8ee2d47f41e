/** What the parity of a sector detects: one changed byte of a codeword leaves
    syndromes that give away both the change and its place. */
module SectorErrors {

  import opened Galois
  import opened ByteTables
  import opened SectorCoder

  // ----- powers of two

  function Eight(e: Byte): Byte {
    var e4 := Double(Double(Double(Double(e))));
    Double(Double(Double(Double(e4))))
  }

  /** `e` times 2^15, which is 0x26. */
  function ByFifteen(e: Byte): Byte {
    var e2 := Double(Double(e));
    Double(Double(Double(e2))) ^ e2 ^ Double(e)
  }

  /** `e` times 2^17, which is 0x98. */
  function BySeventeen(e: Byte): Byte {
    var e3 := Double(Double(Double(e)));
    var e4 := Double(e3);
    Double(Double(Double(e4))) ^ e4 ^ e3
  }

  /** `e` times 2^51, which is 0x0A. */
  function ByFiftyOne(e: Byte): Byte {
    Double(Double(Double(e))) ^ Double(e)
  }

  lemma {:induction false} FifteenDoublings(e: Byte)
    ensures Eight(Double(Double(Double(Double(Double(Double(Double(e)))))))) == ByFifteen(e)
  {
  }

  lemma {:induction false} SeventeenDoublings(e: Byte)
    ensures Eight(Eight(Double(e))) == BySeventeen(e)
  {
  }

  lemma {:induction false} ThreeSeventeens(e: Byte)
    ensures BySeventeen(BySeventeen(BySeventeen(e))) == ByFiftyOne(e)
  {
  }

  lemma {:induction false} FiveFiftyOnes(e: Byte)
    ensures ByFiftyOne(ByFiftyOne(ByFiftyOne(ByFiftyOne(ByFiftyOne(e))))) == e
  {
  }

  lemma {:induction false} FifteenMoves(e: Byte)
    requires e != 0
    ensures ByFifteen(e) != e
  {
  }

  lemma {:induction false} SeventeenMoves(e: Byte)
    requires e != 0
    ensures BySeventeen(e) != e
  {
  }

  lemma {:induction false} TimesEightIs(e: Byte)
    ensures Times(Bytes, 8, e) == Eight(e)
  {
    TimesEight(Bytes, e);
  }

  lemma {:induction false} TimesOne(e: Byte)
    ensures Times(Bytes, 1, e) == Double(e)
  {
    assert Times(Bytes, 0, e) == e;
  }

  lemma {:induction false} TimesSeventeen(e: Byte)
    ensures Times(Bytes, 17, e) == BySeventeen(e)
  {
    TimesOne(e);
    TimesEightIs(Double(e));
    TimesEightIs(Eight(Double(e)));
    TimesTimes(Bytes, 8, 1, e);
    TimesTimes(Bytes, 8, 9, e);
    SeventeenDoublings(e);
  }

  lemma {:induction false} TimesFifteen(e: Byte)
    ensures Times(Bytes, 15, e) == ByFifteen(e)
  {
    var e1 := Double(e);
    var e3 := Double(Double(e1));
    var e5 := Double(Double(e3));
    var e7 := Double(Double(e5));
    TimesOne(e);
    TimesTwo(Bytes, e1);
    TimesTwo(Bytes, e3);
    TimesTwo(Bytes, e5);
    TimesTimes(Bytes, 2, 1, e);
    TimesTimes(Bytes, 2, 3, e);
    TimesTimes(Bytes, 2, 5, e);
    TimesEightIs(e7);
    TimesTimes(Bytes, 8, 7, e);
    FifteenDoublings(e);
  }

  lemma {:induction false} TimesFiftyOne(e: Byte)
    ensures Times(Bytes, 51, e) == ByFiftyOne(e)
  {
    TimesSeventeen(e);
    TimesSeventeen(BySeventeen(e));
    TimesSeventeen(BySeventeen(BySeventeen(e)));
    TimesTimes(Bytes, 17, 17, e);
    TimesTimes(Bytes, 17, 34, e);
    ThreeSeventeens(e);
  }

  // ----- the powers that leave a byte as it is

  ghost predicate Fixes(n: nat, e: Byte) {
    Times(Bytes, n, e) == e
  }

  lemma {:induction false} FixesFull(e: Byte)
    ensures Fixes(255, e)
  {
    var a := ByFiftyOne(e);
    var b := ByFiftyOne(a);
    var c := ByFiftyOne(b);
    var d := ByFiftyOne(c);
    TimesFiftyOne(e);
    TimesFiftyOne(a);
    TimesFiftyOne(b);
    TimesFiftyOne(c);
    TimesFiftyOne(d);
    TimesTimes(Bytes, 51, 51, e);
    TimesTimes(Bytes, 51, 102, e);
    TimesTimes(Bytes, 51, 153, e);
    TimesTimes(Bytes, 51, 204, e);
    FiveFiftyOnes(e);
  }

  lemma {:induction false} TimesIsInjective(n: nat, x: Byte, y: Byte)
    requires Times(Bytes, n, x) == Times(Bytes, n, y)
    ensures x == y
  {
    if n > 0 {
      DoubleIsInjective(Times(Bytes, n - 1, x), Times(Bytes, n - 1, y));
      TimesIsInjective(n - 1, x, y);
    }
  }

  lemma {:induction false} FixesDifference(a: nat, b: nat, e: Byte)
    requires b <= a && Fixes(a, e) && Fixes(b, e)
    ensures Fixes(a - b, e)
  {
    TimesTimes(Bytes, b, a - b, e);
    TimesIsInjective(b, Times(Bytes, a - b, e), e);
  }

  lemma {:induction false} FixesMultiple(n: nat, k: nat, e: Byte)
    requires Fixes(n, e)
    ensures Fixes(k * n, e)
    decreases k
  {
    if k == 0 {
      assert k * n == 0;
    } else {
      FixesMultiple(n, k - 1, e);
      TimesTimes(Bytes, n, (k - 1) * n, e);
      assert n + (k - 1) * n == k * n;
    }
  }

  lemma {:induction false} QuotientAndRemainder(a: nat, b: nat)
    requires b > 0
    ensures a / b * b + a % b == a
  {
  }

  lemma {:induction false} FixesRemainder(a: nat, b: nat, e: Byte)
    requires b > 0 && Fixes(a, e) && Fixes(b, e)
    ensures Fixes(a % b, e)
  {
    var q := a / b;
    QuotientAndRemainder(a, b);
    FixesMultiple(b, q, e);
    FixesDifference(a, q * b, e);
  }

  /** The smallest power that leaves a byte as it is. */
  lemma {:induction false} SmallestFixing(d: nat, e: Byte) returns (n: nat)
    requires d > 0 && Fixes(d, e)
    ensures 0 < n <= d && Fixes(n, e) && forall m :: 0 < m < n ==> !Fixes(m, e)
    decreases d
  {
    if m :| 0 < m < d && Fixes(m, e) {
      n := SmallestFixing(m, e);
    } else {
      n := d;
    }
  }

  /** Divisors of 255 up to `n` divide 15 or 17. */
  predicate DivisorsUpTo(n: nat) {
    n > 0 ==> (255 % n == 0 ==> 15 % n == 0 || 17 % n == 0) && DivisorsUpTo(n - 1)
  }

  lemma {:induction false} DivisorsBelow(n: nat, m: nat)
    requires 0 < m <= n && DivisorsUpTo(n)
    ensures 255 % m == 0 ==> 15 % m == 0 || 17 % m == 0
    decreases n
  {
    if m < n {
      DivisorsBelow(n - 1, m);
    }
  }

  lemma {:induction false} SmallDivisors()
    ensures DivisorsUpTo(44)
  {
    assert DivisorsUpTo(4);
    assert DivisorsUpTo(9);
    assert DivisorsUpTo(14);
    assert DivisorsUpTo(19);
    assert DivisorsUpTo(24);
    assert DivisorsUpTo(29);
    assert DivisorsUpTo(34);
    assert DivisorsUpTo(39);
  }

  const LONGEST: nat := 45

  /** No power of two below 2^45 other than one leaves a byte as it is. */
  lemma {:induction false} NoEarlyReturn(d: nat, e: Byte)
    requires e != 0 && 0 < d < LONGEST
    ensures !Fixes(d, e)
  {
    if Fixes(d, e) {
      var n := SmallestFixing(d, e);
      FixesFull(e);
      FixesRemainder(255, n, e);
      SmallDivisors();
      DivisorsBelow(44, n);
      NotByDivisor(n, e);
      assert false;
    }
  }

  lemma {:induction false} NotByDivisor(n: nat, e: Byte)
    requires e != 0 && n > 0 && (15 % n == 0 || 17 % n == 0)
    ensures !Fixes(n, e)
  {
    if Fixes(n, e) {
      FixesMultiple(n, 15 / n, e);
      FixesMultiple(n, 17 / n, e);
      QuotientAndRemainder(15, n);
      QuotientAndRemainder(17, n);
      TimesFifteen(e);
      TimesSeventeen(e);
      FifteenMoves(e);
      SeventeenMoves(e);
      assert false;
    }
  }

  /** Different weights of the same change are different. */
  lemma {:induction false} WeightsDiffer(i: nat, j: nat, e: Byte)
    requires e != 0 && i < LONGEST && j < LONGEST && Times(Bytes, i, e) == Times(Bytes, j, e)
    ensures i == j
  {
    var low, high := if i < j then i else j, if i < j then j else i;
    if i != j {
      TimesTimes(Bytes, low, high - low, e);
      TimesIsInjective(low, Times(Bytes, high - low, e), e);
      NoEarlyReturn(high - low, e);
      assert false;
    }
  }

  // ----- one wrong byte

  /** One changed byte of a codeword of up to 45 bytes, which both layers of parity
      use, is found: the plain syndrome is the change, and the weighted syndrome
      is that change times the weight of one place only. */
  lemma {:induction false} OneErrorIsLocated(word: seq<Byte>, k: nat, v: Byte, j: nat)
    requires IsCodeword(Bytes, word) && |word| <= LONGEST && k < |word| && v != word[k] && j < |word|
    ensures var bad := word[k := v];
            && Sum(Bytes, bad) == Xor(word[k], v) && Sum(Bytes, bad) != 0
            && (Weighted(Bytes, bad) == Times(Bytes, |word| - 1 - j, Sum(Bytes, bad)) <==> j == k)
            && bad[k := Xor(v, Sum(Bytes, bad))] == word
  {
    var bad := word[k := v];
    BytesAreLawful();
    OneErrorSyndromes(Bytes, word, k, v);
    if Weighted(Bytes, bad) == Times(Bytes, |word| - 1 - j, Sum(Bytes, bad)) {
      WeightsDiffer(|word| - 1 - k, |word| - 1 - j, Sum(Bytes, bad));
    }
    XorBack(word[k], v);
    assert bad[k := word[k]] == word;
  }

  lemma {:induction false} XorBack(x: Byte, y: Byte)
    ensures Xor(y, Xor(x, y)) == x
  {
  }
}
