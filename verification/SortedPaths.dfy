/** Sorting by path, as the planner does before it reports. */
module SortedPaths {

  /** Byte order on strings. */
  predicate Leq(a: string, b: string) {
    a == "" || (b != "" && (a[0] < b[0] || (a[0] == b[0] && Leq(a[1..], b[1..]))))
  }

  lemma {:induction false} LeqTotal(a: string, b: string)
    ensures Leq(a, b) || Leq(b, a)
    ensures Leq(a, b) && Leq(b, a) ==> a == b
  {
    if a != "" && b != "" {
      LeqTotal(a[1..], b[1..]);
      assert a == [a[0]] + a[1..] && b == [b[0]] + b[1..];
    }
  }

  lemma {:induction false} LeqTransitive(a: string, b: string, c: string)
    requires Leq(a, b) && Leq(b, c)
    ensures Leq(a, c)
  {
    if a != "" && a[0] == b[0] == c[0] {
      LeqTransitive(a[1..], b[1..], c[1..]);
    }
  }

  /** `a` is a prefix of `b`, or smaller where they first differ. */
  ghost predicate ComesFirst(a: string, b: string) {
    a <= b || exists k :: 0 <= k < |a| && k < |b| && a[..k] == b[..k] && a[k] < b[k]
  }

  lemma {:induction false} DifferAtOnce(a: string, b: string)
    requires a != "" && b != "" && a[0] != b[0]
    ensures ComesFirst(a, b) <==> a[0] < b[0]
  {
    forall k | 0 < k <= |a| && k <= |b| ensures a[..k] != b[..k] {
      assert a[..k][0] == a[0] && b[..k][0] == b[0];
    }
    if a[0] < b[0] {
      assert a[..0] == b[..0];
    }
  }

  lemma {:induction false} DifferLater(a: string, b: string)
    requires a != "" && b != "" && a[0] == b[0] && ComesFirst(a, b)
    ensures ComesFirst(a[1..], b[1..])
  {
    if !(a <= b) {
      var k :| 0 <= k < |a| && k < |b| && a[..k] == b[..k] && a[k] < b[k];
      assert a[1..][..k - 1] == a[..k][1..] && b[1..][..k - 1] == b[..k][1..];
      assert a[1..][k - 1] < b[1..][k - 1];
    }
  }

  lemma {:induction false} DifferBelow(a: string, b: string)
    requires a != "" && b != "" && a[0] == b[0] && ComesFirst(a[1..], b[1..])
    ensures ComesFirst(a, b)
  {
    var c, d := a[1..], b[1..];
    assert a == [a[0]] + c && b == [b[0]] + d;
    if !(c <= d) {
      var k :| 0 <= k < |c| && k < |d| && c[..k] == d[..k] && c[k] < d[k];
      assert a[..k + 1] == [a[0]] + c[..k] && b[..k + 1] == [b[0]] + d[..k];
      assert a[k + 1] < b[k + 1];
    }
  }

  lemma {:induction false} LeqIsByteOrder(a: string, b: string)
    ensures Leq(a, b) <==> ComesFirst(a, b)
    decreases |a|
  {
    if a != "" && b != "" {
      if a[0] != b[0] {
        DifferAtOnce(a, b);
      } else {
        LeqIsByteOrder(a[1..], b[1..]);
        if ComesFirst(a, b) {
          DifferLater(a, b);
        }
        if ComesFirst(a[1..], b[1..]) {
          DifferBelow(a, b);
        }
      }
    }
  }

  /** Elements of a sorted list come in the order of their keys. */
  lemma {:induction false} SortedInOrder<T>(s: seq<T>, key: T -> string, i: nat, j: nat)
    requires Sorted(s, key) && i < j < |s|
    ensures ComesFirst(key(s[i]), key(s[j]))
    decreases |s|
  {
    if i > 0 {
      SortedInOrder(s[1..], key, i - 1, j - 1);
    } else {
      assert s[j] in s;
      FirstIsLeast(s, key, s[j]);
      LeqIsByteOrder(key(s[0]), key(s[j]));
    }
  }

  /** Insertion in front of the first element that does not come before it. */
  function Insert<T>(x: T, s: seq<T>, key: T -> string): seq<T> {
    if s == [] then [x]
    else if Leq(key(x), key(s[0])) then [x] + s
    else [s[0]] + Insert(x, s[1..], key)
  }

  /** Stable sort by key. */
  function Sort<T>(s: seq<T>, key: T -> string): seq<T> {
    if s == [] then [] else Insert(s[0], Sort(s[1..], key), key)
  }

  predicate Sorted<T>(s: seq<T>, key: T -> string) {
    |s| > 1 ==> Leq(key(s[0]), key(s[1])) && Sorted(s[1..], key)
  }

  lemma {:induction false} InsertSorted<T>(x: T, s: seq<T>, key: T -> string)
    requires Sorted(s, key)
    ensures Sorted(Insert(x, s, key), key) && multiset(Insert(x, s, key)) == multiset(s) + multiset{x}
    ensures Insert(x, s, key) != [] && (Insert(x, s, key)[0] == x || (s != [] && Insert(x, s, key)[0] == s[0]))
    decreases |s|
  {
    if s != [] {
      assert s == [s[0]] + s[1..];
      if Leq(key(x), key(s[0])) {
        assert ([x] + s)[1..] == s;
      } else {
        LeqTotal(key(x), key(s[0]));
        InsertSorted(x, s[1..], key);
        var r := Insert(x, s, key);
        assert r[1..] == Insert(x, s[1..], key);
      }
    }
  }

  lemma {:induction false} SortIsSorted<T>(s: seq<T>, key: T -> string)
    ensures Sorted(Sort(s, key), key) && multiset(Sort(s, key)) == multiset(s)
    decreases |s|
  {
    if s != [] {
      SortIsSorted(s[1..], key);
      InsertSorted(s[0], Sort(s[1..], key), key);
      assert s == [s[0]] + s[1..];
    }
  }

  lemma {:induction false} FirstIsLeast<T>(s: seq<T>, key: T -> string, x: T)
    requires Sorted(s, key) && x in s
    ensures Leq(key(s[0]), key(x))
    decreases |s|
  {
    LeqTotal(key(x), key(x));
    if s[0] != x {
      assert x in s[1..];
      FirstIsLeast(s[1..], key, x);
      LeqTransitive(key(s[0]), key(s[1]), key(x));
    }
  }

  predicate DistinctKeys<T(!new)>(s: multiset<T>, key: T -> string) {
    && (forall x :: x in s ==> s[x] == 1)
    && (forall x, y :: x in s && y in s && key(x) == key(y) ==> x == y)
  }

  lemma {:induction false} MultisetTail<T(!new)>(s: seq<T>, key: T -> string)
    requires s != [] && DistinctKeys(multiset(s), key)
    ensures multiset(s[1..]) == multiset(s) - multiset{s[0]} && DistinctKeys(multiset(s[1..]), key)
  {
    assert s == [s[0]] + s[1..];
    var tail := multiset(s[1..]);
    assert multiset(s) == multiset{s[0]} + tail;
    forall x | x in tail ensures x in multiset(s) && tail[x] == 1 {
      assert multiset(s)[x] >= tail[x];
    }
  }

  lemma {:induction false} SameFirst<T(!new)>(a: seq<T>, b: seq<T>, key: T -> string)
    requires Sorted(a, key) && Sorted(b, key) && a != [] && b != []
    requires multiset(a) == multiset(b) && DistinctKeys(multiset(a), key)
    ensures a[0] == b[0]
  {
    assert a[0] in multiset(a) && b[0] in multiset(b);
    FirstIsLeast(a, key, b[0]);
    FirstIsLeast(b, key, a[0]);
    LeqTotal(key(a[0]), key(b[0]));
  }

  /** Elements with distinct keys have only one sorted order. */
  lemma {:induction false} SortedOnce<T(!new)>(a: seq<T>, b: seq<T>, key: T -> string)
    requires Sorted(a, key) && Sorted(b, key)
    requires multiset(a) == multiset(b) && DistinctKeys(multiset(a), key)
    ensures a == b
    decreases |a|
  {
    assert |a| == |multiset(a)| && |b| == |multiset(b)|;
    if a != [] {
      SameFirst(a, b, key);
      MultisetTail(a, key);
      MultisetTail(b, key);
      SortedOnce(a[1..], b[1..], key);
      assert a == [a[0]] + a[1..] && b == [b[0]] + b[1..];
    }
  }

  /** Two lists with the same elements, no element twice and no key twice sort
      alike. */
  lemma {:induction false} SortAlike<T(!new)>(a: seq<T>, b: seq<T>, key: T -> string)
    requires multiset(a) == multiset(b) && DistinctKeys(multiset(a), key)
    ensures Sort(a, key) == Sort(b, key)
  {
    SortIsSorted(a, key);
    SortIsSorted(b, key);
    SortedOnce(Sort(a, key), Sort(b, key), key);
  }
}
