/** The shared wildcard matcher: a greedy loop over two indices, and the meaning of a
    pattern that it decides. */
module Wildcard {

  import opened Wrappers

  /** What a pattern matches: a wildcard token stands for any run of values, any
      other token for one value it accepts. */
  predicate Glob<P(!new), T(!new)>(pattern: seq<P>, value: seq<T>, multi: P -> bool, single: (P, T) -> bool)
    decreases |pattern| + |value|
  {
    if pattern == [] then value == []
    else if multi(pattern[0]) then
      Glob(pattern[1..], value, multi, single) || (value != [] && Glob(pattern, value[1..], multi, single))
    else value != [] && single(pattern[0], value[0]) && Glob(pattern[1..], value[1..], multi, single)
  }

  /** The `n` tokens before `p` are plain and match the `n` values before `v`. */
  predicate Matching<P(!new), T(!new)>(
    pattern: seq<P>, value: seq<T>, p: nat, v: nat, n: nat, multi: P -> bool, single: (P, T) -> bool)
  {
    && n <= p <= |pattern| && n <= v <= |value|
    && (n > 0 ==>
          && !multi(pattern[p - 1]) && single(pattern[p - 1], value[v - 1])
          && Matching(pattern, value, p - 1, v - 1, n - 1, multi, single))
  }

  /** Once a wildcard can start at some value, it can start at any earlier one. */
  lemma {:induction false} StarAbsorbs<P(!new), T(!new)>(
    pattern: seq<P>, value: seq<T>, i: nat, j: nat, multi: P -> bool, single: (P, T) -> bool)
    requires pattern != [] && multi(pattern[0]) && i <= j <= |value|
    requires Glob(pattern, value[j..], multi, single)
    ensures Glob(pattern, value[i..], multi, single)
    decreases j - i
  {
    if i < j {
      StarAbsorbs(pattern, value, i + 1, j, multi, single);
      assert value[i..][1..] == value[i + 1..];
    }
  }

  /** A matching run of plain tokens can be taken off the front. */
  lemma {:induction false} PeelRun<P(!new), T(!new)>(
    pattern: seq<P>, value: seq<T>, p: nat, v: nat, n: nat, multi: P -> bool, single: (P, T) -> bool)
    requires Matching(pattern, value, p, v, n, multi, single)
    ensures Glob(pattern[p - n..], value[v - n..], multi, single) == Glob(pattern[p..], value[v..], multi, single)
    decreases n
  {
    if n > 0 {
      PeelRun(pattern, value, p - 1, v - 1, n - 1, multi, single);
      assert pattern[p - 1..][1..] == pattern[p..] && value[v - 1..][1..] == value[v..];
    }
  }

  /** Wherever such a run matches, the rest is matched that much further on. */
  lemma {:induction false} RunAdvances<P(!new), T(!new)>(
    pattern: seq<P>, value: seq<T>, p: nat, v: nat, n: nat, k: nat, multi: P -> bool, single: (P, T) -> bool)
    requires Matching(pattern, value, p, v, n, multi, single) && k <= |value|
    requires Glob(pattern[p - n..], value[k..], multi, single)
    ensures k + n <= |value| && Glob(pattern[p..], value[k + n..], multi, single)
    decreases n
  {
    if n > 0 {
      RunAdvances(pattern, value, p - 1, v - 1, n - 1, k, multi, single);
      var j := k + (n - 1);
      assert pattern[p - 1..][1..] == pattern[p..] && value[j..][1..] == value[j + 1..];
    }
  }

  /** A wildcard followed by something: some later position matches the rest. */
  lemma {:induction false} StarMeans<P(!new), T(!new)>(
    pattern: seq<P>, value: seq<T>, s: nat, at: nat, multi: P -> bool, single: (P, T) -> bool)
    requires s < |pattern| && multi(pattern[s]) && at <= |value|
    ensures Glob(pattern[s..], value[at..], multi, single) <==>
            exists k :: at <= k <= |value| && Glob(pattern[s + 1..], value[k..], multi, single)
    decreases |value| - at
  {
    assert pattern[s..][1..] == pattern[s + 1..];
    if at < |value| {
      StarMeans(pattern, value, s, at + 1, multi, single);
      assert value[at..][1..] == value[at + 1..];
    } else {
      assert value[at..] == [];
    }
  }

  /** Reaching the next wildcard makes the earlier one irrelevant. */
  lemma {:induction false} LaterStarDecides<P(!new), T(!new)>(
    pattern: seq<P>, value: seq<T>, s: nat, sv: nat, p: nat, v: nat, multi: P -> bool, single: (P, T) -> bool)
    requires s < p < |pattern| && multi(pattern[s]) && multi(pattern[p]) && v == sv + (p - (s + 1))
    requires Matching(pattern, value, p, v, p - (s + 1), multi, single)
    ensures Glob(pattern[s..], value[sv..], multi, single) == Glob(pattern[p..], value[v..], multi, single)
  {
    if Glob(pattern[s..], value[sv..], multi, single) {
      StarMeans(pattern, value, s, sv, multi, single);
      var k :| sv <= k <= |value| && Glob(pattern[s + 1..], value[k..], multi, single);
      RunAdvances(pattern, value, p, v, p - (s + 1), k, multi, single);
      StarAbsorbs(pattern[p..], value, v, k + (p - (s + 1)), multi, single);
    } else {
      PeelRun(pattern, value, p, v, p - (s + 1), multi, single);
      assert pattern[s..][1..] == pattern[s + 1..];
    }
  }

  /** When the plain tokens after a wildcard stop matching, the wildcard takes
      one more value. */
  lemma {:induction false} StarTakesOneMore<P(!new), T(!new)>(
    pattern: seq<P>, value: seq<T>, s: nat, sv: nat, p: nat, v: nat, multi: P -> bool, single: (P, T) -> bool)
    requires s < p <= |pattern| && multi(pattern[s]) && v == sv + (p - (s + 1)) < |value|
    requires Matching(pattern, value, p, v, p - (s + 1), multi, single)
    requires p < |pattern| ==> !multi(pattern[p]) && !single(pattern[p], value[v])
    ensures Glob(pattern[s..], value[sv..], multi, single) == Glob(pattern[s..], value[sv + 1..], multi, single)
  {
    PeelRun(pattern, value, p, v, p - (s + 1), multi, single);
    assert value[v..] != [] && value[v..][0] == value[v];
    assert p < |pattern| ==> pattern[p..][0] == pattern[p];
    assert pattern[s..][1..] == pattern[s + 1..] && value[sv..][1..] == value[sv + 1..];
  }

  predicate AllMulti<P(!new)>(pattern: seq<P>, multi: P -> bool) {
    forall i :: 0 <= i < |pattern| ==> multi(pattern[i])
  }

  lemma {:induction false} GlobNothing<P(!new), T(!new)>(pattern: seq<P>, multi: P -> bool, single: (P, T) -> bool)
    ensures Glob(pattern, [], multi, single) <==> AllMulti(pattern, multi)
    decreases |pattern|
  {
    if pattern != [] {
      GlobNothing(pattern[1..], multi, single);
      assert AllMulti(pattern, multi) <==> multi(pattern[0]) && AllMulti(pattern[1..], multi);
    }
  }

  /** With the value used up, only wildcards may remain. */
  lemma {:induction false} StarAtEnd<P(!new), T(!new)>(
    pattern: seq<P>, value: seq<T>, s: nat, sv: nat, p: nat, multi: P -> bool, single: (P, T) -> bool)
    requires s < p <= |pattern| && multi(pattern[s]) && |value| == sv + (p - (s + 1))
    requires Matching(pattern, value, p, |value|, p - (s + 1), multi, single)
    ensures Glob(pattern[s..], value[sv..], multi, single) == Glob(pattern[p..], [], multi, single)
  {
    var v := |value|;
    StarMeans(pattern, value, s, sv, multi, single);
    PeelRun(pattern, value, p, v, p - (s + 1), multi, single);
    assert value[v..] == [];
    if k :| sv <= k <= v && Glob(pattern[s + 1..], value[k..], multi, single) {
      RunAdvances(pattern, value, p, v, p - (s + 1), k, multi, single);
      assert k == sv;
    }
  }

  /** What the loop knows: matching the whole comes down to matching from the
      last wildcard, behind which plain tokens have matched so far. */
  ghost predicate Progress<P(!new), T(!new)>(
    pattern: seq<P>, value: seq<T>, p: nat, v: nat, star: Option<nat>, sv: nat,
    multi: P -> bool, single: (P, T) -> bool)
  {
    && p <= |pattern| && v <= |value|
    && match star
       case None => Glob(pattern, value, multi, single) == Glob(pattern[p..], value[v..], multi, single)
       case Some(s) =>
         && s < p && multi(pattern[s]) && sv <= v && v == sv + (p - (s + 1))
         && Matching(pattern, value, p, v, p - (s + 1), multi, single)
         && Glob(pattern, value, multi, single) == Glob(pattern[s..], value[sv..], multi, single)
  }

  lemma {:induction false} FoundStar<P(!new), T(!new)>(
    pattern: seq<P>, value: seq<T>, p: nat, v: nat, star: Option<nat>, sv: nat,
    multi: P -> bool, single: (P, T) -> bool)
    requires Progress(pattern, value, p, v, star, sv, multi, single) && p < |pattern| && multi(pattern[p])
    ensures Progress(pattern, value, p + 1, v, Some(p), v, multi, single)
  {
    if star.Some? {
      LaterStarDecides(pattern, value, star.value, sv, p, v, multi, single);
    }
  }

  lemma {:induction false} MatchedOne<P(!new), T(!new)>(
    pattern: seq<P>, value: seq<T>, p: nat, v: nat, star: Option<nat>, sv: nat,
    multi: P -> bool, single: (P, T) -> bool)
    requires Progress(pattern, value, p, v, star, sv, multi, single)
    requires p < |pattern| && v < |value| && !multi(pattern[p]) && single(pattern[p], value[v])
    ensures Progress(pattern, value, p + 1, v + 1, star, sv, multi, single)
  {
    assert pattern[p..][1..] == pattern[p + 1..] && value[v..][1..] == value[v + 1..];
  }

  lemma {:induction false} Mismatch<P(!new), T(!new)>(
    pattern: seq<P>, value: seq<T>, p: nat, v: nat, star: Option<nat>, sv: nat,
    multi: P -> bool, single: (P, T) -> bool)
    requires Progress(pattern, value, p, v, star, sv, multi, single) && v < |value|
    requires p < |pattern| ==> !multi(pattern[p]) && !single(pattern[p], value[v])
    ensures star.None? ==> !Glob(pattern, value, multi, single)
    ensures star.Some? ==> Progress(pattern, value, star.value + 1, sv + 1, star, sv + 1, multi, single)
  {
    if star.None? {
      assert value[v..] != [] && value[v..][0] == value[v];
      assert p < |pattern| ==> pattern[p..][0] == pattern[p];
    } else {
      StarTakesOneMore(pattern, value, star.value, sv, p, v, multi, single);
    }
  }

  lemma {:induction false} Finished<P(!new), T(!new)>(
    pattern: seq<P>, value: seq<T>, p: nat, star: Option<nat>, sv: nat, multi: P -> bool, single: (P, T) -> bool)
    requires Progress(pattern, value, p, |value|, star, sv, multi, single)
    ensures Glob(pattern, value, multi, single) == AllMulti(pattern[p..], multi)
  {
    assert value[|value|..] == [];
    if star.Some? {
      StarAtEnd(pattern, value, star.value, sv, p, multi, single);
    }
    GlobNothing(pattern[p..], multi, single);
  }

  method WildcardMatches<P(!new), T(!new)>(pattern: seq<P>, value: seq<T>, multi: P -> bool, single: (P, T) -> bool)
    returns (matched: bool)
    ensures matched == Glob(pattern, value, multi, single)
  {
    var p: nat, v: nat := 0, 0;
    var star: Option<nat> := None;
    var sv: nat := 0;
    while v < |value|
      invariant Progress(pattern, value, p, v, star, sv, multi, single) && sv <= v
      decreases if star.None? then |pattern| + 1 else |pattern| - star.value, |value| - sv, |value| - v
    {
      if p < |pattern| && multi(pattern[p]) {
        FoundStar(pattern, value, p, v, star, sv, multi, single);
        star := Some(p);
        p := p + 1;
        sv := v;
      } else if p < |pattern| && single(pattern[p], value[v]) {
        MatchedOne(pattern, value, p, v, star, sv, multi, single);
        p := p + 1;
        v := v + 1;
      } else {
        Mismatch(pattern, value, p, v, star, sv, multi, single);
        if star.None? {
          return false;
        }
        p := star.value + 1;
        sv := sv + 1;
        v := sv;
      }
    }
    Finished(pattern, value, p, star, sv, multi, single);
    matched := SkipStars(pattern, p, multi);
  }

  /** The closing loop: only wildcards may be left over. */
  method SkipStars<P(!new)>(pattern: seq<P>, start: nat, multi: P -> bool) returns (atEnd: bool)
    requires start <= |pattern|
    ensures atEnd == AllMulti(pattern[start..], multi)
  {
    var p := start;
    while p < |pattern| && multi(pattern[p])
      invariant start <= p <= |pattern| && AllMulti(pattern[start..p], multi)
    {
      assert pattern[start..p + 1] == pattern[start..p] + [pattern[p]];
      p := p + 1;
    }
    assert p < |pattern| ==> pattern[start..][p - start] == pattern[p];
    assert p == |pattern| ==> pattern[start..p] == pattern[start..];
    return p == |pattern|;
  }

  // ----- patterns of characters

  predicate IsStar(c: char) {
    c == '*'
  }

  predicate AcceptsChar(p: char, c: char) {
    p == '?' || p == c
  }

  /** A segment against a pattern with `*` and `?`. */
  predicate SegmentMatches(value: string, pattern: string) {
    Glob(pattern, value, IsStar, AcceptsChar)
  }

  predicate IsLiteral(pattern: string) {
    '*' !in pattern && '?' !in pattern
  }

  /** A pattern without wildcards matches itself only. */
  lemma {:induction false} LiteralMatchesItself(value: string, pattern: string)
    requires IsLiteral(pattern)
    ensures SegmentMatches(value, pattern) <==> value == pattern
    decreases |pattern|
  {
    if pattern != "" {
      assert pattern[0] in pattern;
      if value != "" {
        LiteralMatchesItself(value[1..], pattern[1..]);
        assert value == [value[0]] + value[1..] && pattern == [pattern[0]] + pattern[1..];
      }
    }
  }

  // ----- putting patterns together and taking them apart

  /** What two patterns match together falls into two parts. */
  lemma {:induction false} GlobSplit<P(!new), T(!new)>(
    a: seq<P>, b: seq<P>, v: seq<T>, multi: P -> bool, single: (P, T) -> bool) returns (i: nat)
    requires Glob(a + b, v, multi, single)
    ensures i <= |v| && Glob(a, v[..i], multi, single) && Glob(b, v[i..], multi, single)
    decreases |a| + |v|
  {
    if a == [] {
      assert a + b == b;
      i := 0;
    } else {
      assert (a + b)[0] == a[0] && (a + b)[1..] == a[1..] + b;
      if multi(a[0]) && Glob(a[1..] + b, v, multi, single) {
        i := GlobSplit(a[1..], b, v, multi, single);
      } else {
        i := GlobSplit(if multi(a[0]) then a else a[1..], b, v[1..], multi, single);
        i := i + 1;
        assert v[..i][0] == v[0] && v[..i][1..] == v[1..][..i - 1] && v[1..][i - 1..] == v[i..];
      }
    }
  }

  lemma {:induction false} MultiMatchesAll<P(!new), T(!new)>(p: P, v: seq<T>, multi: P -> bool, single: (P, T) -> bool)
    requires multi(p)
    ensures Glob([p], v, multi, single)
    decreases |v|
  {
    assert [p][1..] == [];
    if v != [] {
      MultiMatchesAll(p, v[1..], multi, single);
    }
  }

  lemma {:induction false} GlobConcat<P(!new), T(!new)>(
    a: seq<P>, b: seq<P>, x: seq<T>, y: seq<T>, multi: P -> bool, single: (P, T) -> bool)
    requires Glob(a, x, multi, single) && Glob(b, y, multi, single)
    ensures Glob(a + b, x + y, multi, single)
    decreases |a| + |x|
  {
    if a == [] {
      assert a + b == b && x + y == y;
    } else {
      assert (a + b)[0] == a[0] && (a + b)[1..] == a[1..] + b;
      if multi(a[0]) && Glob(a[1..], x, multi, single) {
        GlobConcat(a[1..], b, x, y, multi, single);
      } else {
        assert (x + y)[0] == x[0] && (x + y)[1..] == x[1..] + y;
        GlobConcat(if multi(a[0]) then a else a[1..], b, x[1..], y, multi, single);
      }
    }
  }

  /** Whatever a pattern matches, some front part of it matches any front part. */
  lemma {:induction false} GlobFront<P(!new), T(!new)>(
    pattern: seq<P>, x: seq<T>, y: seq<T>, multi: P -> bool, single: (P, T) -> bool)
    returns (k: nat)
    requires Glob(pattern, x + y, multi, single)
    ensures k <= |pattern| && Glob(pattern[..k], x, multi, single)
    decreases |pattern| + |x|
  {
    if x == [] {
      return 0;
    }
    assert (x + y)[0] == x[0] && (x + y)[1..] == x[1..] + y;
    if multi(pattern[0]) && !Glob(pattern[1..], x + y, multi, single) {
      var n := GlobFront(pattern, x[1..], y, multi, single);
      k := if n == 0 then 1 else n;
      assert pattern[..k][0] == pattern[0];
      assert pattern[..1][1..] == [];
      assert n == 0 ==> x[1..] == [] && Glob(pattern[..1], x[1..], multi, single);
    } else {
      var n := GlobFront(pattern[1..], if multi(pattern[0]) then x else x[1..], y, multi, single);
      k := n + 1;
      assert pattern[..k][0] == pattern[0] && pattern[..k][1..] == pattern[1..][..n];
    }
  }

  /** Without wildcards a pattern matches as many values as it has tokens. */
  lemma {:induction false} PlainLength<P(!new), T(!new)>(
    pattern: seq<P>, value: seq<T>, multi: P -> bool, single: (P, T) -> bool)
    requires (forall k :: 0 <= k < |pattern| ==> !multi(pattern[k])) && Glob(pattern, value, multi, single)
    ensures |value| == |pattern|
    decreases |pattern|
  {
    if pattern != [] {
      PlainLength(pattern[1..], value[1..], multi, single);
    }
  }

  /** Behind the last wildcard, each token stands opposite the value equally far
      from the end. */
  lemma {:induction false} TailElement<P(!new), T(!new)>(
    pattern: seq<P>, value: seq<T>, k: nat, multi: P -> bool, single: (P, T) -> bool)
    requires k < |pattern| && (forall j :: k <= j < |pattern| ==> !multi(pattern[j]))
    requires Glob(pattern, value, multi, single)
    ensures |pattern| - k <= |value| && single(pattern[k], value[|value| - (|pattern| - k)])
    decreases |pattern| + |value|
  {
    if k == 0 {
      PlainLength(pattern, value, multi, single);
    } else if multi(pattern[0]) && !Glob(pattern[1..], value, multi, single) {
      TailElement(pattern, value[1..], k, multi, single);
    } else {
      TailElement(pattern[1..], if multi(pattern[0]) then value else value[1..], k - 1, multi, single);
    }
  }

  // ----- open tails

  /** Behind some wildcard there are only wildcards and tokens that accept
      anything. */
  predicate OpenTail<P(!new)>(pattern: seq<P>, multi: P -> bool, any: P -> bool) {
    exists i :: 0 <= i < |pattern| && OpenFrom(pattern, i, multi, any)
  }

  predicate OpenFrom<P(!new)>(pattern: seq<P>, i: nat, multi: P -> bool, any: P -> bool)
    requires i < |pattern|
  {
    multi(pattern[i]) && forall k :: i < k < |pattern| ==> multi(pattern[k]) || any(pattern[k])
  }

  /** Tokens that accept anything accept each of these values. */
  ghost predicate AcceptsAll<P(!new), T(!new)>(value: seq<T>, any: P -> bool, single: (P, T) -> bool) {
    forall p, i :: any(p) && 0 <= i < |value| ==> single(p, value[i])
  }

  function PlainCount<P(!new)>(pattern: seq<P>, multi: P -> bool): nat {
    if pattern == [] then 0 else (if multi(pattern[0]) then 0 else 1) + PlainCount(pattern[1..], multi)
  }

  lemma {:induction false} AtLeastPlain<P(!new), T(!new)>(
    pattern: seq<P>, value: seq<T>, multi: P -> bool, single: (P, T) -> bool)
    requires Glob(pattern, value, multi, single)
    ensures |value| >= PlainCount(pattern, multi)
    decreases |pattern| + |value|
  {
    if pattern != [] {
      if multi(pattern[0]) && !Glob(pattern[1..], value, multi, single) {
        AtLeastPlain(pattern, value[1..], multi, single);
      } else {
        AtLeastPlain(pattern[1..], if multi(pattern[0]) then value else value[1..], multi, single);
      }
    }
  }

  lemma {:induction false} ExactlyPlain<P(!new), T(!new)>(
    pattern: seq<P>, value: seq<T>, multi: P -> bool, any: P -> bool, single: (P, T) -> bool)
    requires (forall k :: 0 <= k < |pattern| ==> multi(pattern[k]) || any(pattern[k]))
    requires AcceptsAll(value, any, single) && |value| == PlainCount(pattern, multi)
    ensures Glob(pattern, value, multi, single)
    decreases |pattern|
  {
    if pattern != [] {
      ExactlyPlain(pattern[1..], if multi(pattern[0]) then value else value[1..], multi, any, single);
    }
  }

  /** An open tail takes up anything more. */
  lemma {:induction false} OpenTailTakesMore<P(!new), T(!new)>(
    pattern: seq<P>, i: nat, value: seq<T>, more: seq<T>, multi: P -> bool, any: P -> bool, single: (P, T) -> bool)
    requires i < |pattern| && OpenFrom(pattern, i, multi, any) && Glob(pattern, value, multi, single)
    requires AcceptsAll(value + more, any, single)
    ensures Glob(pattern, value + more, multi, single)
    decreases |pattern| + |value|
  {
    var all := value + more;
    if i == 0 {
      AtLeastPlain(pattern, value, multi, single);
      var n := PlainCount(pattern[1..], multi);
      var start := |all| - n;
      assert AcceptsAll(all[start..], any, single);
      ExactlyPlain(pattern[1..], all[start..], multi, any, single);
      StarAbsorbs(pattern, all, 0, start, multi, single);
      assert all[0..] == all;
    } else if multi(pattern[0]) && Glob(pattern[1..], value, multi, single) {
      OpenTailTakesMore(pattern[1..], i - 1, value, more, multi, any, single);
    } else {
      assert all[0] == value[0] && all[1..] == value[1..] + more;
      assert AcceptsAll(all[1..], any, single);
      if multi(pattern[0]) {
        OpenTailTakesMore(pattern, i, value[1..], more, multi, any, single);
      } else {
        OpenTailTakesMore(pattern[1..], i - 1, value[1..], more, multi, any, single);
      }
    }
  }

  /** Without an open tail, a token that does not accept anything stands behind
      every wildcard. */
  lemma {:induction false} ClosedTail<P(!new)>(pattern: seq<P>, multi: P -> bool, any: P -> bool) returns (k: nat)
    requires !OpenTail(pattern, multi, any) && (exists j :: 0 <= j < |pattern| && multi(pattern[j]))
    ensures k < |pattern| && !any(pattern[k]) && forall j :: k <= j < |pattern| ==> !multi(pattern[j])
    decreases |pattern|
  {
    var n := |pattern| - 1;
    var front := pattern[..n];
    if multi(pattern[n]) {
      assert OpenFrom(pattern, n, multi, any);
      assert false;
    } else if !any(pattern[n]) {
      k := n;
    } else {
      forall i | 0 <= i < n && OpenFrom(front, i, multi, any) ensures OpenFrom(pattern, i, multi, any) {
        forall j | i < j < |pattern| ensures multi(pattern[j]) || any(pattern[j]) {
          assert j < n ==> front[j] == pattern[j];
        }
      }
      var j :| 0 <= j < |pattern| && multi(pattern[j]);
      assert multi(front[j]);
      k := ClosedTail(front, multi, any);
    }
  }

  // ----- segments that match every name

  predicate IsWild(c: char) {
    c == '*' || c == '?'
  }

  predicate IsQuestion(c: char) {
    c == '?'
  }

  function Questions(pattern: string): nat {
    if pattern == "" then 0 else (if pattern[0] == '?' then 1 else 0) + Questions(pattern[1..])
  }

  /** A pattern of `*` and `?` alone asks only for a length. */
  lemma {:induction false} WildLength(pattern: string, value: string)
    requires forall i :: 0 <= i < |pattern| ==> IsWild(pattern[i])
    ensures SegmentMatches(value, pattern) <==>
            |value| >= Questions(pattern) && ('*' in pattern || |value| == Questions(pattern))
    decreases |pattern| + |value|
  {
    if pattern != "" {
      assert IsWild(pattern[0]);
      assert '*' in pattern <==> pattern[0] == '*' || '*' in pattern[1..];
      if pattern[0] == '*' {
        WildLength(pattern[1..], value);
        if value != "" {
          WildLength(pattern, value[1..]);
        }
      } else if value != "" {
        WildLength(pattern[1..], value[1..]);
      }
    }
  }

  /** A character that is no wildcard must occur in the value. */
  lemma {:induction false} LiteralOccurs(pattern: string, value: string, c: char)
    requires c in pattern && !IsWild(c) && SegmentMatches(value, pattern)
    ensures c in value
    decreases |pattern| + |value|
  {
    if pattern[0] == '*' && !SegmentMatches(value, pattern[1..]) {
      LiteralOccurs(pattern, value[1..], c);
    } else if pattern[0] == '*' {
      LiteralOccurs(pattern[1..], value, c);
    } else if pattern[0] != c {
      LiteralOccurs(pattern[1..], value[1..], c);
    }
  }

  /** Only wildcards, a `*` among them, and at most one `?`. */
  predicate MatchesEveryName(pattern: string) {
    (forall i :: 0 <= i < |pattern| ==> IsWild(pattern[i])) && '*' in pattern && Questions(pattern) <= 1
  }

  predicate IsName(name: string) {
    name != "" && '/' !in name
  }

  lemma {:induction false} EveryNameMatches(pattern: string, name: string)
    requires MatchesEveryName(pattern) && name != ""
    ensures SegmentMatches(name, pattern)
  {
    WildLength(pattern, name);
  }

  /** Any other pattern leaves out a name, and even one other than a given name. */
  lemma {:induction false} SomeNameIsLeftOut(pattern: string, other: string) returns (name: string)
    requires !MatchesEveryName(pattern)
    ensures IsName(name) && name != other && !SegmentMatches(name, pattern)
  {
    if i :| 0 <= i < |pattern| && !IsWild(pattern[i]) {
      var d := if pattern[i] == 'a' then 'b' else 'a';
      name := if other == [d] then [d, d] else [d];
      if SegmentMatches(name, pattern) {
        LiteralOccurs(pattern, name, pattern[i]);
        assert false;
      }
    } else {
      var short, long := if other == "a" then "b" else "a", if other == "aa" then "bb" else "aa";
      WildLength(pattern, short);
      WildLength(pattern, long);
      name := if SegmentMatches(short, pattern) then long else short;
    }
  }

  /** A name every segment pattern has. */
  lemma {:induction false} SomeNameMatches(pattern: string) returns (name: string)
    requires IsName(pattern)
    ensures IsName(name) && SegmentMatches(name, pattern)
    decreases |pattern|
  {
    var c := if IsWild(pattern[0]) then 'x' else pattern[0];
    assert '/' !in pattern[1..];
    if |pattern| == 1 {
      assert pattern[1..] == "";
      name := [c];
      assert name[1..] == "";
      assert SegmentMatches("", "");
      assert pattern[0] == '*' ==> SegmentMatches("", pattern);
    } else {
      var rest := SomeNameMatches(pattern[1..]);
      name := [c] + rest;
      assert name[1..] == rest;
      assert pattern[0] == '*' ==> SegmentMatches(rest, pattern);
    }
  }
}
