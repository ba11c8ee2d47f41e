/** When pruning an ignored directory is right: exactly when the deciding rule's
    match passes down, and exactly when a later including rule is missed. */
module Pruning {

  import opened Wrappers
  import opened Text
  import opened Wildcard
  import opened Gitignore

  // ----- paths below a directory

  ghost predicate AreNames(names: seq<string>) {
    names != [] && forall i :: 0 <= i < |names| ==> IsName(names[i])
  }

  /** A path some names below another. */
  function Below(path: string, names: seq<string>): string {
    path + "/" + Join(names, '/')
  }

  lemma {:induction false} BelowSplits(path: string, names: seq<string>)
    requires AreNames(names)
    ensures Split(Below(path, names), SLASH) == Split(path, SLASH) + names
    ensures NoEmptySegment(path) ==> NoEmptySegment(Below(path, names))
  {
    SplitConcat(path, '/', Join(names, '/'), SLASH);
    SplitJoin(names, '/', SLASH);
  }

  lemma {:induction false} SegmentsOf(path: string)
    requires NoEmptySegment(path)
    ensures Segments(path) == Split(path, SLASH)
  {
    NonEmptyKeeps(Split(path, SLASH));
  }

  lemma {:induction false} SegmentsAreNames(path: string)
    ensures forall i :: 0 <= i < |Segments(path)| ==> IsName(Segments(path)[i])
  {
    assert Free(path, {});
    PiecesAreFree(path, SLASH, {});
    forall i | 0 <= i < |Segments(path)| ensures IsName(Segments(path)[i]) {
      NonEmptyMembers(Split(path, SLASH), Segments(path)[i]);
    }
  }

  lemma {:induction false} BelowSegments(r: string, names: seq<string>)
    requires NoEmptySegment(r) && AreNames(names)
    ensures Segments(Below(r, names)) == Segments(r) + names
  {
    BelowSplits(r, names);
    SegmentsOf(r);
    SegmentsOf(Below(r, names));
  }

  /** A path below another whose next name differs from the pattern's lies below
      the pattern only if the other does. */
  lemma {:induction false} LiterallyBelow(r: string, names: seq<string>, pattern: string)
    requires AreNames(names) && IsBelow(Below(r, names), pattern)
    ensures var n := |Split(r, SLASH)|;
            r == pattern || IsBelow(r, pattern) || (n < |Split(pattern, SLASH)| && Split(pattern, SLASH)[n] == names[0])
  {
    var q := Below(r, names);
    TwoAncestors(q, r, pattern);
    if IsBelow(pattern, r) {
      assert pattern == r + "/" + pattern[|r| + 1..];
      assert q == pattern + "/" + q[|pattern| + 1..];
      SplitConcat(r, '/', pattern[|r| + 1..], SLASH);
      SplitConcat(pattern, '/', q[|pattern| + 1..], SLASH);
      BelowSplits(r, names);
      assert Split(q, SLASH)[|Split(r, SLASH)|] == Split(pattern, SLASH)[|Split(r, SLASH)|];
    }
  }

  // ----- path rules

  /** The directory is the pattern or below it, or the pattern ends in a `**` that
      nothing more particular follows. */
  predicate PathPasses(r: string, pattern: string) {
    r == pattern || IsBelow(r, pattern) || OpenTail(Segments(pattern), IsDoubleStar, MatchesEveryName)
  }

  lemma {:induction false} OpenPathMatches(r: string, names: seq<string>, pattern: string)
    requires NoEmptySegment(r) && AreNames(names) && PathMatches(r, pattern)
    requires OpenTail(Segments(pattern), IsDoubleStar, MatchesEveryName)
    ensures PathMatches(Below(r, names), pattern)
  {
    var p, all := Segments(pattern), Segments(Below(r, names));
    var i :| 0 <= i < |p| && OpenFrom(p, i, IsDoubleStar, MatchesEveryName);
    BelowSegments(r, names);
    SegmentsAreNames(Below(r, names));
    forall seg, j | MatchesEveryName(seg) && 0 <= j < |all| ensures AcceptsSegment(seg, all[j]) {
      EveryNameMatches(seg, all[j]);
    }
    OpenTailTakesMore(p, i, Segments(r), names, IsDoubleStar, MatchesEveryName, AcceptsSegment);
  }

  lemma {:induction false} PathPassesDown(r: string, names: seq<string>, pattern: string)
    requires NoEmptySegment(r) && AreNames(names) && PathMatchesOrContains(r, pattern) && PathPasses(r, pattern)
    ensures PathMatchesOrContains(Below(r, names), pattern)
  {
    var q := Below(r, names);
    assert IsBelow(q, r);
    if r == pattern {
    } else if IsBelow(r, pattern) {
      BelowIsTransitive(q, r, pattern);
    } else {
      OpenPathMatches(r, names, pattern);
    }
  }

  /** A name other than a given one. */
  function OtherName(other: string): (name: string)
    ensures IsName(name) && name != other
  {
    if other == "a" then "b" else "a"
  }

  lemma {:induction false} FixedLengthLeavesOut(p: seq<string>, s: seq<string>, name: string)
    requires (forall k :: 0 <= k < |p| ==> !IsDoubleStar(p[k])) && Glob(p, s, IsDoubleStar, AcceptsSegment)
    ensures !Glob(p, s + [name], IsDoubleStar, AcceptsSegment)
  {
    PlainLength(p, s, IsDoubleStar, AcceptsSegment);
    if Glob(p, s + [name], IsDoubleStar, AcceptsSegment) {
      PlainLength(p, s + [name], IsDoubleStar, AcceptsSegment);
      assert false;
    }
  }

  lemma {:induction false} ClosedTailLeavesOut(p: seq<string>, s: seq<string>, other: string) returns (names: seq<string>)
    requires !OpenTail(p, IsDoubleStar, MatchesEveryName) && exists j :: 0 <= j < |p| && IsDoubleStar(p[j])
    ensures AreNames(names) && names[0] != other && !Glob(p, s + names, IsDoubleStar, AcceptsSegment)
  {
    var k := ClosedTail(p, IsDoubleStar, MatchesEveryName);
    var name := SomeNameIsLeftOut(p[k], other);
    names := [name] + seq(|p| - k - 1, _ => "a");
    var all := s + names;
    assert all[|all| - (|p| - k)] == name;
    if Glob(p, all, IsDoubleStar, AcceptsSegment) {
      TailElement(p, all, k, IsDoubleStar, AcceptsSegment);
      assert false;
    }
  }

  /** If a matching pattern does not pass, it leaves out some path below. */
  lemma {:induction false} PathLeftOut(r: string, pattern: string) returns (names: seq<string>)
    requires NoEmptySegment(r) && PathMatchesOrContains(r, pattern) && !PathPasses(r, pattern)
    ensures AreNames(names) && !PathMatchesOrContains(Below(r, names), pattern)
  {
    var p, s := Segments(pattern), Segments(r);
    var raw, n := Split(pattern, SLASH), |Split(r, SLASH)|;
    var other := if n < |raw| then raw[n] else "";
    if exists j :: 0 <= j < |p| && IsDoubleStar(p[j]) {
      names := ClosedTailLeavesOut(p, s, other);
    } else {
      names := [OtherName(other)];
      FixedLengthLeavesOut(p, s, names[0]);
    }
    BelowSegments(r, names);
    if IsBelow(Below(r, names), pattern) {
      LiterallyBelow(r, names, pattern);
      assert false;
    }
  }

  // ----- rules on single segments

  /** Some segment matches, or what matches is the whole path of a directory and
      the pattern ends in a `*` that only `?` follow. */
  predicate SegmentPasses(rule: Rule, r: string, isDirectory: bool) {
    || SomeSegmentMatches(r, rule.pattern)
    || (isDirectory && !rule.directoryOnly && OpenTail(rule.pattern, IsStar, IsQuestion))
  }

  /** What a rule without slashes makes of a relative path. */
  predicate SegmentRuleMatches(rule: Rule, r: string, isDirectory: bool) {
    || SomeSegmentMatches(r, rule.pattern)
    || (!rule.directoryOnly && isDirectory && SegmentMatches(r, rule.pattern))
  }

  lemma {:induction false} SegmentsBelow(r: string, rest: string, pattern: string)
    requires SomeSegmentMatches(r, pattern)
    ensures SomeSegmentMatches(r + "/" + rest, pattern)
  {
    var i :| 0 <= i < |Split(r, SLASH)| && SegmentMatches(Split(r, SLASH)[i], pattern);
    SplitConcat(r, '/', rest, SLASH);
    assert Split(r + "/" + rest, SLASH)[i] == Split(r, SLASH)[i];
  }

  lemma {:induction false} SegmentPassesDown(rule: Rule, r: string, names: seq<string>, isDirectory: bool)
    requires SegmentRuleMatches(rule, r, true) && SegmentPasses(rule, r, isDirectory) && AreNames(names)
    ensures SegmentRuleMatches(rule, Below(r, names), isDirectory)
  {
    if SomeSegmentMatches(r, rule.pattern) {
      SegmentsBelow(r, Join(names, '/'), rule.pattern);
    } else {
      var i :| 0 <= i < |rule.pattern| && OpenFrom(rule.pattern, i, IsStar, IsQuestion);
      var more := "/" + Join(names, '/');
      assert Below(r, names) == r + more;
      OpenTailTakesMore(rule.pattern, i, r, more, IsStar, IsQuestion, AcceptsChar);
    }
  }

  lemma {:induction false} SegmentsLeftOut(r: string, name: string, pattern: string)
    requires IsName(name) && !SomeSegmentMatches(r, pattern) && !SegmentMatches(name, pattern)
    ensures !SomeSegmentMatches(Below(r, [name]), pattern)
  {
    BelowSplits(r, [name]);
    var all := Split(Below(r, [name]), SLASH);
    forall i | 0 <= i < |all| ensures !SegmentMatches(all[i], pattern) {
      if i < |Split(r, SLASH)| {
        assert all[i] == Split(r, SLASH)[i];
      }
    }
  }

  /** A name that a pattern matching some whole path leaves out. */
  lemma {:induction false} NameLeftOut(r: string, pattern: string) returns (name: string)
    requires NoEmptySegment(r) && !SomeSegmentMatches(r, pattern)
    ensures IsName(name) && !SegmentMatches(name, pattern)
  {
    if MatchesEveryName(pattern) {
      EveryNameMatches(pattern, Split(r, SLASH)[0]);
      assert false;
      name := "";
    } else {
      name := SomeNameIsLeftOut(pattern, "");
    }
  }

  /** A name that leaves out the directory's path continued by it as well. */
  lemma {:induction false} NameAndPathLeftOut(r: string, pattern: string) returns (name: string)
    requires r != "" && SegmentMatches(r, pattern) && !OpenTail(pattern, IsStar, IsQuestion)
    ensures IsName(name) && !SegmentMatches(name, pattern) && !SegmentMatches(Below(r, [name]), pattern)
  {
    var q;
    if exists j :: 0 <= j < |pattern| && IsStar(pattern[j]) {
      var k := ClosedTail(pattern, IsStar, IsQuestion);
      var c := if pattern[k] == 'a' then 'b' else 'a';
      var t := |pattern| - k;
      name := seq(t, _ => c);
      q := Below(r, [name]);
      assert q == r + "/" + name;
      assert name[|name| - t] == c && q[|q| - t] == c;
      if SegmentMatches(name, pattern) {
        TailElement(pattern, name, k, IsStar, AcceptsChar);
        assert false;
      }
      if SegmentMatches(q, pattern) {
        TailElement(pattern, q, k, IsStar, AcceptsChar);
        assert false;
      }
    } else {
      PlainLength(pattern, r, IsStar, AcceptsChar);
      name := if |pattern| == 1 then "aa" else "a";
      q := Below(r, [name]);
      assert q == r + "/" + name;
      if SegmentMatches(name, pattern) {
        PlainLength(pattern, name, IsStar, AcceptsChar);
        assert false;
      }
      if SegmentMatches(q, pattern) {
        PlainLength(pattern, q, IsStar, AcceptsChar);
        assert false;
      }
    }
  }

  lemma {:induction false} SegmentLeftOut(rule: Rule, r: string, isDirectory: bool) returns (names: seq<string>)
    requires NoEmptySegment(r) && r != "" && SegmentRuleMatches(rule, r, true) && !SegmentPasses(rule, r, isDirectory)
    ensures AreNames(names) && !SegmentRuleMatches(rule, Below(r, names), isDirectory)
  {
    var name;
    if isDirectory {
      name := NameAndPathLeftOut(r, rule.pattern);
    } else {
      name := NameLeftOut(r, rule.pattern);
    }
    names := [name];
    SegmentsLeftOut(r, name, rule.pattern);
  }

  // ----- when a match passes down

  /** The condition on a rule and the path of a directory, relative to the rule's
      base, under which the match passes to files or directories below. */
  predicate PassesDown(rule: Rule, r: string, isDirectory: bool) {
    if IsPathRule(rule) then PathPasses(r, rule.pattern) else SegmentPasses(rule, r, isDirectory)
  }

  function Relative(rule: Rule, path: string): string
    requires IsBelow(path, rule.base)
  {
    path[|rule.base| + 1..]
  }

  lemma {:induction false} RelativeOf(rule: Rule, path: string)
    requires IsBelow(path, rule.base)
    ensures RelativePath(rule.base, path) == Some(Relative(rule, path))
    ensures NoEmptySegment(path) ==> NoEmptySegment(Relative(rule, path)) && Relative(rule, path) != ""
  {
    if NoEmptySegment(path) {
      RelativeHasNoEmptySegment(rule.base, path);
      assert Split("", SLASH)[0] == "";
    }
  }

  /** Matching, said of the relative path. */
  lemma {:induction false} MatchesRelative(rule: Rule, path: string, isDirectory: bool)
    requires IsBelow(path, rule.base) && NoEmptySegment(path)
    ensures Matches(rule, path, isDirectory) <==>
            if IsPathRule(rule) then PathMatchesOrContains(Relative(rule, path), rule.pattern)
            else SegmentRuleMatches(rule, Relative(rule, path), isDirectory)
  {
    RelativeOf(rule, path);
  }

  lemma {:induction false} RelativeOfBelow(rule: Rule, directory: string, names: seq<string>)
    requires IsBelow(directory, rule.base) && NoEmptySegment(directory) && AreNames(names)
    ensures var path := Below(directory, names);
            && IsBelow(path, directory) && IsBelow(path, rule.base) && NoEmptySegment(path)
            && Relative(rule, path) == Below(Relative(rule, directory), names)
  {
    var path := Below(directory, names);
    BelowSplits(directory, names);
    BelowIsTransitive(path, directory, rule.base);
    RelativeBelow(rule.base, directory, path);
    assert path[|directory| + 1..] == Join(names, '/');
  }

  /** Every path below a directory is some names below it. */
  lemma {:induction false} NamesBelow(path: string, directory: string) returns (names: seq<string>)
    requires IsBelow(path, directory) && NoEmptySegment(path)
    ensures AreNames(names) && path == Below(directory, names) && NoEmptySegment(directory)
  {
    var rest := path[|directory| + 1..];
    assert path == directory + "/" + rest;
    NoEmptySegmentParts(directory, rest);
    names := Split(rest, SLASH);
    JoinSplit(rest, '/');
    SegmentsOf(rest);
    SegmentsAreNames(rest);
  }

  lemma {:induction false} PassesToOne(rule: Rule, directory: string, path: string, isDirectory: bool)
    requires IsBelow(directory, rule.base) && IsBelow(path, directory) && NoEmptySegment(path)
    requires Matches(rule, directory, true) && PassesDown(rule, Relative(rule, directory), isDirectory)
    ensures Matches(rule, path, isDirectory)
  {
    var names := NamesBelow(path, directory);
    var r := Relative(rule, directory);
    RelativeOf(rule, directory);
    RelativeOfBelow(rule, directory, names);
    MatchesRelative(rule, directory, true);
    MatchesRelative(rule, path, isDirectory);
    if IsPathRule(rule) {
      PathPassesDown(r, names, rule.pattern);
    } else {
      SegmentPassesDown(rule, r, names, isDirectory);
    }
  }

  /** A path below a directory that a rule matching the directory leaves out. */
  lemma {:induction false} LeavesOut(rule: Rule, directory: string, isDirectory: bool) returns (path: string)
    requires IsBelow(directory, rule.base) && NoEmptySegment(directory)
    requires Matches(rule, directory, true) && !PassesDown(rule, Relative(rule, directory), isDirectory)
    ensures IsBelow(path, directory) && NoEmptySegment(path) && !Matches(rule, path, isDirectory)
  {
    var r := Relative(rule, directory);
    RelativeOf(rule, directory);
    MatchesRelative(rule, directory, true);
    var names;
    if IsPathRule(rule) {
      names := PathLeftOut(r, rule.pattern);
    } else {
      names := SegmentLeftOut(rule, r, isDirectory);
    }
    path := Below(directory, names);
    RelativeOfBelow(rule, directory, names);
    MatchesRelative(rule, path, isDirectory);
  }

  /** A rule that matches a directory matches all files, or all directories, below
      it if and only if the condition holds. */
  lemma {:induction false} PassesDownIff(rule: Rule, directory: string, isDirectory: bool)
    requires IsBelow(directory, rule.base) && NoEmptySegment(directory) && Matches(rule, directory, true)
    ensures PassesDown(rule, Relative(rule, directory), isDirectory) <==>
            forall path :: IsBelow(path, directory) && NoEmptySegment(path) ==> Matches(rule, path, isDirectory)
  {
    if PassesDown(rule, Relative(rule, directory), isDirectory) {
      forall path | IsBelow(path, directory) && NoEmptySegment(path) ensures Matches(rule, path, isDirectory) {
        PassesToOne(rule, directory, path, isDirectory);
      }
    } else {
      var path := LeavesOut(rule, directory, isDirectory);
    }
  }

  // ----- when an including rule is missed

  /** Some of the pattern's segments, but not all, match the directory. */
  predicate ReachesBelow(rule: Rule, r: string) {
    var p := Segments(rule.pattern);
    exists k :: 0 <= k < |p| && Glob(p[..k], Segments(r), IsDoubleStar, AcceptsSegment)
  }

  /** Names that the segments of a pattern match one by one. */
  lemma {:induction false} NamesMatching(p: seq<string>) returns (names: seq<string>)
    requires forall i :: 0 <= i < |p| ==> IsName(p[i])
    ensures |names| == |p| && (forall i :: 0 <= i < |names| ==> IsName(names[i]))
    ensures Glob(p, names, IsDoubleStar, AcceptsSegment)
    decreases |p|
  {
    if p == [] {
      names := [];
    } else {
      var first := SomeNameMatches(p[0]);
      var rest := NamesMatching(p[1..]);
      names := [first] + rest;
      assert names[1..] == rest;
      assert IsDoubleStar(p[0]) ==> Glob(p, rest, IsDoubleStar, AcceptsSegment);
    }
  }

  lemma {:induction false} PathMatchesItself(r: string)
    requires NoEmptySegment(r)
    ensures PathMatches(r, r)
  {
    SegmentsMatchThemselves(Segments(r));
  }

  lemma {:induction false} SegmentMatchesItself(s: string)
    ensures SegmentMatches(s, s)
    decreases |s|
  {
    if s != "" {
      SegmentMatchesItself(s[1..]);
      assert s[0] == '*' ==> SegmentMatches(s[1..], s);
    }
  }

  lemma {:induction false} SegmentsMatchThemselves(s: seq<string>)
    ensures Glob(s, s, IsDoubleStar, AcceptsSegment)
    decreases |s|
  {
    if s != [] {
      SegmentMatchesItself(s[0]);
      SegmentsMatchThemselves(s[1..]);
      assert IsDoubleStar(s[0]) ==> Glob(s, s[1..], IsDoubleStar, AcceptsSegment);
    }
  }

  /** An including rule that the pruning check does not see. */
  predicate Unseen(rule: Rule, directory: string) {
    rule.negated && !CouldIncludeBelow(rule, directory) && !Matches(rule, directory, true)
  }

  lemma {:induction false} UnseenRelative(rule: Rule, directory: string)
    requires IsBelow(directory, rule.base) && NoEmptySegment(directory) && Unseen(rule, directory)
    ensures var r := Relative(rule, directory);
            && IsPathRule(rule) && !(r + "/" <= rule.pattern) && !PathMatches(r, rule.pattern)
            && r != rule.pattern && !IsBelow(r, rule.pattern)
  {
    RelativeOf(rule, directory);
    MatchesRelative(rule, directory, true);
    PathMatchesItself(Relative(rule, directory));
  }

  lemma {:induction false} ReachedPath(rule: Rule, directory: string, isDirectory: bool) returns (path: string)
    requires IsBelow(directory, rule.base) && NoEmptySegment(directory) && Unseen(rule, directory)
    requires ReachesBelow(rule, Relative(rule, directory))
    ensures IsBelow(path, directory) && NoEmptySegment(path) && Matches(rule, path, isDirectory)
  {
    var p, r := Segments(rule.pattern), Relative(rule, directory);
    UnseenRelative(rule, directory);
    RelativeOf(rule, directory);
    var k :| 0 <= k < |p| && Glob(p[..k], Segments(r), IsDoubleStar, AcceptsSegment);
    SegmentsAreNames(rule.pattern);
    var names := NamesMatching(p[k..]);
    GlobConcat(p[..k], p[k..], Segments(r), names, IsDoubleStar, AcceptsSegment);
    assert p[..k] + p[k..] == p;
    BelowSegments(r, names);
    path := Below(directory, names);
    RelativeOfBelow(rule, directory, names);
    MatchesRelative(rule, path, isDirectory);
  }

  lemma {:induction false} OnlyReachedPaths(rule: Rule, directory: string, path: string, isDirectory: bool)
    requires IsBelow(directory, rule.base) && Unseen(rule, directory)
    requires IsBelow(path, directory) && NoEmptySegment(path) && Matches(rule, path, isDirectory)
    ensures ReachesBelow(rule, Relative(rule, directory))
  {
    var names := NamesBelow(path, directory);
    var p, r := Segments(rule.pattern), Relative(rule, directory);
    UnseenRelative(rule, directory);
    RelativeOf(rule, directory);
    RelativeOfBelow(rule, directory, names);
    MatchesRelative(rule, path, isDirectory);
    BelowSegments(r, names);
    var q := Relative(rule, path);
    if IsBelow(q, rule.pattern) {
      assert IsBelow(q, r);
      TwoAncestors(q, r, rule.pattern);
      assert false;
    }
    var k := GlobFront(p, Segments(r), names, IsDoubleStar, AcceptsSegment);
    assert p[..|p|] == p;
    assert k < |p|;
  }

  /** An including rule that neither matches a directory nor is seen by the pruning
      check matches something below it if and only if some of its segments, but
      not all, match the directory: then pruning misses it. */
  lemma {:induction false} ReachesBelowIff(rule: Rule, directory: string, isDirectory: bool)
    requires IsBelow(directory, rule.base) && NoEmptySegment(directory) && Unseen(rule, directory)
    ensures ReachesBelow(rule, Relative(rule, directory)) <==>
            exists path :: IsBelow(path, directory) && NoEmptySegment(path) && Matches(rule, path, isDirectory)
  {
    if ReachesBelow(rule, Relative(rule, directory)) {
      var path := ReachedPath(rule, directory, isDirectory);
    }
    if path :| IsBelow(path, directory) && NoEmptySegment(path) && Matches(rule, path, isDirectory) {
      OnlyReachedPaths(rule, directory, path, isDirectory);
    }
  }

  // ----- pruning

  /** The deciding rule passes down and no later including rule is missed. */
  predicate Settled(directory: string, rules: seq<Rule>, isDirectory: bool)
    requires BasesAbove(rules, directory) && Pruned(directory, rules)
  {
    var index := Decision(directory, true, rules).value.index;
    && PassesDown(rules[index], Relative(rules[index], directory), isDirectory)
    && forall j :: index < j < |rules| && rules[j].negated ==> !ReachesBelow(rules[j], Relative(rules[j], directory))
  }

  lemma {:induction false} IgnoredBy(path: string, isDirectory: bool, rules: seq<Rule>, index: nat)
    requires index < |rules| && Matches(rules[index], path, isDirectory) && !rules[index].negated
    requires forall j :: index < j < |rules| && rules[j].negated ==> !Matches(rules[j], path, isDirectory)
    ensures Decision(path, isDirectory, rules).Some? && Decision(path, isDirectory, rules).value.ignored
  {
    var d := Decision(path, isDirectory, rules);
    assert d.Some? && d.value.index >= index;
  }

  lemma {:induction false} LaterIsUnseen(rules: seq<Rule>, directory: string, j: nat)
    requires Pruned(directory, rules) && Decision(directory, true, rules).value.index < j < |rules| && rules[j].negated
    ensures Unseen(rules[j], directory)
  {
    assert !CouldIncludeBelow(rules[j], directory);
  }

  /** Pruning is sound: when the rules settle a pruned directory, every path below
      it is ignored by the same rules. */
  lemma {:induction false} PruningIsSound(rules: seq<Rule>, directory: string, path: string, isDirectory: bool)
    requires IsBelow(path, directory) && NoEmptySegment(path) && BasesAbove(rules, directory)
    requires Pruned(directory, rules) && Settled(directory, rules, isDirectory)
    ensures Decision(path, isDirectory, rules).Some? && Decision(path, isDirectory, rules).value.ignored
  {
    var index := Decision(directory, true, rules).value.index;
    PassesToOne(rules[index], directory, path, isDirectory);
    forall j | index < j < |rules| && rules[j].negated
      ensures !Matches(rules[j], path, isDirectory)
    {
      LaterIsUnseen(rules, directory, j);
      if Matches(rules[j], path, isDirectory) {
        OnlyReachedPaths(rules[j], directory, path, isDirectory);
        assert false;
      }
    }
    IgnoredBy(path, isDirectory, rules, index);
  }

  predicate IsIgnored(path: string, isDirectory: bool, rules: seq<Rule>) {
    Decision(path, isDirectory, rules).Some? && Decision(path, isDirectory, rules).value.ignored
  }

  ghost predicate AllIgnoredBelow(directory: string, isDirectory: bool, rules: seq<Rule>) {
    forall path :: IsBelow(path, directory) && NoEmptySegment(path) ==> IsIgnored(path, isDirectory, rules)
  }

  /** With one ignoring rule, pruning is right if and only if the rules settle the
      directory. */
  lemma {:induction false} PruningIsExact(rules: seq<Rule>, directory: string, isDirectory: bool)
    requires NoEmptySegment(directory) && BasesAbove(rules, directory) && Pruned(directory, rules)
    requires var index := Decision(directory, true, rules).value.index;
             forall j :: 0 <= j < |rules| && j != index ==> rules[j].negated
    ensures Settled(directory, rules, isDirectory) <==> AllIgnoredBelow(directory, isDirectory, rules)
  {
    var index := Decision(directory, true, rules).value.index;
    if Settled(directory, rules, isDirectory) {
      forall path | IsBelow(path, directory) && NoEmptySegment(path) ensures IsIgnored(path, isDirectory, rules) {
        PruningIsSound(rules, directory, path, isDirectory);
      }
    } else if !PassesDown(rules[index], Relative(rules[index], directory), isDirectory) {
      var path := LeavesOut(rules[index], directory, isDirectory);
      assert !IsIgnored(path, isDirectory, rules);
    } else {
      var j :| index < j < |rules| && rules[j].negated && ReachesBelow(rules[j], Relative(rules[j], directory));
      LaterIsUnseen(rules, directory, j);
      var path := ReachedPath(rules[j], directory, isDirectory);
      assert !IsIgnored(path, isDirectory, rules);
    }
  }

  // ----- literal rules

  predicate LiteralRule(rule: Rule) {
    IsLiteral(rule.pattern) && NoEmptySegment(rule.pattern)
  }

  lemma {:induction false} LiteralSegments(pattern: seq<string>, path: seq<string>)
    requires forall i :: 0 <= i < |pattern| ==> IsLiteral(pattern[i])
    ensures Glob(pattern, path, IsDoubleStar, AcceptsSegment) <==> pattern == path
    decreases |pattern|
  {
    if pattern != [] {
      assert IsLiteral(pattern[0]);
      assert "**"[0] == '*';
      assert !IsDoubleStar(pattern[0]);
      if path != [] {
        LiteralMatchesItself(path[0], pattern[0]);
        LiteralSegments(pattern[1..], path[1..]);
        assert path == [path[0]] + path[1..] && pattern == [pattern[0]] + pattern[1..];
      }
    }
  }

  /** A literal path pattern matches exactly the path it spells. */
  lemma {:induction false} LiteralPath(path: string, pattern: string)
    requires IsLiteral(pattern) && NoEmptySegment(pattern) && NoEmptySegment(path)
    ensures PathMatches(path, pattern) <==> path == pattern
  {
    NonEmptyKeeps(Split(path, SLASH));
    NonEmptyKeeps(Split(pattern, SLASH));
    PiecesAreFree(pattern, SLASH, {'*', '?'});
    forall i | 0 <= i < |Segments(pattern)| ensures IsLiteral(Segments(pattern)[i]) {
      assert Free(Segments(pattern)[i], SLASH + {'*', '?'});
    }
    LiteralSegments(Segments(pattern), Segments(path));
    JoinSplit(path, '/');
    JoinSplit(pattern, '/');
  }

  lemma {:induction false} WholePathIsSegment(r: string, pattern: string)
    requires IsLiteral(pattern) && '/' !in pattern && SegmentMatches(r, pattern)
    ensures SomeSegmentMatches(r, pattern)
  {
    LiteralMatchesItself(r, pattern);
    SplitFree(r, SLASH);
    assert SegmentMatches(Split(r, SLASH)[0], pattern);
  }

  lemma {:induction false} LiteralPassesDown(rule: Rule, directory: string, isDirectory: bool)
    requires LiteralRule(rule) && IsBelow(directory, rule.base) && NoEmptySegment(directory) && Matches(rule, directory, true)
    ensures PassesDown(rule, Relative(rule, directory), isDirectory)
  {
    var r := Relative(rule, directory);
    RelativeOf(rule, directory);
    MatchesRelative(rule, directory, true);
    if IsPathRule(rule) {
      LiteralPath(r, rule.pattern);
    } else if SegmentMatches(r, rule.pattern) {
      WholePathIsSegment(r, rule.pattern);
    }
  }

  lemma {:induction false} JoinFront(p: seq<string>, k: nat)
    requires 0 < k < |p|
    ensures Join(p[..k], '/') + "/" <= Join(p, '/')
    decreases k
  {
    assert p[..k][0] == p[0];
    if k > 1 {
      JoinFront(p[1..], k - 1);
      assert p[..k][1..] == p[1..][..k - 1];
      var front, all := Join(p[1..][..k - 1], '/') + "/", Join(p[1..], '/');
      assert Join(p[..k], '/') + "/" == p[0] + "/" + front;
      assert Join(p, '/') == p[0] + "/" + all;
    }
  }

  lemma {:induction false} LiteralIsNotMissed(rule: Rule, directory: string)
    requires LiteralRule(rule) && IsBelow(directory, rule.base) && NoEmptySegment(directory) && Unseen(rule, directory)
    ensures !ReachesBelow(rule, Relative(rule, directory))
  {
    var p, r := Segments(rule.pattern), Relative(rule, directory);
    UnseenRelative(rule, directory);
    RelativeOf(rule, directory);
    SegmentsOf(rule.pattern);
    SegmentsOf(r);
    LiteralSegmentsOf(rule.pattern);
    forall k | 0 <= k < |p| ensures !Glob(p[..k], Segments(r), IsDoubleStar, AcceptsSegment) {
      LiteralSegments(p[..k], Segments(r));
      JoinSplit(r, '/');
      JoinSplit(rule.pattern, '/');
      if k > 0 {
        JoinFront(p, k);
      }
    }
  }

  lemma {:induction false} LiteralSegmentsOf(pattern: string)
    requires IsLiteral(pattern) && NoEmptySegment(pattern)
    ensures forall i :: 0 <= i < |Segments(pattern)| ==> IsLiteral(Segments(pattern)[i])
  {
    SegmentsOf(pattern);
    PiecesAreFree(pattern, SLASH, {'*', '?'});
    forall i | 0 <= i < |Segments(pattern)| ensures IsLiteral(Segments(pattern)[i]) {
      assert Free(Segments(pattern)[i], SLASH + {'*', '?'});
    }
  }

  /** Rules without wildcards settle every directory they prune. */
  lemma {:induction false} LiteralRulesSettle(rules: seq<Rule>, directory: string, isDirectory: bool)
    requires NoEmptySegment(directory) && BasesAbove(rules, directory) && Pruned(directory, rules)
    requires forall j :: 0 <= j < |rules| ==> LiteralRule(rules[j])
    ensures Settled(directory, rules, isDirectory)
  {
    var index := Decision(directory, true, rules).value.index;
    LiteralPassesDown(rules[index], directory, isDirectory);
    forall j | index < j < |rules| && rules[j].negated
      ensures !ReachesBelow(rules[j], Relative(rules[j], directory))
    {
      LaterIsUnseen(rules, directory, j);
      LiteralIsNotMissed(rules[j], directory);
    }
  }

  // ----- failing inputs

  /** With a wildcard in the deciding rule the verdict need not pass down: `/a*`
      prunes the directory `ab` but does not itself match `ab/c`. */
  lemma {:induction false} WildcardDoesNotPassDown()
    ensures var rules := [Rule("r", "a*", false, false, true)];
            && Pruned("r/ab", rules) && Decision("r/ab/c", false, rules).None?
  {
    var rules := [Rule("r", "a*", false, false, true)];
    assert RelativePath("r", "r/ab") == Some("ab") && RelativePath("r", "r/ab/c") == Some("ab/c");
    StarPattern();
    assert !IsBelow("ab/c", "a*") by {
      assert "ab/c"[1] == 'b' && "a*"[1] == '*';
    }
    assert rules[..0] == [];
  }

  lemma {:induction false} StarPattern()
    ensures PathMatches("ab", "a*") && !PathMatches("ab/c", "a*")
  {
    SplitFree("ab", SLASH);
    SplitFree("a*", SLASH);
    SplitFree("c", SLASH);
    SplitAtSeparator("ab", '/', "c", SLASH);
    assert "ab" + "/" + "c" == "ab/c";
    NonEmptyKeeps(["ab"]);
    NonEmptyKeeps(["a*"]);
    NonEmptyKeeps(["ab", "c"]);
    assert SegmentMatches("ab", "a*") by {
      assert "ab"[1..] == "b" && "a*"[1..] == "*" && "b"[1..] == "" && "*"[1..] == "";
    }
    assert ["a*"][1..] == [] && ["ab"][1..] == [] && ["ab", "c"][1..] == ["c"];
    assert !IsDoubleStar("a*");
  }

  /** With a wildcard in a later including rule a pruned directory may hold a
      path that rule would bring back: `!/?/c` after `/a`. */
  lemma {:induction false} WildcardIncludeIsMissed()
    ensures var rules := [Rule("r", "a", false, false, true), Rule("r", "?/c", true, false, true)];
            && Pruned("r/a", rules)
            && Decision("r/a/c", false, rules) == Some(Verdict(false, 1))
  {
    var rules := [Rule("r", "a", false, false, true), Rule("r", "?/c", true, false, true)];
    assert RelativePath("r", "r/a") == Some("a") && RelativePath("r", "r/a/c") == Some("a/c");
    QuestionMarkPattern();
    assert !IsBelow("a", "?/c");
    assert !("a" + "/" <= "?/c") by {
      assert "?/c"[0] != 'a';
    }
    assert rules[..1] == [rules[0]];
  }

  lemma {:induction false} QuestionMarkPattern()
    ensures PathMatches("a/c", "?/c") && !PathMatches("a", "?/c") && PathMatches("a", "a")
  {
    SplitFree("a", SLASH);
    SplitFree("c", SLASH);
    SplitAtSeparator("a", '/', "c", SLASH);
    SplitAtSeparator("?", '/', "c", SLASH);
    assert "a" + "/" + "c" == "a/c" && "?" + "/" + "c" == "?/c";
    NonEmptyKeeps(["a"]);
    NonEmptyKeeps(["a", "c"]);
    NonEmptyKeeps(["?", "c"]);
    assert SegmentMatches("a", "?") by {
      assert "a"[1..] == "" && "?"[1..] == "";
    }
    LiteralMatchesItself("c", "c");
    LiteralMatchesItself("a", "a");
    assert !IsDoubleStar("?") && !IsDoubleStar("c") && !IsDoubleStar("a");
    assert ["?", "c"][1..] == ["c"] && ["a", "c"][1..] == ["c"] && ["c"][1..] == [] && ["a"][1..] == [];
  }

  /** A rule without a slash can match a directory by its whole path only: `a*c`
      matches the directory `ab/xc`, and not what is below it. */
  lemma {:induction false} WholePathDoesNotPassDown()
    ensures var rule := Rule("r", "a*c", false, false, false);
            Matches(rule, "r/ab/xc", true) && !Matches(rule, "r/ab/xc/d", true)
  {
    assert RelativePath("r", "r/ab/xc") == Some("ab/xc") && RelativePath("r", "r/ab/xc/d") == Some("ab/xc/d");
    StarSpansSlash();
    NoSegmentOfThree();
    NeverEndsOtherwise("ab/xc/d");
  }

  lemma {:induction false} StarSpansSlash()
    ensures SegmentMatches("ab/xc", "a*c")
  {
    assert "a*c" == "a" + "*c" && "ab/xc" == "a" + "b/xc";
    LiteralMatchesItself("a", "a");
    LiteralMatchesItself("c", "c");
    assert "*c"[1..] == "c" && "b/xc"[3..] == "c" && "b/xc"[0..] == "b/xc";
    assert SegmentMatches("c", "*c");
    StarAbsorbs("*c", "b/xc", 0, 3, IsStar, AcceptsChar);
    GlobConcat("a", "*c", "a", "b/xc", IsStar, AcceptsChar);
  }

  lemma {:induction false} NoSegmentOfThree()
    ensures !SomeSegmentMatches("ab/xc/d", "a*c")
  {
    SplitFree("d", SLASH);
    SplitAtSeparator("xc", '/', "d", SLASH);
    SplitAtSeparator("ab", '/', "xc/d", SLASH);
    assert "xc" + "/" + "d" == "xc/d" && "ab" + "/" + "xc/d" == "ab/xc/d";
    assert Split("ab/xc/d", SLASH) == ["ab", "xc", "d"];
    NeverEndsOtherwise("ab");
    NeverEndsOtherwise("d");
    NeverStartsOtherwise("xc");
  }

  lemma {:induction false} NeverEndsOtherwise(value: string)
    requires value != "" && value[|value| - 1] != 'c'
    ensures !SegmentMatches(value, "a*c")
  {
    if SegmentMatches(value, "a*c") {
      TailElement("a*c", value, 2, IsStar, AcceptsChar);
      assert false;
    }
  }

  lemma {:induction false} NeverStartsOtherwise(value: string)
    requires value != "" && value[0] != 'a'
    ensures !SegmentMatches(value, "a*c")
  {
  }
}
