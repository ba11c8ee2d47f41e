/** `.gitignore` rules: what a rule matches, which rule decides, and when an
    ignored directory may be pruned. */
module Gitignore {

  import opened Wrappers
  import opened Text
  import opened Wildcard

  datatype Rule = Rule(base: string, pattern: string, negated: bool, directoryOnly: bool, anchored: bool)

  const SLASH: set<char> := {'/'}

  // ----- reading rules

  /** Not empty, and no slash at either end. */
  predicate IsTrimmed(pattern: string) {
    pattern != "" && pattern[0] != '/' && pattern[|pattern| - 1] != '/'
  }

  /** The rule for a pattern whose `!` has been read. */
  function RuleOf(body: string, negated: bool, base: string): (r: Option<Rule>)
    ensures r.Some? ==> r.value.base == base && IsTrimmed(r.value.pattern)
  {
    if body == "" then None
    else
      var open := DropTrailing(body, '/');
      var pattern := DropLeading(open, '/');
      if pattern == "" then None
      else Some(Rule(base, pattern, negated, body[|body| - 1] == '/', open[0] == '/'))
  }

  /** One line of a `.gitignore` file found at `base`; the pattern kept is never
      empty and has no slash at either end. */
  function ParseRule(line: string, base: string): (r: Option<Rule>)
    ensures r.Some? ==> r.value.base == base && IsTrimmed(r.value.pattern)
  {
    var trimmed := Trim(line);
    if trimmed == "" || trimmed[0] == '#' then None
    else if trimmed[0] == '!' then RuleOf(TrimStart(trimmed[1..]), true, base)
    else RuleOf(trimmed, false, base)
  }

  function Copies(c: char, n: nat): (s: string)
    ensures |s| == n && forall i :: 0 <= i < n ==> s[i] == c
  {
    seq(n, _ => c)
  }

  /** Where a rule in print has slashes and spaces around its pattern. */
  datatype Layout = Layout(indent: string, gap: string, before: nat, after: nat, trail: string)

  /** A rule in print: the exclamation mark, slashes, the pattern, slashes. */
  function PrintRule(rule: Rule, l: Layout): string {
    l.indent + ((if rule.negated then "!" + l.gap else "") + Slashed(rule.pattern, l.before, l.after)) + l.trail
  }

  lemma {:induction false} DropTrailingCopies(s: string, c: char, n: nat)
    requires s == "" || s[|s| - 1] != c
    ensures DropTrailing(s + Copies(c, n), c) == s
    decreases n
  {
    if n == 0 {
      assert s + Copies(c, 0) == s;
    } else {
      var t := s + Copies(c, n);
      assert t[..|t| - 1] == s + Copies(c, n - 1);
      DropTrailingCopies(s, c, n - 1);
    }
  }

  lemma {:induction false} DropLeadingCopies(s: string, c: char, n: nat)
    requires s == "" || s[0] != c
    ensures DropLeading(Copies(c, n) + s, c) == s
    decreases n
  {
    if n == 0 {
      assert Copies(c, 0) + s == s;
    } else {
      var t := Copies(c, n) + s;
      assert t[1..] == Copies(c, n - 1) + s;
      DropLeadingCopies(s, c, n - 1);
    }
  }

  /** The pattern between slashes. */
  function Slashed(pattern: string, before: nat, after: nat): string {
    Copies('/', before) + pattern + Copies('/', after)
  }

  lemma {:induction false} SlashedEnds(pattern: string, before: nat, after: nat)
    requires pattern != ""
    ensures var body := Slashed(pattern, before, after);
            && body != "" && body[0] == (if before > 0 then '/' else pattern[0])
            && body[|body| - 1] == (if after > 0 then '/' else pattern[|pattern| - 1])
  {
  }

  lemma {:induction false} SlashesDrop(pattern: string, before: nat, after: nat)
    requires IsTrimmed(pattern)
    ensures var open := DropTrailing(Slashed(pattern, before, after), '/');
            && open == Copies('/', before) + pattern && open[0] == (if before > 0 then '/' else pattern[0])
            && DropLeading(open, '/') == pattern
  {
    var open := Copies('/', before) + pattern;
    assert open[|open| - 1] == pattern[|pattern| - 1];
    DropTrailingCopies(open, '/', after);
    DropLeadingCopies(pattern, '/', before);
  }

  /** The slashes in front say whether the rule is anchored, those behind whether
      it is for directories only, and neither belongs to the pattern. */
  lemma {:induction false} BodyRoundTrip(rule: Rule, before: nat, after: nat)
    requires IsTrimmed(rule.pattern) && (before > 0 <==> rule.anchored) && (after > 0 <==> rule.directoryOnly)
    ensures RuleOf(Slashed(rule.pattern, before, after), rule.negated, rule.base) == Some(rule)
  {
    SlashesDrop(rule.pattern, before, after);
    SlashedEnds(rule.pattern, before, after);
  }

  lemma {:induction false} ParseBody(body: string, negated: bool, l: Layout, base: string)
    requires body != "" && IsTidy(body) && (!negated ==> body[0] != '#' && body[0] != '!')
    requires IsSpace(l.indent) && IsSpace(l.gap) && IsSpace(l.trail)
    ensures ParseRule(l.indent + ((if negated then "!" + l.gap else "") + body) + l.trail, base) == RuleOf(body, negated, base)
  {
    var text := (if negated then "!" + l.gap else "") + body;
    assert text[|text| - 1] == body[|body| - 1];
    TrimPadded(l.indent, text, l.trail);
    if negated {
      assert text[1..] == l.gap + body;
      TrimStartPadded(l.gap, body);
    } else {
      assert text == body;
    }
  }

  /** The pattern can be printed, and the slashes say what the rule says. */
  predicate Prints(rule: Rule, l: Layout) {
    && IsTrimmed(rule.pattern) && IsTidy(rule.pattern) && IsSpace(l.indent) && IsSpace(l.gap) && IsSpace(l.trail)
    && (l.before > 0 <==> rule.anchored) && (l.after > 0 <==> rule.directoryOnly)
    && (l.before == 0 && !rule.negated ==> rule.pattern[0] != '#' && rule.pattern[0] != '!')
  }

  /** Every rule can be written, with any number of slashes and any spaces, and
      reads back: its negation, anchoring and restriction to directories included. */
  lemma {:induction false} RuleRoundTrip(rule: Rule, l: Layout)
    requires Prints(rule, l)
    ensures ParseRule(PrintRule(rule, l), rule.base) == Some(rule)
  {
    SlashedEnds(rule.pattern, l.before, l.after);
    ParseBody(Slashed(rule.pattern, l.before, l.after), rule.negated, l, rule.base);
    BodyRoundTrip(rule, l.before, l.after);
  }

  function ParseRules(lines: seq<string>, base: string): (rules: seq<Rule>)
    ensures forall rule :: rule in rules ==> rule.base == base
  {
    if lines == [] then []
    else
      match ParseRule(lines[0], base)
      case None => ParseRules(lines[1..], base)
      case Some(rule) => [rule] + ParseRules(lines[1..], base)
  }

  /** A line of a `.gitignore` file: a rule, a remark, or nothing but slashes, which
      an exclamation mark may precede. */
  datatype IgnoreLine =
    | RuleLine(rule: Rule, layout: Layout)
    | Remark(indent: string, text: string)
    | Nothing(negated: bool, layout: Layout)

  function PrintLine(line: IgnoreLine): string {
    match line
    case RuleLine(rule, layout) => PrintRule(rule, layout)
    case Remark(indent, text) => indent + ("#" + text)
    case Nothing(negated, l) => l.indent + ((if negated then "!" + l.gap else "") + Slashed("", l.before, l.after)) + l.trail
  }

  function PrintLines(lines: seq<IgnoreLine>): seq<string> {
    if lines == [] then [] else [PrintLine(lines[0])] + PrintLines(lines[1..])
  }

  predicate ValidLine(line: IgnoreLine, base: string) {
    match line
    case RuleLine(rule, layout) => rule.base == base && Prints(rule, layout)
    case Remark(indent, _) => IsSpace(indent)
    case Nothing(_, l) => IsSpace(l.indent) && IsSpace(l.gap) && IsSpace(l.trail)
  }

  /** The rules among the lines, in order. */
  function RulesOf(lines: seq<IgnoreLine>): seq<Rule> {
    if lines == [] then [] else (if lines[0].RuleLine? then [lines[0].rule] else []) + RulesOf(lines[1..])
  }

  lemma {:induction false} RemarkIsNoRule(indent: string, text: string, base: string)
    requires IsSpace(indent)
    ensures ParseRule(indent + ("#" + text), base).None?
  {
    var s := "#" + text;
    TrimStartPadded(indent, s);
    TrimEndKeepsFirst(s);
  }

  lemma {:induction false} TrimEndKeepsFirst(s: string)
    requires s != "" && s[0] !in SPACES
    ensures TrimEnd(s) != "" && TrimEnd(s)[0] == s[0]
    decreases |s|
  {
    if |s| > 1 && IsBlank(s[|s| - 1]) {
      TrimEndKeepsFirst(s[..|s| - 1]);
    }
  }

  lemma {:induction false} OnlySlashes(n: nat, negated: bool, base: string)
    ensures RuleOf(Copies('/', n), negated, base).None?
  {
    assert "" + Copies('/', n) == Copies('/', n);
    DropTrailingCopies("", '/', n);
  }

  lemma {:induction false} LoneMarkIsNoRule(l: Layout, base: string)
    requires IsSpace(l.indent) && IsSpace(l.gap) && IsSpace(l.trail)
    ensures ParseRule(l.indent + ("!" + l.gap) + l.trail, base).None?
  {
    var text := "!" + (l.gap + l.trail);
    assert l.indent + ("!" + l.gap) + l.trail == l.indent + text;
    TrimStartPadded(l.indent, text);
    TrimEndPadded("!", l.gap + l.trail);
  }

  lemma {:induction false} BlankIsNoRule(l: Layout, base: string)
    requires IsSpace(l.indent) && IsSpace(l.trail)
    ensures ParseRule(l.indent + "" + l.trail, base).None?
  {
    TrimPadded(l.indent, "", l.trail);
  }

  lemma {:induction false} NothingIsNoRule(negated: bool, l: Layout, base: string)
    requires IsSpace(l.indent) && IsSpace(l.gap) && IsSpace(l.trail)
    ensures ParseRule(PrintLine(Nothing(negated, l)), base).None?
  {
    var body, mark := Copies('/', l.before + l.after), if negated then "!" + l.gap else "";
    assert Slashed("", l.before, l.after) == body;
    if body != "" {
      OnlySlashes(l.before + l.after, negated, base);
      ParseBody(body, negated, l, base);
    } else {
      assert mark + body == mark;
      LoneMarkIsNoRule(l, base);
      BlankIsNoRule(l, base);
    }
  }

  /** Rules written one to a line, with remarks and empty lines between, read back
      in the order in which they are written. */
  lemma {:induction false} RulesRoundTrip(lines: seq<IgnoreLine>, base: string)
    requires forall i :: 0 <= i < |lines| ==> ValidLine(lines[i], base)
    ensures ParseRules(PrintLines(lines), base) == RulesOf(lines)
    decreases |lines|
  {
    if lines != [] {
      var printed := PrintLines(lines);
      assert printed[0] == PrintLine(lines[0]) && printed[1..] == PrintLines(lines[1..]);
      RulesRoundTrip(lines[1..], base);
      match lines[0]
      case RuleLine(rule, layout) => RuleRoundTrip(rule, layout);
      case Remark(indent, text) => RemarkIsNoRule(indent, text, base);
      case Nothing(negated, layout) => NothingIsNoRule(negated, layout, base);
    }
  }

  // ----- matching

  /** The part of a path below a base. */
  function RelativePath(base: string, path: string): Option<string> {
    if path == base then Some("")
    else if base <= path && |path| > |base| && path[|base|] == '/' then Some(path[|base| + 1..])
    else None
  }

  function Segments(path: string): seq<string> {
    NonEmpty(Split(path, SLASH))
  }

  predicate IsDoubleStar(segment: string) {
    segment == "**"
  }

  predicate AcceptsSegment(pattern: string, segment: string) {
    SegmentMatches(segment, pattern)
  }

  predicate PathMatches(path: string, pattern: string) {
    Glob(Segments(pattern), Segments(path), IsDoubleStar, AcceptsSegment)
  }

  /** `path` lies strictly below `ancestor`. */
  predicate IsBelow(path: string, ancestor: string) {
    ancestor <= path && |path| > |ancestor| && path[|ancestor|] == '/'
  }

  predicate PathMatchesOrContains(path: string, pattern: string) {
    PathMatches(path, pattern) || IsBelow(path, pattern)
  }

  predicate SomeSegmentMatches(path: string, pattern: string) {
    exists i :: 0 <= i < |Split(path, SLASH)| && SegmentMatches(Split(path, SLASH)[i], pattern)
  }

  predicate IsPathRule(rule: Rule) {
    rule.anchored || '/' in rule.pattern
  }

  predicate Matches(rule: Rule, path: string, isDirectory: bool) {
    match RelativePath(rule.base, path)
    case None => false
    case Some(relative) =>
      if relative == "" then false
      else if IsPathRule(rule) then PathMatchesOrContains(relative, rule.pattern)
      else
        || SomeSegmentMatches(relative, rule.pattern)
        || (!rule.directoryOnly && isDirectory && SegmentMatches(relative, rule.pattern))
  }

  predicate CouldIncludeBelow(rule: Rule, path: string) {
    rule.negated &&
    match RelativePath(rule.base, path)
    case None => false
    case Some(relative) =>
      relative == "" || !IsPathRule(rule) || relative + "/" <= rule.pattern
  }

  /** A rule says nothing of paths that are not below its base, and what it could
      include lies at or below it. */
  lemma {:induction false} RulesStayBelow(rule: Rule, path: string, isDirectory: bool)
    ensures Matches(rule, path, isDirectory) ==> IsBelow(path, rule.base) && path != rule.base + "/"
    ensures CouldIncludeBelow(rule, path) ==> path == rule.base || IsBelow(path, rule.base)
    ensures path in {rule.base, rule.base + "/"} ==> CouldIncludeBelow(rule, path) == rule.negated
  {
    assert rule.base <= rule.base + "/" && (rule.base + "/")[|rule.base| + 1..] == "";
  }

  /** The segments of a pattern with `**` between two others. */
  lemma {:induction false} SegmentsAround(left: string, right: string)
    ensures Segments(left + "/**/" + right) == Segments(left) + ["**"] + Segments(right)
  {
    var tail := "**/" + right;
    assert left + "/**/" + right == left + ['/'] + tail && tail == "**" + ['/'] + right;
    SplitConcat(left, '/', tail, SLASH);
    SplitAtSeparator("**", '/', right, SLASH);
    NonEmptyConcat(Split(left, SLASH), ["**"] + Split(right, SLASH));
    NonEmptyConcat(["**"], Split(right, SLASH));
    assert NonEmpty(["**"]) == ["**"] by {
      assert ["**"][1..] == [];
    }
  }

  /** `**` between two patterns stands for any number of segments between what they
      match. */
  lemma {:induction false} DoubleStarSpans(left: string, right: string, path: string)
    ensures PathMatches(path, left + "/**/" + right) <==>
            exists i, j :: 0 <= i <= j <= |Segments(path)|
              && Glob(Segments(left), Segments(path)[..i], IsDoubleStar, AcceptsSegment)
              && Glob(Segments(right), Segments(path)[j..], IsDoubleStar, AcceptsSegment)
  {
    var l, r, s := Segments(left), Segments(right), Segments(path);
    SegmentsAround(left, right);
    if PathMatches(path, left + "/**/" + right) {
      var j := GlobSplit(l + ["**"], r, s, IsDoubleStar, AcceptsSegment);
      var i := GlobSplit(l, ["**"], s[..j], IsDoubleStar, AcceptsSegment);
      assert s[..j][..i] == s[..i];
    }
    if i, j :| 0 <= i <= j <= |s| && Glob(l, s[..i], IsDoubleStar, AcceptsSegment) && Glob(r, s[j..], IsDoubleStar, AcceptsSegment) {
      MultiMatchesAll("**", s[i..j], IsDoubleStar, AcceptsSegment);
      GlobConcat(l, ["**"], s[..i], s[i..j], IsDoubleStar, AcceptsSegment);
      GlobConcat(l + ["**"], r, s[..i] + s[i..j], s[j..], IsDoubleStar, AcceptsSegment);
      assert s[..i] + s[i..j] + s[j..] == s;
    }
  }

  datatype Verdict = Verdict(ignored: bool, index: nat)

  /** The last matching rule decides. */
  function Decision(path: string, isDirectory: bool, rules: seq<Rule>): (d: Option<Verdict>)
    ensures d.Some? ==>
              && d.value.index < |rules| && Matches(rules[d.value.index], path, isDirectory)
              && d.value.ignored == !rules[d.value.index].negated
              && forall j :: d.value.index < j < |rules| ==> !Matches(rules[j], path, isDirectory)
    ensures d.None? ==> forall j :: 0 <= j < |rules| ==> !Matches(rules[j], path, isDirectory)
  {
    if rules == [] then None
    else
      var last := |rules| - 1;
      if Matches(rules[last], path, isDirectory) then Some(Verdict(!rules[last].negated, last))
      else Decision(path, isDirectory, rules[..last])
  }

  predicate HasLaterInclude(path: string, rules: seq<Rule>, index: nat) {
    exists j :: index < j < |rules| && CouldIncludeBelow(rules[j], path)
  }

  // ----- paths

  predicate NoEmptySegment(path: string) {
    forall i :: 0 <= i < |Split(path, SLASH)| ==> Split(path, SLASH)[i] != ""
  }

  /** A rule whose base lies strictly above a directory sees the same relative
      path, continued, for everything below it. */
  lemma {:induction false} RelativeBelow(base: string, directory: string, path: string)
    requires IsBelow(directory, base) && IsBelow(path, directory)
    ensures RelativePath(base, directory).Some? && RelativePath(base, path).Some?
    ensures var r := RelativePath(base, directory).value;
            RelativePath(base, path).value == r + "/" + path[|directory| + 1..]
  {
    var r, q := directory[|base| + 1..], path[|base| + 1..];
    assert path == directory + "/" + path[|directory| + 1..];
    assert base == directory[..|base|] && directory[..|base|] == path[..|base|];
    assert path[|base|] == directory[|base|];
    assert q == r + "/" + path[|directory| + 1..];
  }

  /** Two ancestors of one path are comparable. */
  lemma {:induction false} TwoAncestors(path: string, a: string, b: string)
    requires IsBelow(path, a) && IsBelow(path, b)
    ensures a == b || IsBelow(a, b) || (IsBelow(b, a) && a + "/" <= b)
  {
    assert a == path[..|a|] && b == path[..|b|];
    if |a| < |b| {
      assert path[..|b|][..|a|] == path[..|a|];
      assert b == b[..|a|] + b[|a|..] && b[|a|] == '/';
    } else {
      assert path[..|a|][..|b|] == path[..|b|];
    }
  }

  lemma {:induction false} NoEmptySegmentParts(a: string, b: string)
    requires NoEmptySegment(a + "/" + b)
    ensures NoEmptySegment(a) && NoEmptySegment(b)
  {
    SplitConcat(a, '/', b, SLASH);
    var all := Split(a + "/" + b, SLASH);
    assert forall i :: 0 <= i < |Split(a, SLASH)| ==> Split(a, SLASH)[i] == all[i];
    assert forall i :: 0 <= i < |Split(b, SLASH)| ==> Split(b, SLASH)[i] == all[|Split(a, SLASH)| + i];
  }

  lemma {:induction false} RelativeHasNoEmptySegment(base: string, path: string)
    requires IsBelow(path, base) && NoEmptySegment(path)
    ensures RelativePath(base, path).Some? && NoEmptySegment(RelativePath(base, path).value)
  {
    var r := path[|base| + 1..];
    assert path == base + "/" + r;
    NoEmptySegmentParts(base, r);
  }

  lemma {:induction false} BelowIsTransitive(path: string, directory: string, base: string)
    requires IsBelow(path, directory) && IsBelow(directory, base)
    ensures IsBelow(path, base)
  {
    assert base == directory[..|base|] && directory == path[..|directory|];
    assert path[..|directory|][..|base|] == path[..|base|];
  }

  /** The directory is ignored and no later rule could include below it: the
      condition under which the walk skips it. */
  predicate Pruned(directory: string, rules: seq<Rule>) {
    var d := Decision(directory, true, rules);
    d.Some? && d.value.ignored && !HasLaterInclude(directory, rules, d.value.index)
  }

  predicate BasesAbove(rules: seq<Rule>, path: string) {
    forall i :: 0 <= i < |rules| ==> IsBelow(path, rules[i].base)
  }
}
