/** RAR link targets: the relative target handed to the safety planner and the
    path the materializer links from. */
module RarLinks {

  import opened Wrappers
  import opened Text

  const SLASH: set<char> := {'/'}
  const UP := ".."

  function Components(path: string): (parts: seq<string>)
    ensures |parts| > 0
  {
    Split(path, SLASH)
  }

  predicate IsName(part: string) {
    part != "" && part != "." && part != UP
  }

  /** A path as the archive path normalizer leaves it. */
  predicate IsNormalized(path: string) {
    forall i :: 0 <= i < |Components(path)| ==> IsName(Components(path)[i])
  }

  /** `stripped_archive_path` of a normalized path. */
  function Stripped(path: string, strip: nat): Option<string> {
    var parts := Components(path);
    if strip == 0 then Some(path)
    else if strip >= |parts| then None
    else Some(Join(parts[strip..], '/'))
  }

  /** The part before the last slash, or nothing. */
  function ParentOf(path: string): string {
    if path == "" then ""
    else if path[|path| - 1] == '/' then path[..|path| - 1]
    else ParentOf(path[..|path| - 1])
  }

  /** The directories a parent path names. */
  function Parts(parent: string): seq<string> {
    if parent == "" then [] else Components(parent)
  }

  function Common(a: seq<string>, b: seq<string>): (n: nat)
    ensures n <= |a| && n <= |b| && a[..n] == b[..n]
    ensures n < |a| && n < |b| ==> a[n] != b[n]
  {
    if a == [] || b == [] || a[0] != b[0] then 0
    else
      var n := 1 + Common(a[1..], b[1..]);
      assert a[..n] == [a[0]] + a[1..][..n - 1] && b[..n] == [b[0]] + b[1..][..n - 1];
      n
  }

  function Ups(n: nat): (s: seq<string>)
    ensures |s| == n && forall i :: 0 <= i < n ==> s[i] == UP
  {
    seq(n, _ => UP)
  }

  /** Up to the last common directory, then down to the target. */
  function Relative(from: seq<string>, to: seq<string>): seq<string> {
    var n := Common(from, to);
    Ups(|from| - n) + to[n..]
  }

  /** The loop that counts the leading components two paths share. */
  method CountCommon(a: seq<string>, b: seq<string>) returns (common: nat)
    ensures common == Common(a, b)
  {
    common := 0;
    while common < |a| && common < |b| && a[common] == b[common]
      invariant common <= |a| && common <= |b| && a[..common] == b[..common]
    {
      assert a[..common + 1] == a[..common] + [a[common]] && b[..common + 1] == b[..common] + [b[common]];
      common := common + 1;
    }
    CommonIs(a, b, common);
  }

  /** `relative_path`. */
  method RelativePath(fromParent: string, to: string) returns (path: seq<string>)
    ensures path == Relative(Parts(fromParent), Components(to))
  {
    var fromParts := if fromParent == "" then [] else Components(fromParent);
    var toParts := Components(to);
    var common := CountCommon(fromParts, toParts);
    path := [];
    for i := common to |fromParts|
      invariant path == Ups(i - common)
    {
      assert Ups(i - common) + [UP] == Ups(i + 1 - common);
      path := path + [UP];
    }
    var down := Push(path, toParts, common);
    path := down;
  }

  /** The loop that pushes the components from `start` on. */
  method Push(path: seq<string>, parts: seq<string>, start: nat) returns (longer: seq<string>)
    requires start <= |parts|
    ensures longer == path + parts[start..]
  {
    longer := path;
    for i := start to |parts|
      invariant longer == path + parts[start..i]
    {
      assert parts[start..i + 1] == parts[start..i] + [parts[i]];
      longer := longer + [parts[i]];
    }
    assert parts[start..|parts|] == parts[start..];
  }

  lemma {:induction false} CommonIs(a: seq<string>, b: seq<string>, n: nat)
    requires n <= |a| && n <= |b| && a[..n] == b[..n]
    requires n < |a| && n < |b| ==> a[n] != b[n]
    ensures Common(a, b) == n
    decreases n
  {
    if n > 0 {
      assert a[0] == a[..n][0] && b[0] == b[..n][0];
      assert a[1..][..n - 1] == a[..n][1..] && b[1..][..n - 1] == b[..n][1..];
      CommonIs(a[1..], b[1..], n - 1);
    }
  }

  // ----- following a relative path

  /** Where a relative path leads from a directory; it may not climb past the
      root. */
  function Resolve(from: seq<string>, path: seq<string>): Option<seq<string>>
    decreases |path|
  {
    if path == [] then Some(from)
    else if path[0] != ".." then Resolve(from + [path[0]], path[1..])
    else if from == [] then None
    else Resolve(from[..|from| - 1], path[1..])
  }

  lemma {:induction false} ResolveAppend(from: seq<string>, a: seq<string>, b: seq<string>)
    ensures Resolve(from, a + b) ==
            if Resolve(from, a).None? then None else Resolve(Resolve(from, a).value, b)
    decreases |a|
  {
    if a == [] {
      assert a + b == b;
    } else {
      assert (a + b)[0] == a[0] && (a + b)[1..] == a[1..] + b;
      if a[0] != UP {
        ResolveAppend(from + [a[0]], a[1..], b);
      } else if from != [] {
        ResolveAppend(from[..|from| - 1], a[1..], b);
      }
    }
  }

  lemma {:induction false} ResolveUps(from: seq<string>, n: nat)
    requires n <= |from|
    ensures Resolve(from, Ups(n)) == Some(from[..|from| - n])
    decreases n
  {
    if n == 0 {
      assert from[..|from|] == from;
    } else {
      assert Ups(n)[1..] == Ups(n - 1);
      ResolveUps(from[..|from| - 1], n - 1);
      assert from[..|from| - 1][..|from| - n] == from[..|from| - n];
    }
  }

  lemma {:induction false} ResolveNames(from: seq<string>, names: seq<string>)
    requires forall i :: 0 <= i < |names| ==> names[i] != UP
    ensures Resolve(from, names) == Some(from + names)
    decreases |names|
  {
    if names == [] {
      assert from + names == from;
    } else {
      ResolveNames(from + [names[0]], names[1..]);
      assert (from + [names[0]]) + names[1..] == from + names;
    }
  }

  /** The relative path leads to the target. */
  lemma {:induction false} RelativeResolves(from: seq<string>, to: seq<string>)
    requires forall i :: 0 <= i < |to| ==> to[i] != UP
    ensures Resolve(from, Relative(from, to)) == Some(to)
  {
    var n := Common(from, to);
    ResolveAppend(from, Ups(|from| - n), to[n..]);
    ResolveUps(from, |from| - n);
    ResolveNames(from[..n], to[n..]);
    assert to == to[..n] + to[n..];
  }

  function CountUps(path: seq<string>): nat {
    if path == [] then 0 else (if path[0] == ".." then 1 else 0) + CountUps(path[1..])
  }

  lemma {:induction false} CountUpsAppend(a: seq<string>, b: seq<string>)
    ensures CountUps(a + b) == CountUps(a) + CountUps(b)
    decreases |a|
  {
    if a == [] {
      assert a + b == b;
    } else {
      assert (a + b)[0] == a[0] && (a + b)[1..] == a[1..] + b;
      CountUpsAppend(a[1..], b);
    }
  }

  lemma {:induction false} CountOfRelative(from: seq<string>, to: seq<string>)
    requires forall i :: 0 <= i < |to| ==> to[i] != UP
    ensures CountUps(Relative(from, to)) == |from| - Common(from, to)
  {
    var n := Common(from, to);
    CountUpsAppend(Ups(|from| - n), to[n..]);
    CountOfUps(|from| - n);
    CountOfNames(to[n..]);
  }

  lemma {:induction false} CountOfUps(n: nat)
    ensures CountUps(Ups(n)) == n
  {
    if n > 0 {
      assert Ups(n)[1..] == Ups(n - 1);
      CountOfUps(n - 1);
    }
  }

  lemma {:induction false} CountOfNames(names: seq<string>)
    requires forall i :: 0 <= i < |names| ==> names[i] != UP
    ensures CountUps(names) == 0
  {
    if names != [] {
      CountOfNames(names[1..]);
    }
  }

  /** Whatever path is followed, all but as many directories as it climbs are
      still there at the end. */
  lemma {:induction false} ClimbingKeepsPrefix(from: seq<string>, path: seq<string>, keep: nat)
    requires Resolve(from, path).Some? && keep + CountUps(path) <= |from|
    ensures keep <= |Resolve(from, path).value| && Resolve(from, path).value[..keep] == from[..keep]
    decreases |path|
  {
    if path != [] {
      if path[0] != UP {
        ClimbingKeepsPrefix(from + [path[0]], path[1..], keep);
        assert (from + [path[0]])[..keep] == from[..keep];
      } else {
        ClimbingKeepsPrefix(from[..|from| - 1], path[1..], keep);
        assert from[..|from| - 1][..keep] == from[..keep];
      }
    }
  }

  lemma {:induction false} CommonAtLeast(a: seq<string>, b: seq<string>, n: nat)
    requires n <= |a| && n <= |b| && a[..n] == b[..n]
    ensures Common(a, b) >= n
    decreases n
  {
    if n > 0 {
      assert a[0] == a[..n][0] && b[0] == b[..n][0];
      assert a[1..][..n - 1] == a[..n][1..] && b[1..][..n - 1] == b[..n][1..];
      CommonAtLeast(a[1..], b[1..], n - 1);
    }
  }

  /** No other path to the target climbs less. */
  lemma {:induction false} RelativeIsShortest(from: seq<string>, to: seq<string>, path: seq<string>)
    requires (forall i :: 0 <= i < |to| ==> to[i] != UP) && Resolve(from, path) == Some(to)
    ensures CountUps(path) >= CountUps(Relative(from, to))
  {
    CountOfRelative(from, to);
    if CountUps(path) < |from| {
      var keep := |from| - CountUps(path);
      ClimbingKeepsPrefix(from, path, keep);
      CommonAtLeast(from, to, keep);
    }
  }

  // ----- stripped paths

  lemma {:induction false} StrippedComponents(path: string, strip: nat)
    ensures Stripped(path, strip).Some? <==> strip < |Components(path)|
    ensures Stripped(path, strip).Some? ==> Components(Stripped(path, strip).value) == Components(path)[strip..]
  {
    if Stripped(path, strip).None? {
    } else if strip == 0 {
      assert Components(path)[0..] == Components(path);
    } else {
      assert Free(path, {});
      PiecesAreFree(path, SLASH, {});
      assert SLASH + {} == SLASH;
      SplitJoin(Components(path)[strip..], '/', SLASH);
    }
  }

  lemma {:induction false} ParentComponents(path: string)
    requires IsNormalized(path)
    ensures Parts(ParentOf(path)) == Components(path)[..|Components(path)| - 1]
  {
    var parent, last := LastSlash(path);
    if last == path {
      SplitFree(path, SLASH);
    } else {
      SplitConcat(parent, '/', last, SLASH);
      SplitFree(last, SLASH);
      var all := Components(path);
      assert all == Components(parent) + [last];
      assert all[0] == Components(parent)[0] && IsName(all[0]);
      assert parent != "" by {
        assert Components("") == [""];
      }
    }
  }

  /** A path is its parent, a slash and its last component, or has no slash. */
  lemma {:induction false} LastSlash(path: string) returns (parent: string, last: string)
    ensures Free(last, SLASH) && ParentOf(path) == parent
    ensures (last == path && parent == "") || path == parent + ['/'] + last
  {
    if path == "" {
      parent, last := "", "";
    } else {
      var front, c := path[..|path| - 1], path[|path| - 1];
      if c == '/' {
        parent, last := front, "";
        assert path == front + ['/'] + "";
      } else {
        var l;
        parent, l := LastSlash(front);
        last := l + [c];
        assert path == front + [c];
        if l != front {
          assert path == parent + ['/'] + last;
        }
      }
    }
  }

  /** The relative target given to the safety planner leads from the directory of
      the stripped link to exactly the path the materializer links from, with as
      few steps up as any path that does. */
  lemma {:induction false} LinkTargetsAgree(link: string, target: string, strip: nat)
    requires IsNormalized(link) && IsNormalized(target)
    requires Stripped(link, strip).Some? && Stripped(target, strip).Some?
    ensures var from := Parts(ParentOf(Stripped(link, strip).value));
            var source := Stripped(target, strip).value;
            var relative := Relative(from, Components(source));
            && from == Components(link)[strip..|Components(link)| - 1] && Components(source) == Components(target)[strip..]
            && Resolve(from, relative) == Some(Components(source)) && Join(Components(source), '/') == source
            && forall path :: Resolve(from, path) == Some(Components(source)) ==> CountUps(path) >= CountUps(relative)
  {
    var l, source := Stripped(link, strip).value, Stripped(target, strip).value;
    StrippedComponents(link, strip);
    StrippedComponents(target, strip);
    forall i | 0 <= i < |Components(l)| ensures IsName(Components(l)[i]) {
      assert Components(l)[i] == Components(link)[strip + i];
    }
    forall i | 0 <= i < |Components(source)| ensures Components(source)[i] != UP {
      assert Components(source)[i] == Components(target)[strip + i];
    }
    ParentComponents(l);
    var from := Parts(ParentOf(l));
    RelativeResolves(from, Components(source));
    JoinSplit(source, '/');
    forall path | Resolve(from, path) == Some(Components(source))
      ensures CountUps(path) >= CountUps(Relative(from, Components(source)))
    {
      RelativeIsShortest(from, Components(source), path);
    }
  }
}
