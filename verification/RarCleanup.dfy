/** A commit whose moves have all succeeded and that then fails to delete one of
    the displaced originals: what is still held is put back. */
module RarCleanup {
  import opened Wrappers
  import opened FileSystem
  import opened RarReplacements

  /** No path is displaced once something below it has been. */
  ghost predicate OutermostFirst(displaced: seq<Displacement>) {
    forall i, j :: 0 <= i < j < |displaced| && displaced[j].original <= displaced[i].original ==>
      displaced[j].original == displaced[i].original
  }

  /** Asides carry their position as serial number. */
  ghost predicate Named(displaced: seq<Displacement>) {
    forall i :: 0 <= i < |displaced| ==> HiddenSibling(displaced[i].aside, displaced[i].original, i)
  }

  /** The disk when deleting the aside at `k` fails after some of it is gone. */
  ghost predicate Stopped(s: State, k: nat, broken: Tree)
    requires MovesApart(s.files) && k < |s.displaced|
  {
    var tidied := RemoveAsides(CommitFiles(s.tree, s.files), s.displaced[k + 1..]);
    && WellFormed(broken)
    && forall p :: Lookup(broken, p) == Lookup(tidied, p) || (s.displaced[k].aside <= p && p !in broken)
  }

  /** The disk once the failed commit has put back what it still held. */
  function AfterCleanup(s: State, k: nat, broken: Tree): Tree
    requires k < |s.displaced|
  {
    Restore(broken, s.displaced[..k])
  }

  // ----- asides stay where they are

  lemma {:induction false} PrefixOrdered(displaced: seq<Displacement>, n: nat)
    requires Named(displaced) && OutermostFirst(displaced) && n <= |displaced|
    ensures Named(displaced[..n]) && OutermostFirst(displaced[..n])
  {
  }

  lemma {:induction false} AsidesApart(displaced: seq<Displacement>, i: nat, j: nat)
    requires Named(displaced) && OutermostFirst(displaced) && i < j < |displaced|
    ensures Apart(displaced[i].aside, displaced[j].aside) && Apart(displaced[i].aside, displaced[j].original)
  {
    var a, b := displaced[i], displaced[j];
    HiddenNamesApart(a.aside, a.original, i, b.aside, b.original, j);
    TemporaryAndPlainPath(a.aside, a.original, i, b.original);
  }

  lemma {:induction false} AsidesStand(tree: Tree, displaced: seq<Displacement>, i: nat)
    requires Restorable(tree, displaced) && Named(displaced) && OutermostFirst(displaced) && i < |displaced|
    ensures displaced[i].aside in tree
    decreases |displaced|
  {
    var n := |displaced| - 1;
    var last, a := displaced[n], displaced[i].aside;
    if i < n {
      AsidesStand(Move(tree, last.aside, last.original), displaced[..n], i);
      AsidesApart(displaced, i, n);
      NotAboveBoth(a, last.original, a);
      MoveLookup(tree, last.aside, last.original, a);
    }
  }

  lemma {:induction false} StandingIsRestorable(tree: Tree, displaced: seq<Displacement>)
    requires WellFormed(tree) && Named(displaced) && OutermostFirst(displaced)
    requires forall i :: 0 <= i < |displaced| ==> displaced[i].aside in tree
    ensures Restorable(tree, displaced)
    decreases |displaced|
  {
    if displaced != [] {
      var n := |displaced| - 1;
      var last := displaced[n];
      HiddenSiblingFacts(last.aside, last.original, n);
      MoveKeepsWellFormed(tree, last.aside, last.original);
      var next := Move(tree, last.aside, last.original);
      forall i | 0 <= i < n ensures displaced[..n][i].aside in next {
        var a := displaced[i].aside;
        AsidesApart(displaced, i, n);
        NotAboveBoth(a, last.original, a);
        NotAboveBoth(a, last.aside, a);
        MoveLookup(tree, last.aside, last.original, a);
      }
      StandingIsRestorable(next, displaced[..n]);
    }
  }

  // ----- where displaced paths are found

  lemma {:induction false} CoveredSplit(displaced: seq<Displacement>, p: Path)
    requires displaced != []
    ensures var n := |displaced| - 1;
            Covered(displaced, p) ==> Covered(displaced[..n], p) || displaced[n].original <= p
  {
    if i :| 0 <= i < |displaced| && displaced[i].original <= p {
      assert i < |displaced| - 1 ==> displaced[..|displaced| - 1][i].original <= p;
    }
  }

  /** What undoing brings to a covered path it takes from below an aside, ... */
  lemma {:induction false} OriginBelowAside(displaced: seq<Displacement>, p: Path) returns (i: nat)
    requires Covered(displaced, p) && Origin(displaced, p).Some?
    ensures i < |displaced| && displaced[i].aside <= Origin(displaced, p).value
    decreases |displaced|
  {
    i := |displaced| - 1;
    var rest, last := displaced[..i], displaced[i];
    var q := Origin(rest, p).value;
    CoveredSplit(displaced, p);
    if last.original <= q {
      assert last.aside <= Graft(q, last.original, last.aside);
    } else if Covered(rest, p) {
      i := OriginBelowAside(rest, p);
    } else {
      UncoveredOrigin(rest, p);
      assert false;
    }
  }

  lemma {:induction false} LaterSparesAside(displaced: seq<Displacement>, i: nat, j: nat, q: Path)
    requires Named(displaced) && OutermostFirst(displaced) && i < j < |displaced| && displaced[i].aside <= q
    ensures !(displaced[j].original <= q) && !(displaced[j].aside <= q)
  {
    AsidesApart(displaced, i, j);
    NotAboveBoth(displaced[i].aside, displaced[j].original, q);
    NotAboveBoth(displaced[i].aside, displaced[j].aside, q);
  }

  /** ... and later displacements do not move it from there. */
  lemma {:induction false} OriginStays(displaced: seq<Displacement>, k: nat, m: nat, i: nat, p: Path)
    requires Named(displaced) && OutermostFirst(displaced) && i < k <= m <= |displaced|
    requires Origin(displaced[..k], p).Some? && displaced[i].aside <= Origin(displaced[..k], p).value
    ensures Origin(displaced[..m], p) == Origin(displaced[..k], p)
    decreases m
  {
    if k < m {
      OriginStays(displaced, k, m - 1, i, p);
      LaterSparesAside(displaced, i, m - 1, Origin(displaced[..k], p).value);
      assert displaced[..m][..m - 1] == displaced[..m - 1];
    }
  }

  lemma {:induction false} OriginOfPrefix(displaced: seq<Displacement>, k: nat, p: Path)
    requires k <= |displaced| && Origin(displaced, p).Some?
    ensures Origin(displaced[..k], p).Some?
    decreases |displaced|
  {
    var n := |displaced| - 1;
    if k <= n {
      assert displaced[..n][..k] == displaced[..k];
      OriginOfPrefix(displaced[..n], k, p);
    } else {
      assert displaced[..k] == displaced;
    }
  }

  // ----- the stopped disk

  /** What a run leaves behind when it displaces outermost paths first. */
  ghost predicate Ready(s: State) {
    && Restorable(s.tree, s.displaced) && NamesInOrder(s) && TemporariesInPlace(s)
    && FinalsApart(s) && MovesApart(s.files) && OutermostFirst(s.displaced)
  }

  lemma {:induction false} StoppedLookup(s: State, k: nat, broken: Tree, p: Path)
    requires Ready(s) && k < |s.displaced| && Stopped(s, k, broken)
    ensures var tidied := if Clear(s.displaced[k + 1..], p) then Lookup(CommitFiles(s.tree, s.files), p) else None;
            Lookup(broken, p) == tidied || (s.displaced[k].aside <= p && p !in broken)
  {
    FilesAreSiblings(s);
    CommitKeepsWellFormed(s.tree, s.files);
    RemoveAsidesLookup(CommitFiles(s.tree, s.files), s.displaced[k + 1..], p);
  }

  /** The moves touch nothing at or below an aside. */
  lemma {:induction false} MovesSpareAsides(s: State, i: nat, q: Path)
    requires Ready(s) && i < |s.displaced| && s.displaced[i].aside <= q
    ensures Lookup(CommitFiles(s.tree, s.files), q) == Lookup(s.tree, q)
  {
    var d := s.displaced[i];
    forall j | 0 <= j < |s.files| ensures !(s.files[j].final <= q) && !(s.files[j].temporary <= q) {
      var f := s.files[j];
      TemporaryAndPlainPath(d.aside, d.original, i, f.final);
      NotAboveBoth(d.aside, f.final, q);
      HiddenNamesApart(d.aside, d.original, i, f.temporary, f.final, |s.displaced| + j);
      NotAboveBoth(d.aside, f.temporary, q);
    }
    CommittedElsewhere(s.tree, s.files, q);
  }

  /** Below an aside not yet deleted, the stopped disk is as it was. */
  lemma {:induction false} HeldAside(s: State, k: nat, broken: Tree, i: nat, q: Path)
    requires Ready(s) && i <= k < |s.displaced| && Stopped(s, k, broken) && s.displaced[i].aside <= q
    ensures Lookup(broken, q) == Lookup(s.tree, q) || (i == k && q !in broken)
  {
    StoppedLookup(s, k, broken, q);
    MovesSpareAsides(s, i, q);
    forall j | k < j < |s.displaced| ensures !(s.displaced[j].aside <= q) {
      LaterSparesAside(s.displaced, i, j, q);
    }
    if i < k {
      LaterSparesAside(s.displaced, i, k, q);
    }
  }

  /** So putting back what is still held succeeds, and shows the view. */
  lemma {:induction false} AfterIsView(s: State, k: nat, broken: Tree, p: Path)
    requires Ready(s) && k < |s.displaced| && Stopped(s, k, broken)
    ensures Lookup(AfterCleanup(s, k, broken), p) == View(broken, s.displaced[..k], p)
  {
    forall i | 0 <= i < k ensures s.displaced[..k][i].aside in broken {
      AsidesStand(s.tree, s.displaced, i);
      HeldAside(s, k, broken, i, s.displaced[i].aside);
    }
    PrefixOrdered(s.displaced, k);
    StandingIsRestorable(broken, s.displaced[..k]);
    RestoreIsView(broken, s.displaced[..k], p);
  }

  // ----- the failed cleanup, path by path

  /** What lay below an original displaced before `k` is back, ... */
  lemma {:induction false} HeldIsBack(s: State, k: nat, broken: Tree, p: Path)
    requires Ready(s) && k < |s.displaced| && Stopped(s, k, broken)
    requires Covered(s.displaced[..k], p) && View(s.tree, s.displaced, p).Some?
    ensures Lookup(AfterCleanup(s, k, broken), p) == View(s.tree, s.displaced, p)
  {
    AfterIsView(s, k, broken, p);
    OriginOfPrefix(s.displaced, k, p);
    var i := OriginBelowAside(s.displaced[..k], p);
    OriginStays(s.displaced, k, |s.displaced|, i, p);
    assert s.displaced[..|s.displaced|] == s.displaced;
    HeldAside(s, k, broken, i, Origin(s.displaced[..k], p).value);
  }

  /** ... what lay below the one at `k` is left aside, as far as it is not deleted, ... */
  lemma {:induction false} StoppedIsLeftAside(s: State, k: nat, broken: Tree, p: Path)
    requires Ready(s) && k < |s.displaced| && Stopped(s, k, broken)
    requires View(s.tree, s.displaced, p).Some? && s.displaced[k].original <= p && !Covered(s.displaced[..k], p)
    ensures var q := Graft(p, s.displaced[k].original, s.displaced[k].aside);
            && Lookup(AfterCleanup(s, k, broken), q) == Lookup(broken, q)
            && (q in broken ==> Lookup(broken, q) == View(s.tree, s.displaced, p))
  {
    var d := s.displaced[k];
    var q := Graft(p, d.original, d.aside);
    assert s.displaced[..k + 1][..k] == s.displaced[..k] && d.aside <= q;
    OriginOfPrefix(s.displaced, k, p);
    UncoveredOrigin(s.displaced[..k], p);
    OriginStays(s.displaced, k + 1, |s.displaced|, k, p);
    assert s.displaced[..|s.displaced|] == s.displaced;
    HeldAside(s, k, broken, k, q);
    AfterIsView(s, k, broken, q);
    AsideStaysUncovered(s, k, p, q);
    UncoveredOrigin(s.displaced[..k], q);
  }

  lemma {:induction false} AsideStaysUncovered(s: State, k: nat, p: Path, q: Path)
    requires NamesInOrder(s) && OutermostFirst(s.displaced) && k < |s.displaced|
    requires s.displaced[k].original <= p && !Covered(s.displaced[..k], p) && s.displaced[k].aside <= q
    ensures !Covered(s.displaced[..k], q) && Clear(s.displaced[..k], q)
  {
    var d := s.displaced[k];
    forall i | 0 <= i < k ensures !(s.displaced[i].original <= q) && !(s.displaced[i].aside <= q) {
      assert s.displaced[..k][i] == s.displaced[i];
      AsidesApart(s.displaced, i, k);
      NotAboveBoth(d.aside, s.displaced[i].aside, q);
      TemporaryAndPlainPath(d.aside, d.original, k, s.displaced[i].original);
      NotAboveBoth(d.aside, s.displaced[i].original, q);
    }
  }

  /** ... and everywhere else the disk is as a successful commit leaves it. */
  lemma {:induction false} ElsewhereCommitted(s: State, k: nat, broken: Tree, p: Path)
    requires Ready(s) && k < |s.displaced| && Stopped(s, k, broken)
    requires !Covered(s.displaced[..k], p) && !(s.displaced[k].aside <= p)
    ensures Lookup(AfterCleanup(s, k, broken), p) ==
            if Clear(s.displaced, p) then Lookup(CommitFiles(s.tree, s.files), p) else None
  {
    AfterIsView(s, k, broken, p);
    UncoveredOrigin(s.displaced[..k], p);
    StoppedLookup(s, k, broken, p);
    ClearSplit(s.displaced, k, p);
  }

  lemma {:induction false} ClearSplit(displaced: seq<Displacement>, k: nat, p: Path)
    requires k < |displaced|
    ensures Clear(displaced, p) <==>
            Clear(displaced[..k], p) && !(displaced[k].aside <= p) && Clear(displaced[k + 1..], p)
  {
    assert forall i :: 0 <= i < k ==> displaced[..k][i] == displaced[i];
    assert forall i :: k < i < |displaced| ==> displaced[i] == displaced[k + 1..][i - k - 1];
  }

  /** A commit that fails while it deletes the displaced originals puts back those
      displaced earlier, leaves what is left of the one at hand aside, and is
      otherwise complete: the finals are new and the later originals deleted. */
  lemma {:induction false} FailedCleanup(start: Tree, steps: seq<Step>, k: nat, broken: Tree)
    requires WellFormed(start) && RunFrom(Begin(start), steps).Some?
    requires var s := RunFrom(Begin(start), steps).value;
             && FinalsApart(s) && MovesApart(s.files) && OutermostFirst(s.displaced)
             && k < |s.displaced| && Stopped(s, k, broken)
    ensures var s := RunFrom(Begin(start), steps).value;
            var after, d := AfterCleanup(s, k, broken), s.displaced;
            && (forall p :: p in start && Covered(d[..k], p) ==> Lookup(after, p) == Some(start[p]))
            && (forall p :: p in start && d[k].original <= p && !Covered(d[..k], p) ==>
                  var q := Graft(p, d[k].original, d[k].aside);
                  Lookup(after, q) == Lookup(broken, q) && (q in broken ==> broken[q] == start[p]))
            && (forall p :: !Covered(d[..k], p) && !(d[k].aside <= p) ==> Lookup(after, p) == Lookup(Commit(s), p))
  {
    var s := RunFrom(Begin(start), steps).value;
    var after, d := AfterCleanup(s, k, broken), s.displaced;
    BeginInvariant(start);
    RunKeepsInvariant(start, Begin(start), steps);
    forall p | p in start && Covered(d[..k], p) ensures Lookup(after, p) == Some(start[p]) {
      HeldIsBack(s, k, broken, p);
    }
    forall p | p in start && d[k].original <= p && !Covered(d[..k], p)
      ensures var q := Graft(p, d[k].original, d[k].aside);
              Lookup(after, q) == Lookup(broken, q) && (q in broken ==> broken[q] == start[p])
    {
      StoppedIsLeftAside(s, k, broken, p);
    }
    forall p | !Covered(d[..k], p) && !(d[k].aside <= p) ensures Lookup(after, p) == Lookup(Commit(s), p) {
      ElsewhereCommitted(s, k, broken, p);
      CommitLookup(start, s, p);
    }
  }
}
