/** The replacement log of a RAR extraction: existing destinations are held
    reversibly until the whole extraction has succeeded. */
module RarReplacements {
  import opened Wrappers
  import opened FileSystem

  const MAX_ATTEMPTS: nat := 100

  /** A finished temporary still to be moved over its destination. */
  datatype Replacement = Replacement(temporary: Path, final: Path)

  /** An existing path moved out of the way. */
  datatype Displacement = Displacement(aside: Path, original: Path)

  /** Archive entries never name a path through a hidden component. */
  predicate IsPlain(path: Path) {
    forall i :: 0 <= i < |path| ==> path[i].Plain?
  }

  /** A hidden name beside the plain path `of`. */
  predicate HiddenSibling(path: Path, of: Path, serial: nat) {
    && of != [] && path != [] && IsPlain(of)
    && Parent(path) == Parent(of)
    && path[|path| - 1].Hidden? && path[|path| - 1].serial == serial
  }

  function SiblingName(of: Path, stamp: nat, serial: nat, attempt: nat): (r: Path)
    requires of != []
  {
    Parent(of) + [Hidden(stamp, serial, attempt)]
  }

  lemma {:induction false} HiddenSiblingFacts(path: Path, of: Path, serial: nat)
    requires HiddenSibling(path, of, serial)
    ensures Siblings(path, of) && Apart(path, of)
  {
    assert of[|of| - 1].Plain?;
    SiblingsAreApart(path, of);
  }

  /** A path whose components, the last one aside, are all plain. */
  predicate PlainAbove(path: Path) {
    path != [] && IsPlain(Parent(path))
  }

  /** An aside reaches above another path only if it is that very path. */
  lemma {:induction false} AsideIsNotAbove(aside: Path, of: Path, serial: nat, p: Path)
    requires HiddenSibling(aside, of, serial)
    requires IsPlain(p) || (PlainAbove(p) && p != aside)
    ensures !(aside <= p)
  {
    var last := |aside| - 1;
    assert aside[last].Hidden?;
    assert PlainAbove(p) && last < |p| - 1 ==> p[last] == Parent(p)[last];
  }

  // ----- undoing displacements

  /** The path whose node ends up at `p` once `displaced` is undone, or `None`
      when undoing leaves nothing at `p`. */
  function Origin(displaced: seq<Displacement>, p: Path): Option<Path> {
    if displaced == [] then Some(p)
    else
      var last := displaced[|displaced| - 1];
      match Origin(displaced[..|displaced| - 1], p)
      case None => None
      case Some(q) =>
        if last.original <= q then Some(Graft(q, last.original, last.aside))
        else if last.aside <= q then None
        else Some(q)
  }

  /** The node found at `p` once `displaced` is undone in `tree`. */
  function View(tree: Tree, displaced: seq<Displacement>, p: Path): Option<Node> {
    match Origin(displaced, p)
    case None => None
    case Some(q) => Lookup(tree, q)
  }

  /** `q` lies at or below a displaced original. */
  ghost predicate Covered(displaced: seq<Displacement>, q: Path) {
    exists i :: 0 <= i < |displaced| && displaced[i].original <= q
  }

  /** `q` lies at or below no aside. */
  ghost predicate Clear(displaced: seq<Displacement>, q: Path) {
    forall i :: 0 <= i < |displaced| ==> !(displaced[i].aside <= q)
  }

  /** Undoing never carries a path clear of every aside anywhere: such a path
      is either left alone or erased. */
  lemma {:induction false} OriginOfClearPath(displaced: seq<Displacement>, p: Path, q: Path)
    requires Clear(displaced, q)
    ensures Origin(displaced, p) == Some(q) <==> p == q && !Covered(displaced, q)
    decreases |displaced|
  {
    if displaced != [] {
      var n := |displaced| - 1;
      var rest := displaced[..n];
      assert forall i :: 0 <= i < n ==> rest[i] == displaced[i];
      OriginOfClearPath(rest, p, q);
      assert Covered(displaced, q) <==> Covered(rest, q) || displaced[n].original <= q by {
        if Covered(displaced, q) {
          var i :| 0 <= i < |displaced| && displaced[i].original <= q;
          if i < n { assert rest[i].original <= q; }
        }
        if Covered(rest, q) {
          var i :| 0 <= i < |rest| && rest[i].original <= q;
          assert displaced[i].original <= q;
        }
      }
    }
  }

  /** One more displacement leaves every view as it was. */
  lemma {:induction false} DisplacingKeepsViews(tree: Tree, displaced: seq<Displacement>, d: Displacement, p: Path)
    requires WellFormed(tree) && Apart(d.aside, d.original) && d.aside !in tree
    ensures View(Move(tree, d.original, d.aside), displaced + [d], p) == View(tree, displaced, p)
  {
    var longer := displaced + [d];
    assert longer[..|longer| - 1] == displaced;
    match Origin(displaced, p)
    case None =>
    case Some(q) =>
      if d.original <= q {
        var g := Graft(q, d.original, d.aside);
        GraftBack(q, d.original, d.aside);
        MoveLookup(tree, d.original, d.aside, g);
      } else if d.aside <= q {
        if q in tree { NothingBelow(tree, d.aside, q); }
      } else {
        MoveLookup(tree, d.original, d.aside, q);
      }
  }

  /** Changing one path clear of every aside changes at most the view of that
      path, and not even that when it is covered. */
  lemma {:induction false} ChangingKeepsViews(tree: Tree, changed: Tree, displaced: seq<Displacement>, q: Path, p: Path)
    requires Clear(displaced, q)
    requires forall s :: s != q ==> Lookup(changed, s) == Lookup(tree, s)
    requires p != q || Covered(displaced, q)
    ensures View(changed, displaced, p) == View(tree, displaced, p)
  {
    OriginOfClearPath(displaced, p, q);
  }

  // ----- runs of an extraction

  /** The disk together with the log, and the plain paths the extraction has
      created so far. */
  datatype State = State(
    tree: Tree,
    files: seq<Replacement>,
    displaced: seq<Displacement>,
    reserved: nat,
    created: set<Path>)

  datatype Step =
    | Displace(original: Path, aside: Path)
    | MakeDirectory(path: Path)
    | Reserve(final: Path, temporary: Path)
    | CreateFile(path: Path, content: string)
    | Overwrite(path: Path, content: string)

  predicate IsTemporary(files: seq<Replacement>, path: Path) {
    exists i :: 0 <= i < |files| && files[i].temporary == path
  }

  /** The steps an extraction takes.  Directories are committed before files,
      so no path is displaced once a temporary has been reserved. */
  predicate Enabled(s: State, step: Step) {
    match step
    case Displace(original, aside) =>
      && s.files == []
      && original in s.tree && aside !in s.tree
      && HiddenSibling(aside, original, s.reserved)
    case MakeDirectory(path) =>
      && IsPlain(path) && CreateDirectory(s.tree, path).Ok?
    case Reserve(final, temporary) =>
      && HiddenSibling(temporary, final, s.reserved)
      && CreateNew(s.tree, temporary).Ok?
    case CreateFile(path, content) =>
      && IsPlain(path) && CreateNew(s.tree, path).Ok?
    case Overwrite(path, content) =>
      && path in s.tree && s.tree[path].File?
      && (path in s.created || IsTemporary(s.files, path))
  }

  function Apply(s: State, step: Step): State
    requires Enabled(s, step)
  {
    match step
    case Displace(original, aside) =>
      HiddenSiblingFacts(aside, original, s.reserved);
      s.(tree := Move(s.tree, original, aside),
         displaced := s.displaced + [Displacement(aside, original)],
         reserved := s.reserved + 1)
    case MakeDirectory(path) =>
      s.(tree := s.tree[path := Directory], created := s.created + {path})
    case Reserve(final, temporary) =>
      s.(tree := s.tree[temporary := File("")],
         files := s.files + [Replacement(temporary, final)],
         reserved := s.reserved + 1)
    case CreateFile(path, content) =>
      s.(tree := s.tree[path := File(content)], created := s.created + {path})
    case Overwrite(path, content) =>
      s.(tree := s.tree[path := File(content)])
  }

  function Begin(tree: Tree): State {
    State(tree, [], [], 0, {})
  }

  /** The state a sequence of steps leads to, if each is enabled in turn. */
  function RunFrom(s: State, steps: seq<Step>): Option<State>
    decreases |steps|
  {
    if steps == [] then Some(s)
    else if Enabled(s, steps[0]) then RunFrom(Apply(s, steps[0]), steps[1..])
    else None
  }

  // ----- what every step keeps

  /** Names handed out so far are distinct: they carry their serial number. */
  ghost predicate NamesInOrder(s: State) {
    && s.reserved == |s.displaced| + |s.files|
    && (forall i :: 0 <= i < |s.displaced| ==>
          HiddenSibling(s.displaced[i].aside, s.displaced[i].original, i))
    && (forall i :: 0 <= i < |s.files| ==>
          HiddenSibling(s.files[i].temporary, s.files[i].final, |s.displaced| + i))
    && (forall q :: q in s.created ==> IsPlain(q))
  }

  /** Temporaries wait on disk where they were reserved. */
  ghost predicate TemporariesInPlace(s: State) {
    forall i :: 0 <= i < |s.files| ==>
      s.files[i].temporary in s.tree && s.tree[s.files[i].temporary].File?
  }

  /** When its turn comes, every aside is there to be moved back. */
  ghost predicate Restorable(tree: Tree, displaced: seq<Displacement>)
    decreases |displaced|
  {
    && WellFormed(tree)
    && (displaced == [] ||
        var n := |displaced| - 1;
        var last := displaced[n];
        && Siblings(last.aside, last.original) && Apart(last.aside, last.original)
        && last.aside in tree
        && Restorable(Move(tree, last.aside, last.original), displaced[..n]))
  }

  /** Paths the extraction owns: it may write them freely. */
  ghost predicate Owned(s: State, q: Path) {
    q in s.created || IsTemporary(s.files, q)
  }

  /** Undoing would bring back every path of the start ... */
  ghost predicate StartInView(start: Tree, s: State) {
    forall p :: p in start ==> View(s.tree, s.displaced, p) == Some(start[p])
  }

  /** ... and little else. */
  ghost predicate ViewAccountedFor(start: Tree, s: State) {
    forall p :: View(s.tree, s.displaced, p).Some? ==>
      || p in start
      || p in s.created
      || (IsTemporary(s.files, p) && !Covered(s.displaced, p))
  }

  ghost predicate OwnedIsNew(start: Tree, s: State) {
    forall q :: Owned(s, q) ==> q !in start || Covered(s.displaced, q)
  }

  /** Whatever stands in the place of a displaced original is the
      extraction's own. */
  ghost predicate CoveredIsOwned(s: State) {
    forall q :: q in s.tree && Clear(s.displaced, q) && Covered(s.displaced, q) ==> Owned(s, q)
  }

  ghost predicate Invariant(start: Tree, s: State) {
    && Restorable(s.tree, s.displaced)
    && NamesInOrder(s)
    && TemporariesInPlace(s)
    && StartInView(start, s)
    && ViewAccountedFor(start, s)
    && OwnedIsNew(start, s)
    && CoveredIsOwned(s)
  }

  lemma {:induction false} BeginInvariant(start: Tree)
    requires WellFormed(start)
    ensures Invariant(start, Begin(start))
  {
  }

  lemma {:induction false} StepKeepsInvariant(start: Tree, s: State, step: Step)
    requires Invariant(start, s) && Enabled(s, step)
    ensures Invariant(start, Apply(s, step))
  {
    match step
    case Displace(original, aside) => DisplaceKeepsInvariant(start, s, original, aside);
    case MakeDirectory(path) => CreateKeepsInvariant(start, s, path, Directory);
    case CreateFile(path, content) => CreateKeepsInvariant(start, s, path, File(content));
    case Reserve(final, temporary) => ReserveKeepsInvariant(start, s, final, temporary);
    case Overwrite(path, content) => OverwriteKeepsInvariant(start, s, path, content);
  }

  lemma {:induction false} DisplaceKeepsInvariant(start: Tree, s: State, original: Path, aside: Path)
    requires Invariant(start, s) && Enabled(s, Displace(original, aside))
    ensures Invariant(start, Apply(s, Displace(original, aside)))
  {
    HiddenSiblingFacts(aside, original, s.reserved);
    DisplaceKeepsViews(start, s, original, aside);
    DisplaceKeepsNames(s, original, aside);
    DisplaceKeepsRestorable(s.tree, s.displaced, Displacement(aside, original));
    DisplaceKeepsOwned(start, s, original, aside);
    DisplaceKeepsCovered(s, original, aside);
  }

  lemma {:induction false} DisplaceKeepsNames(s: State, original: Path, aside: Path)
    requires NamesInOrder(s) && Enabled(s, Displace(original, aside))
    ensures NamesInOrder(Apply(s, Displace(original, aside)))
  {
  }

  lemma {:induction false} DisplaceKeepsViews(start: Tree, s: State, original: Path, aside: Path)
    requires WellFormed(s.tree) && Enabled(s, Displace(original, aside))
    requires StartInView(start, s) && ViewAccountedFor(start, s)
    ensures StartInView(start, Apply(s, Displace(original, aside)))
    ensures ViewAccountedFor(start, Apply(s, Displace(original, aside)))
  {
    var s' := Apply(s, Displace(original, aside));
    HiddenSiblingFacts(aside, original, s.reserved);
    forall p
      ensures View(s'.tree, s'.displaced, p) == View(s.tree, s.displaced, p)
    {
      DisplacingKeepsViews(s.tree, s.displaced, Displacement(aside, original), p);
    }
  }

  lemma {:induction false} DisplaceKeepsCovered(s: State, original: Path, aside: Path)
    requires CoveredIsOwned(s) && Enabled(s, Displace(original, aside))
    ensures CoveredIsOwned(Apply(s, Displace(original, aside)))
  {
    var s' := Apply(s, Displace(original, aside));
    HiddenSiblingFacts(aside, original, s.reserved);
    forall q | q in s'.tree && Clear(s'.displaced, q) && Covered(s'.displaced, q)
      ensures Owned(s', q)
    {
      assert s'.displaced[|s.displaced|].aside == aside;
      assert forall i :: 0 <= i < |s.displaced| ==> s'.displaced[i] == s.displaced[i];
      MoveLookup(s.tree, original, aside, q);
      var i :| 0 <= i < |s'.displaced| && s'.displaced[i].original <= q;
      assert i < |s.displaced| && s.displaced[i].original <= q;
      assert Owned(s, q);
    }
  }

  lemma {:induction false} DisplaceKeepsRestorable(tree: Tree, displaced: seq<Displacement>, d: Displacement)
    requires Restorable(tree, displaced) && Siblings(d.aside, d.original)
    requires d.original in tree && d.aside !in tree
    ensures Apart(d.original, d.aside)
    ensures Restorable(Move(tree, d.original, d.aside), displaced + [d])
  {
    MoveKeepsWellFormed(tree, d.original, d.aside);
    MoveBack(tree, d.original, d.aside);
    assert (displaced + [d])[..|displaced|] == displaced;
  }

  lemma {:induction false} DisplaceKeepsOwned(start: Tree, s: State, original: Path, aside: Path)
    requires OwnedIsNew(start, s) && Enabled(s, Displace(original, aside))
    ensures OwnedIsNew(start, Apply(s, Displace(original, aside)))
  {
    var s' := Apply(s, Displace(original, aside));
    forall q | Owned(s', q)
      ensures q !in start || Covered(s'.displaced, q)
    {
      assert Owned(s, q);
      if Covered(s.displaced, q) {
        CoveredStays(s.displaced, Displacement(aside, original), q);
      }
    }
  }

  lemma {:induction false} CoveredStays(displaced: seq<Displacement>, d: Displacement, q: Path)
    requires Covered(displaced, q)
    ensures Covered(displaced + [d], q)
  {
    var i :| 0 <= i < |displaced| && displaced[i].original <= q;
    assert (displaced + [d])[i].original <= q;
  }

  /** Plain paths are clear of every aside ... */
  lemma {:induction false} PlainIsClear(s: State, q: Path)
    requires NamesInOrder(s) && IsPlain(q)
    ensures Clear(s.displaced, q)
  {
    forall i | 0 <= i < |s.displaced|
      ensures !(s.displaced[i].aside <= q)
    {
      AsideIsNotAbove(s.displaced[i].aside, s.displaced[i].original, i, q);
    }
  }

  /** ... and so are hidden names handed out later. */
  lemma {:induction false} LaterNameIsClear(s: State, q: Path, of: Path, n: nat)
    requires NamesInOrder(s) && n >= |s.displaced| && HiddenSibling(q, of, n)
    ensures Clear(s.displaced, q)
  {
    forall i | 0 <= i < |s.displaced|
      ensures !(s.displaced[i].aside <= q)
    {
      HiddenNamesApart(s.displaced[i].aside, s.displaced[i].original, i, q, of, n);
    }
  }

  lemma {:induction false} TemporariesAreClear(s: State, q: Path)
    requires NamesInOrder(s) && IsTemporary(s.files, q)
    ensures Clear(s.displaced, q)
  {
    var i :| 0 <= i < |s.files| && s.files[i].temporary == q;
    LaterNameIsClear(s, q, s.files[i].final, |s.displaced| + i);
  }

  /** Changes clear of every aside do not hinder the rollback. */
  lemma {:induction false} ChangingKeepsRestorable(tree: Tree, changed: Tree, displaced: seq<Displacement>)
    requires Restorable(tree, displaced) && WellFormed(changed)
    requires forall q :: Lookup(changed, q) == Lookup(tree, q) || Clear(displaced, q)
    ensures Restorable(changed, displaced)
    decreases |displaced|
  {
    if displaced != [] {
      var n := |displaced| - 1;
      var last, rest := displaced[n], displaced[..n];
      assert Lookup(changed, last.aside) == Lookup(tree, last.aside);
      MoveKeepsWellFormed(changed, last.aside, last.original);
      forall p
        ensures Lookup(Move(changed, last.aside, last.original), p) == Lookup(Move(tree, last.aside, last.original), p)
             || Clear(rest, p)
      {
        MoveLookup(tree, last.aside, last.original, p);
        MoveLookup(changed, last.aside, last.original, p);
        if last.original <= p {
          GraftBack(p, last.original, last.aside);
          assert !Clear(displaced, Graft(p, last.original, last.aside));
        }
        assert Clear(displaced, p) ==> Clear(rest, p);
      }
      ChangingKeepsRestorable(Move(tree, last.aside, last.original), Move(changed, last.aside, last.original), rest);
    }
  }

  /** The files written so far grew by at most the path `q`. */
  ghost predicate OwnsOneMore(s: State, s': State, q: Path) {
    && s'.displaced == s.displaced
    && s.created <= s'.created
    && (forall r :: IsTemporary(s.files, r) ==> IsTemporary(s'.files, r))
    && (forall r :: Owned(s', r) <==> Owned(s, r) || r == q)
  }

  /** Writing a path that was absent, or that the extraction owns already. */
  lemma {:induction false} WriteKeepsInvariant(start: Tree, s: State, s': State, q: Path, node: Node)
    requires Invariant(start, s)
    requires s'.tree == s.tree[q := node]
    requires WellFormed(s'.tree) && NamesInOrder(s') && TemporariesInPlace(s')
    requires OwnsOneMore(s, s', q)
    requires Clear(s.displaced, q)
    requires q !in s.tree || Owned(s, q)
    ensures Invariant(start, s')
  {
    assert forall r :: r != q ==> Lookup(s'.tree, r) == Lookup(s.tree, r);
    OriginOfClearPath(s.displaced, q, q);
    forall p | p != q || Covered(s.displaced, q)
      ensures View(s'.tree, s'.displaced, p) == View(s.tree, s.displaced, p)
    {
      ChangingKeepsViews(s.tree, s'.tree, s.displaced, q, p);
    }
    assert !Covered(s.displaced, q) && q !in s.tree ==> View(s.tree, s.displaced, q) == None;
    assert !Covered(s.displaced, q) ==> q !in start;
    ChangingKeepsRestorable(s.tree, s'.tree, s.displaced);
    assert OwnedIsNew(start, s');
    assert ViewAccountedFor(start, s') by {
      forall p | View(s'.tree, s'.displaced, p).Some?
        ensures p in start || p in s'.created
             || (IsTemporary(s'.files, p) && !Covered(s'.displaced, p))
      {
        if p == q {
          assert Owned(s', q);
        }
      }
    }
  }

  lemma {:induction false} CreateKeepsInvariant(start: Tree, s: State, path: Path, node: Node)
    requires Invariant(start, s) && IsPlain(path) && CreateNew(s.tree, path).Ok?
    ensures Invariant(start, s.(tree := s.tree[path := node], created := s.created + {path}))
  {
    var s' := s.(tree := s.tree[path := node], created := s.created + {path});
    PlainIsClear(s, path);
    AddingKeepsWellFormed(s.tree, path, node);
    AddingKeepsTemporaries(s, s', path, node);
    CreateOwnsOneMore(s, s', path, node);
    WriteKeepsInvariant(start, s, s', path, node);
  }

  lemma {:induction false} CreateOwnsOneMore(s: State, s': State, path: Path, node: Node)
    requires NamesInOrder(s) && IsPlain(path)
    requires s' == s.(tree := s.tree[path := node], created := s.created + {path})
    ensures NamesInOrder(s') && OwnsOneMore(s, s', path)
  {
  }

  lemma {:induction false} AddingKeepsTemporaries(s: State, s': State, path: Path, node: Node)
    requires TemporariesInPlace(s)
    requires s'.tree == s.tree[path := node] && (path !in s.tree || node.File?)
    requires s'.files == s.files || (node.File? && exists final :: s'.files == s.files + [Replacement(path, final)])
    ensures TemporariesInPlace(s')
  {
  }

  lemma {:induction false} AddingKeepsWellFormed(tree: Tree, path: Path, node: Node)
    requires WellFormed(tree) && CreateNew(tree, path).Ok?
    ensures WellFormed(tree[path := node])
  {
    var grown := tree[path := node];
    forall p
      ensures Hangs(grown, p)
    {
      assert Hangs(tree, p);
    }
  }

  lemma {:induction false} ReserveKeepsInvariant(start: Tree, s: State, final: Path, temporary: Path)
    requires Invariant(start, s) && Enabled(s, Reserve(final, temporary))
    ensures Invariant(start, Apply(s, Reserve(final, temporary)))
  {
    var s' := Apply(s, Reserve(final, temporary));
    LaterNameIsClear(s, temporary, final, s.reserved);
    AddingKeepsWellFormed(s.tree, temporary, File(""));
    AddingKeepsTemporaries(s, s', temporary, File(""));
    ReserveOwnsOneMore(s, final, temporary);
    ReserveKeepsNames(s, final, temporary);
    WriteKeepsInvariant(start, s, s', temporary, File(""));
  }

  lemma {:induction false} ReserveKeepsNames(s: State, final: Path, temporary: Path)
    requires NamesInOrder(s) && Enabled(s, Reserve(final, temporary))
    ensures NamesInOrder(Apply(s, Reserve(final, temporary)))
  {
  }

  lemma {:induction false} ReserveOwnsOneMore(s: State, final: Path, temporary: Path)
    requires Enabled(s, Reserve(final, temporary))
    ensures OwnsOneMore(s, Apply(s, Reserve(final, temporary)), temporary)
  {
    var s' := Apply(s, Reserve(final, temporary));
    forall r
      ensures IsTemporary(s'.files, r) <==> IsTemporary(s.files, r) || r == temporary
    {
      assert s'.files[|s.files|].temporary == temporary;
      assert forall i :: 0 <= i < |s.files| ==> s'.files[i] == s.files[i];
    }
  }

  lemma {:induction false} OverwriteKeepsInvariant(start: Tree, s: State, path: Path, content: string)
    requires Invariant(start, s) && Enabled(s, Overwrite(path, content))
    ensures Invariant(start, Apply(s, Overwrite(path, content)))
  {
    var s' := Apply(s, Overwrite(path, content));
    if path in s.created {
      PlainIsClear(s, path);
    } else {
      TemporariesAreClear(s, path);
    }
    OverwritingKeepsWellFormed(s.tree, path, File(content));
    WriteKeepsInvariant(start, s, s', path, File(content));
  }

  lemma {:induction false} OverwritingKeepsWellFormed(tree: Tree, path: Path, node: Node)
    requires WellFormed(tree) && path in tree && tree[path].File?
    ensures WellFormed(tree[path := node])
  {
    var grown := tree[path := node];
    forall p
      ensures Hangs(grown, p)
    {
      assert Hangs(tree, p);
    }
  }

  lemma {:induction false} RunKeepsInvariant(start: Tree, s: State, steps: seq<Step>)
    requires Invariant(start, s) && RunFrom(s, steps).Some?
    ensures Invariant(start, RunFrom(s, steps).value)
    decreases |steps|
  {
    if steps != [] {
      StepKeepsInvariant(start, s, steps[0]);
      RunKeepsInvariant(start, Apply(s, steps[0]), steps[1..]);
    }
  }

  // ----- dropping an uncommitted log

  function Ignoring(result: Result<Tree, Error>, otherwise: Tree): Tree {
    match result
    case Ok(tree) => tree
    case Err(_) => otherwise
  }

  /** Removes the temporaries; errors are ignored. */
  function DropFiles(tree: Tree, files: seq<Replacement>): Tree
    decreases |files|
  {
    if files == [] then tree
    else DropFiles(Ignoring(RemoveFile(tree, files[0].temporary), tree), files[1..])
  }

  /** Moves one displaced original back; errors are ignored. */
  function RestoreOne(tree: Tree, d: Displacement): Tree {
    var cleared := Ignoring(RemoveDestination(tree, d.original), tree);
    Ignoring(Rename(cleared, d.aside, d.original), cleared)
  }

  /** Moves the displaced originals back, last first. */
  function Restore(tree: Tree, displaced: seq<Displacement>): Tree
    decreases |displaced|
  {
    if displaced == [] then tree
    else
      var n := |displaced| - 1;
      Restore(RestoreOne(tree, displaced[n]), displaced[..n])
  }

  function Drop(tree: Tree, files: seq<Replacement>, displaced: seq<Displacement>): Tree {
    Restore(DropFiles(tree, files), displaced)
  }

  lemma {:induction false} DropFilesLookup(tree: Tree, files: seq<Replacement>, p: Path)
    requires forall i :: 0 <= i < |files| ==> !IsDirectory(tree, files[i].temporary)
    ensures Lookup(DropFiles(tree, files), p) ==
            if IsTemporary(files, p) then None else Lookup(tree, p)
    decreases |files|
  {
    if files != [] {
      var next := Ignoring(RemoveFile(tree, files[0].temporary), tree);
      assert forall i :: 0 <= i < |files[1..]| ==> files[1..][i] == files[i + 1];
      DropFilesLookup(next, files[1..], p);
      assert IsTemporary(files, p) <==> files[0].temporary == p || IsTemporary(files[1..], p) by {
        if IsTemporary(files, p) && files[0].temporary != p {
          var i :| 0 <= i < |files| && files[i].temporary == p;
          assert files[1..][i - 1].temporary == p;
        }
      }
    }
  }

  /** Undoing one displacement at a time shows the same view. */
  lemma {:induction false} ViewAfterLast(tree: Tree, displaced: seq<Displacement>, p: Path)
    requires displaced != []
    requires Apart(displaced[|displaced| - 1].aside, displaced[|displaced| - 1].original)
    ensures var n := |displaced| - 1;
            View(Move(tree, displaced[n].aside, displaced[n].original), displaced[..n], p)
            == View(tree, displaced, p)
  {
    var n := |displaced| - 1;
    match Origin(displaced[..n], p)
    case None =>
    case Some(q) => MoveLookup(tree, displaced[n].aside, displaced[n].original, q);
  }

  lemma {:induction false} RestoreStep(tree: Tree, displaced: seq<Displacement>)
    requires Restorable(tree, displaced) && displaced != []
    ensures var n := |displaced| - 1;
            var last := displaced[n];
            && Apart(last.aside, last.original)
            && Restorable(Move(tree, last.aside, last.original), displaced[..n])
            && Restore(tree, displaced) == Restore(Move(tree, last.aside, last.original), displaced[..n])
  {
    var last := displaced[|displaced| - 1];
    ReplaceIsMove(tree, last.aside, last.original);
    assert RestoreOne(tree, last) == Move(tree, last.aside, last.original);
  }

  /** Every rename of the rollback succeeds, so its effect at each path is the
      view of that path. */
  lemma {:induction false} RestoreIsView(tree: Tree, displaced: seq<Displacement>, p: Path)
    requires Restorable(tree, displaced)
    ensures Lookup(Restore(tree, displaced), p) == View(tree, displaced, p)
    decreases |displaced|
  {
    if displaced != [] {
      var n := |displaced| - 1;
      var last, rest := displaced[n], displaced[..n];
      RestoreStep(tree, displaced);
      RestoreIsView(Move(tree, last.aside, last.original), rest, p);
      ViewAfterLast(tree, displaced, p);
    }
  }

  /** What dropping an uncommitted log leaves at each path. */
  lemma {:induction false} DropLookup(start: Tree, s: State, p: Path)
    requires Invariant(start, s)
    ensures Lookup(Drop(s.tree, s.files, s.displaced), p) ==
            if IsTemporary(s.files, p) && !Covered(s.displaced, p) then None
            else View(s.tree, s.displaced, p)
  {
    var dropped := DropFiles(s.tree, s.files);
    forall q
      ensures Lookup(dropped, q) == if IsTemporary(s.files, q) then None else Lookup(s.tree, q)
    {
      DropFilesLookup(s.tree, s.files, q);
    }
    DropFilesKeepsRestorable(start, s);
    RestoreIsView(dropped, s.displaced, p);
    ViewWithoutTemporaries(s, dropped, s.displaced, p);
  }

  lemma {:induction false} ViewWithoutTemporaries(s: State, dropped: Tree, displaced: seq<Displacement>, p: Path)
    requires NamesInOrder(s)
    requires forall i :: 0 <= i < |displaced| ==> displaced[i] in s.displaced
    requires forall q :: Lookup(dropped, q) == if IsTemporary(s.files, q) then None else Lookup(s.tree, q)
    ensures View(dropped, displaced, p) ==
            if IsTemporary(s.files, p) && !Covered(displaced, p) then None
            else View(s.tree, displaced, p)
  {
    forall q | IsTemporary(s.files, q)
      ensures Origin(displaced, p) == Some(q) <==> p == q && !Covered(displaced, q)
    {
      TemporariesAreClear(s, q);
      OriginOfClearPath(displaced, p, q);
    }
  }

  lemma {:induction false} DropFilesKeepsRestorable(start: Tree, s: State)
    requires Invariant(start, s)
    ensures Restorable(DropFiles(s.tree, s.files), s.displaced)
  {
    var dropped := DropFiles(s.tree, s.files);
    forall q
      ensures Lookup(dropped, q) == if IsTemporary(s.files, q) then None else Lookup(s.tree, q)
    {
      DropFilesLookup(s.tree, s.files, q);
    }
    assert WellFormed(dropped) by {
      assert Lookup(dropped, []) == Some(Directory);
      forall q
        ensures Hangs(dropped, q)
      {
        assert Hangs(s.tree, q);
        if q in dropped && q != [] {
          assert Lookup(dropped, q) == Lookup(s.tree, q);
          assert Lookup(dropped, Parent(q)) == Lookup(s.tree, Parent(q));
        }
      }
    }
    forall q
      ensures Lookup(dropped, q) == Lookup(s.tree, q) || Clear(s.displaced, q)
    {
      if IsTemporary(s.files, q) {
        TemporariesAreClear(s, q);
      }
    }
    ChangingKeepsRestorable(s.tree, dropped, s.displaced);
  }

  /** An extraction that stops anywhere before its commit leaves every path of
      the start as it was, and beyond those only plain paths it created: no
      temporary and no aside. */
  lemma {:induction false} RollbackRestoresStart(start: Tree, steps: seq<Step>)
    requires WellFormed(start) && RunFrom(Begin(start), steps).Some?
    ensures var s := RunFrom(Begin(start), steps).value;
            var after := Drop(s.tree, s.files, s.displaced);
            && (forall p :: p in start ==> p in after && after[p] == start[p])
            && (forall p :: p in after ==> p in start || (p in s.created && IsPlain(p)))
  {
    var s := RunFrom(Begin(start), steps).value;
    var after := Drop(s.tree, s.files, s.displaced);
    BeginInvariant(start);
    RunKeepsInvariant(start, Begin(start), steps);
    forall p
      ensures p in start ==> p in after && after[p] == start[p]
      ensures p in after ==> p in start || (p in s.created && IsPlain(p))
    {
      DropLookup(start, s, p);
      assert IsTemporary(s.files, p) ==> Owned(s, p);
    }
  }

  // ----- committing

  /** No two destinations coincide or nest, and none lies above a displaced
      original. */
  ghost predicate FinalsApart(s: State) {
    && (forall i, j :: 0 <= i < |s.files| && 0 <= j < |s.files| && i != j ==>
          Apart(s.files[i].final, s.files[j].final))
    && (forall i, j :: 0 <= i < |s.files| && 0 <= j < |s.displaced| ==>
          !(s.files[i].final <= s.displaced[j].original))
  }

  /** The moves of a commit do not touch each other's paths. */
  ghost predicate MovesApart(files: seq<Replacement>) {
    && (forall i, j :: 0 <= i < |files| && 0 <= j < |files| ==>
          Apart(files[i].temporary, files[j].final))
    && (forall i, j :: 0 <= i < |files| && 0 <= j < |files| && i != j ==>
          Apart(files[i].final, files[j].final) && Apart(files[i].temporary, files[j].temporary))
  }

  /** A temporary clashes with a plain path only if that path lies above the
      temporary's own destination. */
  lemma {:induction false} TemporaryAndPlainPath(temporary: Path, final: Path, serial: nat, p: Path)
    requires HiddenSibling(temporary, final, serial) && IsPlain(p)
    requires p == final || !(p <= final)
    ensures Apart(temporary, p)
  {
    HiddenSiblingFacts(temporary, final, serial);
    AsideIsNotAbove(temporary, final, serial, p);
    var above := Parent(temporary);
    assert p != temporary ==> (p <= temporary ==> p <= above);
    assert above <= final;
  }

  lemma {:induction false} HiddenNamesApart(a: Path, aOf: Path, i: nat, b: Path, bOf: Path, j: nat)
    requires HiddenSibling(a, aOf, i) && HiddenSibling(b, bOf, j) && i != j
    ensures Apart(a, b)
  {
    assert IsPlain(Parent(aOf)) && IsPlain(Parent(bOf));
    AsideIsNotAbove(a, aOf, i, b);
    AsideIsNotAbove(b, bOf, j, a);
  }

  lemma {:induction false} CommitMovesApart(s: State)
    requires NamesInOrder(s) && FinalsApart(s)
    ensures MovesApart(s.files)
  {
    var n := |s.displaced|;
    forall i, j | 0 <= i < |s.files| && 0 <= j < |s.files|
      ensures Apart(s.files[i].temporary, s.files[j].final)
      ensures i != j ==> Apart(s.files[i].temporary, s.files[j].temporary)
    {
      var a, b := s.files[i], s.files[j];
      TemporaryAndPlainPath(a.temporary, a.final, n + i, b.final);
      if i != j {
        HiddenNamesApart(a.temporary, a.final, n + i, b.temporary, b.final, n + j);
      }
    }
  }

  /** `move_over_destination`: only a directory has to be cleared first. */
  function MoveOver(tree: Tree, temporary: Path, final: Path): Result<Tree, Error> {
    if IsDirectory(tree, final) then
      match RemoveDestination(tree, final)
      case Err(e) => Err(e)
      case Ok(cleared) => Rename(cleared, temporary, final)
    else Rename(tree, temporary, final)
  }

  lemma {:induction false} MoveOverIsMove(tree: Tree, temporary: Path, final: Path)
    requires WellFormed(tree) && Siblings(temporary, final)
    requires temporary in tree && !tree[temporary].Directory?
    ensures Apart(temporary, final)
    ensures MoveOver(tree, temporary, final) == Ok(Move(tree, temporary, final))
  {
    SiblingsAreApart(temporary, final);
    assert Hangs(tree, temporary);
    if IsDirectory(tree, final) {
      ReplaceIsMove(tree, temporary, final);
    } else if final in tree {
      forall p | p in tree && final <= p && p != final ensures false {
        NothingBelow(tree, final, p);
      }
    }
  }

  /** The moves of a commit, in order. */
  function CommitFiles(tree: Tree, files: seq<Replacement>): Tree
    requires MovesApart(files)
    decreases |files|
  {
    if files == [] then tree
    else CommitFiles(Move(tree, files[0].temporary, files[0].final), files[1..])
  }

  /** What the moves leave at a path below a destination, ... */
  lemma {:induction false} CommittedFinal(tree: Tree, files: seq<Replacement>, j: nat, p: Path)
    requires MovesApart(files) && j < |files| && files[j].final <= p
    ensures Lookup(CommitFiles(tree, files), p) == Lookup(tree, Graft(p, files[j].final, files[j].temporary))
    decreases |files|
  {
    var next := Move(tree, files[0].temporary, files[0].final);
    if j == 0 {
      MoveLookup(tree, files[0].temporary, files[0].final, p);
      forall i | 0 <= i < |files[1..]|
        ensures !(files[1..][i].final <= p) && !(files[1..][i].temporary <= p)
      {
        NotAboveBoth(files[0].final, files[i + 1].final, p);
        NotAboveBoth(files[0].final, files[i + 1].temporary, p);
      }
      CommittedElsewhere(next, files[1..], p);
    } else {
      CommittedFinal(next, files[1..], j - 1, p);
      var q := Graft(p, files[j].final, files[j].temporary);
      GraftBack(p, files[j].final, files[j].temporary);
      NotAboveBoth(files[j].temporary, files[0].temporary, q);
      NotAboveBoth(files[j].temporary, files[0].final, q);
      MoveLookup(tree, files[0].temporary, files[0].final, q);
    }
  }

  /** ... at or below a temporary, ... */
  lemma {:induction false} CommittedTemporary(tree: Tree, files: seq<Replacement>, j: nat, p: Path)
    requires MovesApart(files) && j < |files| && files[j].temporary <= p
    ensures Lookup(CommitFiles(tree, files), p) == None
    decreases |files|
  {
    var next := Move(tree, files[0].temporary, files[0].final);
    if j == 0 {
      NotAboveBoth(files[0].temporary, files[0].final, p);
      MoveLookup(tree, files[0].temporary, files[0].final, p);
      forall i | 0 <= i < |files[1..]|
        ensures !(files[1..][i].final <= p) && !(files[1..][i].temporary <= p)
      {
        NotAboveBoth(files[0].temporary, files[i + 1].final, p);
        NotAboveBoth(files[0].temporary, files[i + 1].temporary, p);
      }
      CommittedElsewhere(next, files[1..], p);
    } else {
      CommittedTemporary(next, files[1..], j - 1, p);
    }
  }

  /** ... and everywhere else. */
  lemma {:induction false} CommittedElsewhere(tree: Tree, files: seq<Replacement>, p: Path)
    requires MovesApart(files)
    requires forall i :: 0 <= i < |files| ==> !(files[i].final <= p) && !(files[i].temporary <= p)
    ensures Lookup(CommitFiles(tree, files), p) == Lookup(tree, p)
    decreases |files|
  {
    if files != [] {
      MoveLookup(tree, files[0].temporary, files[0].final, p);
      CommittedElsewhere(Move(tree, files[0].temporary, files[0].final), files[1..], p);
    }
  }

  lemma {:induction false} NotAboveBoth(a: Path, b: Path, p: Path)
    requires Apart(a, b) && a <= p
    ensures !(b <= p)
  {
    assert |b| <= |a| ==> a[..|b|] == p[..|b|];
    assert |a| <= |b| <= |p| ==> p[..|b|][..|a|] == a;
  }

  lemma {:induction false} CommitKeepsWellFormed(tree: Tree, files: seq<Replacement>)
    requires WellFormed(tree) && MovesApart(files)
    requires forall i :: 0 <= i < |files| ==>
               files[i].temporary in tree && Siblings(files[i].temporary, files[i].final)
    ensures WellFormed(CommitFiles(tree, files))
    decreases |files|
  {
    if files != [] {
      var next := Move(tree, files[0].temporary, files[0].final);
      MoveKeepsWellFormed(tree, files[0].temporary, files[0].final);
      forall i | 0 <= i < |files[1..]|
        ensures files[1..][i].temporary in next
      {
        var t := files[i + 1].temporary;
        NotAboveBoth(t, files[0].temporary, t);
        NotAboveBoth(t, files[0].final, t);
        MoveLookup(tree, files[0].temporary, files[0].final, t);
      }
      CommitKeepsWellFormed(next, files[1..]);
    }
  }

  lemma {:induction false} FilesAreSiblings(s: State)
    requires NamesInOrder(s)
    ensures forall i :: 0 <= i < |s.files| ==> Siblings(s.files[i].temporary, s.files[i].final)
  {
    forall i | 0 <= i < |s.files|
      ensures Siblings(s.files[i].temporary, s.files[i].final)
    {
      HiddenSiblingFacts(s.files[i].temporary, s.files[i].final, |s.displaced| + i);
    }
  }

  /** Deletes the displaced originals, last first. */
  function RemoveAsides(tree: Tree, displaced: seq<Displacement>): Tree
    decreases |displaced|
  {
    if displaced == [] then tree
    else
      var n := |displaced| - 1;
      RemoveAsides(RemoveDestination(tree, displaced[n].aside).value, displaced[..n])
  }

  lemma {:induction false} RemoveDestinationLookup(tree: Tree, path: Path, p: Path)
    requires WellFormed(tree) && path != []
    ensures WellFormed(RemoveDestination(tree, path).value)
    ensures Lookup(RemoveDestination(tree, path).value, p) == if path <= p then None else Lookup(tree, p)
  {
    var r := RemoveDestination(tree, path).value;
    forall q
      ensures Lookup(r, q) == if path <= q then None else Lookup(tree, q)
    {
      if path <= q && q in tree && q != path {
        NothingBelow(tree, path, q);
      }
    }
    assert Lookup(r, []) == Lookup(tree, []);
    forall q
      ensures Hangs(r, q)
    {
      assert Hangs(tree, q);
      assert Lookup(r, q) == Lookup(tree, q) || q !in r;
      if q in r && q != [] {
        assert Lookup(r, Parent(q)) == Lookup(tree, Parent(q));
      }
    }
  }

  lemma {:induction false} RemoveAsidesLookup(tree: Tree, displaced: seq<Displacement>, p: Path)
    requires WellFormed(tree)
    requires forall i :: 0 <= i < |displaced| ==> displaced[i].aside != []
    ensures Lookup(RemoveAsides(tree, displaced), p) ==
            if Clear(displaced, p) then Lookup(tree, p) else None
    decreases |displaced|
  {
    if displaced != [] {
      var n := |displaced| - 1;
      RemoveDestinationLookup(tree, displaced[n].aside, p);
      RemoveAsidesLookup(RemoveDestination(tree, displaced[n].aside).value, displaced[..n], p);
    }
  }

  /** The whole of `commit` when no call fails. */
  function Commit(s: State): Tree
    requires MovesApart(s.files)
  {
    RemoveAsides(CommitFiles(s.tree, s.files), s.displaced)
  }

  /** A path at or below none of the first `n` destinations. */
  ghost predicate NotReplaced(files: seq<Replacement>, p: Path) {
    forall i :: 0 <= i < |files| ==> !(files[i].final <= p)
  }

  /** A commit that succeeds puts every temporary's content in its place,
      leaves no hidden name of its own, and touches nothing of the start beyond
      what it replaces. */
  lemma {:induction false} CommitReplaces(start: Tree, steps: seq<Step>)
    requires WellFormed(start) && RunFrom(Begin(start), steps).Some?
    requires FinalsApart(RunFrom(Begin(start), steps).value)
    ensures var s := RunFrom(Begin(start), steps).value;
            && MovesApart(s.files)
            && (forall i :: 0 <= i < |s.files| ==>
                  Lookup(Commit(s), s.files[i].final) == Lookup(s.tree, s.files[i].temporary))
            && (forall p :: p in Commit(s) ==> p in start || IsPlain(p))
            && (forall p :: p in start && !Covered(s.displaced, p) && NotReplaced(s.files, p) ==>
                  Lookup(Commit(s), p) == Some(start[p]))
  {
    var s := RunFrom(Begin(start), steps).value;
    BeginInvariant(start);
    RunKeepsInvariant(start, Begin(start), steps);
    CommitMovesApart(s);
    forall i | 0 <= i < |s.files|
      ensures Lookup(Commit(s), s.files[i].final) == Lookup(s.tree, s.files[i].temporary)
    {
      FinalCommitted(start, s, i);
    }
    forall p
      ensures p in Commit(s) ==> p in start || IsPlain(p)
      ensures p in start && !Covered(s.displaced, p) && NotReplaced(s.files, p) ==>
                Lookup(Commit(s), p) == Some(start[p])
    {
      CommittedPath(start, s, p);
    }
  }

  lemma {:induction false} FinalCommitted(start: Tree, s: State, i: nat)
    requires Invariant(start, s) && MovesApart(s.files) && i < |s.files|
    ensures Lookup(Commit(s), s.files[i].final) == Lookup(s.tree, s.files[i].temporary)
  {
    CommitLookup(start, s, s.files[i].final);
    var file := s.files[i];
    assert HiddenSibling(file.temporary, file.final, |s.displaced| + i);
    PlainIsClear(s, file.final);
    CommittedFinal(s.tree, s.files, i, file.final);
    assert Graft(file.final, file.final, file.temporary) == file.temporary;
  }

  lemma {:induction false} CommitLookup(start: Tree, s: State, p: Path)
    requires Invariant(start, s) && MovesApart(s.files)
    ensures Lookup(Commit(s), p) ==
            if Clear(s.displaced, p) then Lookup(CommitFiles(s.tree, s.files), p) else None
  {
    FilesAreSiblings(s);
    CommitKeepsWellFormed(s.tree, s.files);
    RemoveAsidesLookup(CommitFiles(s.tree, s.files), s.displaced, p);
  }

  lemma {:induction false} CommittedPath(start: Tree, s: State, p: Path)
    requires Invariant(start, s) && MovesApart(s.files)
    ensures p in Commit(s) ==> p in start || IsPlain(p)
    ensures p in start && !Covered(s.displaced, p) && NotReplaced(s.files, p) ==>
              Lookup(Commit(s), p) == Some(start[p])
  {
    CommitLookup(start, s, p);
    if i :| 0 <= i < |s.files| && s.files[i].final <= p {
      CommittedFinal(s.tree, s.files, i, p);
      BelowTemporary(s, i, Graft(p, s.files[i].final, s.files[i].temporary));
      GraftBack(p, s.files[i].final, s.files[i].temporary);
    } else if i :| 0 <= i < |s.files| && s.files[i].temporary <= p {
      CommittedTemporary(s.tree, s.files, i, p);
      BelowTemporary(s, i, p);
      assert IsTemporary(s.files, s.files[i].temporary);
      assert Owned(s, s.files[i].temporary);
      if !Covered(s.displaced, p) {
        UncoveredView(s, p);
      }
    } else {
      CommittedElsewhere(s.tree, s.files, p);
      assert !IsTemporary(s.files, p);
      if !Covered(s.displaced, p) {
        UncoveredView(s, p);
      }
    }
  }

  lemma {:induction false} BelowTemporary(s: State, i: nat, q: Path)
    requires WellFormed(s.tree) && TemporariesInPlace(s) && i < |s.files|
    requires s.files[i].temporary <= q
    ensures q in s.tree ==> q == s.files[i].temporary
  {
    if q in s.tree && q != s.files[i].temporary {
      NothingBelow(s.tree, s.files[i].temporary, q);
    }
  }

  /** A path that is not covered is seen as it stands, unless an aside lies
      above it. */
  lemma {:induction false} UncoveredView(s: State, p: Path)
    requires !Covered(s.displaced, p)
    ensures View(s.tree, s.displaced, p) == if Clear(s.displaced, p) then Lookup(s.tree, p) else None
  {
    UncoveredOrigin(s.displaced, p);
  }

  lemma {:induction false} UncoveredOrigin(displaced: seq<Displacement>, p: Path)
    requires !Covered(displaced, p)
    ensures Origin(displaced, p) == if Clear(displaced, p) then Some(p) else None
    decreases |displaced|
  {
    if displaced != [] {
      var n := |displaced| - 1;
      assert forall i :: 0 <= i < n ==> displaced[..n][i] == displaced[i];
      assert !Covered(displaced[..n], p);
      UncoveredOrigin(displaced[..n], p);
    }
  }

  // ----- a commit that fails part way

  /** The disk after the moves of the first `i` files when the next one fails.
      A move onto a directory clears that directory first, so a failure may
      have removed any part of it; onto anything else it changes nothing. */
  ghost predicate Interrupted(s: State, i: nat, broken: Tree)
    requires i < |s.files| && MovesApart(s.files)
  {
    var moved := CommitFiles(s.tree, s.files[..i]);
    var final := s.files[i].final;
    && WellFormed(broken)
    && (forall p :: Lookup(broken, p) == Lookup(moved, p) || (final <= p && p !in broken))
    && (!IsDirectory(moved, final) ==> broken == moved)
  }

  /** The disk once the failed commit has dropped what it still held. */
  function AfterFailure(s: State, i: nat, broken: Tree): Tree
    requires i < |s.files|
  {
    Drop(broken, s.files[i..], s.displaced)
  }

  /** The paths a commit of the first `i` files may have changed. */
  ghost predicate Reached(files: seq<Replacement>, i: nat, p: Path)
    requires i < |files|
  {
    || (exists j :: 0 <= j <= i && files[j].final <= p)
    || (exists j :: 0 <= j < |files| && files[j].temporary <= p)
  }

  lemma {:induction false} ReachedIsClear(s: State, i: nat, p: Path)
    requires NamesInOrder(s) && FinalsApart(s) && i < |s.files| && Reached(s.files, i, p)
    ensures Clear(s.displaced, p)
  {
    forall k | 0 <= k < |s.displaced|
      ensures !(s.displaced[k].aside <= p)
    {
      var d := s.displaced[k];
      if j :| 0 <= j <= i && s.files[j].final <= p {
        TemporaryAndPlainPath(d.aside, d.original, k, s.files[j].final);
        NotAboveBoth(s.files[j].final, d.aside, p);
      } else {
        var j :| 0 <= j < |s.files| && s.files[j].temporary <= p;
        var f := s.files[j];
        HiddenNamesApart(f.temporary, f.final, |s.displaced| + j, d.aside, d.original, k);
        NotAboveBoth(f.temporary, d.aside, p);
      }
    }
  }

  /** The moves done so far, at a path below one of their destinations, ... */
  lemma {:induction false} MovedFinal(s: State, i: nat, j: nat, p: Path)
    requires MovesApart(s.files) && WellFormed(s.tree) && TemporariesInPlace(s)
    requires j < i <= |s.files| && s.files[j].final <= p
    ensures Lookup(CommitFiles(s.tree, s.files[..i]), p) ==
            if p == s.files[j].final then Lookup(s.tree, s.files[j].temporary) else None
  {
    var f := s.files[j];
    CommittedFinal(s.tree, s.files[..i], j, p);
    GraftBack(p, f.final, f.temporary);
    BelowTemporary(s, j, Graft(p, f.final, f.temporary));
    assert Graft(f.final, f.final, f.temporary) == f.temporary;
    assert Graft(f.temporary, f.temporary, f.final) == f.final;
  }

  /** ... at a path they do not reach, ... */
  lemma {:induction false} MovedElsewhere(s: State, i: nat, p: Path)
    requires MovesApart(s.files) && i < |s.files|
    requires forall j :: 0 <= j < i ==> !(s.files[j].final <= p) && !(s.files[j].temporary <= p)
    ensures Lookup(CommitFiles(s.tree, s.files[..i]), p) == Lookup(s.tree, p)
  {
    assert forall j :: 0 <= j < i ==> s.files[..i][j] == s.files[j];
    CommittedElsewhere(s.tree, s.files[..i], p);
  }

  /** ... and at a temporary. */
  lemma {:induction false} MovedTemporary(s: State, i: nat, j: nat)
    requires MovesApart(s.files) && i < |s.files| && j < |s.files|
    ensures Lookup(CommitFiles(s.tree, s.files[..i]), s.files[j].temporary) ==
            if j < i then None else Lookup(s.tree, s.files[j].temporary)
  {
    var t := s.files[j].temporary;
    if j < i {
      CommittedTemporary(s.tree, s.files[..i], j, t);
    } else {
      forall k | 0 <= k < i
        ensures !(s.files[k].final <= t) && !(s.files[k].temporary <= t)
      {
        NotAboveBoth(t, s.files[k].final, t);
        NotAboveBoth(t, s.files[k].temporary, t);
      }
      MovedElsewhere(s, i, t);
    }
  }

  /** What is left at a temporary, waiting or already moved, is no directory. */
  lemma {:induction false} InterruptedTemporary(s: State, i: nat, broken: Tree, j: nat)
    requires MovesApart(s.files) && TemporariesInPlace(s)
    requires i < |s.files| && j < |s.files| && Interrupted(s, i, broken)
    ensures Lookup(broken, s.files[j].temporary) ==
            if j < i then None else Lookup(s.tree, s.files[j].temporary)
  {
    var t := s.files[j].temporary;
    MovedTemporary(s, i, j);
    NotAboveBoth(t, s.files[i].final, t);
  }

  /** Removing the waiting temporaries from the interrupted disk. */
  lemma {:induction false} InterruptedDrop(s: State, i: nat, broken: Tree, p: Path)
    requires MovesApart(s.files) && TemporariesInPlace(s)
    requires i < |s.files| && Interrupted(s, i, broken)
    ensures Lookup(DropFiles(broken, s.files[i..]), p) ==
            if IsTemporary(s.files, p) then None else Lookup(broken, p)
  {
    forall j | 0 <= j < |s.files[i..]|
      ensures !IsDirectory(broken, s.files[i..][j].temporary)
    {
      InterruptedTemporary(s, i, broken, i + j);
    }
    DropFilesLookup(broken, s.files[i..], p);
    TemporaryOfSuffix(s.files, i, p);
    if j :| 0 <= j < i && s.files[j].temporary == p {
      InterruptedTemporary(s, i, broken, j);
    }
  }

  lemma {:induction false} TemporaryOfSuffix(files: seq<Replacement>, i: nat, p: Path)
    requires i <= |files|
    ensures IsTemporary(files, p) <==>
            IsTemporary(files[i..], p) || exists j :: 0 <= j < i && files[j].temporary == p
  {
    if j :| 0 <= j < |files[i..]| && files[i..][j].temporary == p {
      assert files[i + j].temporary == p;
    }
    if j :| i <= j < |files| && files[j].temporary == p {
      assert files[i..][j - i].temporary == p;
    }
  }

  lemma {:induction false} NotReached(s: State, i: nat, broken: Tree, p: Path)
    requires MovesApart(s.files) && TemporariesInPlace(s)
    requires i < |s.files| && Interrupted(s, i, broken) && !Reached(s.files, i, p)
    ensures Lookup(DropFiles(broken, s.files[i..]), p) == Lookup(s.tree, p)
  {
    InterruptedDrop(s, i, broken, p);
    MovedElsewhere(s, i, p);
  }

  lemma {:induction false} DroppingKeepsWellFormed(tree: Tree, dropped: Tree)
    requires WellFormed(tree)
    requires forall p :: Lookup(dropped, p) == Lookup(tree, p) || (p !in dropped && !IsDirectory(tree, p))
    ensures WellFormed(dropped)
  {
    assert Lookup(dropped, []) == Lookup(tree, []);
    forall q
      ensures Hangs(dropped, q)
    {
      assert Hangs(tree, q);
      assert Lookup(dropped, q) == Lookup(tree, q) || q !in dropped;
      if q in dropped && q != [] {
        assert Lookup(dropped, Parent(q)) == Lookup(tree, Parent(q));
      }
    }
  }

  lemma {:induction false} InterruptedRestorable(start: Tree, s: State, i: nat, broken: Tree)
    requires Invariant(start, s) && FinalsApart(s) && MovesApart(s.files)
    requires i < |s.files| && Interrupted(s, i, broken)
    ensures Restorable(DropFiles(broken, s.files[i..]), s.displaced)
  {
    var dropped := DropFiles(broken, s.files[i..]);
    forall p
      ensures Lookup(dropped, p) == Lookup(broken, p) || (p !in dropped && !IsDirectory(broken, p))
    {
      InterruptedDrop(s, i, broken, p);
      if j :| 0 <= j < |s.files| && s.files[j].temporary == p {
        InterruptedTemporary(s, i, broken, j);
      }
    }
    DroppingKeepsWellFormed(broken, dropped);
    forall p
      ensures Lookup(dropped, p) == Lookup(s.tree, p) || Clear(s.displaced, p)
    {
      if Reached(s.files, i, p) {
        ReachedIsClear(s, i, p);
      } else {
        NotReached(s, i, broken, p);
      }
    }
    ChangingKeepsRestorable(s.tree, dropped, s.displaced);
  }

  /** What a failed commit leaves at a path: the original below a displaced
      path, and otherwise what the interrupted disk shows. */
  lemma {:induction false} FailedCommitLookup(start: Tree, s: State, i: nat, broken: Tree, p: Path)
    requires Invariant(start, s) && FinalsApart(s) && MovesApart(s.files)
    requires i < |s.files| && Interrupted(s, i, broken)
    ensures Covered(s.displaced, p) ==>
              Lookup(AfterFailure(s, i, broken), p) == View(s.tree, s.displaced, p)
    ensures !Covered(s.displaced, p) ==>
              Lookup(AfterFailure(s, i, broken), p) ==
              if Clear(s.displaced, p) then Lookup(DropFiles(broken, s.files[i..]), p) else None
  {
    var dropped := DropFiles(broken, s.files[i..]);
    InterruptedRestorable(start, s, i, broken);
    RestoreIsView(dropped, s.displaced, p);
    if Covered(s.displaced, p) {
      match Origin(s.displaced, p)
      case None =>
      case Some(q) =>
        if Reached(s.files, i, q) {
          ReachedIsClear(s, i, q);
          OriginOfClearPath(s.displaced, p, q);
        } else {
          NotReached(s, i, broken, q);
        }
    } else {
      UncoveredOrigin(s.displaced, p);
    }
  }

  /** Finals before the failing one are new, finals after it and a failing
      final that is not a directory are original, every displaced original is
      back, and no hidden name of the log is left. */
  lemma {:induction false} FailedCommitPath(start: Tree, s: State, i: nat, broken: Tree, p: Path)
    requires Invariant(start, s) && FinalsApart(s) && MovesApart(s.files)
    requires i < |s.files| && Interrupted(s, i, broken)
    ensures p in start && (Covered(s.displaced, p) || NotReplaced(s.files[..i + 1], p)) ==>
              Lookup(AfterFailure(s, i, broken), p) == Some(start[p])
    ensures p in start && s.files[i].final <= p && !IsDirectory(s.tree, s.files[i].final) ==>
              Lookup(AfterFailure(s, i, broken), p) == Some(start[p])
    ensures p in AfterFailure(s, i, broken) ==> p in start || IsPlain(p)
  {
    FailedCommitLookup(start, s, i, broken, p);
    DroppedPath(s, i, broken, p);
    assert IsTemporary(s.files, p) ==> Owned(s, p);
    if !Covered(s.displaced, p) {
      UncoveredView(s, p);
    }
  }

  /** The interrupted disk without its temporaries, path by path. */
  lemma {:induction false} DroppedPath(s: State, i: nat, broken: Tree, p: Path)
    requires WellFormed(s.tree) && NamesInOrder(s) && TemporariesInPlace(s) && MovesApart(s.files)
    requires i < |s.files| && Interrupted(s, i, broken)
    ensures !IsTemporary(s.files, p) && NotReplaced(s.files[..i + 1], p) ==>
              Lookup(DropFiles(broken, s.files[i..]), p) == Lookup(s.tree, p)
    ensures !IsTemporary(s.files, p) && s.files[i].final <= p && !IsDirectory(s.tree, s.files[i].final) ==>
              Lookup(DropFiles(broken, s.files[i..]), p) == Lookup(s.tree, p)
    ensures p in DropFiles(broken, s.files[i..]) ==>
              || IsPlain(p)
              || (!IsTemporary(s.files, p) && Lookup(DropFiles(broken, s.files[i..]), p) == Lookup(s.tree, p))
  {
    InterruptedDrop(s, i, broken, p);
    if j :| 0 <= j < |s.files| && s.files[j].temporary <= p {
      if p != s.files[j].temporary {
        InterruptedTemporary(s, i, broken, j);
        NothingBelowTemporary(broken, s.files[j].temporary, p);
        NothingBelowTemporary(s.tree, s.files[j].temporary, p);
      }
    } else if j :| 0 <= j < i && s.files[j].final <= p {
      assert s.files[..i + 1][j] == s.files[j];
      MovedFinal(s, i, j, p);
      NotAboveBoth(s.files[j].final, s.files[i].final, p);
      assert HiddenSibling(s.files[j].temporary, s.files[j].final, |s.displaced| + j);
    } else {
      MovedElsewhere(s, i, p);
      FailingFinal(s, i);
      assert s.files[..i + 1][i] == s.files[i];
    }
  }

  lemma {:induction false} NothingBelowTemporary(tree: Tree, temporary: Path, p: Path)
    requires WellFormed(tree) && !IsDirectory(tree, temporary) && temporary <= p && p != temporary
    ensures p !in tree
  {
    if p in tree {
      NothingBelow(tree, temporary, p);
    }
  }

  lemma {:induction false} FailingFinal(s: State, i: nat)
    requires MovesApart(s.files) && i < |s.files|
    ensures IsDirectory(CommitFiles(s.tree, s.files[..i]), s.files[i].final) == IsDirectory(s.tree, s.files[i].final)
  {
    var final := s.files[i].final;
    forall j | 0 <= j < i
      ensures !(s.files[j].final <= final) && !(s.files[j].temporary <= final)
    {
      NotAboveBoth(final, s.files[j].final, final);
      NotAboveBoth(final, s.files[j].temporary, final);
    }
    MovedElsewhere(s, i, final);
  }

  lemma {:induction false} CommittedFinalSurvives(start: Tree, s: State, i: nat, broken: Tree, j: nat)
    requires Invariant(start, s) && FinalsApart(s) && MovesApart(s.files)
    requires j < i < |s.files| && Interrupted(s, i, broken)
    requires !Covered(s.displaced, s.files[j].final)
    ensures Lookup(AfterFailure(s, i, broken), s.files[j].final) == Lookup(s.tree, s.files[j].temporary)
  {
    var f := s.files[j];
    assert HiddenSibling(f.temporary, f.final, |s.displaced| + j);
    FailedCommitLookup(start, s, i, broken, f.final);
    PlainIsClear(s, f.final);
    InterruptedDrop(s, i, broken, f.final);
    PlainIsNoTemporary(s, f.final);
    MovedFinal(s, i, j, f.final);
    NotAboveBoth(f.final, s.files[i].final, f.final);
  }

  lemma {:induction false} PlainIsNoTemporary(s: State, p: Path)
    requires NamesInOrder(s) && IsPlain(p)
    ensures !IsTemporary(s.files, p)
  {
    forall i | 0 <= i < |s.files|
      ensures s.files[i].temporary != p
    {
      assert HiddenSibling(s.files[i].temporary, s.files[i].final, |s.displaced| + i);
    }
  }

  /** The same for whole runs: whichever file the commit fails at, and however
      much of a directory in its way is already gone. */
  lemma {:induction false} FailedCommitRestores(start: Tree, steps: seq<Step>, i: nat, broken: Tree)
    requires WellFormed(start) && RunFrom(Begin(start), steps).Some?
    requires var s := RunFrom(Begin(start), steps).value;
             FinalsApart(s) && MovesApart(s.files) && i < |s.files| && Interrupted(s, i, broken)
    ensures var s := RunFrom(Begin(start), steps).value;
            var after := AfterFailure(s, i, broken);
            && (forall j :: 0 <= j < i && !Covered(s.displaced, s.files[j].final) ==>
                  Lookup(after, s.files[j].final) == Lookup(s.tree, s.files[j].temporary))
            && (forall p :: p in start && (Covered(s.displaced, p) || NotReplaced(s.files[..i + 1], p)) ==>
                  Lookup(after, p) == Some(start[p]))
            && (forall p :: p in start && s.files[i].final <= p && !IsDirectory(s.tree, s.files[i].final) ==>
                  Lookup(after, p) == Some(start[p]))
            && (forall p :: p in after ==> p in start || IsPlain(p))
  {
    var s := RunFrom(Begin(start), steps).value;
    var after := AfterFailure(s, i, broken);
    BeginInvariant(start);
    RunKeepsInvariant(start, Begin(start), steps);
    forall j | 0 <= j < i && !Covered(s.displaced, s.files[j].final)
      ensures Lookup(after, s.files[j].final) == Lookup(s.tree, s.files[j].temporary)
    {
      CommittedFinalSurvives(start, s, i, broken, j);
    }
    forall p
      ensures p in start && (Covered(s.displaced, p) || NotReplaced(s.files[..i + 1], p)) ==>
                Lookup(after, p) == Some(start[p])
      ensures p in start && s.files[i].final <= p && !IsDirectory(s.tree, s.files[i].final) ==>
                Lookup(after, p) == Some(start[p])
      ensures p in after ==> p in start || IsPlain(p)
    {
      FailedCommitPath(start, s, i, broken, p);
    }
  }

  // ----- exactly when the failing final survives

  /** However far clearing got, all that was at or below the final of file `i` at
      the start is back after the failure. */
  ghost predicate KeepsFailingFinal(start: Tree, s: State, i: nat)
    requires i < |s.files| && MovesApart(s.files)
  {
    forall broken, p :: Interrupted(s, i, broken) && p in start && s.files[i].final <= p ==>
      Lookup(AfterFailure(s, i, broken), p) == Some(start[p])
  }

  lemma {:induction false} WithoutKeepsWellFormed(tree: Tree, root: Path)
    requires WellFormed(tree) && root != []
    ensures WellFormed(Without(tree, root))
  {
    var rest := Without(tree, root);
    forall p ensures Hangs(rest, p) {
      assert Hangs(tree, p);
      assert p != [] && root <= Parent(p) ==> root <= p;
    }
  }

  lemma {:induction false} MovedIsWellFormed(s: State, i: nat)
    requires WellFormed(s.tree) && NamesInOrder(s) && TemporariesInPlace(s) && MovesApart(s.files) && i < |s.files|
    ensures WellFormed(CommitFiles(s.tree, s.files[..i]))
  {
    var files := s.files[..i];
    forall j | 0 <= j < |files|
      ensures files[j].temporary in s.tree && Siblings(files[j].temporary, files[j].final)
    {
      assert HiddenSibling(s.files[j].temporary, s.files[j].final, |s.displaced| + j);
      HiddenSiblingFacts(s.files[j].temporary, s.files[j].final, |s.displaced| + j);
    }
    CommitKeepsWellFormed(s.tree, files);
  }

  lemma {:induction false} FinalIsPlain(s: State, i: nat)
    requires NamesInOrder(s) && i < |s.files|
    ensures s.files[i].final != [] && IsPlain(s.files[i].final)
  {
    assert HiddenSibling(s.files[i].temporary, s.files[i].final, |s.displaced| + i);
  }

  /** The disk once clearing has removed all of a directory in the way. */
  function Cleared(s: State, i: nat): Tree
    requires i < |s.files| && MovesApart(s.files)
  {
    Without(CommitFiles(s.tree, s.files[..i]), s.files[i].final)
  }

  /** A failed move onto a directory may have removed all of it. */
  lemma {:induction false} ClearedIsInterrupted(s: State, i: nat)
    requires WellFormed(s.tree) && NamesInOrder(s) && TemporariesInPlace(s) && MovesApart(s.files) && i < |s.files|
    requires IsDirectory(s.tree, s.files[i].final)
    ensures Interrupted(s, i, Cleared(s, i))
  {
    MovedIsWellFormed(s, i);
    FinalIsPlain(s, i);
    WithoutKeepsWellFormed(CommitFiles(s.tree, s.files[..i]), s.files[i].final);
    FailingFinal(s, i);
  }

  lemma {:induction false} ClearedFinalDrops(s: State, i: nat)
    requires NamesInOrder(s) && TemporariesInPlace(s) && MovesApart(s.files) && i < |s.files|
    requires Interrupted(s, i, Cleared(s, i))
    ensures Lookup(DropFiles(Cleared(s, i), s.files[i..]), s.files[i].final) == None
  {
    var final := s.files[i].final;
    InterruptedDrop(s, i, Cleared(s, i), final);
    assert final <= final;
  }

  lemma {:induction false} ClearedFinalIsLost(start: Tree, s: State, i: nat)
    requires Invariant(start, s) && FinalsApart(s) && MovesApart(s.files) && i < |s.files|
    requires IsDirectory(s.tree, s.files[i].final) && !Covered(s.displaced, s.files[i].final)
    ensures Interrupted(s, i, Cleared(s, i))
    ensures Lookup(AfterFailure(s, i, Cleared(s, i)), s.files[i].final) == None
  {
    ClearedIsInterrupted(s, i);
    ClearedFinalDrops(s, i);
    FailedCommitLookup(start, s, i, Cleared(s, i), s.files[i].final);
  }

  /** A failed move keeps what was at its final if and only if the final is not a
      directory when the move starts, was displaced, or was not there at the
      start. */
  lemma {:induction false} FailingFinalKeptIff(start: Tree, steps: seq<Step>, i: nat)
    requires WellFormed(start) && RunFrom(Begin(start), steps).Some?
    requires var s := RunFrom(Begin(start), steps).value;
             FinalsApart(s) && i < |s.files|
    ensures var s := RunFrom(Begin(start), steps).value;
            var final := s.files[i].final;
            && MovesApart(s.files)
            && (KeepsFailingFinal(start, s, i) <==>
                !IsDirectory(s.tree, final) || Covered(s.displaced, final) || final !in start)
  {
    var s := RunFrom(Begin(start), steps).value;
    var final := s.files[i].final;
    BeginInvariant(start);
    RunKeepsInvariant(start, Begin(start), steps);
    CommitMovesApart(s);
    if IsDirectory(s.tree, final) && !Covered(s.displaced, final) && final in start {
      ClearedFinalIsLost(start, s, i);
      assert final <= final;
    } else {
      forall broken, p | Interrupted(s, i, broken) && p in start && final <= p
        ensures Lookup(AfterFailure(s, i, broken), p) == Some(start[p])
      {
        if final !in start {
          NothingBelow(start, final, p);
        }
        CoveredBelow(s.displaced, final, p);
        FailedCommitPath(start, s, i, broken, p);
      }
    }
  }

  lemma {:induction false} CoveredBelow(displaced: seq<Displacement>, q: Path, p: Path)
    requires q <= p
    ensures Covered(displaced, q) ==> Covered(displaced, p)
  {
    if Covered(displaced, q) {
      var k :| 0 <= k < |displaced| && displaced[k].original <= q;
      assert displaced[k].original <= p;
    }
  }

  // ----- where the guarantees end

  /** Displacing a directory after reserving a temporary inside it would carry
      the temporary away and bring it back after it should have been removed,
      which is why directories are committed first. */
  lemma {:induction false} DisplacingAfterReservingLeaks(d: Name, f: Name)
    requires d.Plain? && f.Plain?
    ensures var temporary, aside := [d, Hidden(0, 0, 0)], [Hidden(0, 1, 0)];
            var reserved := map[[] := Directory, [d] := Directory, temporary := File("")];
            && Apart([d], aside)
            && var files := [Replacement(temporary, [d, f])];
               temporary in Drop(Move(reserved, [d], aside), files, [Displacement(aside, [d])])
  {
    var temporary, aside := [d, Hidden(0, 0, 0)], [Hidden(0, 1, 0)];
    var reserved := map[[] := Directory, [d] := Directory, temporary := File("")];
    assert [d][0] != aside[0] && Siblings(aside, [d]);
    SiblingsAreApart([d], aside);
    var moved := Move(reserved, [d], aside);
    assert WellFormed(reserved) by {
      assert Parent(temporary) == [d];
      forall p ensures Hangs(reserved, p) {}
    }
    assert [d] <= temporary;
    MoveLookup(reserved, [d], aside, temporary);
    var files := [Replacement(temporary, [d, f])];
    assert files[1..] == [];
    assert DropFiles(moved, files) == moved;
    MoveKeepsWellFormed(reserved, [d], aside);
    ReplaceIsMove(moved, aside, [d]);
    MoveBack(reserved, [d], aside);
    var displaced := [Displacement(aside, [d])];
    assert displaced[..0] == [];
    assert Restore(moved, displaced) == reserved;
  }

  function LossStart(x: Name, y: Name): Tree {
    map[[] := Directory, [x] := Directory, [x, y] := File("kept")]
  }

  /** A file entry has been extracted to a temporary beside the directory `x`. */
  function LossState(x: Name, y: Name): State {
    var h := [Hidden(0, 0, 0)];
    State(LossStart(x, y)[h := File("new")], [Replacement(h, [x])], [], 1, {})
  }

  lemma {:induction false} LossIsReached(x: Name, y: Name)
    requires x.Plain? && y.Plain?
    ensures var h := [Hidden(0, 0, 0)];
            RunFrom(Begin(LossStart(x, y)), [Reserve([x], h), Overwrite(h, "new")]) == Some(LossState(x, y))
  {
    var h := [Hidden(0, 0, 0)];
    var s := LossState(x, y);
    var steps := [Reserve([x], h), Overwrite(h, "new")];
    var mid := Apply(Begin(LossStart(x, y)), steps[0]);
    assert mid.files == s.files && mid.files[0].temporary == h;
    assert mid.tree[h := File("new")] == s.tree;
    assert steps[1..] == [steps[1]] && steps[1..][1..] == [];
    assert RunFrom(mid, steps[1..]) == Some(s);
  }

  /** A move onto a directory that fails after the directory was cleared loses
      what the directory held. */
  lemma {:induction false} FailedMoveLosesDirectory(x: Name, y: Name)
    requires x.Plain? && y.Plain?
    ensures var s := LossState(x, y);
            var broken := Without(s.tree, [x]);
            && MovesApart(s.files) && Interrupted(s, 0, broken)
            && [x, y] in LossStart(x, y) && [x, y] !in AfterFailure(s, 0, broken)
  {
    var s := LossState(x, y);
    var h := [Hidden(0, 0, 0)];
    assert s.files[..0] == [] && s.files[0..] == s.files;
    assert CommitFiles(s.tree, s.files[..0]) == s.tree;
    assert MovesApart(s.files) by {
      assert h[0] != [x][0];
      assert forall i :: 0 <= i < |s.files| ==> s.files[i] == Replacement(h, [x]);
    }
    var broken := Without(s.tree, [x]);
    assert broken == map[[] := Directory, h := File("new")] by {
      assert [x] <= [x] && [x] <= [x, y];
    }
    assert WellFormed(broken) by {
      assert Parent(h) == [];
      forall p ensures Hangs(broken, p) {}
    }
    assert Interrupted(s, 0, broken) by {
      forall p ensures Lookup(broken, p) == Lookup(s.tree, p) || ([x] <= p && p !in broken) {
        assert [x] <= [x] && [x] <= [x, y];
      }
    }
    DropFilesLookup(broken, s.files, [x, y]);
    assert AfterFailure(s, 0, broken) == DropFiles(broken, s.files);
  }
}
