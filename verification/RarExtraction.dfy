/** `PendingReplacements` as the object the extraction holds, the order in
    which planned entries are committed, and the proof that what they do to the
    disk is a run of the replacement log. */
module RarExtraction {
  import opened Wrappers
  import opened FileSystem
  import Log = RarReplacements
  import RarCleanup

  class Disk {
    var tree: Tree

    constructor (initial: Tree)
      ensures tree == initial
    {
      tree := initial;
    }
  }

  /** What may go wrong inside one `move_over_destination`: nothing, the look
      at the destination, the removal of a directory (after some subtrees of it
      are gone), or the final rename. */
  datatype Fault = NoFault | LookFails | ClearingStops(removed: set<Path>) | RenameFails

  /** Which deletion of a displaced original fails, if any, and the subtrees of it
      that are gone by then. */
  datatype Cleanup = Completes | Stops(at: nat, removed: set<Path>)

  /** The fault does not come to bear on a move: only directories are cleared. */
  predicate Goes(fault: Fault, ontoDirectory: bool) {
    fault.NoFault? || (fault.ClearingStops? && !ontoDirectory)
  }

  ghost predicate AllGo(tree: Tree, files: seq<Log.Replacement>, faults: nat -> Fault, n: nat)
    requires n <= |files|
  {
    forall i :: 0 <= i < n ==> Goes(faults(i), IsDirectory(tree, files[i].final))
  }

  /** `p` lies below `root` in one of the removed subtrees. */
  predicate Gone(p: Path, root: Path, removed: set<Path>) {
    root <= p && exists n :: |root| <= n <= |p| && p[..n] in removed
  }

  function Remaining(tree: Tree, root: Path, removed: set<Path>): Tree {
    map p | p in tree && !Gone(p, root, removed) :: tree[p]
  }

  lemma {:induction false} RemainingFacts(tree: Tree, root: Path, removed: set<Path>)
    requires WellFormed(tree) && root != []
    ensures WellFormed(Remaining(tree, root, removed))
    ensures forall p :: Lookup(Remaining(tree, root, removed), p) == Lookup(tree, p)
                     || (root <= p && p !in Remaining(tree, root, removed))
  {
    var r := Remaining(tree, root, removed);
    forall p
      ensures Hangs(r, p)
    {
      assert Hangs(tree, p);
      if p in r && p != [] {
        GoneBelow(p, root, removed);
      }
    }
  }

  lemma {:induction false} GoneBelow(p: Path, root: Path, removed: set<Path>)
    requires p != []
    ensures Gone(Parent(p), root, removed) ==> Gone(p, root, removed)
  {
    if Gone(Parent(p), root, removed) {
      var n :| |root| <= n <= |Parent(p)| && Parent(p)[..n] in removed;
      assert p[..n] == Parent(p)[..n];
    }
  }

  lemma {:induction false} CommitOneMore(tree: Tree, files: seq<Log.Replacement>, i: nat)
    requires i < |files| && Log.MovesApart(files)
    ensures Log.CommitFiles(tree, files[..i + 1]) ==
            Move(Log.CommitFiles(tree, files[..i]), files[i].temporary, files[i].final)
    decreases i
  {
    if i == 0 {
      assert files[..1][1..] == [];
    } else {
      var next := Move(tree, files[0].temporary, files[0].final);
      CommitOneMore(next, files[1..], i - 1);
      assert files[..i + 1][1..] == files[1..][..i];
      assert files[..i][1..] == files[1..][..i - 1];
    }
  }

  /** What the moves before it leave for the move of file `i`. */
  lemma {:induction false} NextMove(s: Log.State, i: nat)
    requires WellFormed(s.tree) && Log.NamesInOrder(s) && Log.TemporariesInPlace(s) && Log.MovesApart(s.files)
    requires i < |s.files|
    ensures var tree, file := Log.CommitFiles(s.tree, s.files[..i]), s.files[i];
            && WellFormed(tree) && Siblings(file.temporary, file.final)
            && file.temporary in tree && !tree[file.temporary].Directory?
            && Log.CommitFiles(s.tree, s.files[..i + 1]) == Move(tree, file.temporary, file.final)
  {
    Log.FilesAreSiblings(s);
    Log.MovedIsWellFormed(s, i);
    Log.MovedTemporary(s, i, i);
    CommitOneMore(s.tree, s.files, i);
  }

  /** A move that fails interrupts the commit. */
  lemma {:induction false} Interrupts(s: Log.State, i: nat, before: Tree, broken: Tree)
    requires i < |s.files| && Log.MovesApart(s.files) && before == Log.CommitFiles(s.tree, s.files[..i])
    requires WellFormed(broken)
    requires forall p :: Lookup(broken, p) == Lookup(before, p) || (s.files[i].final <= p && p !in broken)
    requires !IsDirectory(before, s.files[i].final) ==> broken == before
    ensures Log.Interrupted(s, i, broken)
  {
  }

  /** Every candidate name beside `path` is taken. */
  ghost predicate NamesTaken(tree: Tree, path: Path, serial: nat, clock: nat -> nat)
    requires path != []
  {
    forall a :: 0 <= a < Log.MAX_ATTEMPTS ==> Log.SiblingName(path, clock(a), serial, a) in tree
  }

  class PendingReplacements {
    const disk: Disk
    var files: seq<Log.Replacement>
    var displaced: seq<Log.Displacement>
    var reserved: nat
    ghost var created: set<Path>

    constructor (disk: Disk)
      ensures this.disk == disk
      ensures Held() == Log.Begin(disk.tree)
    {
      this.disk := disk;
      files, displaced, reserved := [], [], 0;
      created := {};
    }

    /** The log and the disk as one value. */
    ghost function Held(): Log.State
      reads this, disk
    {
      Log.State(disk.tree, files, displaced, reserved, created)
    }

    /** Claims a hidden sibling of `final`, trying a hundred names. */
    method Reserve(final: Path, clock: nat -> nat) returns (r: Result<Path, Error>)
      requires final != [] && Log.IsPlain(final)
      modifies this`files, this`reserved, disk
      ensures r.Ok? ==>
                && Log.Enabled(old(Held()), Log.Reserve(final, r.value))
                && Held() == Log.Apply(old(Held()), Log.Reserve(final, r.value))
      ensures r.Err? ==> Held() == old(Held())
      ensures r == Err(AlreadyExists) ==> NamesTaken(disk.tree, final, reserved, clock)
      ensures r.Err? && r.error != AlreadyExists ==> !IsDirectory(disk.tree, Parent(final))
    {
      var attempt := 0;
      while attempt < Log.MAX_ATTEMPTS
        invariant attempt <= Log.MAX_ATTEMPTS
        invariant Held() == old(Held())
        invariant forall a :: 0 <= a < attempt ==>
                    Log.SiblingName(final, clock(a), reserved, a) in disk.tree
      {
        var temporary := Log.SiblingName(final, clock(attempt), reserved, attempt);
        match CreateNew(disk.tree, temporary)
        case Ok(tree) =>
          assert Log.HiddenSibling(temporary, final, reserved);
          disk.tree := tree;
          reserved := reserved + 1;
          files := files + [Log.Replacement(temporary, final)];
          return Ok(temporary);
        case Err(error) =>
          if error != AlreadyExists {
            return Err(error);
          }
        attempt := attempt + 1;
      }
      return Err(AlreadyExists);
    }

    /** Moves an existing path to a hidden sibling, trying a hundred names. */
    method Displace(original: Path, clock: nat -> nat) returns (r: Result<Path, Error>)
      requires original != [] && Log.IsPlain(original)
      requires WellFormed(disk.tree) && files == []
      modifies this`displaced, this`reserved, disk
      ensures r.Ok? ==>
                && Log.Enabled(old(Held()), Log.Displace(original, r.value))
                && Held() == Log.Apply(old(Held()), Log.Displace(original, r.value))
      ensures r.Err? ==> Held() == old(Held())
      ensures r.Err? ==>
                || (r.error == NotFound && original !in disk.tree)
                || (r.error == AlreadyExists && NamesTaken(disk.tree, original, reserved, clock))
    {
      var attempt := 0;
      while attempt < Log.MAX_ATTEMPTS
        invariant attempt <= Log.MAX_ATTEMPTS
        invariant Held() == old(Held())
        invariant forall a :: 0 <= a < attempt ==>
                    Log.SiblingName(original, clock(a), reserved, a) in disk.tree
      {
        var aside := Log.SiblingName(original, clock(attempt), reserved, attempt);
        if aside !in disk.tree {
          assert Log.HiddenSibling(aside, original, reserved);
          Log.HiddenSiblingFacts(aside, original, reserved);
          assert Hangs(disk.tree, original);
          match Rename(disk.tree, original, aside) {
            case Ok(tree) =>
              disk.tree := tree;
              reserved := reserved + 1;
              displaced := displaced + [Log.Displacement(aside, original)];
              return Ok(aside);
            case Err(error) =>
              return Err(error);
          }
        }
        attempt := attempt + 1;
      }
      return Err(AlreadyExists);
    }

    /** Removes the temporaries and moves the displaced originals back. */
    method Drop()
      modifies this`displaced, disk
      ensures disk.tree == Log.Drop(old(disk.tree), files, old(displaced))
      ensures displaced == []
    {
      var i := 0;
      while i < |files|
        invariant i <= |files|
        invariant displaced == old(displaced)
        invariant Log.DropFiles(disk.tree, files[i..]) == Log.DropFiles(old(disk.tree), files)
      {
        disk.tree := Log.Ignoring(RemoveFile(disk.tree, files[i].temporary), disk.tree);
        i := i + 1;
      }
      assert files[i..] == [];
      while displaced != []
        invariant Log.Restore(disk.tree, displaced) == Log.Drop(old(disk.tree), files, old(displaced))
        decreases |displaced|
      {
        var last := displaced[|displaced| - 1];
        displaced := displaced[..|displaced| - 1];
        disk.tree := Log.Ignoring(RemoveDestination(disk.tree, last.original), disk.tree);
        disk.tree := Log.Ignoring(Rename(disk.tree, last.aside, last.original), disk.tree);
      }
    }

    /** Renames one temporary over its destination. */
    method MoveOver(file: Log.Replacement, fault: Fault) returns (ok: bool)
      requires WellFormed(disk.tree) && Siblings(file.temporary, file.final)
      requires file.temporary in disk.tree && !disk.tree[file.temporary].Directory?
      modifies disk
      ensures Apart(file.temporary, file.final)
      ensures ok <==> Goes(fault, IsDirectory(old(disk.tree), file.final))
      ensures ok ==> disk.tree == Move(old(disk.tree), file.temporary, file.final)
      ensures !ok ==> WellFormed(disk.tree)
      ensures !ok ==> forall p :: Lookup(disk.tree, p) == Lookup(old(disk.tree), p)
                               || (file.final <= p && p !in disk.tree)
      ensures !ok && !IsDirectory(old(disk.tree), file.final) ==> disk.tree == old(disk.tree)
    {
      Log.MoveOverIsMove(disk.tree, file.temporary, file.final);
      if fault.LookFails? {
        return false;
      }
      if IsDirectory(disk.tree, file.final) {
        if fault.ClearingStops? {
          RemainingFacts(disk.tree, file.final, fault.removed);
          disk.tree := Remaining(disk.tree, file.final, fault.removed);
          return false;
        }
        Log.RemoveDestinationLookup(disk.tree, file.final, file.final);
        forall p ensures Lookup(RemoveDestination(disk.tree, file.final).value, p) ==
                           if file.final <= p then None else Lookup(disk.tree, p) {
          Log.RemoveDestinationLookup(disk.tree, file.final, p);
        }
        disk.tree := RemoveDestination(disk.tree, file.final).value;
      }
      if fault.RenameFails? {
        return false;
      }
      disk.tree := Rename(disk.tree, file.temporary, file.final).value;
      return true;
    }

    /** The first loop of `commit`: a pair leaves the log once it is moved. */
    method MoveFiles(faults: nat -> Fault) returns (ok: bool, moved: nat)
      requires WellFormed(disk.tree) && Log.MovesApart(files)
      requires Log.NamesInOrder(Held()) && Log.TemporariesInPlace(Held())
      modifies this`files, disk
      ensures moved <= |old(files)| && files == old(files)[moved..]
      ensures ok ==> files == [] && disk.tree == Log.CommitFiles(old(disk.tree), old(files))
      ensures !ok ==> moved < |old(files)| && Log.Interrupted(old(Held()), moved, disk.tree)
      ensures AllGo(old(disk.tree), old(files), faults, moved) && (ok <==> moved == |old(files)|)
      ensures !ok ==> !Goes(faults(moved), IsDirectory(old(disk.tree), old(files)[moved].final))
    {
      ghost var held := Held();
      moved := 0;
      while files != []
        invariant moved <= |held.files| && files == held.files[moved..]
        invariant disk.tree == Log.CommitFiles(held.tree, held.files[..moved])
        invariant AllGo(held.tree, held.files, faults, moved)
        decreases |files|
      {
        assert files[0] == held.files[moved];
        NextMove(held, moved);
        ghost var before := disk.tree;
        Log.FailingFinal(held, moved);
        ok := MoveOver(files[0], faults(moved));
        if !ok {
          Interrupts(held, moved, before, disk.tree);
          return;
        }
        files := files[1..];
        moved := moved + 1;
      }
      assert held.files[..moved] == held.files;
      ok := true;
    }

    /** The second loop of `commit`: an aside leaves the log, then the disk. */
    method RemoveDisplaced(cleanup: Cleanup) returns (ok: bool)
      modifies this`displaced, disk
      ensures ok ==> displaced == [] && disk.tree == Log.RemoveAsides(old(disk.tree), old(displaced))
      ensures !ok ==>
                && cleanup.Stops? && cleanup.at < |old(displaced)|
                && displaced == old(displaced)[..cleanup.at]
                && disk.tree == Remaining(Log.RemoveAsides(old(disk.tree), old(displaced)[cleanup.at + 1..]),
                                          old(displaced)[cleanup.at].aside, cleanup.removed)
      ensures ok <==> !(cleanup.Stops? && cleanup.at < |old(displaced)|)
    {
      ghost var held := displaced;
      ghost var tree := disk.tree;
      assert held[|held|..] == [];
      while displaced != []
        invariant displaced <= held && (cleanup.Stops? && cleanup.at < |held| ==> cleanup.at < |displaced|)
        invariant disk.tree == Log.RemoveAsides(tree, held[|displaced|..])
        decreases |displaced|
      {
        var k := |displaced| - 1;
        var last := displaced[k];
        displaced := displaced[..k];
        if cleanup.Stops? && cleanup.at == k {
          disk.tree := Remaining(disk.tree, last.aside, cleanup.removed);
          return false;
        }
        RemoveOneMore(tree, held, k);
        disk.tree := RemoveDestination(disk.tree, last.aside).value;
      }
      assert held[0..] == held;
      return true;
    }

    /** Moves every temporary over its destination, then deletes the displaced
        originals.  `faults` says what goes wrong with each move and `cleanup`
        with the deletions; a failure drops what is still held. */
    method Commit(faults: nat -> Fault, cleanup: Cleanup) returns (ok: bool, moved: nat, ghost broken: Tree)
      requires WellFormed(disk.tree) && Log.NamesInOrder(Held())
      requires Log.TemporariesInPlace(Held()) && Log.FinalsApart(Held())
      modifies this`files, this`displaced, disk
      ensures Log.MovesApart(old(files)) && moved <= |old(files)|
      ensures ok ==> moved == |old(files)| && disk.tree == Log.Commit(old(Held()))
      ensures !ok && moved < |old(files)| ==>
                && Log.Interrupted(old(Held()), moved, broken)
                && disk.tree == Log.AfterFailure(old(Held()), moved, broken)
      ensures !ok && moved == |old(files)| ==>
                && cleanup.Stops? && cleanup.at < |old(displaced)|
                && RarCleanup.Stopped(old(Held()), cleanup.at, broken)
                && disk.tree == RarCleanup.AfterCleanup(old(Held()), cleanup.at, broken)
      ensures ok <==> AllGo(old(disk.tree), old(files), faults, |old(files)|)
                      && !(cleanup.Stops? && cleanup.at < |old(displaced)|)
      ensures moved < |old(files)| ==>
                !Goes(faults(moved), IsDirectory(old(disk.tree), old(files)[moved].final))
      ensures displaced == []
    {
      ghost var held := Held();
      Log.CommitMovesApart(held);
      ok, moved := MoveFiles(faults);
      broken := disk.tree;
      if ok {
        ok := RemoveDisplaced(cleanup);
        broken := disk.tree;
        if !ok {
          StoppedDisk(held, cleanup, broken);
        }
      }
      if !ok {
        Drop();
      }
    }
  }

  lemma {:induction false} StoppedDisk(s: Log.State, cleanup: Cleanup, broken: Tree)
    requires WellFormed(s.tree) && Log.NamesInOrder(s) && Log.TemporariesInPlace(s) && Log.MovesApart(s.files)
    requires cleanup.Stops? && cleanup.at < |s.displaced|
    requires broken == Remaining(Log.RemoveAsides(Log.CommitFiles(s.tree, s.files), s.displaced[cleanup.at + 1..]),
                                 s.displaced[cleanup.at].aside, cleanup.removed)
    ensures RarCleanup.Stopped(s, cleanup.at, broken)
  {
    var k := cleanup.at;
    assert Log.HiddenSibling(s.displaced[k].aside, s.displaced[k].original, k);
    Log.FilesAreSiblings(s);
    Log.CommitKeepsWellFormed(s.tree, s.files);
    RemoveAsidesKeepsWellFormed(Log.CommitFiles(s.tree, s.files), s.displaced[k + 1..]);
    RemainingFacts(Log.RemoveAsides(Log.CommitFiles(s.tree, s.files), s.displaced[k + 1..]), s.displaced[k].aside, cleanup.removed);
  }

  lemma {:induction false} RemoveAsidesKeepsWellFormed(tree: Tree, displaced: seq<Log.Displacement>)
    requires WellFormed(tree) && forall i :: 0 <= i < |displaced| ==> displaced[i].aside != []
    ensures WellFormed(Log.RemoveAsides(tree, displaced))
    decreases |displaced|
  {
    if displaced != [] {
      var n := |displaced| - 1;
      Log.RemoveDestinationLookup(tree, displaced[n].aside, []);
      RemoveAsidesKeepsWellFormed(RemoveDestination(tree, displaced[n].aside).value, displaced[..n]);
    }
  }

  lemma {:induction false} RemoveOneMore(tree: Tree, displaced: seq<Log.Displacement>, k: nat)
    requires k < |displaced|
    ensures Log.RemoveAsides(tree, displaced[k..]) ==
            RemoveDestination(Log.RemoveAsides(tree, displaced[k + 1..]), displaced[k].aside).value
    decreases |displaced| - k
  {
    var n := |displaced| - 1;
    if k < n {
      var next := RemoveDestination(tree, displaced[n].aside).value;
      RemoveOneMore(next, displaced[..n], k);
      assert displaced[k..][..n - k] == displaced[..n][k..];
      assert displaced[k + 1..][..n - k - 1] == displaced[..n][k + 1..];
    } else {
      assert displaced[k..] == [displaced[k]];
      assert displaced[k..][..0] == [] && displaced[k + 1..] == [];
    }
  }

  // ----- planned entries and the order they are committed in

  /** A planned writable entry; links are deferred past the commit. */
  datatype Plan =
    | PlanDirectory(path: Path, replace: bool)
    | PlanFile(path: Path, replace: bool)
    | PlanLink(path: Path)

  datatype Key = Key(rank: nat, depth: nat)

  /** Directories first, parents before children; everything else after. */
  function SortKey(plan: Plan): Key {
    if plan.PlanDirectory? then Key(0, |plan.path|) else Key(1, 0)
  }

  predicate KeyBelow(a: Key, b: Key) {
    a.rank < b.rank || (a.rank == b.rank && a.depth < b.depth)
  }

  /** Puts a plan before the first one that does not sort below it. */
  function Insert(plan: Plan, sorted: seq<Plan>): seq<Plan>
    decreases |sorted|
  {
    if sorted == [] then [plan]
    else if KeyBelow(SortKey(sorted[0]), SortKey(plan)) then [sorted[0]] + Insert(plan, sorted[1..])
    else [plan] + sorted
  }

  function SortPlans(plans: seq<Plan>): seq<Plan>
    decreases |plans|
  {
    if plans == [] then [] else Insert(plans[0], SortPlans(plans[1..]))
  }

  ghost predicate Sorted(plans: seq<Plan>) {
    forall i, j :: 0 <= i < j < |plans| ==> !KeyBelow(SortKey(plans[j]), SortKey(plans[i]))
  }

  /** The plans with a given key, in order. */
  function WithKey(plans: seq<Plan>, key: Key): seq<Plan>
    decreases |plans|
  {
    if plans == [] then []
    else (if SortKey(plans[0]) == key then [plans[0]] else []) + WithKey(plans[1..], key)
  }

  lemma {:induction false} InsertPermutes(plan: Plan, sorted: seq<Plan>)
    ensures multiset(Insert(plan, sorted)) == multiset([plan]) + multiset(sorted)
    decreases |sorted|
  {
    if sorted != [] {
      assert sorted == [sorted[0]] + sorted[1..];
      InsertPermutes(plan, sorted[1..]);
    }
  }

  lemma {:induction false} InsertSorts(plan: Plan, sorted: seq<Plan>)
    requires Sorted(sorted)
    ensures Sorted(Insert(plan, sorted))
    decreases |sorted|
  {
    if sorted != [] && KeyBelow(SortKey(sorted[0]), SortKey(plan)) {
      var rest := Insert(plan, sorted[1..]);
      InsertSorts(plan, sorted[1..]);
      InsertPermutes(plan, sorted[1..]);
      forall j | 0 <= j < |rest|
        ensures !KeyBelow(SortKey(rest[j]), SortKey(sorted[0]))
      {
        assert rest[j] in multiset(rest);
        if rest[j] != plan {
          assert rest[j] in sorted[1..];
        }
      }
    }
  }

  lemma {:induction false} InsertIsStable(plan: Plan, sorted: seq<Plan>, key: Key)
    ensures WithKey(Insert(plan, sorted), key) ==
            (if SortKey(plan) == key then [plan] else []) + WithKey(sorted, key)
    decreases |sorted|
  {
    var r := Insert(plan, sorted);
    if sorted != [] && KeyBelow(SortKey(sorted[0]), SortKey(plan)) {
      InsertIsStable(plan, sorted[1..], key);
      assert r[1..] == Insert(plan, sorted[1..]);
    } else {
      assert r[1..] == sorted;
    }
  }

  /** The sort is a permutation, it is ordered, and it is stable: plans that
      share a key keep their order. */
  lemma {:induction false} SortPlansFacts(plans: seq<Plan>, key: Key)
    ensures Sorted(SortPlans(plans))
    ensures multiset(SortPlans(plans)) == multiset(plans)
    ensures WithKey(SortPlans(plans), key) == WithKey(plans, key)
    decreases |plans|
  {
    if plans != [] {
      SortPlansFacts(plans[1..], key);
      var rest := SortPlans(plans[1..]);
      InsertPermutes(plans[0], rest);
      InsertSorts(plans[0], rest);
      InsertIsStable(plans[0], rest, key);
      assert plans == [plans[0]] + plans[1..];
    }
  }

  // ----- what the plans ask for

  function ReplacedFile(plan: Plan): seq<Path> {
    if plan.PlanFile? && plan.replace then [plan.path] else []
  }

  function ReplacedDirectory(plan: Plan): seq<Path> {
    if plan.PlanDirectory? && plan.replace then [plan.path] else []
  }

  /** The paths of the files to be replaced, in order. */
  function ReplacedFiles(plans: seq<Plan>): seq<Path> {
    if plans == [] then [] else ReplacedFile(plans[0]) + ReplacedFiles(plans[1..])
  }

  /** The paths of the directories to be put in place of something else, in order. */
  function ReplacedDirectories(plans: seq<Plan>): seq<Path> {
    if plans == [] then [] else ReplacedDirectory(plans[0]) + ReplacedDirectories(plans[1..])
  }

  function AtDepth(paths: seq<Path>, depth: nat): seq<Path> {
    if paths == [] then [] else (if |paths[0]| == depth then [paths[0]] else []) + AtDepth(paths[1..], depth)
  }

  lemma {:induction false} ReplacedFilesAppend(plans: seq<Plan>, plan: Plan)
    ensures ReplacedFiles(plans + [plan]) == ReplacedFiles(plans) + ReplacedFile(plan)
    decreases |plans|
  {
    var all := plans + [plan];
    if plans == [] {
      assert all[0] == plan && all[1..] == [];
      assert ReplacedFiles(all[1..]) == [];
    } else {
      assert all[0] == plans[0] && all[1..] == plans[1..] + [plan];
      ReplacedFilesAppend(plans[1..], plan);
    }
  }

  lemma {:induction false} ReplacedDirectoriesAppend(plans: seq<Plan>, plan: Plan)
    ensures ReplacedDirectories(plans + [plan]) == ReplacedDirectories(plans) + ReplacedDirectory(plan)
    decreases |plans|
  {
    var all := plans + [plan];
    if plans == [] {
      assert all[0] == plan && all[1..] == [];
      assert ReplacedDirectories(all[1..]) == [];
    } else {
      assert all[0] == plans[0] && all[1..] == plans[1..] + [plan];
      ReplacedDirectoriesAppend(plans[1..], plan);
    }
  }

  lemma {:induction false} FilesOfKey(plans: seq<Plan>)
    ensures ReplacedFiles(WithKey(plans, Key(1, 0))) == ReplacedFiles(plans)
    decreases |plans|
  {
    if plans != [] {
      FilesOfKey(plans[1..]);
      var rest := WithKey(plans[1..], Key(1, 0));
      if SortKey(plans[0]) == Key(1, 0) {
        assert WithKey(plans, Key(1, 0)) == [plans[0]] + rest && ([plans[0]] + rest)[1..] == rest;
      } else {
        assert WithKey(plans, Key(1, 0)) == rest && ReplacedFile(plans[0]) == [];
      }
    }
  }

  lemma {:induction false} DirectoriesOfKey(plans: seq<Plan>, depth: nat)
    ensures ReplacedDirectories(WithKey(plans, Key(0, depth))) == AtDepth(ReplacedDirectories(plans), depth)
    decreases |plans|
  {
    if plans != [] {
      DirectoriesOfKey(plans[1..], depth);
      var key, first := Key(0, depth), ReplacedDirectory(plans[0]);
      var rest, paths := WithKey(plans[1..], key), ReplacedDirectories(plans[1..]);
      if SortKey(plans[0]) == key {
        assert WithKey(plans, key) == [plans[0]] + rest && ([plans[0]] + rest)[1..] == rest;
      } else {
        assert WithKey(plans, key) == rest;
      }
      if first == [] {
        assert ReplacedDirectories(plans) == paths;
      } else {
        assert ReplacedDirectories(plans) == [plans[0].path] + paths && ([plans[0].path] + paths)[1..] == paths;
      }
    }
  }

  /** Sorting the plans keeps files in archive order, and directories of a depth. */
  lemma {:induction false} SortKeepsReplaced(plans: seq<Plan>, depth: nat)
    ensures ReplacedFiles(SortPlans(plans)) == ReplacedFiles(plans)
    ensures AtDepth(ReplacedDirectories(SortPlans(plans)), depth) == AtDepth(ReplacedDirectories(plans), depth)
  {
    SortPlansFacts(plans, Key(1, 0));
    FilesOfKey(plans);
    FilesOfKey(SortPlans(plans));
    SortPlansFacts(plans, Key(0, depth));
    DirectoriesOfKey(plans, depth);
    DirectoriesOfKey(SortPlans(plans), depth);
  }

  // ----- what the log holds for them

  function Finals(files: seq<Log.Replacement>): (paths: seq<Path>)
    ensures |paths| == |files| && forall i :: 0 <= i < |files| ==> paths[i] == files[i].final
  {
    seq(|files|, i requires 0 <= i < |files| => files[i].final)
  }

  function Originals(displaced: seq<Log.Displacement>): (paths: seq<Path>)
    ensures |paths| == |displaced| && forall i :: 0 <= i < |displaced| ==> paths[i] == displaced[i].original
  {
    seq(|displaced|, i requires 0 <= i < |displaced| => displaced[i].original)
  }

  /** The disk is ready for what `plan` writes. */
  ghost predicate Prepared(tree: Tree, plan: Plan) {
    && (plan.PlanDirectory? ==> IsDirectory(tree, plan.path))
    && (plan.PlanFile? ==> plan.path != [] && IsDirectory(tree, Parent(plan.path)))
  }

  ghost predicate AllPrepared(tree: Tree, plans: seq<Plan>) {
    forall i :: 0 <= i < |plans| ==> Prepared(tree, plans[i])
  }

  /** Directories stay directories, except below one that `plan` puts in place. */
  ghost predicate KeepsDirectories(before: Tree, after: Tree, plan: Plan) {
    forall q :: IsDirectory(before, q) && !(plan.PlanDirectory? && plan.path <= q) ==> IsDirectory(after, q)
  }

  /** Why committing `plan` fails with `error`. */
  ghost predicate Blocked(tree: Tree, serial: nat, clock: nat -> nat, plan: Plan, error: Error) {
    match plan
    case PlanLink(_) => false
    case PlanDirectory(path, replace) =>
      || Obstructed(tree, path)
      || (replace && path != [] && error == NotFound && path !in tree)
      || (replace && path != [] && error == AlreadyExists && NamesTaken(tree, path, serial, clock))
    case PlanFile(path, replace) =>
      path != [] &&
      (|| Obstructed(tree, Parent(path))
       || (replace && error == AlreadyExists && NamesTaken(tree, path, serial, clock)))
  }

  lemma {:induction false} MoveKeepsDirectories(tree: Tree, from: Path, to: Path, q: Path)
    requires WellFormed(tree) && to !in tree && Apart(from, to) && IsDirectory(tree, q) && !(from <= q)
    ensures IsDirectory(Move(tree, from, to), q)
  {
    MoveLookup(tree, from, to, q);
    if to <= q {
      NothingBelow(tree, to, q);
      assert false;
    }
  }

  lemma {:induction false} PreparedNext(sorted: seq<Plan>, i: nat, before: Tree, after: Tree)
    requires Sorted(sorted) && i < |sorted| && AllPrepared(before, sorted[..i])
    requires KeepsDirectories(before, after, sorted[i]) && Prepared(after, sorted[i])
    ensures AllPrepared(after, sorted[..i + 1])
  {
    forall k | 0 <= k < i ensures Prepared(after, sorted[k]) {
      var plan, last := sorted[k], sorted[i];
      assert sorted[..i][k] == plan && Prepared(before, plan);
      assert !KeyBelow(SortKey(last), SortKey(plan));
      if last.PlanDirectory? && last.path <= plan.path {
        assert plan.PlanDirectory? && |plan.path| <= |last.path|;
        assert plan.path == last.path;
      }
    }
  }

  // ----- committing planned entries is a run of the log

  /** What is displaced lies no deeper than what is displaced after it. */
  ghost predicate ByDepth(paths: seq<Path>) {
    forall i, j :: 0 <= i < j < |paths| ==> |paths[i]| <= |paths[j]|
  }

  lemma {:induction false} ByDepthIsOutermostFirst(displaced: seq<Log.Displacement>)
    requires ByDepth(Originals(displaced))
    ensures RarCleanup.OutermostFirst(displaced)
  {
    var paths := Originals(displaced);
    forall i, j | 0 <= i < j < |displaced| && displaced[j].original <= displaced[i].original
      ensures displaced[j].original == displaced[i].original
    {
      assert |paths[i]| <= |paths[j]|;
    }
  }

  /** No path lies deeper than the directory `plan`. */
  ghost predicate NoneDeeper(paths: seq<Path>, plan: Plan) {
    plan.PlanDirectory? ==> forall i :: 0 <= i < |paths| ==> |paths[i]| <= |plan.path|
  }

  /** The log has grown by what `plan` asks for, or by a part of it. */
  ghost predicate Grown(before: seq<Path>, after: seq<Path>, more: seq<Path>, complete: bool) {
    after == before + more || (!complete && after == before)
  }

  lemma {:induction false} GrownByDepth(sorted: seq<Plan>, i: nat, before: seq<Path>, after: seq<Path>, complete: bool)
    requires Sorted(sorted) && i < |sorted| && ByDepth(before) && NoneDeeper(before, sorted[i])
    requires Grown(before, after, ReplacedDirectory(sorted[i]), complete)
    ensures ByDepth(after) && (i + 1 < |sorted| ==> NoneDeeper(after, sorted[i + 1]))
  {
    var more := ReplacedDirectory(sorted[i]);
    assert forall k :: 0 <= k < |before + more| ==>
             (before + more)[k] == if k < |before| then before[k] else more[k - |before|];
    if i + 1 < |sorted| {
      assert !KeyBelow(SortKey(sorted[i + 1]), SortKey(sorted[i]));
    }
  }

  lemma {:induction false} SortedIsPlanned(tree: Tree, plans: seq<Plan>)
    requires AllPrepared(tree, SortPlans(plans))
    ensures AllPrepared(tree, plans)
  {
    SortPlansFacts(plans, Key(0, 0));
    forall i | 0 <= i < |plans| ensures Prepared(tree, plans[i]) {
      assert plans[i] in multiset(plans);
      assert plans[i] in SortPlans(plans);
    }
  }

  ghost predicate EntriesPlain(plans: seq<Plan>) {
    forall i :: 0 <= i < |plans| ==> plans[i].path != [] && Log.IsPlain(plans[i].path)
  }

  lemma {:induction false} RunAppend(s: Log.State, a: seq<Log.Step>, b: seq<Log.Step>)
    requires Log.RunFrom(s, a).Some?
    ensures Log.RunFrom(s, a + b) == Log.RunFrom(Log.RunFrom(s, a).value, b)
    decreases |a|
  {
    if a == [] {
      assert a + b == b;
    } else {
      assert (a + b)[1..] == a[1..] + b;
      RunAppend(Log.Apply(s, a[0]), a[1..], b);
    }
  }

  /** `create_dir_all` makes the missing directories one below the other. */
  lemma {:induction false} CreateDirectoriesIsRun(s: Log.State, path: Path) returns (steps: seq<Log.Step>, made: set<Path>)
    requires Log.IsPlain(path) && CreateDirectories(s.tree, path).Ok?
    ensures var tree := CreateDirectories(s.tree, path).value;
            Log.RunFrom(s, steps) == Some(s.(tree := tree, created := s.created + made))
    decreases |path|
  {
    if path in s.tree {
      steps, made := [], {};
      assert s.created + made == s.created;
    } else {
      assert Log.IsPlain(Parent(path));
      var first, above := CreateDirectoriesIsRun(s, Parent(path));
      var mid := Log.RunFrom(s, first).value;
      var last := Log.MakeDirectory(path);
      RunAppend(s, first, [last]);
      assert Log.RunFrom(mid, [last]) == Some(Log.Apply(mid, last)) by {
        assert [last][1..] == [];
      }
      steps, made := first + [last], above + {path};
      assert s.created + made == mid.created + {path};
    }
  }

  method CreateDirAll(log: PendingReplacements, path: Path) returns (r: Result<(), Error>, ghost steps: seq<Log.Step>)
    requires Log.IsPlain(path) && WellFormed(log.disk.tree)
    modifies log`created, log.disk
    ensures Log.RunFrom(old(log.Held()), steps) == Some(log.Held())
    ensures r.Ok? ==> IsDirectory(log.disk.tree, path)
    ensures forall q :: q in old(log.disk.tree) ==> Lookup(log.disk.tree, q) == Lookup(old(log.disk.tree), q)
    ensures r.Err? ==> Obstructed(log.disk.tree, path)
  {
    CreateDirectoriesIff(log.disk.tree, path);
    match CreateDirectories(log.disk.tree, path)
    case Err(error) =>
      steps := [];
      r := Err(error);
    case Ok(tree) =>
      ghost var held := log.Held();
      ghost var made;
      steps, made := CreateDirectoriesIsRun(held, path);
      log.disk.tree := tree;
      log.created := log.created + made;
      r := Ok(());
  }

  /** Displaces what stands in the way of a directory and creates it. */
  method CommitDirectory(log: PendingReplacements, path: Path, replace: bool, clock: nat -> nat)
    returns (r: Result<(), Error>, ghost steps: seq<Log.Step>)
    requires path != [] && Log.IsPlain(path) && WellFormed(log.disk.tree) && log.files == []
    modifies log`displaced, log`reserved, log`created, log.disk
    ensures Log.RunFrom(old(log.Held()), steps) == Some(log.Held())
    ensures Grown(old(Originals(log.displaced)), Originals(log.displaced), if replace then [path] else [], r.Ok?)
    ensures KeepsDirectories(old(log.disk.tree), log.disk.tree, PlanDirectory(path, replace))
    ensures r.Ok? ==> IsDirectory(log.disk.tree, path)
    ensures r.Err? ==> Blocked(log.disk.tree, log.reserved, clock, PlanDirectory(path, replace), r.error)
  {
    steps := [];
    ghost var held := log.Held();
    if replace {
      var d := log.Displace(path, clock);
      if d.Err? {
        return Err(d.error), steps;
      }
      steps := [Log.Displace(path, d.value)];
      assert steps[1..] == [];
      DisplacingKeepsDirectories(held, path, d.value);
      assert Originals(log.displaced) == Originals(held.displaced) + [path];
    }
    ghost var more;
    r, more := CreateDirAll(log, path);
    RunAppend(held, steps, more);
    steps := steps + more;
  }

  lemma {:induction false} DisplacingKeepsDirectories(s: Log.State, path: Path, aside: Path)
    requires WellFormed(s.tree) && Log.Enabled(s, Log.Displace(path, aside))
    ensures forall q :: IsDirectory(s.tree, q) && !(path <= q) ==>
              IsDirectory(Log.Apply(s, Log.Displace(path, aside)).tree, q)
    ensures WellFormed(Log.Apply(s, Log.Displace(path, aside)).tree)
  {
    Log.HiddenSiblingFacts(aside, path, s.reserved);
    SiblingsAreApart(path, aside);
    MoveKeepsWellFormed(s.tree, path, aside);
    forall q | IsDirectory(s.tree, q) && !(path <= q) ensures IsDirectory(Move(s.tree, path, aside), q) {
      MoveKeepsDirectories(s.tree, path, aside, q);
    }
  }

  /** Creates the parent of a file, and reserves a temporary if it is replaced. */
  method CommitFile(log: PendingReplacements, path: Path, replace: bool, clock: nat -> nat)
    returns (r: Result<(), Error>, ghost steps: seq<Log.Step>)
    requires path != [] && Log.IsPlain(path) && WellFormed(log.disk.tree)
    modifies log`files, log`reserved, log`created, log.disk
    ensures Log.RunFrom(old(log.Held()), steps) == Some(log.Held())
    ensures Grown(old(Finals(log.files)), Finals(log.files), if replace then [path] else [], r.Ok?)
    ensures KeepsDirectories(old(log.disk.tree), log.disk.tree, PlanFile(path, replace))
    ensures r.Ok? ==> IsDirectory(log.disk.tree, Parent(path))
    ensures r.Err? ==> Blocked(log.disk.tree, log.reserved, clock, PlanFile(path, replace), r.error)
  {
    ghost var held := log.Held();
    assert Log.IsPlain(Parent(path));
    r, steps := CreateDirAll(log, Parent(path));
    if r.Ok? && replace {
      ghost var mid := log.Held();
      var t := log.Reserve(path, clock);
      if t.Err? {
        return Err(t.error), steps;
      }
      ghost var last := Log.Reserve(path, t.value);
      assert Log.RunFrom(mid, [last]) == Some(log.Held()) by {
        assert [last][1..] == [];
      }
      RunAppend(held, steps, [last]);
      steps := steps + [last];
      assert Finals(log.files) == Finals(held.files) + [path];
    }
  }

  /** `commit_planned_entry`. */
  method CommitPlannedEntry(log: PendingReplacements, plan: Plan, clock: nat -> nat, ghost start: Tree)
    returns (r: Result<(), Error>, ghost steps: seq<Log.Step>)
    requires plan.path != [] && Log.IsPlain(plan.path)
    requires Log.Invariant(start, log.Held())
    requires plan.PlanDirectory? ==> log.files == []
    modifies log, log.disk
    ensures Log.RunFrom(old(log.Held()), steps) == Some(log.Held())
    ensures Log.Invariant(start, log.Held())
    ensures plan.PlanDirectory? ==> log.files == []
    ensures Grown(old(Originals(log.displaced)), Originals(log.displaced), ReplacedDirectory(plan), r.Ok?)
    ensures Grown(old(Finals(log.files)), Finals(log.files), ReplacedFile(plan), r.Ok?)
    ensures KeepsDirectories(old(log.disk.tree), log.disk.tree, plan)
    ensures r.Ok? ==> Prepared(log.disk.tree, plan)
    ensures r.Err? ==> Blocked(log.disk.tree, log.reserved, clock, plan, r.error)
  {
    ghost var held := log.Held();
    match plan {
      case PlanLink(_) =>
        steps := [];
        r := Ok(());
      case PlanDirectory(path, replace) =>
        r, steps := CommitDirectory(log, path, replace, clock);
      case PlanFile(path, replace) =>
        r, steps := CommitFile(log, path, replace, clock);
    }
    Log.RunKeepsInvariant(start, held, steps);
  }

  /** Everything the first `i` plans ask for has been done. */
  ghost predicate Done(s: Log.State, sorted: seq<Plan>, i: nat)
    requires i <= |sorted|
  {
    && AllPrepared(s.tree, sorted[..i])
    && Finals(s.files) == ReplacedFiles(sorted[..i])
    && Originals(s.displaced) == ReplacedDirectories(sorted[..i])
  }

  ghost predicate InOrder(s: Log.State, sorted: seq<Plan>, i: nat) {
    && ByDepth(Originals(s.displaced))
    && (i < |sorted| ==> NoneDeeper(Originals(s.displaced), sorted[i]))
    && (i < |sorted| && sorted[i].PlanDirectory? ==> s.files == [])
  }

  lemma {:induction false} DoneNext(sorted: seq<Plan>, i: nat, before: Log.State, after: Log.State)
    requires Sorted(sorted) && i < |sorted| && Done(before, sorted, i)
    requires Grown(Finals(before.files), Finals(after.files), ReplacedFile(sorted[i]), true)
    requires Grown(Originals(before.displaced), Originals(after.displaced), ReplacedDirectory(sorted[i]), true)
    requires KeepsDirectories(before.tree, after.tree, sorted[i]) && Prepared(after.tree, sorted[i])
    ensures Done(after, sorted, i + 1)
  {
    PreparedNext(sorted, i, before.tree, after.tree);
    assert sorted[..i + 1] == sorted[..i] + [sorted[i]];
    ReplacedFilesAppend(sorted[..i], sorted[i]);
    ReplacedDirectoriesAppend(sorted[..i], sorted[i]);
  }

  lemma {:induction false} InOrderNext(sorted: seq<Plan>, i: nat, before: Log.State, after: Log.State, complete: bool)
    requires Sorted(sorted) && i < |sorted| && InOrder(before, sorted, i)
    requires Grown(Originals(before.displaced), Originals(after.displaced), ReplacedDirectory(sorted[i]), complete)
    requires sorted[i].PlanDirectory? ==> after.files == []
    ensures InOrder(after, sorted, i + 1) && RarCleanup.OutermostFirst(after.displaced)
  {
    GrownByDepth(sorted, i, Originals(before.displaced), Originals(after.displaced), complete);
    ByDepthIsOutermostFirst(after.displaced);
    if i + 1 < |sorted| {
      assert !KeyBelow(SortKey(sorted[i + 1]), SortKey(sorted[i]));
    }
  }

  /** The loop over the sorted plans. */
  method CommitSorted(log: PendingReplacements, sorted: seq<Plan>, clock: nat -> nat, ghost start: Tree)
    returns (r: Result<(), Error>, ghost steps: seq<Log.Step>)
    requires EntriesPlain(sorted) && Sorted(sorted) && WellFormed(start)
    requires log.Held() == Log.Begin(start)
    modifies log, log.disk
    ensures Log.RunFrom(Log.Begin(start), steps) == Some(log.Held()) && Log.Invariant(start, log.Held())
    ensures ByDepth(Originals(log.displaced))
    ensures r.Ok? ==> Done(log.Held(), sorted, |sorted|)
    ensures r.Err? ==>
              exists plan :: plan in sorted && Blocked(log.disk.tree, log.reserved, clock, plan, r.error)
  {
    Log.BeginInvariant(start);
    steps := [];
    var i := 0;
    while i < |sorted|
      invariant 0 <= i <= |sorted|
      invariant Log.RunFrom(Log.Begin(start), steps) == Some(log.Held()) && Log.Invariant(start, log.Held())
      invariant InOrder(log.Held(), sorted, i) && Done(log.Held(), sorted, i)
    {
      ghost var more;
      ghost var held := log.Held();
      r, more := CommitPlannedEntry(log, sorted[i], clock, start);
      RunAppend(Log.Begin(start), steps, more);
      steps := steps + more;
      ghost var after := log.Held();
      InOrderNext(sorted, i, held, after, r.Ok?);
      if r.Err? {
        return;
      }
      DoneNext(sorted, i, held, after);
      i := i + 1;
    }
    r := Ok(());
  }

  /** Commits the plans in sorted order.  Whatever happens on the way, what has
      been done is a run of the log, so dropping it restores the start. */
  method CommitPlans(log: PendingReplacements, plans: seq<Plan>, clock: nat -> nat, ghost start: Tree)
    returns (r: Result<(), Error>, ghost steps: seq<Log.Step>)
    requires EntriesPlain(plans) && WellFormed(start)
    requires log.Held() == Log.Begin(start)
    modifies log, log.disk
    ensures Log.RunFrom(Log.Begin(start), steps) == Some(log.Held())
    ensures Log.Invariant(start, log.Held()) && RarCleanup.OutermostFirst(log.displaced)
    ensures r.Ok? ==> AllPrepared(log.disk.tree, plans) && Finals(log.files) == ReplacedFiles(plans)
    ensures r.Ok? ==>
              && ByDepth(Originals(log.displaced))
              && forall depth: nat :: AtDepth(Originals(log.displaced), depth) == AtDepth(ReplacedDirectories(plans), depth)
    ensures r.Err? ==>
              exists plan :: plan in plans && Blocked(log.disk.tree, log.reserved, clock, plan, r.error)
  {
    var sorted := SortPlans(plans);
    SortPlansFacts(plans, Key(0, 0));
    SortedIsPlain(plans);
    r, steps := CommitSorted(log, sorted, clock, start);
    ByDepthIsOutermostFirst(log.displaced);
    if r.Err? {
      ghost var plan :| plan in sorted && Blocked(log.disk.tree, log.reserved, clock, plan, r.error);
      assert plan in multiset(sorted);
      assert plan in plans;
    } else {
      SortedIsDone(log.Held(), plans);
    }
  }

  lemma {:induction false} SortedIsPlain(plans: seq<Plan>)
    requires EntriesPlain(plans)
    ensures EntriesPlain(SortPlans(plans))
  {
    SortPlansFacts(plans, Key(0, 0));
    forall i | 0 <= i < |SortPlans(plans)| ensures SortPlans(plans)[i].path != [] && Log.IsPlain(SortPlans(plans)[i].path) {
      assert SortPlans(plans)[i] in multiset(SortPlans(plans));
      assert SortPlans(plans)[i] in plans;
    }
  }

  lemma {:induction false} SortedIsDone(s: Log.State, plans: seq<Plan>)
    requires Done(s, SortPlans(plans), |SortPlans(plans)|)
    ensures AllPrepared(s.tree, plans) && Finals(s.files) == ReplacedFiles(plans)
    ensures forall depth: nat :: AtDepth(Originals(s.displaced), depth) == AtDepth(ReplacedDirectories(plans), depth)
  {
    var sorted := SortPlans(plans);
    assert sorted[..|sorted|] == sorted;
    SortedIsPlanned(s.tree, plans);
    SortKeepsReplaced(plans, 0);
    forall depth: nat
      ensures AtDepth(Originals(s.displaced), depth) == AtDepth(ReplacedDirectories(plans), depth)
    {
      SortKeepsReplaced(plans, depth);
    }
  }
}
