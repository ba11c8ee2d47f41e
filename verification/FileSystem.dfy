/** A directory tree as a map from paths to nodes, with the handful of
    operations the transactional code uses.

    Paths are relative to the extraction root.  A component is either a plain
    name or a hidden name minted by the replacement log; the latter carries the
    clock reading, the serial number and the attempt that its text spells out. */
module FileSystem {

  import opened Wrappers

  datatype Name = Plain(text: string) | Hidden(stamp: nat, serial: nat, attempt: nat)

  type Path = seq<Name>

  datatype Node = Directory | File(content: string) | Symlink(target: string)

  type Tree = map<Path, Node>

  datatype Error = NotFound | AlreadyExists | NotADirectory | IsADirectory | DirectoryNotEmpty | InvalidInput

  function Lookup(tree: Tree, path: Path): Option<Node> {
    if path in tree then Some(tree[path]) else None
  }

  function Parent(path: Path): Path
    requires path != []
  {
    path[..|path| - 1]
  }

  predicate IsDirectory(tree: Tree, path: Path) {
    path in tree && tree[path].Directory?
  }

  /** The root is a directory and every other path hangs below a directory. */
  ghost predicate WellFormed(tree: Tree) {
    IsDirectory(tree, []) && forall p :: Hangs(tree, p)
  }

  predicate Hangs(tree: Tree, p: Path) {
    p in tree && p != [] ==> IsDirectory(tree, Parent(p))
  }

  /** Two distinct names in one directory. */
  predicate Siblings(p: Path, q: Path) {
    p != [] && q != [] && p != q && Parent(p) == Parent(q)
  }

  /** The path `p`, known to lie below `from`, carried over to `to`. */
  function Graft(p: Path, from: Path, to: Path): Path
    requires from <= p
  {
    to + p[|from|..]
  }

  lemma {:induction false} GraftBack(p: Path, from: Path, to: Path)
    requires from <= p
    ensures to <= Graft(p, from, to)
    ensures Graft(Graft(p, from, to), to, from) == p
  {
    var g := Graft(p, from, to);
    assert g[|to|..] == p[|from|..];
    assert p == from + p[|from|..];
  }

  /** The tree without the subtree at `root`. */
  function Without(tree: Tree, root: Path): Tree {
    map p | p in tree && !(root <= p) :: tree[p]
  }

  predicate Apart(p: Path, q: Path) {
    !(p <= q) && !(q <= p)
  }

  lemma {:induction false} SiblingsAreApart(p: Path, q: Path)
    requires Siblings(p, q)
    ensures Apart(p, q)
  {
    assert p == Parent(p) + [p[|p| - 1]] && q == Parent(q) + [q[|q| - 1]];
  }

  /** The subtree at `from` moved to `to`, replacing whatever was there. */
  function Move(tree: Tree, from: Path, to: Path): Tree
    requires Apart(from, to)
  {
    var kept := set p | p in tree && !(from <= p) && !(to <= p);
    var moved := set p | p in tree && from <= p :: Graft(p, from, to);
    map p | p in kept + moved :: if to <= p then SourceNode(tree, p, from, to) else tree[p]
  }

  function SourceNode(tree: Tree, p: Path, from: Path, to: Path): Node
    requires to <= p
  {
    var q := Graft(p, to, from);
    if q in tree then tree[q] else Directory
  }

  /** What `Move` leaves at every path. */
  lemma {:induction false} MoveLookup(tree: Tree, from: Path, to: Path, p: Path)
    requires Apart(from, to)
    ensures Lookup(Move(tree, from, to), p) ==
            if to <= p then Lookup(tree, Graft(p, to, from))
            else if from <= p then None
            else Lookup(tree, p)
  {
    if to <= p {
      GraftBack(p, to, from);
      var q := Graft(p, to, from);
      if p in Move(tree, from, to) {
        var s :| s in tree && from <= s && p == Graft(s, from, to);
        GraftBack(s, from, to);
      }
    }
  }

  /** Moving a path to an absent sibling and back changes nothing else: the
      tree stays well formed. */
  lemma {:induction false} MoveKeepsWellFormed(tree: Tree, from: Path, to: Path)
    requires WellFormed(tree) && from in tree && Siblings(from, to)
    ensures Apart(from, to)
    ensures WellFormed(Move(tree, from, to))
    ensures to in Move(tree, from, to)
  {
    SiblingsAreApart(from, to);
    var r := Move(tree, from, to);
    MoveLookup(tree, from, to, []);
    MoveLookup(tree, from, to, to);
    assert Graft(to, to, from) == from;
    assert Hangs(tree, from);
    forall p
      ensures Hangs(r, p)
    {
      if p in r && p != [] {
        MoveLookup(tree, from, to, p);
        MoveLookup(tree, from, to, Parent(p));
        assert Hangs(tree, p);
        if to <= p && p != to {
          assert Graft(Parent(p), to, from) == Parent(Graft(p, to, from));
          assert Hangs(tree, Graft(p, to, from));
        }
      }
    }
  }

  /** Nothing hangs below a path that is not a directory of the tree. */
  lemma {:induction false} NothingBelow(tree: Tree, root: Path, p: Path)
    requires WellFormed(tree) && root <= p && p in tree && p != root
    ensures IsDirectory(tree, root)
    decreases |p|
  {
    assert Hangs(tree, p);
    if Parent(p) != root {
      NothingBelow(tree, root, Parent(p));
    }
  }

  // ----- operations, with the errors the operating system reports

  /** `OpenOptions::create_new`: claims an absent path as an empty file. */
  function CreateNew(tree: Tree, path: Path): Result<Tree, Error> {
    if path in tree then Err(AlreadyExists)
    else if path == [] || Parent(path) !in tree then Err(NotFound)
    else if !tree[Parent(path)].Directory? then Err(NotADirectory)
    else Ok(tree[path := File("")])
  }

  /** `fs::create_dir`. */
  function CreateDirectory(tree: Tree, path: Path): Result<Tree, Error> {
    if path in tree then Err(AlreadyExists)
    else if path == [] || Parent(path) !in tree then Err(NotFound)
    else if !tree[Parent(path)].Directory? then Err(NotADirectory)
    else Ok(tree[path := Directory])
  }

  /** `fs::create_dir_all`: an existing directory is fine, any other existing
      node on the way is an error. */
  function CreateDirectories(tree: Tree, path: Path): Result<Tree, Error>
    decreases |path|
  {
    if path in tree then
      if tree[path].Directory? then Ok(tree) else Err(AlreadyExists)
    else if path == [] then Err(NotFound)
    else
      match CreateDirectories(tree, Parent(path))
      case Err(e) => Err(e)
      case Ok(above) => CreateDirectory(above, path)
  }

  /** Something other than a directory stands at a path or above it. */
  ghost predicate Obstructed(tree: Tree, path: Path) {
    exists n :: 0 <= n <= |path| && path[..n] in tree && !tree[path[..n]].Directory?
  }

  /** `fs::create_dir_all` succeeds exactly when nothing is in the way, and then it
      adds the missing directories down to the path and nothing else. */
  lemma {:induction false} CreateDirectoriesIff(tree: Tree, path: Path)
    requires WellFormed(tree)
    ensures CreateDirectories(tree, path).Ok? <==> !Obstructed(tree, path)
    ensures CreateDirectories(tree, path).Ok? ==>
              forall q :: Lookup(CreateDirectories(tree, path).value, q) ==
                          if q <= path && q !in tree then Some(Directory) else Lookup(tree, q)
    decreases |path|
  {
    if path in tree {
      ExistingIsObstructed(tree, path);
    } else {
      var above := Parent(path);
      CreateDirectoriesIff(tree, above);
      ObstructedAbove(tree, path);
      if !Obstructed(tree, above) {
        var made := CreateDirectories(tree, above).value;
        assert Lookup(made, path) == Lookup(tree, path) by {
          assert !(path <= above);
        }
        assert Lookup(made, above) == Some(Directory) by {
          assert above in tree ==> above == above[..|above|];
        }
        forall q ensures Lookup(CreateDirectories(tree, path).value, q) ==
                           if q <= path && q !in tree then Some(Directory) else Lookup(tree, q) {
          assert q <= path && q != path ==> q <= above;
        }
      }
    }
  }

  lemma {:induction false} ExistingIsObstructed(tree: Tree, path: Path)
    requires WellFormed(tree) && path in tree
    ensures Obstructed(tree, path) <==> !tree[path].Directory?
    ensures forall q :: q <= path ==> q in tree
  {
    assert path[..|path|] == path;
    forall q | q <= path ensures q in tree && (q != path ==> tree[q].Directory?) {
      if q != path {
        NothingBelow(tree, q, path);
      }
    }
  }

  lemma {:induction false} ObstructedAbove(tree: Tree, path: Path)
    requires WellFormed(tree) && path !in tree
    ensures path != [] && (Obstructed(tree, path) <==> Obstructed(tree, Parent(path)))
  {
    var above := Parent(path);
    if n :| 0 <= n <= |path| && path[..n] in tree && !tree[path[..n]].Directory? {
      assert n < |path| by {
        assert path[..|path|] == path;
      }
      assert above[..n] == path[..n];
    }
    if n :| 0 <= n <= |above| && above[..n] in tree && !tree[above[..n]].Directory? {
      assert above[..n] == path[..n];
    }
  }

  /** `fs::remove_file`: unlinks a file or a symbolic link. */
  function RemoveFile(tree: Tree, path: Path): Result<Tree, Error> {
    if path !in tree then Err(NotFound)
    else if tree[path].Directory? then Err(IsADirectory)
    else Ok(tree - {path})
  }

  /** `safety::remove_destination_for_replace`: an absent path is fine, a
      directory goes with everything below it. */
  function RemoveDestination(tree: Tree, path: Path): Result<Tree, Error> {
    if path !in tree then Ok(tree)
    else if tree[path].Directory? then Ok(Without(tree, path))
    else RemoveFile(tree, path)
  }

  /** `fs::rename`: a non-directory replaces a non-directory, a directory only
      an empty directory, and nothing moves below itself. */
  function Rename(tree: Tree, from: Path, to: Path): Result<Tree, Error> {
    if from !in tree then Err(NotFound)
    else if from == to then Ok(tree)
    else if from <= to then Err(InvalidInput)
    else if to == [] || Parent(to) !in tree then Err(NotFound)
    else if !tree[Parent(to)].Directory? then Err(NotADirectory)
    else if to <= from then Err(DirectoryNotEmpty)
    else if to !in tree then Ok(Move(tree, from, to))
    else if tree[from].Directory? && !tree[to].Directory? then Err(NotADirectory)
    else if !tree[from].Directory? && tree[to].Directory? then Err(IsADirectory)
    else if exists p :: p in tree && to <= p && p != to then Err(DirectoryNotEmpty)
    else Ok(Move(tree, from, to))
  }

  /** Clearing a destination and renaming its sibling onto it is one `Move`,
      whatever stood there, and neither call can fail. */
  lemma {:induction false} ReplaceIsMove(tree: Tree, from: Path, to: Path)
    requires WellFormed(tree) && from in tree && Siblings(from, to)
    ensures Apart(from, to)
    ensures RemoveDestination(tree, to).Ok?
    ensures Rename(RemoveDestination(tree, to).value, from, to) == Ok(Move(tree, from, to))
  {
    SiblingsAreApart(from, to);
    assert Hangs(tree, from);
    var cleared := RemoveDestination(tree, to).value;
    forall p
      ensures Lookup(cleared, p) == if to <= p then None else Lookup(tree, p)
    {
      if to <= p && p in tree && p != to {
        NothingBelow(tree, to, p);
      }
    }
    assert Lookup(cleared, from) == Lookup(tree, from);
    assert Lookup(cleared, Parent(to)) == Lookup(tree, Parent(to));
    assert Lookup(cleared, to) == None;
    forall p
      ensures Lookup(Move(cleared, from, to), p) == Lookup(Move(tree, from, to), p)
    {
      MoveLookup(cleared, from, to, p);
      MoveLookup(tree, from, to, p);
      if to <= p {
        GraftBack(p, to, from);
      }
    }
    SameTree(Move(cleared, from, to), Move(tree, from, to));
  }

  /** A move to an absent path is undone by moving back. */
  lemma {:induction false} MoveBack(tree: Tree, from: Path, to: Path)
    requires WellFormed(tree) && to !in tree && Apart(from, to)
    ensures Move(Move(tree, from, to), to, from) == tree
  {
    var there := Move(tree, from, to);
    var back := Move(there, to, from);
    forall p
      ensures Lookup(back, p) == Lookup(tree, p)
    {
      MoveLookup(there, to, from, p);
      MoveLookup(tree, from, to, p);
      if from <= p {
        GraftBack(p, from, to);
        MoveLookup(tree, from, to, Graft(p, from, to));
      } else if to <= p && p in tree {
        NothingBelow(tree, to, p);
      }
    }
    SameTree(back, tree);
  }

  /** Trees that look alike are equal. */
  lemma {:induction false} SameTree(a: Tree, b: Tree)
    requires forall p :: Lookup(a, p) == Lookup(b, p)
    ensures a == b
  {
    forall p | p in a ensures p in b && a[p] == b[p] {
      assert Lookup(a, p) == Lookup(b, p);
    }
    forall p | p in b ensures p in a {
      assert Lookup(a, p) == Lookup(b, p);
    }
  }
}
