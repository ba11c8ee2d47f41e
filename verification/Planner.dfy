/** The archive planner: a recursive walk over a source tree with one stack of
    gitignore rules, exclusion with pruning, and byte accounting.  Symbolic links
    are not followed. */
module Planner {

  import opened Wrappers
  import opened Text
  import opened Gitignore
  import opened SortedPaths

  datatype FileType = File | Directory | Symlink | Other

  /** The source tree as the walk finds it.  A folder may turn out not to be
      readable; `ignoreLines` are the lines of its `.gitignore`. */
  datatype Node =
    | Leaf(name: string, isFile: bool, isSymlink: bool, size: nat)
    | Folder(name: string, ignoreLines: seq<string>, readable: bool, children: seq<Node>)
    | Unreadable(name: string)

  datatype Profile = Minimal | CleanSource | Unrestricted

  datatype Options = Options(
    profile: Profile,
    respectGitignore: bool,
    excludeNames: seq<string>,
    excludePaths: seq<string>,
    includePaths: seq<string>)

  datatype Reason = MacMetadata | CleanSourceName(component: string) | ExcludedName | ExcludedPath | GitIgnored

  datatype Entry = Entry(path: string, fileType: FileType, size: nat)

  datatype Excluded = Excluded(path: string, reason: Reason, size: nat)

  datatype PlanError = MissingFileName | MetadataError(path: string) | TooDeep(path: string) | ReadDirError(path: string)

  const MAX_DEPTH: nat := 1024
  const U64_MAX: nat := 0xFFFF_FFFF_FFFF_FFFF

  function TypeOf(node: Node): FileType {
    if node.Folder? then Directory
    else if node.Leaf? && node.isFile then File
    else if node.Leaf? && node.isSymlink then Symlink
    else Other
  }

  function SizeOf(node: Node): nat {
    if node.Leaf? && node.isFile then node.size else 0
  }

  // ----- exclusion

  predicate AtOrBelow(path: string, root: string) {
    path == root || IsBelow(path, root)
  }

  predicate IsIncluded(o: Options, path: string) {
    exists i :: 0 <= i < |o.includePaths| && AtOrBelow(path, o.includePaths[i])
  }

  predicate HasIncludeBelow(o: Options, path: string) {
    exists i :: 0 <= i < |o.includePaths| && IsBelow(o.includePaths[i], path)
  }

  const CLEAN_SOURCE_NAMES: set<string> := {
    ".DS_Store", ".cache", ".git", ".gradle", ".hg", ".idea", ".mypy_cache", ".next", ".nuxt", ".pytest_cache",
    ".ruff_cache", ".svn", ".turbo", ".vscode", "DerivedData", "Thumbs.db", "__pycache__", "build", "dist",
    "node_modules", "target"
  }

  function FirstCleanSourceName(components: seq<string>): Option<string> {
    if components == [] then None
    else if components[0] in CLEAN_SOURCE_NAMES then Some(components[0])
    else FirstCleanSourceName(components[1..])
  }

  function CleanSourceReason(o: Options, path: string, isDirectory: bool): Option<Reason> {
    match FirstCleanSourceName(Split(path, SLASH)[1..])
    case None => None
    case Some(name) => if isDirectory && HasIncludeBelow(o, path) then None else Some(CleanSourceName(name))
  }

  function ExclusionReason(o: Options, name: string, path: string, isDirectory: bool, rules: seq<Rule>): Option<Reason> {
    var spared := isDirectory && HasIncludeBelow(o, path);
    if IsIncluded(o, path) then None
    else if !o.profile.Unrestricted? && name == ".DS_Store" then Some(MacMetadata)
    else if o.profile.CleanSource? && CleanSourceReason(o, path, isDirectory).Some? then
      CleanSourceReason(o, path, isDirectory)
    else if name in o.excludeNames then if spared then None else Some(ExcludedName)
    else if path in o.excludePaths then if spared then None else Some(ExcludedPath)
    else if !o.respectGitignore then None
    else
      match Decision(path, isDirectory, rules)
      case None => None
      case Some(d) =>
        if !d.ignored || (isDirectory && HasLaterInclude(path, rules, d.index)) then None else Some(GitIgnored)
  }

  // ----- the walk as a function

  datatype Plan = Plan(entries: seq<Entry>, excluded: seq<Excluded>)

  function Extended(o: Options, node: Node, path: string, rules: seq<Rule>): seq<Rule>
    requires node.Folder?
  {
    if o.respectGitignore then rules + ParseRules(node.ignoreLines, path) else rules
  }

  function PlanNode(o: Options, node: Node, path: string, depth: nat, rules: seq<Rule>): Result<Plan, PlanError>
    decreases node, 1
  {
    if node.Unreadable? then Err(MetadataError(path))
    else if depth > MAX_DEPTH then Err(TooDeep(path))
    else
      var reason := ExclusionReason(o, node.name, path, node.Folder?, rules);
      if depth > 0 && reason.Some? then Ok(Plan([], [Excluded(path, reason.value, SizeOf(node))]))
      else
        var entry := Entry(path, TypeOf(node), SizeOf(node));
        if node.Leaf? then Ok(Plan([entry], []))
        else if !node.readable then Err(ReadDirError(path))
        else
          match PlanNodes(o, node.children, path + "/", depth + 1, Extended(o, node, path, rules))
          case Err(e) => Err(e)
          case Ok(below) => Ok(Plan([entry] + below.entries, below.excluded))
  }

  function PlanNodes(o: Options, nodes: seq<Node>, prefix: string, depth: nat, rules: seq<Rule>): Result<Plan, PlanError>
    decreases nodes, 0
  {
    if nodes == [] then Ok(Plan([], []))
    else
      match PlanNode(o, nodes[0], prefix + nodes[0].name, depth, rules)
      case Err(e) => Err(e)
      case Ok(first) =>
        match PlanNodes(o, nodes[1..], prefix, depth, rules)
        case Err(e) => Err(e)
        case Ok(rest) => Ok(Both(first, rest))
  }

  // ----- byte totals

  function EntryBytes(entries: seq<Entry>): nat {
    if entries == [] then 0 else entries[0].size + EntryBytes(entries[1..])
  }

  function ExcludedBytes(excluded: seq<Excluded>): nat {
    if excluded == [] then 0 else excluded[0].size + ExcludedBytes(excluded[1..])
  }

  /** Addition that stops at the largest 64-bit value. */
  function SaturatingAdd(a: nat, b: nat): nat {
    if a + b <= U64_MAX then a + b else U64_MAX
  }

  lemma {:induction false} EntryBytesAppend(a: seq<Entry>, b: seq<Entry>)
    ensures EntryBytes(a + b) == EntryBytes(a) + EntryBytes(b)
  {
    if a == [] {
      assert a + b == b;
    } else {
      assert (a + b)[1..] == a[1..] + b;
      EntryBytesAppend(a[1..], b);
    }
  }

  lemma {:induction false} ExcludedBytesAppend(a: seq<Excluded>, b: seq<Excluded>)
    ensures ExcludedBytes(a + b) == ExcludedBytes(a) + ExcludedBytes(b)
  {
    if a == [] {
      assert a + b == b;
    } else {
      assert (a + b)[1..] == a[1..] + b;
      ExcludedBytesAppend(a[1..], b);
    }
  }

  // ----- the walk as the program runs it

  class ManifestPlanner {
    const options: Options
    var entries: seq<Entry>
    var excluded: seq<Excluded>
    var totalBytes: nat
    var excludedBytes: nat
    var rules: seq<Rule>

    constructor (options: Options)
      ensures this.options == options && entries == [] && excluded == [] && rules == []
      ensures totalBytes == 0 && excludedBytes == 0
    {
      this.options := options;
      entries, excluded, totalBytes, excludedBytes, rules := [], [], 0, 0, [];
    }

    /** The totals are the saturating sums over the two lists. */
    ghost predicate Valid()
      reads this
    {
      && totalBytes == SaturatingAdd(EntryBytes(entries), 0)
      && excludedBytes == SaturatingAdd(ExcludedBytes(excluded), 0)
    }

    method Exclude(path: string, reason: Reason, size: nat)
      requires Valid()
      modifies this
      ensures Valid() && rules == old(rules) && entries == old(entries)
      ensures excluded == old(excluded) + [Excluded(path, reason, size)]
    {
      ExcludedBytesAppend(excluded, [Excluded(path, reason, size)]);
      excludedBytes := SaturatingAdd(excludedBytes, size);
      excluded := excluded + [Excluded(path, reason, size)];
    }

    method Include(entry: Entry)
      requires Valid() && (!entry.fileType.File? ==> entry.size == 0)
      modifies this
      ensures Valid() && rules == old(rules) && excluded == old(excluded)
      ensures entries == old(entries) + [entry]
    {
      EntryBytesAppend(entries, [entry]);
      if entry.fileType.File? {
        totalBytes := SaturatingAdd(totalBytes, entry.size);
      }
      entries := entries + [entry];
    }

    /** On success the lists have grown by the plan's, and the rule stack is as
        it was found; a failure is the plan's failure. */
    ghost predicate Follows(r: Result<(), PlanError>, plan: Result<Plan, PlanError>,
                            rules0: seq<Rule>, entries0: seq<Entry>, excluded0: seq<Excluded>)
      reads this
    {
      match r
      case Err(e) => plan == Err(e)
      case Ok(_) =>
        && plan.Ok? && Valid() && rules == rules0
        && entries == entries0 + plan.value.entries
        && excluded == excluded0 + plan.value.excluded
    }

    /** `walk`: visits one node and everything below it. */
    method Walk(node: Node, path: string, depth: nat) returns (r: Result<(), PlanError>)
      requires Valid()
      modifies this
      ensures Follows(r, PlanNode(options, node, path, depth, old(rules)), old(rules), old(entries), old(excluded))
      decreases node, 2
    {
      if node.Unreadable? {
        return Err(MetadataError(path));
      }
      if depth > MAX_DEPTH {
        return Err(TooDeep(path));
      }
      var reason := ExclusionReason(options, node.name, path, node.Folder?, rules);
      if depth > 0 && reason.Some? {
        Exclude(path, reason.value, SizeOf(node));
        return Ok(());
      }
      Include(Entry(path, TypeOf(node), SizeOf(node)));
      if node.Folder? {
        r := Descend(node, path, depth);
        return r;
      }
      return Ok(());
    }

    /** Reads a folder's own rules, walks its children, and drops the rules. */
    method Descend(node: Node, path: string, depth: nat) returns (r: Result<(), PlanError>)
      requires Valid() && node.Folder?
      modifies this
      ensures Follows(r, if node.readable
                         then PlanNodes(options, node.children, path + "/", depth + 1,
                                        Extended(options, node, path, old(rules)))
                         else Err(ReadDirError(path)),
                      old(rules), old(entries), old(excluded))
      decreases node, 1
    {
      var length := |rules|;
      if options.respectGitignore {
        rules := rules + ParseRules(node.ignoreLines, path);
      }
      if !node.readable {
        return Err(ReadDirError(path));
      }
      r := WalkChildren(node, path, depth);
      if r.Ok? {
        rules := rules[..length];
      }
    }

    /** The loop over a folder's children. */
    method WalkChildren(node: Node, path: string, depth: nat) returns (r: Result<(), PlanError>)
      requires Valid() && node.Folder?
      modifies this
      ensures Follows(r, PlanNodes(options, node.children, path + "/", depth + 1, old(rules)),
                      old(rules), old(entries), old(excluded))
      decreases node, 0
    {
      var children := node.children;
      ghost var whole := PlanNodes(options, children, path + "/", depth + 1, rules);
      for i := 0 to |children|
        invariant Valid() && rules == old(rules)
        invariant Continues(whole, PlanNodes(options, children[i..], path + "/", depth + 1, rules),
                            old(entries), entries, old(excluded), excluded)
      {
        PlanRest(options, children, i, path + "/", depth + 1, rules);
        ghost var first := PlanNode(options, children[i], path + "/" + children[i].name, depth + 1, rules);
        ghost var rest := PlanNodes(options, children[i + 1..], path + "/", depth + 1, rules);
        ghost var entries1, excluded1 := entries, excluded;
        var walked := Walk(children[i], path + "/" + children[i].name, depth + 1);
        if walked.Err? {
          return walked;
        }
        ContinueOne(whole, first.value, rest, old(entries), entries1, old(excluded), excluded1);
      }
      assert children[|children|..] == [];
      return Ok(());
    }
  }

  /** A first plan followed by the rest. */
  function Both(first: Plan, rest: Plan): Plan {
    Plan(first.entries + rest.entries, first.excluded + rest.excluded)
  }

  lemma {:induction false} PlanRest(o: Options, nodes: seq<Node>, i: nat, prefix: string, depth: nat, rules: seq<Rule>)
    requires i < |nodes|
    ensures var first := PlanNode(o, nodes[i], prefix + nodes[i].name, depth, rules);
            var rest := PlanNodes(o, nodes[i + 1..], prefix, depth, rules);
            PlanNodes(o, nodes[i..], prefix, depth, rules) ==
            if first.Err? then Err(first.error) else if rest.Err? then Err(rest.error)
            else Ok(Both(first.value, rest.value))
  {
    assert nodes[i..][0] == nodes[i] && nodes[i..][1..] == nodes[i + 1..];
  }

  lemma {:induction false} ContinueOne(whole: Result<Plan, PlanError>, first: Plan, rest: Result<Plan, PlanError>,
                    entries0: seq<Entry>, entries: seq<Entry>, excluded0: seq<Excluded>, excluded: seq<Excluded>)
    requires Continues(whole, if rest.Err? then rest else Ok(Both(first, rest.value)),
                       entries0, entries, excluded0, excluded)
    ensures Continues(whole, rest, entries0, entries + first.entries, excluded0, excluded + first.excluded)
  {
    if rest.Ok? {
      assert entries + (first.entries + rest.value.entries) == (entries + first.entries) + rest.value.entries;
      assert excluded + (first.excluded + rest.value.excluded) == (excluded + first.excluded) + rest.value.excluded;
    }
  }

  /** The whole result is what has been gathered so far, continued by the rest. */
  ghost predicate Continues(whole: Result<Plan, PlanError>, rest: Result<Plan, PlanError>,
                            entries0: seq<Entry>, entries: seq<Entry>,
                            excluded0: seq<Excluded>, excluded: seq<Excluded>)
  {
    match rest
    case Err(e) => whole == Err(e)
    case Ok(p) =>
      && whole.Ok?
      && entries0 + whole.value.entries == entries + p.entries
      && excluded0 + whole.value.excluded == excluded + p.excluded
  }

  // ----- the manifest

  datatype Manifest = Manifest(entries: seq<Entry>, totalBytes: nat, excluded: seq<Excluded>, excludedBytes: nat)

  function EntryPath(e: Entry): string {
    e.path
  }

  function ExcludedPathOf(x: Excluded): string {
    x.path
  }

  /** Each root is walked under its own name with an empty rule stack. */
  function PlanRoots(o: Options, roots: seq<Node>): Result<Plan, PlanError> {
    if roots == [] then Ok(Plan([], []))
    else if roots[0].name == "" then Err(MissingFileName)
    else
      match PlanNode(o, roots[0], roots[0].name, 0, [])
      case Err(e) => Err(e)
      case Ok(first) =>
        match PlanRoots(o, roots[1..])
        case Err(e) => Err(e)
        case Ok(rest) => Ok(Both(first, rest))
  }

  function Report(plan: Plan): Manifest {
    Manifest(
      Sort(plan.entries, EntryPath), SaturatingAdd(EntryBytes(plan.entries), 0),
      Sort(plan.excluded, ExcludedPathOf), SaturatingAdd(ExcludedBytes(plan.excluded), 0))
  }

  function ManifestOf(o: Options, roots: seq<Node>): Result<Manifest, PlanError> {
    match PlanRoots(o, roots)
    case Err(e) => Err(e)
    case Ok(plan) => Ok(Report(plan))
  }

  lemma {:induction false} RootsRest(o: Options, roots: seq<Node>, i: nat)
    requires i < |roots| && roots[i].name != ""
    ensures var first := PlanNode(o, roots[i], roots[i].name, 0, []);
            var rest := PlanRoots(o, roots[i + 1..]);
            PlanRoots(o, roots[i..]) ==
            if first.Err? then Err(first.error) else if rest.Err? then Err(rest.error)
            else Ok(Both(first.value, rest.value))
  {
    assert roots[i..][0] == roots[i] && roots[i..][1..] == roots[i + 1..];
  }

  /** `plan_archive_roots`. */
  method PlanArchiveRoots(options: Options, roots: seq<Node>) returns (r: Result<Manifest, PlanError>)
    ensures r == ManifestOf(options, roots)
  {
    var planner := new ManifestPlanner(options);
    ghost var whole := PlanRoots(options, roots);
    for i := 0 to |roots|
      invariant planner.Valid() && planner.options == options
      invariant Continues(whole, PlanRoots(options, roots[i..]), [], planner.entries, [], planner.excluded)
    {
      if roots[i].name == "" {
        assert roots[i..][0] == roots[i];
        return Err(MissingFileName);
      }
      RootsRest(options, roots, i);
      ghost var first := PlanNode(options, roots[i], roots[i].name, 0, []);
      ghost var rest := PlanRoots(options, roots[i + 1..]);
      ghost var entries1, excluded1 := planner.entries, planner.excluded;
      planner.rules := [];
      var walked := planner.Walk(roots[i], roots[i].name, 0);
      if walked.Err? {
        return Err(walked.error);
      }
      ContinueOne(whole, first.value, rest, [], entries1, [], excluded1);
    }
    assert roots[|roots|..] == [];
    assert [] + whole.value.entries == whole.value.entries && planner.entries + [] == planner.entries;
    assert [] + whole.value.excluded == whole.value.excluded && planner.excluded + [] == planner.excluded;
    assert planner.entries == whole.value.entries && planner.excluded == whole.value.excluded;
    return Ok(Manifest(Sort(planner.entries, EntryPath), planner.totalBytes,
                       Sort(planner.excluded, ExcludedPathOf), planner.excludedBytes));
  }
}
