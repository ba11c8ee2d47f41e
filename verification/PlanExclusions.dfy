/** Which nodes the planner leaves out, and why: the walk against a description of
    exclusion that looks at one path at a time. */
module PlanExclusions {

  import opened Wrappers
  import opened Text
  import opened Gitignore
  import opened SortedPaths
  import opened Planner
  import opened PlanProperties

  // ----- when a path is excluded

  /** An include path lies strictly below a folder. */
  predicate IsSpared(o: Options, p: string, isDirectory: bool) {
    isDirectory && exists i :: 0 <= i < |o.includePaths| && IsBelow(o.includePaths[i], p)
  }

  predicate IsReached(o: Options, p: string) {
    exists i :: 0 <= i < |o.includePaths| && (p == o.includePaths[i] || IsBelow(p, o.includePaths[i]))
  }

  predicate IsFinderMetadata(o: Options, p: string) {
    o.profile != Unrestricted && LastName(p) == ".DS_Store"
  }

  /** The component at `k`, which is not the first, is left out of clean sources. */
  predicate UncleanAt(o: Options, p: string, k: nat) {
    o.profile == CleanSource && 0 < k < |Split(p, SLASH)| && Split(p, SLASH)[k] in CLEAN_SOURCE_NAMES
  }

  ghost predicate IsUnclean(o: Options, p: string) {
    exists k: nat :: UncleanAt(o, p, k)
  }

  predicate IsNamed(o: Options, p: string) {
    LastName(p) in o.excludeNames || p in o.excludePaths
  }

  /** The rule at `i` is the last that matches; it ignores the path, and for a
      folder no later rule could include anything below. */
  predicate IgnoresAt(rules: seq<Rule>, p: string, isDirectory: bool, i: nat) {
    && i < |rules| && Matches(rules[i], p, isDirectory) && !rules[i].negated
    && (forall j :: i < j < |rules| ==> !Matches(rules[j], p, isDirectory))
    && (isDirectory ==> forall j :: i < j < |rules| ==> !CouldIncludeBelow(rules[j], p))
  }

  ghost predicate IsIgnoredBy(o: Options, rules: seq<Rule>, p: string, isDirectory: bool) {
    o.respectGitignore && exists i: nat :: IgnoresAt(rules, p, isDirectory, i)
  }

  /** A path that no include reaches is excluded as Finder metadata, as unclean or by
      name or path unless it is a folder above an include, or by the rules in force
      when neither its name nor its path is listed. */
  ghost predicate Excludes(o: Options, p: string, isDirectory: bool, rules: seq<Rule>) {
    && !IsReached(o, p)
    && (|| IsFinderMetadata(o, p)
        || (!IsSpared(o, p, isDirectory) && (IsUnclean(o, p) || IsNamed(o, p)))
        || (!IsNamed(o, p) && IsIgnoredBy(o, rules, p, isDirectory)))
  }

  /** The reason given is the first that applies. */
  ghost predicate Justifies(o: Options, p: string, isDirectory: bool, rules: seq<Rule>, reason: Reason) {
    var metadata, spared := IsFinderMetadata(o, p), IsSpared(o, p, isDirectory);
    match reason
    case MacMetadata => metadata
    case CleanSourceName(name) =>
      && !metadata && !spared
      && exists k: nat :: UncleanAt(o, p, k) && Split(p, SLASH)[k] == name && forall j: nat :: j < k ==> !UncleanAt(o, p, j)
    case ExcludedName => !metadata && !spared && !IsUnclean(o, p) && LastName(p) in o.excludeNames
    case ExcludedPath =>
      !metadata && !spared && !IsUnclean(o, p) && LastName(p) !in o.excludeNames && p in o.excludePaths
    case GitIgnored =>
      && !metadata && (spared || !IsUnclean(o, p)) && !IsNamed(o, p)
      && IsIgnoredBy(o, rules, p, isDirectory)
  }

  // ----- the test of the program

  lemma {:induction false} CleanSourceNames(components: seq<string>)
    ensures FirstCleanSourceName(components).None? ==>
              forall k :: 0 <= k < |components| ==> components[k] !in CLEAN_SOURCE_NAMES
    ensures FirstCleanSourceName(components).Some? ==>
              exists k :: 0 <= k < |components| && components[k] == FirstCleanSourceName(components).value
                          && components[k] in CLEAN_SOURCE_NAMES
                          && forall j :: 0 <= j < k ==> components[j] !in CLEAN_SOURCE_NAMES
    decreases |components|
  {
    if components != [] && components[0] !in CLEAN_SOURCE_NAMES {
      var rest := components[1..];
      CleanSourceNames(rest);
      if FirstCleanSourceName(rest).Some? {
        var k :| 0 <= k < |rest| && rest[k] == FirstCleanSourceName(rest).value && rest[k] in CLEAN_SOURCE_NAMES
                 && forall j :: 0 <= j < k ==> rest[j] !in CLEAN_SOURCE_NAMES;
        assert components[k + 1] == rest[k];
        forall j | 0 <= j < k + 1 ensures components[j] !in CLEAN_SOURCE_NAMES {
          assert j > 0 ==> components[j] == rest[j - 1];
        }
      } else {
        forall k | 0 <= k < |components| ensures components[k] !in CLEAN_SOURCE_NAMES {
          assert k > 0 ==> components[k] == rest[k - 1];
        }
      }
    }
  }

  lemma {:induction false} UncleanIff(o: Options, p: string)
    requires o.profile == CleanSource
    ensures IsUnclean(o, p) <==> FirstCleanSourceName(Split(p, SLASH)[1..]).Some?
    ensures IsUnclean(o, p) ==>
              exists k: nat :: UncleanAt(o, p, k) && Split(p, SLASH)[k] == FirstCleanSourceName(Split(p, SLASH)[1..]).value
                               && forall j: nat :: j < k ==> !UncleanAt(o, p, j)
  {
    var all := Split(p, SLASH);
    var rest := all[1..];
    CleanSourceNames(rest);
    if FirstCleanSourceName(rest).Some? {
      var k :| 0 <= k < |rest| && rest[k] == FirstCleanSourceName(rest).value && rest[k] in CLEAN_SOURCE_NAMES
               && forall j :: 0 <= j < k ==> rest[j] !in CLEAN_SOURCE_NAMES;
      assert UncleanAt(o, p, k + 1);
      forall j: nat | j < k + 1 ensures !UncleanAt(o, p, j) {
        assert j > 0 ==> all[j] == rest[j - 1];
      }
    } else {
      forall k: nat ensures !UncleanAt(o, p, k) {
        assert 0 < k < |all| ==> all[k] == rest[k - 1];
      }
    }
  }

  lemma {:induction false} IgnoredIff(o: Options, rules: seq<Rule>, p: string, isDirectory: bool)
    requires o.respectGitignore
    ensures var d := Decision(p, isDirectory, rules);
            IsIgnoredBy(o, rules, p, isDirectory) <==>
            d.Some? && d.value.ignored && !(isDirectory && HasLaterInclude(p, rules, d.value.index))
  {
    var d := Decision(p, isDirectory, rules);
    if i: nat :| IgnoresAt(rules, p, isDirectory, i) {
      assert d.Some? && d.value.index == i;
    }
    if d.Some? && d.value.ignored && !(isDirectory && HasLaterInclude(p, rules, d.value.index)) {
      assert IgnoresAt(rules, p, isDirectory, d.value.index);
    }
  }

  /** The program's test excludes a path exactly when the description does, and gives
      the first reason that applies. */
  lemma {:induction false} ReasonIff(o: Options, p: string, isDirectory: bool, rules: seq<Rule>)
    ensures var reason := ExclusionReason(o, LastName(p), p, isDirectory, rules);
            && (reason.Some? <==> Excludes(o, p, isDirectory, rules))
            && (reason.Some? ==> Justifies(o, p, isDirectory, rules, reason.value))
  {
    if o.profile == CleanSource {
      UncleanIff(o, p);
    }
    if o.respectGitignore {
      IgnoredIff(o, rules, p, isDirectory);
    }
  }

  // ----- what the walk finds at a path

  /** A node with the rules in force where it stands. */
  datatype Visit = Visit(node: Node, isRoot: bool, rules: seq<Rule>)

  /** The rules in force below a folder: those above it, then its own. */
  function RulesBelow(o: Options, rules: seq<Rule>, node: Node, path: string): seq<Rule>
    requires node.Folder?
  {
    if o.respectGitignore then rules + ParseRules(node.ignoreLines, path) else rules
  }

  function VisitAt(o: Options, node: Node, path: string, isRoot: bool, rules: seq<Rule>, q: string): Option<Visit>
    decreases node, 1
  {
    if q == path then Some(Visit(node, isRoot, rules))
    else if !node.Folder? then None
    else VisitAmong(o, node.children, path + "/", false, RulesBelow(o, rules, node, path), q)
  }

  function VisitAmong(o: Options, nodes: seq<Node>, prefix: string, isRoot: bool, rules: seq<Rule>, q: string): Option<Visit>
    decreases nodes, 0
  {
    if nodes == [] then None
    else if AtOrBelow(q, prefix + nodes[0].name) then VisitAt(o, nodes[0], prefix + nodes[0].name, isRoot, rules, q)
    else VisitAmong(o, nodes[1..], prefix, isRoot, rules, q)
  }

  /** The reason against a visited node. */
  function ReasonAgainst(o: Options, v: Visit, q: string): Option<Reason> {
    ExclusionReason(o, LastName(q), q, v.node.Folder?, v.rules)
  }

  ghost predicate EntryStands(o: Options, v: Option<Visit>, e: Entry) {
    && v.Some? && e.fileType == TypeOf(v.value.node) && e.size == SizeOf(v.value.node)
    && (v.value.isRoot || ReasonAgainst(o, v.value, e.path).None?)
  }

  ghost predicate ExclusionStands(o: Options, v: Option<Visit>, x: Excluded) {
    && v.Some? && !v.value.isRoot && x.size == SizeOf(v.value.node)
    && ReasonAgainst(o, v.value, x.path) == Some(x.reason)
  }

  ghost predicate NodeStands(o: Options, node: Node, path: string, depth: nat, rules: seq<Rule>, plan: Plan) {
    && (forall e :: e in plan.entries ==> EntryStands(o, VisitAt(o, node, path, depth == 0, rules, e.path), e))
    && (forall x :: x in plan.excluded ==> ExclusionStands(o, VisitAt(o, node, path, depth == 0, rules, x.path), x))
  }

  ghost predicate NodesStand(o: Options, nodes: seq<Node>, prefix: string, depth: nat, rules: seq<Rule>, plan: Plan) {
    && (forall e :: e in plan.entries ==> EntryStands(o, VisitAmong(o, nodes, prefix, depth == 0, rules, e.path), e))
    && (forall x :: x in plan.excluded ==> ExclusionStands(o, VisitAmong(o, nodes, prefix, depth == 0, rules, x.path), x))
  }

  lemma {:induction false} WalkedNode(o: Options, node: Node, path: string, depth: nat, rules: seq<Rule>)
    requires ValidNode(node) && PlanNode(o, node, path, depth, rules).Ok? && (depth > 0 ==> LastName(path) == node.name)
    ensures NodeStands(o, node, path, depth, rules, PlanNode(o, node, path, depth, rules).value)
    decreases node, 1
  {
    var plan := PlanNode(o, node, path, depth, rules).value;
    if depth > 0 && ExclusionReason(o, node.name, path, node.Folder?, rules).Some? {
      assert plan.entries == [];
    } else if node.Folder? {
      var deeper := Extended(o, node, path, rules);
      var below := PlanNodes(o, node.children, path + "/", depth + 1, deeper).value;
      forall i | 0 <= i < |node.children| ensures LastName(path + "/" + node.children[i].name) == node.children[i].name {
        assert ValidNode(node.children[i]);
        ChildName(path, node.children[i].name);
      }
      WalkedNodes(o, node.children, path + "/", depth + 1, deeper);
      StandsInFolder(o, node, path, depth, rules, below);
    } else {
      assert plan.excluded == [];
    }
  }

  /** What stands among the children stands in the folder. */
  lemma {:induction false} StandsInFolder(o: Options, node: Node, path: string, depth: nat, rules: seq<Rule>, below: Plan)
    requires ValidNode(node) && node.Folder? && PlanNode(o, node, path, depth, rules).Ok?
    requires depth == 0 || ExclusionReason(o, node.name, path, true, rules).None?
    requires depth > 0 ==> LastName(path) == node.name
    requires PlanNodes(o, node.children, path + "/", depth + 1, Extended(o, node, path, rules)) == Ok(below)
    requires NodesStand(o, node.children, path + "/", depth + 1, Extended(o, node, path, rules), below)
    ensures NodeStands(o, node, path, depth, rules, PlanNode(o, node, path, depth, rules).value)
  {
    var plan := PlanNode(o, node, path, depth, rules).value;
    var entry := Entry(path, TypeOf(node), SizeOf(node));
    PlansPartition(o, node.children, path + "/", depth + 1, Extended(o, node, path, rules));
    PathsAreBelow(node, path);
    assert plan.entries == [entry] + below.entries && plan.excluded == below.excluded;
    forall e | e in plan.entries ensures EntryStands(o, VisitAt(o, node, path, depth == 0, rules, e.path), e) {
      if e in below.entries {
        assert e.path in Planned(below);
      }
    }
    forall x | x in plan.excluded ensures ExclusionStands(o, VisitAt(o, node, path, depth == 0, rules, x.path), x) {
      assert x.path in Skipped(below);
    }
  }

  lemma {:induction false} WalkedNodes(o: Options, nodes: seq<Node>, prefix: string, depth: nat, rules: seq<Rule>)
    requires ValidNodes(nodes) && PlanNodes(o, nodes, prefix, depth, rules).Ok?
    requires depth > 0 ==> forall i :: 0 <= i < |nodes| ==> LastName(prefix + nodes[i].name) == nodes[i].name
    ensures NodesStand(o, nodes, prefix, depth, rules, PlanNodes(o, nodes, prefix, depth, rules).value)
    decreases nodes, 0
  {
    if nodes != [] {
      var path := prefix + nodes[0].name;
      WalkedNode(o, nodes[0], path, depth, rules);
      assert forall i :: 0 <= i < |nodes[1..]| ==> nodes[1..][i] == nodes[i + 1];
      WalkedNodes(o, nodes[1..], prefix, depth, rules);
      StandsOnOneSide(o, nodes, prefix, depth, rules);
    }
  }

  lemma {:induction false} StandsOnOneSide(o: Options, nodes: seq<Node>, prefix: string, depth: nat, rules: seq<Rule>)
    requires nodes != [] && ValidNodes(nodes) && PlanNodes(o, nodes, prefix, depth, rules).Ok?
    requires NodeStands(o, nodes[0], prefix + nodes[0].name, depth, rules,
                        PlanNode(o, nodes[0], prefix + nodes[0].name, depth, rules).value)
    requires NodesStand(o, nodes[1..], prefix, depth, rules, PlanNodes(o, nodes[1..], prefix, depth, rules).value)
    ensures NodesStand(o, nodes, prefix, depth, rules, PlanNodes(o, nodes, prefix, depth, rules).value)
  {
    var path := prefix + nodes[0].name;
    var first := PlanNode(o, nodes[0], path, depth, rules).value;
    var rest := PlanNodes(o, nodes[1..], prefix, depth, rules).value;
    var plan := PlanNodes(o, nodes, prefix, depth, rules).value;
    FirstApartFromRest(nodes, prefix);
    PlanPartitions(o, nodes[0], path, depth, rules);
    PlansPartition(o, nodes[1..], prefix, depth, rules);
    PathsAreBelow(nodes[0], path);
    assert path in Paths(nodes[0], path);
    forall e | e in plan.entries ensures EntryStands(o, VisitAmong(o, nodes, prefix, depth == 0, rules, e.path), e) {
      if e in first.entries {
        assert e.path in Planned(first);
      } else {
        assert e.path in Planned(rest);
      }
    }
    forall x | x in plan.excluded ensures ExclusionStands(o, VisitAmong(o, nodes, prefix, depth == 0, rules, x.path), x) {
      if x in first.excluded {
        assert x.path in Skipped(first);
      } else {
        assert x.path in Skipped(rest);
      }
    }
  }

  // ----- whole plans

  /** The walk comes to a path: nothing above it is excluded. */
  ghost predicate IsWalkedTo(plan: Plan, p: string) {
    forall x :: x in Skipped(plan) ==> !IsBelow(p, x)
  }

  lemma {:induction false} RootsStand(o: Options, roots: seq<Node>)
    requires ValidNodes(roots) && PlanRoots(o, roots).Ok?
    ensures NodesStand(o, roots, "", 0, [], PlanRoots(o, roots).value)
    ensures Partitions(PlanRoots(o, roots).value, PathsOf(roots, ""))
  {
    forall i | 0 <= i < |roots| ensures roots[i].name != "" {
      assert ValidNode(roots[i]);
    }
    RootsAreNodes(o, roots);
    WalkedNodes(o, roots, "", 0, []);
    PlansPartition(o, roots, "", 0, []);
  }

  /** A node the walk comes to is excluded if and only if it is no root and the
      description excludes its path under the rules in force there; otherwise it is
      planned. */
  lemma {:induction false} ExclusionIff(o: Options, roots: seq<Node>, p: string)
    requires ValidNodes(roots) && PlanRoots(o, roots).Ok? && p in PathsOf(roots, "")
    requires IsWalkedTo(PlanRoots(o, roots).value, p)
    ensures var plan, visit := PlanRoots(o, roots).value, VisitAmong(o, roots, "", true, [], p);
            && visit.Some?
            && (p in Skipped(plan) <==> !visit.value.isRoot && Excludes(o, p, visit.value.node.Folder?, visit.value.rules))
            && (p in Planned(plan) <==> p !in Skipped(plan))
  {
    var plan, visit := PlanRoots(o, roots).value, VisitAmong(o, roots, "", true, [], p);
    RootsStand(o, roots);
    assert Covered(Planned(plan), Skipped(plan), p);
    if p in Skipped(plan) {
      var x :| x in plan.excluded && x.path == p;
      assert ExclusionStands(o, visit, x);
    } else {
      var e :| e in plan.entries && e.path == p;
      assert EntryStands(o, visit, e);
    }
    ReasonIff(o, p, visit.value.node.Folder?, visit.value.rules);
  }

  /** Every planned entry has the type and size of its node: sizes count for regular
      files only. */
  lemma {:induction false} EntriesDescribeNodes(o: Options, roots: seq<Node>, e: Entry)
    requires ValidNodes(roots) && PlanRoots(o, roots).Ok? && e in PlanRoots(o, roots).value.entries
    ensures var visit := VisitAmong(o, roots, "", true, [], e.path);
            && visit.Some?
            && var node := visit.value.node;
               && (node.Folder? <==> e.fileType == Directory)
               && (node.Leaf? && node.isFile <==> e.fileType == File)
               && (node.Leaf? && !node.isFile && node.isSymlink <==> e.fileType == Symlink)
               && e.size == if node.Leaf? && node.isFile then node.size else 0
  {
    RootsStand(o, roots);
    assert EntryStands(o, VisitAmong(o, roots, "", true, [], e.path), e);
  }

  /** Every exclusion is reported with the first reason that applies, and the size of
      the file left out. */
  lemma {:induction false} ReasonsAreRight(o: Options, roots: seq<Node>, x: Excluded)
    requires ValidNodes(roots) && PlanRoots(o, roots).Ok? && x in PlanRoots(o, roots).value.excluded
    ensures var visit := VisitAmong(o, roots, "", true, [], x.path);
            && visit.Some?
            && var node := visit.value.node;
               && Justifies(o, x.path, node.Folder?, visit.value.rules, x.reason)
               && x.size == if node.Leaf? && node.isFile then node.size else 0
  {
    RootsStand(o, roots);
    var visit := VisitAmong(o, roots, "", true, [], x.path);
    assert ExclusionStands(o, visit, x);
    ReasonIff(o, x.path, visit.value.node.Folder?, visit.value.rules);
  }

  // ----- the manifest

  /** The manifest lists what is planned and what is excluded in the byte order of
      their paths. */
  lemma {:induction false} ManifestIsSorted(o: Options, roots: seq<Node>)
    requires ManifestOf(o, roots).Ok?
    ensures var m, plan := ManifestOf(o, roots).value, PlanRoots(o, roots).value;
            && multiset(m.entries) == multiset(plan.entries) && multiset(m.excluded) == multiset(plan.excluded)
            && (forall i, j :: 0 <= i < j < |m.entries| ==> ComesFirst(m.entries[i].path, m.entries[j].path))
            && (forall i, j :: 0 <= i < j < |m.excluded| ==> ComesFirst(m.excluded[i].path, m.excluded[j].path))
  {
    var m, plan := ManifestOf(o, roots).value, PlanRoots(o, roots).value;
    SortIsSorted(plan.entries, EntryPath);
    SortIsSorted(plan.excluded, ExcludedPathOf);
    forall i, j | 0 <= i < j < |m.entries| ensures ComesFirst(m.entries[i].path, m.entries[j].path) {
      SortedInOrder(m.entries, EntryPath, i, j);
    }
    forall i, j | 0 <= i < j < |m.excluded| ensures ComesFirst(m.excluded[i].path, m.excluded[j].path) {
      SortedInOrder(m.excluded, ExcludedPathOf, i, j);
    }
  }


  /** A number, or the largest that fits 64 bits. */
  function Capped(n: nat): nat {
    if n < 0x1_0000_0000_0000_0000 then n else 0xFFFF_FFFF_FFFF_FFFF
  }

  /** The totals are the sums over the two lists, as far as they fit 64 bits. */
  lemma {:induction false} TotalsAreSums(o: Options, roots: seq<Node>)
    requires ManifestOf(o, roots).Ok?
    ensures var m := ManifestOf(o, roots).value;
            m.totalBytes == Capped(EntryBytes(m.entries)) && m.excludedBytes == Capped(ExcludedBytes(m.excluded))
  {
    var plan := PlanRoots(o, roots).value;
    SortEntryBytes(plan.entries);
    SortExcludedBytes(plan.excluded);
  }
}
