/** What the planner's walk guarantees: every node is accounted for exactly once,
    the report does not depend on listing order, explicit includes win, and
    gitignore pruning loses nothing. */
module PlanProperties {

  import opened Wrappers
  import opened Text
  import opened Gitignore
  import opened Pruning
  import opened SortedPaths
  import opened Planner

  // ----- source trees

  /** Names are what a directory can hold, and no two siblings share one. */
  predicate ValidNode(node: Node) {
    node.name != "" && '/' !in node.name && (node.Folder? ==> ValidNodes(node.children))
  }

  predicate ValidNodes(nodes: seq<Node>) {
    && (forall i :: 0 <= i < |nodes| ==> ValidNode(nodes[i]))
    && (forall i, j :: 0 <= i < j < |nodes| ==> nodes[i].name != nodes[j].name)
  }

  /** The archive paths of a node and of everything below it. */
  function Paths(node: Node, path: string): set<string>
    decreases node, 1
  {
    {path} + if node.Folder? then PathsOf(node.children, path + "/") else {}
  }

  function PathsOf(nodes: seq<Node>, prefix: string): set<string>
    decreases nodes, 0
  {
    if nodes == [] then {} else Paths(nodes[0], prefix + nodes[0].name) + PathsOf(nodes[1..], prefix)
  }

  predicate AllAtOrBelow(paths: set<string>, root: string) {
    forall p :: p in paths ==> AtOrBelow(p, root)
  }

  /** Every path starts with the prefix and one of the names. */
  ghost predicate UnderNames(paths: set<string>, nodes: seq<Node>, prefix: string) {
    forall p :: p in paths ==> exists i :: 0 <= i < |nodes| && AtOrBelow(p, prefix + nodes[i].name)
  }

  lemma {:induction false} BelowFolder(p: string, path: string, name: string)
    requires AtOrBelow(p, path + "/" + name)
    ensures IsBelow(p, path)
  {
    var child := path + "/" + name;
    assert child[..|path|] == path && child[|path|] == '/';
    if p != child {
      BelowIsTransitive(p, child, path);
    }
  }

  lemma {:induction false} PathsAreBelow(node: Node, path: string)
    ensures AllAtOrBelow(Paths(node, path), path)
    ensures node.Folder? ==> forall p :: p in PathsOf(node.children, path + "/") ==> IsBelow(p, path)
    decreases node, 1
  {
    if node.Folder? {
      PathsAreUnder(node.children, path + "/");
      forall p | p in PathsOf(node.children, path + "/") ensures IsBelow(p, path) {
        var i :| 0 <= i < |node.children| && AtOrBelow(p, path + "/" + node.children[i].name);
        BelowFolder(p, path, node.children[i].name);
      }
    }
  }

  lemma {:induction false} PathsAreUnder(nodes: seq<Node>, prefix: string)
    ensures UnderNames(PathsOf(nodes, prefix), nodes, prefix)
    decreases nodes, 0
  {
    if nodes != [] {
      PathsAreBelow(nodes[0], prefix + nodes[0].name);
      PathsAreUnder(nodes[1..], prefix);
      forall p | p in PathsOf(nodes, prefix)
        ensures exists i :: 0 <= i < |nodes| && AtOrBelow(p, prefix + nodes[i].name)
      {
        if p in Paths(nodes[0], prefix + nodes[0].name) {
          assert AtOrBelow(p, prefix + nodes[0].name);
        } else {
          var i :| 0 <= i < |nodes[1..]| && AtOrBelow(p, prefix + nodes[1..][i].name);
          assert nodes[1..][i] == nodes[i + 1];
        }
      }
    }
  }

  /** No path of one set is at or below a path of the other. */
  predicate Separate(a: set<string>, b: set<string>) {
    forall p, q :: p in a && q in b ==> !AtOrBelow(p, q) && !AtOrBelow(q, p)
  }

  /** Paths below differently named siblings never meet. */
  lemma {:induction false} SiblingsApart(prefix: string, a: string, b: string, p: string, q: string)
    requires a != b && '/' !in a && '/' !in b
    requires AtOrBelow(p, prefix + a) && AtOrBelow(q, prefix + b)
    ensures !AtOrBelow(p, q)
  {
    var x, y := prefix + a, prefix + b;
    assert x[|prefix|..] == a && y[|prefix|..] == b;
    assert !AtOrBelow(x, y) && !AtOrBelow(y, x) by {
      assert |y| < |x| ==> x[|y|] == a[|b|];
      assert |x| < |y| ==> y[|x|] == b[|a|];
    }
    if AtOrBelow(p, q) {
      AtOrBelowIsTransitive(p, q, y);
      AtOrBelowComparable(p, x, y);
    }
  }

  lemma {:induction false} AtOrBelowIsTransitive(p: string, q: string, r: string)
    requires AtOrBelow(p, q) && AtOrBelow(q, r)
    ensures AtOrBelow(p, r)
  {
    if p != q && q != r {
      BelowIsTransitive(p, q, r);
    }
  }

  lemma {:induction false} AtOrBelowComparable(p: string, a: string, b: string)
    requires AtOrBelow(p, a) && AtOrBelow(p, b)
    ensures AtOrBelow(a, b) || AtOrBelow(b, a)
  {
    if p != a && p != b {
      TwoAncestors(p, a, b);
    }
  }

  lemma {:induction false} FirstApartFromRest(nodes: seq<Node>, prefix: string)
    requires nodes != [] && ValidNodes(nodes)
    ensures Separate(Paths(nodes[0], prefix + nodes[0].name), PathsOf(nodes[1..], prefix))
  {
    PathsAreBelow(nodes[0], prefix + nodes[0].name);
    PathsAreUnder(nodes[1..], prefix);
    forall p, q | p in Paths(nodes[0], prefix + nodes[0].name) && q in PathsOf(nodes[1..], prefix)
      ensures !AtOrBelow(p, q) && !AtOrBelow(q, p)
    {
      var i :| 0 <= i < |nodes[1..]| && AtOrBelow(q, prefix + nodes[1..][i].name);
      assert nodes[1..][i] == nodes[i + 1];
      assert ValidNode(nodes[0]) && ValidNode(nodes[i + 1]);
      SiblingsApart(prefix, nodes[0].name, nodes[i + 1].name, p, q);
      SiblingsApart(prefix, nodes[i + 1].name, nodes[0].name, q, p);
    }
  }

  // ----- every node is planned, excluded, or below one excluded directory

  function Planned(plan: Plan): set<string> {
    set e | e in plan.entries :: e.path
  }

  function Skipped(plan: Plan): set<string> {
    set x | x in plan.excluded :: x.path
  }

  ghost predicate DistinctPaths(plan: Plan) {
    && (forall i, j :: 0 <= i < j < |plan.entries| ==> plan.entries[i].path != plan.entries[j].path)
    && (forall i, j :: 0 <= i < j < |plan.excluded| ==> plan.excluded[i].path != plan.excluded[j].path)
  }

  ghost predicate Covered(planned: set<string>, skipped: set<string>, p: string) {
    p in planned || p in skipped || exists x :: x in skipped && IsBelow(p, x)
  }

  /** Nothing planned lies at or below an excluded path, no excluded path below
      another, and together they account for `all`. */
  ghost predicate Divides(planned: set<string>, skipped: set<string>, all: set<string>) {
    && planned <= all && skipped <= all
    && (forall p, x :: p in planned && x in skipped ==> !AtOrBelow(p, x))
    && (forall x, y :: x in skipped && y in skipped ==> !IsBelow(x, y))
    && (forall p :: p in all ==> Covered(planned, skipped, p))
  }

  ghost predicate Partitions(plan: Plan, all: set<string>) {
    DistinctPaths(plan) && Divides(Planned(plan), Skipped(plan), all)
  }

  lemma {:induction false} DividesBoth(p1: set<string>, x1: set<string>, all1: set<string>,
                    p2: set<string>, x2: set<string>, all2: set<string>)
    requires Divides(p1, x1, all1) && Divides(p2, x2, all2) && Separate(all1, all2)
    ensures Divides(p1 + p2, x1 + x2, all1 + all2)
  {
    forall p | p in all1 + all2 ensures Covered(p1 + p2, x1 + x2, p) {
      if p in all1 {
        assert Covered(p1, x1, p);
      } else {
        assert Covered(p2, x2, p);
      }
    }
  }

  lemma {:induction false} PartitionsBoth(a: Plan, all1: set<string>, b: Plan, all2: set<string>)
    requires Partitions(a, all1) && Partitions(b, all2) && Separate(all1, all2)
    ensures Partitions(Both(a, b), all1 + all2)
  {
    var c := Both(a, b);
    DividesBoth(Planned(a), Skipped(a), all1, Planned(b), Skipped(b), all2);
    assert Planned(c) == Planned(a) + Planned(b) by {
      assert forall e :: e in c.entries <==> e in a.entries || e in b.entries;
    }
    assert Skipped(c) == Skipped(a) + Skipped(b) by {
      assert forall x :: x in c.excluded <==> x in a.excluded || x in b.excluded;
    }
    DistinctBoth(a, all1, b, all2);
  }

  lemma {:induction false} DistinctBoth(a: Plan, all1: set<string>, b: Plan, all2: set<string>)
    requires DistinctPaths(a) && DistinctPaths(b) && Separate(all1, all2)
    requires Planned(a) <= all1 && Skipped(a) <= all1 && Planned(b) <= all2 && Skipped(b) <= all2
    ensures DistinctPaths(Both(a, b))
  {
    forall e, f | e in a.entries && f in b.entries ensures e.path != f.path {
      assert e.path in Planned(a) && f.path in Planned(b);
    }
    forall x, y | x in a.excluded && y in b.excluded ensures x.path != y.path {
      assert x.path in Skipped(a) && y.path in Skipped(b);
    }
  }

  /** A folder's own entry in front of what its children give. */
  lemma {:induction false} PartitionsFolder(below: Plan, all: set<string>, entry: Entry)
    requires Partitions(below, all) && forall p :: p in all ==> IsBelow(p, entry.path)
    ensures Partitions(Plan([entry] + below.entries, below.excluded), {entry.path} + all)
  {
    var plan := Plan([entry] + below.entries, below.excluded);
    assert Planned(plan) == {entry.path} + Planned(below) by {
      assert forall e :: e in plan.entries <==> e == entry || e in below.entries;
    }
    forall p | p in {entry.path} + all ensures Covered(Planned(plan), Skipped(plan), p) {
      if p in all {
        assert Covered(Planned(below), Skipped(below), p);
      }
    }
    assert DistinctPaths(plan) by {
      forall e | e in below.entries ensures e.path != entry.path {
        assert e.path in Planned(below);
      }
    }
  }

  lemma {:induction false} PartitionsExcluded(node: Node, path: string, reason: Reason, size: nat)
    ensures Partitions(Plan([], [Excluded(path, reason, size)]), Paths(node, path))
  {
    PathsAreBelow(node, path);
    var plan := Plan([], [Excluded(path, reason, size)]);
    assert plan.excluded[0] in plan.excluded;
    assert Skipped(plan) == {path} && Planned(plan) == {};
  }

  lemma {:induction false} PlanPartitions(o: Options, node: Node, path: string, depth: nat, rules: seq<Rule>)
    requires ValidNode(node) && PlanNode(o, node, path, depth, rules).Ok?
    ensures Partitions(PlanNode(o, node, path, depth, rules).value, Paths(node, path))
    decreases node, 1
  {
    var plan := PlanNode(o, node, path, depth, rules).value;
    var reason := ExclusionReason(o, node.name, path, node.Folder?, rules);
    if depth > 0 && reason.Some? {
      PartitionsExcluded(node, path, reason.value, SizeOf(node));
    } else {
      var entry := Entry(path, TypeOf(node), SizeOf(node));
      PathsAreBelow(node, path);
      if node.Folder? {
        var deeper := Extended(o, node, path, rules);
        PlansPartition(o, node.children, path + "/", depth + 1, deeper);
        PartitionsFolder(PlanNodes(o, node.children, path + "/", depth + 1, deeper).value,
                         PathsOf(node.children, path + "/"), entry);
      } else {
        assert Partitions(Plan([], []), {});
        PartitionsFolder(Plan([], []), {}, entry);
        assert [entry] + [] == [entry] && {path} + {} == {path};
      }
    }
  }

  lemma {:induction false} PlansPartition(o: Options, nodes: seq<Node>, prefix: string, depth: nat, rules: seq<Rule>)
    requires ValidNodes(nodes) && PlanNodes(o, nodes, prefix, depth, rules).Ok?
    ensures Partitions(PlanNodes(o, nodes, prefix, depth, rules).value, PathsOf(nodes, prefix))
    decreases nodes, 0
  {
    if nodes != [] {
      PlanPartitions(o, nodes[0], prefix + nodes[0].name, depth, rules);
      PlansPartition(o, nodes[1..], prefix, depth, rules);
      FirstApartFromRest(nodes, prefix);
      PartitionsBoth(PlanNode(o, nodes[0], prefix + nodes[0].name, depth, rules).value,
                     Paths(nodes[0], prefix + nodes[0].name),
                     PlanNodes(o, nodes[1..], prefix, depth, rules).value, PathsOf(nodes[1..], prefix));
    }
  }

  /** Every node is exactly one of planned, excluded, and strictly below exactly
      one excluded path; nothing is listed twice. */
  lemma {:induction false} EveryNodeOnce(o: Options, roots: seq<Node>, p: string)
    requires ValidNodes(roots) && PlanNodes(o, roots, "", 0, []).Ok? && p in PathsOf(roots, "")
    ensures var plan := PlanNodes(o, roots, "", 0, []).value;
            var below := set x | x in Skipped(plan) && IsBelow(p, x);
            && DistinctPaths(plan)
            && (if p in Planned(plan) then p !in Skipped(plan) && below == {}
                else if p in Skipped(plan) then below == {}
                else exists x :: below == {x})
  {
    PlansPartition(o, roots, "", 0, []);
    var plan := PlanNodes(o, roots, "", 0, []).value;
    var below := set x | x in Skipped(plan) && IsBelow(p, x);
    assert Covered(Planned(plan), Skipped(plan), p);
    if p !in Planned(plan) && p !in Skipped(plan) {
      var x :| x in Skipped(plan) && IsBelow(p, x);
      forall y | y in below ensures y == x {
        TwoAncestors(p, x, y);
      }
      assert below == {x};
    }
  }

  // ----- listing order does not matter

  /** The same tree with directories listing their children in another order. */
  ghost predicate Reordered(a: Node, b: Node)
    decreases a, 0
  {
    if a.Folder? then
      && b.Folder? && a.name == b.name && a.ignoreLines == b.ignoreLines && a.readable == b.readable
      && AllReordered(a.children, b.children)
    else a == b
  }

  ghost predicate AllReordered(a: seq<Node>, b: seq<Node>)
    decreases a, 1
  {
    && (forall i :: 0 <= i < |a| ==> HasCopy(a[i], b))
    && (forall j :: 0 <= j < |b| ==> IsCopy(b[j], a))
  }

  ghost predicate HasCopy(x: Node, b: seq<Node>)
    decreases x, 1
  {
    exists j :: 0 <= j < |b| && Reordered(x, b[j])
  }

  ghost predicate IsCopy(y: Node, a: seq<Node>)
    decreases a, 0
  {
    exists i :: 0 <= i < |a| && Reordered(a[i], y)
  }

  /** If `b` succeeds then so does `a`, with nothing that `b` does not have. */
  ghost predicate Within(a: Result<Plan, PlanError>, b: Result<Plan, PlanError>) {
    b.Ok? ==>
      && a.Ok?
      && (forall e :: e in a.value.entries ==> e in b.value.entries)
      && (forall x :: x in a.value.excluded ==> x in b.value.excluded)
  }

  /** Both fail, or both succeed with the same elements. */
  ghost predicate Alike(a: Result<Plan, PlanError>, b: Result<Plan, PlanError>) {
    Within(a, b) && Within(b, a)
  }

  /** The plan of one of several nodes. */
  function PlanAt(o: Options, nodes: seq<Node>, i: nat, prefix: string, depth: nat, rules: seq<Rule>): Result<Plan, PlanError>
    requires i < |nodes|
  {
    PlanNode(o, nodes[i], prefix + nodes[i].name, depth, rules)
  }

  /** Several nodes succeed when each does. */
  lemma {:induction false} PlanNodesOk(o: Options, nodes: seq<Node>, prefix: string, depth: nat, rules: seq<Rule>)
    ensures PlanNodes(o, nodes, prefix, depth, rules).Ok? <==>
            forall i :: 0 <= i < |nodes| ==> PlanAt(o, nodes, i, prefix, depth, rules).Ok?
    decreases |nodes|
  {
    if nodes != [] {
      var rest := nodes[1..];
      PlanNodesOk(o, rest, prefix, depth, rules);
      assert PlanAt(o, nodes, 0, prefix, depth, rules) == PlanNode(o, nodes[0], prefix + nodes[0].name, depth, rules);
      forall i | 0 < i < |nodes|
        ensures PlanAt(o, nodes, i, prefix, depth, rules) == PlanAt(o, rest, i - 1, prefix, depth, rules)
      {
      }
      forall i | 0 <= i < |rest|
        ensures PlanAt(o, rest, i, prefix, depth, rules) == PlanAt(o, nodes, i + 1, prefix, depth, rules)
      {
      }
    }
  }

  ghost predicate GivenBy(plan: Result<Plan, PlanError>, item: (Option<Entry>, Option<Excluded>)) {
    plan.Ok? && (item.0.Some? ==> item.0.value in plan.value.entries)
    && (item.1.Some? ==> item.1.value in plan.value.excluded)
  }

  /** What several nodes give comes from one of them. */
  lemma {:induction false} GivenByOne(
    o: Options, nodes: seq<Node>, prefix: string, depth: nat, rules: seq<Rule>, item: (Option<Entry>, Option<Excluded>))
    returns (i: nat)
    requires (item.0.Some? <==> item.1.None?) && GivenBy(PlanNodes(o, nodes, prefix, depth, rules), item)
    ensures i < |nodes| && GivenBy(PlanAt(o, nodes, i, prefix, depth, rules), item)
    decreases |nodes|
  {
    if GivenBy(PlanAt(o, nodes, 0, prefix, depth, rules), item) {
      i := 0;
    } else {
      var k := GivenByOne(o, nodes[1..], prefix, depth, rules, item);
      assert nodes[1..][k] == nodes[k + 1];
      i := k + 1;
    }
  }

  lemma {:induction false} GivenByAll(
    o: Options, nodes: seq<Node>, prefix: string, depth: nat, rules: seq<Rule>, item: (Option<Entry>, Option<Excluded>), i: nat)
    requires PlanNodes(o, nodes, prefix, depth, rules).Ok?
    requires i < |nodes| && GivenBy(PlanAt(o, nodes, i, prefix, depth, rules), item)
    ensures GivenBy(PlanNodes(o, nodes, prefix, depth, rules), item)
    decreases |nodes|
  {
    if i > 0 {
      assert nodes[1..][i - 1] == nodes[i];
      GivenByAll(o, nodes[1..], prefix, depth, rules, item, i - 1);
    }
  }

  lemma {:induction false} ReorderedPlans(o: Options, a: Node, b: Node, path: string, depth: nat, rules: seq<Rule>)
    requires Reordered(a, b)
    ensures a.name == b.name
    ensures Alike(PlanNode(o, a, path, depth, rules), PlanNode(o, b, path, depth, rules))
    decreases a, 2
  {
    if a.Folder? {
      var deeper := Extended(o, a, path, rules);
      AllReorderedPlans(o, a.children, b.children, path + "/", depth + 1, deeper);
    }
  }

  lemma {:induction false} AllReorderedPlans(o: Options, a: seq<Node>, b: seq<Node>, prefix: string, depth: nat, rules: seq<Rule>)
    requires AllReordered(a, b)
    ensures Alike(PlanNodes(o, a, prefix, depth, rules), PlanNodes(o, b, prefix, depth, rules))
    decreases a, 1
  {
    assert EachWithin(o, a, b, prefix, depth, rules) by {
      forall i | 0 <= i < |a| ensures SomeWithin(PlanAt(o, a, i, prefix, depth, rules), o, b, prefix, depth, rules) {
        MatchedLeft(o, a, b, prefix, depth, rules, i);
      }
    }
    assert EachWithin(o, b, a, prefix, depth, rules) by {
      forall j | 0 <= j < |b| ensures SomeWithin(PlanAt(o, b, j, prefix, depth, rules), o, a, prefix, depth, rules) {
        MatchedRight(o, a, b, prefix, depth, rules, j);
      }
    }
    AllWithin(o, a, b, prefix, depth, rules);
    AllWithin(o, b, a, prefix, depth, rules);
  }

  lemma {:induction false} MatchedLeft(
    o: Options, a: seq<Node>, b: seq<Node>, prefix: string, depth: nat, rules: seq<Rule>, i: nat)
    requires AllReordered(a, b) && i < |a|
    ensures SomeWithin(PlanAt(o, a, i, prefix, depth, rules), o, b, prefix, depth, rules)
    decreases a, 0
  {
    assert HasCopy(a[i], b);
    var j :| 0 <= j < |b| && Reordered(a[i], b[j]);
    ReorderedPlans(o, a[i], b[j], prefix + a[i].name, depth, rules);
    ThisWithin(PlanAt(o, a, i, prefix, depth, rules), o, b, prefix, depth, rules, j);
  }

  lemma {:induction false} MatchedRight(
    o: Options, a: seq<Node>, b: seq<Node>, prefix: string, depth: nat, rules: seq<Rule>, j: nat)
    requires AllReordered(a, b) && j < |b|
    ensures SomeWithin(PlanAt(o, b, j, prefix, depth, rules), o, a, prefix, depth, rules)
    decreases a, 0
  {
    assert IsCopy(b[j], a);
    var i :| 0 <= i < |a| && Reordered(a[i], b[j]);
    ReorderedPlans(o, a[i], b[j], prefix + a[i].name, depth, rules);
    ThisWithin(PlanAt(o, b, j, prefix, depth, rules), o, a, prefix, depth, rules, i);
  }

  ghost predicate SomeWithin(
    plan: Result<Plan, PlanError>, o: Options, nodes: seq<Node>, prefix: string, depth: nat, rules: seq<Rule>)
  {
    exists j :: 0 <= j < |nodes| && Within(plan, PlanAt(o, nodes, j, prefix, depth, rules))
  }

  lemma {:induction false} ThisWithin(
    plan: Result<Plan, PlanError>, o: Options, nodes: seq<Node>, prefix: string, depth: nat, rules: seq<Rule>, j: nat)
    requires j < |nodes| && Within(plan, PlanAt(o, nodes, j, prefix, depth, rules))
    ensures SomeWithin(plan, o, nodes, prefix, depth, rules)
  {
  }

  ghost predicate EachWithin(o: Options, a: seq<Node>, b: seq<Node>, prefix: string, depth: nat, rules: seq<Rule>) {
    forall i :: 0 <= i < |a| ==> SomeWithin(PlanAt(o, a, i, prefix, depth, rules), o, b, prefix, depth, rules)
  }

  lemma {:induction false} AllWithin(o: Options, a: seq<Node>, b: seq<Node>, prefix: string, depth: nat, rules: seq<Rule>)
    requires EachWithin(o, a, b, prefix, depth, rules)
    ensures Within(PlanNodes(o, a, prefix, depth, rules), PlanNodes(o, b, prefix, depth, rules))
  {
    var x, y := PlanNodes(o, a, prefix, depth, rules), PlanNodes(o, b, prefix, depth, rules);
    if y.Ok? {
      AllOk(o, a, b, prefix, depth, rules);
      forall e | e in x.value.entries ensures e in y.value.entries {
        CarriedOver(o, a, b, prefix, depth, rules, (Some(e), None));
      }
      forall e | e in x.value.excluded ensures e in y.value.excluded {
        CarriedOver(o, a, b, prefix, depth, rules, (None, Some(e)));
      }
    }
  }

  lemma {:induction false} AllOk(o: Options, a: seq<Node>, b: seq<Node>, prefix: string, depth: nat, rules: seq<Rule>)
    requires EachWithin(o, a, b, prefix, depth, rules) && PlanNodes(o, b, prefix, depth, rules).Ok?
    ensures PlanNodes(o, a, prefix, depth, rules).Ok?
  {
    PlanNodesOk(o, a, prefix, depth, rules);
    PlanNodesOk(o, b, prefix, depth, rules);
    forall i | 0 <= i < |a| ensures PlanAt(o, a, i, prefix, depth, rules).Ok? {
      var plan := PlanAt(o, a, i, prefix, depth, rules);
      assert SomeWithin(plan, o, b, prefix, depth, rules);
      var j :| 0 <= j < |b| && Within(plan, PlanAt(o, b, j, prefix, depth, rules));
      assert PlanAt(o, b, j, prefix, depth, rules).Ok?;
    }
  }

  lemma {:induction false} CarriedOver(
    o: Options, a: seq<Node>, b: seq<Node>, prefix: string, depth: nat, rules: seq<Rule>,
    item: (Option<Entry>, Option<Excluded>))
    requires EachWithin(o, a, b, prefix, depth, rules)
    requires PlanNodes(o, b, prefix, depth, rules).Ok? && (item.0.Some? <==> item.1.None?)
    requires GivenBy(PlanNodes(o, a, prefix, depth, rules), item)
    ensures GivenBy(PlanNodes(o, b, prefix, depth, rules), item)
  {
    var i := GivenByOne(o, a, prefix, depth, rules, item);
    var plan := PlanAt(o, a, i, prefix, depth, rules);
    assert SomeWithin(plan, o, b, prefix, depth, rules);
    var j :| 0 <= j < |b| && Within(plan, PlanAt(o, b, j, prefix, depth, rules));
    PlanNodesOk(o, b, prefix, depth, rules);
    assert PlanAt(o, b, j, prefix, depth, rules).Ok?;
    GivenByAll(o, b, prefix, depth, rules, item, j);
  }

  lemma {:induction false} RootsAreNodes(o: Options, roots: seq<Node>)
    requires forall i :: 0 <= i < |roots| ==> roots[i].name != ""
    ensures PlanRoots(o, roots) == PlanNodes(o, roots, "", 0, [])
  {
    if roots != [] {
      assert "" + roots[0].name == roots[0].name;
      RootsAreNodes(o, roots[1..]);
    }
  }

  lemma {:induction false} OnceEach<T>(s: seq<T>, x: T)
    requires forall i, j :: 0 <= i < j < |s| ==> s[i] != s[j]
    ensures multiset(s)[x] == if x in s then 1 else 0
    decreases |s|
  {
    if s != [] {
      assert s == [s[0]] + s[1..];
      assert multiset(s)[x] == multiset([s[0]])[x] + multiset(s[1..])[x];
      OnceEach(s[1..], x);
    }
  }

  lemma {:induction false} SameElements<T(!new)>(a: seq<T>, b: seq<T>)
    requires forall x :: x in a <==> x in b
    requires forall i, j :: 0 <= i < j < |a| ==> a[i] != a[j]
    requires forall i, j :: 0 <= i < j < |b| ==> b[i] != b[j]
    ensures multiset(a) == multiset(b) && forall x :: x in multiset(a) ==> multiset(a)[x] == 1
  {
    forall x ensures multiset(a)[x] == multiset(b)[x] <= 1 {
      OnceEach(a, x);
      OnceEach(b, x);
    }
  }

  lemma {:induction false} InsertEntryBytes(e: Entry, s: seq<Entry>)
    ensures EntryBytes(Insert(e, s, EntryPath)) == e.size + EntryBytes(s)
    decreases |s|
  {
    if s != [] {
      InsertEntryBytes(e, s[1..]);
    }
  }

  lemma {:induction false} SortEntryBytes(s: seq<Entry>)
    ensures EntryBytes(Sort(s, EntryPath)) == EntryBytes(s)
  {
    if s != [] {
      SortEntryBytes(s[1..]);
      InsertEntryBytes(s[0], Sort(s[1..], EntryPath));
    }
  }

  lemma {:induction false} InsertExcludedBytes(x: Excluded, s: seq<Excluded>)
    ensures ExcludedBytes(Insert(x, s, ExcludedPathOf)) == x.size + ExcludedBytes(s)
    decreases |s|
  {
    if s != [] {
      InsertExcludedBytes(x, s[1..]);
    }
  }

  lemma {:induction false} SortExcludedBytes(s: seq<Excluded>)
    ensures ExcludedBytes(Sort(s, ExcludedPathOf)) == ExcludedBytes(s)
  {
    if s != [] {
      SortExcludedBytes(s[1..]);
      InsertExcludedBytes(s[0], Sort(s[1..], ExcludedPathOf));
    }
  }

  lemma {:induction false} SameEntries(a: Plan, b: Plan)
    requires DistinctPaths(a) && DistinctPaths(b) && Alike(Ok(a), Ok(b))
    ensures Sort(a.entries, EntryPath) == Sort(b.entries, EntryPath)
  {
    SameElements(a.entries, b.entries);
    forall x, y | x in multiset(a.entries) && y in multiset(a.entries) && EntryPath(x) == EntryPath(y) ensures x == y {
      var i :| 0 <= i < |a.entries| && a.entries[i] == x;
      var j :| 0 <= j < |a.entries| && a.entries[j] == y;
      assert i == j;
    }
    SortAlike(a.entries, b.entries, EntryPath);
  }

  lemma {:induction false} SameExcluded(a: Plan, b: Plan)
    requires DistinctPaths(a) && DistinctPaths(b) && Alike(Ok(a), Ok(b))
    ensures Sort(a.excluded, ExcludedPathOf) == Sort(b.excluded, ExcludedPathOf)
  {
    SameElements(a.excluded, b.excluded);
    forall x, y | x in multiset(a.excluded) && y in multiset(a.excluded) && ExcludedPathOf(x) == ExcludedPathOf(y)
      ensures x == y
    {
      var i :| 0 <= i < |a.excluded| && a.excluded[i] == x;
      var j :| 0 <= j < |a.excluded| && a.excluded[j] == y;
      assert i == j;
    }
    SortAlike(a.excluded, b.excluded, ExcludedPathOf);
  }

  /** The order in which directories list their children, and in which the roots
      are given, has no effect on the manifest. */
  lemma {:induction false} OrderIndependence(o: Options, a: seq<Node>, b: seq<Node>)
    requires ValidNodes(a) && ValidNodes(b) && AllReordered(a, b)
    ensures ManifestOf(o, a).Ok? <==> ManifestOf(o, b).Ok?
    ensures ManifestOf(o, a).Ok? ==> ManifestOf(o, a) == ManifestOf(o, b)
  {
    RootsAreNodes(o, a);
    RootsAreNodes(o, b);
    AllReorderedPlans(o, a, b, "", 0, []);
    if PlanRoots(o, a).Ok? {
      var x, y := PlanRoots(o, a).value, PlanRoots(o, b).value;
      PlansPartition(o, a, "", 0, []);
      PlansPartition(o, b, "", 0, []);
      SameEntries(x, y);
      SameExcluded(x, y);
      SortEntryBytes(x.entries);
      SortEntryBytes(y.entries);
      SortExcludedBytes(x.excluded);
      SortExcludedBytes(y.excluded);
    }
  }

  // ----- explicit includes

  function LastName(path: string): string {
    var names := Split(path, SLASH);
    names[|names| - 1]
  }

  lemma {:induction false} ChildName(parent: string, name: string)
    requires '/' !in name
    ensures LastName(parent + "/" + name) == name
  {
    SplitConcat(parent, '/', name, SLASH);
    SplitFree(name, SLASH);
  }

  /** Finder metadata that no include reaches hides what lies below it. */
  ghost predicate Hides(o: Options, q: string) {
    !o.profile.Unrestricted? && LastName(q) == ".DS_Store" && !IsIncluded(o, q)
  }

  ghost predicate Hidden(o: Options, all: set<string>, p: string) {
    exists q :: q in all && IsBelow(p, q) && Hides(o, q)
  }

  /** A folder above an included path is walked unless it is hidden metadata. */
  lemma {:induction false} FolderAboveInclude(o: Options, path: string, name: string, rules: seq<Rule>, p: string)
    requires !o.respectGitignore && IsIncluded(o, p) && IsBelow(p, path) && name == LastName(path)
    ensures ExclusionReason(o, name, path, true, rules).Some? <==> Hides(o, path)
  {
    var i :| 0 <= i < |o.includePaths| && AtOrBelow(p, o.includePaths[i]);
    AtOrBelowComparable(p, path, o.includePaths[i]);
    assert AtOrBelow(path, o.includePaths[i]) ==> IsIncluded(o, path);
    assert IsBelow(o.includePaths[i], path) ==> HasIncludeBelow(o, path);
  }

  lemma {:induction false} IncludedChild(o: Options, node: Node, parent: string, depth: nat, rules: seq<Rule>, p: string)
    requires ValidNode(node) && !o.respectGitignore && depth > 0 && IsIncluded(o, p)
    requires PlanNode(o, node, parent + "/" + node.name, depth, rules).Ok? && p in Paths(node, parent + "/" + node.name)
    ensures p in Planned(PlanNode(o, node, parent + "/" + node.name, depth, rules).value) <==>
            !Hidden(o, Paths(node, parent + "/" + node.name), p)
    decreases node, 1
  {
    var path := parent + "/" + node.name;
    ChildName(parent, node.name);
    PathsAreBelow(node, path);
    if p == path {
      var plan := PlanNode(o, node, path, depth, rules).value;
      assert plan.entries[0].path == p && plan.entries[0] in plan.entries;
    } else {
      FolderAboveInclude(o, path, node.name, rules, p);
      if !Hides(o, path) {
        BelowFolderEntry(o, node, path, depth, rules, p);
        IncludedChildren(o, node.children, path, depth + 1, Extended(o, node, path, rules), p);
        assert Hidden(o, Paths(node, path), p) <==> Hidden(o, PathsOf(node.children, path + "/"), p);
      }
    }
  }

  /** Below a walked folder, what is planned is what its children plan. */
  lemma {:induction false} BelowFolderEntry(o: Options, node: Node, path: string, depth: nat, rules: seq<Rule>, p: string)
    requires node.Folder? && p != path && PlanNode(o, node, path, depth, rules).Ok?
    requires depth == 0 || ExclusionReason(o, node.name, path, true, rules).None?
    ensures var below := PlanNodes(o, node.children, path + "/", depth + 1, Extended(o, node, path, rules));
            && below.Ok?
            && (p in Planned(PlanNode(o, node, path, depth, rules).value) <==> p in Planned(below.value))
  {
    var below := PlanNodes(o, node.children, path + "/", depth + 1, Extended(o, node, path, rules)).value;
    var plan := PlanNode(o, node, path, depth, rules).value;
    assert plan.entries == [plan.entries[0]] + below.entries && plan.entries[0].path == path;
    assert forall e :: e in plan.entries <==> e == plan.entries[0] || e in below.entries;
  }

  lemma {:induction false} IncludedChildren(o: Options, nodes: seq<Node>, parent: string, depth: nat, rules: seq<Rule>, p: string)
    requires ValidNodes(nodes) && !o.respectGitignore && depth > 0 && IsIncluded(o, p)
    requires PlanNodes(o, nodes, parent + "/", depth, rules).Ok? && p in PathsOf(nodes, parent + "/")
    ensures p in Planned(PlanNodes(o, nodes, parent + "/", depth, rules).value) <==>
            !Hidden(o, PathsOf(nodes, parent + "/"), p)
    decreases nodes, 0
  {
    var first := PlanNode(o, nodes[0], parent + "/" + nodes[0].name, depth, rules).value;
    var rest := PlanNodes(o, nodes[1..], parent + "/", depth, rules).value;
    var all1, all2 := Paths(nodes[0], parent + "/" + nodes[0].name), PathsOf(nodes[1..], parent + "/");
    FirstApartFromRest(nodes, parent + "/");
    PlanPartitions(o, nodes[0], parent + "/" + nodes[0].name, depth, rules);
    PlansPartition(o, nodes[1..], parent + "/", depth, rules);
    PlannedByEither(first, rest, p);
    if p in all1 {
      IncludedChild(o, nodes[0], parent, depth, rules, p);
      HiddenOnOneSide(o, all1, all2, p);
    } else {
      IncludedChildren(o, nodes[1..], parent, depth, rules, p);
      HiddenOnOneSide(o, all2, all1, p);
      assert all1 + all2 == all2 + all1;
    }
  }

  lemma {:induction false} PlannedByEither(a: Plan, b: Plan, p: string)
    ensures p in Planned(Both(a, b)) <==> p in Planned(a) || p in Planned(b)
  {
    assert forall e :: e in Both(a, b).entries <==> e in a.entries || e in b.entries;
  }

  lemma {:induction false} HiddenOnOneSide(o: Options, mine: set<string>, other: set<string>, p: string)
    requires p in mine && (Separate(mine, other) || Separate(other, mine))
    ensures p !in other && (Hidden(o, mine + other, p) <==> Hidden(o, mine, p))
  {
    assert AtOrBelow(p, p);
    forall q | q in other ensures !AtOrBelow(p, q) {
    }
  }

  /** Explicit includes win: without gitignore rules, an existing node at or below
      an include path is planned exactly when no directory above it, other than
      the root, is a `.DS_Store` that no include reaches. */
  lemma {:induction false} ExplicitIncludesWin(o: Options, root: Node, p: string)
    requires ValidNode(root) && !o.respectGitignore && IsIncluded(o, p)
    requires PlanNode(o, root, root.name, 0, []).Ok? && p in Paths(root, root.name)
    ensures p in Planned(PlanNode(o, root, root.name, 0, []).value) <==>
            !Hidden(o, Paths(root, root.name) - {root.name}, p)
  {
    PathsAreBelow(root, root.name);
    if p == root.name {
      var plan := PlanNode(o, root, root.name, 0, []).value;
      assert plan.entries[0].path == p && plan.entries[0] in plan.entries;
    } else {
      BelowFolderEntry(o, root, root.name, 0, [], p);
      IncludedChildren(o, root.children, root.name, 1, Extended(o, root, root.name, []), p);
      assert Paths(root, root.name) - {root.name} == PathsOf(root.children, root.name + "/");
    }
  }

  // ----- gitignore pruning over the walk

  /** The rules on the stack when the walk reaches `q`. */
  function RulesAt(o: Options, node: Node, path: string, rules: seq<Rule>, q: string): seq<Rule>
    decreases node, 1
  {
    if q == path || !node.Folder? then rules
    else RulesAmong(o, node.children, path + "/", Extended(o, node, path, rules), q)
  }

  function RulesAmong(o: Options, nodes: seq<Node>, prefix: string, rules: seq<Rule>, q: string): seq<Rule>
    decreases nodes, 0
  {
    if nodes == [] then rules
    else if AtOrBelow(q, prefix + nodes[0].name) then RulesAt(o, nodes[0], prefix + nodes[0].name, rules, q)
    else RulesAmong(o, nodes[1..], prefix, rules, q)
  }

  ghost predicate PrunedAt(o: Options, rules: seq<Rule>, q: string) {
    BasesAbove(rules, q) && Pruned(q, rules)
  }

  lemma {:induction false} ExtendedBases(o: Options, node: Node, path: string, rules: seq<Rule>, name: string)
    requires node.Folder? && BasesAbove(rules, path)
    ensures BasesAbove(Extended(o, node, path, rules), path + "/" + name)
  {
    var deeper, child := Extended(o, node, path, rules), path + "/" + name;
    BelowFolder(child, path, name);
    forall i | 0 <= i < |deeper| ensures IsBelow(child, deeper[i].base) {
      if i < |rules| {
        BelowIsTransitive(child, path, rules[i].base);
      } else {
        assert deeper[i] in ParseRules(node.ignoreLines, path);
      }
    }
  }

  lemma {:induction false} IgnoredIsPruned(
    o: Options, node: Node, path: string, depth: nat, rules: seq<Rule>, x: Excluded, p: string)
    requires ValidNode(node) && BasesAbove(rules, path) && PlanNode(o, node, path, depth, rules).Ok?
    requires x in PlanNode(o, node, path, depth, rules).value.excluded && x.reason.GitIgnored?
    requires p in Paths(node, path) && IsBelow(p, x.path)
    ensures PrunedAt(o, RulesAt(o, node, path, rules, x.path), x.path)
    decreases node, 1
  {
    PathsAreBelow(node, path);
    if depth > 0 && ExclusionReason(o, node.name, path, node.Folder?, rules).Some? {
      assert x.path == path;
    } else {
      var deeper := Extended(o, node, path, rules);
      PlansPartition(o, node.children, path + "/", depth + 1, deeper);
      assert x.path in Skipped(PlanNodes(o, node.children, path + "/", depth + 1, deeper).value);
      assert IsBelow(x.path, path) && p != path;
      forall i | 0 <= i < |node.children| ensures BasesAbove(deeper, path + "/" + node.children[i].name) {
        ExtendedBases(o, node, path, rules, node.children[i].name);
      }
      IgnoredAmongIsPruned(o, node.children, path + "/", depth + 1, deeper, x, p);
    }
  }

  lemma {:induction false} IgnoredAmongIsPruned(
    o: Options, nodes: seq<Node>, prefix: string, depth: nat, rules: seq<Rule>, x: Excluded, p: string)
    requires ValidNodes(nodes) && PlanNodes(o, nodes, prefix, depth, rules).Ok?
    requires forall i :: 0 <= i < |nodes| ==> BasesAbove(rules, prefix + nodes[i].name)
    requires x in PlanNodes(o, nodes, prefix, depth, rules).value.excluded && x.reason.GitIgnored?
    requires p in PathsOf(nodes, prefix) && IsBelow(p, x.path)
    ensures PrunedAt(o, RulesAmong(o, nodes, prefix, rules, x.path), x.path)
    decreases nodes, 0
  {
    var path := prefix + nodes[0].name;
    var first := PlanNode(o, nodes[0], path, depth, rules).value;
    WhoseExclusion(o, nodes, prefix, depth, rules, x, p);
    if x in first.excluded {
      IgnoredIsPruned(o, nodes[0], path, depth, rules, x, p);
    } else {
      assert forall i :: 0 <= i < |nodes[1..]| ==> nodes[1..][i] == nodes[i + 1];
      IgnoredAmongIsPruned(o, nodes[1..], prefix, depth, rules, x, p);
    }
  }

  /** An excluded path and what lies below it belong to the same sibling. */
  lemma {:induction false} WhoseExclusion(o: Options, nodes: seq<Node>, prefix: string, depth: nat, rules: seq<Rule>, x: Excluded, p: string)
    requires ValidNodes(nodes) && nodes != [] && PlanNodes(o, nodes, prefix, depth, rules).Ok?
    requires x in PlanNodes(o, nodes, prefix, depth, rules).value.excluded
    requires p in PathsOf(nodes, prefix) && IsBelow(p, x.path)
    ensures var path := prefix + nodes[0].name;
            if x in PlanNode(o, nodes[0], path, depth, rules).value.excluded
            then AtOrBelow(x.path, path) && p in Paths(nodes[0], path)
            else
              && x in PlanNodes(o, nodes[1..], prefix, depth, rules).value.excluded
              && !AtOrBelow(x.path, path) && p in PathsOf(nodes[1..], prefix)
  {
    var path := prefix + nodes[0].name;
    var all1, all2 := Paths(nodes[0], path), PathsOf(nodes[1..], prefix);
    FirstApartFromRest(nodes, prefix);
    PathsAreBelow(nodes[0], path);
    assert path in all1;
    if x in PlanNode(o, nodes[0], path, depth, rules).value.excluded {
      PlanPartitions(o, nodes[0], path, depth, rules);
      assert x.path in Skipped(PlanNode(o, nodes[0], path, depth, rules).value);
      assert x.path in all1;
    } else {
      PlansPartition(o, nodes[1..], prefix, depth, rules);
      assert x.path in Skipped(PlanNodes(o, nodes[1..], prefix, depth, rules).value);
      assert x.path in all2;
    }
  }

  /** Walking loses nothing by pruning: whatever lies below a directory that the
      walk dropped because of gitignore is ignored by the rules in force there. */
  lemma {:induction false} PrunedNodesAreIgnored(o: Options, root: Node, x: Excluded, p: string, isDirectory: bool)
    requires ValidNode(root) && PlanNode(o, root, root.name, 0, []).Ok?
    requires x in PlanNode(o, root, root.name, 0, []).value.excluded && x.reason.GitIgnored?
    requires p in Paths(root, root.name) && IsBelow(p, x.path)
    ensures var rules := RulesAt(o, root, root.name, [], x.path);
            && BasesAbove(rules, x.path) && Pruned(x.path, rules)
            && (Settled(x.path, rules, isDirectory) ==>
                  Decision(p, isDirectory, rules).Some? && Decision(p, isDirectory, rules).value.ignored)
  {
    var rules := RulesAt(o, root, root.name, [], x.path);
    IgnoredIsPruned(o, root, root.name, 0, [], x, p);
    if Settled(x.path, rules, isDirectory) {
      SplitFree(root.name, SLASH);
      PathsHaveNoEmptySegment(root, root.name, p);
      PruningIsSound(rules, x.path, p, isDirectory);
    }
  }

  lemma {:induction false} ExtendNoEmptySegment(path: string, name: string)
    requires NoEmptySegment(path) && name != "" && '/' !in name
    ensures NoEmptySegment(path + "/" + name)
  {
    SplitConcat(path, '/', name, SLASH);
    SplitFree(name, SLASH);
  }

  lemma {:induction false} PathsHaveNoEmptySegment(node: Node, path: string, p: string)
    requires ValidNode(node) && NoEmptySegment(path) && p in Paths(node, path)
    ensures NoEmptySegment(p)
    decreases node, 1
  {
    if p != path {
      PathsOfHaveNoEmptySegment(node.children, path, p);
    }
  }

  lemma {:induction false} PathsOfHaveNoEmptySegment(nodes: seq<Node>, path: string, p: string)
    requires ValidNodes(nodes) && NoEmptySegment(path) && p in PathsOf(nodes, path + "/")
    ensures NoEmptySegment(p)
    decreases nodes, 0
  {
    if p in Paths(nodes[0], path + "/" + nodes[0].name) {
      ExtendNoEmptySegment(path, nodes[0].name);
      PathsHaveNoEmptySegment(nodes[0], path + "/" + nodes[0].name, p);
    } else {
      PathsOfHaveNoEmptySegment(nodes[1..], path, p);
    }
  }
}
