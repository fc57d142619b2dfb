/** Golden-set derivation and scoring (internal/ctxaccuracy/accuracy.go). Graph
    readers are maps; a read of a node in `failing` is an error. */
module Accuracy {
  import opened Wrappers
  import opened Sorting

  const NIL: nat := 0

  /** Parents of a node, in the reader's order; none for an unknown node. */
  datatype Graph = Graph(parents: map<nat, seq<nat>>, failing: set<nat>)

  function ParentsOf(g: Graph, x: nat): seq<nat> { if x in g.parents then g.parents[x] else [] }

  predicate StepsTo(g: Graph, a: nat, b: nat) { b != NIL && b in ParentsOf(g, a) }

  /** A walk along non-nil parents. */
  ghost predicate Path(g: Graph, p: seq<nat>) {
    p != [] && forall k :: 0 <= k < |p| - 1 ==> StepsTo(g, p[k], p[k + 1])
  }

  ghost predicate PathFromTo(g: Graph, p: seq<nat>, a: nat, b: nat) { Path(g, p) && p[0] == a && p[|p| - 1] == b }

  ghost predicate Reachable(g: Graph, a: nat, b: nat) { exists p :: PathFromTo(g, p, a, b) }

  lemma ReachSelf(g: Graph, a: nat)
    ensures Reachable(g, a, a)
  {
    assert PathFromTo(g, [a], a, a);
  }

  lemma ReachStep(g: Graph, a: nat, b: nat, c: nat)
    requires Reachable(g, a, b) && StepsTo(g, b, c)
    ensures Reachable(g, a, c)
  {
    var p :| PathFromTo(g, p, a, b);
    assert PathFromTo(g, p + [c], a, c);
  }

  /** A set that holds the start and is closed under parents holds all it reaches. */
  lemma {:induction false} ClosedHolds(g: Graph, s: seq<nat>, a: nat, b: nat, p: seq<nat>)
    requires a in s && PathFromTo(g, p, a, b)
    requires forall x, y :: x in s && StepsTo(g, x, y) ==> y in s
    ensures b in s
    decreases |p|
  {
    if |p| > 1 {
      var front := p[..|p| - 1];
      assert PathFromTo(g, front, a, p[|p| - 2]);
      ClosedHolds(g, s, a, p[|p| - 2], front);
      assert StepsTo(g, p[|p| - 2], p[|p| - 2 + 1]);
    }
  }

  /** Every id the walk can meet. */
  ghost function Universe(g: Graph, a: nat): set<nat> { {a} + set x, y | x in g.parents && y in g.parents[x] :: y }

  lemma {:induction false} DistinctFits(s: seq<nat>, u: set<nat>)
    requires NoDuplicates(s) && forall x :: x in s ==> x in u
    ensures |s| <= |u|
  {
    if s != [] {
      var last := s[|s| - 1];
      DistinctFits(s[..|s| - 1], u - {last});
    }
  }

  /** The queue so far: distinct, reachable, and closed for the nodes already
      expanded. */
  ghost predicate Walking(g: Graph, target: nat, queue: seq<nat>, seen: set<nat>, head: nat) {
    && head <= |queue| && queue != [] && queue[0] == target && NoDuplicates(queue)
    && (forall x :: x in seen <==> x in queue)
    && (forall x :: x in queue ==> Reachable(g, target, x) && x in Universe(g, target))
    && (forall k :: 0 <= k < head ==> queue[k] !in g.failing)
    && (forall k, y :: 0 <= k < head && StepsTo(g, queue[k], y) ==> y in queue)
  }

  method Expand(g: Graph, target: nat, queue0: seq<nat>, seen0: set<nat>, head: nat)
    returns (queue: seq<nat>, seen: set<nat>)
    requires Walking(g, target, queue0, seen0, head) && head < |queue0| && queue0[head] !in g.failing
    ensures Walking(g, target, queue, seen, head + 1)
  {
    queue, seen := queue0, seen0;
    var parents := ParentsOf(g, queue[head]);
    for j := 0 to |parents|
      invariant Walking(g, target, queue, seen, head) && head < |queue| && queue[head] == queue0[head]
      invariant forall k :: 0 <= k < j && parents[k] != NIL ==> parents[k] in queue
    {
      var parent := parents[j];
      if parent != NIL && parent !in seen {
        ReachStep(g, target, queue[head], parent);
        seen := seen + {parent};
        queue := queue + [parent];
      }
    }
  }

  /** Breadth-first over edge parents: terminates on every graph, cyclic or not; the
      result lists every reachable node once, and a read error is reported exactly
      when some reachable node fails to read. */
  method WalkEdges(g: Graph, target: nat) returns (r: Option<seq<nat>>)
    ensures r.Some? ==> NoDuplicates(r.value) && forall x :: x in r.value <==> Reachable(g, target, x)
    ensures r.None? <==> exists x :: x in g.failing && Reachable(g, target, x)
  {
    hide Universe, Path;
    var seen, queue := {target}, [target];
    ReachSelf(g, target);
    InUniverse(g, target);
    var head := 0;
    while head < |queue|
      invariant Walking(g, target, queue, seen, head)
      decreases |Universe(g, target)| - head
    {
      DistinctFits(queue, Universe(g, target));
      if queue[head] in g.failing {
        assert Reachable(g, target, queue[head]);
        return None;
      }
      queue, seen := Expand(g, target, queue, seen, head);
      head := head + 1;
    }
    forall x | Reachable(g, target, x) ensures x in queue { Covered(g, target, queue, seen, x); }
    return Some(queue);
  }

  lemma InUniverse(g: Graph, target: nat)
    ensures target in Universe(g, target)
  {
  }

  lemma Covered(g: Graph, target: nat, queue: seq<nat>, seen: set<nat>, x: nat)
    requires Walking(g, target, queue, seen, |queue|) && Reachable(g, target, x)
    ensures x in queue
  {
    var p :| PathFromTo(g, p, target, x);
    forall a, b | a in queue && StepsTo(g, a, b) ensures b in queue {
      var k :| 0 <= k < |queue| && queue[k] == a;
    }
    ClosedHolds(g, queue, target, x, p);
  }

  /** The parent_id column; a read of a node in `failing` is an error. */
  datatype Parents = Parents(of: map<nat, nat>, failing: set<nat>)

  /** Its single-parent graph: an unknown node has no parent. */
  function ParentGraph(p: Parents): Graph { Graph(map x | x in p.of :: [p.of[x]], p.failing) }

  function ParentOf(p: Parents, x: nat): nat { if x in p.of then p.of[x] else NIL }

  /** The parent chain up to the root or the first repeat: exactly what the
      single-parent graph reaches, in order, each node once. It fails exactly when
      one of these cannot be read. */
  method WalkParentId(parent: Parents, target: nat) returns (r: Option<seq<nat>>)
    ensures r.None? <==> exists x :: x in parent.failing && Reachable(ParentGraph(parent), target, x)
    ensures r.Some? ==>
      && NoDuplicates(r.value) && r.value != [] && r.value[0] == target
      && (forall k :: 0 <= k < |r.value| - 1 ==> r.value[k + 1] == ParentOf(parent, r.value[k]))
      && forall x :: x in r.value <==> Reachable(ParentGraph(parent), target, x)
  {
    hide Universe, Path;
    ghost var g := ParentGraph(parent);
    var seen := {target};
    var nodes, current := [target], target;
    ReachSelf(g, target);
    InUniverse(g, target);
    while true
      invariant Walking(g, target, nodes, seen, |nodes| - 1) && current == nodes[|nodes| - 1]
      invariant forall k :: 0 <= k < |nodes| - 1 ==> nodes[k + 1] == ParentOf(parent, nodes[k])
      invariant forall k :: 0 <= k < |nodes| - 1 ==> nodes[k] !in parent.failing
      decreases |Universe(g, target)| - |nodes|
    {
      DistinctFits(nodes, Universe(g, target));
      if current in parent.failing {
        assert Reachable(g, target, current);
        return None;
      }
      var next := ParentOf(parent, current);
      if next == NIL || next in seen { break; }
      ReachStep(g, target, current, next);
      ghost var before := nodes;
      seen := seen + {next};
      nodes := nodes + [next];
      ParentInUniverse(parent, target, current);
      DistinctFits(nodes, Universe(g, target));
      current := next;
    }
    forall x | Reachable(g, target, x) ensures x in nodes { Covered(g, target, nodes, seen, x); }
    return Some(nodes);
  }

  lemma ParentInUniverse(parent: Parents, target: nat, x: nat)
    requires x in parent.of
    ensures parent.of[x] in Universe(ParentGraph(parent), target)
  {
    var g := ParentGraph(parent);
    assert g.parents[x] == [parent.of[x]];
    assert x in g.parents && parent.of[x] in g.parents[x];
  }

  // --- Golden entries -------------------------------------------------------------

  /** First occurrences of the non-nil ids, in list order. */
  function Firsts(ids: seq<nat>): seq<nat>
  {
    if ids == [] then [] else
      var front, last := Firsts(ids[..|ids| - 1]), ids[|ids| - 1];
      if last == NIL || last in front then front else front + [last]
  }

  /** They stand in the order in which the ids first occur. */
  lemma {:induction false} FirstsInOrder(ids: seq<nat>, i: nat, j: nat) returns (p: nat)
    requires i < j < |Firsts(ids)|
    ensures p < |ids| && ids[p] == Firsts(ids)[i] && Firsts(ids)[j] !in ids[..p + 1]
  {
    var front, n := Firsts(ids[..|ids| - 1]), |ids| - 1;
    if j < |front| {
      p := FirstsInOrder(ids[..n], i, j);
      assert ids[..n][..p + 1] == ids[..p + 1];
    } else {
      FirstsElements(ids[..n]);
      assert front[i] in ids[..n];
      p :| 0 <= p < n && ids[..n][p] == front[i];
      assert ids[n] !in ids[..p + 1] by {
        assert forall k :: 0 <= k <= p ==> ids[k] in ids[..n];
      }
    }
  }

  lemma {:induction false} FirstsElements(ids: seq<nat>)
    ensures forall x :: x in Firsts(ids) <==> x in ids && x != NIL
  {
    if ids != [] {
      FirstsElements(ids[..|ids| - 1]);
      assert ids == ids[..|ids| - 1] + [ids[|ids| - 1]];
    }
  }

  method Unique(ids: seq<nat>) returns (r: seq<nat>)
    ensures r == Firsts(ids)
    ensures NoDuplicates(r) && forall x :: x in r <==> x in ids && x != NIL
    ensures |r| == |IdSet(ids)|
  {
    hide NoDuplicates, IdSet;
    FirstsElements(ids);
    FirstsDistinct(ids);
    FirstsCount(ids);
    r := [];
    var seen: set<nat> := {};
    for i := 0 to |ids|
      invariant r == Firsts(ids[..i]) && forall x :: x in seen <==> x in r
    {
      assert ids[..i + 1][..i] == ids[..i];
      if ids[i] != NIL && ids[i] !in seen {
        seen := seen + {ids[i]};
        r := r + [ids[i]];
      }
    }
    assert ids[..|ids|] == ids;
  }

  lemma {:induction false} FirstsDistinct(ids: seq<nat>)
    ensures NoDuplicates(Firsts(ids))
  {
    if ids != [] { FirstsDistinct(ids[..|ids| - 1]); }
  }

  lemma {:induction false} FirstsCount(ids: seq<nat>)
    ensures |Firsts(ids)| == |IdSet(ids)|
  {
    if ids == [] {
      assert IdSet(ids) == {};
    } else {
      var front, last := ids[..|ids| - 1], ids[|ids| - 1];
      FirstsCount(front);
      FirstsElements(front);
      assert ids == front + [last];
      assert last != NIL ==> (last in IdSet(front) <==> last in Firsts(front));
      assert IdSet(ids) == IdSet(front) + if last == NIL || last in Firsts(front) then {} else {last};
    }
  }

  method Difference(ids: seq<nat>, excluded: seq<nat>) returns (r: seq<nat>)
    ensures forall x :: x in r <==> x in ids && x !in excluded
    ensures NoDuplicates(ids) ==> NoDuplicates(r)
  {
    var blocked := set x | x in excluded;
    r := [];
    for i := 0 to |ids|
      invariant forall x :: x in r <==> x in ids[..i] && x !in excluded
      invariant NoDuplicates(ids) ==> NoDuplicates(r)
    {
      assert ids[..i + 1] == ids[..i] + [ids[i]];
      if ids[i] !in blocked {
        assert NoDuplicates(ids) ==> ids[i] !in ids[..i];
        r := r + [ids[i]];
      }
    }
    assert ids[..|ids|] == ids;
  }

  datatype Golden = Golden(nodes: seq<nat>, topics: seq<nat>, edgeOnly: seq<nat>, isRoot: bool, rootFallback: bool)

  ghost predicate ReadFails(g: Graph, target: nat) { exists x :: x in g.failing && Reachable(g, target, x) }

  /** The expected nodes are the parent chain, the edge-only ancestors the non-nil nodes
      the edges reach and the chain does not. Any failed read fails the entry. */
  method DeriveEntry(parent: Parents, g: Graph, topics: Option<seq<nat>>, target: nat, isRoot: bool, rootFallback: bool)
    returns (r: Option<Golden>)
    ensures r.None? <==> ReadFails(ParentGraph(parent), target) || ReadFails(g, target) || topics.None?
    ensures r.Some? ==>
      var e := r.value;
      && NoDuplicates(e.nodes) && NoDuplicates(e.edgeOnly) && NoDuplicates(e.topics)
      && (forall x :: x in e.nodes <==> x != NIL && Reachable(ParentGraph(parent), target, x))
      && (forall x :: x in e.edgeOnly <==>
           x != NIL && Reachable(g, target, x) && !Reachable(ParentGraph(parent), target, x))
      && (forall x :: x in e.topics <==> x != NIL && x in topics.value)
      && e.isRoot == isRoot && e.rootFallback == rootFallback
  {
    hide Reachable;
    var chain := WalkParentId(parent, target);
    if chain.None? { return None; }
    var reached := WalkEdges(g, target);
    if reached.None? || topics.None? { return None; }
    var expected := Unique(chain.value);
    var edgeNodes := Unique(reached.value);
    var edgeOnly := Difference(edgeNodes, expected);
    var topicIds := Unique(topics.value);
    return Some(Golden(expected, topicIds, edgeOnly, isRoot, rootFallback));
  }

  // --- Scores ------------------------------------------------------------------------

  /** The ids a compiled manifest selected. */
  datatype Manifest = Manifest(nodes: set<nat>, topics: set<nat>)

  datatype Samples = Samples(roots: nat, nonroots: nat, depthScored: nat, rootFallback: bool, edgeOnly: nat)

  /** Misses and extras of one entry; the source also lists nodes and topics together. */
  datatype EntryScore = EntryScore(missingNodes: seq<nat>, missingTopics: seq<nat>, extraNodes: seq<nat>,
                                   extraTopics: seq<nat>, edgeOnly: seq<nat>)

  datatype Score = Score(nodeHit: nat, nodeMiss: nat, nodeExtra: nat, topicHit: nat, topicMiss: nat, accuracy: real,
                         samples: Samples, warning: bool, perEntry: seq<(nat, EntryScore)>)

  /** The distinct non-nil ids of a list. */
  function IdSet(ids: seq<nat>): set<nat> { set x | x in ids && x != NIL }

  function NodesOf(m: Option<Manifest>): set<nat> { if m.Some? then m.value.nodes else {} }

  function TopicsOf(m: Option<Manifest>): set<nat> { if m.Some? then m.value.topics else {} }

  /** Missing compiled results count as empty. */
  function CompiledAt(compiled: seq<Option<Manifest>>, i: nat): Option<Manifest> {
    if i < |compiled| then compiled[i] else None
  }

  /** Expected ids, summed over the first n entries; `hits` keeps those selected. */
  function Expected(golden: seq<Golden>, compiled: seq<Option<Manifest>>, n: nat, nodes: bool, hits: bool): nat
    requires n <= |golden|
  {
    if n == 0 then 0 else
      var ids := IdSet(if nodes then golden[n - 1].nodes else golden[n - 1].topics);
      var m := CompiledAt(compiled, n - 1);
      var chosen := if nodes then NodesOf(m) else TopicsOf(m);
      Expected(golden, compiled, n - 1, nodes, hits) + if hits then |ids * chosen| else |ids|
  }

  /** Ids the manifests selected, summed over the first n entries. */
  function SelectedNodes(compiled: seq<Option<Manifest>>, n: nat): nat
  {
    if n == 0 then 0 else SelectedNodes(compiled, n - 1) + |NodesOf(CompiledAt(compiled, n - 1))|
  }

  /** The entries among the first n that are roots, or whose expected nodes are the
      target alone. */
  ghost function Roots(golden: seq<Golden>, n: nat): set<nat>
    requires n <= |golden|
  {
    set i | 0 <= i < n && (golden[i].isRoot || |golden[i].nodes| <= 1)
  }

  /** The entries among the first n that expect a node beside the target. */
  ghost function Deep(golden: seq<Golden>, n: nat): set<nat>
    requires n <= |golden|
  {
    set i | 0 <= i < n && |golden[i].nodes| > 1
  }

  lemma RootsStep(golden: seq<Golden>, n: nat)
    requires n < |golden|
    ensures |Roots(golden, n + 1)| ==
      |Roots(golden, n)| + if golden[n].isRoot || |golden[n].nodes| <= 1 then 1 else 0
  {
    if golden[n].isRoot || |golden[n].nodes| <= 1 {
      assert Roots(golden, n + 1) == Roots(golden, n) + {n};
    } else {
      assert Roots(golden, n + 1) == Roots(golden, n);
    }
  }

  lemma DeepStep(golden: seq<Golden>, n: nat)
    requires n < |golden|
    ensures |Deep(golden, n + 1)| == |Deep(golden, n)| + if |golden[n].nodes| > 1 then 1 else 0
  {
    if |golden[n].nodes| > 1 {
      assert Deep(golden, n + 1) == Deep(golden, n) + {n};
    } else {
      assert Deep(golden, n + 1) == Deep(golden, n);
    }
  }

  function EdgeOnlyIds(golden: seq<Golden>, n: nat): nat
    requires n <= |golden|
  {
    if n == 0 then 0 else EdgeOnlyIds(golden, n - 1) + |IdSet(golden[n - 1].edgeOnly)|
  }

  function Elements(s: seq<nat>): set<nat> { set x | x in s }

  lemma ElementsSnoc(s: seq<nat>, x: nat, chosen: set<nat>)
    requires x !in s
    ensures |Elements(s + [x])| == |Elements(s)| + 1
    ensures |Elements(s + [x]) * chosen| == |Elements(s) * chosen| + (if x in chosen then 1 else 0)
  {
    assert Elements(s + [x]) == Elements(s) + {x};
    if x in chosen {
      assert Elements(s + [x]) * chosen == Elements(s) * chosen + {x};
    } else {
      assert Elements(s + [x]) * chosen == Elements(s) * chosen;
    }
  }

  lemma TallyStep(ids: seq<nat>, i: nat, chosen: set<nat>)
    requires NoDuplicates(ids) && i < |ids|
    ensures |Elements(ids[..i + 1])| == |Elements(ids[..i])| + 1
    ensures |Elements(ids[..i + 1]) * chosen| == |Elements(ids[..i]) * chosen| + (if ids[i] in chosen then 1 else 0)
  {
    hide Elements;
    assert ids[..i + 1] == ids[..i] + [ids[i]];
    ElementsSnoc(ids[..i], ids[i], chosen);
  }

  /** Hits and misses of one list against a selection. */
  method Tally(expected: seq<nat>, chosen: set<nat>) returns (hit: nat, miss: nat)
    ensures hit == |IdSet(expected) * chosen| && hit + miss == |IdSet(expected)|
  {
    var ids := Unique(expected);
    assert Elements(ids) == IdSet(expected);
    hide Elements, IdSet, NoDuplicates;
    hit, miss := 0, 0;
    NoElements(chosen);
    for i := 0 to |ids|
      invariant hit == |Elements(ids[..i]) * chosen| && hit + miss == |Elements(ids[..i])|
    {
      TallyStep(ids, i, chosen);
      if ids[i] in chosen { hit := hit + 1; } else { miss := miss + 1; }
    }
    assert ids[..|ids|] == ids;
  }

  lemma NoElements(chosen: set<nat>)
    ensures |Elements([])| == 0 && |Elements([]) * chosen| == 0
  {
    assert Elements([]) == {} && Elements([]) * chosen == {};
  }

  lemma {:induction false} RisingSize(s: seq<nat>)
    requires RisingIds(s)
    ensures |Elements(s)| == |s|
  {
    if s != [] {
      var front, last := s[..|s| - 1], s[|s| - 1];
      RisingSize(front);
      assert s == front + [last];
      assert forall x :: x in front ==> x < last;
      assert Elements(s) == Elements(front) + {last};
    }
  }

  /** Selected ids that were not expected: all but the hits. */
  method CountExtra(expected: seq<nat>, chosen: set<nat>) returns (extra: nat)
    ensures extra + |IdSet(expected) * chosen| == |chosen|
  {
    var ids := Unique(expected);
    var r := Extras(ids, chosen);
    extra := |r|;
    RisingSize(r);
    assert Elements(r) == chosen - IdSet(expected);
    assert chosen == (chosen - IdSet(expected)) + IdSet(expected) * chosen;
  }

  method CountHits(golden: seq<Golden>, compiled: seq<Option<Manifest>>)
    returns (nodeHit: nat, nodeMiss: nat, nodeExtra: nat, topicHit: nat, topicMiss: nat)
    ensures nodeHit == Expected(golden, compiled, |golden|, true, true)
    ensures topicHit == Expected(golden, compiled, |golden|, false, true)
    ensures nodeHit + nodeMiss == Expected(golden, compiled, |golden|, true, false)
    ensures topicHit + topicMiss == Expected(golden, compiled, |golden|, false, false)
    ensures nodeHit + nodeExtra == SelectedNodes(compiled, |golden|)
  {
    hide IdSet;
    nodeHit, nodeMiss, nodeExtra, topicHit, topicMiss := 0, 0, 0, 0, 0;
    for i := 0 to |golden|
      invariant nodeHit == Expected(golden, compiled, i, true, true)
      invariant topicHit == Expected(golden, compiled, i, false, true)
      invariant nodeHit + nodeMiss == Expected(golden, compiled, i, true, false)
      invariant topicHit + topicMiss == Expected(golden, compiled, i, false, false)
      invariant nodeHit + nodeExtra == SelectedNodes(compiled, i)
    {
      var m: Option<Manifest> := None;
      if i < |compiled| { m := compiled[i]; }
      var hit, miss := Tally(golden[i].nodes, NodesOf(m));
      var extra := CountExtra(golden[i].nodes, NodesOf(m));
      nodeHit, nodeMiss, nodeExtra := nodeHit + hit, nodeMiss + miss, nodeExtra + extra;
      hit, miss := Tally(golden[i].topics, TopicsOf(m));
      topicHit, topicMiss := topicHit + hit, topicMiss + miss;
    }
  }

  /** Every entry is a root sample or a non-root one. */
  method CountSamples(golden: seq<Golden>) returns (s: Samples)
    ensures s.roots == |Roots(golden, |golden|)| && s.roots + s.nonroots == |golden|
    ensures s.depthScored == |Deep(golden, |golden|)|
    ensures s.depthScored == 0 <==> forall i :: 0 <= i < |golden| ==> |golden[i].nodes| <= 1
    ensures s.rootFallback <==> exists i :: 0 <= i < |golden| && golden[i].rootFallback
    ensures s.edgeOnly == EdgeOnlyIds(golden, |golden|)
  {
    s := Samples(0, 0, 0, false, 0);
    for i := 0 to |golden|
      invariant s.roots == |Roots(golden, i)| && s.roots + s.nonroots == i
      invariant s.depthScored == |Deep(golden, i)|
      invariant s.depthScored == 0 <==> forall j :: 0 <= j < i ==> |golden[j].nodes| <= 1
      invariant s.rootFallback <==> exists j :: 0 <= j < i && golden[j].rootFallback
      invariant s.edgeOnly == EdgeOnlyIds(golden, i)
    {
      RootsStep(golden, i);
      DeepStep(golden, i);
      var g := golden[i];
      if g.isRoot || |g.nodes| <= 1 { s := s.(roots := s.roots + 1); } else { s := s.(nonroots := s.nonroots + 1); }
      if |g.nodes| > 1 { s := s.(depthScored := s.depthScored + 1); }
      if g.rootFallback { s := s.(rootFallback := true); }
      var edgeOnly := Unique(g.edgeOnly);
      s := s.(edgeOnly := s.edgeOnly + |edgeOnly|);
    }
  }

  /** The ids of a list that were not selected, in list order. */
  function Without(ids: seq<nat>, chosen: set<nat>): seq<nat>
  {
    if ids == [] then [] else
      var last := ids[|ids| - 1];
      Without(ids[..|ids| - 1], chosen) + if last in chosen then [] else [last]
  }

  /** Nothing else is left out, and what is left keeps its order. */
  lemma {:induction false} WithoutFacts(ids: seq<nat>, chosen: set<nat>) returns (at: seq<nat>)
    ensures |at| == |Without(ids, chosen)|
    ensures forall k :: 0 <= k < |at| ==> at[k] < |ids| && Without(ids, chosen)[k] == ids[at[k]]
    ensures forall j, k :: 0 <= j < k < |at| ==> at[j] < at[k]
    ensures forall x :: x in Without(ids, chosen) <==> x in ids && x !in chosen
  {
    at := [];
    if ids != [] {
      var n := |ids| - 1;
      at := WithoutFacts(ids[..n], chosen);
      assert ids == ids[..n] + [ids[n]];
      if ids[n] !in chosen { at := at + [n]; }
    }
  }

  method Missing(ids: seq<nat>, chosen: set<nat>) returns (r: seq<nat>)
    ensures r == Without(ids, chosen)
  {
    r := [];
    for i := 0 to |ids|
      invariant r == Without(ids[..i], chosen)
    {
      assert ids[..i + 1][..i] == ids[..i];
      if ids[i] !in chosen { r := r + [ids[i]]; }
    }
    assert ids[..|ids|] == ids;
  }

  /** Ids in rising order of their text, for which the numeric order stands. */
  predicate RisingIds(s: seq<nat>) { forall i, j :: 0 <= i < j < |s| ==> s[i] < s[j] }

  method SortedIds(ids: set<nat>) returns (r: seq<nat>)
    ensures RisingIds(r) && forall x :: x in r <==> x in ids
  {
    var before := (a: nat, b: nat) => a < b;
    var todo, collected: seq<nat> := ids, [];
    while todo != {}
      invariant todo <= ids && NoDuplicates(collected) && forall x :: x in collected <==> x in ids && x !in todo
      decreases |todo|
    {
      var id :| id in todo;
      collected, todo := collected + [id], todo - {id};
    }
    r := Sort(collected, before);
    SortSorts(collected, before);
    SortNoDuplicates(collected, before);
    SameLength(collected, r);
  }

  /** Selected ids that were not expected, in rising order. */
  method Extras(ids: seq<nat>, chosen: set<nat>) returns (r: seq<nat>)
    ensures RisingIds(r) && forall x :: x in r <==> x in chosen && x !in ids
  {
    var sorted := SortedIds(chosen);
    r := [];
    for i := 0 to |sorted|
      invariant RisingIds(r) && forall x :: x in r <==> x in sorted[..i] && x !in ids
    {
      assert sorted[..i + 1] == sorted[..i] + [sorted[i]];
      forall j | 0 <= j < |r| ensures r[j] < sorted[i] {
        assert r[j] in sorted[..i];
        var k :| 0 <= k < i && sorted[..i][k] == r[j];
        assert sorted[k] < sorted[i];
      }
      if sorted[i] !in ids { r := r + [sorted[i]]; }
    }
    assert sorted[..|sorted|] == sorted;
  }

  ghost predicate EntryOk(e: EntryScore, g: Golden, m: Option<Manifest>) {
    && e.missingNodes == Without(Firsts(g.nodes), NodesOf(m))
      && e.missingTopics == Without(Firsts(g.topics), TopicsOf(m))
    && RisingIds(e.extraNodes) && (forall x :: x in e.extraNodes <==> x in NodesOf(m) && x !in Firsts(g.nodes))
    && RisingIds(e.extraTopics) && (forall x :: x in e.extraTopics <==> x in TopicsOf(m) && x !in Firsts(g.topics))
    && e.edgeOnly == Firsts(g.edgeOnly)
  }

  predicate Reportable(e: EntryScore) {
    e.missingNodes + e.missingTopics != [] || e.extraNodes + e.extraTopics != [] || e.edgeOnly != []
  }

  method ScoreEntry(g: Golden, m: Option<Manifest>) returns (e: EntryScore)
    ensures EntryOk(e, g, m)
  {
    var nodes := Unique(g.nodes);
    var topics := Unique(g.topics);
    var missingNodes := Missing(nodes, NodesOf(m));
    var missingTopics := Missing(topics, TopicsOf(m));
    var extraNodes := Extras(nodes, NodesOf(m));
    var extraTopics := Extras(topics, TopicsOf(m));
    var edgeOnly := Unique(g.edgeOnly);
    e := EntryScore(missingNodes, missingTopics, extraNodes, extraTopics, edgeOnly);
  }

  lemma RisingUnique(a: seq<nat>, b: seq<nat>)
    requires RisingIds(a) && RisingIds(b) && forall x :: x in a <==> x in b
    ensures a == b
    decreases |a|
  {
    assert a != [] ==> a[|a| - 1] in b;
    assert b != [] ==> b[|b| - 1] in a;
    if a != [] && b != [] {
      var x, y, m, n := a[|a| - 1], b[|b| - 1], |a| - 1, |b| - 1;
      assert x in b && y in a;
      assert x == y;
      forall z ensures z in a[..m] <==> z in b[..n] {
        assert z in a[..m] <==> z in a && z != x;
        assert z in b[..n] <==> z in b && z != y;
      }
      RisingUnique(a[..m], b[..n]);
      assert a == a[..m] + [x] && b == b[..n] + [y];
    }
  }

  /** The lists of an entry are determined by what was expected and selected. */
  lemma EntryUnique(d: EntryScore, e: EntryScore, g: Golden, m: Option<Manifest>)
    requires EntryOk(d, g, m) && EntryOk(e, g, m)
    ensures d == e
  {
    RisingUnique(d.extraNodes, e.extraNodes);
    RisingUnique(d.extraTopics, e.extraTopics);
  }

  ghost predicate Nonempty(e: EntryScore) {
    |e.missingNodes| + |e.missingTopics| + |e.extraNodes| + |e.extraTopics| + |e.edgeOnly| > 0
  }

  /** The entries among the first n that have something to report, in order. */
  ghost predicate ReportOk(report: seq<(nat, EntryScore)>, golden: seq<Golden>, compiled: seq<Option<Manifest>>, n: nat)
    requires n <= |golden|
  {
    && (forall j, k :: 0 <= j < k < |report| ==> report[j].0 < report[k].0)
    && (forall k :: 0 <= k < |report| ==>
         report[k].0 < n && Nonempty(report[k].1)
           && EntryOk(report[k].1, golden[report[k].0], CompiledAt(compiled, report[k].0)))
    && forall i, e :: 0 <= i < n && EntryOk(e, golden[i], CompiledAt(compiled, i)) && Nonempty(e) ==> (i, e) in report
  }

  method ReportEntries(golden: seq<Golden>, compiled: seq<Option<Manifest>>) returns (report: seq<(nat, EntryScore)>)
    ensures ReportOk(report, golden, compiled, |golden|)
  {
    hide EntryOk;
    report := [];
    for i := 0 to |golden|
      invariant ReportOk(report, golden, compiled, i)
    {
      var m: Option<Manifest> := None;
      if i < |compiled| { m := compiled[i]; }
      var e := ScoreEntry(golden[i], m);
      forall d | EntryOk(d, golden[i], m) ensures d == e { EntryUnique(d, e, golden[i], m); }
      if Reportable(e) { report := report + [(i, e)]; }
    }
  }

  /** Hits plus misses are the expected ids, and hits plus extras the selected ones,
      whatever was compiled; accuracy is the pooled share of hits, in [0, 1], and one
      exactly when nothing expected is missing; the warning says that nothing in the
      sample could have been missed but the targets themselves. */
  method ScoreGolden(golden: seq<Golden>, compiled: seq<Option<Manifest>>) returns (s: Score)
    ensures s.nodeHit == Expected(golden, compiled, |golden|, true, true)
    ensures s.topicHit == Expected(golden, compiled, |golden|, false, true)
    ensures s.nodeHit + s.nodeMiss == Expected(golden, compiled, |golden|, true, false)
    ensures s.topicHit + s.topicMiss == Expected(golden, compiled, |golden|, false, false)
    ensures s.nodeHit + s.nodeExtra == SelectedNodes(compiled, |golden|)
    ensures 0.0 <= s.accuracy <= 1.0
    ensures var total := s.nodeHit + s.nodeMiss + s.topicHit + s.topicMiss;
      && s.accuracy * total as real == (s.nodeHit + s.topicHit) as real
      && (total > 0 ==> (s.accuracy == 1.0 <==> s.nodeMiss == 0 && s.topicMiss == 0))
    ensures s.samples.roots == |Roots(golden, |golden|)| && s.samples.roots + s.samples.nonroots == |golden|
    ensures s.samples.edgeOnly == EdgeOnlyIds(golden, |golden|)
    ensures ReportOk(s.perEntry, golden, compiled, |golden|)
    ensures s.warning <==>
      && golden != [] && (forall i :: 0 <= i < |golden| ==> |golden[i].nodes| <= 1)
      && Expected(golden, compiled, |golden|, false, false) == 0
  {
    hide Expected, SelectedNodes, Roots, Deep, EdgeOnlyIds, ReportOk;
    var nodeHit, nodeMiss, nodeExtra, topicHit, topicMiss := CountHits(golden, compiled);
    var samples := CountSamples(golden);
    var hits, misses := nodeHit + topicHit, nodeMiss + topicMiss;
    var accuracy := if hits + misses > 0 then hits as real / (hits + misses) as real else 0.0;
    ShareInUnit(hits, misses);
    var warning := |golden| > 0 && samples.depthScored == 0 && topicHit + topicMiss == 0;
    var report := ReportEntries(golden, compiled);
    s := Score(nodeHit, nodeMiss, nodeExtra, topicHit, topicMiss, accuracy, samples, warning, report);
  }

  lemma ShareInUnit(hits: nat, misses: nat)
    ensures hits + misses > 0 ==>
      var a := hits as real / (hits + misses) as real;
      0.0 <= a <= 1.0 && a * (hits + misses) as real == hits as real && (a == 1.0 <==> misses == 0)
  {
  }
}
