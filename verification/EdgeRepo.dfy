/** Edges and the target-mode-aware parent matrix (internal/db/edge_repo.go). The
    edge table is the sequence of its rows in insertion order, a row's index its
    id; each method is one transaction and an error leaves the tables as they
    were. */
module EdgeRepo {
  import opened Wrappers
  import opened Sorting
  import opened Text

  const MIN_SOURCES := 2
  const MAX_SOURCES := 20

  datatype NodeType = Message | Synthesis | System
  datatype ParentMode = Lineage | MultiReference
  datatype EdgeType = Reply | Fork | SynthesisEdge | ReferenceEdge

  datatype Node = Node(tree: nat, kind: NodeType, mode: ParentMode, parent: Option<nat>)

  /** `order` is the selection order in the metadata of a reference edge. */
  datatype Edge = Edge(tree: nat, source: nat, target: nat, kind: EdgeType, sequence: int,
                       order: Option<nat>, deleted: bool)

  datatype Error =
    | NotFound | SelfEdge | SystemNodeParentForbidden | ReferenceTargetType | ReferenceParentInvariant
    | ReferenceRequiresMultiReferenceMode | MultipleParents | ReferenceSourceCount | ReferenceSourceDuplicate
    | UniqueViolation | ForeignKeyViolation | NotNullViolation | CheckViolation

  // --- Queries ----------------------------------------------------------------

  predicate Arrives(e: Edge, target: nat) { !e.deleted && e.target == target }

  /** Active incoming edges, in insertion order. */
  function Incoming(edges: seq<Edge>, target: nat): seq<Edge>
  {
    if edges == [] then [] else
      var last := edges[|edges| - 1];
      Incoming(edges[..|edges| - 1], target) + (if Arrives(last, target) then [last] else [])
  }

  lemma IncomingSnoc(edges: seq<Edge>, e: Edge, target: nat)
    ensures Incoming(edges + [e], target) == Incoming(edges, target) + (if Arrives(e, target) then [e] else [])
  {
    assert (edges + [e])[..|edges|] == edges;
  }

  lemma {:induction false} IncomingIff(edges: seq<Edge>, target: nat)
    ensures forall e :: e in Incoming(edges, target) <==> e in edges && !e.deleted && e.target == target
  {
    if edges != [] {
      IncomingIff(edges[..|edges| - 1], target);
      assert edges == edges[..|edges| - 1] + [edges[|edges| - 1]];
    }
  }

  function Sources(incoming: seq<Edge>): (r: seq<nat>)
    ensures |r| == |incoming|
  {
    seq(|incoming|, i requires 0 <= i < |incoming| => incoming[i].source)
  }

  /** The table's uniqueness constraint, which counts deleted rows too. */
  predicate RowExists(edges: seq<Edge>, source: nat, target: nat, kind: EdgeType) {
    exists i :: 0 <= i < |edges| && edges[i].source == source && edges[i].target == target && edges[i].kind == kind
  }

  /** COALESCE(MAX(sequence_num), 0): the largest number of all, negative ones included,
      or 0 when there is none. */
  function MaxOrZero(numbers: seq<int>): int
  {
    if numbers == [] then 0 else
      var m, last := MaxOrZero(numbers[..|numbers| - 1]), numbers[|numbers| - 1];
      if |numbers| == 1 || last > m then last else m
  }

  lemma {:induction false} MaxIsLargest(numbers: seq<int>)
    ensures forall x :: x in numbers ==> x <= MaxOrZero(numbers)
    ensures if numbers == [] then MaxOrZero(numbers) == 0 else MaxOrZero(numbers) in numbers
  {
    if numbers != [] {
      var front, last := numbers[..|numbers| - 1], numbers[|numbers| - 1];
      MaxIsLargest(front);
      hide MaxOrZero;
      assert MaxOrZero(numbers) == if front == [] || last > MaxOrZero(front) then last else MaxOrZero(front) by {
        MaxStep(numbers);
      }
      assert numbers == front + [last];
    }
  }

  lemma MaxStep(numbers: seq<int>)
    requires numbers != []
    ensures var front, last := numbers[..|numbers| - 1], numbers[|numbers| - 1];
      MaxOrZero(numbers) == if front == [] || last > MaxOrZero(front) then last else MaxOrZero(front)
  {
  }

  /** The sequence numbers of a tree's rows, deleted ones included. */
  function TreeNumbers(edges: seq<Edge>, tree: nat): seq<int>
  {
    if edges == [] then [] else
      var last := edges[|edges| - 1];
      TreeNumbers(edges[..|edges| - 1], tree) + (if last.tree == tree then [last.sequence] else [])
  }

  /** The sequence numbers of a node's active outgoing edges. */
  function OutgoingNumbers(edges: seq<Edge>, source: nat): seq<int>
  {
    if edges == [] then [] else
      var last := edges[|edges| - 1];
      OutgoingNumbers(edges[..|edges| - 1], source) +
      (if !last.deleted && last.source == source then [last.sequence] else [])
  }

  lemma {:induction false} NumbersElements(edges: seq<Edge>, tree: nat, source: nat)
    ensures forall x :: x in TreeNumbers(edges, tree) <==> exists e :: e in edges && e.tree == tree && e.sequence == x
    ensures forall x :: x in OutgoingNumbers(edges, source) <==>
      exists e :: e in edges && !e.deleted && e.source == source && e.sequence == x
  {
    if edges != [] {
      var front, last := edges[..|edges| - 1], edges[|edges| - 1];
      NumbersElements(front, tree, source);
      assert edges == front + [last] && last in edges;
    }
  }

  function MaxSequence(edges: seq<Edge>, tree: nat): int { MaxOrZero(TreeNumbers(edges, tree)) }

  function MaxOutgoing(edges: seq<Edge>, source: nat): int { MaxOrZero(OutgoingNumbers(edges, source)) }

  /** The number follows every row's of the tree, deleted ones included, and some row's
      directly, or is 1 in a tree without rows. */
  ghost predicate FollowsTree(edges: seq<Edge>, tree: nat, number: int) {
    && (forall e :: e in edges && e.tree == tree ==> e.sequence < number)
    && ((exists e :: e in edges && e.tree == tree && e.sequence + 1 == number)
        || (number == 1 && forall e :: e in edges ==> e.tree != tree))
  }

  /** The number follows every active edge's of the source, and some edge's directly, or
      is 1 at a source without active edges. */
  ghost predicate FollowsOutgoing(edges: seq<Edge>, source: nat, number: int) {
    && (forall e :: e in edges && !e.deleted && e.source == source ==> e.sequence < number)
    && ((exists e :: e in edges && !e.deleted && e.source == source && e.sequence + 1 == number)
        || (number == 1 && forall e :: e in edges && !e.deleted ==> e.source != source))
  }

  lemma NextNumbers(edges: seq<Edge>, tree: nat, source: nat)
    ensures FollowsTree(edges, tree, MaxSequence(edges, tree) + 1)
    ensures FollowsOutgoing(edges, source, MaxOutgoing(edges, source) + 1)
  {
    hide MaxOrZero, TreeNumbers, OutgoingNumbers;
    NumbersElements(edges, tree, source);
    var a, b := TreeNumbers(edges, tree), OutgoingNumbers(edges, source);
    MaxIsLargest(a);
    MaxIsLargest(b);
    forall e | e in edges && e.tree == tree ensures e.sequence in a { }
    forall e | e in edges && !e.deleted && e.source == source ensures e.sequence in b { }
  }

  // --- The parent matrix ----------------------------------------------------------

  ghost predicate NoReference(incoming: seq<Edge>) {
    forall i :: 0 <= i < |incoming| ==> incoming[i].kind != ReferenceEdge
  }

  ghost predicate ReferenceSet(n: Node, incoming: seq<Edge>) {
    && 2 <= |incoming| <= 20
    && (forall i :: 0 <= i < |incoming| ==> incoming[i].kind == ReferenceEdge && incoming[i].tree == n.tree)
    && n.parent.Some? && n.parent.value in Sources(incoming)
    && NoDuplicates(Sources(incoming))
  }

  /** What may arrive at a node, by its type and parent mode. */
  ghost predicate MatrixOk(n: Node, incoming: seq<Edge>) {
    match n.kind
    case System => incoming == []
    case Synthesis => n.mode == Lineage && NoReference(incoming)
    case Message =>
      if n.mode == MultiReference then ReferenceSet(n, incoming) else |incoming| <= 1 && NoReference(incoming)
  }

  ghost predicate AllOk(nodes: map<nat, Node>, edges: seq<Edge>) {
    forall id :: id in nodes ==> MatrixOk(nodes[id], Incoming(edges, id))
  }

  // --- Create ------------------------------------------------------------------------

  /** The decision table for a single edge. */
  function Decide(n: Node, kind: EdgeType, existing: nat): Option<Error> {
    if n.kind == System then Some(SystemNodeParentForbidden)
    else if n.kind == Synthesis then
      if kind == ReferenceEdge then Some(ReferenceTargetType)
      else if n.mode == MultiReference then Some(ReferenceParentInvariant) else None
    else if n.mode == MultiReference then Some(ReferenceParentInvariant)
    else if kind == ReferenceEdge then Some(ReferenceRequiresMultiReferenceMode)
    else if existing > 0 then Some(MultipleParents) else None
  }

  /** The table admits an edge exactly when the matrix still holds with it, except
      that no single edge is ever added to a multi_reference target. */
  lemma DecideIsMatrix(n: Node, e: Edge, incoming: seq<Edge>)
    requires MatrixOk(n, incoming)
    ensures Decide(n, e.kind, |incoming|).None? <==> n.mode == Lineage && MatrixOk(n, incoming + [e])
  {
    if n.kind == Message && n.mode == Lineage && incoming != [] {
      assert |incoming + [e]| > 1;
    }
    assert (incoming + [e])[|incoming|] == e;
  }

  lemma CreateKeeps(nodes: map<nat, Node>, edges: seq<Edge>, e: Edge)
    requires AllOk(nodes, edges) && !e.deleted && e.target in nodes
    requires Decide(nodes[e.target], e.kind, |Incoming(edges, e.target)|).None?
    ensures AllOk(nodes, edges + [e])
  {
    hide MatrixOk, Incoming, Decide;
    forall id | id in nodes ensures MatrixOk(nodes[id], Incoming(edges + [e], id)) {
      IncomingSnoc(edges, e, id);
      if id == e.target {
        DecideIsMatrix(nodes[id], e, Incoming(edges, id));
      } else {
        assert Incoming(edges, id) + [] == Incoming(edges, id);
      }
    }
  }

  /** Labels and colour keys of reference parents; the hash is a parameter. */
  datatype ReferenceParent = ReferenceParent(source: nat, index: nat, sourceLabel: string, colorKey: string)

  function SourceLabel(index: nat): string { "R" + Digits(index + 1) }

  /** selection_order, or the largest int when missing; then sequence_num. */
  function OrderKey(e: Edge): int { if e.order.Some? then e.order.value else 2147483647 }

  predicate ReadsBefore(a: Edge, b: Edge) {
    OrderKey(a) < OrderKey(b) || (OrderKey(a) == OrderKey(b) && a.sequence < b.sequence)
  }

  function References(incoming: seq<Edge>): seq<Edge>
  {
    if incoming == [] then [] else
      References(incoming[..|incoming| - 1]) +
      (if incoming[|incoming| - 1].kind == ReferenceEdge then [incoming[|incoming| - 1]] else [])
  }

  function ParentView(e: Edge, index: nat, color: (nat, nat, nat) -> string): ReferenceParent {
    ReferenceParent(e.source, index, SourceLabel(index), color(e.tree, e.target, e.source))
  }

  function ReferenceParents(edges: seq<Edge>, target: nat, color: (nat, nat, nat) -> string): seq<ReferenceParent> {
    var rows := Sort(References(Incoming(edges, target)), ReadsBefore);
    seq(|rows|, i requires 0 <= i < |rows| => ParentView(rows[i], i, color))
  }

  /** The rows CreateReferenceSet inserts. */
  function SetRow(tree: nat, target: nat, source: nat, index: nat, sequence: int): Edge {
    Edge(tree, source, target, ReferenceEdge, sequence + 1 + index, Some(index), false)
  }

  function SetRows(tree: nat, target: nat, sources: seq<nat>, sequence: int): (r: seq<Edge>)
    ensures |r| == |sources|
  {
    seq(|sources|, i requires 0 <= i < |sources| => SetRow(tree, target, sources[i], i, sequence))
  }

  // --- The transactions ------------------------------------------------------------

  datatype Tables = Tables(trees: set<nat>, nodes: map<nat, Node>, edges: seq<Edge>)

  datatype Op =
    | InsertTree(tree: nat)
    | InsertNode(id: nat, node: Node)
    | CreateEdge(edge: Edge)
    | CreateReply(id: nat, node: Node, sources: seq<nat>)
    | DeleteEdge(row: nat)
    | MoveEdge(row: nat, source: nat)

  /** The constraints of the node table: a new key, an existing tree and parent, and a
      parent for every multi_reference node. */
  ghost predicate NodeFits(t: Tables, id: nat, n: Node) {
    && id !in t.nodes && n.tree in t.trees
    && (n.parent.Some? ==> n.parent.value == id || n.parent.value in t.nodes)
    && (n.mode == MultiReference ==> n.parent.Some?)
  }

  /** Create: the checks in order, then the edge table's constraints in the order in
      which the database raises them. Sequence number 0 is written as NULL. */
  function CreateRefusal(t: Tables, e: Edge): Option<Error> {
    if e.source == e.target then Some(SelfEdge)
    else if e.target !in t.nodes then Some(NotFound)
    else
      var refusal := Decide(t.nodes[e.target], e.kind, |Incoming(t.edges, e.target)|);
      if refusal.Some? then refusal
      else if e.sequence == 0 then Some(NotNullViolation)
      else if RowExists(t.edges, e.source, e.target, e.kind) then Some(UniqueViolation)
      else if e.tree !in t.trees || e.source !in t.nodes then Some(ForeignKeyViolation)
      else None
  }

  /** Every answer of Create, by the edge and the tables alone, in the order of the
      checks: the target's kind and mode, an active parent of a lineage message, then a
      missing sequence number, a stored row and a missing tree or source. */
  lemma CreateAnswers(t: Tables, e: Edge)
    ensures var r := CreateRefusal(t, e);
      && (r == Some(SelfEdge) <==> e.source == e.target)
      && (r == Some(NotFound) <==> e.source != e.target && e.target !in t.nodes)
      && (e.source != e.target && e.target in t.nodes ==>
           var n := t.nodes[e.target];
           var parent := exists x :: x in t.edges && !x.deleted && x.target == e.target;
           var row := exists x :: x in t.edges && (x.source, x.target, x.kind) == (e.source, e.target, e.kind);
           var admitted := n.mode == Lineage && n.kind != System && e.kind != ReferenceEdge
             && (n.kind == Synthesis || !parent);
           && (r == Some(SystemNodeParentForbidden) <==> n.kind == System)
           && (r == Some(ReferenceTargetType) <==> n.kind == Synthesis && e.kind == ReferenceEdge)
           && (r == Some(ReferenceParentInvariant) <==>
                n.mode == MultiReference && (n.kind == Message || (n.kind == Synthesis && e.kind != ReferenceEdge)))
           && (r == Some(ReferenceRequiresMultiReferenceMode) <==>
                n.kind == Message && n.mode == Lineage && e.kind == ReferenceEdge)
           && (r == Some(MultipleParents) <==>
                n.kind == Message && n.mode == Lineage && e.kind != ReferenceEdge && parent)
           && (r == Some(NotNullViolation) <==> admitted && e.sequence == 0)
           && (r == Some(UniqueViolation) <==> admitted && e.sequence != 0 && row)
           && (r == Some(ForeignKeyViolation) <==>
                admitted && e.sequence != 0 && !row && (e.tree !in t.trees || e.source !in t.nodes))
           && (r == None <==> admitted && e.sequence != 0 && !row && e.tree in t.trees && e.source in t.nodes))
  {
    hide Incoming;
    IncomingIff(t.edges, e.target);
    var incoming := Incoming(t.edges, e.target);
    assert |incoming| > 0 ==> incoming[0] in t.edges;
    var row := exists x :: x in t.edges && (x.source, x.target, x.kind) == (e.source, e.target, e.kind);
    assert RowExists(t.edges, e.source, e.target, e.kind) <==> row by {
      assert forall i :: 0 <= i < |t.edges| ==> t.edges[i] in t.edges;
    }
  }

  /** The sources pass the checks made before any insert. */
  ghost predicate SourcesFit(target: nat, sources: seq<nat>) {
    2 <= |sources| <= 20 && target !in sources && NoDuplicates(sources)
  }

  /** The rows pass the edge table's constraints too. */
  ghost predicate SetFits(t: Tables, tree: nat, target: nat, sources: seq<nat>) {
    && SourcesFit(target, sources) && tree in t.trees && target in t.nodes
    && forall i :: 0 <= i < |sources| ==>
      sources[i] in t.nodes && !RowExists(t.edges, sources[i], target, ReferenceEdge)
  }

  function NewSet(edges: seq<Edge>, tree: nat, target: nat, sources: seq<nat>): seq<Edge> {
    SetRows(tree, target, sources, MaxSequence(edges, tree))
  }

  /** The tables with the reply and its set, before validation. */
  function WithReply(t: Tables, id: nat, n: Node, sources: seq<nat>): Tables {
    Tables(t.trees, t.nodes[id := n], t.edges + NewSet(t.edges, n.tree, id, sources))
  }

  /** A multi-reference message whose display anchor is among the sources. */
  ghost predicate Anchored(n: Node, sources: seq<nat>) {
    n.kind == Message && n.mode == MultiReference && n.parent.Some? && n.parent.value in sources
  }

  ghost predicate ReplyFits(t: Tables, id: nat, n: Node, sources: seq<nat>) {
    && NodeFits(t, id, n) && SetFits(t.(nodes := t.nodes[id := n]), n.tree, id, sources)
    && MatrixOk(n, Incoming(WithReply(t, id, n, sources).edges, id))
  }

  /** An active row whose move breaks no constraint of the table. */
  ghost predicate Movable(t: Tables, row: nat, source: nat) {
    && row < |t.edges| && !t.edges[row].deleted && t.edges[row].source != source && t.edges[row].target != source
    && !RowExists(t.edges, source, t.edges[row].target, t.edges[row].kind) && source in t.nodes
  }

  function Moved(edges: seq<Edge>, edge: nat, source: nat): Edge
    requires edge < |edges|
  {
    edges[edge].(source := source, sequence := MaxOutgoing(edges, source) + 1)
  }

  /** Each transaction as one step; a refused one changes nothing. */
  ghost function Apply(t: Tables, op: Op): Tables {
    match op
    case InsertTree(tree) => t.(trees := t.trees + {tree})
    case InsertNode(id, n) => if NodeFits(t, id, n) then t.(nodes := t.nodes[id := n]) else t
    case CreateEdge(e) => if CreateRefusal(t, e).None? then t.(edges := t.edges + [Active(e)]) else t
    case CreateReply(id, n, sources) => if ReplyFits(t, id, n, sources) then WithReply(t, id, n, sources) else t
    case DeleteEdge(row) =>
      if row < |t.edges| && !t.edges[row].deleted
      then t.(edges := t.edges[row := t.edges[row].(deleted := true)]) else t
    case MoveEdge(row, source) =>
      if Movable(t, row, source) then t.(edges := t.edges[row := Moved(t.edges, row, source)]) else t
  }

  /** Inserted rows are active. */
  function Active(e: Edge): Edge { e.(deleted := false) }

  class PGEdgeRepo {
    var trees: set<nat>
    var nodes: map<nat, Node>
    var edges: seq<Edge>

    function View(): Tables reads this { Tables(trees, nodes, edges) }

    constructor ()
      ensures View() == Tables({}, map[], [])
    {
      trees, nodes, edges := {}, map[], [];
    }

    method ActiveIncoming(target: nat) returns (r: seq<Edge>)
      ensures r == Incoming(edges, target)
      ensures forall e :: e in r <==> e in edges && !e.deleted && e.target == target
    {
      IncomingIff(edges, target);
      r := [];
      for i := 0 to |edges|
        invariant r == Incoming(edges[..i], target)
      {
        assert edges[..i + 1] == edges[..i] + [edges[i]];
        IncomingSnoc(edges[..i], edges[i], target);
        if Arrives(edges[i], target) { r := r + [edges[i]]; }
      }
      assert edges[..|edges|] == edges;
    }

    /** A successful Create appends one row, and no node's matrix is broken. */
    method Create(e: Edge) returns (r: Option<Error>)
      modifies this`edges
      ensures r == CreateRefusal(old(View()), e)
      ensures View() == Apply(old(View()), CreateEdge(e))
      ensures AllOk(nodes, old(edges)) ==> AllOk(nodes, edges)
    {
      hide AllOk, Decide, Incoming;
      if e.source == e.target { return Some(SelfEdge); }
      if e.target !in nodes { return Some(NotFound); }
      var incoming := ActiveIncoming(e.target);
      var n := nodes[e.target];
      var refusal := Decide(n, e.kind, |incoming|);
      if refusal.Some? { return refusal; }
      if e.sequence == 0 { return Some(NotNullViolation); }
      if RowExists(edges, e.source, e.target, e.kind) { return Some(UniqueViolation); }
      if e.tree !in trees || e.source !in nodes { return Some(ForeignKeyViolation); }
      if AllOk(nodes, edges) { CreateKeeps(nodes, edges, Active(e)); }
      edges := edges + [Active(e)];
      return None;
    }

    /** Accepts a target exactly when its incoming edges satisfy the matrix. */
    method ValidateIncomingInvariant(target: nat, n: Node) returns (r: Option<Error>)
      ensures r.None? <==> MatrixOk(n, Incoming(edges, target))
    {
      hide Incoming;
      var incoming := ActiveIncoming(target);
      if n.kind == System {
        return if |incoming| > 0 then Some(SystemNodeParentForbidden) else None;
      }
      if n.kind == Synthesis {
        if n.mode == MultiReference { return Some(ReferenceParentInvariant); }
        for i := 0 to |incoming|
          invariant forall j :: 0 <= j < i ==> incoming[j].kind != ReferenceEdge
        {
          if incoming[i].kind == ReferenceEdge { return Some(ReferenceTargetType); }
        }
        return None;
      }
      if n.mode == MultiReference {
        var ok := CheckReferenceSet(n, incoming);
        return if ok then None else Some(ReferenceParentInvariant);
      }
      if |incoming| > 1 { return Some(MultipleParents); }
      if |incoming| == 1 && incoming[0].kind == ReferenceEdge { return Some(ReferenceRequiresMultiReferenceMode); }
      return None;
    }

    /** The checks before any row of a reference set is inserted. */
    method CheckSources(target: nat, sources: seq<nat>) returns (r: Option<Error>)
      ensures r.None? <==> SourcesFit(target, sources)
      ensures r == Some(ReferenceSourceCount) <==> |sources| < 2 || |sources| > 20
      ensures r == Some(SelfEdge) ==> target in sources
      ensures r == Some(ReferenceSourceDuplicate) ==> !NoDuplicates(sources)
      ensures r.Some? ==> r.value in {ReferenceSourceCount, SelfEdge, ReferenceSourceDuplicate}
    {
      if |sources| < MIN_SOURCES || |sources| > MAX_SOURCES { return Some(ReferenceSourceCount); }
      var seen: set<nat> := {};
      for i := 0 to |sources|
        invariant forall x :: x in seen <==> x in sources[..i]
        invariant target !in sources[..i] && NoDuplicates(sources[..i])
      {
        assert sources[..i + 1] == sources[..i] + [sources[i]];
        if sources[i] == target {
          assert target in sources;
          return Some(SelfEdge);
        }
        if sources[i] in seen {
          var j :| 0 <= j < i && sources[..i][j] == sources[i];
          assert !NoDuplicates(sources);
          return Some(ReferenceSourceDuplicate);
        }
        seen := seen + {sources[i]};
      }
      assert sources[..|sources|] == sources;
      return None;
    }

    /** Inserts the whole set or nothing. */
    method CreateReferenceSet(tree: nat, target: nat, sources: seq<nat>) returns (r: Option<Error>)
      modifies this`edges
      ensures r.None? <==> SetFits(old(View()), tree, target, sources)
      ensures edges == old(edges) + (if r.None? then NewSet(old(edges), tree, target, sources) else [])
      ensures r.None? ==>
        var first := edges[|old(edges)|].sequence;
        && FollowsTree(old(edges), tree, first)
        && |edges| == |old(edges)| + |sources|
        && forall k :: 0 <= k < |sources| ==>
             edges[|old(edges)| + k] == Edge(tree, sources[k], target, ReferenceEdge, first + k, Some(k), false)
    {
      hide MaxSequence, NoDuplicates, FollowsTree;
      NextNumbers(edges, tree, target);
      r := CheckSources(target, sources);
      if r.Some? { return; }
      var tx, sequence := edges, MaxSequence(edges, tree);
      ghost var rows := SetRows(tree, target, sources, sequence);
      for i := 0 to |sources|
        invariant tx == edges + rows[..i]
        invariant edges == old(edges)
        invariant i > 0 ==> tree in trees && target in nodes
        invariant forall j :: 0 <= j < i ==> sources[j] in nodes && !RowExists(edges, sources[j], target, ReferenceEdge)
      {
        RowExistsIff(edges, rows[..i], sources[i], target);
        NotBefore(sources, i);
        if RowExists(tx, sources[i], target, ReferenceEdge) { return Some(ReferenceSourceDuplicate); }
        if tree !in trees || target !in nodes || sources[i] !in nodes { return Some(ForeignKeyViolation); }
        assert rows[..i + 1] == rows[..i] + [rows[i]];
        tx := tx + [SetRow(tree, target, sources[i], i, sequence)];
      }
      assert rows[..|sources|] == rows;
      edges := tx;
    }

    /** The creating transaction of a multi-reference reply: the node, its edge set
        and the final validation, rolled back as a whole on any failure. A set of
        stored sources that includes the display anchor is always accepted. */
    method CreateMultiReference(id: nat, n: Node, sources: seq<nat>) returns (r: Option<Error>)
      modifies this`nodes, this`edges
      ensures r.None? <==> ReplyFits(old(View()), id, n, sources)
      ensures View() == Apply(old(View()), CreateReply(id, n, sources))
      ensures Linked(old(View())) && AllOk(old(nodes), old(edges)) ==> AllOk(nodes, edges)
      ensures Linked(old(View())) && Anchored(n, sources) ==>
        (r.None? <==>
          && id !in old(nodes) && n.tree in trees && SourcesFit(id, sources)
          && forall s :: s in sources ==> s in old(nodes))
    {
      hide Incoming, MatrixOk, AllOk, MaxSequence, SetRows, NoDuplicates;
      ghost var before := View();
      var saved := edges;
      if Linked(before) { ReplyAccepted(before, id, n, sources); }
      if id in nodes { return Some(UniqueViolation); }
      if n.mode == MultiReference && n.parent.None? { return Some(CheckViolation); }
      if n.tree !in trees || (n.parent.Some? && n.parent.value != id && n.parent.value !in nodes) {
        return Some(ForeignKeyViolation);
      }
      nodes := nodes[id := n];
      r := CreateReferenceSet(n.tree, id, sources);
      if r.None? { r := ValidateIncomingInvariant(id, n); }
      if r.Some? {
        nodes, edges := nodes - {id}, saved;
        assert nodes == before.nodes;
      } else if Linked(before) && AllOk(before.nodes, before.edges) {
        SetKeepsOthers(before.nodes, before.edges, n, id, sources, MaxSequence(before.edges, n.tree));
      }
    }

    method SoftDelete(edge: nat) returns (r: Option<Error>)
      modifies this`edges
      ensures r == if edge >= |old(edges)| || old(edges)[edge].deleted then Some(NotFound) else None
      ensures View() == Apply(old(View()), DeleteEdge(edge))
    {
      if edge >= |edges| || edges[edge].deleted { return Some(NotFound); }
      edges := edges[edge := edges[edge].(deleted := true)];
      return None;
    }

    /** Move gives an active edge a new source and the next sequence number there.
        The table's constraints refuse self-edges, duplicate rows and missing nodes;
        nothing looks at the new source's tree. */
    method Move(edge: nat, source: nat) returns (r: Option<Error>)
      modifies this`edges
      ensures r.None? <==> Movable(old(View()), edge, source)
      ensures View() == Apply(old(View()), MoveEdge(edge, source))
      ensures r.None? ==>
        && |edges| == |old(edges)|
        && (forall i :: 0 <= i < |edges| && i != edge ==> edges[i] == old(edges)[i])
        && edges[edge] == Edge(old(edges)[edge].tree, source, old(edges)[edge].target, old(edges)[edge].kind,
                               edges[edge].sequence, old(edges)[edge].order, false)
        && FollowsOutgoing(old(edges), source, edges[edge].sequence)
    {
      hide MaxOutgoing, FollowsOutgoing;
      NextNumbers(edges, 0, source);
      if edge >= |edges| || edges[edge].deleted || edges[edge].source == source { return Some(NotFound); }
      if edges[edge].target == source { return Some(SelfEdge); }
      if RowExists(edges, source, edges[edge].target, edges[edge].kind) { return Some(UniqueViolation); }
      if source !in nodes { return Some(ForeignKeyViolation); }
      edges := edges[edge := Moved(edges, edge, source)];
      return None;
    }

    /** The active reference parents in selection order, with derived labels. */
    method GetActiveReferenceParents(target: nat, color: (nat, nat, nat) -> string) returns (r: seq<ReferenceParent>)
      ensures r == ReferenceParents(edges, target, color)
    {
      hide Incoming, SourceLabel;
      var incoming := ActiveIncoming(target);
      var refs: seq<Edge> := [];
      for i := 0 to |incoming|
        invariant refs == References(incoming[..i])
      {
        assert incoming[..i + 1][..i] == incoming[..i];
        if incoming[i].kind == ReferenceEdge { refs := refs + [incoming[i]]; }
      }
      assert incoming[..|incoming|] == incoming;
      var rows := Sort(refs, ReadsBefore);
      r := [];
      for i := 0 to |rows|
        invariant |r| == i && forall j :: 0 <= j < i ==> r[j] == ParentView(rows[j], j, color)
      {
        r := r + [ParentView(rows[i], i, color)];
      }
    }
  }

  method CheckReferenceSet(n: Node, incoming: seq<Edge>) returns (ok: bool)
    ensures ok <==> ReferenceSet(n, incoming)
  {
    if |incoming| < MIN_SOURCES || |incoming| > MAX_SOURCES { return false; }
    var sources: set<nat> := {};
    for i := 0 to |incoming|
      invariant forall j :: 0 <= j < i ==> incoming[j].kind == ReferenceEdge && incoming[j].tree == n.tree
      invariant forall x :: x in sources <==> x in Sources(incoming[..i])
      invariant |sources| <= i && (|sources| == i <==> NoDuplicates(Sources(incoming[..i])))
    {
      if incoming[i].kind != ReferenceEdge || incoming[i].tree != n.tree { return false; }
      DistinctSnoc(incoming, i);
      sources := sources + {incoming[i].source};
    }
    assert incoming[..|incoming|] == incoming;
    ok := n.parent.Some? && n.parent.value in sources && |sources| == |incoming|;
  }

  lemma DistinctSnoc(incoming: seq<Edge>, i: nat)
    requires i < |incoming|
    ensures Sources(incoming[..i + 1]) == Sources(incoming[..i]) + [incoming[i].source]
    ensures NoDuplicates(Sources(incoming[..i + 1])) <==>
      NoDuplicates(Sources(incoming[..i])) && incoming[i].source !in Sources(incoming[..i])
  {
    var a, b := Sources(incoming[..i]), Sources(incoming[..i + 1]);
    assert b == a + [incoming[i].source];
    if NoDuplicates(b) {
      forall x, y | 0 <= x < y < |a| ensures a[x] != a[y] { assert b[x] == a[x] && b[y] == a[y]; }
      forall x | 0 <= x < |a| ensures a[x] != incoming[i].source { assert b[x] != b[i]; }
    }
  }

  lemma NotBefore(sources: seq<nat>, i: nat)
    requires NoDuplicates(sources) && i < |sources|
    ensures sources[i] !in sources[..i]
  {
  }

  /** Rows of the set being inserted collide only with a repeated source. */
  lemma RowExistsIff(edges: seq<Edge>, rows: seq<Edge>, source: nat, target: nat)
    requires forall k :: 0 <= k < |rows| ==> rows[k].target == target && rows[k].kind == ReferenceEdge
    ensures RowExists(edges + rows, source, target, ReferenceEdge) <==>
      RowExists(edges, source, target, ReferenceEdge) || source in Sources(rows)
  {
    var all := edges + rows;
    if RowExists(edges, source, target, ReferenceEdge) {
      var k :| 0 <= k < |edges|
        && edges[k].source == source && edges[k].target == target && edges[k].kind == ReferenceEdge;
      assert all[k] == edges[k];
    }
    if source in Sources(rows) {
      var k :| 0 <= k < |rows| && rows[k].source == source;
      assert all[|edges| + k] == rows[k];
    }
    if k :| 0 <= k < |all| && all[k].source == source && all[k].target == target && all[k].kind == ReferenceEdge {
      if k >= |edges| { assert Sources(rows)[k - |edges|] == source; }
    }
  }

  // --- A fresh reference set ------------------------------------------------------------

  lemma {:induction false} NothingArrives(edges: seq<Edge>, target: nat)
    requires forall i :: 0 <= i < |edges| ==> edges[i].target != target
    ensures Incoming(edges, target) == []
  {
    if edges != [] { NothingArrives(edges[..|edges| - 1], target); }
  }

  lemma {:induction false} IncomingAppend(edges: seq<Edge>, rows: seq<Edge>, target: nat)
    ensures Incoming(edges + rows, target) == Incoming(edges, target) + Incoming(rows, target)
  {
    if rows == [] {
      assert edges + rows == edges;
    } else {
      var front, last := rows[..|rows| - 1], rows[|rows| - 1];
      IncomingAppend(edges, front, target);
      assert edges + rows == (edges + front) + [last];
      IncomingSnoc(edges + front, last, target);
    }
  }

  lemma {:induction false} AllArrive(rows: seq<Edge>, target: nat)
    requires forall i :: 0 <= i < |rows| ==> Arrives(rows[i], target)
    ensures Incoming(rows, target) == rows
  {
    if rows != [] {
      AllArrive(rows[..|rows| - 1], target);
      assert rows == rows[..|rows| - 1] + [rows[|rows| - 1]];
    }
  }

  lemma FreshIncoming(edges: seq<Edge>, tree: nat, target: nat, sources: seq<nat>, sequence: int)
    requires forall i :: 0 <= i < |edges| ==> edges[i].target != target
    ensures Incoming(edges + SetRows(tree, target, sources, sequence), target) ==
      SetRows(tree, target, sources, sequence)
  {
    var rows := SetRows(tree, target, sources, sequence);
    NothingArrives(edges, target);
    IncomingAppend(edges, rows, target);
    AllArrive(rows, target);
    assert [] + rows == rows;
  }

  lemma FreshSetAccepted(n: Node, sources: seq<nat>, sequence: int, id: nat)
    requires MIN_SOURCES <= |sources| <= MAX_SOURCES && NoDuplicates(sources)
    requires id !in sources
    ensures Anchored(n, sources) ==>
      MatrixOk(n, SetRows(n.tree, id, sources, sequence))
  {
    assert Sources(SetRows(n.tree, id, sources, sequence)) == sources;
  }

  /** Acceptance of a reply whose anchor is among its sources depends on its tree and
      its sources alone. */
  lemma ReplyAccepted(t: Tables, id: nat, n: Node, sources: seq<nat>)
    requires Linked(t)
    ensures Anchored(n, sources) ==>
      (ReplyFits(t, id, n, sources) <==>
        id !in t.nodes && n.tree in t.trees && SourcesFit(id, sources) && forall s :: s in sources ==> s in t.nodes)
  {
    hide Incoming, MatrixOk, MaxSequence, SetRows, NoDuplicates;
    if id !in t.nodes {
      assert forall i :: 0 <= i < |t.edges| ==> t.edges[i].target != id;
      FreshIncoming(t.edges, n.tree, id, sources, MaxSequence(t.edges, n.tree));
      if SourcesFit(id, sources) { FreshSetAccepted(n, sources, MaxSequence(t.edges, n.tree), id); }
    }
  }

  lemma SetKeepsOthers(nodes: map<nat, Node>, edges: seq<Edge>, n: Node, id: nat, sources: seq<nat>, sequence: int)
    requires AllOk(nodes, edges) && id !in nodes
    requires MatrixOk(n, Incoming(edges + SetRows(n.tree, id, sources, sequence), id))
    ensures AllOk(nodes[id := n], edges + SetRows(n.tree, id, sources, sequence))
  {
    hide MatrixOk, Incoming;
    var rows := SetRows(n.tree, id, sources, sequence);
    forall k | k in nodes ensures MatrixOk(nodes[k], Incoming(edges + rows, k)) {
      IncomingAppend(edges, rows, k);
      NothingArrives(rows, k);
      assert Incoming(edges, k) + [] == Incoming(edges, k);
    }
  }

  lemma {:induction false} SortOfRising(s: seq<Edge>)
    requires forall i, j :: 0 <= i < j < |s| ==> ReadsBefore(s[i], s[j])
    ensures Sort(s, ReadsBefore) == s
  {
    if s != [] {
      SortOfRising(s[1..]);
      assert s == [s[0]] + s[1..];
      if |s| > 1 { assert ReadsBefore(s[0], s[1]); }
    }
  }

  lemma {:induction false} AllReferences(rows: seq<Edge>)
    requires forall i :: 0 <= i < |rows| ==> rows[i].kind == ReferenceEdge
    ensures References(rows) == rows
  {
    if rows != [] {
      AllReferences(rows[..|rows| - 1]);
      assert rows == rows[..|rows| - 1] + [rows[|rows| - 1]];
    }
  }

  lemma {:induction false} ReferencesIff(incoming: seq<Edge>)
    ensures forall e :: e in References(incoming) <==> e in incoming && e.kind == ReferenceEdge
  {
    if incoming != [] {
      ReferencesIff(incoming[..|incoming| - 1]);
      assert incoming == incoming[..|incoming| - 1] + [incoming[|incoming| - 1]];
    }
  }

  /** The parents are exactly the active reference edges of the target, by selection
      order, those without one last, and by sequence number where that is equal. */
  lemma ParentsInOrder(edges: seq<Edge>, target: nat, color: (nat, nat, nat) -> string) returns (rows: seq<Edge>)
    ensures var r := ReferenceParents(edges, target, color);
      && |r| == |rows|
      && (forall i :: 0 <= i < |r| ==>
           var e := rows[i];
           r[i] == ReferenceParent(e.source, i, "R" + Digits(i + 1), color(e.tree, e.target, e.source)))
    ensures multiset(rows) == multiset(References(Incoming(edges, target)))
    ensures forall e :: e in rows <==> e in edges && !e.deleted && e.target == target && e.kind == ReferenceEdge
    ensures forall i, j :: 0 <= i < j < |rows| ==>
      var a := if rows[i].order.Some? then rows[i].order.value else 2147483647;
      var b := if rows[j].order.Some? then rows[j].order.value else 2147483647;
      a < b || (a == b && rows[i].sequence <= rows[j].sequence)
  {
    hide Incoming, References, Digits, Sort;
    var refs := References(Incoming(edges, target));
    rows := Sort(refs, ReadsBefore);
    IncomingIff(edges, target);
    ReferencesIff(Incoming(edges, target));
    SameLength(refs, rows);
    SortSorts(refs, ReadsBefore);
  }

  /** A set written for a fresh target reads back as its sources in selection order,
      labelled R1, R2, ... as they were labelled when written. */
  lemma ReadBack(edges: seq<Edge>, tree: nat, target: nat, sources: seq<nat>, sequence: int,
                 color: (nat, nat, nat) -> string)
    requires forall i :: 0 <= i < |edges| ==> edges[i].target != target
    requires |sources| <= MAX_SOURCES
    ensures var r := ReferenceParents(edges + SetRows(tree, target, sources, sequence), target, color);
      && |r| == |sources|
      && forall i :: 0 <= i < |sources| ==>
           r[i] == ReferenceParent(sources[i], i, "R" + Digits(i + 1), color(tree, target, sources[i]))
  {
    hide Incoming, Sort, References, Digits;
    var rows := SetRows(tree, target, sources, sequence);
    FreshIncoming(edges, tree, target, sources, sequence);
    AllReferences(rows);
    SortOfRising(rows);
  }

  // --- Deleting and moving edges ------------------------------------------------------------

  /** The incoming edges around row i, before and after the row changes. */
  lemma IncomingUpdate(edges: seq<Edge>, i: nat, e: Edge, target: nat) returns (front: seq<Edge>, back: seq<Edge>)
    requires i < |edges|
    ensures Incoming(edges, target) == front + (if Arrives(edges[i], target) then [edges[i]] else []) + back
    ensures Incoming(edges[i := e], target) == front + (if Arrives(e, target) then [e] else []) + back
    ensures forall x :: x in front + back ==> x in edges
  {
    hide Incoming;
    var a, b := edges[..i], edges[i + 1..];
    assert edges == a + [edges[i]] + b && edges[i := e] == a + [e] + b;
    front, back := Incoming(a, target), Incoming(b, target);
    forall x: Edge ensures Incoming(a + [x] + b, target) == front + (if Arrives(x, target) then [x] else []) + back {
      IncomingAppend(a + [x], b, target);
      IncomingSnoc(a, x, target);
    }
    IncomingIff(a, target);
    IncomingIff(b, target);
  }

  /** Sources before and after one of a list of edges goes or is replaced. */
  lemma SourcesAround(front: seq<Edge>, e: Edge, back: seq<Edge>)
    ensures Sources(front + [e] + back) == Sources(front) + [e.source] + Sources(back)
    ensures Sources(front + back) == Sources(front) + Sources(back)
  {
  }

  lemma RemoveDistinct(a: seq<nat>, x: nat, b: seq<nat>)
    requires NoDuplicates(a + [x] + b)
    ensures NoDuplicates(a + b) && x !in a + b
  {
    var s := a + [x] + b;
    assert s[|a|] == x;
    forall i | 0 <= i < |a + b| ensures (a + b)[i] == s[if i < |a| then i else i + 1] { }
    forall i, j | 0 <= i < j < |a + b| ensures (a + b)[i] != (a + b)[j] {
      assert s[if i < |a| then i else i + 1] != s[if j < |a| then j else j + 1];
    }
  }

  lemma ReplaceDistinct(a: seq<nat>, x: nat, y: nat, b: seq<nat>)
    requires NoDuplicates(a + [x] + b) && y !in a + [x] + b
    ensures NoDuplicates(a + [y] + b)
  {
    var s, r := a + [x] + b, a + [y] + b;
    forall i | 0 <= i < |s| ensures r[i] == if i == |a| then y else s[i] { }
    forall i, j | 0 <= i < j < |s| ensures r[i] != r[j] {
      assert s[i] != s[j] && s[i] in s && s[j] in s;
    }
  }

  /** Removing one edge of a valid reference set leaves a valid one exactly when
      three or more were there and the anchor's edge is not the one removed. */
  lemma RemoveReferenceIff(n: Node, front: seq<Edge>, e: Edge, back: seq<Edge>)
    requires ReferenceSet(n, front + [e] + back)
    ensures ReferenceSet(n, front + back) <==> |front + [e] + back| >= 3 && e.source != n.parent.value
  {
    var all, less := front + [e] + back, front + back;
    SourcesAround(front, e, back);
    RemoveDistinct(Sources(front), e.source, Sources(back));
    forall i | 0 <= i < |less| ensures less[i].kind == ReferenceEdge && less[i].tree == n.tree {
      assert less[i] == all[if i < |front| then i else i + 1];
    }
  }

  /** Giving one edge of a valid reference set a source that is not in it leaves a
      valid set exactly when the edge was not the anchor's. */
  lemma ReplaceReferenceIff(n: Node, front: seq<Edge>, e: Edge, moved: Edge, back: seq<Edge>)
    requires ReferenceSet(n, front + [e] + back)
    requires moved.kind == e.kind && moved.tree == e.tree && moved.source !in Sources(front + [e] + back)
    ensures ReferenceSet(n, front + [moved] + back) <==> e.source != n.parent.value
  {
    var all, after := front + [e] + back, front + [moved] + back;
    SourcesAround(front, e, back);
    SourcesAround(front, moved, back);
    RemoveDistinct(Sources(front), e.source, Sources(back));
    ReplaceDistinct(Sources(front), e.source, moved.source, Sources(back));
    assert all[|front|] == e;
    forall i | 0 <= i < |after| ensures after[i].kind == ReferenceEdge && after[i].tree == n.tree {
      assert i != |front| ==> after[i] == all[i];
    }
  }

  lemma RemoveFromOthers(n: Node, front: seq<Edge>, e: Edge, moved: Edge, back: seq<Edge>)
    requires n.kind != Message || n.mode == Lineage
    requires MatrixOk(n, front + [e] + back) && moved.kind == e.kind
    ensures MatrixOk(n, front + back) && MatrixOk(n, front + [moved] + back)
  {
    var all, less, after := front + [e] + back, front + back, front + [moved] + back;
    assert all[|front|] == e;
    forall i | 0 <= i < |less| ensures less[i] == all[if i < |front| then i else i + 1] { }
    forall i | 0 <= i < |after| ensures i == |front| || after[i] == all[i] { }
  }

  /** What soft deletion of row i does to every node. */
  lemma SoftDeleteEffect(nodes: map<nat, Node>, edges: seq<Edge>, i: nat, id: nat)
    requires AllOk(nodes, edges) && id in nodes && i < |edges| && !edges[i].deleted
    ensures var n, after := nodes[id], Incoming(edges[i := edges[i].(deleted := true)], id);
      if edges[i].target == id && n.kind == Message && n.mode == MultiReference
      then MatrixOk(n, after) <==> |Incoming(edges, id)| >= 3 && Some(edges[i].source) != n.parent
      else MatrixOk(n, after)
  {
    hide Incoming, NoDuplicates, Sources;
    var e, n := edges[i], nodes[id];
    var front, back := IncomingUpdate(edges, i, e.(deleted := true), id);
    assert front + [] + back == front + back;
    if e.target == id {
      if n.kind == Message && n.mode == MultiReference {
        RemoveReferenceIff(n, front, e, back);
      } else {
        RemoveFromOthers(n, front, e, e, back);
      }
    }
  }

  /** What moving row i to a new source does to every node, once the table's
      constraints have let it through. */
  lemma MoveEffect(nodes: map<nat, Node>, edges: seq<Edge>, i: nat, source: nat, id: nat)
    requires AllOk(nodes, edges) && id in nodes && i < |edges| && !edges[i].deleted
    requires edges[i].source != source && !RowExists(edges, source, edges[i].target, edges[i].kind)
    ensures var n, after := nodes[id], Incoming(edges[i := Moved(edges, i, source)], id);
      if edges[i].target == id && n.kind == Message && n.mode == MultiReference
      then MatrixOk(n, after) <==> Some(edges[i].source) != n.parent
      else MatrixOk(n, after)
  {
    hide Incoming, NoDuplicates, MaxOutgoing;
    var e, n, moved := edges[i], nodes[id], Moved(edges, i, source);
    var front, back := IncomingUpdate(edges, i, moved, id);
    if e.target == id {
      if n.kind == Message && n.mode == MultiReference {
        var all := front + [e] + back;
        assert all[|front|] == e;
        forall k | 0 <= k < |all| ensures Sources(all)[k] != source {
          assert all[k] in edges by {
            if k == |front| { assert all[k] == e; } else { assert all[k] in front + back; }
          }
          IncomingTargets(edges, id, all, k);
          var j :| 0 <= j < |edges| && edges[j] == all[k];
        }
        ReplaceReferenceIff(n, front, e, moved, back);
      } else {
        RemoveFromOthers(n, front, e, moved, back);
      }
    }
  }

  lemma IncomingTargets(edges: seq<Edge>, id: nat, all: seq<Edge>, k: nat)
    requires all == Incoming(edges, id) && k < |all|
    ensures all[k].target == id
  {
    IncomingIff(edges, id);
  }

  // --- Runs -----------------------------------------------------------------------------------

  /** The row's target takes a reference set. */
  ghost predicate HitsReferenceSet(nodes: map<nat, Node>, edges: seq<Edge>, row: nat) {
    row < |edges| && edges[row].target in nodes && nodes[edges[row].target].mode == MultiReference
  }

  /** Plain nodes are inserted in lineage mode; deletes and moves spare the edges of
      multi_reference targets. */
  ghost predicate InScope(t: Tables, op: Op) {
    match op
    case InsertNode(_, n) => n.mode == Lineage
    case DeleteEdge(row) => !HitsReferenceSet(t.nodes, t.edges, row)
    case MoveEdge(row, _) => !HitsReferenceSet(t.nodes, t.edges, row)
    case _ => true
  }

  /** The foreign keys hold. */
  ghost predicate Linked(t: Tables) {
    && (forall id :: id in t.nodes ==> t.nodes[id].tree in t.trees)
    && forall i :: 0 <= i < |t.edges| ==>
      t.edges[i].tree in t.trees && t.edges[i].source in t.nodes && t.edges[i].target in t.nodes
  }

  /** Every transaction keeps the foreign keys. */
  lemma StepLinks(t: Tables, op: Op)
    requires Linked(t)
    ensures Linked(Apply(t, op))
  {
    hide MatrixOk, Incoming, MaxSequence, MaxOutgoing, Decide, NoDuplicates;
  }

  /** No transaction in scope breaks any node's matrix. */
  lemma StepKeeps(t: Tables, op: Op)
    requires Linked(t) && AllOk(t.nodes, t.edges) && InScope(t, op)
    ensures var t' := Apply(t, op); AllOk(t'.nodes, t'.edges)
  {
    hide MatrixOk, Incoming, Moved, MaxSequence, SetRows, Decide, NoDuplicates;
    var t' := Apply(t, op);
    match op
    case InsertTree(_) =>
    case InsertNode(id, n) =>
      if t' != t {
        NothingArrives(t.edges, id);
        PlainNodeOk(n);
      }
    case CreateEdge(e) =>
      if t' != t { CreateKeeps(t.nodes, t.edges, Active(e)); }
    case CreateReply(id, n, sources) =>
      if t' != t { SetKeepsOthers(t.nodes, t.edges, n, id, sources, MaxSequence(t.edges, n.tree)); }
    case DeleteEdge(row) =>
      if t' != t {
        forall id | id in t.nodes
          ensures MatrixOk(t.nodes[id], Incoming(t'.edges, id))
        {
          SoftDeleteEffect(t.nodes, t.edges, row, id);
        }
      }
    case MoveEdge(row, source) =>
      if t' != t {
        forall id | id in t.nodes
          ensures MatrixOk(t.nodes[id], Incoming(t'.edges, id))
        {
          MoveEffect(t.nodes, t.edges, row, source, id);
        }
      }
  }

  /** The tables after a run that starts empty. */
  ghost function After(ops: seq<Op>): Tables
  {
    if ops == [] then Tables({}, map[], []) else Apply(After(ops[..|ops| - 1]), ops[|ops| - 1])
  }

  ghost predicate RunInScope(ops: seq<Op>) {
    forall k :: 0 <= k < |ops| ==> InScope(After(ops[..k]), ops[k])
  }

  /** The foreign keys hold after every run, and the parent matrix after every run in
      scope. */
  lemma {:induction false} RunKeeps(ops: seq<Op>)
    ensures Linked(After(ops))
    ensures RunInScope(ops) ==> AllOk(After(ops).nodes, After(ops).edges)
  {
    hide Apply, InScope;
    if ops != [] {
      var front := ops[..|ops| - 1];
      assert forall k :: 0 <= k < |front| ==> front[..k] == ops[..k] && front[k] == ops[k];
      RunKeeps(front);
      StepLinks(After(front), ops[|ops| - 1]);
      if RunInScope(ops) { StepKeeps(After(front), ops[|ops| - 1]); }
    }
  }

  // --- Trees -----------------------------------------------------------------------------------

  /** Every active edge starts at a node of its own tree. */
  ghost predicate SameTree(t: Tables) {
    forall i :: 0 <= i < |t.edges| && !t.edges[i].deleted ==>
      t.edges[i].source in t.nodes && t.nodes[t.edges[i].source].tree == t.edges[i].tree
  }

  /** If the transaction goes through, the sources it writes are in the edge's tree. */
  ghost predicate StaysInTree(t: Tables, op: Op) {
    match op
    case CreateEdge(e) => CreateRefusal(t, e).None? ==> t.nodes[e.source].tree == e.tree
    case CreateReply(id, n, sources) =>
      ReplyFits(t, id, n, sources) ==> forall s :: s in sources ==> s in t.nodes && t.nodes[s].tree == n.tree
    case MoveEdge(row, source) => Movable(t, row, source) ==> t.nodes[source].tree == t.edges[row].tree
    case _ => true
  }

  /** Neither Create nor a reference set nor Move compares trees: each keeps edges
      within their tree exactly when its caller saw to it. */
  lemma SameTreeStepIff(t: Tables, op: Op)
    requires SameTree(t)
    ensures SameTree(Apply(t, op)) <==> StaysInTree(t, op)
  {
    hide MatrixOk, Incoming, MaxSequence, MaxOutgoing, Decide, NoDuplicates;
    var t' := Apply(t, op);
    if t' != t {
      match op
      case InsertTree(_) =>
      case InsertNode(_, _) =>
      case CreateEdge(e) => assert t'.edges[|t.edges|] == Active(e);
      case CreateReply(id, n, sources) => ReplySameTreeIff(t, id, n, sources);
      case DeleteEdge(_) =>
      case MoveEdge(row, source) => assert t'.edges[row].source == source && t'.edges[row].tree == t.edges[row].tree;
    }
  }

  lemma ReplySameTreeIff(t: Tables, id: nat, n: Node, sources: seq<nat>)
    requires SameTree(t) && ReplyFits(t, id, n, sources)
    ensures SameTree(WithReply(t, id, n, sources)) <==> forall s :: s in sources ==>
      s in t.nodes && t.nodes[s].tree == n.tree
  {
    hide MatrixOk, Incoming, MaxSequence, NoDuplicates;
    var t' := WithReply(t, id, n, sources);
    forall i | 0 <= i < |sources|
      ensures var e := t'.edges[|t.edges| + i];
        !e.deleted && e.source == sources[i] && e.tree == n.tree && sources[i] != id
    { }
    forall i | 0 <= i < |t.edges| ensures t'.edges[i] == t.edges[i] { }
    if SameTree(t') {
      forall s | s in sources ensures s in t.nodes && t.nodes[s].tree == n.tree {
        var i :| 0 <= i < |sources| && sources[i] == s;
        assert t'.edges[|t.edges| + i].source == s;
      }
    } else {
      var i :| 0 <= i < |t'.edges| && !t'.edges[i].deleted
        && !(t'.edges[i].source in t'.nodes && t'.nodes[t'.edges[i].source].tree == t'.edges[i].tree);
      assert i >= |t.edges| && sources[i - |t.edges|] in sources;
    }
  }

  /** Over a run edges stay within their trees if every transaction's caller checks. */
  lemma {:induction false} RunSameTree(ops: seq<Op>)
    requires forall k :: 0 <= k < |ops| ==> StaysInTree(After(ops[..k]), ops[k])
    ensures SameTree(After(ops))
  {
    hide Apply, StaysInTree;
    if ops != [] {
      var front := ops[..|ops| - 1];
      assert forall k :: 0 <= k < |front| ==> front[..k] == ops[..k] && front[k] == ops[k];
      RunSameTree(front);
      SameTreeStepIff(After(front), ops[|ops| - 1]);
    }
  }

  const PLAIN := (tree: nat) => Node(tree, Message, Lineage, None)

  /** Nodes 1 and 2 of tree 1, node 3 of tree 2, and the edge from 1 to 2. */
  const TWO_TREES := Tables({1, 2}, map[1 := PLAIN(1), 2 := PLAIN(1), 3 := PLAIN(2)],
    [Edge(1, 1, 2, Reply, 1, None, false)])

  /** Move takes an edge of tree 1 to a source in tree 2. */
  lemma MoveLeavesTree()
    ensures Linked(TWO_TREES) && AllOk(TWO_TREES.nodes, TWO_TREES.edges) && SameTree(TWO_TREES)
    ensures Movable(TWO_TREES, 0, 3) && !SameTree(Apply(TWO_TREES, MoveEdge(0, 3)))
  {
    TwoTreesValid();
    assert Movable(TWO_TREES, 0, 3);
    SameTreeStepIff(TWO_TREES, MoveEdge(0, 3));
    hide Apply, SameTree, AllOk, Linked;
  }

  lemma TwoTreesValid()
    ensures Linked(TWO_TREES) && AllOk(TWO_TREES.nodes, TWO_TREES.edges) && SameTree(TWO_TREES)
  {
    hide Incoming, MatrixOk;
    forall id | id in TWO_TREES.nodes ensures MatrixOk(TWO_TREES.nodes[id], Incoming(TWO_TREES.edges, id)) {
      TwoTreesAt(id);
      if id == 2 { OneParentOk(TWO_TREES.nodes[2], TWO_TREES.edges[0]); } else { PlainNodeOk(TWO_TREES.nodes[id]); }
    }
  }

  lemma TwoTreesAt(id: nat)
    ensures Incoming(TWO_TREES.edges, id) == if id == 2 then [TWO_TREES.edges[0]] else []
  {
    var e := TWO_TREES.edges[0];
    IncomingSnoc([], e, id);
    assert [] + [e] == TWO_TREES.edges;
  }

  lemma OneParentOk(n: Node, e: Edge)
    requires n.mode == Lineage && n.kind == Message && e.kind != ReferenceEdge
    ensures MatrixOk(n, [e])
  {
  }

  /** A reply in tree 1 is accepted with both of its sources in tree 2. */
  lemma ReplyTakesForeignSources()
    ensures var t := Tables({1, 2}, map[3 := PLAIN(2), 4 := PLAIN(2)], []);
      var n := Node(1, Message, MultiReference, Some(3));
      Linked(t) && SameTree(t) && ReplyFits(t, 5, n, [3, 4]) && !SameTree(Apply(t, CreateReply(5, n, [3, 4])))
  {
    var t := Tables({1, 2}, map[3 := PLAIN(2), 4 := PLAIN(2)], []);
    var n := Node(1, Message, MultiReference, Some(3));
    ReplyAccepted(t, 5, n, [3, 4]);
    SameTreeStepIff(t, CreateReply(5, n, [3, 4]));
    assert 3 in [3, 4];
  }

  const REPLY := Node(1, Message, MultiReference, Some(1))

  /** Node 5 with sources 1 and 2, of which 1 is its anchor. */
  const SMALLEST :=
    Tables({1}, map[1 := PLAIN(1), 2 := PLAIN(1), 3 := PLAIN(1), 5 := REPLY], SetRows(1, 5, [1, 2], 0))

  lemma SmallestSetAt(id: nat)
    ensures Incoming(SMALLEST.edges, id) == if id == 5 then SMALLEST.edges else []
  {
    var rows := SMALLEST.edges;
    if id == 5 {
      FreshIncoming([], 1, 5, [1, 2], 0);
      assert [] + rows == rows;
    } else {
      NothingArrives(rows, id);
    }
  }

  lemma SmallestSetValid()
    ensures Linked(SMALLEST) && AllOk(SMALLEST.nodes, SMALLEST.edges)
    ensures |Incoming(SMALLEST.edges, 5)| == 2
  {
    hide Incoming, MatrixOk;
    FreshSetAccepted(REPLY, [1, 2], 0, 5);
    SmallestSetAt(5);
    forall id | id in SMALLEST.nodes ensures MatrixOk(SMALLEST.nodes[id], Incoming(SMALLEST.edges, id)) {
      SmallestSetAt(id);
      if id != 5 { PlainNodeOk(SMALLEST.nodes[id]); }
    }
  }

  /** The smallest reference set loses its validity with either edge, and with a move
      of its anchor's edge. */
  lemma SmallestSetBreaks()
    ensures !MatrixOk(REPLY, Incoming(Apply(SMALLEST, DeleteEdge(0)).edges, 5))
    ensures !MatrixOk(REPLY, Incoming(Apply(SMALLEST, DeleteEdge(1)).edges, 5))
    ensures Movable(SMALLEST, 0, 3) && !MatrixOk(REPLY, Incoming(Apply(SMALLEST, MoveEdge(0, 3)).edges, 5))
  {
    hide Incoming, MatrixOk, AllOk, Linked, MaxOutgoing;
    var nodes, rows := SMALLEST.nodes, SMALLEST.edges;
    SmallestSetValid();
    assert 5 in nodes && nodes[5] == REPLY;
    SoftDeleteEffect(nodes, rows, 0, 5);
    SoftDeleteEffect(nodes, rows, 1, 5);
    assert !RowExists(rows, 3, 5, ReferenceEdge);
    MoveEffect(nodes, rows, 0, 3, 5);
  }

  lemma PlainNodeOk(n: Node)
    requires n.mode == Lineage
    ensures MatrixOk(n, [])
  {
  }
}
