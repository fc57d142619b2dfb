/** The canonical byte buffer behind the snapshot hash (computeSnapshotHash in
    internal/db/snapshot_repo.go); hashing itself is not modelled. */
module Snapshot {
  import opened Wrappers
  import opened Text
  import opened Sorting

  /** Ids are in their text form; createdAt is in nanoseconds. */
  datatype Node = Node(id: string, seqNum: int, createdAt: int, parent: Option<string>,
                       contentHash: string, contentFormat: string, nodeType: string)

  datatype Edge = Edge(id: string, source: string, target: string, edgeType: string)

  datatype Digest = Digest(id: string, seqNum: int, createdAtMs: int, parent: string,
                           contentHash: string, contentFormat: string, nodeType: string)

  /** A missing parent is written as "nil"; milliseconds are rounded down. */
  function DigestOf(n: Node): Digest {
    Digest(n.id, n.seqNum, n.createdAt / 1_000_000, if n.parent.Some? then n.parent.value else "nil",
      n.contentHash, n.contentFormat, n.nodeType)
  }

  predicate NodeBefore(a: Digest, b: Digest) {
    if a.seqNum != b.seqNum then a.seqNum < b.seqNum else Less(a.id, b.id)
  }

  predicate EdgeBefore(a: Edge, b: Edge) {
    if a.source != b.source then Less(a.source, b.source)
    else if a.target != b.target then Less(a.target, b.target)
    else if a.edgeType != b.edgeType then Less(a.edgeType, b.edgeType)
    else Less(a.id, b.id)
  }

  function Map<S, T>(s: seq<S>, f: S -> T): (r: seq<T>)
    ensures |r| == |s| && forall i :: 0 <= i < |s| ==> r[i] == f(s[i])
  {
    seq(|s|, i requires 0 <= i < |s| => f(s[i]))
  }

  type Record = f: seq<string> | f != [] witness [""]

  function NodeFields(d: Digest): (r: Record)
    ensures |r| == 7
  {
    [d.id, Itoa(d.seqNum), Itoa(d.createdAtMs), d.parent, d.contentHash, d.contentFormat, d.nodeType]
  }

  function EdgeFields(e: Edge): (r: Record)
    ensures |r| == 4
  {
    [e.id, e.source, e.target, e.edgeType]
  }

  function Colons(fields: seq<string>): string
    requires fields != []
  {
    if |fields| == 1 then fields[0] else fields[0] + [':'] + Colons(fields[1..])
  }

  /** One line per record. */
  function Lines(records: seq<Record>): string
  {
    if records == [] then "" else Colons(records[0]) + ['\n'] + Lines(records[1..])
  }

  function SortedDigests(nodes: seq<Node>): seq<Digest> { Sort(Map(nodes, DigestOf), NodeBefore) }

  function SortedEdges(edges: seq<Edge>): seq<Edge> { Sort(edges, EdgeBefore) }

  function NodeRecords(digests: seq<Digest>): (r: seq<Record>)
    ensures |r| == |digests| && forall i :: 0 <= i < |r| ==> r[i] == NodeFields(digests[i])
  {
    seq(|digests|, i requires 0 <= i < |digests| => NodeFields(digests[i]))
  }

  function EdgeRecords(edges: seq<Edge>): (r: seq<Record>)
    ensures |r| == |edges| && forall i :: 0 <= i < |r| ==> r[i] == EdgeFields(edges[i])
  {
    seq(|edges|, i requires 0 <= i < |edges| => EdgeFields(edges[i]))
  }

  function Records(nodes: seq<Node>, edges: seq<Edge>): seq<Record> {
    NodeRecords(SortedDigests(nodes)) + EdgeRecords(SortedEdges(edges))
  }

  function Buffer(nodes: seq<Node>, edges: seq<Edge>): string { Lines(Records(nodes, edges)) }

  lemma {:induction false} LinesAppend(a: seq<Record>, b: seq<Record>)
    ensures Lines(a + b) == Lines(a) + Lines(b)
  {
    if a == [] {
      assert a + b == b;
    } else {
      assert (a + b)[1..] == a[1..] + b;
      LinesAppend(a[1..], b);
    }
  }

  lemma LinesSnoc(a: seq<Record>, r: Record)
    ensures Lines(a + [r]) == Lines(a) + Colons(r) + ['\n']
  {
    LinesAppend(a, [r]);
    assert Lines([r]) == Colons(r) + ['\n'] + Lines([]);
  }

  method FillDigests(nodes: seq<Node>) returns (digests: seq<Digest>)
    ensures digests == Map(nodes, DigestOf)
  {
    digests := [];
    for i := 0 to |nodes|
      invariant |digests| == i && forall j :: 0 <= j < i ==> digests[j] == DigestOf(nodes[j])
    {
      digests := digests + [DigestOf(nodes[i])];
    }
  }

  /** Fills the digests, sorts both lists and appends their lines. */
  method CanonicalBuffer(nodes: seq<Node>, edges: seq<Edge>) returns (buf: string)
    ensures buf == Buffer(nodes, edges)
  {
    hide Colons, Lines, Sort, NodeFields, EdgeFields;
    var digests := FillDigests(nodes);
    digests := Sort(digests, NodeBefore);
    var sorted := Sort(edges, EdgeBefore);
    ghost var first, second := NodeRecords(digests), EdgeRecords(sorted);
    buf := "";
    NoLines();
    for i := 0 to |digests|
      invariant buf == Lines(first[..i])
    {
      assert first[..i + 1] == first[..i] + [first[i]];
      LinesSnoc(first[..i], first[i]);
      buf := buf + Colons(NodeFields(digests[i])) + ['\n'];
    }
    assert first[..|digests|] == first;
    ghost var head := buf;
    for i := 0 to |sorted|
      invariant buf == head + Lines(second[..i])
    {
      assert second[..i + 1] == second[..i] + [second[i]];
      LinesSnoc(second[..i], second[i]);
      buf := buf + Colons(EdgeFields(sorted[i])) + ['\n'];
    }
    assert second[..|sorted|] == second;
    LinesAppend(first, second);
  }

  lemma NoLines()
    ensures Lines([]) == ""
  {
  }

  // --- What the buffer says ---------------------------------------------------------

  /** A node's line: its seven columns in order, the instant in whole milliseconds and a
      missing parent as "nil". */
  lemma OneNodeLine(n: Node)
    ensures Buffer([n], []) ==
      n.id + ":" + Itoa(n.seqNum) + ":" + Itoa(n.createdAt / 1_000_000) + ":" +
      (match n.parent case None => "nil" case Some(parent) => parent) + ":" +
      n.contentHash + ":" + n.contentFormat + ":" + n.nodeType + "\n"
  {
    hide Itoa;
    var d := DigestOf(n);
    assert Map([n], DigestOf) == [d];
    SortOne(d, NodeBefore);
    SortNone(EdgeBefore);
    assert NodeRecords([d]) == [NodeFields(d)] && EdgeRecords([]) == [];
    assert Records([n], []) == [NodeFields(d)];
    LinesOne(NodeFields(d));
    ColonsOfSeven(d.id, Itoa(d.seqNum), Itoa(d.createdAtMs), d.parent, d.contentHash, d.contentFormat, d.nodeType);
  }

  lemma OneEdgeLine(e: Edge)
    ensures Buffer([], [e]) == e.id + ":" + e.source + ":" + e.target + ":" + e.edgeType + "\n"
  {
    assert Map<Node, Digest>([], DigestOf) == [];
    SortNone(NodeBefore);
    SortOne(e, EdgeBefore);
    assert NodeRecords([]) == [] && EdgeRecords([e]) == [EdgeFields(e)];
    assert Records([], [e]) == [EdgeFields(e)];
    LinesOne(EdgeFields(e));
    ColonsOfFour(e.id, e.source, e.target, e.edgeType);
  }

  lemma SortNone<T>(less: (T, T) -> bool)
    ensures Sort<T>([], less) == []
  {
  }

  lemma SortOne<T>(x: T, less: (T, T) -> bool)
    ensures Sort([x], less) == [x]
  {
    assert [x][1..] == [];
  }

  lemma LinesOne(r: Record)
    ensures Lines([r]) == Colons(r) + "\n"
  {
    assert [r][1..] == [];
  }

  lemma ColonsOfFour(a: string, b: string, c: string, d: string)
    ensures Colons([a, b, c, d]) == a + ":" + b + ":" + c + ":" + d
  {
    assert [a, b, c, d][1..] == [b, c, d] && [b, c, d][1..] == [c, d] && [c, d][1..] == [d];
    var rest := c + ":" + d;
    assert Colons([c, d]) == rest;
    assert Colons([b, c, d]) == b + ":" + rest;
    assert Colons([a, b, c, d]) == a + ":" + (b + ":" + rest);
  }

  lemma ColonsOfSeven(a: string, b: string, c: string, d: string, e: string, f: string, g: string)
    ensures Colons([a, b, c, d, e, f, g]) == a + ":" + b + ":" + c + ":" + d + ":" + e + ":" + f + ":" + g
  {
    assert [a, b, c, d, e, f, g][1..] == [b, c, d, e, f, g] && [b, c, d, e, f, g][1..] == [c, d, e, f, g];
    assert [c, d, e, f, g][1..] == [d, e, f, g];
    var rest := d + ":" + e + ":" + f + ":" + g;
    ColonsOfFour(d, e, f, g);
    assert Colons([c, d, e, f, g]) == c + ":" + rest;
    assert Colons([b, c, d, e, f, g]) == b + ":" + (c + ":" + rest);
    assert Colons([a, b, c, d, e, f, g]) == a + ":" + (b + ":" + (c + ":" + rest));
  }

  /** The lines of the nodes rise by sequence number and then id; those of the edges by
      source, then target, then type, then id. */
  lemma LinesInOrder(nodes: seq<Node>, edges: seq<Edge>)
    ensures Buffer(nodes, edges) ==
      Lines(NodeRecords(SortedDigests(nodes))) + Lines(EdgeRecords(SortedEdges(edges)))
    ensures multiset(SortedDigests(nodes)) == multiset(Map(nodes, DigestOf))
    ensures multiset(SortedEdges(edges)) == multiset(edges)
    ensures var d := SortedDigests(nodes);
      forall i, j :: 0 <= i < j < |d| ==>
        d[i].seqNum < d[j].seqNum || (d[i].seqNum == d[j].seqNum && NotAfter(d[i].id, d[j].id))
    ensures var e := SortedEdges(edges);
      forall i, j :: 0 <= i < j < |e| ==>
        && NotAfter(e[i].source, e[j].source)
        && (e[i].source == e[j].source ==> NotAfter(e[i].target, e[j].target))
        && ((e[i].source, e[i].target) == (e[j].source, e[j].target) ==> NotAfter(e[i].edgeType, e[j].edgeType))
        && ((e[i].source, e[i].target, e[i].edgeType) == (e[j].source, e[j].target, e[j].edgeType) ==>
             NotAfter(e[i].id, e[j].id))
  {
    hide Lines, Sort, Less, NotAfter;
    NodeBeforeIsOrder();
    EdgeBeforeIsOrder();
    SortSorts(Map(nodes, DigestOf), NodeBefore);
    SortSorts(edges, EdgeBefore);
    LinesAppend(NodeRecords(SortedDigests(nodes)), EdgeRecords(SortedEdges(edges)));
    NotLessNotAfter();
  }

  ghost predicate NotAfter(a: string, b: string) { a == b || LexicalLess(a, b) }

  lemma NotLessNotAfter()
    ensures forall a, b :: Less(b, a) || NotAfter(a, b)
    ensures forall a :: NotAfter(a, a)
  {
    hide Less, LexicalLess;
    forall a, b ensures Less(b, a) || NotAfter(a, b) {
      LessTotal(a, b);
      LessIsLexical(a, b);
    }
  }

  // --- Order independence --------------------------------------------------------

  lemma NodeBeforeIsOrder()
    ensures StrictOrder(NodeBefore)
  {
    LessIsOrder();
  }

  lemma EdgeBeforeIsOrder()
    ensures StrictOrder(EdgeBefore)
  {
    LessIsOrder();
  }

  lemma MapAround<S, T>(front: seq<S>, x: S, back: seq<S>, f: S -> T)
    ensures Map(front + [x] + back, f) == Map(front, f) + [f(x)] + Map(back, f)
    ensures Map(front + back, f) == Map(front, f) + Map(back, f)
  {
  }

  lemma MultisetAround<T>(front: seq<T>, x: T, back: seq<T>)
    ensures multiset(front + [x] + back) == multiset{x} + multiset(front + back)
  {
    assert multiset(front + back) == multiset(front) + multiset(back);
  }

  lemma MultisetCancel<T>(x: T, a: multiset<T>, b: multiset<T>)
    requires multiset{x} + a == multiset{x} + b
    ensures a == b
  {
    forall y ensures a[y] == b[y] { assert (multiset{x} + a)[y] == (multiset{x} + b)[y]; }
  }

  /** Taking the same element out of two permutations leaves permutations. */
  lemma RemoveSame<T>(s: seq<T>, t: seq<T>, k: nat)
    requires multiset(s) == multiset(t) && s != [] && k < |t| && t[k] == s[0]
    ensures multiset(s[1..]) == multiset(t[..k] + t[k + 1..])
  {
    assert t == t[..k] + [t[k]] + t[k + 1..] && s == [] + [s[0]] + s[1..] && [] + s[1..] == s[1..];
    MultisetAround(t[..k], t[k], t[k + 1..]);
    MultisetAround([], s[0], s[1..]);
    MultisetCancel(s[0], multiset(s[1..]), multiset(t[..k] + t[k + 1..]));
  }

  lemma {:induction false} MapPermutes<S, T>(s: seq<S>, t: seq<S>, f: S -> T)
    requires multiset(s) == multiset(t)
    ensures multiset(Map(s, f)) == multiset(Map(t, f))
  {
    hide Map;
    SameLength(s, t);
    if s == [] {
      assert t == [];
    } else {
      assert s[0] in t;
      var k :| 0 <= k < |t| && t[k] == s[0];
      var front, x, back := t[..k], t[k], t[k + 1..];
      assert t == front + [x] + back && s == [] + [x] + s[1..];
      RemoveSame(s, t, k);
      MapPermutes(s[1..], front + back, f);
      MapAround(front, x, back, f);
      MapAround([], x, s[1..], f);
      EmptyMap<S, T>(f);
      MultisetAround(Map(front, f), f(x), Map(back, f));
      MultisetAround([], f(x), Map(s[1..], f));
      assert [] + Map(s[1..], f) == Map(s[1..], f);
    }
  }

  lemma EmptyMap<S, T>(f: S -> T)
    ensures Map([], f) == []
  {
  }

  /** Nodes that share sequence number and id have the same digest. */
  ghost predicate NodesIdentified(nodes: seq<Node>) {
    forall x, y :: x in nodes && y in nodes && x.seqNum == y.seqNum && x.id == y.id ==> DigestOf(x) == DigestOf(y)
  }

  /** The buffer does not depend on the order in which nodes and edges were read. */
  lemma OrderIndependent(nodes: seq<Node>, nodes': seq<Node>, edges: seq<Edge>, edges': seq<Edge>)
    requires multiset(nodes) == multiset(nodes') && multiset(edges) == multiset(edges')
    requires NodesIdentified(nodes)
    ensures Buffer(nodes, edges) == Buffer(nodes', edges')
  {
    hide Buffer, DigestOf, NodesIdentified;
    MapPermutes(nodes, nodes', DigestOf);
    SameDigestsSameBuffer(nodes, nodes', edges, edges');
  }

  lemma DigestsSeparated(nodes: seq<Node>)
    requires NodesIdentified(nodes)
    ensures Separated(Map(nodes, DigestOf), NodeBefore)
  {
    var digests := Map(nodes, DigestOf);
    LessIsOrder();
    forall x, y | x in digests && y in digests && x != y ensures NodeBefore(x, y) || NodeBefore(y, x) {
      var i :| 0 <= i < |nodes| && digests[i] == x;
      var j :| 0 <= j < |nodes| && digests[j] == y;
      assert nodes[i] in nodes && nodes[j] in nodes;
    }
  }

  lemma EdgesSeparated(edges: seq<Edge>)
    ensures Separated(edges, EdgeBefore)
  {
    LessIsOrder();
  }

  // --- Injectivity ------------------------------------------------------------------

  predicate Clean(s: string) { ':' !in s && '\n' !in s }

  ghost predicate CleanNode(n: Node) {
    && Clean(n.id) && Clean(n.contentHash) && Clean(n.contentFormat) && Clean(n.nodeType)
    && (n.parent.Some? ==> Clean(n.parent.value))
  }

  ghost predicate CleanEdge(e: Edge) { Clean(e.id) && Clean(e.source) && Clean(e.target) && Clean(e.edgeType) }

  ghost predicate CleanRecord(r: Record) { forall i :: 0 <= i < |r| ==> Clean(r[i]) }

  lemma {:induction false} ColonsClean(r: Record)
    requires CleanRecord(r)
    ensures '\n' !in Colons(r) && (':' in Colons(r) <==> |r| > 1)
  {
    if |r| > 1 {
      ColonsClean(r[1..]);
      assert Colons(r)[|r[0]|] == ':';
    }
  }

  /** A line determines its fields, their number included. */
  lemma {:induction false} FieldsUnique(a: Record, b: Record)
    requires CleanRecord(a) && CleanRecord(b) && Colons(a) == Colons(b)
    ensures a == b
  {
    ColonsClean(a);
    ColonsClean(b);
    if |a| > 1 {
      CutUnique(a[0], Colons(a[1..]), b[0], Colons(b[1..]), ':');
      FieldsUnique(a[1..], b[1..]);
      assert a == [a[0]] + a[1..] && b == [b[0]] + b[1..];
    }
  }

  /** A buffer determines its records. */
  lemma {:induction false} RecordsUnique(a: seq<Record>, b: seq<Record>)
    requires forall i :: 0 <= i < |a| ==> CleanRecord(a[i])
    requires forall i :: 0 <= i < |b| ==> CleanRecord(b[i])
    requires Lines(a) == Lines(b)
    ensures a == b
  {
    hide Colons, CleanRecord;
    if a != [] && b != [] {
      ColonsClean(a[0]);
      ColonsClean(b[0]);
      CutUnique(Colons(a[0]), Lines(a[1..]), Colons(b[0]), Lines(b[1..]), '\n');
      FieldsUnique(a[0], b[0]);
      RecordsUnique(a[1..], b[1..]);
      assert a == [a[0]] + a[1..] && b == [b[0]] + b[1..];
    }
  }

  lemma ItoaClean(n: int)
    ensures Clean(Itoa(n))
  {
  }

  lemma NodeFieldsUnique(d: Digest, e: Digest)
    requires NodeFields(d) == NodeFields(e)
    ensures d == e
  {
    var f, g := NodeFields(d), NodeFields(e);
    assert f[0] == g[0] && f[1] == g[1] && f[2] == g[2] && f[3] == g[3] && f[4] == g[4] && f[5] == g[5] && f[6] == g[6];
    ItoaInjective(d.seqNum, e.seqNum);
    ItoaInjective(d.createdAtMs, e.createdAtMs);
  }

  lemma EdgeFieldsUnique(d: Edge, e: Edge)
    requires EdgeFields(d) == EdgeFields(e)
    ensures d == e
  {
    var f, g := EdgeFields(d), EdgeFields(e);
    assert f[0] == g[0] && f[1] == g[1] && f[2] == g[2] && f[3] == g[3];
  }

  lemma EdgeRecordClean(e: Edge)
    requires CleanEdge(e)
    ensures CleanRecord(EdgeFields(e))
  {
  }

  lemma RecordsClean(nodes: seq<Node>, edges: seq<Edge>)
    requires (forall n :: n in nodes ==> CleanNode(n)) && forall e :: e in edges ==> CleanEdge(e)
    ensures forall i :: 0 <= i < |Records(nodes, edges)| ==> CleanRecord(Records(nodes, edges)[i])
  {
    hide Sort, Itoa;
    var digests := Map(nodes, DigestOf);
    SameLength(digests, SortedDigests(nodes));
    SameLength(edges, SortedEdges(edges));
    forall d | d in digests ensures CleanRecord(NodeFields(d)) {
      var i :| 0 <= i < |nodes| && digests[i] == d;
      assert nodes[i] in nodes;
      ItoaClean(d.seqNum);
      ItoaClean(d.createdAtMs);
    }
    hide CleanRecord, NodeFields, EdgeFields, CleanNode, CleanEdge;
    forall e | e in edges ensures CleanRecord(EdgeFields(e)) { EdgeRecordClean(e); }
    forall i | 0 <= i < |Records(nodes, edges)| ensures CleanRecord(Records(nodes, edges)[i]) {
      if i < |nodes| {
        assert SortedDigests(nodes)[i] in digests;
      } else {
        assert SortedEdges(edges)[i - |nodes|] in edges;
      }
    }
  }

  /** Two states without separators in their fields give the same buffer only if they
      agree, as multisets, on every hashed field of every node and edge. */
  lemma BufferInjective(nodes: seq<Node>, nodes': seq<Node>, edges: seq<Edge>, edges': seq<Edge>)
    requires (forall n :: n in nodes ==> CleanNode(n)) && forall e :: e in edges ==> CleanEdge(e)
    requires (forall n :: n in nodes' ==> CleanNode(n)) && forall e :: e in edges' ==> CleanEdge(e)
    requires Buffer(nodes, edges) == Buffer(nodes', edges')
    ensures multiset(Map(nodes, DigestOf)) == multiset(Map(nodes', DigestOf)) && multiset(edges) == multiset(edges')
  {
    hide Sort, Lines, DigestOf, CleanNode, CleanEdge, CleanRecord;
    RecordsClean(nodes, edges);
    RecordsClean(nodes', edges');
    RecordsUnique(Records(nodes, edges), Records(nodes', edges'));
    RecordsSplit(SortedDigests(nodes), SortedDigests(nodes'), SortedEdges(edges), SortedEdges(edges'));
  }

  /** Node lines have seven fields and edge lines four, so neither passes for the
      other. */
  lemma RecordsSplit(d: seq<Digest>, d': seq<Digest>, e: seq<Edge>, e': seq<Edge>)
    requires NodeRecords(d) + EdgeRecords(e) == NodeRecords(d') + EdgeRecords(e')
    ensures d == d' && e == e'
  {
    hide NodeFields, EdgeFields;
    var r, r' := NodeRecords(d) + EdgeRecords(e), NodeRecords(d') + EdgeRecords(e');
    assert |d| == |d'| by {
      SevenFields(d, e, |d'|);
      SevenFields(d', e', |d|);
    }
    forall i | 0 <= i < |d| ensures d[i] == d'[i] {
      assert r[i] == r'[i];
      NodeFieldsUnique(d[i], d'[i]);
    }
    forall i | 0 <= i < |e| ensures e[i] == e'[i] {
      assert r[|d| + i] == r'[|d| + i];
      EdgeFieldsUnique(e[i], e'[i]);
    }
  }

  /** The first n records are node records exactly when there are n nodes. */
  lemma SevenFields(d: seq<Digest>, e: seq<Edge>, n: nat)
    ensures var r := NodeRecords(d) + EdgeRecords(e);
      n <= |d| <==> n <= |r| && forall i :: 0 <= i < n ==> |r[i]| == 7
  {
    var r := NodeRecords(d) + EdgeRecords(e);
    if |d| < n <= |r| { assert |r[|d|]| == 4; }
  }

  /** A parent text is read back as the parent unless some parent is named "nil". */
  lemma ParentReadsBack(m: Node, n: Node)
    requires DigestOf(m) == DigestOf(n) && m.parent != Some("nil") && n.parent != Some("nil")
    ensures m.parent == n.parent
  {
  }

  // --- Stored states -------------------------------------------------------------------

  type Byte = n: nat | n < 256

  type Uuid = u: seq<Byte> | |u| == 16 witness seq(16, _ => 0)

  type Sha = u: seq<Byte> | |u| == 32 witness seq(32, _ => 0)

  function HexDigit(d: nat): (c: char)
    requires d < 16
    ensures Clean([c]) && c != '-'
  {
    "0123456789abcdef"[d]
  }

  function Hex(bytes: seq<Byte>): (s: string)
    ensures |s| == 2 * |bytes|
  {
    if bytes == [] then "" else [HexDigit(bytes[0] / 16), HexDigit(bytes[0] % 16)] + Hex(bytes[1..])
  }

  lemma {:induction false} HexClean(bytes: seq<Byte>)
    ensures Clean(Hex(bytes))
  {
    if bytes != [] {
      HexClean(bytes[1..]);
      assert Clean([HexDigit(bytes[0] / 16)]) && Clean([HexDigit(bytes[0] % 16)]);
    }
  }

  lemma HexDigitInjective(d: nat, e: nat)
    requires d < 16 && e < 16 && HexDigit(d) == HexDigit(e)
    ensures d == e
  {
  }

  lemma {:induction false} HexInjective(a: seq<Byte>, b: seq<Byte>)
    requires Hex(a) == Hex(b)
    ensures a == b
  {
    if a != [] && b != [] {
      assert Hex(a)[0] == HexDigit(a[0] / 16) && Hex(b)[0] == HexDigit(b[0] / 16);
      assert Hex(a)[1] == HexDigit(a[0] % 16) && Hex(b)[1] == HexDigit(b[0] % 16);
      HexDigitInjective(a[0] / 16, b[0] / 16);
      HexDigitInjective(a[0] % 16, b[0] % 16);
      assert Hex(a)[2..] == Hex(a[1..]) && Hex(b)[2..] == Hex(b[1..]);
      HexInjective(a[1..], b[1..]);
      assert a == [a[0]] + a[1..] && b == [b[0]] + b[1..];
    }
  }

  /** The text form of a UUID. */
  function UuidText(u: Uuid): (s: string)
    ensures |s| == 36
  {
    Hex(u[..4]) + "-" + Hex(u[4..6]) + "-" + Hex(u[6..8]) + "-" + Hex(u[8..10]) + "-" + Hex(u[10..])
  }

  lemma UuidTextClean(u: Uuid)
    ensures Clean(UuidText(u))
  {
    HexClean(u[..4]);
    HexClean(u[4..6]);
    HexClean(u[6..8]);
    HexClean(u[8..10]);
    HexClean(u[10..]);
  }

  lemma UuidTextParts(u: Uuid)
    ensures var s := UuidText(u);
      && s[..8] == Hex(u[..4]) && s[9..13] == Hex(u[4..6]) && s[14..18] == Hex(u[6..8])
      && s[19..23] == Hex(u[8..10]) && s[24..] == Hex(u[10..])
  {
    hide Hex;
  }

  lemma UuidTextInjective(u: Uuid, v: Uuid)
    requires UuidText(u) == UuidText(v)
    ensures u == v
  {
    hide Hex, UuidText;
    UuidTextParts(u);
    UuidTextParts(v);
    HexInjective(u[..4], v[..4]);
    HexInjective(u[4..6], v[4..6]);
    HexInjective(u[6..8], v[6..8]);
    HexInjective(u[8..10], v[8..10]);
    HexInjective(u[10..], v[10..]);
    assert u == u[..4] + u[4..6] + u[6..8] + u[8..10] + u[10..];
    assert v == v[..4] + v[4..6] + v[6..8] + v[8..10] + v[10..];
  }

  datatype Format = Markdown | PlainText | Rich
  datatype NodeType = Message | Synthesis | System
  datatype EdgeType = Reply | Fork | SynthesisEdge | Reference

  function FormatText(f: Format): string {
    match f case Markdown => "markdown" case PlainText => "plain" case Rich => "rich"
  }

  function NodeTypeText(t: NodeType): string {
    match t case Message => "message" case Synthesis => "synthesis" case System => "system"
  }

  function EdgeTypeText(t: EdgeType): string {
    match t case Reply => "reply" case Fork => "fork" case SynthesisEdge => "synthesis" case Reference => "reference"
  }

  /** A row of each table as its column types and constraints allow it. */
  datatype StoredNode = StoredNode(id: Uuid, seqNum: int, createdAt: int, parent: Option<Uuid>,
                                   hash: Sha, format: Format, nodeType: NodeType)

  datatype StoredEdge = StoredEdge(id: Uuid, source: Uuid, target: Uuid, edgeType: EdgeType)

  /** What a row is hashed on: all of it, with created_at in milliseconds. */
  function Hashed(n: StoredNode): StoredNode { n.(createdAt := n.createdAt / 1_000_000) }

  function NodeOf(n: StoredNode): Node {
    Node(UuidText(n.id), n.seqNum, n.createdAt, if n.parent.Some? then Some(UuidText(n.parent.value)) else None,
      Hex(n.hash), FormatText(n.format), NodeTypeText(n.nodeType))
  }

  function EdgeOf(e: StoredEdge): Edge {
    Edge(UuidText(e.id), UuidText(e.source), UuidText(e.target), EdgeTypeText(e.edgeType))
  }

  function StoredBuffer(nodes: seq<StoredNode>, edges: seq<StoredEdge>): string {
    Buffer(Map(nodes, NodeOf), Map(edges, EdgeOf))
  }

  lemma FormatTextClean(f: Format)
    ensures Clean(FormatText(f))
  {
  }

  lemma NodeTypeTextClean(t: NodeType)
    ensures Clean(NodeTypeText(t))
  {
  }

  lemma NodeOfClean(n: StoredNode)
    ensures CleanNode(NodeOf(n))
  {
    hide UuidText, Hex;
    UuidTextClean(n.id);
    HexClean(n.hash);
    FormatTextClean(n.format);
    NodeTypeTextClean(n.nodeType);
    hide FormatText, NodeTypeText;
    if n.parent.Some? { UuidTextClean(n.parent.value); }
  }

  lemma EdgeOfClean(e: StoredEdge)
    ensures CleanEdge(EdgeOf(e))
  {
    hide UuidText;
    UuidTextClean(e.id);
    UuidTextClean(e.source);
    UuidTextClean(e.target);
  }

  /** The line of a node determines what it is hashed on, a missing parent included. */
  lemma DigestDetermines(m: StoredNode, n: StoredNode)
    ensures DigestOf(NodeOf(m)) == DigestOf(NodeOf(n)) <==> Hashed(m) == Hashed(n)
  {
    hide UuidText, Hex;
    if DigestOf(NodeOf(m)) == DigestOf(NodeOf(n)) {
      UuidTextInjective(m.id, n.id);
      HexInjective(m.hash, n.hash);
      ParentReadsBack(NodeOf(m), NodeOf(n));
      if m.parent.Some? && n.parent.Some? { UuidTextInjective(m.parent.value, n.parent.value); }
    }
  }

  lemma EdgeDetermines(d: StoredEdge, e: StoredEdge)
    ensures EdgeOf(d) == EdgeOf(e) <==> d == e
  {
    hide UuidText;
    if EdgeOf(d) == EdgeOf(e) {
      UuidTextInjective(d.id, e.id);
      UuidTextInjective(d.source, e.source);
      UuidTextInjective(d.target, e.target);
    }
  }

  /** Two views of the same items that tell the same ones apart agree on when two
      lists are permutations of each other. */
  lemma {:induction false} ViewsAgree<S, T, U>(s: seq<S>, t: seq<S>, f: S -> T, g: S -> U)
    requires forall x, y :: f(x) == f(y) <==> g(x) == g(y)
    requires multiset(Map(s, f)) == multiset(Map(t, f))
    ensures multiset(Map(s, g)) == multiset(Map(t, g))
  {
    SameLength(Map(s, f), Map(t, f));
    if s == [] {
      assert t == [];
    } else {
      var fs, ft := Map(s, f), Map(t, f);
      assert fs[0] == f(s[0]);
      assert fs[0] in multiset(fs);
      assert fs[0] in multiset(ft);
      var k :| 0 <= k < |ft| && ft[k] == fs[0];
      var front, back := t[..k], t[k + 1..];
      RemoveSame(fs, ft, k);
      assert Map(s[1..], f) == Map(s, f)[1..];
      assert Map(front + back, f) == Map(t, f)[..k] + Map(t, f)[k + 1..];
      ViewsAgree(s[1..], front + back, f, g);
      assert s == [] + [s[0]] + s[1..];
      MapAround([], s[0], s[1..], g);
      EmptyMap(g);
      assert [] + s[1..] == s[1..];
      assert [] + Map(s[1..], g) == Map(s[1..], g);
      assert t == front + [t[k]] + back;
      MapAround(front, t[k], back, g);
      assert f(t[k]) == f(s[0]);
      MultisetAround([], g(s[0]), Map(s[1..], g));
      MultisetAround(Map(front, g), g(t[k]), Map(back, g));
    }
  }

  /** The rows' ids are their keys. */
  ghost predicate KeysUnique(nodes: seq<StoredNode>) {
    forall x, y :: x in nodes && y in nodes && x.id == y.id ==> x == y
  }

  /** Of everything the store can hold, two states have the same buffer exactly when
      they agree, as multisets, on all edges and on all hashed columns of all nodes. */
  lemma StoredBufferIff(nodes: seq<StoredNode>, nodes': seq<StoredNode>,
                        edges: seq<StoredEdge>, edges': seq<StoredEdge>)
    requires KeysUnique(nodes)
    ensures StoredBuffer(nodes, edges) == StoredBuffer(nodes', edges') <==>
      multiset(Map(nodes, Hashed)) == multiset(Map(nodes', Hashed)) && multiset(edges) == multiset(edges')
  {
    hide Buffer, NodeOf, EdgeOf, DigestOf, Hashed, CleanNode, CleanEdge;
    var digest := (n: StoredNode) => DigestOf(NodeOf(n));
    var same := (e: StoredEdge) => e;
    forall x, y ensures digest(x) == digest(y) <==> Hashed(x) == Hashed(y) { DigestDetermines(x, y); }
    forall x, y ensures EdgeOf(x) == EdgeOf(y) <==> same(x) == same(y) { EdgeDetermines(x, y); }
    assert Map(nodes, digest) == Map(Map(nodes, NodeOf), DigestOf);
    assert Map(nodes', digest) == Map(Map(nodes', NodeOf), DigestOf);
    assert Map(edges, same) == edges && Map(edges', same) == edges';
    if StoredBuffer(nodes, edges) == StoredBuffer(nodes', edges') {
      forall n ensures CleanNode(NodeOf(n)) { NodeOfClean(n); }
      forall e ensures CleanEdge(EdgeOf(e)) { EdgeOfClean(e); }
      BufferInjective(Map(nodes, NodeOf), Map(nodes', NodeOf), Map(edges, EdgeOf), Map(edges', EdgeOf));
      ViewsAgree(nodes, nodes', digest, Hashed);
      ViewsAgree(edges, edges', EdgeOf, same);
    }
    if multiset(Map(nodes, Hashed)) == multiset(Map(nodes', Hashed)) && multiset(edges) == multiset(edges') {
      ViewsAgree(nodes, nodes', Hashed, digest);
      ViewsAgree(edges, edges', same, EdgeOf);
      StoredIdentified(nodes);
      SameDigestsSameBuffer(Map(nodes, NodeOf), Map(nodes', NodeOf), Map(edges, EdgeOf), Map(edges', EdgeOf));
    }
  }

  lemma StoredIdentified(nodes: seq<StoredNode>)
    requires KeysUnique(nodes)
    ensures NodesIdentified(Map(nodes, NodeOf))
  {
    hide UuidText, Hex, DigestOf;
    var texts := Map(nodes, NodeOf);
    forall x, y | x in texts && y in texts && x.seqNum == y.seqNum && x.id == y.id ensures x == y {
      var i :| 0 <= i < |nodes| && texts[i] == x;
      var j :| 0 <= j < |nodes| && texts[j] == y;
      assert nodes[i] in nodes && nodes[j] in nodes;
      UuidTextInjective(nodes[i].id, nodes[j].id);
    }
  }

  lemma SameDigestsSameBuffer(nodes: seq<Node>, nodes': seq<Node>, edges: seq<Edge>, edges': seq<Edge>)
    requires multiset(Map(nodes, DigestOf)) == multiset(Map(nodes', DigestOf)) && multiset(edges) == multiset(edges')
    requires NodesIdentified(nodes)
    ensures Buffer(nodes, edges) == Buffer(nodes', edges')
  {
    hide Sort, Lines, DigestOf, Less;
    NodeBeforeIsOrder();
    EdgeBeforeIsOrder();
    DigestsSeparated(nodes);
    EdgesSeparated(edges);
    SortCanonical(Map(nodes, DigestOf), Map(nodes', DigestOf), NodeBefore);
    SortCanonical(edges, edges', EdgeBefore);
  }

  /** Texts that are no UUIDs show why BufferInjective asks for fields without
      separators. No stored row has such ids. */
  lemma SeparatorsCollide()
    ensures var e, e' := Edge("a:b", "c", "d", "t"), Edge("a", "b:c", "d", "t");
      e != e' && Buffer([], [e]) == Buffer([], [e'])
  {
    var e, e' := Edge("a:b", "c", "d", "t"), Edge("a", "b:c", "d", "t");
    FourFields(e);
    FourFields(e');
    assert Colons(EdgeFields(e)) == "a:b:c:d:t" == Colons(EdgeFields(e'));
    OneLine(e);
    OneLine(e');
  }

  lemma OneLine(e: Edge)
    ensures Buffer([], [e]) == Colons(EdgeFields(e)) + ['\n']
  {
    hide Colons, EdgeFields;
    EmptyMap(DigestOf);
    assert SortedDigests([]) == [] && SortedEdges([e]) == [e];
    assert Records([], [e]) == [EdgeFields(e)];
    LinesSnoc([], EdgeFields(e));
    NoLines();
    assert [] + [EdgeFields(e)] == [EdgeFields(e)];
  }

  lemma FourFields(e: Edge)
    ensures Colons(EdgeFields(e)) == e.id + ":" + e.source + ":" + e.target + ":" + e.edgeType
  {
    var f := EdgeFields(e);
    assert f[1..] == [e.source, e.target, e.edgeType];
    assert f[1..][1..] == [e.target, e.edgeType];
    assert f[1..][1..][1..] == [e.edgeType];
    assert Colons(f[1..][1..][1..]) == e.edgeType;
    assert Colons(f[1..][1..]) == e.target + ":" + e.edgeType;
    assert Colons(f[1..]) == e.source + ":" + (e.target + ":" + e.edgeType);
  }
}
