/** The budget pipeline of internal/context/compiler.go: the selection, the two
    required reads, depth cut, pinned budget walk, one-node floor, digest, tiers,
    assembly. The readers' results are inputs, an optional reader that fails being
    one that finds nothing; nodes arrive newest first, as the compiler assumes. */
module ContextCompiler {
  import opened Wrappers
  import opened Sums
  import opened Text
  import opened Greedy
  import Rendering
  import Retrieval
  import MultiReference
  import Allocation
  import AllocationTheorems

  const DEFAULT_ANCESTORS := 50

  datatype Node = Node(id: string, author: string, content: string, pinned: bool)

  function NodeText(n: Node): (t: string)
    ensures t != ""
  {
    "--- node " + n.id + " (" + n.author + ") ---\n" + n.content
  }

  function Tokens(n: Node): nat { Estimate(NodeText(n)) }

  function Texts(nodes: seq<Node>): (r: seq<string>)
    ensures |r| == |nodes|
  {
    seq(|nodes|, i requires 0 <= i < |nodes| => NodeText(nodes[i]))
  }

  function Cost(nodes: seq<Node>): int { TotalCost(Texts(nodes)) }

  lemma CostAppend(a: seq<Node>, b: seq<Node>)
    ensures Cost(a + b) == Cost(a) + Cost(b)
  {
    hide NodeText, TotalCost;
    assert Texts(a + b) == Texts(a) + Texts(b);
    TotalCostAppend(Texts(a), Texts(b));
  }

  lemma CostSnoc(a: seq<Node>, n: Node)
    ensures Cost(a + [n]) == Cost(a) + Tokens(n)
  {
    hide NodeText, TotalCost;
    assert Texts(a + [n]) == Texts(a) + [NodeText(n)];
    TotalCostSnoc(Texts(a), NodeText(n));
  }

  lemma CostOfNothing()
    ensures Cost([]) == 0
  {
    assert Texts([]) == [];
    TotalOfNothing();
  }

  // --- Step 2: depth cut ------------------------------------------------------

  /** Reverses to oldest first, keeps the newest, reads them back newest first. */
  method CutByDepth(ancestors: seq<Node>, maxAncestors: int) returns (chain: seq<Node>, omitted: nat)
    ensures chain == ancestors[..Min(if maxAncestors > 0 then maxAncestors else 50, |ancestors|)]
    ensures omitted == |ancestors| - |chain|
  {
    var n := |ancestors|;
    var depth := if maxAncestors <= 0 then DEFAULT_ANCESTORS else maxAncestors;
    var reversed: seq<Node> := [];
    for i := 0 to n
      invariant |reversed| == i && forall j :: 0 <= j < i ==> reversed[j] == ancestors[n - 1 - j]
    {
      reversed := reversed + [ancestors[n - 1 - i]];
    }
    omitted := if n > depth then n - depth else 0;
    var oldest := reversed[omitted..];
    chain := [];
    for i := |oldest| downto 0
      invariant |chain| == |oldest| - i && forall j :: 0 <= j < |chain| ==> chain[j] == ancestors[j]
    {
      chain := chain + [oldest[i]];
    }
  }

  // --- Step 4: the budget walk --------------------------------------------------

  /** The first node, newest first, that is not pinned and does not fit what the
      nodes before it leave. */
  function FirstMisfit(chain: seq<Node>, budget: int): (m: nat)
    ensures m <= |chain|
  {
    if chain == [] then 0
    else if !chain[0].pinned && Tokens(chain[0]) > budget then 0
    else 1 + FirstMisfit(chain[1..], budget - Tokens(chain[0]))
  }

  function PinnedOf(nodes: seq<Node>): seq<Node>
  {
    if nodes == [] then [] else
      var last := nodes[|nodes| - 1];
      PinnedOf(nodes[..|nodes| - 1]) + (if last.pinned then [last] else [])
  }

  function UnpinnedOf(nodes: seq<Node>): seq<Node>
  {
    if nodes == [] then [] else
      var last := nodes[|nodes| - 1];
      UnpinnedOf(nodes[..|nodes| - 1]) + (if last.pinned then [] else [last])
  }

  /** The nodes before the misfit and the pinned ones behind it. */
  function Kept(chain: seq<Node>, budget: int): seq<Node> {
    var m := FirstMisfit(chain, budget); chain[..m] + PinnedOf(chain[m..])
  }

  function Dropped(chain: seq<Node>, budget: int): seq<Node> {
    UnpinnedOf(chain[FirstMisfit(chain, budget)..])
  }

  lemma FilterSnoc(chain: seq<Node>, m: nat, i: nat)
    requires m <= i < |chain|
    ensures PinnedOf(chain[m..i + 1]) == PinnedOf(chain[m..i]) + (if chain[i].pinned then [chain[i]] else [])
    ensures UnpinnedOf(chain[m..i + 1]) == UnpinnedOf(chain[m..i]) + (if chain[i].pinned then [] else [chain[i]])
  {
    var s := chain[m..i + 1];
    assert s[..|s| - 1] == chain[m..i] && s[|s| - 1] == chain[i];
  }

  lemma MisfitStep(chain: seq<Node>, i: nat, left: int)
    requires i < |chain|
    ensures FirstMisfit(chain[i..], left) ==
      if !chain[i].pinned && Tokens(chain[i]) > left then 0
        else 1 + FirstMisfit(chain[i + 1..], left - Tokens(chain[i]))
  {
    assert chain[i..][0] == chain[i] && chain[i..][1..] == chain[i + 1..];
  }

  method BudgetWalk(chain: seq<Node>, budget: int) returns (kept: seq<Node>, dropped: seq<Node>, remaining: int)
    ensures kept == Kept(chain, budget) && dropped == Dropped(chain, budget)
    ensures remaining == budget - Cost(kept)
  {
    hide Cost, Tokens, FirstMisfit, PinnedOf, UnpinnedOf;
    kept, dropped, remaining := [], [], budget;
    var tailPhase := false;
    ghost var m := FirstMisfit(chain, budget);
    CostOfNothing();
    FilterNothing();
    assert chain[0..] == chain;
    for i := 0 to |chain|
      invariant remaining == budget - Cost(kept)
      invariant !tailPhase ==> m == i + FirstMisfit(chain[i..], remaining) && kept == chain[..i] && dropped == []
      invariant tailPhase ==> m < i && kept == chain[..m] + PinnedOf(chain[m..i]) && dropped == UnpinnedOf(chain[m..i])
    {
      var node := chain[i];
      var tokens := Tokens(node);
      MisfitStep(chain, i, remaining);
      if tailPhase { FilterSnoc(chain, m, i); }
      if tailPhase && !node.pinned {
        dropped := dropped + [node];
      } else if remaining >= tokens || node.pinned {
        CostSnoc(kept, node);
        remaining := remaining - tokens;
        kept := kept + [node];
      } else {
        FilterSnoc(chain, m, m);
        assert chain[m..m] == [];
        tailPhase := true;
        dropped := dropped + [node];
      }
    }
    assert chain[m..|chain|] == chain[m..];
    if !tailPhase { assert chain[|chain|..] == []; NoMisfit(remaining); }
  }

  lemma FilterNothing()
    ensures PinnedOf([]) == [] && UnpinnedOf([]) == []
  {
  }

  lemma NoMisfit(left: int)
    ensures FirstMisfit([], left) == 0
  {
  }

  // --- What the walk guarantees -------------------------------------------------

  /** a and b are what is left of nodes, in order, when it is dealt out in two. */
  ghost predicate Merges(nodes: seq<Node>, a: seq<Node>, b: seq<Node>)
  {
    if nodes == [] then a == [] && b == [] else
      var front, last := nodes[..|nodes| - 1], nodes[|nodes| - 1];
      || (a != [] && a[|a| - 1] == last && Merges(front, a[..|a| - 1], b))
      || (b != [] && b[|b| - 1] == last && Merges(front, a, b[..|b| - 1]))
  }

  /** Nothing is lost and nothing is invented. */
  lemma {:induction false} MergesMultiset(nodes: seq<Node>, a: seq<Node>, b: seq<Node>)
    requires Merges(nodes, a, b)
    ensures multiset(a) + multiset(b) == multiset(nodes)
  {
    if nodes != [] {
      var front, last := nodes[..|nodes| - 1], nodes[|nodes| - 1];
      SnocMultiset(nodes);
      if a != [] && a[|a| - 1] == last && Merges(front, a[..|a| - 1], b) {
        SnocMultiset(a);
        MergesMultiset(front, a[..|a| - 1], b);
      } else {
        SnocMultiset(b);
        MergesMultiset(front, a, b[..|b| - 1]);
      }
    }
  }

  lemma SnocMultiset(s: seq<Node>)
    requires s != []
    ensures multiset(s) == multiset(s[..|s| - 1]) + multiset{s[|s| - 1]}
  {
    assert s == s[..|s| - 1] + [s[|s| - 1]];
  }

  lemma {:induction false} MergesAfter(first: seq<Node>, nodes: seq<Node>, a: seq<Node>, b: seq<Node>)
    requires Merges(nodes, a, b)
    ensures Merges(first + nodes, first + a, b)
  {
    if nodes == [] {
      assert first + nodes == first == first + a;
      MergesAll(first);
    } else {
      var front, last := nodes[..|nodes| - 1], nodes[|nodes| - 1];
      var whole := first + nodes;
      assert whole[..|whole| - 1] == first + front && whole[|whole| - 1] == last;
      if a != [] && a[|a| - 1] == last && Merges(front, a[..|a| - 1], b) {
        MergesAfter(first, front, a[..|a| - 1], b);
        assert (first + a)[..|first + a| - 1] == first + a[..|a| - 1];
      } else {
        MergesAfter(first, front, a, b[..|b| - 1]);
      }
    }
  }

  lemma {:induction false} MergesAll(nodes: seq<Node>)
    ensures Merges(nodes, nodes, [])
  {
    if nodes != [] { MergesAll(nodes[..|nodes| - 1]); }
  }

  lemma {:induction false} FiltersPartition(nodes: seq<Node>)
    ensures |PinnedOf(nodes)| + |UnpinnedOf(nodes)| == |nodes|
    ensures forall n :: n in PinnedOf(nodes) <==> n in nodes && n.pinned
    ensures forall n :: n in UnpinnedOf(nodes) <==> n in nodes && !n.pinned
  {
    if nodes != [] {
      var front, last := nodes[..|nodes| - 1], nodes[|nodes| - 1];
      FiltersPartition(front);
      assert nodes == front + [last];
    }
  }

  lemma {:induction false} FiltersMerge(nodes: seq<Node>)
    ensures Merges(nodes, PinnedOf(nodes), UnpinnedOf(nodes))
  {
    if nodes != [] {
      var front, last := nodes[..|nodes| - 1], nodes[|nodes| - 1];
      FiltersMerge(front);
      var a, b := PinnedOf(nodes), UnpinnedOf(nodes);
      if last.pinned {
        assert a[..|a| - 1] == PinnedOf(front) && b == UnpinnedOf(front);
      } else {
        assert b[..|b| - 1] == UnpinnedOf(front) && a == PinnedOf(front);
      }
    }
  }

  /** The misfit index described without the walk: every node before it is
      pinned or fits what the nodes before it left, and it itself neither. */
  lemma {:induction false} MisfitIsFirst(chain: seq<Node>, budget: int)
    ensures var m := FirstMisfit(chain, budget);
      && (forall i :: 0 <= i < m ==> chain[i].pinned || Cost(chain[..i]) + Tokens(chain[i]) <= budget)
      && (m < |chain| ==> !chain[m].pinned && Cost(chain[..m]) + Tokens(chain[m]) > budget)
  {
    hide Cost, Tokens;
    CostOfNothing();
    if chain != [] {
      assert chain[..0] == [];
      var first, rest := chain[0], chain[1..];
      if first.pinned || Tokens(first) <= budget {
        MisfitIsFirst(rest, budget - Tokens(first));
        forall i | 0 < i <= |chain| ensures Cost(chain[..i]) == Tokens(first) + Cost(rest[..i - 1]) {
          assert chain[..i] == [first] + rest[..i - 1];
          CostAppend([first], rest[..i - 1]);
          CostSnoc([], first);
          assert [] + [first] == [first];
        }
        forall i | 0 <= i < FirstMisfit(chain, budget)
          ensures chain[i].pinned || Cost(chain[..i]) + Tokens(chain[i]) <= budget
        {
          if i > 0 { assert chain[i] == rest[i - 1]; }
        }
      }
    }
  }

  /** Nothing is lost, no pinned node is dropped, no unpinned node behind the
      misfit is kept. */
  lemma WalkFacts(chain: seq<Node>, budget: int)
    ensures var m, kept, dropped := FirstMisfit(chain, budget), Kept(chain, budget), Dropped(chain, budget);
      && |kept| + |dropped| == |chain| && Merges(chain, kept, dropped)
      && (forall n :: n in chain && n.pinned ==> n in kept)
      && (forall n :: n in dropped <==> n in chain[m..] && !n.pinned)
      && (kept == [] ==> m == 0 && dropped == chain)
  {
    hide FirstMisfit;
    var m := FirstMisfit(chain, budget);
    FiltersPartition(chain[m..]);
    assert chain == chain[..m] + chain[m..];
    FiltersMerge(chain[m..]);
    MergesAfter(chain[..m], chain[m..], PinnedOf(chain[m..]), UnpinnedOf(chain[m..]));
    if Kept(chain, budget) == [] {
      assert m == 0 && chain[m..] == chain;
      NonePinned(chain);
    }
  }

  lemma {:induction false} NonePinned(nodes: seq<Node>)
    requires PinnedOf(nodes) == []
    ensures UnpinnedOf(nodes) == nodes
  {
    if nodes != [] {
      NonePinned(nodes[..|nodes| - 1]);
      assert nodes == nodes[..|nodes| - 1] + [nodes[|nodes| - 1]];
    }
  }

  lemma {:induction false} NoPins(nodes: seq<Node>)
    requires forall n :: n in nodes ==> !n.pinned
    ensures PinnedOf(nodes) == []
  {
    if nodes != [] { NoPins(nodes[..|nodes| - 1]); }
  }

  lemma CostGrows(a: seq<Node>, b: seq<Node>)
    requires a <= b
    ensures Cost(a) <= Cost(b)
  {
    hide Cost;
    assert b == a + b[|a|..];
    CostAppend(a, b[|a|..]);
    CostIsNatural(b[|a|..]);
  }

  lemma CostIsNatural(a: seq<Node>)
    ensures 0 <= Cost(a)
  {
    SumNonNegative(Costs(Texts(a)));
  }

  /** With nothing pinned the walk keeps the longest prefix that fits. */
  lemma LongestFittingPrefix(chain: seq<Node>, budget: int, k: nat)
    requires forall n :: n in chain ==> !n.pinned
    requires 0 <= budget && k <= |chain|
    ensures Kept(chain, budget) <= chain
    ensures Cost(chain[..k]) <= budget <==> k <= |Kept(chain, budget)|
  {
    hide Cost, Tokens, FirstMisfit;
    var m := FirstMisfit(chain, budget);
    MisfitIsFirst(chain, budget);
    NoPins(chain[m..]);
    assert Kept(chain, budget) == chain[..m];
    if k <= m {
      CostOfNothing();
      assert chain[..0] == [];
      if k > 0 {
        assert chain[..k] == chain[..k - 1] + [chain[k - 1]];
        CostSnoc(chain[..k - 1], chain[k - 1]);
      }
    } else {
      assert chain[..m + 1] == chain[..m] + [chain[m]];
      CostSnoc(chain[..m], chain[m]);
      CostGrows(chain[..m + 1], chain[..k]);
    }
  }

  // --- Floor and digest -----------------------------------------------------------

  /** Ancestry after the one-node floor: when the walk kept nothing, the newest
      node is included although it does not fit, and nothing is deducted. */
  datatype Ancestry = Ancestry(kept: seq<Node>, dropped: seq<Node>, remaining: int, forced: bool)

  function WithFloor(chain: seq<Node>, budget: int): Ancestry {
    var kept, dropped := Kept(chain, budget), Dropped(chain, budget);
    if kept == [] && chain != [] && dropped != []
    then Ancestry([chain[0]], dropped[1..], budget - Cost(kept), true)
    else Ancestry(kept, dropped, budget - Cost(kept), false)
  }

  method ApplyBudget(chain: seq<Node>, budget: int) returns (r: Ancestry)
    ensures r == WithFloor(chain, budget)
  {
    hide Kept, Dropped;
    var kept, dropped, remaining := BudgetWalk(chain, budget);
    WalkFacts(chain, budget);
    if kept == [] && chain != [] {
      return Ancestry([chain[0]], dropped[1..], remaining, true);
    }
    return Ancestry(kept, dropped, remaining, false);
  }

  function FloorCost(a: Ancestry): nat { if a.forced && a.kept != [] then Tokens(a.kept[0]) else 0 }

  /** With the floor, kept and dropped still make up the chain, each in its order; no
      pinned node is dropped; and the newest node is dropped only if it does not fit and
      all that is kept is pinned. */
  lemma FloorDeals(chain: seq<Node>, budget: int)
    ensures var a := WithFloor(chain, budget);
      && Merges(chain, a.kept, a.dropped)
      && (forall n :: n in a.dropped ==> !n.pinned)
      && (chain != [] && (chain[0].pinned || Tokens(chain[0]) <= budget) ==> a.kept != [] && a.kept[0] == chain[0])
      && (chain != [] && chain[0] !in a.kept ==> forall n :: n in a.kept ==> n.pinned)
  {
    hide Kept, Dropped, Cost, Tokens, FirstMisfit, Merges;
    WalkFacts(chain, budget);
    if chain != [] { NewestFirst(chain, budget); }
    if Kept(chain, budget) == [] && chain != [] {
      MergesNewest(chain);
      assert [chain[0]] == chain[..1];
    }
  }

  lemma NewestFirst(chain: seq<Node>, budget: int)
    requires chain != []
    ensures var kept := Kept(chain, budget);
      && (chain[0].pinned || Tokens(chain[0]) <= budget ==> kept != [] && kept[0] == chain[0])
      && (chain[0].pinned || Tokens(chain[0]) <= budget || forall n :: n in kept ==> n.pinned)
  {
    hide Tokens;
    FiltersPartition(chain);
    assert FirstMisfit(chain, budget) == 0 ==> chain[0..] == chain;
  }

  lemma MergesNewest(chain: seq<Node>)
    requires chain != []
    ensures Merges(chain, chain[..1], chain[1..])
  {
    assert chain == chain[..1] + chain[1..] && chain[..1] + [] == chain[..1];
    MergesNone(chain[1..]);
    MergesAfter(chain[..1], chain[1..], [], chain[1..]);
  }

  lemma {:induction false} MergesNone(nodes: seq<Node>)
    ensures Merges(nodes, [], nodes)
  {
    if nodes != [] { MergesNone(nodes[..|nodes| - 1]); }
  }

  /** Kept and dropped still make up the chain, in count and in content; the
      payload is empty only for an empty chain; the cost of what is kept is what
      was deducted plus the forced node. */
  lemma FloorFacts(chain: seq<Node>, budget: int)
    ensures var a := WithFloor(chain, budget);
      && |a.kept| + |a.dropped| == |chain|
      && (a.kept == [] <==> chain == [])
      && a.remaining == budget - Cost(Kept(chain, budget))
      && Cost(a.kept) == budget - a.remaining + FloorCost(a)
      && (a.forced ==> a.kept == chain[..1] && a.dropped == chain[1..] && a.remaining == budget < Tokens(chain[0]))
      && (!a.forced ==> a.kept == Kept(chain, budget) && a.dropped == Dropped(chain, budget))
  {
    hide Kept, Dropped, Cost, Tokens, FirstMisfit;
    WalkFacts(chain, budget);
    CostOfNothing();
    if Kept(chain, budget) == [] && chain != [] {
      MisfitIsFirst(chain, budget);
      assert chain[..0] == [];
      CostSnoc([], chain[0]);
      assert [] + [chain[0]] == [chain[0]] == chain[..1];
    }
  }

  /** The digest lists the nodes it replaces, oldest first. `sentence` stands for
      the first-sentence extraction of summarizer.go. */
  function Digest(nodes: seq<Node>, sentence: string -> string): string {
    "--- summarized older messages (" + Digits(|nodes|) + ") ---" + DigestLines(nodes, sentence)
  }

  function DigestLine(n: Node, sentence: string -> string): string {
    "\n[node " + n.id + " by " + n.author + "] " + sentence(n.content)
  }

  function DigestLines(nodes: seq<Node>, sentence: string -> string): string
  {
    if nodes == [] then "" else DigestLine(nodes[0], sentence) + DigestLines(nodes[1..], sentence)
  }

  /** One more node adds one line at the end. */
  lemma {:induction false} DigestGrows(nodes: seq<Node>, n: Node, sentence: string -> string)
    ensures DigestLines(nodes + [n], sentence) == DigestLines(nodes, sentence) + DigestLine(n, sentence)
    ensures DigestLine(n, sentence) == "\n[node " + n.id + " by " + n.author + "] " + sentence(n.content)
  {
    if nodes == [] {
      assert [] + [n] == [n] && [n][1..] == [];
    } else {
      DigestGrows(nodes[1..], n, sentence);
      hide DigestLine;
      assert (nodes + [n])[0] == nodes[0] && (nodes + [n])[1..] == nodes[1..] + [n];
    }
  }

  function Reverse(nodes: seq<Node>): (r: seq<Node>)
    ensures |r| == |nodes| && forall i :: 0 <= i < |r| ==> r[i] == nodes[|nodes| - 1 - i]
  {
    seq(|nodes|, i requires 0 <= i < |nodes| => nodes[|nodes| - 1 - i])
  }

  // --- Steps 5 to 7 -----------------------------------------------------------------

  datatype Reference = Reference(id: string, text: string)

  datatype CurrentRead = NodeFound | NodeMissing | NodeUnavailable

  /** One request's selection and what the readers returned for it. */
  datatype Material = Material(
    selection: Option<MultiReference.Selection>, current: CurrentRead, ancestors: Option<seq<Node>>,
    references: seq<Reference>, retrieved: seq<Retrieval.Item>, cardRefs: seq<string>, cards: seq<string>)

  /** The ids the manifest lists for the selected sources. */
  function SelectedIds(m: Material): seq<string> {
    if m.selection.None? then [] else
      var sources := m.selection.value.sources;
      seq(|sources|, i requires 0 <= i < |sources| => sources[i].nodeId)
  }

  function BlockOf(m: Material): Option<string> {
    if m.selection.Some? then Some(MultiReference.SelectionBlock(m.selection.value)) else None
  }

  datatype Tiers = Tiers(
    digest: seq<string>, references: seq<Reference>, retrieved: seq<Retrieval.Item>,
    cardRefs: seq<string>, cards: seq<string>)

  function RefTexts(refs: seq<Reference>): (r: seq<string>)
    ensures |r| == |refs|
  {
    seq(|refs|, i requires 0 <= i < |refs| => refs[i].text)
  }

  function RefIds(refs: seq<Reference>): seq<string> { seq(|refs|, i requires 0 <= i < |refs| => refs[i].id) }

  /** The folded sections in payload order; the digest comes last. */
  function TierSections(t: Tiers): seq<string> {
    RefTexts(t.references) + Retrieval.Sections(t.retrieved) + t.cardRefs + t.cards + t.digest
  }

  lemma TierCost(t: Tiers)
    ensures TotalCost(TierSections(t)) ==
      TotalCost(RefTexts(t.references)) + TotalCost(Retrieval.Sections(t.retrieved)) + TotalCost(t.cardRefs)
      + TotalCost(t.cards) + TotalCost(t.digest)
  {
    hide TotalCost;
    var a := RefTexts(t.references);
    var b := a + Retrieval.Sections(t.retrieved);
    TotalCostAppend(a, Retrieval.Sections(t.retrieved));
    TotalCostAppend(b, t.cardRefs);
    TotalCostAppend(b + t.cardRefs, t.cards);
    TotalCostAppend(b + t.cardRefs + t.cards, t.digest);
  }

  /** kept is the longest prefix of the texts that fits. */
  ghost predicate PrefixRule(kept: seq<string>, texts: seq<string>, budget: int) {
    && kept <= texts && 0 <= TotalCost(kept) <= Max(budget, 0)
    && (|kept| < |texts| ==> TotalCost(kept) + Estimate(texts[|kept|]) > budget)
  }

  method FillReferences(refs: seq<Reference>, budget: int) returns (kept: seq<Reference>)
    ensures kept <= refs && PrefixRule(RefTexts(kept), RefTexts(refs), budget)
  {
    hide TotalCost;
    var texts := FillPrefix(RefTexts(refs), budget);
    kept := refs[..|texts|];
    assert RefTexts(kept) == texts;
  }

  /** compileCardReferences: a block that does not fit is elided and the walk goes on. */
  method FillCardRefs(blocks: seq<string>, budget: int) returns (kept: seq<string>)
    ensures kept == Chosen(blocks, budget)
  {
    hide Estimate;
    kept := [];
    var left := budget;
    for i := 0 to |blocks|
      invariant kept + Chosen(blocks[i..], left) == Chosen(blocks, budget)
    {
      var tokens := Estimate(blocks[i]);
      assert blocks[i..][0] == blocks[i] && blocks[i..][1..] == blocks[i + 1..];
      if left >= tokens {
        assert kept + ([blocks[i]] + Chosen(blocks[i + 1..], left - tokens))
            == kept + [blocks[i]] + Chosen(blocks[i + 1..], left - tokens);
        left := left - tokens;
        kept := kept + [blocks[i]];
      }
    }
  }

  /** The digest covers exactly the budget-dropped nodes and is left out only when
      there are none or it does not fit. */
  ghost predicate DigestRule(digest: seq<string>, a: Ancestry, sentence: string -> string) {
    var oldestFirst := seq(|a.dropped|, i requires 0 <= i < |a.dropped| => a.dropped[|a.dropped| - 1 - i]);
    var text := Digest(oldestFirst, sentence);
    digest == if a.dropped != [] && 0 < a.remaining && Estimate(text) <= a.remaining then [text] else []
  }

  /** Each tier takes from what the tiers before it left. */
  ghost predicate TierRules(t: Tiers, a: Ancestry, m: Material, tokenBudget: int, sentence: string -> string) {
    var forRefs := a.remaining - TotalCost(t.digest);
    var forRetrieved := forRefs - TotalCost(RefTexts(t.references));
    var forCardRefs := forRetrieved - TotalCost(Retrieval.Sections(t.retrieved));
    var forCards := forCardRefs - TotalCost(t.cardRefs);
    && DigestRule(t.digest, a, sentence)
    && t.references <= m.references && PrefixRule(RefTexts(t.references), RefTexts(m.references), forRefs)
    && t.retrieved == Retrieval.Selected(m.retrieved, Retrieval.Ids(RefIds(t.references) + SelectedIds(m)),
                                         Min(tokenBudget * 12 / 100, forRetrieved))
    && t.cardRefs == Chosen(m.cardRefs, forCardRefs)
    && PrefixRule(t.cards, m.cards, forCards)
  }

  /** The tiers together stay within what the ancestry left. */
  lemma TiersBounded(t: Tiers, a: Ancestry, m: Material, tokenBudget: int, sentence: string -> string)
    requires TierRules(t, a, m, tokenBudget, sentence)
    ensures TotalCost(TierSections(t)) <= Max(a.remaining, 0)
  {
    hide TotalCost, Estimate, Digest, DigestRule, Chosen, Retrieval.Selected, Retrieval.Sections, TierSections;
    TierCost(t);
    DigestCost(t.digest, a, sentence);
    var known := Retrieval.Ids(RefIds(t.references) + SelectedIds(m));
    var forRetrieved := a.remaining - TotalCost(t.digest) - TotalCost(RefTexts(t.references));
    RetrievedCost(m.retrieved, known, tokenBudget, forRetrieved);
    CardRefsCost(m.cardRefs, forRetrieved - TotalCost(Retrieval.Sections(t.retrieved)));
  }

  lemma RetrievedCost(retrieved: seq<Retrieval.Item>, known: set<string>, tokenBudget: int, left: int)
    ensures var kept := Retrieval.Selected(retrieved, known, Min(tokenBudget * 12 / 100, left));
      0 <= TotalCost(Retrieval.Sections(kept)) <= Max(left, 0)
  {
    hide TotalCost, Retrieval.Selected, Retrieval.Sections;
    Retrieval.SelectedFacts(retrieved, known, Min(tokenBudget * 12 / 100, left));
  }

  lemma CardRefsCost(blocks: seq<string>, left: int)
    ensures 0 <= TotalCost(Chosen(blocks, left)) <= Max(left, 0)
  {
    hide TotalCost, Chosen;
    ChosenFacts(blocks, left);
  }

  /** No retrieved item repeats a reference or a selected source. */
  lemma RetrievedAreNew(t: Tiers, a: Ancestry, m: Material, tokenBudget: int, sentence: string -> string)
    requires TierRules(t, a, m, tokenBudget, sentence)
    ensures forall x :: x in t.retrieved ==>
      x in m.retrieved && x.id !in RefIds(t.references) && x.id !in SelectedIds(m)
  {
    hide TotalCost, Estimate, DigestRule, PrefixRule, Chosen, Retrieval.Selected, Retrieval.Sections;
    var known := RefIds(t.references) + SelectedIds(m);
    var forRetrieved := a.remaining - TotalCost(t.digest) - TotalCost(RefTexts(t.references));
    Retrieval.SelectedFacts(m.retrieved, Retrieval.Ids(known), Min(tokenBudget * 12 / 100, forRetrieved));
    forall x | x in t.retrieved ensures x in m.retrieved && x.id !in RefIds(t.references) && x.id !in SelectedIds(m) {
      assert x.id !in known;
    }
  }

  lemma DigestCost(digest: seq<string>, a: Ancestry, sentence: string -> string)
    requires DigestRule(digest, a, sentence)
    ensures 0 <= TotalCost(digest) <= Max(a.remaining, 0)
  {
    hide TotalCost, Estimate, Digest;
    TotalOfNothing();
    if digest != [] {
      TotalCostSnoc([], digest[0]);
      assert [] + [digest[0]] == digest;
    }
  }

  method FoldDigest(a: Ancestry, sentence: string -> string) returns (digest: seq<string>)
    ensures DigestRule(digest, a, sentence)
  {
    if a.dropped == [] || a.remaining <= 0 { return []; }
    var ordered := Reverse(a.dropped);
    assert ordered == seq(|a.dropped|, i requires 0 <= i < |a.dropped| => a.dropped[|a.dropped| - 1 - i]);
    var text := Digest(ordered, sentence);
    return if Estimate(text) <= a.remaining then [text] else [];
  }

  method FoldTiers(a: Ancestry, m: Material, tokenBudget: int, sentence: string -> string) returns (t: Tiers)
    ensures TierRules(t, a, m, tokenBudget, sentence)
  {
    hide TotalCost, DigestRule, PrefixRule, Chosen, Retrieval.Selected, Retrieval.Sections, Retrieval.Ids;
    var digest := FoldDigest(a, sentence);
    var remaining := a.remaining - TotalCost(digest);
    var references := FillReferences(m.references, remaining);
    remaining := remaining - TotalCost(RefTexts(references));
    var known := RefIds(references) + SelectedIds(m);
    var retrieved, _ := Retrieval.CompileRetrieved(m.retrieved, known, tokenBudget, remaining);
    remaining := remaining - TotalCost(Retrieval.Sections(retrieved));
    var cardRefs := FillCardRefs(m.cardRefs, remaining);
    remaining := remaining - TotalCost(cardRefs);
    var cards := FillPrefix(m.cards, remaining);
    assert PrefixRule(cards, m.cards, remaining) by { PrefixIntro(cards, m.cards, remaining); }
    t := Tiers(digest, references, retrieved, cardRefs, cards);
  }

  lemma PrefixIntro(kept: seq<string>, texts: seq<string>, budget: int)
    requires kept <= texts && 0 <= TotalCost(kept) <= Max(budget, 0)
    requires |kept| < |texts| ==> TotalCost(kept) + Estimate(texts[|kept|]) > budget
    ensures PrefixRule(kept, texts, budget)
  {
  }

  /** joinSections. */
  function JoinSections(sections: seq<string>): string { Rendering.Join(sections, "\n\n") }

  /** The sections of the payload in order. A payload without ancestry starts
      with a bare joiner, which an empty first section stands for. */
  function Parts(block: Option<string>, kept: seq<Node>, tiers: seq<string>): seq<string> {
    (if block.Some? then [block.value] else []) +
    (if kept == [] && tiers != [] then [""] else []) + Texts(kept) + tiers
  }

  lemma {:induction false} JoinLength(parts: seq<string>)
    ensures |JoinSections(parts)| <= 4 * TotalCost(parts) + 2 * Max(|parts| - 1, 0)
  {
    hide TotalCost;
    TotalOfNothing();
    if parts != [] {
      JoinLength(parts[1..]);
      TotalCostCons(parts[0], parts[1..]);
      assert [parts[0]] + parts[1..] == parts;
    }
  }

  /** Joining k sections costs at most half a token for every joiner, rounded up. */
  lemma JoinEstimate(parts: seq<string>)
    ensures Estimate(JoinSections(parts)) <= TotalCost(parts) + |parts| / 2
  {
    hide TotalCost, JoinSections;
    JoinLength(parts);
  }

  lemma {:induction false} JoinAppend(a: seq<string>, b: seq<string>)
    requires a != [] && b != []
    ensures JoinSections(a + b) == JoinSections(a) + "\n\n" + JoinSections(b)
  {
    if |a| == 1 {
      assert (a + b)[1..] == b;
    } else {
      assert (a + b)[1..] == a[1..] + b && (a + b)[0] == a[0];
      JoinAppend(a[1..], b);
      assert a[0] + "\n\n" + (JoinSections(a[1..]) + "\n\n" + JoinSections(b))
          == (a[0] + "\n\n" + JoinSections(a[1..])) + "\n\n" + JoinSections(b);
    }
  }

  method AppendTier(content: string, sections: seq<string>, ghost parts: seq<string>) returns (r: string)
    requires parts != [] && content == JoinSections(parts)
    ensures r == JoinSections(parts + sections)
  {
    if |sections| > 0 {
      JoinAppend(parts, sections);
      r := content + "\n\n" + JoinSections(sections);
    } else {
      assert parts + sections == parts;
      r := content;
    }
  }

  method Assemble(block: Option<string>, kept: seq<Node>, t: Tiers) returns (content: string)
    ensures content == JoinSections(Parts(block, kept, TierSections(t)))
  {
    hide JoinSections, NodeText;
    var refs, ret := RefTexts(t.references), Retrieval.Sections(t.retrieved);
    content := JoinSections(Texts(kept));
    ghost var parts := if kept == [] then [""] else Texts(kept);
    JoinOfEmpty();
    assert kept == [] ==> Texts(kept) == [];
    content := AppendTier(content, refs, parts);
    content := AppendTier(content, ret, parts + refs);
    content := AppendTier(content, t.cardRefs, parts + refs + ret);
    content := AppendTier(content, t.cards, parts + refs + ret + t.cardRefs);
    content := AppendTier(content, t.digest, parts + refs + ret + t.cardRefs + t.cards);
    ghost var body := Parts(None, kept, TierSections(t));
    assert parts + refs + ret + t.cardRefs + t.cards + t.digest == parts + TierSections(t);
    assert content == JoinSections(body) by {
      if kept == [] && TierSections(t) == [] {
        assert parts + TierSections(t) == [""] && body == [];
      } else {
        assert parts + TierSections(t) == body;
      }
    }
    if block.Some? {
      BodyEmptyIff(kept, TierSections(t));
      if content == "" {
        content := block.value;
        assert Parts(block, kept, TierSections(t)) == [block.value];
        SingleJoin(block.value);
      } else {
        content := block.value + "\n\n" + content;
        JoinAppend([block.value], body);
        SingleJoin(block.value);
        assert Parts(block, kept, TierSections(t)) == [block.value] + body;
      }
    }
  }

  lemma JoinOfEmpty()
    ensures JoinSections([]) == "" && JoinSections([""]) == ""
  {
  }

  lemma SingleJoin(s: string)
    ensures JoinSections([s]) == s
  {
  }

  lemma BodyEmptyIff(kept: seq<Node>, tiers: seq<string>)
    ensures JoinSections(Parts(None, kept, tiers)) == "" <==> Parts(None, kept, tiers) == []
  {
    hide NodeText;
    var body := Parts(None, kept, tiers);
    if kept != [] {
      assert body[0] == NodeText(kept[0]);
      assert body[0] <= JoinSections(body);
    } else if tiers != [] {
      assert |body| > 1;
      assert JoinSections(body) == body[0] + "\n\n" + JoinSections(body[1..]);
    }
  }

  datatype Payload = Payload(
    content: string, tokensUsed: nat, ancestry: Ancestry, omittedCount: nat, overage: nat, tiers: Tiers)

  datatype Refusal = InvalidBudget | BadSelection(why: MultiReference.Refusal) | NodeNotFound | DatabaseUnavailable

  /** What is checked before anything is read: the budget and the selection. */
  ghost predicate Affordable(m: Material, tokenBudget: int) {
    tokenBudget >= 1 && (m.selection.Some? ==> MultiReference.Admitted(m.selection.value))
  }

  /** A compilation also needs the two required reads. */
  ghost predicate Compilable(m: Material, tokenBudget: int) {
    Affordable(m, tokenBudget) && m.current.NodeFound? && m.ancestors.Some?
  }

  /** The newest ancestors, as many as the depth allows, are kept or dropped, in their
      order. No pinned one is dropped, and the newest of all is dropped only if it does
      not fit the budget and all that is kept is pinned. */
  ghost predicate AncestryRules(a: Ancestry, ancestors: seq<Node>, tokenBudget: int, maxAncestors: int) {
    var chain := ancestors[..Min(if maxAncestors > 0 then maxAncestors else 50, |ancestors|)];
    && a == WithFloor(chain, tokenBudget)
    && Merges(chain, a.kept, a.dropped)
    && multiset(a.kept) + multiset(a.dropped) == multiset(chain)
    && (forall n :: n in a.dropped ==> !n.pinned)
    && (ancestors != [] ==>
         && a.kept != []
         && (ancestors[0].pinned || Estimate(NodeText(ancestors[0])) <= tokenBudget ==> a.kept[0] == ancestors[0])
         && (ancestors[0] in a.kept || forall n :: n in a.kept ==> n.pinned))
  }

  lemma AncestryHolds(ancestors: seq<Node>, tokenBudget: int, maxAncestors: int)
    ensures var chain := ancestors[..Min(if maxAncestors > 0 then maxAncestors else 50, |ancestors|)];
      AncestryRules(WithFloor(chain, tokenBudget), ancestors, tokenBudget, maxAncestors)
  {
    hide WithFloor, Merges, Estimate, NodeText;
    var chain := ancestors[..Min(if maxAncestors > 0 then maxAncestors else 50, |ancestors|)];
    var a := WithFloor(chain, tokenBudget);
    FloorFacts(chain, tokenBudget);
    FloorDeals(chain, tokenBudget);
    MergesMultiset(chain, a.kept, a.dropped);
  }

  /** The sections of nodes and of retrieved topics, as the payload shows them. */
  ghost predicate Shows(texts: seq<string>, nodes: seq<Node>) {
    && |texts| == |nodes|
    && forall i :: 0 <= i < |nodes| ==>
      texts[i] == "--- node " + nodes[i].id + " (" + nodes[i].author + ") ---\n" + nodes[i].content
  }

  ghost predicate ShowsTopics(texts: seq<string>, topics: seq<Retrieval.Item>) {
    && |texts| == |topics|
    && forall i :: 0 <= i < |topics| ==>
      texts[i] == "--- retrieved topic " + topics[i].slug + " ---\n" + topics[i].title + "\n" + topics[i].preview
  }

  lemma SectionsShown(nodes: seq<Node>, topics: seq<Retrieval.Item>)
    ensures Shows(Texts(nodes), nodes) && ShowsTopics(Retrieval.Sections(topics), topics)
  {
  }

  /** What compiling the material yields under a budget. */
  ghost predicate Compiled(p: Payload, m: Material, tokenBudget: int, maxAncestors: int, sentence: string -> string)
    requires m.ancestors.Some?
  {
    var kept := p.ancestry.kept;
    var block := if BlockOf(m).Some? then [BlockOf(m).value] else [];
    var tiers := RefTexts(p.tiers.references) + Retrieval.Sections(p.tiers.retrieved) + p.tiers.cardRefs
      + p.tiers.cards + p.tiers.digest;
    var parts := block + (if kept == [] && tiers != [] then [""] else []) + Texts(kept) + tiers;
    && AncestryRules(p.ancestry, m.ancestors.value, tokenBudget, maxAncestors)
    && |kept| + p.omittedCount == |m.ancestors.value|
    && p.overage == Max(Cost(kept) - FloorCost(p.ancestry) - tokenBudget, 0)
    && TierRules(p.tiers, p.ancestry, m, tokenBudget, sentence)
    && TotalCost(tiers) <= Max(p.ancestry.remaining, 0)
    && p.content == JoinSections(parts)
    && Shows(Texts(kept), kept) && ShowsTopics(Retrieval.Sections(p.tiers.retrieved), p.tiers.retrieved)
    && p.tokensUsed == Estimate(p.content)
    && p.tokensUsed <= tokenBudget + p.overage + FloorCost(p.ancestry)
         + (if BlockOf(m).Some? then Estimate(BlockOf(m).value) else 0) + |parts| / 2
  }

  /** The whole pipeline, refusing in the order of the checks. The kept and omitted
      nodes make up all ancestors, the overage is what pinned nodes cost beyond the
      budget, and the payload's token count stays within budget, overage, the forced
      node, the selection's block, and half a token for every joiner between its
      sections. SelectionBound says what the block costs. */
  method Compile(m: Material, tokenBudget: int, maxAncestors: int, sentence: string -> string)
    returns (r: Result<Payload, Refusal>)
    ensures r.Success? <==> Compilable(m, tokenBudget)
    ensures r.Success? ==> Compiled(r.value, m, tokenBudget, maxAncestors, sentence)
    ensures r.Failure? ==> match r.error
      case InvalidBudget => tokenBudget < 1
      case BadSelection(_) => tokenBudget >= 1 && m.selection.Some? && !MultiReference.Admitted(m.selection.value)
      case NodeNotFound => Affordable(m, tokenBudget) && m.current.NodeMissing?
      case DatabaseUnavailable =>
        Affordable(m, tokenBudget) && (m.current.NodeUnavailable? || (m.current.NodeFound? && m.ancestors.None?))
  {
    hide Cost, Kept, Dropped, TotalCost, TierRules, JoinSections, Digest, Estimate, NodeText, AncestryRules, WithFloor;
    hide Shows, ShowsTopics, Texts, Retrieval.Sections;
    hide MultiReference.SelectionBlock, MultiReference.Admitted;
    if tokenBudget < 1 { return Failure(InvalidBudget); }
    var block: Option<string> := None;
    if m.selection.Some? {
      var compiled := MultiReference.CompileBlock(m.selection.value);
      if compiled.Failure? { return Failure(BadSelection(compiled.error)); }
      block := Some(compiled.value.block);
    }
    if m.current.NodeMissing? { return Failure(NodeNotFound); }
    if m.current.NodeUnavailable? || m.ancestors.None? { return Failure(DatabaseUnavailable); }
    var chain, byDepth := CutByDepth(m.ancestors.value, maxAncestors);
    var a := ApplyBudget(chain, tokenBudget);
    FloorFacts(chain, tokenBudget);
    AncestryHolds(m.ancestors.value, tokenBudget, maxAncestors);
    var t := FoldTiers(a, m, tokenBudget, sentence);
    TiersBounded(t, a, m, tokenBudget, sentence);
    var content := Assemble(block, a.kept, t);
    PayloadBound(block, a.kept, TierSections(t));
    SectionsShown(a.kept, t.retrieved);
    r := Success(Payload(content, Estimate(content), a, byDepth + |a.dropped|,
      if a.remaining < 0 then -a.remaining else 0, t));
  }

  // --- What a selection's block costs ------------------------------------------------

  function HeaderCosts(views: seq<Rendering.SourceView>): (r: seq<int>)
    ensures |r| == |views|
  {
    seq(|views|, i requires 0 <= i < |views| => Estimate(Rendering.SourceHeader(views[i])) + 1)
  }

  /** Tokens of a block that are not content: its tags, its source headers, a line end
      for each source and half a token for every section. */
  function Framing(sel: MultiReference.Selection): int {
    var views := MultiReference.SelectionViews(sel);
    Estimate(Rendering.BlockHeader(MultiReference.Attrs(sel))) + Estimate("</canopy_multi_reference>")
    + Sum(HeaderCosts(views)) + (|views| + 2) / 2
  }

  /** Labels short enough for the omission marker to fit the smallest allocation. */
  predicate ShortLabels(sel: MultiReference.Selection) {
    forall i :: 0 <= i < |sel.sources| ==>
      var src := sel.sources[i];
      |Rendering.Thousands(MultiReference.Contribution(src))| + |MultiReference.LabelOf(src, i)| <= 982
  }

  lemma SectionCost(header: string, content: string)
    ensures Estimate(header + "\n" + content) <= Estimate(header) + 1 + Estimate(content)
  {
    assert |header + "\n" + content| == |header| + 1 + |content|;
  }

  /** The block of an admitted selection costs at most the tokens its sources use,
      which is their budget or what they can place, and its framing. */
  lemma SelectionBound(sel: MultiReference.Selection)
    requires MultiReference.Admitted(sel) && ShortLabels(sel)
    ensures var est := MultiReference.Contributions(sel.sources);
      Estimate(MultiReference.SelectionBlock(sel)) <=
        Min(Allocation.AvailableBudget(sel.profileBudget), Sum(Allocation.Capped(est))) + Framing(sel)
  {
    hide TotalCost, Rendering.Join, Sum, Estimate, Rendering.BlockHeader, Rendering.SourceHeader;
    hide MultiReference.RenderedAt, AllocationTheorems.Allocate, MultiReference.Contributions, Allocation.Capped;
    var views := MultiReference.SelectionViews(sel);
    var budget := Allocation.AvailableBudget(sel.profileBudget);
    var a := AllocationTheorems.Allocate(MultiReference.Contributions(sel.sources), budget);
    var used := MultiReference.UsedTokens(sel.sources, a);
    MultiReference.SelectionUse(sel.sources, budget);
    var sections := Rendering.Sections(views);
    var head, close := [Rendering.BlockHeader(MultiReference.Attrs(sel))], ["</canopy_multi_reference>"];
    JoinEstimate(head + sections + close);
    TotalCostAppend(head + sections, close);
    TotalCostAppend(head, sections);
    SingleCost(head[0]);
    SingleCost(close[0]);
    var headers := HeaderCosts(views);
    forall i | 0 <= i < |views| ensures Costs(sections)[i] <= used[i] + headers[i] {
      SectionCost(Rendering.SourceHeader(views[i]), views[i].content);
      assert views[i].content == MultiReference.RenderedAt(sel.sources, a, i).text;
      MultiReference.ContentFits(sel.sources, budget, i);
      assert used[i] == MultiReference.RenderedAt(sel.sources, a, i).used;
      assert Costs(sections)[i] == Estimate(sections[i]);
    }
    SectionsBound(sections, used, headers);
    assert MultiReference.SelectionBlock(sel) == JoinSections(head + sections + close);
  }

  lemma SingleCost(text: string)
    ensures TotalCost([text]) == Estimate(text)
  {
    hide TotalCost, Estimate;
    TotalOfNothing();
    TotalCostSnoc([], text);
    assert [] + [text] == [text];
  }

  lemma SectionsBound(sections: seq<string>, used: seq<int>, headers: seq<int>)
    requires |sections| == |used| == |headers|
    requires forall i :: 0 <= i < |sections| ==> Costs(sections)[i] <= used[i] + headers[i]
    ensures TotalCost(sections) <= Sum(used) + Sum(headers)
  {
    hide Sum, Costs;
    var bound := seq(|sections|, i requires 0 <= i < |sections| => used[i] + headers[i]);
    SumMonotone(Costs(sections), bound);
    SumLinear(bound, 1, used, headers);
  }

  lemma PayloadBound(block: Option<string>, kept: seq<Node>, tiers: seq<string>)
    ensures Estimate(JoinSections(Parts(block, kept, tiers)))
         <= (if block.Some? then Estimate(block.value) else 0) + Cost(kept) + TotalCost(tiers)
            + |Parts(block, kept, tiers)| / 2
  {
    hide TotalCost, JoinSections, Estimate;
    var front := if block.Some? then [block.value] else [];
    var bare: seq<string> := if kept == [] && tiers != [] then [""] else [];
    JoinEstimate(Parts(block, kept, tiers));
    TotalCostAppend(front + bare + Texts(kept), tiers);
    TotalCostAppend(front + bare, Texts(kept));
    TotalCostAppend(front, bare);
    TotalOfNothing();
    if block.Some? {
      TotalCostSnoc([], block.value);
      assert [] + [block.value] == [block.value];
    }
    TotalCostSnoc([], "");
    assert [] + [""] == [""];
    EstimateOfEmpty();
  }

  lemma EstimateOfEmpty()
    ensures Estimate("") == 0
  {
  }
}
