/** Compilation of a selection (compileMultiReference): admission, hash checks,
    budget allocation, rendering. */
module MultiReference {
  import opened Wrappers
  import opened Sums
  import opened Text
  import opened Terminator
  import opened Allocation
  import opened AllocationTheorems
  import opened Rendering

  const MIN_SOURCES := 2
  const MAX_SOURCES := 20

  datatype SourceInput = SourceInput(
    sourceLabel: string, colorKey: string, nodeType: string,
    nodeId: Plain, branchRoot: Plain, author: Plain, sequence: Plain, createdAt: Plain,
    contentHash: string, signedHash: string, content: string)

  datatype Selection = Selection(
    treeId: Plain, primarySource: Plain, synthetic: bool, ancestor: Plain,
    sources: seq<SourceInput>, profileBudget: int)

  datatype Refusal =
    | SourceCountTooLow
    | SourceCountTooHigh
    | SelectionStale(index: nat)
    | SourceNotFound(index: nat)
    | BudgetExceeded(budget: int)

  datatype Compiled = Compiled(
    tokenBudget: int, tokensUsed: int, views: seq<SourceView>, allFit: bool, escaped: seq<string>, block: string)

  function EscapedContent(src: SourceInput): string { Escape(src.content, BLOCK_TAG).0 }

  /** contributionTokens: the estimate of the text as it is placed. */
  function Contribution(src: SourceInput): nat { Estimate(EscapedContent(src)) }

  function Contributions(sources: seq<SourceInput>): (r: seq<int>)
    ensures |r| == |sources| && Estimates(r)
  {
    seq(|sources|, i requires 0 <= i < |sources| => Contribution(sources[i]))
  }

  function LabelOf(src: SourceInput, index: nat): string {
    if src.sourceLabel != "" then src.sourceLabel else "R" + Digits(index + 1)
  }

  /** AllocateMultiReferenceBudget. */
  method AllocateBudget(profile: int, sources: seq<SourceInput>) returns (r: Option<seq<int>>, budget: int)
    ensures budget == AvailableBudget(profile) == Min((if profile > 0 then profile else 8000) / 2, 16384)
    ensures r.None? <==> budget < |sources| * 256
    ensures r.Some? ==> r.value == Allocate(Contributions(sources), budget)
  {
    budget := AvailableBudget(profile);
    var count := |sources|;
    if budget < count * START { return None, budget; }
    ghost var est := Contributions(sources);
    var estimates: seq<int>, need: seq<int>, total := [], [], 0;
    var i := 0;
    while i < count
      invariant 0 <= i <= count
      invariant estimates == est[..i] && need == Needs(est)[..i] && total == Sum(need)
    {
      var e := Contribution(sources[i]);
      SumSnoc(need, NeedOf(e));
      estimates, need, total := estimates + [e], need + [NeedOf(e)], total + NeedOf(e);
      i := i + 1;
    }
    assert estimates == est && need == Needs(est);
    var a := FillAllocations(estimates, need, total, budget);
    return Some(a), budget;
  }

  method FillAllocations(est: seq<int>, need: seq<int>, total: int, budget: int) returns (r: seq<int>)
    requires need == Needs(est) && total == Sum(need)
    ensures r == Allocate(est, budget)
  {
    hide Apportion, Redistribute, Sum;
    var a := new int[|est|](_ => START);
    assert a[..] == Starts(|est|);
    var remaining := budget - |est| * START;
    if remaining > 0 && total > 0 { AllocateRemaining(a, need, total, remaining); }
    RedistributeUnused(a, est);
    r := a[..];
  }

  /** The admission verdict for one source against its signed hash. */
  function Verdict(src: SourceInput, index: nat): Option<Refusal> {
    if src.signedHash != "" && src.contentHash == "" then Some(SelectionStale(index))
    else if src.contentHash == "" then Some(SourceNotFound(index))
    else if src.signedHash != "" && src.contentHash != src.signedHash then Some(SelectionStale(index))
    else None
  }

  /** A source is usable when it is loaded and, if signed, unchanged. */
  ghost predicate Usable(src: SourceInput) {
    src.contentHash != "" && (src.signedHash == "" || src.signedHash == src.contentHash)
  }

  lemma VerdictIffUnusable(src: SourceInput, index: nat)
    ensures Verdict(src, index).None? <==> Usable(src)
  {
  }

  /** What admission requires of a selection. */
  ghost predicate Admitted(sel: Selection) {
    && 2 <= |sel.sources| <= 20
    && (forall i :: 0 <= i < |sel.sources| ==> Usable(sel.sources[i]))
    && |sel.sources| * 256 <= Min((if sel.profileBudget > 0 then sel.profileBudget else 8000) / 2, 16384)
  }

  function ViewOf(src: SourceInput, index: nat, r: Rendered): SourceView
    requires r.used >= 0
  {
    SourceView(LabelOf(src, index), src.colorKey, src.nodeType, src.nodeId, src.branchRoot, src.author,
      src.sequence, src.createdAt, Digits(r.used), r.truncated, r.text)
  }

  /** The rendering of source i under its allocation. */
  function RenderedAt(sources: seq<SourceInput>, a: seq<int>, i: nat): (r: Rendered)
    requires |a| == |sources| && i < |sources|
    ensures r.used >= 0
  {
    RenderSource(EscapedContent(sources[i]), a[i], LabelOf(sources[i], i))
  }

  function Views(sources: seq<SourceInput>, a: seq<int>): seq<SourceView>
    requires |a| == |sources|
  {
    seq(|sources|, i requires 0 <= i < |sources| => ViewOf(sources[i], i, RenderedAt(sources, a, i)))
  }

  function UsedTokens(sources: seq<SourceInput>, a: seq<int>): seq<int>
    requires |a| == |sources|
  {
    seq(|sources|, i requires 0 <= i < |sources| => RenderedAt(sources, a, i).used)
  }

  function Attrs(sel: Selection): BlockAttrs {
    BlockAttrs(sel.treeId, sel.primarySource, Digits(|sel.sources|), sel.synthetic, sel.ancestor)
  }

  function SelectionViews(sel: Selection): (r: seq<SourceView>)
    ensures |r| == |sel.sources|
  {
    Views(sel.sources, Allocate(Contributions(sel.sources), AvailableBudget(sel.profileBudget)))
  }

  function SelectionBlock(sel: Selection): string { Block(Attrs(sel), SelectionViews(sel)) }

  method RenderSources(sources: seq<SourceInput>, a: seq<int>)
    returns (views: seq<SourceView>, used: int, allFit: bool, escaped: seq<string>)
    requires |a| == |sources|
    ensures views == Views(sources, a)
    ensures used == Sum(UsedTokens(sources, a))
    ensures allFit <==> forall i :: 0 <= i < |sources| ==> !RenderedAt(sources, a, i).truncated
    ensures forall l :: l in escaped <==>
      exists i :: 0 <= i < |sources| && LabelOf(sources[i], i) == l && Contains(sources[i].content, Tag(BLOCK_TAG))
  {
    hide Sum, RenderSource, Contains, Tag, Digits;
    views, used, allFit, escaped := [], 0, true, [];
    ghost var tokens: seq<int> := [];
    var i := 0;
    SumConstant([], 0);
    while i < |sources|
      invariant 0 <= i <= |sources|
      invariant views == Views(sources, a)[..i]
      invariant tokens == UsedTokens(sources, a)[..i] && used == Sum(tokens)
      invariant allFit <==> forall j :: 0 <= j < i ==> !RenderedAt(sources, a, j).truncated
      invariant forall l :: l in escaped <==>
        exists j :: 0 <= j < i && LabelOf(sources[j], j) == l && Contains(sources[j].content, Tag(BLOCK_TAG))
    {
      var (content, wasEscaped) := Escape(sources[i].content, BLOCK_TAG);
      if wasEscaped { escaped := escaped + [LabelOf(sources[i], i)]; }
      var r := RenderSource(content, a[i], LabelOf(sources[i], i));
      assert r == RenderedAt(sources, a, i);
      if r.truncated { allFit := false; }
      SumSnoc(tokens, r.used);
      tokens := tokens + [r.used];
      used := used + r.used;
      views := views + [ViewOf(sources[i], i, r)];
      i := i + 1;
    }
    assert tokens == UsedTokens(sources, a);
  }

  /** A source uses exactly what it can place, and is cut exactly when it cannot
      place everything. */
  lemma RenderedUse(sources: seq<SourceInput>, a: seq<int>, i: nat)
    requires |a| == |sources| && i < |sources|
    requires Min(Contribution(sources[i]), START) <= a[i]
    ensures var r := RenderedAt(sources, a, i);
      && r.used == Min(a[i], Contribution(sources[i]))
      && (r.truncated <==> a[i] < Contribution(sources[i]))
      && (!r.truncated ==> r.text == EscapedContent(sources[i]))
  {
  }

  /** The tokens a whole selection uses, in closed form. */
  lemma SelectionUse(sources: seq<SourceInput>, budget: int)
    requires |sources| * START <= budget
    ensures var est := Contributions(sources);
      var a := Allocate(est, budget);
      && Sum(UsedTokens(sources, a)) == Min(budget, Sum(Capped(est)))
      && ((forall i :: 0 <= i < |sources| ==> !RenderedAt(sources, a, i).truncated) <==>
           (forall i :: 0 <= i < |sources| ==> est[i] <= CAP) && Sum(est) <= budget)
  {
    hide Sum, Allocate, RenderedAt;
    var est := Contributions(sources);
    var a := Allocate(est, budget);
    AllocationTheorem(est, budget);
    NothingCutIff(est, budget);
    forall i | 0 <= i < |sources|
      ensures RenderedAt(sources, a, i).used == Placed(a, est)[i]
      ensures RenderedAt(sources, a, i).truncated <==> a[i] < est[i]
    {
      RenderedUse(sources, a, i);
    }
    assert UsedTokens(sources, a) == Placed(a, est);
  }

  /** Every source is shown in its place with its own fields, the tokens it can place
      and, unless its allocation cuts it, its whole escaped text. */
  ghost predicate ShowsSources(views: seq<SourceView>, sources: seq<SourceInput>, a: seq<int>)
    requires |a| == |sources|
  {
    && |views| == |sources|
    && forall i :: 0 <= i < |sources| ==>
      var v, src := views[i], sources[i];
      var used := Min(a[i], Estimate(Escape(src.content, BLOCK_TAG).0));
      && v.sourceLabel == (if src.sourceLabel == "" then "R" + Digits(i + 1) else src.sourceLabel)
      && v.colorKey == src.colorKey && v.nodeType == src.nodeType && v.nodeId == src.nodeId
      && v.branchRoot == src.branchRoot && v.author == src.author && v.sequence == src.sequence
      && v.createdAt == src.createdAt && used >= 0 && v.tokens == Digits(used)
      && (v.truncated <==> a[i] < Estimate(Escape(src.content, BLOCK_TAG).0))
      && (!v.truncated ==> v.content == Escape(src.content, BLOCK_TAG).0)
  }

  lemma AllShown(sources: seq<SourceInput>, budget: int)
    requires |sources| * START <= budget
    ensures var a := Allocate(Contributions(sources), budget); ShowsSources(Views(sources, a), sources, a)
  {
    hide Allocate, RenderSource, Estimate, Escape, Digits;
    var a := Allocate(Contributions(sources), budget);
    AllocationTheorem(Contributions(sources), budget);
    forall i | 0 <= i < |sources| ensures Min(Contribution(sources[i]), START) <= a[i] {
      assert Contributions(sources)[i] == Contribution(sources[i]);
    }
    forall i | 0 <= i < |sources|
      ensures var r := RenderedAt(sources, a, i);
        && r.used == Min(a[i], Contribution(sources[i]))
        && (r.truncated <==> a[i] < Contribution(sources[i]))
        && (!r.truncated ==> r.text == EscapedContent(sources[i]))
    {
      RenderedUse(sources, a, i);
    }
  }

  /** Compilation is all or nothing: it succeeds exactly on admitted selections,
      with every source in selection order and the token count in closed form.
      A refusal names the first rule broken. */
  method Compile(sel: Selection) returns (r: Result<Compiled, Refusal>)
    ensures r.Success? <==> Admitted(sel)
    ensures r.Success? ==>
      var est := Contributions(sel.sources);
      var budget := AvailableBudget(sel.profileBudget);
      var c := r.value;
      && c.tokenBudget == budget
      && c.tokensUsed == Min(budget, Sum(Capped(est)))
      && c.views == Views(sel.sources, Allocate(est, budget))
      && ShowsSources(c.views, sel.sources, Allocate(est, budget))
      && (c.allFit <==> (forall i :: 0 <= i < |est| ==> est[i] <= 2048) && Sum(est) <= budget)
      && c.block == Block(Attrs(sel), c.views)
    ensures r.Failure? ==> match r.error
      case SourceCountTooLow => |sel.sources| < 2
      case SourceCountTooHigh => |sel.sources| > 20
      case SelectionStale(k) =>
        && k < |sel.sources| && sel.sources[k].signedHash !in {"", sel.sources[k].contentHash}
        && forall i :: 0 <= i < k ==> Usable(sel.sources[i])
      case SourceNotFound(k) =>
        && k < |sel.sources| && sel.sources[k].contentHash == "" == sel.sources[k].signedHash
        && forall i :: 0 <= i < k ==> Usable(sel.sources[i])
      case BudgetExceeded(b) =>
        && b == AvailableBudget(sel.profileBudget) < |sel.sources| * 256
        && forall i :: 0 <= i < |sel.sources| ==> Usable(sel.sources[i])
  {
    hide Sum, Allocate, Block, Views, Capped;
    if |sel.sources| < MIN_SOURCES { return Failure(SourceCountTooLow); }
    if |sel.sources| > MAX_SOURCES { return Failure(SourceCountTooHigh); }
    for k := 0 to |sel.sources|
      invariant forall i :: 0 <= i < k ==> Usable(sel.sources[i])
    {
      var v := Verdict(sel.sources[k], k);
      if v.Some? { return Failure(v.value); }
    }
    var a, budget := AllocateBudget(sel.profileBudget, sel.sources);
    if a.None? { return Failure(BudgetExceeded(budget)); }
    var views, used, allFit, escaped := RenderSources(sel.sources, a.value);
    SelectionUse(sel.sources, budget);
    AllShown(sel.sources, budget);
    return Success(Compiled(budget, used, views, allFit, escaped, Block(Attrs(sel), views)));
  }

  /** The block alone, for the payload it is put before. */
  method CompileBlock(sel: Selection) returns (r: Result<Compiled, Refusal>)
    ensures r.Success? <==> Admitted(sel)
    ensures r.Success? ==> r.value.block == SelectionBlock(sel)
  {
    hide Block, Views, Allocate;
    r := Compile(sel);
  }

  // --- Terminators of a compiled block ----------------------------------------

  /** A view brings terminators only through its label, colour key and node
      type, the label a second time when the omission marker repeats it. */
  lemma ViewClosers(sources: seq<SourceInput>, a: seq<int>, i: nat)
    requires |a| == |sources| && i < |sources|
    ensures var v := ViewOf(sources[i], i, RenderedAt(sources, a, i));
      && Closers(v.content) == (if v.truncated then Closers(v.sourceLabel) else 0)
      && v.sourceLabel == LabelOf(sources[i], i)
  {
    hide RenderSource, Count;
    EscapeIsReplaceAll(sources[i].content, BLOCK_TAG);
    EscapeClean(sources[i].content, BLOCK_TAG);
    RenderSourceClosers(EscapedContent(sources[i]), a[i], LabelOf(sources[i], i));
  }

  ghost predicate CleanFields(v: SourceView) {
    Closers(v.sourceLabel) == 0 && Closers(v.colorKey) == 0 && Closers(v.nodeType) == 0
  }

  lemma {:induction false} SmuggledNothing(views: seq<SourceView>)
    requires forall i :: 0 <= i < |views| ==>
      Closers(views[i].content) == (if views[i].truncated then Closers(views[i].sourceLabel) else 0)
    ensures Smuggled(views) == 0 <==> forall i :: 0 <= i < |views| ==> CleanFields(views[i])
  {
    hide Count;
    if views != [] {
      SmuggledNothing(views[1..]);
      assert forall i :: 0 < i < |views| ==> views[i] == views[1..][i - 1];
    }
  }

  /** Whatever the sources contain, a compiled block holds its terminator at its
      end, and nowhere else exactly when no label, colour key or node type
      contains one. */
  lemma BlockTerminatesOnceIff(sel: Selection, a: seq<int>)
    requires |a| == |sel.sources|
    ensures var b := Block(Attrs(sel), Views(sel.sources, a));
      && |b| >= 25 && b[|b| - 25..] == Tag(BLOCK_TAG) + ">"
      && (Closers(b) == 1 <==> forall i :: 0 <= i < |sel.sources| ==>
           && !Contains(LabelOf(sel.sources[i], i), Tag(BLOCK_TAG))
           && !Contains(sel.sources[i].colorKey, Tag(BLOCK_TAG))
           && !Contains(sel.sources[i].nodeType, Tag(BLOCK_TAG)))
  {
    hide Count, Block, RenderedAt, Contains, Tag, LabelOf, Smuggled;
    var views := Views(sel.sources, a);
    BlockEnds(Attrs(sel), views);
    BlockClosers(Attrs(sel), views);
    forall i | 0 <= i < |views|
      ensures Closers(views[i].content) == (if views[i].truncated then Closers(views[i].sourceLabel) else 0)
      ensures CleanFields(views[i]) <==>
        && !Contains(LabelOf(sel.sources[i], i), Tag(BLOCK_TAG))
        && !Contains(sel.sources[i].colorKey, Tag(BLOCK_TAG))
        && !Contains(sel.sources[i].nodeType, Tag(BLOCK_TAG))
    {
      ViewClosers(sel.sources, a, i);
      ContainsIffCounted(LabelOf(sel.sources[i], i), Tag(BLOCK_TAG));
      ContainsIffCounted(sel.sources[i].colorKey, Tag(BLOCK_TAG));
      ContainsIffCounted(sel.sources[i].nodeType, Tag(BLOCK_TAG));
    }
    SmuggledNothing(views);
  }

  /** A source that is cut under its allocation is rendered as a proper head and
      tail of its escaped text around the marker, within the allocation. */
  lemma CutSourceFits(sources: seq<SourceInput>, budget: int, i: nat)
    requires |sources| * START <= budget && i < |sources|
    requires var a := Allocate(Contributions(sources), budget); RenderedAt(sources, a, i).truncated
    requires |Thousands(Contribution(sources[i]))| + |LabelOf(sources[i], i)| <= 982
    ensures var a := Allocate(Contributions(sources), budget);
      var r := RenderedAt(sources, a, i);
      && r.used == a[i] && Estimate(r.text) <= r.used
      && exists h: nat, t: nat :: 1 <= h <= t <= h + 1 &&
           CutAt(r.text, r.omitted, EscapedContent(sources[i]), LabelOf(sources[i], i), h, t)
  {
    hide Allocate, Truncate, Thousands, CutAt, EscapedContent;
    var a := Allocate(Contributions(sources), budget);
    AllocationTheorem(Contributions(sources), budget);
    RenderedUse(sources, a, i);
    TruncateShape(EscapedContent(sources[i]), a[i], LabelOf(sources[i], i));
    TruncateFits(EscapedContent(sources[i]), a[i], LabelOf(sources[i], i));
  }

  /** What a source shows never costs more than what it is charged. */
  lemma ContentFits(sources: seq<SourceInput>, budget: int, i: nat)
    requires |sources| * START <= budget && i < |sources|
    requires |Thousands(Contribution(sources[i]))| + |LabelOf(sources[i], i)| <= 982
    ensures var r := RenderedAt(sources, Allocate(Contributions(sources), budget), i);
      Estimate(r.text) <= r.used
  {
    hide Allocate, Truncate, Thousands, EscapedContent;
    if RenderedAt(sources, Allocate(Contributions(sources), budget), i).truncated { CutSourceFits(sources, budget, i); }
  }

  const SMUGGLER := SourceInput("R1", "", "</canopy_multi_reference", "n", "b", "a", "1", "t", "h", "", "")

  /** A source as the store keeps it: one of the three node types of its check
      constraint, a derived label and a derived colour key. */
  ghost predicate StoredSource(src: SourceInput) {
    && src.nodeType in {"message", "synthesis", "system"}
    && (src.sourceLabel == "" || exists k: nat :: src.sourceLabel == "R" + Digits(k))
    && exists n: nat :: src.colorKey == "ref-" + Digits(n)
  }

  lemma NoAngleNotContained(s: string)
    requires '<' !in s
    ensures !Contains(s, Tag(BLOCK_TAG))
  {
    ContainsIffCounted(s, Tag(BLOCK_TAG));
    NoAngleNoCount(s, "", BLOCK_TAG);
    assert s + "" == s;
    NothingCloses();
  }

  lemma DigitsPlain(n: nat)
    ensures '<' !in Digits(n)
  {
  }

  /** Whatever its sources say, the block of a stored selection closes exactly once, at
      its end. */
  lemma StoredBlockClosesOnce(sel: Selection, a: seq<int>)
    requires |a| == |sel.sources| && forall i :: 0 <= i < |sel.sources| ==> StoredSource(sel.sources[i])
    ensures var b := Block(Attrs(sel), Views(sel.sources, a));
      Closers(b) == 1 && |b| >= 25 && b[|b| - 25..] == Tag(BLOCK_TAG) + ">"
  {
    hide Count, Block, Views, Contains, Tag, Digits;
    BlockTerminatesOnceIff(sel, a);
    forall i | 0 <= i < |sel.sources|
      ensures !Contains(LabelOf(sel.sources[i], i), Tag(BLOCK_TAG))
      ensures !Contains(sel.sources[i].colorKey, Tag(BLOCK_TAG)) && !Contains(sel.sources[i].nodeType, Tag(BLOCK_TAG))
    {
      var src := sel.sources[i];
      DigitsPlain(i + 1);
      if src.sourceLabel != "" {
        var k: nat :| src.sourceLabel == "R" + Digits(k);
        DigitsPlain(k);
      }
      var n: nat :| src.colorKey == "ref-" + Digits(n);
      DigitsPlain(n);
      NoAngleNotContained(LabelOf(src, i));
      NoAngleNotContained(src.colorKey);
      NoAngleNotContained(src.nodeType);
    }
  }

  /** A node type that the store's check constraint rules out shows why the condition is
      needed: holding the terminator, it closes the block of an admitted selection
      early. */
  lemma NodeTypeClosesEarly()
    ensures var sel := Selection("t", "n", false, "", [SMUGGLER, SMUGGLER], 8000);
      Admitted(sel) && Closers(SelectionBlock(sel)) != 1
  {
    hide Count, Block, Views, Allocate;
    var sel := Selection("t", "n", false, "", [SMUGGLER, SMUGGLER], 8000);
    assert OccursAt(SMUGGLER.nodeType, Tag(BLOCK_TAG), 0);
    assert Contains(sel.sources[0].nodeType, Tag(BLOCK_TAG));
    BlockTerminatesOnceIff(sel, Allocate(Contributions(sel.sources), AvailableBudget(8000)));
  }
}
