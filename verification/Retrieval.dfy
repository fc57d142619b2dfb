/** The retrieved tier (internal/context/retrieval.go): tier budget, reference-wins
    deduplication, a total order and a greedy fill. Relevance is a real number,
    so incomparable floating-point values do not arise. */
module Retrieval {
  import opened Sums
  import opened Text
  import opened Sorting
  import opened Greedy

  const SHARE_PERCENT := 12

  datatype Item = Item(id: string, relevance: real, slug: string, title: string, preview: string)

  function Section(item: Item): string {
    "--- retrieved topic " + item.slug + " ---\n" + item.title + "\n" + item.preview
  }

  /** Relevance falling, then slug, then id. */
  predicate Before(a: Item, b: Item) {
    if a.relevance != b.relevance then a.relevance > b.relevance
    else if a.slug != b.slug then Less(a.slug, b.slug)
    else Less(a.id, b.id)
  }

  lemma BeforeIsOrder()
    ensures StrictOrder(Before)
  {
    LessIsOrder();
  }

  /** The first item of every id that is not already referenced. */
  function Fresh(items: seq<Item>, seen: set<string>): seq<Item>
  {
    if items == [] then []
    else if items[0].id in seen then Fresh(items[1..], seen)
    else [items[0]] + Fresh(items[1..], seen + {items[0].id})
  }

  function Ids(references: seq<string>): set<string> { set r | r in references }

  function Effective(tokenBudget: int, remaining: int): int {
    Min(tokenBudget * SHARE_PERCENT / 100, remaining)
  }

  function Ranking(retrieved: seq<Item>, referenced: set<string>): seq<Item> {
    Sort(Fresh(retrieved, referenced), Before)
  }

  /** Items kept in ranking order, each if it fits what is left then. */
  function Fill(items: seq<Item>, budget: int): seq<Item>
  {
    if items == [] then []
    else if Estimate(Section(items[0])) > budget then Fill(items[1..], budget)
    else [items[0]] + Fill(items[1..], budget - Estimate(Section(items[0])))
  }

  function Sections(items: seq<Item>): seq<string> {
    seq(|items|, i requires 0 <= i < |items| => Section(items[i]))
  }

  function Selected(retrieved: seq<Item>, referenced: set<string>, effective: int): seq<Item> {
    if effective <= 0 then [] else Fill(Ranking(retrieved, referenced), effective)
  }

  /** The kept items never rise in relevance; equal relevance goes by slug, then id.
      A candidate is omitted only if it does not fit what the kept items before it in
      that order have left of the tier, the smaller of 12% and what remains. */
  method CompileRetrieved(retrieved: seq<Item>, references: seq<string>, tokenBudget: int, remaining: int)
    returns (kept: seq<Item>, omitted: nat)
    ensures kept == Selected(retrieved, Ids(references), Effective(tokenBudget, remaining))
    ensures omitted == (if Effective(tokenBudget, remaining) <= 0 then 0
                        else |Fresh(retrieved, Ids(references))| - |kept|)
    ensures forall i, j :: 0 <= i < j < |kept| ==>
      && kept[i].relevance >= kept[j].relevance
      && (kept[i].relevance == kept[j].relevance ==>
           || LexicalLess(kept[i].slug, kept[j].slug)
           || (kept[i].slug == kept[j].slug && LexicalLess(kept[i].id, kept[j].id)))
    ensures forall x :: x in Fresh(retrieved, Ids(references)) && x !in kept ==>
      Crowded(x, kept, Min(tokenBudget * 12 / 100, remaining))
  {
    TierFacts(retrieved, Ids(references), Effective(tokenBudget, remaining));
    var effective := tokenBudget * SHARE_PERCENT / 100;
    if remaining < effective { effective := remaining; }
    if effective <= 0 { return [], 0; }
    var candidates := Deduplicate(retrieved, references);
    SameLength(candidates, Sort(candidates, Before));
    kept, omitted := FillItems(Sort(candidates, Before), effective);
  }

  method Deduplicate(retrieved: seq<Item>, references: seq<string>) returns (candidates: seq<Item>)
    ensures candidates == Fresh(retrieved, Ids(references))
  {
    var seen: set<string> := {};
    for i := 0 to |references|
      invariant seen == Ids(references[..i])
    {
      assert references[..i + 1] == references[..i] + [references[i]];
      seen := seen + {references[i]};
    }
    assert references[..|references|] == references;
    candidates := [];
    for i := 0 to |retrieved|
      invariant candidates + Fresh(retrieved[i..], seen) == Fresh(retrieved, Ids(references))
    {
      var item := retrieved[i];
      assert retrieved[i..][0] == item && retrieved[i..][1..] == retrieved[i + 1..];
      if item.id !in seen {
        assert candidates + ([item] + Fresh(retrieved[i + 1..], seen + {item.id}))
            == candidates + [item] + Fresh(retrieved[i + 1..], seen + {item.id});
        seen := seen + {item.id};
        candidates := candidates + [item];
      }
    }
  }

  method FillItems(ranked: seq<Item>, budget: int) returns (kept: seq<Item>, omitted: nat)
    ensures kept == Fill(ranked, budget) && omitted == |ranked| - |kept|
  {
    hide Section;
    kept, omitted := [], 0;
    var left := budget;
    for i := 0 to |ranked|
      invariant kept + Fill(ranked[i..], left) == Fill(ranked, budget)
      invariant omitted == i - |kept|
    {
      var tokens := Estimate(Section(ranked[i]));
      assert ranked[i..][0] == ranked[i] && ranked[i..][1..] == ranked[i + 1..];
      if tokens > left {
        omitted := omitted + 1;
      } else {
        assert kept + ([ranked[i]] + Fill(ranked[i + 1..], left - tokens))
            == kept + [ranked[i]] + Fill(ranked[i + 1..], left - tokens);
        left := left - tokens;
        kept := kept + [ranked[i]];
      }
    }
  }

  // --- Guarantees --------------------------------------------------------------

  lemma {:induction false} FreshElements(items: seq<Item>, seen: set<string>)
    ensures var f := Fresh(items, seen);
      && (forall x :: x in f ==> x in items && x.id !in seen)
      && (forall i, j :: 0 <= i < j < |f| ==> f[i].id != f[j].id)
  {
    if items != [] {
      if items[0].id in seen {
        FreshElements(items[1..], seen);
      } else {
        FreshElements(items[1..], seen + {items[0].id});
        var rest := Fresh(items[1..], seen + {items[0].id});
        assert forall j :: 0 <= j < |rest| ==> rest[j] in rest;
      }
    }
  }

  lemma {:induction false} FreshCovers(items: seq<Item>, seen: set<string>, x: Item) returns (y: Item)
    requires x in items && x.id !in seen
    ensures y in items && y.id == x.id && y in Fresh(items, seen)
  {
    if items[0].id == x.id {
      y := items[0];
    } else if items[0].id in seen {
      y := FreshCovers(items[1..], seen, x);
    } else {
      y := FreshCovers(items[1..], seen + {items[0].id}, x);
    }
  }

  /** The item that wins for an id is its first. */
  lemma {:induction false} FirstIsFresh(items: seq<Item>, seen: set<string>, i: nat)
    requires i < |items| && items[i].id !in seen
    requires forall j :: 0 <= j < i ==> items[j].id != items[i].id
    ensures items[i] in Fresh(items, seen)
  {
    if i > 0 {
      FirstIsFresh(items[1..], if items[0].id in seen then seen else seen + {items[0].id}, i - 1);
    }
  }

  /** x comes before y in the tier. */
  ghost predicate Outranks(x: Item, y: Item) {
    && x.relevance >= y.relevance
    && (x.relevance == y.relevance ==>
         LexicalLess(x.slug, y.slug) || (x.slug == y.slug && LexicalLess(x.id, y.id)))
  }

  /** x does not fit what the kept items before it leave; all others come after it. */
  ghost predicate Crowded(x: Item, kept: seq<Item>, budget: int) {
    budget <= 0 || exists k :: 0 <= k <= |kept| && CrowdedBy(x, kept, k, budget)
  }

  ghost predicate CrowdedBy(x: Item, kept: seq<Item>, k: nat, budget: int)
    requires k <= |kept|
  {
    && (forall i :: 0 <= i < k ==> Outranks(kept[i], x))
    && (forall i :: k <= i < |kept| ==> Outranks(x, kept[i]))
    && Estimate(Section(x)) > budget - TotalCost(Sections(kept[..k]))
  }

  lemma BeforeOutranks(x: Item, y: Item)
    requires x.id != y.id
    ensures Before(x, y) ==> Outranks(x, y)
    ensures Before(y, x) || Outranks(x, y)
  {
    hide LexicalLess;
    LessIsLexical(x.slug, y.slug);
    LessIsLexical(x.id, y.id);
    LessTotal(x.slug, y.slug);
    LessTotal(x.id, y.id);
  }

  /** Every item of the ranking outranks all that follow it. */
  lemma RankingFalls(retrieved: seq<Item>, referenced: set<string>, i: nat, j: nat)
    requires i < j < |Ranking(retrieved, referenced)|
    ensures Outranks(Ranking(retrieved, referenced)[i], Ranking(retrieved, referenced)[j])
  {
    hide Fresh, Before, Outranks, Sort;
    var f, r := Fresh(retrieved, referenced), Ranking(retrieved, referenced);
    BeforeIsOrder();
    SortSorts(f, Before);
    FreshElements(retrieved, referenced);
    SortNoDuplicates(f, Before);
    SameLength(f, r);
    assert r[i] in f && r[j] in f && r[i] != r[j];
    BeforeOutranks(r[i], r[j]);
  }

  /** Filling goes on from where it stands. */
  lemma {:induction false} FillSplit(a: seq<Item>, b: seq<Item>, budget: int)
    ensures Fill(a + b, budget) == Fill(a, budget) + Fill(b, budget - TotalCost(Sections(Fill(a, budget))))
  {
    hide Section, TotalCost, Estimate;
    TotalOfNothing();
    assert Sections([]) == [];
    if a == [] {
      assert a + b == b;
    } else {
      assert (a + b)[0] == a[0] && (a + b)[1..] == a[1..] + b;
      var cost := Estimate(Section(a[0]));
      if cost > budget {
        FillSplit(a[1..], b, budget);
      } else {
        FillSplit(a[1..], b, budget - cost);
        var rest := Fill(a[1..], budget - cost);
        SectionsCons(a[0], rest);
        assert [a[0]] + (rest + Fill(b, budget - cost - TotalCost(Sections(rest))))
            == [a[0]] + rest + Fill(b, budget - cost - TotalCost(Sections(rest)));
      }
    }
  }

  lemma {:induction false} FillRises(items: seq<Item>, budget: int) returns (at: seq<nat>)
    ensures |at| == |Fill(items, budget)|
    ensures forall i :: 0 <= i < |at| ==> at[i] < |items| && Fill(items, budget)[i] == items[at[i]]
    ensures forall i, j :: 0 <= i < j < |at| ==> at[i] < at[j]
  {
    hide Section;
    at := [];
    if items != [] {
      var cost := Estimate(Section(items[0]));
      var rest := FillRises(items[1..], if cost > budget then budget else budget - cost);
      var moved := seq(|rest|, i requires 0 <= i < |rest| => rest[i] + 1);
      at := if cost > budget then moved else [0] + moved;
    }
  }

  /** The kept items stand in falling rank. */
  lemma SelectedFalls(retrieved: seq<Item>, referenced: set<string>, effective: int, i: nat, j: nat)
    requires i < j < |Selected(retrieved, referenced, effective)|
    ensures var kept := Selected(retrieved, referenced, effective); Outranks(kept[i], kept[j])
  {
    hide Ranking, Outranks;
    var at := FillRises(Ranking(retrieved, referenced), effective);
    RankingFalls(retrieved, referenced, at[i], at[j]);
  }

  /** Less relevant items never displace a candidate: one that is omitted did not fit
      what the kept items that outrank it left. */
  lemma OmittedIsCrowded(retrieved: seq<Item>, referenced: set<string>, effective: int, x: Item)
    requires x in Fresh(retrieved, referenced) && x !in Selected(retrieved, referenced, effective)
    ensures Crowded(x, Selected(retrieved, referenced, effective), effective)
  {
    hide Fresh, Fill, Outranks, TotalCost, Section, Sort, Before;
    if effective > 0 {
      var r, kept := Ranking(retrieved, referenced), Selected(retrieved, referenced, effective);
      SameLength(Fresh(retrieved, referenced), r);
      var p :| 0 <= p < |r| && r[p] == x;
      var k := OmittedAt(r, effective, p);
      forall i | 0 <= i < k ensures Outranks(kept[i], x) {
        assert kept[i] in r[..p];
        var q :| 0 <= q < p && r[..p][q] == kept[i];
        RankingFalls(retrieved, referenced, q, p);
      }
      forall i | k <= i < |kept| ensures Outranks(x, kept[i]) {
        assert kept[i] in r[p + 1..];
        var o :| 0 <= o < |r| - p - 1 && r[p + 1..][o] == kept[i];
        var q := p + 1 + o;
        RankingFalls(retrieved, referenced, p, q);
      }
      assert CrowdedBy(x, kept, k, effective);
    }
  }

  lemma OmittedAt(r: seq<Item>, budget: int, p: nat) returns (k: nat)
    requires p < |r| && r[p] !in Fill(r, budget)
    ensures var kept := Fill(r, budget);
      && k <= |kept|
      && Estimate(Section(r[p])) > budget - TotalCost(Sections(kept[..k]))
      && (forall i :: 0 <= i < k ==> kept[i] in r[..p])
      && (forall i :: k <= i < |kept| ==> kept[i] in r[p + 1..])
  {
    hide Fill, TotalCost, Section;
    var above := Fill(r[..p], budget);
    var left := budget - TotalCost(Sections(above));
    assert r == r[..p] + r[p..] && r[p..] == [r[p]] + r[p + 1..];
    FillSplit(r[..p], r[p..], budget);
    FillStep(r[p], r[p + 1..], left);
    var kept, below := Fill(r, budget), Fill(r[p..], left);
    assert forall i :: 0 <= i < |below| ==> below[i] == kept[|above| + i];
    FillFacts(r[..p], budget);
    FillFacts(r[p + 1..], left);
    k := |above|;
    assert kept[..k] == above;
  }

  lemma FillStep(x: Item, rest: seq<Item>, budget: int)
    ensures x !in Fill([x] + rest, budget) ==>
      Estimate(Section(x)) > budget && Fill([x] + rest, budget) == Fill(rest, budget)
  {
    hide Section;
    assert ([x] + rest)[1..] == rest;
  }

  lemma TierFacts(retrieved: seq<Item>, referenced: set<string>, effective: int)
    ensures var kept := Selected(retrieved, referenced, effective);
      && (forall i, j :: 0 <= i < j < |kept| ==> Outranks(kept[i], kept[j]))
      && (forall x :: x in Fresh(retrieved, referenced) && x !in kept ==> Crowded(x, kept, effective))
  {
    hide Selected, Outranks, Crowded, Fresh;
    var kept := Selected(retrieved, referenced, effective);
    forall i, j | 0 <= i < j < |kept| ensures Outranks(kept[i], kept[j]) {
      SelectedFalls(retrieved, referenced, effective, i, j);
    }
    forall x | x in Fresh(retrieved, referenced) && x !in kept ensures Crowded(x, kept, effective) {
      OmittedIsCrowded(retrieved, referenced, effective, x);
    }
  }

  /** Items that share an id not yet referenced are the same item. */
  ghost predicate IdsIdentify(items: seq<Item>, referenced: set<string>) {
    forall x, y :: x in items && y in items && x.id == y.id && x.id !in referenced ==> x == y
  }

  lemma {:induction false} SameElementsSameMultiset<T>(s: seq<T>, t: seq<T>)
    requires NoDuplicates(s) && NoDuplicates(t)
    requires forall x :: x in s <==> x in t
    ensures multiset(s) == multiset(t)
  {
    forall x ensures multiset(s)[x] == multiset(t)[x] {
      Multiplicity(s, x);
      Multiplicity(t, x);
    }
  }

  lemma {:induction false} Multiplicity<T>(s: seq<T>, x: T)
    requires NoDuplicates(s)
    ensures multiset(s)[x] == if x in s then 1 else 0
  {
    if s != [] {
      Multiplicity(s[1..], x);
      assert s == [s[0]] + s[1..];
      assert s[0] !in s[1..];
    }
  }

  /** The order in which the reader returns its results does not matter. */
  lemma ReaderOrderIrrelevant(r1: seq<Item>, r2: seq<Item>, referenced: set<string>, effective: int)
    requires multiset(r1) == multiset(r2) && IdsIdentify(r1, referenced)
    ensures Selected(r1, referenced, effective) == Selected(r2, referenced, effective)
  {
    hide Fresh, Fill;
    var f1, f2 := Fresh(r1, referenced), Fresh(r2, referenced);
    SameLength(r1, r2);
    FreshElements(r1, referenced);
    FreshElements(r2, referenced);
    forall x ensures x in f1 <==> x in f2 {
      if x in f1 { var y := FreshCovers(r2, referenced, x); }
      if x in f2 { var y := FreshCovers(r1, referenced, x); }
    }
    SameElementsSameMultiset(f1, f2);
    BeforeIsOrder();
    assert Separated(f1, Before) by { LessIsOrder(); }
    SortCanonical(f1, f2, Before);
  }

  lemma {:induction false} FillAll(items: seq<Item>, budget: int)
    requires TotalCost(Sections(items)) <= budget
    ensures Fill(items, budget) == items
  {
    hide Section, TotalCost;
    if items != [] {
      var x, rest := items[0], items[1..];
      assert items == [x] + rest;
      SectionsCons(x, rest);
      CostNonNegative(Sections(rest));
      TotalOfNothing();
      FillAll(rest, budget - Estimate(Section(x)));
    }
  }

  lemma SectionsCons(x: Item, rest: seq<Item>)
    ensures TotalCost(Sections([x] + rest)) == Estimate(Section(x)) + TotalCost(Sections(rest))
  {
    hide Section, TotalCost;
    assert Sections([x] + rest) == [Section(x)] + Sections(rest);
    TotalCostCons(Section(x), Sections(rest));
  }

  lemma CostNonNegative(texts: seq<string>)
    ensures 0 <= TotalCost(texts)
  {
    SumNonNegative(Costs(texts));
  }

  /** A budget that admits everything a reader returns. */
  ghost function Ample(retrieved: seq<Item>, referenced: set<string>): (e: int)
    ensures e > 0
  {
    CostNonNegative(Sections(Ranking(retrieved, referenced)));
    1 + TotalCost(Sections(Ranking(retrieved, referenced)))
  }

  lemma FirstIsSelected(x: Item, rest: seq<Item>, referenced: set<string>, effective: int)
    requires x.id !in referenced && Ample([x] + rest, referenced) <= effective
    ensures x in Selected([x] + rest, referenced, effective)
  {
    hide Section, TotalCost, Sort;
    var r := [x] + rest;
    FillAll(Ranking(r, referenced), effective);
    assert r[1..] == rest;
    assert x in Fresh(r, referenced);
    SameLength(Fresh(r, referenced), Ranking(r, referenced));
  }

  lemma SelectedIdsDistinct(retrieved: seq<Item>, referenced: set<string>, effective: int, x: Item, y: Item)
    requires x in Selected(retrieved, referenced, effective) && y in Selected(retrieved, referenced, effective)
    requires x.id == y.id
    ensures x == y
  {
    hide Fresh, Fill, Section, TotalCost, Sort, Before;
    var f := Fresh(retrieved, referenced);
    FreshElements(retrieved, referenced);
    SameLength(f, Ranking(retrieved, referenced));
    FillFacts(Ranking(retrieved, referenced), effective);
    var i :| 0 <= i < |f| && f[i] == x;
    var j :| 0 <= j < |f| && f[j] == y;
  }

  lemma BringToFront(retrieved: seq<Item>, x: Item) returns (rest: seq<Item>)
    requires x in retrieved
    ensures multiset([x] + rest) == multiset(retrieved)
  {
    var i :| 0 <= i < |retrieved| && retrieved[i] == x;
    rest := retrieved[..i] + retrieved[i + 1..];
    assert retrieved == retrieved[..i] + [x] + retrieved[i + 1..];
  }

  /** The reader's order is irrelevant at every budget exactly when ids not yet
      referenced identify their items: otherwise the first item of an id wins. */
  lemma ReaderOrderIrrelevantIff(retrieved: seq<Item>, referenced: set<string>)
    ensures IdsIdentify(retrieved, referenced) <==>
      forall r, e | multiset(r) == multiset(retrieved) ::
        Selected(r, referenced, e) == Selected(retrieved, referenced, e)
  {
    hide Selected;
    if IdsIdentify(retrieved, referenced) {
      forall r, e | multiset(r) == multiset(retrieved)
        ensures Selected(r, referenced, e) == Selected(retrieved, referenced, e)
      {
        ReaderOrderIrrelevant(retrieved, r, referenced, e);
      }
    } else {
      var x, y :| x in retrieved && y in retrieved && x.id == y.id && x.id !in referenced && x != y;
      var withX := BringToFront(retrieved, x);
      var withY := BringToFront(retrieved, y);
      var e := Max(Ample([x] + withX, referenced), Ample([y] + withY, referenced));
      FirstIsSelected(x, withX, referenced, e);
      FirstIsSelected(y, withY, referenced, e);
      if Selected([x] + withX, referenced, e) == Selected([y] + withY, referenced, e) {
        SelectedIdsDistinct([x] + withX, referenced, e, x, y);
      }
    }
  }

  lemma {:induction false} FillFacts(items: seq<Item>, budget: int)
    ensures var kept := Fill(items, budget);
      && 0 <= TotalCost(Sections(kept)) <= Max(budget, 0)
      && (forall x :: x in kept ==> x in items)
      && (forall x :: x in items && x !in kept ==> Estimate(Section(x)) > budget - TotalCost(Sections(kept)))
  {
    hide TotalCost, Section;
    TotalOfNothing();
    var kept := Fill(items, budget);
    if items == [] {
      assert Sections(kept) == [];
    } else {
      var x := items[0];
      if Estimate(Section(x)) > budget {
        FillFacts(items[1..], budget);
      } else {
        var rest := Fill(items[1..], budget - Estimate(Section(x)));
        FillFacts(items[1..], budget - Estimate(Section(x)));
        SectionsCons(x, rest);
      }
    }
  }

  /** The tier never repeats a referenced id, spends at most the smaller of its
      share and what is left, and is maximal: the first item of an unreferenced
      id is left out only if it does not fit in what the tier leaves. */
  lemma SelectedFacts(retrieved: seq<Item>, referenced: set<string>, effective: int)
    ensures var kept := Selected(retrieved, referenced, effective);
      && 0 <= TotalCost(Sections(kept)) <= Max(effective, 0)
      && (forall x :: x in kept ==> x in retrieved && x.id !in referenced)
      && (forall x :: x in Fresh(retrieved, referenced) && x !in kept ==>
           effective <= 0 || Estimate(Section(x)) > effective - TotalCost(Sections(kept)))
  {
    hide TotalCost, Section, Fresh, Fill;
    TotalOfNothing();
    assert Sections([]) == [];
    FreshElements(retrieved, referenced);
    SameLength(Fresh(retrieved, referenced), Ranking(retrieved, referenced));
    FillFacts(Ranking(retrieved, referenced), effective);
  }
}
