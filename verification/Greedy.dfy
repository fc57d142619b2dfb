/** The two ways a tier of the context compiler spends a budget in order:
    stopping at the first section that does not fit, or passing over it. */
module Greedy {
  import opened Sums
  import opened Text

  function Costs(texts: seq<string>): (r: seq<int>)
    ensures |r| == |texts| && forall i :: 0 <= i < |r| ==> 0 <= r[i] == Estimate(texts[i])
  {
    seq(|texts|, i requires 0 <= i < |texts| => Estimate(texts[i]))
  }

  function TotalCost(texts: seq<string>): int { Sum(Costs(texts)) }

  lemma TotalCostAppend(a: seq<string>, b: seq<string>)
    ensures TotalCost(a + b) == TotalCost(a) + TotalCost(b)
  {
    assert Costs(a + b) == Costs(a) + Costs(b);
    SumAppend(Costs(a), Costs(b));
  }

  lemma TotalCostSnoc(a: seq<string>, t: string)
    ensures TotalCost(a + [t]) == TotalCost(a) + Estimate(t)
  {
    TotalCostAppend(a, [t]);
    assert Costs([t]) == [Estimate(t)];
    assert Sum([Estimate(t)]) == Estimate(t) + Sum([]);
  }

  lemma TotalCostCons(t: string, rest: seq<string>)
    ensures TotalCost([t] + rest) == Estimate(t) + TotalCost(rest)
  {
    assert Costs([t] + rest) == [Estimate(t)] + Costs(rest);
  }

  /** Stop at the first misfit: the longest fitting prefix is kept. */
  method FillPrefix(texts: seq<string>, budget: int) returns (kept: seq<string>)
    ensures kept <= texts
    ensures 0 <= TotalCost(kept) <= Max(budget, 0)
    ensures |kept| < |texts| ==> TotalCost(kept) + Estimate(texts[|kept|]) > budget
  {
    hide TotalCost;
    kept := [];
    var remaining := budget;
    TotalOfNothing();
    for i := 0 to |texts|
      invariant kept == texts[..i]
      invariant remaining == budget - TotalCost(kept)
      invariant 0 <= TotalCost(kept) <= Max(budget, 0)
    {
      var tokens := Estimate(texts[i]);
      if remaining < tokens { return; }
      TotalCostSnoc(kept, texts[i]);
      remaining := remaining - tokens;
      kept := kept + [texts[i]];
    }
  }

  lemma TotalOfNothing()
    ensures TotalCost([]) == 0
  {
  }

  /** Pass over misfits: each section is kept if it fits what is left then. */
  function Chosen(texts: seq<string>, budget: int): seq<string>
  {
    if texts == [] then []
    else if Estimate(texts[0]) > budget then Chosen(texts[1..], budget)
    else [texts[0]] + Chosen(texts[1..], budget - Estimate(texts[0]))
  }

  function Passed(texts: seq<string>, budget: int): seq<string>
  {
    if texts == [] then []
    else if Estimate(texts[0]) > budget then [texts[0]] + Passed(texts[1..], budget)
    else Passed(texts[1..], budget - Estimate(texts[0]))
  }

  /** What is kept stays within the budget, nothing is lost or invented, and no
      section passed over would fit in what is left at the end. */
  lemma {:induction false} ChosenFacts(texts: seq<string>, budget: int)
    ensures 0 <= TotalCost(Chosen(texts, budget)) <= Max(budget, 0)
    ensures multiset(Chosen(texts, budget)) + multiset(Passed(texts, budget)) == multiset(texts)
    ensures forall t :: t in Passed(texts, budget) ==> Estimate(t) > budget - TotalCost(Chosen(texts, budget))
  {
    hide TotalCost, Estimate;
    TotalOfNothing();
    if texts != [] {
      var t := texts[0];
      assert texts == [t] + texts[1..];
      if Estimate(t) > budget {
        ChosenFacts(texts[1..], budget);
      } else {
        ChosenFacts(texts[1..], budget - Estimate(t));
        TotalCostCons(t, Chosen(texts[1..], budget - Estimate(t)));
      }
    }
  }

  /** Whether a section is kept depends on the kept ones before it alone: it is kept
      exactly when it fits what they leave. */
  lemma {:induction false} ChosenSnoc(texts: seq<string>, t: string, budget: int)
    ensures var kept := Chosen(texts, budget);
      Chosen(texts + [t], budget) == if Estimate(t) <= budget - TotalCost(kept) then kept + [t] else kept
  {
    hide TotalCost;
    TotalOfNothing();
    if texts == [] {
      assert [] + [t] == [t] && Chosen([t][1..], budget) == Chosen([t][1..], budget - Estimate(t)) == [];
    } else {
      var first, rest := texts[0], texts[1..];
      assert (texts + [t])[0] == first && (texts + [t])[1..] == rest + [t];
      if Estimate(first) > budget {
        ChosenSnoc(rest, t, budget);
      } else {
        var left := budget - Estimate(first);
        ChosenSnoc(rest, t, left);
        TotalCostCons(first, Chosen(rest, left));
      }
    }
  }
}
