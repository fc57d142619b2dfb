/** What AllocateMultiReferenceBudget guarantees, for every profile budget and
    every list of source estimates. */
module AllocationTheorems {
  import opened Sums
  import opened Sorting
  import opened Allocation

  // --- The walks over the candidates --------------------------------------

  ghost predicate Distinct(order: seq<nat>) {
    forall i, j :: 0 <= i < j < |order| ==> order[i] != order[j]
  }

  lemma {:induction false} OnePassBounds(a: seq<int>, order: seq<nat>, left: nat)
    requires InRange(order, |a|)
    requires forall i :: 0 <= i < |a| ==> a[i] <= CAP
    ensures var (b, rest) := OnePass(a, order, left);
      && (forall i :: 0 <= i < |a| ==> a[i] <= b[i] <= CAP)
      && (forall i :: 0 <= i < |a| && i !in order ==> b[i] == a[i])
      && Sum(b) + rest == Sum(a) + left
      && (rest == left > 0 ==> forall k :: 0 <= k < |order| ==> a[order[k]] == CAP)
    decreases |order|
  {
    if order == [] || left == 0 {
    } else if a[order[0]] >= CAP {
      OnePassBounds(a, order[1..], left);
    } else {
      SumUpdate(a, order[0], a[order[0]] + 1);
      OnePassBounds(a[order[0] := a[order[0]] + 1], order[1..], left - 1);
    }
  }

  /** All walks together spend everything, or leave every candidate at the cap. */
  lemma {:induction false} RoundsBounds(a: seq<int>, order: seq<nat>, left: nat)
    requires InRange(order, |a|)
    requires forall i :: 0 <= i < |a| ==> a[i] <= CAP
    ensures var b := Rounds(a, order, left);
      && (forall i :: 0 <= i < |a| ==> a[i] <= b[i] <= CAP)
      && (forall i :: 0 <= i < |a| && i !in order ==> b[i] == a[i])
      && Sum(b) <= Sum(a) + left
      && (Sum(b) < Sum(a) + left ==> forall k :: 0 <= k < |order| ==> b[order[k]] == CAP)
    decreases left
  {
    if left > 0 {
      OnePassBounds(a, order, left);
      var (b, rest) := OnePass(a, order, left);
      if rest < left { RoundsBounds(b, order, rest); }
    }
  }

  /** While fewer units than candidates are left and none is capped, one walk
      gives a unit to exactly the leading candidates. */
  lemma {:induction false} LeadersOnly(a: seq<int>, order: seq<nat>, left: nat)
    requires InRange(order, |a|) && Distinct(order) && left <= |order|
    requires forall k :: 0 <= k < left ==> a[order[k]] < CAP
    ensures var (b, rest) := OnePass(a, order, left);
      && rest == 0
      && forall i :: 0 <= i < |a| ==> b[i] == a[i] + if i in order[..left] then 1 else 0
    decreases |order|
  {
    if left > 0 {
      var c := order[0];
      var a' := a[c := a[c] + 1];
      assert order[..left] == [c] + order[1..][..left - 1];
      assert forall k :: 0 <= k < left - 1 ==> order[1..][k] == order[k + 1];
      LeadersOnly(a', order[1..], left - 1);
    }
  }

  // --- The quota rule ------------------------------------------------------

  /** need[i] scaled to the tokens above the starts, rounded down. */
  function Quota(need: int, total: int, remaining: int): int
    requires total > 0
  {
    remaining * need / total
  }

  function Fraction(need: int, total: int, remaining: int): int
    requires total > 0
  {
    remaining * need % total
  }

  lemma QuotaWithinNeed(need: int, total: int, remaining: int)
    requires 0 <= need && 0 < remaining <= total
    ensures remaining * need == Quota(need, total, remaining) * total + Fraction(need, total, remaining)
    ensures 0 <= Quota(need, total, remaining) <= need
    ensures Fraction(need, total, remaining) > 0 ==> Quota(need, total, remaining) < need
  {
    var q, f := Quota(need, total, remaining), Fraction(need, total, remaining);
    assert remaining * need <= total * need;
    assert q * total + f <= need * total;
    if q > need { MulStep(need, q, total); }
    assert 0 <= remaining * need;
  }

  lemma QuotaCovers(need: int, total: int, remaining: int)
    requires 0 <= need && 0 < total <= remaining
    ensures need <= Quota(need, total, remaining)
  {
    var q := Quota(need, total, remaining);
    assert total * need <= remaining * need;
    if q < need { MulStep(q, need, total); }
  }

  ghost predicate NeedVector(need: seq<int>) {
    forall i :: 0 <= i < |need| ==> 0 <= need[i] <= CAP - START
  }

  function RemSum(c: seq<Candidate>): int { if c == [] then 0 else c[0].rem + RemSum(c[1..]) }

  lemma {:induction false} RemSumInsert(x: Candidate, c: seq<Candidate>)
    ensures RemSum(Insert(x, c, Ahead)) == x.rem + RemSum(c)
  {
    if c == [] {
    } else if Ahead(c[0], x) {
      RemSumInsert(x, c[1..]);
      assert ([c[0]] + Insert(x, c[1..], Ahead))[1..] == Insert(x, c[1..], Ahead);
    } else {
      assert ([x] + c)[1..] == c;
    }
  }

  lemma {:induction false} RemSumSort(c: seq<Candidate>)
    ensures RemSum(Sort(c, Ahead)) == RemSum(c)
  {
    if c != [] {
      RemSumSort(c[1..]);
      RemSumInsert(c[0], Sort(c[1..], Ahead));
    }
  }

  lemma {:induction false} RemSumCandidates(need: seq<int>, rems: seq<int>, from: nat)
    requires |need| == |rems| && from <= |need|
    requires forall i :: 0 <= i < |need| ==> 0 <= need[i] && (need[i] == 0 ==> rems[i] == 0)
    ensures RemSum(Candidates(need, rems, from)) == Sum(rems[from..])
    decreases |need| - from
  {
    if from < |need| {
      RemSumCandidates(need, rems, from + 1);
      assert rems[from..][1..] == rems[from + 1..];
      var rest := Candidates(need, rems, from + 1);
      assert ([Candidate(rems[from], from)] + rest)[1..] == rest;
      assert [] + rest == rest;
    }
  }

  lemma {:induction false} RemSumBounded(c: seq<Candidate>, m: int)
    requires forall i :: 0 <= i < |c| ==> c[i].rem <= m
    ensures RemSum(c) <= |c| * m
  {
    if c != [] {
      RemSumBounded(c[1..], m);
      assert |c| * m == m + (|c| - 1) * m;
    }
  }

  lemma {:induction false} RemSumSplit(c: seq<Candidate>, k: nat)
    requires k <= |c|
    ensures RemSum(c) == RemSum(c[..k]) + RemSum(c[k..])
  {
    if k == 0 {
      assert c[..0] == [] && c[0..] == c;
    } else {
      RemSumSplit(c[1..], k - 1);
      assert c[..k][1..] == c[1..][..k - 1] && c[k..] == c[1..][k - 1..];
    }
  }

  /** Candidates ordered by falling remainder, each below `total`, that together
      owe `left` whole units: the first `left` of them have a positive remainder. */
  lemma LeadersArePositive(c: seq<Candidate>, total: int, left: int, k: nat)
    requires Sorted(c, Ahead) && total > 0
    requires forall i :: 0 <= i < |c| ==> 0 <= c[i].rem < total
    requires RemSum(c) == left * total
    requires k < left
    ensures left <= |c| && c[k].rem > 0
  {
    assert left <= |c| by {
      RemSumBounded(c, total);
      if |c| < left { MulStep(|c|, left, total); }
    }
    RemSumSplit(c, k);
    RemSumBounded(c[..k], total);
    MulStep(k, left, total);
    assert RemSum(c[k..]) > 0;
    if c[k].rem <= 0 {
      forall i | k <= i < |c| ensures c[i].rem <= 0 { assert i == k || !Ahead(c[i], c[k]); }
      RemSumBounded(c[k..], 0);
    }
  }

  /** The sorted candidates behind Order. */
  ghost function Ranked(need: seq<int>, rems: seq<int>): seq<Candidate>
    requires |need| == |rems|
  {
    Sort(Candidates(need, rems, 0), Ahead)
  }

  lemma RankedElements(need: seq<int>, rems: seq<int>)
    requires |need| == |rems|
    ensures var c := Ranked(need, rems);
      && Sorted(c, Ahead) && NoDuplicates(c)
      && forall i :: 0 <= i < |c| ==> c[i].idx < |need| && need[c[i].idx] > 0 && c[i].rem == rems[c[i].idx]
  {
    var raw := Candidates(need, rems, 0);
    CandidatesFacts(need, rems, 0);
    SortSorts(raw, Ahead);
    SortNoDuplicates(raw, Ahead);
    SameLength(raw, Ranked(need, rems));
    forall i | 0 <= i < |raw| ensures Ranked(need, rems)[i] in raw { }
  }

  lemma OrderDistinct(need: seq<int>, rems: seq<int>)
    requires |need| == |rems|
    ensures Distinct(Order(need, rems)) && InRange(Order(need, rems), |need|)
  {
    RankedElements(need, rems);
    var c := Ranked(need, rems);
    forall i, j | 0 <= i < j < |c| ensures Order(need, rems)[i] != Order(need, rems)[j] {
      assert c[i] != c[j];
    }
  }

  lemma OrderComplete(need: seq<int>, rems: seq<int>, i: nat)
    requires |need| == |rems| && i < |need|
    ensures need[i] > 0 <==> i in Order(need, rems)
  {
    RankedElements(need, rems);
    var c := Ranked(need, rems);
    CandidatesFacts(need, rems, 0);
    SameLength(Candidates(need, rems, 0), c);
    if need[i] > 0 {
      assert Candidate(rems[i], i) in c;
      var k :| 0 <= k < |c| && c[k] == Candidate(rems[i], i);
      assert Order(need, rems)[k] == i;
    }
  }

  lemma SumPlus(a: seq<int>, b: seq<int>)
    requires |a| == |b|
    ensures Sum(Plus(a, b)) == Sum(a) + Sum(b)
  {
    SumLinear(Plus(a, b), 1, a, b);
  }

  /** What is left after the integer division is owed exactly by the remainders. */
  lemma LeftoverOwed(shares: seq<int>, rems: seq<int>, need: seq<int>, total: int, remaining: int)
    requires |shares| == |rems| == |need| && total == Sum(need) > 0
    requires forall i :: 0 <= i < |need| ==> remaining * need[i] == total * shares[i] + rems[i]
    ensures Sum(rems) == (remaining - Sum(shares)) * total
  {
    var scaled := seq(|need|, i requires 0 <= i < |need| => remaining * need[i]);
    SumLinear(scaled, total, shares, rems);
    var zeros := seq(|need|, _ => 0);
    SumConstant(zeros, 0);
    SumLinear(scaled, remaining, need, zeros);
    assert remaining * total - total * Sum(shares) == (remaining - Sum(shares)) * total;
  }

  /** Under a tight budget a share is the exact quota, its remainder the fraction. */
  lemma TightShare(need: int, total: int, remaining: int)
    requires 0 <= need <= CAP - START && 0 < remaining <= total
    ensures Share(START, need, total, remaining) == Quota(need, total, remaining)
    ensures remaining * need == total * Quota(need, total, remaining) + Fraction(need, total, remaining)
    ensures 0 <= Quota(need, total, remaining) <= need && 0 <= Fraction(need, total, remaining) < total
    ensures Fraction(need, total, remaining) > 0 ==> Quota(need, total, remaining) < need
    ensures need == 0 ==> Fraction(need, total, remaining) == 0
  {
    QuotaWithinNeed(need, total, remaining);
  }

  ghost predicate TightAt(share: int, rem: int, need: int, total: int, remaining: int)
    requires total > 0
  {
    && share == Quota(need, total, remaining) && rem == Fraction(need, total, remaining)
    && 0 <= share <= need && 0 <= rem < total && (rem > 0 ==> share < need)
  }

  lemma TightShares(need: seq<int>, total: int, remaining: int)
    requires NeedVector(need) && total == Sum(need) && 0 < remaining <= total
    ensures var shares := Shares(Starts(|need|), need, total, remaining);
      var rems := Remainders(shares, need, total, remaining);
      && (forall i :: 0 <= i < |need| ==> TightAt(shares[i], rems[i], need[i], total, remaining))
      && Sum(rems) == (remaining - Sum(shares)) * total
  {
    hide Quota, Fraction, Share, Sum;
    var shares := Shares(Starts(|need|), need, total, remaining);
    var rems := Remainders(shares, need, total, remaining);
    forall i | 0 <= i < |need|
      ensures TightAt(shares[i], rems[i], need[i], total, remaining)
      ensures remaining * need[i] == total * shares[i] + rems[i]
    {
      TightShare(need[i], total, remaining);
      assert shares[i] == Share(START, need[i], total, remaining);
    }
    LeftoverOwed(shares, rems, need, total, remaining);
  }

  lemma LeadersRanked(need: seq<int>, rems: seq<int>, total: int, left: int)
    requires |need| == |rems| && total > 0 && left > 0
    requires forall i :: 0 <= i < |need| ==> 0 <= need[i] && 0 <= rems[i] < total && (rems[i] > 0 ==> need[i] > 0)
    requires Sum(rems) == left * total
    ensures var order := Order(need, rems);
      && Distinct(order) && InRange(order, |need|) && left <= |order|
      && forall k :: 0 <= k < left ==> rems[order[k]] > 0
  {
    var c := Ranked(need, rems);
    RankedElements(need, rems);
    OrderDistinct(need, rems);
    RemSumSort(Candidates(need, rems, 0));
    RemSumCandidates(need, rems, 0);
    assert rems[0..] == rems;
    forall k | 0 <= k < left ensures left <= |c| && c[k].rem > 0 { LeadersArePositive(c, total, left, k); }
    LeadersArePositive(c, total, left, 0);
  }

  lemma LeaderAhead(need: seq<int>, rems: seq<int>, left: nat, i: nat, j: nat)
    requires |need| == |rems| && j < |need| && need[j] > 0
    requires left <= |Order(need, rems)| && i in Order(need, rems)[..left] && j !in Order(need, rems)[..left]
    ensures i < |need| && Ahead(Candidate(rems[i], i), Candidate(rems[j], j))
  {
    var c, order := Ranked(need, rems), Order(need, rems);
    RankedElements(need, rems);
    OrderComplete(need, rems, j);
    var p :| 0 <= p < left && order[..left][p] == i;
    assert forall k :: 0 <= k < left ==> order[k] in order[..left];
    var q :| 0 <= q < |order| && order[q] == j;
    assert left <= q;
    assert !Ahead(c[q], c[p]);
  }

  /** The leftover units go, one each, to the candidates with the largest remainders. */
  lemma LeftoverPlaced(need: seq<int>, rems: seq<int>, base: seq<int>, total: int, left: int)
    requires |need| == |rems| == |base| && total > 0 && left > 0
    requires forall i :: 0 <= i < |need| ==>
      0 <= need[i] && base[i] <= CAP && 0 <= rems[i] < total && (rems[i] > 0 ==> base[i] < CAP && need[i] > 0)
    requires Sum(rems) == left * total
    ensures var r := HandLeftover(base, need, rems, left);
      && (forall i :: 0 <= i < |r| ==> r[i] == base[i] || (r[i] == base[i] + 1 && rems[i] > 0))
      && Sum(r) == Sum(base) + left
      && forall i, j | 0 <= i < |r| && 0 <= j < |r| && need[j] > 0 && r[i] > base[i] && r[j] == base[j] ::
           Ahead(Candidate(rems[i], i), Candidate(rems[j], j))
  {
    hide Sort, Candidates, Sum, Order, OnePass, Ahead;
    var order := Order(need, rems);
    LeadersRanked(need, rems, total, left);
    LeadersOnly(base, order, left);
    OnePassBounds(base, order, left);
    var r := OnePass(base, order, left).0;
    assert Rounds(base, order, left) == r;
    forall i | 0 <= i < |r| ensures r[i] == base[i] || (r[i] == base[i] + 1 && rems[i] > 0) {
      if i in order[..left] {
        var p :| 0 <= p < left && order[..left][p] == i;
      }
    }
    forall i, j | 0 <= i < |r| && 0 <= j < |r| && need[j] > 0 && r[i] > base[i] && r[j] == base[j]
      ensures Ahead(Candidate(rems[i], i), Candidate(rems[j], j))
    {
      LeaderAhead(need, rems, left, i, j);
    }
  }

  /** Hamilton's method, stated without its algorithm: everything is handed out,
      each source gets its quota rounded down or up and never more than its need,
      and a source rounded up precedes every candidate rounded down in falling
      order of fraction, ties to the lower index. */
  ghost predicate LargestRemainder(r: seq<int>, need: seq<int>, total: int, remaining: int)
    requires |r| == |need| && total > 0
  {
    && Sum(r) == |need| * 256 + remaining
    && (forall i :: 0 <= i < |need| ==>
         && r[i] - 256 - Quota(need[i], total, remaining) in {0, 1}
         && r[i] - 256 <= need[i])
    && (forall i, j | 0 <= i < |need| && 0 <= j < |need| && need[j] > 0
         && r[i] > 256 + Quota(need[i], total, remaining)
         && r[j] == 256 + Quota(need[j], total, remaining) ::
         var f, g := Fraction(need[i], total, remaining), Fraction(need[j], total, remaining);
         f > g || (f == g && i < j))
  }

  /** Of two equal needs the one with the lower index never gets less. */
  lemma EqualNeeds(r: seq<int>, need: seq<int>, total: int, remaining: int, i: nat, j: nat)
    requires |r| == |need| && NeedVector(need) && total > 0 && LargestRemainder(r, need, total, remaining)
    requires i < j < |need| && need[i] == need[j]
    ensures r[j] <= r[i]
  {
    hide Quota, Fraction, Sum;
    if r[i] < r[j] { LeaderNeeds(r, need, total, remaining, j); }
  }

  lemma QuotaRule(need: seq<int>, total: int, remaining: int)
    requires NeedVector(need) && total == Sum(need) && 0 < remaining <= total
    ensures LargestRemainder(Apportion(Starts(|need|), need, total, remaining), need, total, remaining)
  {
    var n := |need|;
    var shares := Shares(Starts(n), need, total, remaining);
    var rems := Remainders(shares, need, total, remaining);
    var base, left := Plus(Starts(n), shares), remaining - Sum(shares);
    TightShares(need, total, remaining);
    SumNonNegative(rems);
    SumPlus(Starts(n), shares);
    SumConstant(Starts(n), START);
    hide HandLeftover, Quota, Fraction, Sum, Ahead, Shares, Remainders;
    if left > 0 {
      QuotaRuleLeftover(need, shares, rems, base, total, remaining, left);
    } else {
      if left < 0 { MulStep(left, 0, total); }
      NothingLeft(base, need, rems, left);
    }
  }

  lemma NothingLeft(base: seq<int>, need: seq<int>, rems: seq<int>, left: int)
    requires |base| == |need| == |rems| && left <= 0
    ensures HandLeftover(base, need, rems, left) == base
  {
  }

  lemma QuotaRuleLeftover(need: seq<int>, shares: seq<int>, rems: seq<int>, base: seq<int>,
                          total: int, remaining: int, left: int)
    requires NeedVector(need) && |need| == |shares| == |rems| == |base| && total > 0 && left > 0
    requires forall i :: 0 <= i < |need| ==>
      TightAt(shares[i], rems[i], need[i], total, remaining) && base[i] == START + shares[i]
    requires Sum(rems) == left * total && Sum(base) == |need| * START + remaining - left
    ensures LargestRemainder(HandLeftover(base, need, rems, left), need, total, remaining)
  {
    hide HandLeftover, Quota, Fraction, Sum;
    LeftoverPlaced(need, rems, base, total, left);
  }

  /** The predicate has one solution, so it is a complete specification. */
  lemma LargestRemainderUnique(r: seq<int>, t: seq<int>, need: seq<int>, total: int, remaining: int)
    requires |r| == |t| == |need| && NeedVector(need) && total > 0
    requires LargestRemainder(r, need, total, remaining) && LargestRemainder(t, need, total, remaining)
    ensures r == t
  {
    hide Quota, Fraction, Sum;
    if forall j :: 0 <= j < |need| ==> r[j] <= t[j] {
      SumMonotone(r, t);
    } else if forall j :: 0 <= j < |need| ==> t[j] <= r[j] {
      SumMonotone(t, r);
    } else {
      var i :| 0 <= i < |need| && t[i] < r[i];
      var j :| 0 <= j < |need| && r[j] < t[j];
      LeaderNeeds(t, need, total, remaining, j);
      LeaderNeeds(r, need, total, remaining, i);
      assert false;
    }
  }

  lemma LeaderNeeds(r: seq<int>, need: seq<int>, total: int, remaining: int, i: nat)
    requires |r| == |need| && NeedVector(need) && total > 0 && i < |need|
    requires LargestRemainder(r, need, total, remaining)
    requires r[i] > START + Quota(need[i], total, remaining)
    ensures need[i] > 0
  {
  }

  /** In one walk everybody gets one token or none; who is below the cap and got none
      was reached too late, and so was everybody after it. */
  lemma {:induction false} OnePassFair(a: seq<int>, order: seq<nat>, left: nat)
    requires InRange(order, |a|) && Distinct(order)
    ensures var (b, rest) := OnePass(a, order, left);
      && (forall i :: 0 <= i < |a| && i !in order ==> b[i] == a[i])
      && (forall p :: 0 <= p < |order| ==> a[order[p]] <= b[order[p]] <= a[order[p]] + 1)
      && forall q :: 0 <= q < |order| && b[order[q]] == a[order[q]] < CAP ==>
           rest == 0 && forall p :: q <= p < |order| ==> b[order[p]] == a[order[p]]
    decreases |order|
  {
    if order != [] && left > 0 {
      var i, rest := order[0], order[1..];
      forall p | 0 < p < |order| ensures order[p] == rest[p - 1] && order[p] != i { }
      assert i !in rest;
      if a[i] >= CAP { OnePassFair(a, rest, left); } else { OnePassFair(a[i := a[i] + 1], rest, left - 1); }
      var (b, l) := OnePass(a, order, left);
      forall q | 0 <= q < |order| && b[order[q]] == a[order[q]] < CAP
        ensures l == 0 && forall p :: q <= p < |order| ==> b[order[p]] == a[order[p]]
      {
        assert q > 0 && order[q] == rest[q - 1];
      }
    }
  }

  /** Rounds are fair: nobody gets two tokens more than somebody still below the cap, and
      one more only by standing before it in the order. */
  lemma {:induction false} RoundsFair(a: seq<int>, order: seq<nat>, left: nat, p: nat, q: nat)
    requires InRange(order, |a|) && Distinct(order) && p < |order| && q < |order|
    ensures var b := Rounds(a, order, left);
      b[order[q]] < CAP ==> b[order[p]] - a[order[p]] <= b[order[q]] - a[order[q]] + if p < q then 1 else 0
    decreases left
  {
    if left > 0 {
      var (b, rest) := OnePass(a, order, left);
      OnePassFair(a, order, left);
      if rest != left {
        RoundsFair(b, order, rest, p, q);
        if rest == 0 { assert Rounds(b, order, 0) == b; }
        RoundsNeverLower(b, order, rest, order[q]);
      }
    }
  }

  lemma {:induction false} RoundsNeverLower(a: seq<int>, order: seq<nat>, left: nat, i: nat)
    requires InRange(order, |a|) && Distinct(order) && i < |a|
    ensures a[i] <= Rounds(a, order, left)[i]
    decreases left
  {
    if left > 0 {
      var (b, rest) := OnePass(a, order, left);
      OnePassFair(a, order, left);
      if i in order {
        var k :| 0 <= k < |order| && order[k] == i;
      }
      if rest != left { RoundsNeverLower(b, order, rest, i); }
    }
  }

  /** With more tokens than weighted need, what a source gets beyond its capped quota is
      shared out evenly among the sources below the cap, the odd tokens going to the
      larger fractions, ties to the lower index. */
  lemma SurplusShared(need: seq<int>, total: int, remaining: int, i: nat, j: nat)
    requires NeedVector(need) && 0 < total == Sum(need) < remaining
    requires i < |need| && j < |need| && need[i] > 0 && need[j] > 0
    ensures var r := Apportion(Starts(|need|), need, total, remaining);
      var f, g := Fraction(need[i], total, remaining), Fraction(need[j], total, remaining);
      var more := r[i] - START - Min(Quota(need[i], total, remaining), CAP - START);
      var less := r[j] - START - Min(Quota(need[j], total, remaining), CAP - START);
      0 <= more && (r[j] < CAP ==> more <= less + if f > g || (f == g && i < j) then 1 else 0)
  {
    hide Sum, Min, NeedVector, Apportion, HandLeftover, Quota, Fraction, Share, Shares, Remainders, Plus, Starts;
    var shares := Shares(Starts(|need|), need, total, remaining);
    var rems := Remainders(shares, need, total, remaining);
    var base := Plus(Starts(|need|), shares);
    SurplusLeft(need, total, remaining);
    ApportionIs(need, total, remaining);
    SurplusBase(need, total, remaining, i);
    SurplusBase(need, total, remaining, j);
    SurplusHanded(base, need, rems, remaining - Sum(shares), i, j,
      Fraction(need[i], total, remaining), Fraction(need[j], total, remaining));
  }

  lemma ApportionIs(need: seq<int>, total: int, remaining: int)
    requires total > 0
    ensures var shares := Shares(Starts(|need|), need, total, remaining);
      && Apportion(Starts(|need|), need, total, remaining) ==
         HandLeftover(Plus(Starts(|need|), shares), need, Remainders(shares, need, total, remaining),
                      remaining - Sum(shares))
  {
    hide Shares, Remainders, HandLeftover, Sum;
  }

  lemma SurplusHanded(base: seq<int>, need: seq<int>, rems: seq<int>, left: nat, i: nat, j: nat, f: int, g: int)
    requires |need| == |rems| == |base| && i < |need| && j < |need| && need[i] > 0 && need[j] > 0
    requires base[i] < CAP ==> rems[i] == f
    requires base[j] < CAP ==> rems[j] == g
    ensures var r := HandLeftover(base, need, rems, left);
      0 <= r[i] - base[i] &&
      (r[j] < CAP ==> r[i] - base[i] <= r[j] - base[j] + if f > g || (f == g && i < j) then 1 else 0)
  {
    hide HandLeftover;
    HandedFair(base, need, rems, left, i, j);
    HandedFair(base, need, rems, left, j, i);
  }

  lemma SurplusLeft(need: seq<int>, total: int, remaining: int)
    requires NeedVector(need) && 0 < total == Sum(need) < remaining
    ensures Sum(Shares(Starts(|need|), need, total, remaining)) <= remaining
  {
    hide Sum, Quota, Share;
    var shares := Shares(Starts(|need|), need, total, remaining);
    forall k | 0 <= k < |need| ensures shares[k] <= Quota(need[k], total, remaining) {
      LooseShare(need[k], total, remaining);
    }
    SharesWithin(shares, need, total, remaining);
  }

  lemma SurplusBase(need: seq<int>, total: int, remaining: int, k: nat)
    requires k < |need| && need[k] > 0 && total > 0
    ensures var shares := Shares(Starts(|need|), need, total, remaining);
      var base := Plus(Starts(|need|), shares);
      && base[k] == START + Min(Quota(need[k], total, remaining), CAP - START)
      && (base[k] < CAP ==> Remainders(shares, need, total, remaining)[k] == Fraction(need[k], total, remaining))
  {
    hide Share, Quota, Fraction;
    ShareIsQuota(need[k], total, remaining);
  }

  lemma HandedFair(base: seq<int>, need: seq<int>, rems: seq<int>, left: nat, i: nat, j: nat)
    requires |need| == |rems| == |base| && i < |need| && j < |need| && need[i] > 0 && need[j] > 0
    ensures var r := HandLeftover(base, need, rems, left);
      && base[i] <= r[i] && (base[i] >= CAP ==> r[i] == base[i])
      && (r[j] < CAP ==>
           r[i] - base[i] <= r[j] - base[j] + if rems[i] > rems[j] || (rems[i] == rems[j] && i < j) then 1 else 0)
  {
    hide Order, Rounds;
    if left > 0 {
      var order := Order(need, rems);
      OrderDistinct(need, rems);
      OrderComplete(need, rems, i);
      OrderComplete(need, rems, j);
      var p :| 0 <= p < |order| && order[p] == i;
      var q :| 0 <= q < |order| && order[q] == j;
      RoundsFair(base, order, left, p, q);
      RoundsNeverLower(base, order, left, i);
      if p < q { OrderAhead(need, rems, p, q); }
      if base[i] >= CAP { CapStays(base, order, left, i); }
    }
  }

  lemma ShareIsQuota(need: int, total: int, remaining: int)
    requires 0 < need && 0 < total
    ensures Share(START, need, total, remaining) == Min(Quota(need, total, remaining), CAP - START)
    ensures Share(START, need, total, remaining) < CAP - START ==>
      remaining * need - Share(START, need, total, remaining) * total == Fraction(need, total, remaining)
  {
  }

  lemma {:induction false} CapStays(a: seq<int>, order: seq<nat>, left: nat, i: nat)
    requires InRange(order, |a|) && i < |a| && a[i] >= CAP
    ensures Rounds(a, order, left)[i] == a[i]
    decreases left
  {
    if left > 0 {
      var (b, rest) := OnePass(a, order, left);
      CapPasses(a, order, left, i);
      if rest != left { CapStays(b, order, rest, i); }
    }
  }

  lemma {:induction false} CapPasses(a: seq<int>, order: seq<nat>, left: nat, i: nat)
    requires InRange(order, |a|) && i < |a| && a[i] >= CAP
    ensures OnePass(a, order, left).0[i] == a[i]
    decreases |order|
  {
    if order != [] && left > 0 {
      if a[order[0]] >= CAP {
        CapPasses(a, order[1..], left, i);
      } else {
        CapPasses(a[order[0] := a[order[0]] + 1], order[1..], left - 1, i);
      }
    }
  }

  lemma OrderAhead(need: seq<int>, rems: seq<int>, p: nat, q: nat)
    requires |need| == |rems| && p < q < |Order(need, rems)|
    ensures var i, j := Order(need, rems)[p], Order(need, rems)[q];
      i < |rems| && j < |rems| && (rems[i] > rems[j] || (rems[i] == rems[j] && i < j))
  {
    RankedElements(need, rems);
    OrderDistinct(need, rems);
    var c := Ranked(need, rems);
    assert !Ahead(c[q], c[p]);
    assert Order(need, rems)[p] != Order(need, rems)[q];
  }

  /** With more tokens than weighted need, every source gets its need, and the
      rest is spent unless every source that needs any is at the cap. */
  lemma SurplusRule(need: seq<int>, total: int, remaining: int)
    requires NeedVector(need) && 0 < total == Sum(need) < remaining
    ensures var r := Apportion(Starts(|need|), need, total, remaining);
      && (forall i :: 0 <= i < |need| ==> START + need[i] <= r[i] <= CAP && (need[i] == 0 ==> r[i] == START))
      && Sum(r) <= |need| * START + remaining
      && (Sum(r) < |need| * START + remaining ==> forall i :: 0 <= i < |need| && need[i] > 0 ==> r[i] == CAP)
  {
    hide Sum, HandLeftover, Quota, Share;
    var n := |need|;
    var shares := Shares(Starts(n), need, total, remaining);
    var rems := Remainders(shares, need, total, remaining);
    var base, left := Plus(Starts(n), shares), remaining - Sum(shares);
    forall i | 0 <= i < n
      ensures need[i] <= shares[i] <= CAP - START && shares[i] <= Quota(need[i], total, remaining)
      ensures need[i] == 0 ==> shares[i] == 0
    {
      LooseShare(need[i], total, remaining);
      assert shares[i] == Share(START, need[i], total, remaining);
    }
    SharesWithin(shares, need, total, remaining);
    SumPlus(Starts(n), shares);
    SumConstant(Starts(n), START);
    SurplusLeftover(need, rems, base, left);
  }

  lemma LooseShare(need: int, total: int, remaining: int)
    requires 0 <= need <= CAP - START && 0 < total <= remaining
    ensures need <= Share(START, need, total, remaining) <= CAP - START
    ensures Share(START, need, total, remaining) <= Quota(need, total, remaining)
    ensures need == 0 ==> Share(START, need, total, remaining) == 0
  {
    QuotaCovers(need, total, remaining);
  }

  lemma SurplusLeftover(need: seq<int>, rems: seq<int>, base: seq<int>, left: int)
    requires |need| == |rems| == |base| && left >= 0
    requires forall i :: 0 <= i < |need| ==> 0 <= need[i] && base[i] <= CAP
    ensures var r := HandLeftover(base, need, rems, left);
      && (forall i :: 0 <= i < |need| ==> base[i] <= r[i] <= CAP && (need[i] == 0 ==> r[i] == base[i]))
      && Sum(r) <= Sum(base) + left
      && (Sum(r) < Sum(base) + left ==> forall i :: 0 <= i < |need| && need[i] > 0 ==> r[i] == CAP)
  {
    hide Order, Sum, Rounds;
    if left > 0 {
      var order := Order(need, rems);
      OrderInRange(need, rems);
      RoundsBounds(base, order, left);
      var r := Rounds(base, order, left);
      forall i | 0 <= i < |need|
        ensures need[i] == 0 ==> r[i] == base[i]
        ensures need[i] > 0 && Sum(r) < Sum(base) + left ==> r[i] == CAP
      {
        OrderComplete(need, rems, i);
        if need[i] > 0 {
          var k :| 0 <= k < |order| && order[k] == i;
        }
      }
    }
  }

  /** Rounded-down shares never exceed what there was to share. */
  lemma SharesWithin(shares: seq<int>, need: seq<int>, total: int, remaining: int)
    requires |shares| == |need| && 0 < total == Sum(need) && NeedVector(need) && 0 <= remaining
    requires forall i :: 0 <= i < |need| ==> shares[i] <= Quota(need[i], total, remaining)
    ensures Sum(shares) <= remaining
  {
    hide Sum;
    var quotas := seq(|need|, i requires 0 <= i < |need| => Quota(need[i], total, remaining));
    var fractions := seq(|need|, i requires 0 <= i < |need| => Fraction(need[i], total, remaining));
    SumMonotone(shares, quotas);
    LeftoverOwed(quotas, fractions, need, total, remaining);
    SumNonNegative(fractions);
    if Sum(quotas) > remaining { MulStep(remaining - Sum(quotas), 0, total); }
  }

  // --- The redistribution pass ----------------------------------------------

  lemma {:induction false} GivesBounded(unused: seq<int>, est: seq<int>, placed: nat)
    requires |unused| == |est|
    requires forall i :: 0 <= i < |unused| ==> 0 <= unused[i]
    ensures var g := Gives(unused, est, placed);
      && (forall i :: 0 <= i < |g| ==> 0 <= g[i] <= unused[i])
      && (forall i :: 0 <= i < |g| && est[i] < START ==> g[i] == unused[i])
      && (placed == 0 ==> forall i :: 0 <= i < |g| && est[i] >= START ==> g[i] == 0)
      && Min(placed, Sum(unused)) <= Sum(g)
  {
    if unused != [] {
      var give := if est[0] < START then unused[0] else Min(unused[0], placed);
      GivesBounded(unused[1..], est[1..], if est[0] < START then placed else placed - give);
      SumNonNegative(unused[1..]);
    }
  }

  /** Index by index, the pass adds the takes to what the sources place and never
      takes away a token that a source can place. */
  ghost predicate PassSettles(a: seq<int>, est: seq<int>, takes: seq<int>, r: seq<int>)
    requires |a| == |est| == |takes| == |r|
  {
    forall i :: 0 <= i < |a| ==>
      && Min(a[i], est[i]) <= r[i] <= CAP
      && 0 <= takes[i] <= Max(Min(CAP, est[i]) - a[i], 0)
      && Min(r[i], est[i]) == Min(a[i], est[i]) + takes[i]
      && (est[i] < START || a[i] <= est[i] ==> r[i] <= est[i])
  }

  /** The pool goes in selection order: a source takes something only after every earlier
      one has all it wants. */
  lemma {:induction false} TakesInOrder(want: seq<int>, pool: nat, i: nat, j: nat)
    requires forall k :: 0 <= k < |want| ==> 0 <= want[k]
    requires i < j < |want|
    ensures Takes(want, pool)[i] < want[i] ==> Takes(want, pool)[j] == 0
  {
    var take := Min(pool, want[0]);
    if i > 0 {
      TakesInOrder(want[1..], pool - take, i - 1, j - 1);
    } else if take < want[0] {
      TakesExhausted(want[1..]);
    }
  }

  /** Donors at or above the start settle in selection order: one gives something only
      after every earlier one has given all it can. */
  lemma {:induction false} GivesInOrder(unused: seq<int>, est: seq<int>, placed: nat, i: nat, j: nat)
    requires |unused| == |est| && forall k :: 0 <= k < |unused| ==> 0 <= unused[k]
    requires i < j < |unused| && est[i] >= START && est[j] >= START
    ensures Gives(unused, est, placed)[i] < unused[i] ==> Gives(unused, est, placed)[j] == 0
  {
    var give := if est[0] < START then unused[0] else Min(unused[0], placed);
    if i > 0 {
      GivesInOrder(unused[1..], est[1..], if est[0] < START then placed else placed - give, i - 1, j - 1);
    } else if give < unused[0] {
      GivesBounded(unused[1..], est[1..], 0);
    }
  }

  /** The sources of at least 256 tokens among those a sequence speaks of, others as 0. */
  function FromStarted(s: seq<int>, est: seq<int>): (r: seq<int>)
    requires |s| == |est|
    ensures |r| == |s|
  {
    seq(|s|, i requires 0 <= i < |s| => if est[i] >= 256 then s[i] else 0)
  }

  /** Together they give what was placed, or all they can if that is less. */
  lemma {:induction false} GivesTotal(unused: seq<int>, est: seq<int>, placed: nat)
    requires |unused| == |est| && forall i :: 0 <= i < |unused| ==> 0 <= unused[i]
    ensures Sum(FromStarted(Gives(unused, est, placed), est)) == Min(placed, Sum(FromStarted(unused, est)))
  {
    if unused != [] {
      var give := if est[0] < START then unused[0] else Min(unused[0], placed);
      var rest := if est[0] < START then placed else placed - give;
      GivesTotal(unused[1..], est[1..], rest);
      var gives := Gives(unused, est, placed);
      assert gives[1..] == Gives(unused[1..], est[1..], rest);
      assert FromStarted(unused, est)[1..] == FromStarted(unused[1..], est[1..]);
      assert FromStarted(gives, est)[1..] == FromStarted(gives[1..], est[1..]);
      SumNonNegative(FromStarted(unused[1..], est[1..]));
    }
  }

  lemma PassPointwise(a: seq<int>, est: seq<int>, takes: seq<int>, gives: seq<int>)
    requires |a| == |est| == |takes| == |gives|
    requires forall i :: 0 <= i < |a| ==> START <= a[i] <= CAP && 0 <= est[i]
    requires forall i :: 0 <= i < |a| ==> 0 <= takes[i] <= Wanted(a, est)[i] && 0 <= gives[i] <= Unused(a, est)[i]
    requires forall i :: 0 <= i < |a| && est[i] < START ==> gives[i] == Unused(a, est)[i]
    ensures PassSettles(a, est, takes, Minus(Plus(a, takes), gives))
  {
  }

  lemma PassFills(a: seq<int>, est: seq<int>, takes: seq<int>, r: seq<int>)
    requires |a| == |est| == |takes| == |r| && PassSettles(a, est, takes, r)
    requires forall i :: 0 <= i < |a| ==> a[i] <= CAP
    requires takes == Wanted(a, est)
    ensures Placed(r, est) == Capped(est)
  {
    forall i | 0 <= i < |a| ensures Placed(r, est)[i] == Capped(est)[i] {
      assert takes[i] == Wanted(a, est)[i];
    }
  }

  lemma PoolIsUnplaced(a: seq<int>, est: seq<int>)
    requires |a| == |est|
    ensures Sum(a) == Sum(Placed(a, est)) + Sum(Unused(a, est))
  {
    hide Sum;
    SumLinear(a, 1, Placed(a, est), Unused(a, est));
  }

  /** The takes the pass makes. */
  function PoolTakes(a: seq<int>, est: seq<int>): (t: seq<int>)
    requires |a| == |est|
    ensures |t| == |a|
  {
    Takes(Wanted(a, est), Sum(Unused(a, est)))
  }

  ghost predicate BeforePass(a: seq<int>, est: seq<int>) {
    |a| == |est| && forall i :: 0 <= i < |a| ==> START <= a[i] <= CAP && 0 <= est[i]
  }

  lemma PassFacts(a: seq<int>, est: seq<int>)
    requires BeforePass(a, est)
    ensures PassSettles(a, est, PoolTakes(a, est), Redistribute(a, est))
    ensures Sum(Redistribute(a, est)) <= Sum(a)
  {
    hide Sum, Takes, Gives;
    var unused, takes := Unused(a, est), PoolTakes(a, est);
    SumNonNegative(unused);
    TakesBounded(Wanted(a, est), Sum(unused));
    var gives := Gives(unused, est, Sum(takes));
    GivesBounded(unused, est, Sum(takes));
    PassPointwise(a, est, takes, gives);
    if Sum(unused) == 0 {
      ZeroPool(unused, takes);
    } else {
      SumPlus(a, takes);
      SumLinear(Plus(a, takes), 1, Minus(Plus(a, takes), gives), gives);
    }
  }

  /** The exact yield of the pass: the smaller of what was allocated and what the
      sources could place under the cap. */
  lemma RedistributionYield(a: seq<int>, est: seq<int>)
    requires BeforePass(a, est)
    ensures Sum(Placed(Redistribute(a, est), est)) == Min(Sum(a), Sum(Capped(est)))
  {
    var takes, r, pool := PoolTakes(a, est), Redistribute(a, est), Sum(Unused(a, est));
    hide Sum, Takes, Redistribute;
    PassFacts(a, est);
    PoolIsUnplaced(a, est);
    SumNonNegative(Unused(a, est));
    TakesBounded(Wanted(a, est), pool);
    SumLinear(Placed(r, est), 1, Placed(a, est), takes);
    SumMonotone(Placed(r, est), Capped(est));
    if Sum(takes) < pool {
      PassFills(a, est, takes, r);
    }
  }

  /** A pass in which nobody wants more leaves every donor above its start alone. */
  lemma IdlePassKeeps(a: seq<int>, est: seq<int>)
    requires BeforePass(a, est)
    requires forall i :: 0 <= i < |a| ==> Min(CAP, est[i]) <= a[i]
    ensures forall i :: 0 <= i < |a| && START <= est[i] ==> Redistribute(a, est)[i] == a[i]
  {
    hide Sum, Takes, Gives;
    var unused, takes := Unused(a, est), PoolTakes(a, est);
    SumNonNegative(unused);
    TakesBounded(Wanted(a, est), Sum(unused));
    SumConstant(takes, 0);
    GivesBounded(unused, est, 0);
  }

  lemma ZeroPool(unused: seq<int>, takes: seq<int>)
    requires |unused| == |takes| && Sum(unused) == 0 && Sum(takes) <= 0
    requires forall i :: 0 <= i < |unused| ==> 0 <= unused[i] && 0 <= takes[i]
    ensures forall i :: 0 <= i < |unused| ==> unused[i] == 0 && takes[i] == 0
  {
    SumNonNegative(unused);
    SumNonNegative(takes);
  }

  // --- The whole allocation -------------------------------------------------

  /** The vector before the pass. */
  function Initial(est: seq<int>, budget: int): (r: seq<int>)
    ensures |r| == |est|
  {
    var remaining, total := budget - |est| * START, Sum(Needs(est));
    if remaining > 0 && total > 0 then Apportion(Starts(|est|), Needs(est), total, remaining) else Starts(|est|)
  }

  function Allocate(est: seq<int>, budget: int): (r: seq<int>)
    ensures |r| == |est|
  {
    Redistribute(Initial(est, budget), est)
  }

  ghost predicate Estimates(est: seq<int>) { forall i :: 0 <= i < |est| ==> 0 <= est[i] }

  /** Everything the budget must reserve when no source is left wanting. */
  function Demand(est: seq<int>): int { |est| * START + Sum(Needs(est)) }

  lemma InitialTight(est: seq<int>, budget: int)
    requires Estimates(est) && |est| * START <= budget <= Demand(est)
    ensures var a := Initial(est, budget);
      && Sum(a) == budget
      && forall i :: 0 <= i < |est| ==> START <= a[i] <= START + NeedOf(est[i])
  {
    var need := Needs(est);
    var remaining, total := budget - |est| * START, Sum(need);
    SumConstant(Starts(|est|), START);
    if remaining > 0 {
      hide Apportion, Sum;
      QuotaRule(need, total, remaining);
      forall i | 0 <= i < |est| ensures 0 <= Quota(need[i], total, remaining) {
        QuotaWithinNeed(need[i], total, remaining);
      }
    }
  }

  lemma InitialSurplus(est: seq<int>, budget: int)
    requires Estimates(est) && Demand(est) < budget
    ensures var a := Initial(est, budget);
      && (forall i :: 0 <= i < |est| ==>
           START + NeedOf(est[i]) <= a[i] <= CAP && (NeedOf(est[i]) == 0 ==> a[i] == START))
      && Sum(a) <= budget
      && (Sum(a) < budget ==> forall i :: 0 <= i < |est| && NeedOf(est[i]) > 0 ==> a[i] == CAP)
  {
    hide Apportion, Sum, Sort;
    var need := Needs(est);
    SumNonNegative(need);
    SumConstant(Starts(|est|), START);
    if Sum(need) > 0 {
      SurplusRule(need, Sum(need), budget - |est| * START);
    } else {
      NoNeed(est);
    }
  }

  lemma NoNeed(est: seq<int>)
    requires Sum(Needs(est)) <= 0
    ensures forall i :: 0 <= i < |est| ==> NeedOf(est[i]) == 0
  {
    var need := Needs(est);
    SumNonNegative(need);
    forall i | 0 <= i < |est| ensures NeedOf(est[i]) == 0 { assert need[i] <= 0; }
  }

  /** The main result. For every admitted budget and every source list: each
      allocation is between min(estimate, 256) and 2048, together they stay in
      the budget, and the sources place exactly min(budget, sum of
      min(2048, estimate)) tokens. */
  lemma AllocationTheorem(est: seq<int>, budget: int)
    requires Estimates(est) && |est| * 256 <= budget
    ensures var r := Allocate(est, budget);
      && (forall i :: 0 <= i < |est| ==> Min(est[i], 256) <= r[i] <= 2048)
      && Sum(r) <= budget
      && Sum(seq(|est|, i requires 0 <= i < |est| => Min(r[i], est[i]))) ==
         Min(budget, Sum(seq(|est|, i requires 0 <= i < |est| => Min(2048, est[i]))))
      && Sum(Placed(r, est)) == Min(budget, Sum(Capped(est)))
  {
    hide Initial, Redistribute, Sum;
    var a := Initial(est, budget);
    if budget <= Demand(est) {
      InitialTight(est, budget);
    } else {
      InitialSurplus(est, budget);
      SumMonotone(Capped(est), a);
    }
    PassFacts(a, est);
    RedistributionYield(a, est);
    var r := Allocate(est, budget);
    assert Placed(r, est) == seq(|est|, i requires 0 <= i < |est| => Min(r[i], est[i]));
    assert Capped(est) == seq(|est|, i requires 0 <= i < |est| => Min(2048, est[i]));
  }

  /** Before the pass, a budget that does not exceed the demand is apportioned by the
      largest remainder over what each source needs beyond 256, up to 2048. */
  lemma InitialRule(est: seq<int>, budget: int)
    requires Estimates(est)
    ensures var need := seq(|est|, i requires 0 <= i < |est| => Max(Min(2048, est[i]) - 256, 0));
      0 < budget - |est| * 256 <= Sum(need) ==>
        LargestRemainder(Initial(est, budget), need, Sum(need), budget - |est| * 256)
  {
    hide Apportion, Sum, LargestRemainder;
    var need := Needs(est);
    assert need == seq(|est|, i requires 0 <= i < |est| => Max(Min(2048, est[i]) - 256, 0));
    if 0 < budget - |est| * 256 <= Sum(need) { QuotaRule(need, Sum(need), budget - |est| * START); }
  }

  /** Of two sources of equal length the one selected first never gets less. */
  lemma EqualSources(est: seq<int>, budget: int, i: nat, j: nat)
    requires Estimates(est) && |est| * START <= budget && i < j < |est| && est[i] == est[j]
    ensures Allocate(est, budget)[j] <= Allocate(est, budget)[i]
  {
    hide Initial, Sum, Takes, Gives;
    var a := Initial(est, budget);
    if budget <= Demand(est) { InitialTight(est, budget); } else { InitialSurplus(est, budget); }
    InitialInOrder(est, budget, i, j);
    var unused, takes := Unused(a, est), PoolTakes(a, est);
    SumNonNegative(unused);
    TakesBounded(Wanted(a, est), Sum(unused));
    TakesInOrder(Wanted(a, est), Sum(unused), i, j);
    if budget <= Demand(est) {
      GivesBounded(unused, est, Sum(takes));
    } else {
      SumConstant(takes, 0);
      GivesBounded(unused, est, 0);
    }
  }

  lemma InitialInOrder(est: seq<int>, budget: int, i: nat, j: nat)
    requires Estimates(est) && |est| * START <= budget && i < j < |est| && est[i] == est[j]
    ensures Initial(est, budget)[j] <= Initial(est, budget)[i]
  {
    hide Apportion, Sum, LargestRemainder, Quota, Fraction;
    var need := Needs(est);
    var remaining, total := budget - |est| * START, Sum(need);
    SumNonNegative(need);
    if remaining > 0 && total > 0 {
      if remaining <= total {
        QuotaRule(need, total, remaining);
        EqualNeeds(Initial(est, budget), need, total, remaining, i, j);
      } else {
        SurplusRule(need, total, remaining);
        if need[i] > 0 { SurplusShared(need, total, remaining, j, i); }
      }
    }
  }

  /** A source is cut only at its cap or when the whole budget is spent. */
  lemma CutOnlyWhenSpent(est: seq<int>, budget: int, i: nat)
    requires Estimates(est) && |est| * START <= budget && i < |est|
    requires Allocate(est, budget)[i] < Min(CAP, est[i])
    ensures Sum(Allocate(est, budget)) == budget == Sum(Placed(Allocate(est, budget), est))
  {
    hide Allocate, Sum;
    var r := Allocate(est, budget);
    AllocationTheorem(est, budget);
    SumMonotone(Placed(r, est), Capped(est));
    SumMonotone(Placed(r, est), r);
    assert Placed(r, est)[i] < Capped(est)[i];
  }

  /** No source is cut exactly when every estimate is within the cap and all of
      them fit the budget. */
  lemma NothingCutIff(est: seq<int>, budget: int)
    requires Estimates(est) && |est| * START <= budget
    ensures (forall i :: 0 <= i < |est| ==> est[i] <= Allocate(est, budget)[i])
       <==> (forall i :: 0 <= i < |est| ==> est[i] <= CAP) && Sum(est) <= budget
  {
    hide Allocate, Sum;
    var r := Allocate(est, budget);
    AllocationTheorem(est, budget);
    SumMonotone(Placed(r, est), est);
    SumMonotone(Capped(est), est);
    if forall i :: 0 <= i < |est| ==> est[i] <= r[i] {
      assert Placed(r, est) == est;
    }
    if (forall i :: 0 <= i < |est| ==> est[i] <= CAP) && Sum(est) <= budget {
      assert Capped(est) == est;
      assert Placed(r, est) == est;
      assert forall i :: 0 <= i < |est| ==> Placed(r, est)[i] == est[i];
    }
  }

  /** The source's comment says the returned vector is what the sources place.
      That holds exactly when the budget does not exceed the demand, or every
      source longer than its start reaches the cap: otherwise a source keeps
      tokens above its estimate that no other source can take. */
  lemma VectorIsPlacedIff(est: seq<int>, budget: int)
    requires Estimates(est) && |est| * START <= budget
    ensures Placed(Allocate(est, budget), est) == Allocate(est, budget)
       <==> budget <= Demand(est) || forall i :: 0 <= i < |est| && START < est[i] ==> CAP <= est[i]
  {
    hide Initial, Redistribute, Sum;
    var a, r := Initial(est, budget), Allocate(est, budget);
    if budget <= Demand(est) {
      InitialTight(est, budget);
      PassFacts(a, est);
      assert Placed(r, est) == r;
    } else {
      InitialSurplus(est, budget);
      PassFacts(a, est);
      IdlePassKeeps(a, est);
      if forall i :: 0 <= i < |est| && START < est[i] ==> CAP <= est[i] {
        assert Placed(r, est) == r;
      } else {
        var i :| 0 <= i < |est| && START < est[i] < CAP;
        SurplusOverfills(est, budget);
        var j :| 0 <= j < |est| && START < est[j] < a[j];
        assert Placed(r, est)[j] != r[j];
      }
    }
  }

  /** In surplus, some source ends above its estimate. */
  lemma SurplusOverfills(est: seq<int>, budget: int)
    requires Estimates(est) && Demand(est) < budget
    requires exists i :: 0 <= i < |est| && START < est[i] < CAP
    ensures exists j :: 0 <= j < |est| && START < est[j] < Initial(est, budget)[j]
  {
    hide Initial, Sum;
    var a := Initial(est, budget);
    InitialSurplus(est, budget);
    var i :| 0 <= i < |est| && START < est[i] < CAP;
    if Sum(a) == budget {
      var wants := Plus(Starts(|est|), Needs(est));
      SumPlus(Starts(|est|), Needs(est));
      SumConstant(Starts(|est|), START);
      if forall j :: 0 <= j < |est| ==> a[j] <= wants[j] {
        SumMonotone(a, wants);
      } else {
        var j :| 0 <= j < |est| && a[j] > wants[j];
        assert START < est[j] < a[j];
      }
    } else {
      assert a[i] == CAP;
    }
  }

  /** Two 300-token sources under the default budget: each is allocated 2000. */
  lemma VectorIsNotAlwaysPlaced()
    ensures Placed(Allocate([300, 300], 4000), [300, 300]) != Allocate([300, 300], 4000)
  {
    var est := [300, 300];
    var need := Needs(est);
    assert need == [44, 44];
    assert Sum(need) == 44 + Sum([44]) == 88;
    VectorIsPlacedIff(est, 4000);
    assert est[0] == 300;
  }
}
