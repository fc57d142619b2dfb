/** The selected-source budget of internal/context/multi_reference.go: a
    256-token start for every source, a largest-remainder apportionment of the
    rest, and one redistribution pass.

    The three procedures work in place on an allocation array, as the source
    does. Each is proved equal to a specification function on sequences; the
    theorems are about those functions. `need` and `est` are the weighted needs
    and the token estimates of the (escaped) sources, in selection order. */
module Allocation {
  import opened Sums
  import opened Sorting

  const START := 256
  const CAP := 2048
  const MAX_BUDGET := 16384
  const DEFAULT_PROFILE := 8000

  function ProfileBudget(profile: int): int { if profile <= 0 then DEFAULT_PROFILE else profile }

  /** min(floor(P * 0.50), 16384); the halving is exact integer halving. */
  function AvailableBudget(profile: int): int { Min(ProfileBudget(profile) / 2, MAX_BUDGET) }

  function NeedOf(estimate: int): int { Max(Min(CAP, estimate) - START, 0) }

  function Needs(est: seq<int>): seq<int> { seq(|est|, i requires 0 <= i < |est| => NeedOf(est[i])) }

  function Capped(est: seq<int>): seq<int> { seq(|est|, i requires 0 <= i < |est| => Min(CAP, est[i])) }

  function Starts(n: nat): (r: seq<int>)
    ensures |r| == n
  {
    seq(n, _ => START)
  }

  /** What the sources place under an allocation vector. */
  function Placed(a: seq<int>, est: seq<int>): seq<int>
    requires |a| == |est|
  {
    seq(|a|, i requires 0 <= i < |a| => Min(a[i], est[i]))
  }

  // --- Largest remainder --------------------------------------------------

  datatype Candidate = Candidate(rem: int, idx: nat)

  predicate Ahead(a: Candidate, b: Candidate) {
    a.rem > b.rem || (a.rem == b.rem && a.idx < b.idx)
  }

  function Share(a: int, need: int, total: int, remaining: int): int
    requires total > 0
  {
    if need == 0 then 0 else Min(remaining * need / total, CAP - a)
  }

  function Shares(a: seq<int>, need: seq<int>, total: int, remaining: int): (r: seq<int>)
    requires |a| == |need| && total > 0
    ensures |r| == |a|
  {
    seq(|a|, i requires 0 <= i < |a| => Share(a[i], need[i], total, remaining))
  }

  function Remainders(shares: seq<int>, need: seq<int>, total: int, remaining: int): (r: seq<int>)
    requires |shares| == |need|
    ensures |r| == |need|
  {
    seq(|need|, i requires 0 <= i < |need| =>
      if need[i] == 0 then 0 else remaining * need[i] - shares[i] * total)
  }

  function Plus(a: seq<int>, b: seq<int>): (r: seq<int>)
    requires |a| == |b|
    ensures |r| == |a|
  {
    seq(|a|, i requires 0 <= i < |a| => a[i] + b[i])
  }

  function Candidates(need: seq<int>, rems: seq<int>, from: nat): seq<Candidate>
    requires |need| == |rems| && from <= |need|
    decreases |need| - from
  {
    if from == |need| then [] else
      (if need[from] > 0 then [Candidate(rems[from], from)] else []) + Candidates(need, rems, from + 1)
  }

  lemma {:induction false} CandidatesFacts(need: seq<int>, rems: seq<int>, from: nat)
    requires |need| == |rems| && from <= |need|
    ensures var r := Candidates(need, rems, from);
      && (forall c :: c in r <==> from <= c.idx < |need| && need[c.idx] > 0 && c.rem == rems[c.idx])
      && NoDuplicates(r)
    decreases |need| - from
  {
    if from < |need| {
      CandidatesFacts(need, rems, from + 1);
      assert Candidate(rems[from], from) !in Candidates(need, rems, from + 1);
    }
  }

  function Indices(c: seq<Candidate>): (r: seq<nat>)
    ensures |r| == |c| && forall i :: 0 <= i < |c| ==> r[i] == c[i].idx
  {
    seq(|c|, i requires 0 <= i < |c| => c[i].idx)
  }

  function Order(need: seq<int>, rems: seq<int>): seq<nat>
    requires |need| == |rems|
  {
    Indices(Sort(Candidates(need, rems, 0), Ahead))
  }

  predicate InRange(order: seq<nat>, n: nat) { forall i :: 0 <= i < |order| ==> order[i] < n }

  /** One walk over the candidates: a unit each while any are left, skipping the capped. */
  function OnePass(a: seq<int>, order: seq<nat>, left: nat): (r: (seq<int>, nat))
    requires InRange(order, |a|)
    ensures |r.0| == |a| && r.1 <= left
    decreases |order|
  {
    if order == [] || left == 0 then (a, left)
    else if a[order[0]] >= CAP then OnePass(a, order[1..], left)
    else OnePass(a[order[0] := a[order[0]] + 1], order[1..], left - 1)
  }

  /** Walks repeat until nothing is left or a whole walk placed nothing. */
  function Rounds(a: seq<int>, order: seq<nat>, left: nat): (r: seq<int>)
    requires InRange(order, |a|)
    ensures |r| == |a|
    decreases left
  {
    if left == 0 then a else
      var (b, rest) := OnePass(a, order, left);
      if rest == left then a else Rounds(b, order, rest)
  }

  lemma OrderInRange(need: seq<int>, rems: seq<int>)
    requires |need| == |rems|
    ensures InRange(Order(need, rems), |need|)
  {
    var c := Candidates(need, rems, 0);
    CandidatesFacts(need, rems, 0);
    SameLength(c, Sort(c, Ahead));
    forall i | 0 <= i < |c| ensures Order(need, rems)[i] < |need| {
      assert Sort(c, Ahead)[i] in c;
    }
  }

  function HandLeftover(a: seq<int>, need: seq<int>, rems: seq<int>, left: int): (r: seq<int>)
    requires |a| == |need| == |rems|
    ensures |r| == |a|
  {
    OrderInRange(need, rems);
    if left <= 0 then a else Rounds(a, Order(need, rems), left)
  }

  function Apportion(a: seq<int>, need: seq<int>, total: int, remaining: int): (r: seq<int>)
    requires |a| == |need| && total > 0
    ensures |r| == |a|
  {
    var shares := Shares(a, need, total, remaining);
    HandLeftover(Plus(a, shares), need, Remainders(shares, need, total, remaining), remaining - Sum(shares))
  }

  /** The integer-division step: every share in place, its remainder reported. */
  method AddShares(a: array<int>, need: seq<int>, total: int, remaining: int)
    returns (remainders: seq<int>, distributed: int)
    requires a.Length == |need| && total > 0
    modifies a
    ensures var shares := Shares(old(a[..]), need, total, remaining);
      && a[..] == Plus(old(a[..]), shares)
      && remainders == Remainders(shares, need, total, remaining)
      && distributed == Sum(shares)
  {
    ghost var start := a[..];
    ghost var shares := Shares(start, need, total, remaining);
    ghost var rems := Remainders(shares, need, total, remaining);
    remainders, distributed := [], 0;
    var i := 0;
    while i < |need|
      invariant 0 <= i <= |need|
      invariant forall j :: 0 <= j < a.Length ==> a[j] == start[j] + (if j < i then shares[j] else 0)
      invariant |remainders| == i && forall j :: 0 <= j < i ==> remainders[j] == rems[j]
      invariant distributed == Sum(shares[..i])
    {
      assert shares[..i + 1] == shares[..i] + [shares[i]];
      SumSnoc(shares[..i], shares[i]);
      var numerator, share := remaining * need[i], 0;
      if need[i] != 0 {
        share := numerator / total;
        if share > CAP - a[i] { share := CAP - a[i]; }
        a[i] := a[i] + share;
        distributed := distributed + share;
      }
      remainders := remainders + [if need[i] == 0 then 0 else numerator - share * total];
      i := i + 1;
    }
    assert shares[..i] == shares;
  }

  method WalkOnce(a: array<int>, order: seq<nat>, left: nat) returns (rest: nat)
    requires InRange(order, a.Length)
    modifies a
    ensures (a[..], rest) == OnePass(old(a[..]), order, left)
  {
    rest := left;
    var k := 0;
    while k < |order|
      invariant 0 <= k <= |order|
      invariant OnePass(a[..], order[k..], rest) == OnePass(old(a[..]), order, left)
    {
      if rest == 0 { return; }
      var c := order[k];
      assert order[k..][0] == c && order[k..][1..] == order[k + 1..];
      if a[c] < CAP {
        ghost var now := a[..];
        a[c] := a[c] + 1;
        assert a[..] == now[c := now[c] + 1];
        rest := rest - 1;
      }
      k := k + 1;
    }
  }

  lemma {:induction false} IdlePass(a: seq<int>, order: seq<nat>, left: nat)
    requires InRange(order, |a|)
    ensures OnePass(a, order, left).1 == left ==> OnePass(a, order, left).0 == a
    decreases |order|
  {
    if order != [] && left != 0 && a[order[0]] >= CAP {
      IdlePass(a, order[1..], left);
    }
  }

  method GiveLeftover(a: array<int>, need: seq<int>, rems: seq<int>, left: int)
    requires a.Length == |need| == |rems|
    modifies a
    ensures a[..] == HandLeftover(old(a[..]), need, rems, left)
  {
    var leftover := left;
    if leftover <= 0 { return; }
    OrderInRange(need, rems);
    var order := Order(need, rems);
    while leftover > 0
      invariant leftover >= 0
      invariant Rounds(a[..], order, leftover) == Rounds(old(a[..]), order, left)
    {
      ghost var now := a[..];
      var rest := WalkOnce(a, order, leftover);
      if rest == leftover {
        IdlePass(now, order, leftover);
        return;
      }
      leftover := rest;
    }
  }

  method AllocateRemaining(a: array<int>, need: seq<int>, total: int, remaining: int)
    requires a.Length == |need| && total > 0
    modifies a
    ensures a[..] == Apportion(old(a[..]), need, total, remaining)
  {
    hide HandLeftover;
    ghost var start := a[..];
    ghost var shares := Shares(start, need, total, remaining);
    var remainders, distributed := AddShares(a, need, total, remaining);
    ghost var based := a[..];
    assert based == Plus(start, shares);
    GiveLeftover(a, need, remainders, remaining - distributed);
    assert a[..] == HandLeftover(based, need, remainders, remaining - Sum(shares));
  }

  // --- One redistribution pass --------------------------------------------

  function Unused(a: seq<int>, est: seq<int>): seq<int>
    requires |a| == |est|
  {
    seq(|a|, i requires 0 <= i < |a| => Max(a[i] - est[i], 0))
  }

  function Wanted(a: seq<int>, est: seq<int>): (r: seq<int>)
    requires |a| == |est|
    ensures |r| == |a|
  {
    seq(|a|, i requires 0 <= i < |a| => Max(Min(CAP - a[i], est[i] - a[i]), 0))
  }

  /** Canonical-order hand-out of the pool. */
  function Takes(want: seq<int>, pool: int): (r: seq<int>)
    ensures |r| == |want|
  {
    if want == [] then [] else
      var take := Min(pool, want[0]);
      [take] + Takes(want[1..], pool - take)
  }

  /** A donor short of its start gives everything; one above it gives what was placed. */
  function Gives(unused: seq<int>, est: seq<int>, placed: int): (r: seq<int>)
    requires |unused| == |est|
    ensures |r| == |unused|
  {
    if unused == [] then [] else
      var give := if est[0] < START then unused[0] else Min(unused[0], placed);
      [give] + Gives(unused[1..], est[1..], if est[0] < START then placed else placed - give)
  }

  function Minus(a: seq<int>, b: seq<int>): (r: seq<int>)
    requires |a| == |b|
    ensures |r| == |a|
  {
    seq(|a|, i requires 0 <= i < |a| => a[i] - b[i])
  }

  function Redistribute(a: seq<int>, est: seq<int>): (r: seq<int>)
    requires |a| == |est|
    ensures |r| == |a|
  {
    var unused := Unused(a, est);
    var pool := Sum(unused);
    var takes := Takes(Wanted(a, est), pool);
    if pool == 0 then a
    else Minus(Plus(a, takes), Gives(unused, est, Sum(takes)))
  }

  lemma {:induction false} TakesExhausted(want: seq<int>)
    requires forall i :: 0 <= i < |want| ==> 0 <= want[i]
    ensures forall i :: 0 <= i < |want| ==> Takes(want, 0)[i] == 0
  {
    if want != [] { TakesExhausted(want[1..]); }
  }

  method CollectUnused(a: array<int>, est: seq<int>) returns (givable: seq<int>, pool: int)
    requires a.Length == |est|
    ensures givable == Unused(a[..], est) && pool == Sum(givable)
  {
    givable, pool := [], 0;
    var i := 0;
    while i < |est|
      invariant 0 <= i <= |est|
      invariant |givable| == i && forall j :: 0 <= j < i ==> givable[j] == Max(a[j] - est[j], 0)
      invariant pool == Sum(givable)
    {
      var give := if est[i] >= a[i] then 0 else a[i] - est[i];
      SumSnoc(givable, give);
      givable := givable + [give];
      pool := pool + give;
      i := i + 1;
    }
  }

  method HandOut(a: array<int>, est: seq<int>, pool: nat) returns (unplaced: int)
    requires a.Length == |est|
    modifies a
    ensures var takes := Takes(Wanted(old(a[..]), est), pool);
      a[..] == Plus(old(a[..]), takes) && unplaced == pool - Sum(takes)
  {
    hide Takes;
    ghost var start := a[..];
    ghost var want := Wanted(start, est);
    ghost var done: seq<int> := [];
    unplaced := pool;
    var i := 0;
    assert want[i..] == want;
    while i < |est|
      invariant 0 <= i <= |est| && |done| == i && 0 <= unplaced
      invariant Takes(want, pool) == done + Takes(want[i..], unplaced)
      invariant unplaced == pool - Sum(done)
      invariant forall j :: 0 <= j < i ==> a[j] == start[j] + done[j]
      invariant forall j :: i <= j < a.Length ==> a[j] == start[j]
    {
      if unplaced == 0 { break; }
      TakesStep(want, pool, done, unplaced);
      var headroom, wanted := CAP - a[i], est[i] - a[i];
      var take := 0;
      if headroom > 0 && wanted > 0 {
        take := unplaced;
        if take > headroom { take := headroom; }
        if take > wanted { take := wanted; }
        a[i] := a[i] + take;
        unplaced := unplaced - take;
      }
      SumSnoc(done, take);
      done := done + [take];
      i := i + 1;
    }
    HandOutEnds(want, pool, done, unplaced);
    assert a[..] == Plus(start, Takes(want, pool));
  }

  lemma TakesStep(want: seq<int>, pool: nat, done: seq<int>, unplaced: nat)
    requires |done| < |want|
    requires Takes(want, pool) == done + Takes(want[|done|..], unplaced)
    ensures var take := Min(unplaced, want[|done|]);
      Takes(want, pool) == done + [take] + Takes(want[|done| + 1..], unplaced - take)
  {
    var k := |done|;
    var take := Min(unplaced, want[k]);
    assert want[k..][0] == want[k] && want[k..][1..] == want[k + 1..];
    assert done + ([take] + Takes(want[k + 1..], unplaced - take))
        == done + [take] + Takes(want[k + 1..], unplaced - take);
  }

  lemma HandOutEnds(want: seq<int>, pool: nat, done: seq<int>, unplaced: nat)
    requires forall i :: 0 <= i < |want| ==> 0 <= want[i]
    requires |done| <= |want| && (unplaced == 0 || |done| == |want|)
    requires Takes(want, pool) == done + Takes(want[|done|..], unplaced)
    ensures Sum(Takes(want, pool)) == Sum(done)
    ensures forall j :: 0 <= j < |want| ==> Takes(want, pool)[j] == if j < |done| then done[j] else 0
  {
    var tail := Takes(want[|done|..], unplaced);
    if unplaced == 0 {
      TakesExhausted(want[|done|..]);
    }
    SumConstant(tail, 0);
    SumAppend(done, tail);
  }

  method SettleDonors(a: array<int>, est: seq<int>, givable: seq<int>, total: nat)
    requires a.Length == |est| == |givable|
    requires forall i :: 0 <= i < |givable| ==> 0 <= givable[i]
    modifies a
    ensures a[..] == Minus(old(a[..]), Gives(givable, est, total))
  {
    ghost var start := a[..];
    ghost var gives := Gives(givable, est, total);
    var placed := total;
    var i := 0;
    while i < |est|
      invariant 0 <= i <= |est| && 0 <= placed
      invariant gives[i..] == Gives(givable[i..], est[i..], placed)
      invariant forall j :: 0 <= j < a.Length ==> a[j] == start[j] - (if j < i then gives[j] else 0)
    {
      assert gives[i..][0] == gives[i] && gives[i..][1..] == gives[i + 1..];
      assert givable[i..][0] == givable[i] && givable[i..][1..] == givable[i + 1..];
      assert est[i..][0] == est[i] && est[i..][1..] == est[i + 1..];
      if givable[i] != 0 {
        var give := givable[i];
        if est[i] >= START {
          if give > placed { give := placed; }
          placed := placed - give;
        }
        a[i] := a[i] - give;
      }
      i := i + 1;
    }
  }

  lemma {:induction false} TakesBounded(want: seq<int>, pool: nat)
    requires forall i :: 0 <= i < |want| ==> 0 <= want[i]
    ensures var t := Takes(want, pool);
      && (forall i :: 0 <= i < |want| ==> 0 <= t[i] <= want[i])
      && 0 <= Sum(t) <= pool
      && (Sum(t) < pool ==> t == want)
  {
    if want != [] {
      var take := Min(pool, want[0]);
      TakesBounded(want[1..], pool - take);
      assert want == [want[0]] + want[1..];
    }
  }

  method RedistributeUnused(a: array<int>, est: seq<int>)
    requires a.Length == |est|
    modifies a
    ensures a[..] == Redistribute(old(a[..]), est)
  {
    var givable, pool := CollectUnused(a, est);
    if pool == 0 { return; }
    SumNonNegative(givable);
    TakesBounded(Wanted(a[..], est), pool);
    var unplaced := HandOut(a, est, pool);
    SettleDonors(a, est, givable, pool - unplaced);
  }
}
