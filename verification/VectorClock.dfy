/** Vector clocks (internal/federation/clock.go) and what they say about
    causality in every run. */
module VectorClock {
  import opened Wrappers
  import opened Sums

  type Counters = map<string, int>

  datatype Comparison = Before | After | Equal | Concurrent

  /** A missing peer reads as zero. */
  function Get(c: Counters, peer: string): int { if peer in c then c[peer] else 0 }

  function Bump(c: Counters, peer: string): Counters { c[peer := Get(c, peer) + 1] }

  /** The pointwise maximum as Merge builds it: a peer only the other clock knows
      is added when its counter is positive. */
  function Join(a: Counters, b: Counters): Counters {
    map p | p in a.Keys + b.Keys && (p in a || Get(b, p) > 0) :: if p in b && b[p] > Get(a, p) then b[p] else a[p]
  }

  /** The order on clocks. */
  ghost predicate Leq(a: Counters, b: Counters) { forall p: string :: Get(a, p) <= Get(b, p) }

  /** Some peer the first clock knows has a larger counter there. */
  ghost predicate Exceeds(a: Counters, b: Counters) { exists p :: p in a && a[p] > Get(b, p) }

  ghost predicate NonNegative(c: Counters) { forall p :: p in c ==> 0 <= c[p] }

  function Verdict(less: bool, greater: bool): Comparison {
    if less && greater then Concurrent else if less then Before else if greater then After else Equal
  }

  /** What Compare answers: the pointwise order, except that only the first clock's
      own peers are searched for an excess. */
  ghost function Compared(a: Counters, b: Counters): Comparison { Verdict(!Leq(b, a), Exceeds(a, b)) }

  lemma JoinNothing(a: Counters, b: Counters)
    ensures Join(a, b - b.Keys) == a
  {
  }

  /** Merging one more counter. */
  lemma JoinStep(a: Counters, b: Counters, todo: set<string>, p: string)
    requires p in todo && todo <= b.Keys
    ensures var m := Join(a, b - todo);
      Join(a, b - (todo - {p})) == if b[p] > Get(m, p) then m[p := b[p]] else m
  {
    var m, m' := Join(a, b - todo), Join(a, b - (todo - {p}));
    assert forall q :: q != p ==> (q in b - todo <==> q in b - (todo - {p}));
    assert forall q :: q != p ==> (q in m <==> q in m') && (q in m ==> m[q] == m'[q]);
  }

  /** The two loops of Merge. */
  method CopyCounters(c: Counters) returns (m: Counters)
    ensures m == c
  {
    m := map[];
    var todo := c.Keys;
    while todo != {}
      invariant todo <= c.Keys
      invariant m.Keys == c.Keys - todo && forall p :: p in m ==> m[p] == c[p]
      decreases |todo|
    {
      var p :| p in todo;
      m := m[p := c[p]];
      todo := todo - {p};
    }
  }

  method RaiseCounters(own: Counters, theirs: Counters) returns (m: Counters)
    ensures m == Join(own, theirs)
  {
    hide Join;
    m := own;
    JoinNothing(own, theirs);
    var todo := theirs.Keys;
    while todo != {}
      invariant todo <= theirs.Keys
      invariant m == Join(own, theirs - todo)
      decreases |todo|
    {
      var p :| p in todo;
      JoinStep(own, theirs, todo, p);
      if theirs[p] > (if p in m then m[p] else 0) { m := m[p := theirs[p]]; }
      todo := todo - {p};
    }
    assert theirs - todo == theirs;
  }

  class Clock {
    var counters: Counters

    constructor (c: Counters)
      ensures counters == c
    {
      counters := c;
    }

    method Increment(peer: string)
      modifies this
      ensures counters == Bump(old(counters), peer)
    {
      counters := counters[peer := (if peer in counters then counters[peer] else 0) + 1];
    }

    method Merge(other: Clock) returns (merged: Clock)
      ensures fresh(merged) && merged.counters == Join(counters, other.counters)
      ensures counters == old(counters) && other.counters == old(other.counters)
    {
      var m := CopyCounters(counters);
      m := RaiseCounters(m, other.counters);
      merged := new Clock(m);
    }

    method Compare(other: Clock) returns (r: Comparison)
      ensures r == Compared(counters, other.counters)
    {
      var less, greater := false, false;
      var todo := counters.Keys;
      while todo != {}
        invariant todo <= counters.Keys
        invariant less <==> exists p :: p in counters && p !in todo && counters[p] < Get(other.counters, p)
        invariant greater <==> exists p :: p in counters && p !in todo && counters[p] > Get(other.counters, p)
        decreases |todo|
      {
        var p :| p in todo;
        var theirs := if p in other.counters then other.counters[p] else 0;
        if counters[p] < theirs { less := true; } else if counters[p] > theirs { greater := true; }
        todo := todo - {p};
      }
      ghost var seenLess := less;
      todo := other.counters.Keys;
      while todo != {}
        invariant todo <= other.counters.Keys
        invariant less <==> (seenLess ||
          exists p :: p in other.counters && p !in todo && p !in counters && other.counters[p] > 0)
        decreases |todo|
      {
        var p :| p in todo;
        if p !in counters && other.counters[p] > 0 { less := true; }
        todo := todo - {p};
      }
      FlagsMean(counters, other.counters, less);
      r := Verdict(less, greater);
    }
  }

  lemma FlagsMean(a: Counters, b: Counters, less: bool)
    requires less <==> (exists p :: p in a && a[p] < Get(b, p)) || exists p :: p in b && p !in a && b[p] > 0
    ensures less <==> !Leq(b, a)
  {
    if !Leq(b, a) {
      var p: string :| Get(b, p) > Get(a, p);
      assert p in a || (p in b && b[p] > 0);
    }
    if exists p :: p in a && a[p] < Get(b, p) {
      var p :| p in a && a[p] < Get(b, p);
      assert Get(b, p) > Get(a, p);
    }
    if exists p :: p in b && p !in a && b[p] > 0 {
      var p :| p in b && p !in a && b[p] > 0;
      assert Get(b, p) > Get(a, p);
    }
  }

  /** Compare's verdict is the pointwise order exactly when the other clock holds no
      negative counter for an unknown peer, unless some known peer exceeds it anyway. */
  lemma CompareIsOrderIff(a: Counters, b: Counters)
    ensures Compared(a, b) == Verdict(!Leq(b, a), !Leq(a, b))
      <==> Exceeds(a, b) || forall p :: p in b && p !in a ==> b[p] >= 0
  {
    if Exceeds(a, b) {
      var p :| p in a && a[p] > Get(b, p);
      assert Get(a, p) > Get(b, p);
    } else {
      if !Leq(a, b) {
        var p: string :| Get(a, p) > Get(b, p);
        assert p !in a && p in b && b[p] < 0;
      }
      if p :| p in b && p !in a && b[p] < 0 { assert Get(a, p) > Get(b, p); }
    }
  }

  lemma JoinGet(a: Counters, b: Counters, p: string)
    ensures Get(Join(a, b), p) == if p in a && p !in b then a[p] else Max(Get(a, p), Get(b, p))
  {
  }

  /** Merge is an upper bound of both clocks, and then the least one, exactly when
      every counter the other clock lacks is non-negative. */
  lemma JoinIsLub(a: Counters, b: Counters)
    ensures Leq(a, Join(a, b))
    ensures Leq(b, Join(a, b)) <==> forall p :: p in a && p !in b ==> a[p] >= 0
    ensures forall c :: Leq(a, c) && Leq(b, c) ==> Leq(Join(a, b), c)
    ensures NonNegative(a) && NonNegative(b) ==> NonNegative(Join(a, b))
  {
    forall p: string
      ensures Get(Join(a, b), p) == if p in a && p !in b then a[p] else Max(Get(a, p), Get(b, p))
    { JoinGet(a, b, p); }
    if p :| p in a && p !in b && a[p] < 0 { assert Get(b, p) > Get(Join(a, b), p); }
    forall c | Leq(a, c) && Leq(b, c) ensures Leq(Join(a, b), c) {
      forall p: string
        ensures Get(Join(a, b), p) <= Get(c, p)
      {
        assert Get(a, p) <= Get(c, p) && Get(b, p) <= Get(c, p);
      }
    }
  }

  /** Negative counters unknown to the other side: the larger clock compares equal to
      the smaller, and their merge is below one of them. */
  lemma NegativeCounters()
    ensures Compared(map[], map["p" := -1]) == Equal && !Leq(map[], map["p" := -1])
    ensures !Leq(map[], Join(map["p" := -1], map[]))
  {
    var c: Counters := map["p" := -1];
    assert Get(map[], "p") > Get(c, "p");
    assert Get(map[], "p") > Get(Join(c, map[]), "p");
    assert Leq(c, map[]);
  }

  // --- Runs ------------------------------------------------------------------

  /** An event of a peer: a local one, or the receipt of a message carrying a copy
      of the sender's clock as it stood after event `from` (None: before the
      sender's first event). */
  datatype Event = Local(peer: string) | Receive(peer: string, from: Option<nat>)

  ghost predicate ValidRun(run: seq<Event>) {
    forall i :: 0 <= i < |run| ==> run[i].Receive? && run[i].from.Some? ==> run[i].from.value < i
  }

  /** The peer's latest event before position i. */
  function Previous(run: seq<Event>, peer: string, i: nat): (r: Option<nat>)
    requires i <= |run|
    ensures r.Some? ==> r.value < i && run[r.value].peer == peer
    ensures r.None? ==> forall j :: 0 <= j < i ==> run[j].peer != peer
    ensures r.Some? ==> forall j :: r.value < j < i ==> run[j].peer != peer
  {
    if i == 0 then None else if run[i - 1].peer == peer then Some(i - 1) else Previous(run, peer, i - 1)
  }

  /** The event whose clock copy event i merges. */
  function Source(run: seq<Event>, i: nat): (r: Option<nat>)
    requires i < |run|
  {
    if run[i].Receive? && run[i].from.Some? && run[i].from.value < i then run[i].from else None
  }

  /** The clock a peer holds after event i. */
  function ClockAt(run: seq<Event>, i: nat): Counters
    requires i < |run|
    decreases i
  {
    var prev, src := Previous(run, run[i].peer, i), Source(run, i);
    var base := if prev.Some? then ClockAt(run, prev.value) else map[];
    Bump(if run[i].Local? then base else Join(base, if src.Some? then ClockAt(run, src.value) else map[]), run[i].peer)
  }

  /** Lamport's relation: j is i, or precedes the event before i at its peer, or
      precedes the event whose message i receives. */
  predicate Precedes(run: seq<Event>, j: nat, i: nat)
    requires i < |run|
    decreases i
  {
    var prev, src := Previous(run, run[i].peer, i), Source(run, i);
    j == i || (prev.Some? && Precedes(run, j, prev.value)) || (src.Some? && Precedes(run, j, src.value))
  }

  predicate HappensBefore(run: seq<Event>, j: nat, i: nat)
    requires i < |run|
  {
    j != i && Precedes(run, j, i)
  }

  function EventsOf(run: seq<Event>, peer: string, n: nat): nat
    requires n <= |run|
  {
    if n == 0 then 0 else EventsOf(run, peer, n - 1) + if run[n - 1].peer == peer then 1 else 0
  }

  lemma {:induction false} EventsMonotone(run: seq<Event>, peer: string, m: nat, n: nat)
    requires m <= n <= |run|
    ensures EventsOf(run, peer, m) <= EventsOf(run, peer, n)
    ensures (forall k :: m <= k < n ==> run[k].peer != peer) ==> EventsOf(run, peer, m) == EventsOf(run, peer, n)
    decreases n
  {
    if m < n { EventsMonotone(run, peer, m, n - 1); }
  }

  lemma {:induction false} PrecedesInOrder(run: seq<Event>, j: nat, i: nat)
    requires i < |run| && Precedes(run, j, i)
    ensures j <= i
    decreases i
  {
    var prev, src := Previous(run, run[i].peer, i), Source(run, i);
    if prev.Some? && Precedes(run, j, prev.value) { PrecedesInOrder(run, j, prev.value); }
    if src.Some? && Precedes(run, j, src.value) { PrecedesInOrder(run, j, src.value); }
  }

  lemma {:induction false} ClockNonNegative(run: seq<Event>, i: nat)
    requires i < |run|
    ensures NonNegative(ClockAt(run, i))
    decreases i
  {
    var prev, src := Previous(run, run[i].peer, i), Source(run, i);
    if prev.Some? { ClockNonNegative(run, prev.value); }
    if src.Some? { ClockNonNegative(run, src.value); }
  }

  /** What the clock after an earlier event says of a peer; zero if there is none. */
  function Known(run: seq<Event>, e: Option<nat>, p: string): int
    requires e.Some? ==> e.value < |run|
  {
    if e.Some? then Get(ClockAt(run, e.value), p) else 0
  }

  /** One event, seen from one peer's counter. */
  lemma ClockStep(run: seq<Event>, i: nat, p: string)
    requires i < |run|
    ensures Get(ClockAt(run, i), p) ==
      Max(Known(run, Previous(run, run[i].peer, i), p), Known(run, Source(run, i), p))
      + if p == run[i].peer then 1 else 0
  {
    var prev, src := Previous(run, run[i].peer, i), Source(run, i);
    if prev.Some? { ClockNonNegative(run, prev.value); }
    if src.Some? { ClockNonNegative(run, src.value); }
    var base := if prev.Some? then ClockAt(run, prev.value) else map[];
    var msg := if src.Some? then ClockAt(run, src.value) else map[];
    JoinGet(base, msg, p);
  }

  lemma EarlierCounts(run: seq<Event>, e: Option<nat>, i: nat, p: string)
    requires i <= |run| && (e.Some? ==> e.value < i)
    requires e.Some? ==> Get(ClockAt(run, e.value), p) <= EventsOf(run, p, e.value + 1)
    ensures Known(run, e, p) <= EventsOf(run, p, i)
  {
    if e.Some? { EventsMonotone(run, p, e.value + 1, i); }
  }

  /** A counter never exceeds the peer's number of events so far, and a peer's own
      counter is that number. */
  lemma {:induction false} ClockCounts(run: seq<Event>, i: nat, p: string)
    requires i < |run|
    ensures Get(ClockAt(run, i), p) <= EventsOf(run, p, i + 1)
    ensures p == run[i].peer ==> Get(ClockAt(run, i), p) == EventsOf(run, p, i + 1)
    decreases i
  {
    hide ClockAt;
    var me := run[i].peer;
    var prev, src := Previous(run, me, i), Source(run, i);
    ClockStep(run, i, p);
    if prev.Some? { ClockCounts(run, prev.value, p); }
    if src.Some? { ClockCounts(run, src.value, p); }
    EarlierCounts(run, prev, i, p);
    EarlierCounts(run, src, i, p);
    if p == me {
      if prev.Some? { EventsMonotone(run, me, prev.value + 1, i); } else { EventsMonotone(run, me, 0, i); }
    }
  }

  /** The ordinal of event j among its peer's events, from one. */
  function Ordinal(run: seq<Event>, j: nat): nat
    requires j < |run|
  {
    EventsOf(run, run[j].peer, j + 1)
  }

  /** The clock after event i counts exactly the events that precede it. */
  lemma {:induction false} ClockKnows(run: seq<Event>, i: nat, j: nat)
    requires i < |run| && j < |run|
    ensures Precedes(run, j, i) <==> Ordinal(run, j) <= Get(ClockAt(run, i), run[j].peer)
    decreases i
  {
    hide ClockAt;
    var p := run[j].peer;
    var prev, src := Previous(run, run[i].peer, i), Source(run, i);
    ClockStep(run, i, p);
    ClockCounts(run, i, p);
    if j > i {
      if Precedes(run, j, i) { PrecedesInOrder(run, j, i); }
      EventsMonotone(run, p, i + 1, j);
    } else if j < i {
      if prev.Some? { ClockKnows(run, prev.value, j); }
      if src.Some? { ClockKnows(run, src.value, j); }
      if p == run[i].peer {
        assert prev.Some? && j <= prev.value;
        ClockCounts(run, prev.value, p);
        EventsMonotone(run, p, j + 1, prev.value + 1);
        EventsMonotone(run, p, prev.value + 1, i + 1);
      }
    }
  }

  lemma {:induction false} PrecedesGrows(run: seq<Event>, j: nat, i: nat, p: string)
    requires i < |run| && j < |run| && Precedes(run, j, i)
    ensures Get(ClockAt(run, j), p) <= Get(ClockAt(run, i), p)
    decreases i
  {
    hide ClockAt;
    var prev, src := Previous(run, run[i].peer, i), Source(run, i);
    ClockStep(run, i, p);
    if j != i {
      if prev.Some? && Precedes(run, j, prev.value) {
        PrecedesGrows(run, j, prev.value, p);
      } else {
        PrecedesGrows(run, j, src.value, p);
      }
    }
  }

  /** Clocks are ordered exactly as events are. */
  lemma ClockOrder(run: seq<Event>, j: nat, i: nat)
    requires i < |run| && j < |run|
    ensures Leq(ClockAt(run, j), ClockAt(run, i)) <==> Precedes(run, j, i)
  {
    hide ClockAt, Precedes;
    if Precedes(run, j, i) {
      forall p: string ensures Get(ClockAt(run, j), p) <= Get(ClockAt(run, i), p) { PrecedesGrows(run, j, i, p); }
    }
    if Leq(ClockAt(run, j), ClockAt(run, i)) {
      ClockCounts(run, j, run[j].peer);
      assert Get(ClockAt(run, j), run[j].peer) <= Get(ClockAt(run, i), run[j].peer);
      ClockKnows(run, i, j);
    }
  }

  /** In every run, comparing the clocks of two events decides their causal
      relation: Before exactly when the first happens before the second,
      Concurrent exactly when neither does, Equal only for the same event. */
  lemma CompareDecidesCausality(run: seq<Event>, j: nat, i: nat)
    requires i < |run| && j < |run|
    ensures var r := Compared(ClockAt(run, j), ClockAt(run, i));
      && (r == Before <==> HappensBefore(run, j, i))
      && (r == After <==> HappensBefore(run, i, j))
      && (r == Equal <==> i == j)
      && (r == Concurrent <==> !Precedes(run, j, i) && !Precedes(run, i, j))
  {
    hide ClockAt, Leq, Exceeds;
    ClockOrder(run, j, i);
    ClockOrder(run, i, j);
    ClockNonNegative(run, i);
    CompareIsOrderIff(ClockAt(run, j), ClockAt(run, i));
    if Precedes(run, i, j) { PrecedesInOrder(run, i, j); }
    if Precedes(run, j, i) { PrecedesInOrder(run, j, i); }
  }

  /** Executing a run with one clock per peer stamps every event with ClockAt. */
  method Execute(run: seq<Event>) returns (stamps: seq<Counters>)
    requires ValidRun(run)
    ensures |stamps| == |run| && forall i :: 0 <= i < |run| ==> stamps[i] == ClockAt(run, i)
  {
    hide Join, Bump, ClockAt, Previous;
    NothingBefore(run);
    var held: map<string, Counters> := map[];
    stamps := [];
    for i := 0 to |run|
      invariant |stamps| == i && forall j :: 0 <= j < i ==> stamps[j] == ClockAt(run, j)
      invariant forall p :: p in held <==> Previous(run, p, i).Some?
      invariant forall p :: p in held ==> held[p] == ClockAt(run, Previous(run, p, i).value)
    {
      var e := run[i];
      var clock := new Clock(if e.peer in held then held[e.peer] else map[]);
      if e.Receive? {
        var message := new Clock(if e.from.Some? then stamps[e.from.value] else map[]);
        clock := clock.Merge(message);
      }
      clock.Increment(e.peer);
      ClockUnfolds(run, i);
      stamps := stamps + [clock.counters];
      held := held[e.peer := clock.counters];
      PreviousStep(run, i);
    }
  }

  lemma NothingBefore(run: seq<Event>)
    ensures forall p :: Previous(run, p, 0).None?
  {
    forall p ensures Previous(run, p, 0).None? { }
  }

  lemma PreviousStep(run: seq<Event>, i: nat)
    requires i < |run|
    ensures Previous(run, run[i].peer, i + 1) == Some(i)
    ensures forall p :: p != run[i].peer ==> Previous(run, p, i + 1) == Previous(run, p, i)
  {
    forall p | p != run[i].peer ensures Previous(run, p, i + 1) == Previous(run, p, i) { }
  }

  lemma ClockUnfolds(run: seq<Event>, i: nat)
    requires i < |run|
    ensures var prev, src := Previous(run, run[i].peer, i), Source(run, i);
      var base := if prev.Some? then ClockAt(run, prev.value) else map[];
      var msg := if src.Some? then ClockAt(run, src.value) else map[];
      ClockAt(run, i) == Bump(if run[i].Local? then base else Join(base, msg), run[i].peer)
  {
  }
}
