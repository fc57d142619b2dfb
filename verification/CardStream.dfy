/** The event log and the live fan-out together: a call appends an event to the log and
    then publishes it to the hub, and other calls can come in between. */
module CardStream {
  import opened Wrappers
  import opened CardStore
  import EventHub

  /** held is what a call has appended and not yet published. */
  datatype Feed = Feed(log: seq<Event>, held: map<nat, Event>, hub: EventHub.State)

  const EMPTY := Feed([], map[], EventHub.START)

  datatype Step = Append(call: nat, card: nat, kind: Kind) | Publish(call: nat) | Live(step: EventHub.Step)

  /** A call publishes what it holds before it appends again. */
  function Next(s: Feed, step: Step): Feed {
    match step
    case Append(call, card, kind) =>
      if call in s.held then s
      else
        var e := Event(|s.log| + 1, card, kind, call);
        s.(log := s.log + [e], held := s.held[call := e])
    case Publish(call) =>
      if call !in s.held then s
      else s.(held := s.held - {call}, hub := EventHub.Next(s.hub, EventHub.DoPublish(s.held[call])))
    case Live(step) => if step.DoPublish? then s else s.(hub := EventHub.Next(s.hub, step))
  }

  function Run(steps: seq<Step>): Feed
  {
    if steps == [] then EMPTY else Next(Run(steps[..|steps| - 1]), steps[|steps| - 1])
  }

  // --- The invariant -----------------------------------------------------------------

  /** Stored events that were published, each once, and those that are still held. */
  ghost predicate FeedOk(s: Feed) {
    && Sequenced(s.log)
    && (forall k :: k in s.held ==> s.held[k] in s.log && s.held[k].call == k && s.held[k] !in s.hub.published)
    && (forall e :: e in s.hub.published ==> e in s.log)
    && forall i, j :: 0 <= i < j < |s.hub.published| ==> s.hub.published[i] != s.hub.published[j]
  }

  ghost predicate Inv(s: Feed) { FeedOk(s) && EventHub.Inv(s.hub) }

  lemma HubPublishes(h: EventHub.State, step: EventHub.Step)
    ensures EventHub.Next(h, step).published == h.published + if step.DoPublish? then [step.ev] else []
  {
    hide EventHub.Publish, EventHub.Subscribe, EventHub.Unsubscribe, EventHub.GiveHand;
  }

  lemma StepKeeps(s: Feed, step: Step)
    requires Inv(s)
    ensures Inv(Next(s, step))
  {
    hide EventHub.Inv, EventHub.Next;
    match step
    case Append(_, _, _) =>
    case Publish(call) =>
      if call in s.held {
        EventHub.StepKeeps(s.hub, EventHub.DoPublish(s.held[call]));
        HubPublishes(s.hub, EventHub.DoPublish(s.held[call]));
      }
    case Live(step) =>
      EventHub.StepKeeps(s.hub, step);
      HubPublishes(s.hub, step);
  }

  lemma {:induction false} RunKeeps(steps: seq<Step>)
    ensures Inv(Run(steps))
  {
    hide Next, EventHub.Inv;
    if steps == [] {
      EventHub.RunKeeps([]);
    } else {
      RunKeeps(steps[..|steps| - 1]);
      StepKeeps(Run(steps[..|steps| - 1]), steps[|steps| - 1]);
    }
  }

  /** The sequence number of a stored event is its own. */
  lemma SequencesDiffer(log: seq<Event>, d: Event, e: Event)
    requires Sequenced(log) && d in log && e in log
    ensures d.sequence == e.sequence ==> d == e
  {
    var i :| 0 <= i < |log| && log[i] == d;
    var j :| 0 <= j < |log| && log[j] == e;
  }

  // --- When the live stream rises ---------------------------------------------------------

  /** What was published for the card rises by sequence number. */
  ghost predicate InOrder(s: Feed, card: nat) { Rising(EventHub.OfCard(s.hub.published, card)) }

  /** A later event of the card has been published before the one the call holds. */
  ghost predicate Overtaken(s: Feed, call: nat) {
    call in s.held && exists e ::
      e in s.hub.published && e.card == s.held[call].card && e.sequence > s.held[call].sequence
  }

  lemma {:induction false} OfCardMembers(events: seq<Event>, card: nat, e: Event)
    ensures e in EventHub.OfCard(events, card) <==> e in events && e.card == card
  {
    if events != [] {
      OfCardMembers(events[..|events| - 1], card, e);
      assert events == events[..|events| - 1] + [events[|events| - 1]];
    }
  }

  lemma OfCardSnoc(events: seq<Event>, e: Event, card: nat)
    ensures EventHub.OfCard(events + [e], card) == EventHub.OfCard(events, card) + if e.card == card then [e] else []
  {
    assert (events + [e])[..|events|] == events;
  }

  lemma RisingSnoc(r: seq<Event>, e: Event)
    ensures Rising(r + [e]) <==> Rising(r) && forall d :: d in r ==> d.sequence < e.sequence
  {
    if Rising(r + [e]) {
      forall i, j | 0 <= i < j < |r|
        ensures r[i].sequence < r[j].sequence
      {
        assert (r + [e])[i] == r[i] && (r + [e])[j] == r[j];
      }
      forall d | d in r ensures d.sequence < e.sequence {
        var i :| 0 <= i < |r| && r[i] == d;
        assert (r + [e])[i] == d && (r + [e])[|r|] == e;
      }
    }
  }

  /** A publication keeps the card's stream rising exactly when it was not overtaken;
      no other step touches it. */
  lemma StepInOrderIff(s: Feed, step: Step, card: nat)
    requires Inv(s)
    ensures InOrder(Next(s, step), card) <==>
      && InOrder(s, card)
      && !(step.Publish? && step.call in s.held && s.held[step.call].card == card && Overtaken(s, step.call))
  {
    hide EventHub.Inv, EventHub.Next, EventHub.OfCard, Rising;
    match step
    case Append(_, _, _) =>
    case Publish(call) =>
      if call in s.held {
        var e, published := s.held[call], s.hub.published;
        HubPublishes(s.hub, EventHub.DoPublish(e));
        OfCardSnoc(published, e, card);
        var r := EventHub.OfCard(published, card);
        if e.card == card {
          RisingSnoc(r, e);
          forall d ensures d in r <==> d in published && d.card == card { OfCardMembers(published, card, d); }
          forall d | d in r ensures d.sequence != e.sequence { SequencesDiffer(s.log, d, e); }
        } else {
          assert r + [] == r;
        }
      }
    case Live(step) =>
      HubPublishes(s.hub, step);
      assert s.hub.published + [] == s.hub.published;
  }

  /** No publication of the card was overtaken. */
  ghost predicate NoneOvertaken(steps: seq<Step>, card: nat) {
    steps != [] ==>
      var s, last := Run(steps[..|steps| - 1]), steps[|steps| - 1];
      && NoneOvertaken(steps[..|steps| - 1], card)
      && !(last.Publish? && last.call in s.held && s.held[last.call].card == card && Overtaken(s, last.call))
  }

  /** In every interleaving what was published for a card rises by sequence number exactly
      when no call was overtaken between its append and its publication. */
  lemma {:induction false} RunInOrderIff(steps: seq<Step>, card: nat)
    ensures InOrder(Run(steps), card) <==> NoneOvertaken(steps, card)
  {
    hide Next, Inv, InOrder, Overtaken;
    if steps == [] {
      NothingPublished(card);
    } else {
      var front := steps[..|steps| - 1];
      RunInOrderIff(front, card);
      RunKeeps(front);
      StepInOrderIff(Run(front), steps[|steps| - 1], card);
    }
  }

  lemma NothingPublished(card: nat)
    ensures InOrder(EMPTY, card)
  {
  }

  /** At most one call holds an event of the card, and it is not overtaken. */
  ghost predicate Settled(s: Feed, card: nat) {
    && (forall k, l :: k in s.held && l in s.held && s.held[k].card == card && s.held[l].card == card ==> k == l)
    && forall k :: k in s.held && s.held[k].card == card ==> !Overtaken(s, k)
  }

  function PublishAll(s: Feed, calls: seq<nat>): Feed
    decreases |calls|
  {
    if calls == [] then s else PublishAll(Next(s, Publish(calls[0])), calls[1..])
  }

  lemma {:induction false} SettledRises(s: Feed, card: nat, calls: seq<nat>)
    requires Inv(s) && InOrder(s, card) && Settled(s, card)
    ensures InOrder(PublishAll(s, calls), card)
    decreases |calls|
  {
    hide Inv, InOrder, EventHub.Next;
    if calls != [] {
      var step := Publish(calls[0]);
      StepKeeps(s, step);
      StepInOrderIff(s, step, card);
      if calls[0] in s.held { HubPublishes(s.hub, EventHub.DoPublish(s.held[calls[0]])); }
      SettledRises(Next(s, step), card, calls[1..]);
    }
  }

  /** Two calls that hold events of one card can publish the later one first. */
  lemma LaterFirst(s: Feed, card: nat, k: nat, l: nat)
    requires Inv(s) && k in s.held && l in s.held && s.held[k].card == card == s.held[l].card
    requires s.held[k].sequence < s.held[l].sequence
    ensures !InOrder(PublishAll(s, [l, k]), card)
  {
    hide EventHub.Inv, InOrder, EventHub.Next;
    var s1 := Next(s, Publish(l));
    StepKeeps(s, Publish(l));
    HubPublishes(s.hub, EventHub.DoPublish(s.held[l]));
    assert s1.hub.published[|s.hub.published|] == s.held[l];
    assert s.held[l] in s1.hub.published && Overtaken(s1, k);
    StepInOrderIff(s1, Publish(k), card);
    TwoPublished(s, l, k);
  }

  lemma TwoPublished(s: Feed, l: nat, k: nat)
    ensures PublishAll(s, [l, k]) == Next(Next(s, Publish(l)), Publish(k))
    ensures PublishAll(s, [k]) == Next(s, Publish(k))
  {
    hide Next;
    assert [l, k][1..] == [k] && [k][1..] == [];
    forall t ensures PublishAll(t, []) == t && PublishAll(t, [k]) == Next(t, Publish(k)) {
      assert PublishAll(t, [k]) == PublishAll(Next(t, Publish(k)), []);
    }
  }

  lemma HeldDiffer(s: Feed, k: nat, l: nat)
    requires FeedOk(s) && k in s.held && l in s.held && k != l
    ensures s.held[k].sequence != s.held[l].sequence
  {
    SequencesDiffer(s.log, s.held[k], s.held[l]);
  }

  /** As long as the stream rises, it goes on rising in whatever order the calls publish
      what they hold exactly when at most one of them holds an event of the card and
      that one is not overtaken. */
  lemma EveryOrderRisesIff(s: Feed, card: nat)
    requires Inv(s) && InOrder(s, card)
    ensures (forall calls :: InOrder(PublishAll(s, calls), card)) <==> Settled(s, card)
  {
    hide EventHub.Inv, InOrder, Next, PublishAll;
    if Settled(s, card) {
      forall calls ensures InOrder(PublishAll(s, calls), card) { SettledRises(s, card, calls); }
    } else if k, l :| k in s.held && l in s.held && s.held[k].card == card && s.held[l].card == card && k != l {
      HeldDiffer(s, k, l);
      if s.held[k].sequence < s.held[l].sequence { LaterFirst(s, card, k, l); } else { LaterFirst(s, card, l, k); }
    } else {
      var k :| k in s.held && s.held[k].card == card && Overtaken(s, k);
      StepInOrderIff(s, Publish(k), card);
      TwoPublished(s, k, k);
    }
  }

  /** Appends of the card wait until no call holds an event of it. */
  ghost predicate Serial(steps: seq<Step>, card: nat) {
    steps != [] ==>
      var s, last := Run(steps[..|steps| - 1]), steps[|steps| - 1];
      && Serial(steps[..|steps| - 1], card)
      && (last.Append? && last.card == card ==> forall k :: k in s.held ==> s.held[k].card != card)
  }

  /** Then the stream always rises. */
  lemma {:induction false} SerialRises(steps: seq<Step>, card: nat)
    requires Serial(steps, card)
    ensures InOrder(Run(steps), card) && Settled(Run(steps), card)
  {
    hide Inv, InOrder, Next;
    if steps == [] {
      NothingPublished(card);
    } else {
      var front, last := steps[..|steps| - 1], steps[|steps| - 1];
      SerialRises(front, card);
      RunKeeps(front);
      StepInOrderIff(Run(front), last, card);
      StaysSettled(Run(front), last, card);
    }
  }

  lemma StaysSettled(s: Feed, step: Step, card: nat)
    requires Inv(s) && Settled(s, card)
    requires step.Append? && step.card == card ==> forall k :: k in s.held ==> s.held[k].card != card
    ensures Settled(Next(s, step), card)
  {
    hide EventHub.Inv, EventHub.Next;
    match step
    case Append(_, _, _) =>
      forall e | e in s.hub.published ensures e.sequence <= |s.log| { assert e in s.log; }
    case Publish(call) =>
      if call in s.held { HubPublishes(s.hub, EventHub.DoPublish(s.held[call])); }
    case Live(step) => HubPublishes(s.hub, step);
  }

  // --- Clients ---------------------------------------------------------------------------

  lemma {:induction false} OfCardConcat(a: seq<Event>, b: seq<Event>, card: nat)
    ensures EventHub.OfCard(a + b, card) == EventHub.OfCard(a, card) + EventHub.OfCard(b, card)
  {
    if b == [] {
      assert a + b == a;
    } else {
      assert (a + b)[..|a + b| - 1] == a + b[..|b| - 1];
      OfCardConcat(a, b[..|b| - 1], card);
    }
  }

  lemma RisingPart(a: seq<Event>, b: seq<Event>, c: seq<Event>)
    requires Rising(a + b + c)
    ensures Rising(b)
  {
    forall i | 0 <= i < |b| ensures (a + b + c)[|a| + i] == b[i] { }
  }

  lemma RisingSubsequence(a: seq<Event>, b: seq<Event>)
    requires EventHub.Subsequence(a, b) && Rising(b)
    ensures Rising(a) && forall e :: e in a ==> e in b
  {
    var at: seq<nat> :| EventHub.Embeds(a, b, at);
    forall i, j | 0 <= i < j < |a|
      ensures a[i].sequence < a[j].sequence
    {
      assert at[i] < at[j] && a[i] == b[at[i]] && a[j] == b[at[j]];
    }
    forall e | e in a ensures e in b {
      var i :| 0 <= i < |a| && a[i] == e;
      assert b[at[i]] == e;
    }
  }

  /** A client's events rise by sequence number whenever what was published for its card
      does, and all of them are stored events of the card. */
  lemma ClientRises(steps: seq<Step>, id: nat)
    requires id in Run(steps).hub.pumps
    ensures id in Run(steps).hub.hub.chans
    ensures var s, card := Run(steps), Run(steps).hub.hub.chans[id].card;
      && (InOrder(s, card) ==> Rising(s.hub.pumps[id].received))
      && forall e :: e in s.hub.pumps[id].received ==> e in s.log && e.card == card
  {
    hide Run, EventHub.Inv, EventHub.OfCard, EventHub.Subsequence, EventHub.Flow, Rising;
    RunKeeps(steps);
    var s := Run(steps);
    EventHub.InvReceives(s.hub, id);
    var p, card, published := s.hub.pumps[id], s.hub.hub.chans[id].card, s.hub.published;
    var last := if p.until.Some? then p.until.value else |published|;
    var span := published[p.since..last];
    assert published == published[..p.since] + span + published[last..];
    OfCardConcat(published[..p.since], span, card);
    OfCardConcat(published[..p.since] + span, published[last..], card);
    var before, offered := EventHub.OfCard(published[..p.since], card), EventHub.OfCard(span, card);
    if InOrder(s, card) {
      RisingPart(before, offered, EventHub.OfCard(published[last..], card));
      RisingSubsequence(p.received, offered);
    }
    forall e | e in p.received ensures e in s.log && e.card == card {
      InSubsequence(p.received, offered, e);
      OfCardMembers(span, card, e);
      assert e in published;
    }
  }

  lemma InSubsequence(a: seq<Event>, b: seq<Event>, e: Event)
    requires EventHub.Subsequence(a, b) && e in a
    ensures e in b
  {
    var at: seq<nat> :| EventHub.Embeds(a, b, at);
    var i :| 0 <= i < |a| && a[i] == e;
    assert b[at[i]] == e;
  }

  /** The cursor of a client that reconnects. */
  function Cursor(received: seq<Event>): int { if received == [] then 0 else received[|received| - 1].sequence }

  /** A stored event that a client missed is replayed on reconnecting exactly when the
      last event the client received is an earlier one; if its stream rose, exactly
      when it received no later one. */
  lemma ReplayedIff(steps: seq<Step>, id: nat, e: Event)
    requires id in Run(steps).hub.pumps && e in Run(steps).log && e !in Run(steps).hub.pumps[id].received
    requires id in Run(steps).hub.hub.chans && e.card == Run(steps).hub.hub.chans[id].card
    ensures var s, received := Run(steps), Run(steps).hub.pumps[id].received;
      var replayed := e in EventsAfter(s.log, e.card, Cursor(received));
      && (replayed <==> received == [] || received[|received| - 1].sequence < e.sequence)
      && (InOrder(s, e.card) ==> (replayed <==> forall r :: r in received ==> r.sequence < e.sequence))
  {
    hide Run, EventHub.Inv, InOrder;
    RunKeeps(steps);
    ClientRises(steps, id);
    var s, received := Run(steps), Run(steps).hub.pumps[id].received;
    AfterMembers(s.log, e.card, Cursor(received), e);
    var i :| 0 <= i < |s.log| && s.log[i] == e;
    if received != [] { assert received[|received| - 1] in received; }
    if InOrder(s, e.card) && received != [] {
      forall r | r in received ensures r.sequence <= received[|received| - 1].sequence {
        var j :| 0 <= j < |received| && received[j] == r;
      }
    }
  }

  /** The client's end of a subscription to card 0, after the hub's part in it. */
  function Client(received: seq<Event>): EventHub.Pump {
    EventHub.Pump(0, None, None, [], false, false, received, 0)
  }

  lemma ThenStep(steps: seq<Step>, step: Step) returns (more: seq<Step>)
    ensures more == steps + [step] && Run(more) == Next(Run(steps), step)
  {
    more := steps + [step];
    assert more[..|steps|] == steps;
  }

  const FIRST := Event(1, 0, CardUpdated, 7)
  const SECOND := Event(2, 0, CardUpdated, 8)

  /** Two patches append events 1 and 2 of a card and publish 2 before 1. A client that
      leaves in between has 2, missed 1, and is not sent it on reconnecting. */
  lemma OvertakenIsMissed() returns (steps: seq<Step>)
    ensures var s := Run(steps);
      && s.log == [FIRST, SECOND] && s.held == map[] && 1 in s.hub.pumps && s.hub.pumps[1].received == [SECOND]
      && FIRST !in EventsAfter(s.log, 0, Cursor([SECOND])) && !InOrder(s, 0)
  {
    assert Run([]) == EMPTY;
    steps := ThenStep([], Live(EventHub.DoSubscribe(0)));
    assert EventHub.Listeners(EventHub.EMPTY, 0) + {1} == {1};
    assert Run(steps).hub.hub.subs == map[0 := {1}] && Run(steps).hub.pumps == map[1 := Client([])];
    steps := ThenStep(steps, Append(7, 0, CardUpdated));
    steps := ThenStep(steps, Append(8, 0, CardUpdated));
    var s := Run(steps);
    assert s.log == [FIRST, SECOND] && s.held == map[7 := FIRST, 8 := SECOND];
    assert OneClient(s.hub, [], Client([]), []);
    hide Run;
    PublishSecond(s);
    steps := ThenStep(steps, Publish(8));
    steps := ReceiveSecond(steps);
    steps := LeaveThenPublish(steps);
    AfterMembers([FIRST, SECOND], 0, 2, FIRST);
  }

  /** The hub with one client of card 0. */
  ghost predicate OneClient(h: EventHub.State, buffer: seq<Event>, p: EventHub.Pump, published: seq<Event>) {
    && h.hub.subs == map[0 := {1}] && h.hub.chans == map[1 := EventHub.Chan(0, buffer, false)]
    && h.pumps == map[1 := p] && h.published == published
  }

  lemma PublishSecond(s: Feed)
    requires s.held == map[7 := FIRST, 8 := SECOND] && OneClient(s.hub, [], Client([]), [])
    ensures var s' := Next(s, Publish(8));
      s'.held == map[7 := FIRST] && s'.log == s.log && OneClient(s'.hub, [SECOND], Client([]), [SECOND])
  {
    var s' := Next(s, Publish(8));
    HubPublishes(s.hub, EventHub.DoPublish(SECOND));
    assert s'.hub.hub.chans.Keys == {1} && s'.hub.pumps.Keys == {1};
    assert EventHub.Offer(EventHub.Chan(0, [], false), SECOND).buffer == [SECOND];
  }

  lemma TakeSecond(h: EventHub.State)
    requires OneClient(h, [SECOND], Client([]), [SECOND])
    ensures OneClient(EventHub.Next(h, EventHub.PumpTake(1)), [], Client([]).(hand := Some(SECOND)), [SECOND])
  {
    var after := EventHub.Next(h, EventHub.PumpTake(1));
    assert [SECOND][1..] == [] && after.hub.chans[1] == EventHub.Chan(0, [], false);
    assert after.pumps[1] == Client([]).(hand := Some(SECOND));
  }

  lemma GiveSecond(h: EventHub.State)
    requires OneClient(h, [], Client([]).(hand := Some(SECOND)), [SECOND])
    ensures OneClient(EventHub.Next(h, EventHub.PumpGive(1)), [], Client([]).(out := [SECOND]), [SECOND])
  {
    assert [] + [SECOND] == [SECOND];
    assert EventHub.Next(h, EventHub.PumpGive(1)).pumps[1] == Client([]).(out := [SECOND]);
  }

  lemma GetSecond(h: EventHub.State)
    requires OneClient(h, [], Client([]).(out := [SECOND]), [SECOND])
    ensures OneClient(EventHub.Next(h, EventHub.ClientReceive(1)), [], Client([SECOND]), [SECOND])
  {
    assert [SECOND][1..] == [] && [] + [SECOND] == [SECOND];
    assert EventHub.Next(h, EventHub.ClientReceive(1)).pumps[1] == Client([SECOND]);
  }

  lemma ReceiveSecond(start: seq<Step>) returns (steps: seq<Step>)
    requires OneClient(Run(start).hub, [SECOND], Client([]), [SECOND])
    ensures var s := Run(start);
      Run(steps).log == s.log && Run(steps).held == s.held && OneClient(Run(steps).hub, [], Client([SECOND]), [SECOND])
  {
    hide Run, OneClient, EventHub.Next;
    steps := ThenStep(start, Live(EventHub.PumpTake(1)));
    TakeSecond(Run(start).hub);
    GiveSecond(Run(steps).hub);
    steps := ThenStep(steps, Live(EventHub.PumpGive(1)));
    GetSecond(Run(steps).hub);
    steps := ThenStep(steps, Live(EventHub.ClientReceive(1)));
  }

  lemma LeaveThenPublish(start: seq<Step>) returns (steps: seq<Step>)
    requires var s := Run(start); s.held == map[7 := FIRST] && OneClient(s.hub, [], Client([SECOND]), [SECOND])
    ensures var s := Run(steps);
      && s.log == Run(start).log && s.held == map[] && 1 in s.hub.pumps && s.hub.pumps[1].received == [SECOND]
      && !InOrder(s, 0)
  {
    hide Run, InOrder, EventHub.Publish, EventHub.Subscribe;
    steps := ThenStep(start, Live(EventHub.CloseDone(1)));
    steps := ThenStep(steps, Live(EventHub.Release(1)));
    var s := Run(steps);
    assert s.held == map[7 := FIRST] && s.hub.published == [SECOND];
    assert SECOND in s.hub.published && Overtaken(s, 7);
    RunKeeps(steps);
    StepInOrderIff(s, Publish(7), 0);
    steps := ThenStep(steps, Publish(7));
    assert s.hub.pumps[1].received == [SECOND];
  }
}
