/** Live fan-out of card events (internal/card/events_stream.go): bounded,
    dropping channels under one mutex, and a pump per service subscription. Every
    mutex-guarded section and every channel operation of a pump is one step. */
module EventHub {
  import opened Wrappers
  import opened CardStore

  const BUFFER := 64

  /** A subscriber channel of the hub. */
  datatype Chan = Chan(card: nat, buffer: seq<Event>, closed: bool)

  /** subs is the hub's table: card to the ids of its live subscribers. */
  datatype Hub = Hub(subs: map<nat, set<nat>>, chans: map<nat, Chan>, nextId: nat)

  const EMPTY := Hub(map[], map[], 0)

  predicate Subscribed(h: Hub, id: nat) {
    id in h.chans && h.chans[id].card in h.subs && id in h.subs[h.chans[id].card]
  }

  /** A non-blocking send. */
  function Offer(c: Chan, ev: Event): Chan { if |c.buffer| < BUFFER then c.(buffer := c.buffer + [ev]) else c }

  function Listeners(h: Hub, card: nat): set<nat> { if card in h.subs then h.subs[card] else {} }

  function Subscribe(h: Hub, card: nat): Hub {
    var id := h.nextId + 1;
    Hub(h.subs[card := Listeners(h, card) + {id}], h.chans[id := Chan(card, [], false)], id)
  }

  function Publish(h: Hub, ev: Event): Hub {
    h.(chans := map id | id in h.chans :: if id in Listeners(h, ev.card) then Offer(h.chans[id], ev) else h.chans[id])
  }

  /** Removes the entry, drops a card without subscribers, closes the channel. */
  function Unsubscribe(h: Hub, id: nat): Hub {
    if !Subscribed(h, id) then h else
      var card := h.chans[id].card;
      var rest := h.subs[card] - {id};
      Hub(if rest == {} then h.subs - {card} else h.subs[card := rest],
        h.chans[id := h.chans[id].(closed := true)], h.nextId)
  }

  /** The hub's table and its channels agree: live subscribers are exactly the open
      channels, and a card without subscribers has no entry. */
  ghost predicate HubOk(h: Hub) {
    && (forall card :: card in h.subs ==> h.subs[card] != {})
    && (forall card, id :: card in h.subs && id in h.subs[card] ==>
      id in h.chans && h.chans[id].card == card && !h.chans[id].closed)
    && (forall id :: id in h.chans ==>
         && 0 < id <= h.nextId && |h.chans[id].buffer| <= BUFFER && (!h.chans[id].closed ==> Subscribed(h, id)))
  }

  lemma HubSteps(h: Hub, card: nat, id: nat, ev: Event)
    requires HubOk(h)
    ensures HubOk(Subscribe(h, card)) && HubOk(Publish(h, ev)) && HubOk(Unsubscribe(h, id))
    ensures h.nextId + 1 !in h.chans
  {
    SubscribeOk(h, card);
    PublishOk(h, ev);
    UnsubscribeOk(h, id);
  }

  lemma SubscribeOk(h: Hub, card: nat)
    requires HubOk(h)
    ensures HubOk(Subscribe(h, card))
  {
    var h' := Subscribe(h, card);
    assert h.nextId + 1 in h'.subs[card] && h.nextId + 1 !in h.chans;
    forall c | c in h'.subs ensures h'.subs[c] != {} { assert c != card ==> h'.subs[c] == h.subs[c]; }
    forall c, i | c in h'.subs && i in h'.subs[c] && i != h.nextId + 1
      ensures c in h.subs && i in h.subs[c] && i in h.chans && h'.chans[i] == h.chans[i]
    { }
    forall i | i in h'.chans && !h'.chans[i].closed ensures Subscribed(h', i) {
      if i != h.nextId + 1 { assert i in h.chans && Subscribed(h, i); }
    }
  }

  lemma PublishOk(h: Hub, ev: Event)
    requires HubOk(h)
    ensures HubOk(Publish(h, ev))
  {
    var h' := Publish(h, ev);
    forall i | i in h'.chans && !h'.chans[i].closed ensures Subscribed(h', i) { assert Subscribed(h, i); }
  }

  lemma UnsubscribeOk(h: Hub, id: nat)
    requires HubOk(h)
    ensures HubOk(Unsubscribe(h, id))
  {
    if Subscribed(h, id) {
      var h' := Unsubscribe(h, id);
      forall i | i in h'.chans && !h'.chans[i].closed ensures Subscribed(h', i) {
        assert Subscribed(h, i);
        if h.chans[i].card == h.chans[id].card { assert i in h.subs[h.chans[id].card] - {id}; }
      }
    }
  }

  class CardEventHub {
    var subs: map<nat, set<nat>>
    var chans: map<nat, Chan>
    var nextId: nat

    ghost function View(): Hub reads this { Hub(subs, chans, nextId) }

    constructor ()
      ensures View() == EMPTY
    {
      subs, chans, nextId := map[], map[], 0;
    }

    method SubscribeTo(card: nat) returns (id: nat)
      requires HubOk(View())
      modifies this
      ensures View() == Subscribe(old(View()), card) && HubOk(View())
      ensures id == nextId && id !in old(chans)
    {
      SubscribeOk(View(), card);
      assert nextId + 1 !in chans;
      hide HubOk;
      nextId := nextId + 1;
      id := nextId;
      if card !in subs { subs := subs[card := {}]; }
      subs := subs[card := subs[card] + {id}];
      chans := chans[id := Chan(card, [], false)];
    }

    /** Sends to every listener in any order. No listener's channel is closed. */
    method PublishEvent(ev: Event)
      requires HubOk(View())
      modifies this
      ensures View() == Publish(old(View()), ev) && HubOk(View())
    {
      ghost var before := View();
      PublishOk(before, ev);
      assert forall i :: i in Listeners(before, ev.card) ==> i in before.chans && !before.chans[i].closed;
      hide HubOk;
      var todo := if ev.card in subs then subs[ev.card] else {};
      ghost var all := todo;
      while todo != {}
        invariant todo <= all && subs == before.subs && nextId == before.nextId
        invariant chans.Keys == before.chans.Keys
        invariant forall i :: i in chans ==>
          chans[i] == if i in all - todo then Offer(before.chans[i], ev) else before.chans[i]
        decreases |todo|
      {
        var id :| id in todo;
        assert !chans[id].closed;
        chans := chans[id := Offer(chans[id], ev)];
        todo := todo - {id};
      }
    }

    /** Idempotent; closes the channel exactly once. */
    method UnsubscribeFrom(card: nat, id: nat)
      requires HubOk(View()) && id in chans && chans[id].card == card
      modifies this
      ensures View() == Unsubscribe(old(View()), id) && HubOk(View())
    {
      ghost var before := View();
      UnsubscribeOk(before, id);
      if card !in subs { return; }
      if id !in subs[card] { return; }
      assert !chans[id].closed;
      subs := subs[card := subs[card] - {id}];
      if subs[card] == {} { subs := subs - {card}; }
      chans := chans[id := chans[id].(closed := true)];
      assert subs == Unsubscribe(before, id).subs;
    }
  }

  // --- Subsequences -------------------------------------------------------------------

  ghost predicate Embeds(a: seq<Event>, b: seq<Event>, at: seq<nat>) {
    && |at| == |a|
    && (forall i :: 0 <= i < |a| ==> at[i] < |b| && b[at[i]] == a[i])
    && forall i, j :: 0 <= i < j < |at| ==> at[i] < at[j]
  }

  /** a is b with some elements left out, in order. */
  ghost predicate Subsequence(a: seq<Event>, b: seq<Event>) { exists at :: Embeds(a, b, at) }

  lemma SubsequenceBoth(a: seq<Event>, b: seq<Event>, x: Event)
    requires Subsequence(a, b)
    ensures Subsequence(a + [x], b + [x]) && Subsequence(a, b + [x])
  {
    var at: seq<nat> :| Embeds(a, b, at);
    assert Embeds(a + [x], b + [x], at + [|b|]);
    assert Embeds(a, b + [x], at);
  }

  lemma SubsequenceDrop(a: seq<Event>, k: nat, b: seq<Event>)
    requires Subsequence(a, b) && k < |a|
    ensures Subsequence(a[..k] + a[k + 1..], b)
  {
    var at: seq<nat> :| Embeds(a, b, at);
    assert Embeds(a[..k] + a[k + 1..], b, at[..k] + at[k + 1..]);
  }

  lemma SubsequencePrefix(a: seq<Event>, rest: seq<Event>, b: seq<Event>)
    requires Subsequence(a + rest, b)
    ensures Subsequence(a, b)
  {
    var at: seq<nat> :| Embeds(a + rest, b, at);
    assert Embeds(a, b, at[..|a|]);
  }

  // --- Interleavings ------------------------------------------------------------------

  /** A service subscription: its pump, its out channel and its client. `since` and
      `until` bound the part of the publication log that falls in its lifetime;
      `skipped` counts the drops at a full buffer. */
  datatype Pump = Pump(since: nat, until: Option<nat>, hand: Option<Event>, out: seq<Event>, exited: bool,
                       done: bool, received: seq<Event>, skipped: nat)

  datatype State = State(hub: Hub, pumps: map<nat, Pump>, published: seq<Event>)

  const START := State(EMPTY, map[], [])

  datatype Step =
    | DoSubscribe(card: nat)
    | DoPublish(ev: Event)
    | PumpTake(id: nat)
    | PumpGive(id: nat)
    | PumpExit(id: nat)
    | ClientReceive(id: nat)
    | CloseDone(id: nat)
    | Release(id: nat)

  /** The pump's hand-off: to the client if there is room, else a drop, unless the
      subscription is over. */
  function GiveHand(p: Pump): Pump
    requires p.hand.Some?
  {
    if |p.out| < BUFFER then p.(out := p.out + [p.hand.value], hand := None)
    else if p.done then p.(hand := None, exited := true)
    else p.(hand := None, skipped := p.skipped + 1)
  }

  function OnPump(s: State, id: nat, p: Pump): State { s.(pumps := s.pumps[id := p]) }

  /** A step that is not enabled changes nothing. Unsubscribing is CloseDone and
      then Release; the hub's own users release without a done channel. */
  function Next(s: State, step: Step): State {
    match step
    case DoSubscribe(card) =>
      State(Subscribe(s.hub, card),
        s.pumps[s.hub.nextId + 1 := Pump(|s.published|, None, None, [], false, false, [], 0)], s.published)
    case DoPublish(ev) =>
      State(Publish(s.hub, ev),
        map id | id in s.pumps ::
          if Skips(s.hub, id, ev) then s.pumps[id].(skipped := s.pumps[id].skipped + 1) else s.pumps[id],
        s.published + [ev])
    case PumpTake(id) =>
      if id in s.pumps && !s.pumps[id].exited && s.pumps[id].hand.None? && id in s.hub.chans
        && s.hub.chans[id].buffer != []
      then var c := s.hub.chans[id];
        OnPump(s.(hub := s.hub.(chans := s.hub.chans[id := c.(buffer := c.buffer[1..])])), id,
          s.pumps[id].(hand := Some(c.buffer[0])))
      else s
    case PumpGive(id) =>
      if id in s.pumps && !s.pumps[id].exited && s.pumps[id].hand.Some? then OnPump(s, id, GiveHand(s.pumps[id])) else s
    case PumpExit(id) =>
      if id in s.pumps && !s.pumps[id].exited && id in s.hub.chans &&
         (s.pumps[id].done || (s.pumps[id].hand.None? && s.hub.chans[id].closed && s.hub.chans[id].buffer == []))
      then OnPump(s, id, s.pumps[id].(exited := true, hand := None)) else s
    case ClientReceive(id) =>
      if id in s.pumps && s.pumps[id].out != []
      then var p := s.pumps[id]; OnPump(s, id, p.(received := p.received + [p.out[0]], out := p.out[1..]))
      else s
    case CloseDone(id) =>
      if id in s.pumps then OnPump(s, id, s.pumps[id].(done := true)) else s
    case Release(id) =>
      if id in s.pumps && Subscribed(s.hub, id)
      then OnPump(s.(hub := Unsubscribe(s.hub, id)), id, s.pumps[id].(until := Some(|s.published|))) else s
  }

  /** A publication finds a subscriber's buffer full. */
  predicate Skips(h: Hub, id: nat, ev: Event) {
    id in h.chans && id in Listeners(h, ev.card) && |h.chans[id].buffer| >= BUFFER
  }

  function Run(steps: seq<Step>): State
  {
    if steps == [] then START else Next(Run(steps[..|steps| - 1]), steps[|steps| - 1])
  }

  function OfCard(events: seq<Event>, card: nat): seq<Event>
  {
    if events == [] then [] else
      OfCard(events[..|events| - 1], card) + (if events[|events| - 1].card == card then [events[|events| - 1]] else [])
  }

  /** What was published for a subscription's card during its lifetime. */
  function Offered(p: Pump, published: seq<Event>, card: nat): seq<Event>
    requires p.since <= |published| && (p.until.Some? ==> p.since <= p.until.value <= |published|)
  {
    OfCard(published[p.since..if p.until.Some? then p.until.value else |published|], card)
  }

  /** Everything that came through so far, oldest first: received by the client, in
      the out channel, in the pump's hand, in the hub channel. */
  function Flow(p: Pump, c: Chan): seq<Event> {
    p.received + p.out + (if p.hand.Some? then [p.hand.value] else []) + c.buffer
  }

  ghost predicate Span(p: Pump, published: seq<Event>) {
    p.since <= |published| && (p.until.Some? ==> p.since <= p.until.value <= |published|)
  }

  ghost predicate SubOk(p: Pump, c: Chan, published: seq<Event>) {
    && Span(p, published)
    && |p.out| <= BUFFER
    && (c.closed <==> p.until.Some?)
    && (p.exited ==> p.hand.None?)
    && var offered := Offered(p, published, c.card);
       && Subsequence(Flow(p, c), offered)
       && (!p.done && p.skipped == 0 ==> Flow(p, c) == offered)
       && (!p.done ==> |Flow(p, c)| + p.skipped == |offered|)
       && (p.skipped > 0 ==> |offered| > BUFFER)
  }

  ghost predicate Inv(s: State) {
    && HubOk(s.hub)
    && s.pumps.Keys == s.hub.chans.Keys
    && forall id :: id in s.pumps ==> SubOk(s.pumps[id], s.hub.chans[id], s.published)
  }

  lemma {:induction false} SubsequenceShorter(a: seq<Event>, b: seq<Event>, at: seq<nat>, i: nat)
    requires Embeds(a, b, at) && i < |a|
    ensures i <= at[i]
  {
    if i > 0 { SubsequenceShorter(a, b, at, i - 1); }
  }

  lemma SubsequenceLength(a: seq<Event>, b: seq<Event>)
    requires Subsequence(a, b)
    ensures |a| <= |b|
  {
    var at: seq<nat> :| Embeds(a, b, at);
    if a != [] { SubsequenceShorter(a, b, at, |a| - 1); }
  }

  lemma OfferedAfter(p: Pump, published: seq<Event>, ev: Event, card: nat)
    requires Span(p, published)
    ensures Span(p, published + [ev])
    ensures Offered(p, published + [ev], card) ==
      Offered(p, published, card) + (if p.until.None? && ev.card == card then [ev] else [])
  {
    if p.until.None? {
      var span := (published + [ev])[p.since..|published| + 1];
      assert span == published[p.since..] + [ev];
      assert span[..|span| - 1] == published[p.since..] == published[p.since..|published|];
    } else {
      assert (published + [ev])[p.since..p.until.value] == published[p.since..p.until.value];
    }
  }

  /** A publication, as one subscription sees it. */
  lemma SubPublish(p: Pump, c: Chan, published: seq<Event>, ev: Event)
    requires SubOk(p, c, published) && |c.buffer| <= BUFFER
    ensures var listens := !c.closed && ev.card == c.card;
      var full := listens && |c.buffer| >= BUFFER;
      SubOk(if full then p.(skipped := p.skipped + 1) else p, if listens then Offer(c, ev) else c, published + [ev])
  {
    hide OfCard, Subsequence, Offered;
    var offered := Offered(p, published, c.card);
    OfferedAfter(p, published, ev, c.card);
    SubsequenceLength(Flow(p, c), offered);
    if !c.closed && ev.card == c.card {
      var p' := p.(skipped := p.skipped + 1);
      assert Offered(p', published + [ev], c.card) == offered + [ev] by { SameSpan(p, p', published + [ev], c.card); }
      SubsequenceBoth(Flow(p, c), offered, ev);
      assert Flow(p', c) == Flow(p, c);
      if |c.buffer| < BUFFER { assert Flow(p, Offer(c, ev)) == Flow(p, c) + [ev]; }
    } else {
      assert offered + [] == offered;
    }
  }

  lemma SameSpan(p: Pump, q: Pump, published: seq<Event>, card: nat)
    requires Span(p, published) && p.since == q.since && p.until == q.until
    ensures Offered(p, published, card) == Offered(q, published, card)
  {
  }

  /** Moving an event along leaves the flow as it is. */
  lemma SubMoves(p: Pump, c: Chan, q: Pump, d: Chan, published: seq<Event>)
    requires SubOk(p, c, published)
    requires d.card == c.card && d.closed == c.closed && q.since == p.since && q.until == p.until
    requires q.skipped == p.skipped && (p.done ==> q.done) && |q.out| <= BUFFER && (q.exited ==> q.hand.None?)
    requires Flow(q, d) == Flow(p, c)
    ensures SubOk(q, d, published)
  {
    SameSpan(p, q, published, c.card);
  }

  /** Losing the event in hand: at a full out channel it counts as skipped, after
      done it does not. */
  lemma SubLosesHand(p: Pump, c: Chan, q: Pump, published: seq<Event>)
    requires SubOk(p, c, published) && p.hand.Some?
    requires q.since == p.since && q.until == p.until && q.out == p.out && q.received == p.received
    requires q.hand.None? && q.done == p.done
    requires (q.done && q.skipped == p.skipped) || (!q.done && q.skipped == p.skipped + 1 && |p.out| == BUFFER)
    ensures SubOk(q, c, published)
  {
    hide OfCard, Subsequence, Offered;
    var flow, k := Flow(p, c), |p.received| + |p.out|;
    SameSpan(p, q, published, c.card);
    SubsequenceDrop(flow, k, Offered(p, published, c.card));
    SubsequenceLength(flow, Offered(p, published, c.card));
    assert Flow(q, c) == flow[..k] + flow[k + 1..];
  }

  /** Releasing fixes what was offered. */
  lemma SubReleases(p: Pump, c: Chan, published: seq<Event>)
    requires SubOk(p, c, published) && !c.closed
    ensures SubOk(p.(until := Some(|published|)), c.(closed := true), published)
  {
    var q := p.(until := Some(|published|));
    assert Offered(q, published, c.card) == Offered(p, published, c.card);
    assert Flow(q, c.(closed := true)) == Flow(p, c);
  }

  lemma SubStarts(card: nat, published: seq<Event>)
    ensures SubOk(Pump(|published|, None, None, [], false, false, [], 0), Chan(card, [], false), published)
  {
    var p, c := Pump(|published|, None, None, [], false, false, [], 0), Chan(card, [], false);
    assert published[|published|..|published|] == [];
    var none: seq<nat> := [];
    assert Embeds([], [], none);
    assert Flow(p, c) == [];
  }

  lemma PublishKeeps(s: State, ev: Event)
    requires Inv(s)
    ensures Inv(Next(s, DoPublish(ev)))
  {
    hide SubOk, Subscribe, Unsubscribe;
    PublishOk(s.hub, ev);
    var s' := Next(s, DoPublish(ev));
    forall id | id in s'.pumps ensures SubOk(s'.pumps[id], s'.hub.chans[id], s'.published) {
      var c := s.hub.chans[id];
      assert id in Listeners(s.hub, ev.card) <==> !c.closed && ev.card == c.card by {
        if !c.closed { assert Subscribed(s.hub, id); }
      }
      SubPublish(s.pumps[id], c, s.published, ev);
    }
  }

  lemma SubscribeKeeps(s: State, card: nat)
    requires Inv(s)
    ensures Inv(Next(s, DoSubscribe(card)))
  {
    hide SubOk;
    SubscribeOk(s.hub, card);
    SubStarts(card, s.published);
  }

  lemma ReleaseKeeps(s: State, id: nat)
    requires Inv(s)
    ensures Inv(Next(s, Release(id)))
  {
    hide SubOk;
    UnsubscribeOk(s.hub, id);
    if id in s.pumps && Subscribed(s.hub, id) { SubReleases(s.pumps[id], s.hub.chans[id], s.published); }
  }

  lemma PumpKeeps(s: State, step: Step)
    requires Inv(s) && (step.PumpTake? || step.PumpGive? || step.PumpExit? || step.ClientReceive? || step.CloseDone?)
    ensures Inv(Next(s, step))
  {
    hide SubOk, HubOk;
    var id, s' := step.id, Next(s, step);
    if id in s.pumps {
      var p, c, q, d := s.pumps[id], s.hub.chans[id], s'.pumps[id], s'.hub.chans[id];
      PumpStep(s, step, p, c, q, d);
      if step.PumpTake? && c.buffer != [] { TakeKeepsHub(s.hub, id); }
    }
  }

  lemma TakeKeepsHub(h: Hub, id: nat)
    requires HubOk(h) && id in h.chans && h.chans[id].buffer != []
    ensures HubOk(h.(chans := h.chans[id := h.chans[id].(buffer := h.chans[id].buffer[1..])]))
  {
    var h' := h.(chans := h.chans[id := h.chans[id].(buffer := h.chans[id].buffer[1..])]);
    forall i | i in h'.chans && !h'.chans[i].closed ensures Subscribed(h', i) { assert Subscribed(h, i); }
  }

  lemma OutFits(p: Pump, c: Chan, published: seq<Event>)
    requires SubOk(p, c, published)
    ensures |p.out| <= BUFFER && (p.exited ==> p.hand.None?)
  {
  }

  lemma PumpStep(s: State, step: Step, p: Pump, c: Chan, q: Pump, d: Chan)
    requires step.PumpTake? || step.PumpGive? || step.PumpExit? || step.ClientReceive? || step.CloseDone?
    requires step.id in s.pumps && step.id in s.hub.chans && p == s.pumps[step.id] && c == s.hub.chans[step.id]
    requires SubOk(p, c, s.published)
    requires q == Next(s, step).pumps[step.id] && d == Next(s, step).hub.chans[step.id]
    ensures SubOk(q, d, s.published)
  {
    hide SubOk;
    OutFits(p, c, s.published);
    if step.PumpGive? && !p.exited && p.hand.Some? && |p.out| >= BUFFER {
      SubLosesHand(p, c, q, s.published);
    } else if step.PumpExit? && q.exited && p.hand.Some? {
      SubLosesHand(p, c, q, s.published);
    } else {
      assert Flow(q, d) == Flow(p, c);
      SubMoves(p, c, q, d, s.published);
    }
  }

  lemma StepKeeps(s: State, step: Step)
    requires Inv(s)
    ensures Inv(Next(s, step))
  {
    hide Inv, Next;
    match step
    case DoSubscribe(card) => SubscribeKeeps(s, card);
    case DoPublish(ev) => PublishKeeps(s, ev);
    case Release(id) => ReleaseKeeps(s, id);
    case _ => PumpKeeps(s, step);
  }

  /** The invariant holds after every interleaving. */
  lemma {:induction false} RunKeeps(steps: seq<Step>)
    ensures Inv(Run(steps))
  {
    hide Next;
    if steps != [] {
      RunKeeps(steps[..|steps| - 1]);
      StepKeeps(Run(steps[..|steps| - 1]), steps[|steps| - 1]);
    }
  }

  /** What the invariant says of one client. */
  lemma InvReceives(s: State, id: nat)
    requires Inv(s) && id in s.pumps
    ensures id in s.hub.chans
    ensures var p, c := s.pumps[id], s.hub.chans[id];
      && Span(p, s.published)
      && Subsequence(p.received, Offered(p, s.published, c.card))
      && Subsequence(Flow(p, c), Offered(p, s.published, c.card))
      && (!p.done ==> |Flow(p, c)| + p.skipped == |Offered(p, s.published, c.card)|)
      && (!p.done && |Offered(p, s.published, c.card)| <= BUFFER ==> Flow(p, c) == Offered(p, s.published, c.card))
      && |p.out| <= BUFFER && |c.buffer| <= BUFFER
  {
    hide Offered, Subsequence;
    var p, c := s.pumps[id], s.hub.chans[id];
    var rest := p.out + (if p.hand.Some? then [p.hand.value] else []) + c.buffer;
    assert Flow(p, c) == p.received + rest;
    SubsequencePrefix(p.received, rest, Offered(p, s.published, c.card));
  }

  /** In every interleaving a client has received an in-order subsequence of what was
      published for its card while it was subscribed; until it unsubscribes, what it
      has received, what is on its way and what a full buffer skipped add up to all of
      it, and up to 64 events nothing is lost. */
  lemma ClientReceives(steps: seq<Step>, id: nat)
    requires id in Run(steps).pumps
    ensures id in Run(steps).hub.chans
    ensures var s := Run(steps);
      var p, c := s.pumps[id], s.hub.chans[id];
      && Span(p, s.published)
      && Subsequence(p.received, Offered(p, s.published, c.card))
      && Subsequence(Flow(p, c), Offered(p, s.published, c.card))
      && (!p.done ==> |Flow(p, c)| + p.skipped == |Offered(p, s.published, c.card)|)
      && (!p.done && |Offered(p, s.published, c.card)| <= 64 ==> Flow(p, c) == Offered(p, s.published, c.card))
      && |p.out| <= 64 && |c.buffer| <= 64
  {
    hide Run, Offered, Subsequence, Inv, Span, Flow;
    RunKeeps(steps);
    InvReceives(Run(steps), id);
  }

  /** No publication of any interleaving reaches a closed channel, no channel is
      closed twice, and cards without subscribers leave no entry. */
  lemma NoSendToClosed(steps: seq<Step>, ev: Event, id: nat)
    ensures id in Listeners(Run(steps).hub, ev.card) ==> id in Run(steps).hub.chans && !Run(steps).hub.chans[id].closed
    ensures Subscribed(Run(steps).hub, id) ==> !Run(steps).hub.chans[id].closed
    ensures forall card :: card in Run(steps).hub.subs ==> Run(steps).hub.subs[card] != {}
  {
    hide Run;
    RunKeeps(steps);
  }

  /** A step skips at most one event of a subscriber, and only at a full buffer. */
  lemma SkipsOnlyWhenFull(s: State, step: Step, id: nat)
    requires Inv(s) && id in s.pumps
    ensures id in Next(s, step).pumps
    ensures var p, q := s.pumps[id], Next(s, step).pumps[id];
      && p.skipped <= q.skipped <= p.skipped + 1
      && (q.skipped > p.skipped ==> |s.hub.chans[id].buffer| == 64 || |p.out| == 64)
  {
    hide SubOk, Next;
    assert SubOk(s.pumps[id], s.hub.chans[id], s.published);
    OutFits(s.pumps[id], s.hub.chans[id], s.published);
    match step
    case DoPublish(ev) => PublishSkips(s, ev, id);
    case DoSubscribe(card) => SubscribeSkips(s, card, id);
    case _ => OwnSkips(s, step, id);
  }

  lemma PublishSkips(s: State, ev: Event, id: nat)
    requires id in s.pumps && id in s.hub.chans && |s.hub.chans[id].buffer| <= BUFFER
    ensures id in Next(s, DoPublish(ev)).pumps
    ensures var p, q := s.pumps[id], Next(s, DoPublish(ev)).pumps[id];
      q.skipped == p.skipped || (q.skipped == p.skipped + 1 && |s.hub.chans[id].buffer| == 64)
  {
  }

  lemma SubscribeSkips(s: State, card: nat, id: nat)
    requires id in s.pumps && id <= s.hub.nextId
    ensures id in Next(s, DoSubscribe(card)).pumps && Next(s, DoSubscribe(card)).pumps[id] == s.pumps[id]
  {
  }

  lemma OwnSkips(s: State, step: Step, id: nat)
    requires id in s.pumps && !step.DoPublish? && !step.DoSubscribe? && |s.pumps[id].out| <= BUFFER
    ensures id in Next(s, step).pumps
    ensures var p, q := s.pumps[id], Next(s, step).pumps[id];
      q.skipped == p.skipped || (q.skipped == p.skipped + 1 && |p.out| == 64)
  {
    hide Unsubscribe, Subscribed;
  }

  /** What a step does to the events on their way to a client: a publication for its card
      is added behind them unless the channel holds 64; the pump loses the one in its hand
      when the out channel holds 64 or the subscription is done; nothing else is lost or
      overtaken, and what the client has received stays. */
  lemma StepMoves(s: State, step: Step, id: nat)
    requires Inv(s) && id in s.pumps
    ensures id in Next(s, step).pumps && id in s.hub.chans && id in Next(s, step).hub.chans
    ensures var p, c, q, d := s.pumps[id], s.hub.chans[id], Next(s, step).pumps[id], Next(s, step).hub.chans[id];
      && p.received <= q.received && (q.done <==> p.done || step == CloseDone(id))
      && (if step.DoPublish? then
            Flow(q, d) == Flow(p, c) +
              if step.ev.card == c.card && !c.closed && |c.buffer| < 64 then [step.ev] else []
          else
            || Flow(q, d) == Flow(p, c)
            || (step in {PumpGive(id), PumpExit(id)} && p.hand.Some? && (p.done || |p.out| == 64)
                 && Flow(q, d) == p.received + p.out + c.buffer))
  {
    hide SubOk, Offered, Subsequence;
    var p, c, q, d := s.pumps[id], s.hub.chans[id], Next(s, step).pumps[id], Next(s, step).hub.chans[id];
    assert id <= s.hub.nextId;
    assert SubOk(p, c, s.published);
    OutFits(p, c, s.published);
    match step
    case DoPublish(ev) =>
      assert id in Listeners(s.hub, ev.card) <==> !c.closed && ev.card == c.card by {
        if !c.closed { assert Subscribed(s.hub, id); }
      }
      if d != c { assert Flow(q, d) == Flow(p, c) + [ev]; }
    case DoSubscribe(_) =>
    case Release(_) => assert Flow(q, d) == Flow(p, c);
    case _ => OwnStep(s, step, id);
  }

  lemma OwnStep(s: State, step: Step, id: nat)
    requires step.PumpTake? || step.PumpGive? || step.PumpExit? || step.ClientReceive? || step.CloseDone?
    requires id in s.pumps && id in s.hub.chans && |s.pumps[id].out| <= BUFFER
    ensures var p, c, q, d := s.pumps[id], s.hub.chans[id], Next(s, step).pumps[id], Next(s, step).hub.chans[id];
      && p.received <= q.received && (q.done <==> p.done || step == CloseDone(id))
      && (|| Flow(q, d) == Flow(p, c)
          || (step in {PumpGive(id), PumpExit(id)} && p.hand.Some? && (p.done || |p.out| == 64)
               && Flow(q, d) == p.received + p.out + c.buffer))
  {
    var p, c := s.pumps[id], s.hub.chans[id];
    if step.id == id {
      match step
      case PumpTake(_) => TakeKeepsFlow(p, c);
      case ClientReceive(_) => ReceiveKeepsFlow(p, c);
      case PumpGive(_) => if p.hand.Some? && |p.out| < 64 { GiveKeepsFlow(p, c); }
      case _ =>
    }
  }

  lemma TakeKeepsFlow(p: Pump, c: Chan)
    ensures p.hand.None? && c.buffer != [] ==>
      Flow(p.(hand := Some(c.buffer[0])), c.(buffer := c.buffer[1..])) == Flow(p, c)
  {
  }

  lemma ReceiveKeepsFlow(p: Pump, c: Chan)
    ensures p.out != [] ==> Flow(p.(received := p.received + [p.out[0]], out := p.out[1..]), c) == Flow(p, c)
  {
  }

  lemma GiveKeepsFlow(p: Pump, c: Chan)
    ensures p.hand.Some? ==> Flow(p.(out := p.out + [p.hand.value], hand := None), c) == Flow(p, c)
  {
  }
}
