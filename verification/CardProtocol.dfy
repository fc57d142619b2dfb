/** Concurrent PatchCard calls, split into the steps that other calls can come
    between: reading and validating a row, the compare-and-swap, reading the row
    back, and each event append. Any of these can fail in the store, which ends the
    call. The invariant below holds in every interleaving. */
module CardProtocol {
  import opened Wrappers
  import opened CardStore
  import opened Sums

  /** A call that has read and validated, one that has swapped its own row in, one
      that has read a row back and still owes events, one that has returned (a row
      or an error) and the events it never logged. */
  datatype Call =
    | Pending(card: nat, expected: int, patch: Patch, snapshot: Card, lifecycle: Option<Kind>)
    | Swapped(card: nat, own: Card, owed: seq<Kind>)
    | Owing(card: nat, row: Card, owed: seq<Kind>)
    | Done(returned: Option<Card>, lost: seq<Kind>)

  const REFUSED := Done(None, [])

  /** A swap that went through. */
  datatype Applied = Applied(call: nat, card: nat, patch: Patch, before: Card, after: Card)

  datatype State = State(cards: map<nat, Card>, calls: map<nat, Call>, events: seq<Event>, history: seq<Applied>)

  const INITIAL := State(map[], map[], [], [])

  datatype Step =
    | Create(card: nat, data: string, actions: string, contextHash: string, now: int)
    | Begin(call: nat, card: nat, expected: int, patch: Patch)
    | Swap(call: nat, now: int)
    | ReadBack(call: nat)
    | Append(call: nat)
    | Fail(call: nat)

  /** A step that is not enabled changes nothing. */
  function Next(s: State, step: Step): State {
    match step
    case Create(card, data, actions, contextHash, now) =>
      if card in s.cards then s else s.(cards := s.cards[card := NewCard(data, actions, contextHash, now)])
    case Begin(call, card, expected, patch) =>
      if call in s.calls then s
      else if card !in s.cards then s.(calls := s.calls[call := REFUSED])
      else
        var v := Validate(s.cards[card], expected, patch);
        s.(calls := s.calls[call :=
          if v.Failure? then REFUSED else Pending(card, expected, patch, s.cards[card], v.value)])
    case Swap(call, now) =>
      if call !in s.calls || !s.calls[call].Pending? || s.calls[call].card !in s.cards then s
      else
        var c := s.calls[call];
        if s.cards[c.card].revision != c.expected then s.(calls := s.calls[call := REFUSED])
        else
          var row := PatchRow(s.cards[c.card], c.patch, now);
          s.(cards := s.cards[c.card := row],
             calls := s.calls[call := Swapped(c.card, row, EventsFor(c.lifecycle, c.patch))],
             history := s.history + [Applied(call, c.card, c.patch, s.cards[c.card], row)])
    case ReadBack(call) =>
      if call !in s.calls || !s.calls[call].Swapped? || s.calls[call].card !in s.cards then s
      else
        var c := s.calls[call];
        s.(calls := s.calls[call := Owing(c.card, s.cards[c.card], c.owed)])
    case Append(call) =>
      if call !in s.calls || !s.calls[call].Owing? then s
      else
        var c := s.calls[call];
        if c.owed == [] then s.(calls := s.calls[call := Done(Some(c.row), [])])
        else s.(calls := s.calls[call := c.(owed := c.owed[1..])],
                events := s.events + [Event(|s.events| + 1, c.card, c.owed[0], call)])
    case Fail(call) =>
      if call !in s.calls || s.calls[call].Pending? then s.(calls := s.calls[call := REFUSED])
      else if LateFailure(s, step) then s.(calls := s.calls[call := Done(None, s.calls[call].owed)])
      else s
  }

  /** The step is a read-back or an append that the store refuses: an operation of a
      call that has swapped. */
  predicate LateFailure(s: State, step: Step) {
    step.Fail? && step.call in s.calls &&
      (s.calls[step.call].Swapped? || (s.calls[step.call].Owing? && s.calls[step.call].owed != []))
  }

  function Run(steps: seq<Step>): State
  {
    if steps == [] then INITIAL else Next(Run(steps[..|steps| - 1]), steps[|steps| - 1])
  }

  // --- The invariant ---------------------------------------------------------------

  /** Swaps applied to a card. */
  function Swaps(history: seq<Applied>, card: nat): nat
  {
    if history == [] then 0 else
      Swaps(history[..|history| - 1], card) + (if history[|history| - 1].card == card then 1 else 0)
  }

  /** Event kinds a call has logged, in order. */
  function LoggedBy(events: seq<Event>, call: nat): seq<Kind>
  {
    if events == [] then [] else
      var last := events[|events| - 1];
      LoggedBy(events[..|events| - 1], call) + (if last.call == call then [last.kind] else [])
  }

  /** Event kinds the swaps of a call promised. */
  function PromisedBy(history: seq<Applied>, call: nat): seq<Kind>
  {
    if history == [] then [] else
      var h := history[|history| - 1];
      PromisedBy(history[..|history| - 1], call) +
      (if h.call != call then [] else
         var v := Validate(h.before, h.before.revision, h.patch);
         if v.Failure? then [] else EventsFor(v.value, h.patch))
  }

  /** What a call has not logged of what its swap promised. */
  function Unlogged(calls: map<nat, Call>, call: nat): seq<Kind> {
    if call !in calls then [] else match calls[call]
      case Pending(_, _, _, _, _) => []
      case Swapped(_, _, owed) => owed
      case Owing(_, _, owed) => owed
      case Done(_, lost) => lost
  }

  ghost predicate CardsOk(s: State) {
    forall id :: id in s.cards ==> StampsAgree(s.cards[id]) && s.cards[id].revision == 1 + Swaps(s.history, id)
  }

  /** A pending call still holds what it validated: as long as the revision has not
      moved, neither has the row. */
  ghost predicate PendingOk(s: State) {
    forall k :: k in s.calls && s.calls[k].Pending? ==>
      var c := s.calls[k];
      && c.card in s.cards && c.expected <= s.cards[c.card].revision
      && (c.expected == s.cards[c.card].revision ==> s.cards[c.card] == c.snapshot)
      && Validate(c.snapshot, c.expected, c.patch) == Success(c.lifecycle)
  }

  /** Every swap was validated on the very row it replaced, at a revision equal to
      one plus the number of swaps before it. */
  ghost predicate HistoryOk(s: State) {
    forall i :: 0 <= i < |s.history| ==>
      var h := s.history[i];
      && Validate(h.before, h.before.revision, h.patch).Success?
      && h.before.revision == 1 + Swaps(s.history[..i], h.card)
      && h.card in s.cards && h.call in s.calls && !s.calls[h.call].Pending?
      && exists now :: h.after == PatchRow(h.before, h.patch, now)
  }

  /** What a call logged and what it did not log is what its swap promised; only a
      swap promises anything, and a success has logged it all. */
  ghost predicate LogOk(s: State) {
    && Sequenced(s.events) && OutcomesOk(s)
    && forall k :: LoggedBy(s.events, k) + Unlogged(s.calls, k) == PromisedBy(s.history, k)
  }

  ghost predicate OutcomesOk(s: State) {
    && (forall k :: k !in s.calls || s.calls[k].Pending? || s.calls[k] == REFUSED ==> PromisedBy(s.history, k) == [])
    && (forall k :: k in s.calls && s.calls[k].Done? && s.calls[k].returned.Some? ==> s.calls[k].lost == [])
    && (forall k :: k in s.calls && s.calls[k].Swapped? ==> s.calls[k].owed != [])
  }

  /** The last swap of a card left the row that is stored. */
  ghost predicate Current(history: seq<Applied>, cards: map<nat, Card>) {
    forall i :: 0 <= i < |history| && LastOf(history, i) ==>
      history[i].card in cards && cards[history[i].card] == history[i].after
  }

  /** No other swap of the card came after swap i. */
  ghost predicate LastOf(history: seq<Applied>, i: nat)
    requires i < |history|
  {
    forall j :: i < j < |history| ==> history[j].card != history[i].card
  }

  ghost predicate SwapOf(history: seq<Applied>, call: nat, card: nat, own: Card, i: nat) {
    i < |history| && history[i].call == call && history[i].card == card && history[i].after == own
  }

  /** The row is the call's own or a later one. */
  ghost predicate OwnOrLater(history: seq<Applied>, call: nat, row: Card) {
    exists i :: 0 <= i < |history| && history[i].call == call && history[i].after.revision <= row.revision
      && (row.revision == history[i].after.revision ==> row == history[i].after)
  }

  ghost predicate CallReads(history: seq<Applied>, k: nat, c: Call) {
    match c
    case Pending(_, _, _, _, _) => true
    case Swapped(card, own, _) => exists i :: SwapOf(history, k, card, own, i)
    case Owing(_, row, _) => OwnOrLater(history, k, row)
    case Done(returned, _) => returned.Some? ==> OwnOrLater(history, k, returned.value)
  }

  ghost predicate ReadsOk(s: State) {
    Current(s.history, s.cards) && forall k :: k in s.calls ==> CallReads(s.history, k, s.calls[k])
  }

  ghost predicate Inv(s: State) { CardsOk(s) && PendingOk(s) && HistoryOk(s) && LogOk(s) && ReadsOk(s) }

  lemma SwapsSnoc(history: seq<Applied>, h: Applied, card: nat)
    ensures Swaps(history + [h], card) == Swaps(history, card) + (if h.card == card then 1 else 0)
  {
    assert (history + [h])[..|history|] == history;
  }

  lemma LoggedSnoc(events: seq<Event>, e: Event, call: nat)
    ensures LoggedBy(events + [e], call) == LoggedBy(events, call) + (if e.call == call then [e.kind] else [])
  {
    assert (events + [e])[..|events|] == events;
  }

  lemma PromisedSnoc(history: seq<Applied>, h: Applied, call: nat, lifecycle: Option<Kind>)
    requires Validate(h.before, h.before.revision, h.patch) == Success(lifecycle)
    ensures PromisedBy(history + [h], call) ==
      PromisedBy(history, call) + (if h.call == call then EventsFor(lifecycle, h.patch) else [])
  {
    assert (history + [h])[..|history|] == history;
  }

  /** A swap applies exactly the transition its call validated. */
  lemma SwapApplies(s: State, call: nat, now: int)
    requires Inv(s) && call in s.calls && s.calls[call].Pending?
    requires s.cards[s.calls[call].card].revision == s.calls[call].expected
    ensures var c, s' := s.calls[call], Next(s, Swap(call, now));
      && Validate(s.cards[c.card], c.expected, c.patch) == Success(c.lifecycle)
      && s'.cards == s.cards[c.card := PatchRow(s.cards[c.card], c.patch, now)]
      && s'.events == s.events
      && s'.history == s.history +
        [Applied(call, c.card, c.patch, s.cards[c.card], PatchRow(s.cards[c.card], c.patch, now))]
      && s'.calls ==
        s.calls[call := Swapped(c.card, PatchRow(s.cards[c.card], c.patch, now), EventsFor(c.lifecycle, c.patch))]
      && EventsFor(c.lifecycle, c.patch) != []
  {
  }

  lemma SwapKeepsCards(s: State, call: nat, now: int)
    requires Inv(s) && call in s.calls && s.calls[call].Pending?
    requires s.cards[s.calls[call].card].revision == s.calls[call].expected
    ensures CardsOk(Next(s, Swap(call, now)))
  {
    hide Validate, PatchRow, Swaps, HistoryOk, LogOk, StampsAgree, ReadsOk;
    var c, s' := s.calls[call], Next(s, Swap(call, now));
    SwapApplies(s, call, now);
    ValidPatchKeepsStamps(s.cards[c.card], c.expected, c.patch, now);
    forall id | id in s'.cards ensures StampsAgree(s'.cards[id]) && s'.cards[id].revision == 1 + Swaps(s'.history, id) {
      SwapsSnoc(s.history, s'.history[|s.history|], id);
    }
  }

  lemma SwapKeepsPending(s: State, call: nat, now: int)
    requires Inv(s) && call in s.calls && s.calls[call].Pending?
    requires s.cards[s.calls[call].card].revision == s.calls[call].expected
    ensures PendingOk(Next(s, Swap(call, now)))
  {
    hide Validate, Swaps, HistoryOk, LogOk, CardsOk, ReadsOk;
    SwapApplies(s, call, now);
  }

  lemma SwapKeepsHistory(s: State, call: nat, now: int)
    requires Inv(s) && call in s.calls && s.calls[call].Pending?
    requires s.cards[s.calls[call].card].revision == s.calls[call].expected
    ensures HistoryOk(Next(s, Swap(call, now)))
  {
    hide Validate, PatchRow, Swaps, ReadsOk, LogOk;
    var c, s' := s.calls[call], Next(s, Swap(call, now));
    SwapApplies(s, call, now);
    forall i | 0 <= i < |s'.history|
      ensures var h := s'.history[i];
        && Validate(h.before, h.before.revision, h.patch).Success?
        && h.before.revision == 1 + Swaps(s'.history[..i], h.card)
        && h.card in s'.cards && h.call in s'.calls && !s'.calls[h.call].Pending?
        && exists now :: h.after == PatchRow(h.before, h.patch, now)
    {
      assert s'.history[..i] == s.history[..i];
      assert s.history[..|s.history|] == s.history;
      if i < |s.history| { assert s'.history[i] == s.history[i]; }
    }
  }

  lemma SwapKeepsLog(s: State, call: nat, now: int)
    requires Inv(s) && call in s.calls && s.calls[call].Pending?
    requires s.cards[s.calls[call].card].revision == s.calls[call].expected
    ensures LogOk(Next(s, Swap(call, now)))
  {
    hide Validate, PatchRow, Swaps, EventsFor, LoggedBy, PromisedBy, CardsOk, HistoryOk, ReadsOk;
    var c, s' := s.calls[call], Next(s, Swap(call, now));
    SwapApplies(s, call, now);
    var h := s'.history[|s.history|];
    forall k
      ensures LoggedBy(s'.events, k) + Unlogged(s'.calls, k) == PromisedBy(s'.history, k)
      ensures k !in s'.calls || s'.calls[k].Pending? || s'.calls[k] == REFUSED ==> PromisedBy(s'.history, k) == []
    {
      PromisedSnoc(s.history, h, k, c.lifecycle);
      assert LoggedBy(s.events, k) + Unlogged(s.calls, k) == PromisedBy(s.history, k);
    }
  }

  lemma SwapKeepsReads(s: State, call: nat, now: int)
    requires Inv(s) && call in s.calls && s.calls[call].Pending?
    requires s.cards[s.calls[call].card].revision == s.calls[call].expected
    ensures ReadsOk(Next(s, Swap(call, now)))
  {
    hide Validate, PatchRow, Swaps, EventsFor, CardsOk, LogOk;
    var c, s' := s.calls[call], Next(s, Swap(call, now));
    SwapApplies(s, call, now);
    var h := s'.history[|s.history|];
    assert SwapOf(s'.history, call, c.card, h.after, |s.history|);
    forall k | k in s.calls && k != call
      ensures CallReads(s'.history, k, s.calls[k])
    {
      ReadsStay(s.history, h, k, s.calls[k]);
    }
    forall i | 0 <= i < |s'.history| && LastOf(s'.history, i)
      ensures s'.history[i].card in s'.cards && s'.cards[s'.history[i].card] == s'.history[i].after
    {
      if i < |s.history| {
        assert s'.history[|s.history|].card != s'.history[i].card;
        forall j | i < j < |s.history|
          ensures s.history[j].card != s.history[i].card
        {
          assert s'.history[j] == s.history[j];
        }
        assert LastOf(s.history, i);
      }
    }
  }

  lemma ReadsStay(history: seq<Applied>, h: Applied, k: nat, c: Call)
    requires CallReads(history, k, c)
    ensures CallReads(history + [h], k, c)
  {
    var more := history + [h];
    forall i | 0 <= i < |history| ensures more[i] == history[i] { }
    match c
    case Pending(_, _, _, _, _) =>
    case Swapped(card, own, _) =>
      var i :| SwapOf(history, k, card, own, i);
      assert SwapOf(more, k, card, own, i);
    case Owing(_, row, _) => LaterStays(history, h, k, row);
    case Done(returned, _) => if returned.Some? { LaterStays(history, h, k, returned.value); }
  }

  lemma LaterStays(history: seq<Applied>, h: Applied, k: nat, row: Card)
    requires OwnOrLater(history, k, row)
    ensures OwnOrLater(history + [h], k, row)
  {
    var i :| 0 <= i < |history| && history[i].call == k && history[i].after.revision <= row.revision
      && (row.revision == history[i].after.revision ==> row == history[i].after);
    assert (history + [h])[i] == history[i];
  }

  lemma SwapKeeps(s: State, call: nat, now: int)
    requires Inv(s)
    ensures Inv(Next(s, Swap(call, now)))
  {
    hide Validate, PatchRow, Swaps, EventsFor, LoggedBy, PromisedBy, ReadsOk;
    if call in s.calls && s.calls[call].Pending? {
      var c := s.calls[call];
      if s.cards[c.card].revision == c.expected {
        SwapKeepsCards(s, call, now);
        SwapKeepsPending(s, call, now);
        SwapKeepsHistory(s, call, now);
        SwapKeepsLog(s, call, now);
        SwapKeepsReads(s, call, now);
      } else {
        CallOnly(s, call, REFUSED);
      }
    }
  }

  /** Recording the refusal of a new or pending call keeps the invariant. */
  lemma CallOnly(s: State, call: nat, c: Call)
    requires Inv(s) && (call !in s.calls || s.calls[call].Pending?)
    requires c == REFUSED || (c.Pending? && call !in s.calls && c.card in s.cards
      && c.snapshot == s.cards[c.card] && c.expected == c.snapshot.revision
      && Validate(c.snapshot, c.expected, c.patch) == Success(c.lifecycle))
    ensures Inv(s.(calls := s.calls[call := c]))
  {
    hide Validate, PatchRow, Swaps, EventsFor, LoggedBy, PromisedBy, Current, CallReads, Sequenced;
    var s' := s.(calls := s.calls[call := c]);
    SilentReads(s.history, call, c);
    assert HistoryOk(s') by {
      forall i | 0 <= i < |s.history| ensures s.history[i].call in s'.calls && !s'.calls[s.history[i].call].Pending? {
        assert s.history[i].call in s.calls && !s.calls[s.history[i].call].Pending?;
      }
    }
    forall k ensures LoggedBy(s'.events, k) + Unlogged(s'.calls, k) == PromisedBy(s'.history, k) {
      assert Unlogged(s'.calls, k) == Unlogged(s.calls, k);
    }
  }

  lemma SilentReads(history: seq<Applied>, call: nat, c: Call)
    requires c.Pending? || c == REFUSED
    ensures CallReads(history, call, c)
  {
  }

  lemma AppendKeepsSum(s: State, call: nat, k: nat)
    requires call in s.calls && s.calls[call].Owing?
    ensures var s' := Next(s, Append(call));
      LoggedBy(s'.events, k) + Unlogged(s'.calls, k) == LoggedBy(s.events, k) + Unlogged(s.calls, k)
  {
    hide LoggedBy, Validate, PatchRow, EventsFor;
    var c, s' := s.calls[call], Next(s, Append(call));
    if c.owed != [] {
      var e := Event(|s.events| + 1, c.card, c.owed[0], call);
      assert s'.events == s.events + [e];
      LoggedSnoc(s.events, e, k);
      if k == call {
        assert [c.owed[0]] + c.owed[1..] == c.owed;
        assert LoggedBy(s.events, k) + [c.owed[0]] + c.owed[1..] == LoggedBy(s.events, k) + c.owed;
      } else {
        assert LoggedBy(s.events, k) + [] == LoggedBy(s.events, k);
      }
    }
  }

  lemma AppendKeepsOutcomes(s: State, call: nat)
    requires OutcomesOk(s) && Sequenced(s.events) && call in s.calls && s.calls[call].Owing?
    ensures var s' := Next(s, Append(call)); OutcomesOk(s') && Sequenced(s'.events) && s'.history == s.history
  {
    hide PromisedBy, Validate, PatchRow, EventsFor;
  }

  lemma AppendKeepsLog(s: State, call: nat)
    requires Inv(s) && call in s.calls && s.calls[call].Owing?
    ensures LogOk(Next(s, Append(call)))
  {
    hide LoggedBy, PromisedBy, CardsOk, PendingOk, HistoryOk, ReadsOk, Unlogged, Next, Sequenced;
    var s' := Next(s, Append(call));
    AppendKeepsOutcomes(s, call);
    forall k ensures LoggedBy(s'.events, k) + Unlogged(s'.calls, k) == PromisedBy(s.history, k) {
      AppendKeepsSum(s, call, k);
      assert LoggedBy(s.events, k) + Unlogged(s.calls, k) == PromisedBy(s.history, k);
    }
  }

  /** A step that only moves one call on, within the history it has. */
  lemma MoveKeeps(s: State, s': State, call: nat)
    requires Inv(s) && call in s.calls && !s.calls[call].Pending?
    requires s'.cards == s.cards && s'.history == s.history && s'.calls.Keys == s.calls.Keys && !s'.calls[call].Pending?
    requires forall k :: k in s.calls && k != call ==> s'.calls[k] == s.calls[k]
    requires CallReads(s.history, call, s'.calls[call]) && LogOk(s')
    ensures Inv(s')
  {
    hide Validate, PatchRow, Swaps, LogOk, CallReads, Current;
    forall i | 0 <= i < |s.history| ensures s.history[i].call in s'.calls && !s'.calls[s.history[i].call].Pending? {
      assert s.history[i].call in s.calls && !s.calls[s.history[i].call].Pending?;
    }
  }

  lemma AppendKeeps(s: State, call: nat)
    requires Inv(s)
    ensures Inv(Next(s, Append(call)))
  {
    hide Validate, PatchRow, Swaps, LogOk;
    if call in s.calls && s.calls[call].Owing? {
      AppendKeepsLog(s, call);
      assert CallReads(s.history, call, s.calls[call]);
      MoveKeeps(s, Next(s, Append(call)), call);
    }
  }

  /** Nothing is logged, and what the call owes stays what it has not logged. */
  lemma SilentLog(s: State, s': State, call: nat)
    requires LogOk(s) && call in s.calls && !s.calls[call].Pending? && s.calls[call] != REFUSED
    requires s'.events == s.events && s'.history == s.history && s'.calls.Keys == s.calls.Keys
    requires forall k :: k in s.calls && k != call ==> s'.calls[k] == s.calls[k]
    requires Unlogged(s'.calls, call) == Unlogged(s.calls, call)
    requires (s'.calls[call].Owing? || s'.calls[call] == Done(None, Unlogged(s.calls, call)))
      && s'.calls[call] != REFUSED
    ensures LogOk(s')
  {
    hide LoggedBy, PromisedBy, Sequenced;
    forall k ensures LoggedBy(s'.events, k) + Unlogged(s'.calls, k) == PromisedBy(s'.history, k) {
      assert LoggedBy(s.events, k) + Unlogged(s.calls, k) == PromisedBy(s.history, k);
      assert Unlogged(s'.calls, k) == Unlogged(s.calls, k);
    }
  }

  lemma FailKeeps(s: State, call: nat)
    requires Inv(s)
    ensures Inv(Next(s, Fail(call)))
  {
    hide Validate, PatchRow, Swaps, LoggedBy, PromisedBy, HistoryOk, ReadsOk;
    var s' := Next(s, Fail(call));
    if call !in s.calls || s.calls[call].Pending? {
      CallOnly(s, call, REFUSED);
    } else if LateFailure(s, Fail(call)) {
      SilentLog(s, s', call);
      MoveKeeps(s, s', call);
    }
  }

  lemma RevisionAfter(s: State, i: nat)
    requires HistoryOk(s) && i < |s.history|
    ensures var h := s.history[i];
      h.after.revision == h.before.revision + 1 == 1 + Swaps(s.history[..i + 1], h.card)
  {
    hide Validate, Swaps;
    assert s.history[..i + 1] == s.history[..i] + [s.history[i]];
    SwapsSnoc(s.history[..i], s.history[i], s.history[i].card);
  }

  /** The stored row of a card after a swap of it: the row of that swap when no other
      swap of the card came in between, and otherwise one of a later revision. */
  lemma StoredRow(s: State, i: nat)
    requires CardsOk(s) && HistoryOk(s) && Current(s.history, s.cards) && i < |s.history|
    ensures var h := s.history[i];
      && h.card in s.cards && h.after.revision <= s.cards[h.card].revision
      && (s.cards[h.card] == h.after <==> LastOf(s.history, i))
      && (s.cards[h.card].revision == h.after.revision <==> LastOf(s.history, i))
  {
    hide Swaps, HistoryOk, CardsOk, Current, LastOf;
    var h := s.history[i];
    SwapIsStored(s, i);
    RevisionAfter(s, i);
    SwapsGrow(s.history, i + 1, h.card);
    if !LastOf(s.history, i) {
      var j := LaterSwap(s.history, i);
      HistoryRises(s, i, j);
      RevisionAfter(s, j);
      SwapsGrow(s.history, j + 1, h.card);
    }
  }

  lemma SwapIsStored(s: State, i: nat)
    requires CardsOk(s) && HistoryOk(s) && Current(s.history, s.cards) && i < |s.history|
    ensures var card := s.history[i].card;
      && card in s.cards && s.cards[card].revision == 1 + Swaps(s.history, card)
      && (LastOf(s.history, i) ==> s.cards[card] == s.history[i].after)
  {
    hide Swaps, Validate, StampsAgree, LastOf;
  }

  lemma LaterSwap(history: seq<Applied>, i: nat) returns (j: nat)
    requires i < |history| && !LastOf(history, i)
    ensures i < j < |history| && history[j].card == history[i].card
  {
    j :| i < j < |history| && history[j].card == history[i].card;
  }

  lemma ReadBackKeeps(s: State, call: nat)
    requires Inv(s)
    ensures Inv(Next(s, ReadBack(call)))
  {
    hide Validate, PatchRow, Swaps, LoggedBy, PromisedBy, HistoryOk, CardsOk;
    var s' := Next(s, ReadBack(call));
    if call in s.calls && s.calls[call].Swapped? && s.calls[call].card in s.cards {
      var c := s.calls[call];
      assert CallReads(s.history, call, c);
      var i :| SwapOf(s.history, call, c.card, c.own, i);
      StoredRow(s, i);
      assert OwnOrLater(s.history, call, s.cards[c.card]);
      SilentLog(s, s', call);
      MoveKeeps(s, s', call);
    }
  }

  lemma CreateKeeps(s: State, card: nat, data: string, actions: string, contextHash: string, now: int)
    requires Inv(s)
    ensures Inv(Next(s, Create(card, data, actions, contextHash, now)))
  {
    hide Validate, PatchRow, EventsFor, LoggedBy, PromisedBy, Swaps, LogOk, CallReads;
    if card !in s.cards {
      var s' := Next(s, Create(card, data, actions, contextHash, now));
      SameLog(s, s');
      assert Swaps(s.history, card) == 0 by {
        forall i | 0 <= i < |s.history| ensures s.history[i].card != card { assert s.history[i].card in s.cards; }
        NoSwaps(s.history, card);
      }
    }
  }

  lemma SameLog(s: State, s': State)
    requires LogOk(s) && s'.events == s.events && s'.calls == s.calls && s'.history == s.history
    ensures LogOk(s')
  {
  }

  lemma {:induction false} NoSwaps(history: seq<Applied>, card: nat)
    requires forall i :: 0 <= i < |history| ==> history[i].card != card
    ensures Swaps(history, card) == 0
  {
    if history != [] { NoSwaps(history[..|history| - 1], card); }
  }

  lemma StepKeeps(s: State, step: Step)
    requires Inv(s)
    ensures Inv(Next(s, step))
  {
    hide Inv;
    match step
    case Create(card, data, actions, contextHash, now) => CreateKeeps(s, card, data, actions, contextHash, now);
    case Begin(call, card, expected, patch) =>
      if call !in s.calls {
        if card in s.cards && Validate(s.cards[card], expected, patch).Success? {
          var lifecycle := Validate(s.cards[card], expected, patch).value;
          CallOnly(s, call, Pending(card, expected, patch, s.cards[card], lifecycle));
        } else {
          CallOnly(s, call, REFUSED);
        }
      }
    case Swap(call, now) => SwapKeeps(s, call, now);
    case ReadBack(call) => ReadBackKeeps(s, call);
    case Append(call) => AppendKeeps(s, call);
    case Fail(call) => FailKeeps(s, call);
  }

  /** The invariant holds after every interleaving of every set of calls. */
  lemma {:induction false} RunKeeps(steps: seq<Step>)
    ensures Inv(Run(steps))
  {
    hide Next;
    if steps == [] {
      InitialHolds();
    } else {
      RunKeeps(steps[..|steps| - 1]);
      StepKeeps(Run(steps[..|steps| - 1]), steps[|steps| - 1]);
    }
  }

  lemma InitialHolds()
    ensures Inv(INITIAL)
  {
  }

  // --- What callers can rely on ------------------------------------------------------

  lemma {:induction false} SwapsGrow(history: seq<Applied>, i: nat, card: nat)
    requires i <= |history|
    ensures Swaps(history[..i], card) <= Swaps(history, card)
  {
    if i < |history| {
      var front := history[..|history| - 1];
      SwapsGrow(front, i, card);
      assert front[..i] == history[..i];
    } else {
      assert history[..i] == history;
    }
  }

  lemma HistoryRises(s: State, i: nat, j: nat)
    requires HistoryOk(s) && i < j < |s.history| && s.history[i].card == s.history[j].card
    ensures s.history[i].before.revision < s.history[j].before.revision
  {
    hide Validate, PatchRow, Swaps;
    var history, card := s.history, s.history[i].card;
    SwapsGrow(history[..j], i + 1, card);
    assert history[..j][..i + 1] == history[..i + 1] == history[..i] + [history[i]];
    SwapsSnoc(history[..i], history[i], card);
  }

  /** In every interleaving at most one patch is applied per card and revision. */
  lemma OneSuccessPerRevision(steps: seq<Step>, i: nat, j: nat)
    requires i < j < |Run(steps).history|
    requires Run(steps).history[i].card == Run(steps).history[j].card
    ensures Run(steps).history[i].before.revision < Run(steps).history[j].before.revision
  {
    hide Run, HistoryOk, CardsOk, PendingOk, LogOk, ReadsOk;
    RunKeeps(steps);
    HistoryRises(Run(steps), i, j);
  }

  /** A card's revision is one plus the number of patches that were applied. */
  lemma RevisionCountsSuccesses(steps: seq<Step>, card: nat)
    requires card in Run(steps).cards
    ensures Run(steps).cards[card].revision == 1 + Swaps(Run(steps).history, card)
    ensures StampsAgree(Run(steps).cards[card])
  {
    hide Run;
    RunKeeps(steps);
  }

  /** A row before and after a step: unchanged, or patched by a patch that validates on
      it. */
  ghost predicate Follows(c: Card, c': Card) {
    c' == c || exists patch, now :: c' == PatchRow(c, patch, now) && Validate(c, c.revision, patch).Success?
  }

  lemma SwapFollows(s: State, call: nat, now: int, card: nat)
    requires Inv(s) && card in s.cards
    ensures var s' := Next(s, Swap(call, now)); card in s'.cards && Follows(s.cards[card], s'.cards[card])
  {
    hide CardsOk, HistoryOk, LogOk, ReadsOk, Validate, PatchRow, EventsFor;
    var s' := Next(s, Swap(call, now));
    if s'.cards != s.cards {
      SwapApplies(s, call, now);
      assert s.calls[call].card == card ==>
        Validate(s.cards[card], s.cards[card].revision, s.calls[call].patch).Success?;
    }
  }

  lemma FollowsEdges(c: Card, c': Card)
    requires Follows(c, c')
    ensures c'.status == c.status || LegalEdge(c.status, c'.status)
    ensures c.status == Archived ==> c' == c
    ensures c.status == Dismissed || c'.status == Archived ==> SameContent(c, c')
    ensures c' == c || c'.revision == c.revision + 1
  {
  }

  /** The lifecycle: an active card can be dismissed, a dismissed one restored, and
      either of them archived. */
  predicate LegalEdge(from: Status, to: Status) {
    (from, to) in {(Active, Dismissed), (Dismissed, Active), (Active, Archived), (Dismissed, Archived)}
  }

  predicate SameContent(c: Card, c': Card) {
    c'.data == c.data && c'.actions == c.actions && c'.contextHash == c.contextHash
  }

  /** From any reachable state, a step leaves a card as it is or applies one patch
      that validates on the current row: status moves only along lifecycle edges,
      an archived card never changes again, and the content of a dismissed card, or of
      one that is being archived, is left alone. */
  lemma StepFollowsEdges(steps: seq<Step>, step: Step, card: nat)
    requires card in Run(steps).cards
    ensures var s, s' := Run(steps), Next(Run(steps), step);
      && card in s'.cards
      && var c, c' := s.cards[card], s'.cards[card];
         && Follows(c, c')
         && (c'.status == c.status || LegalEdge(c.status, c'.status))
         && (c.status == Archived ==> c' == c)
         && (c.status == Dismissed || c'.status == Archived ==> SameContent(c, c'))
         && (c' == c || c'.revision == c.revision + 1)
  {
    hide Run, Inv, Validate, PatchRow;
    RunKeeps(steps);
    var s, s' := Run(steps), Next(Run(steps), step);
    if step.Swap? { SwapFollows(s, step.call, step.now, card); }
    FollowsEdges(s.cards[card], s'.cards[card]);
  }

  /** An archived card never changes again, however a run goes on. */
  lemma {:induction false} ArchivedForever(steps: seq<Step>, more: seq<Step>, card: nat)
    requires card in Run(steps).cards && Run(steps).cards[card].status == Archived
    ensures card in Run(steps + more).cards && Run(steps + more).cards[card] == Run(steps).cards[card]
  {
    hide Next, Run;
    if more == [] {
      assert steps + more == steps;
    } else {
      var front, last := more[..|more| - 1], more[|more| - 1];
      ArchivedForever(steps, front, card);
      assert (steps + more)[..|steps + more| - 1] == steps + front;
      StepFollowsEdges(steps + front, last, card);
      RunSnoc(steps + more);
    }
  }

  /** The content of a dismissed card stays until a step after one that made it active
      again, however a run goes on. */
  lemma {:induction false} DismissedKeepsContent(steps: seq<Step>, more: seq<Step>, card: nat)
    requires card in Run(steps).cards && Run(steps).cards[card].status == Dismissed
    requires forall k :: 0 <= k < |more| && card in Run(steps + more[..k]).cards ==>
      Run(steps + more[..k]).cards[card].status != Active
    ensures card in Run(steps + more).cards && SameContent(Run(steps).cards[card], Run(steps + more).cards[card])
  {
    hide Next, Run, Inv;
    if more == [] {
      assert steps + more == steps;
    } else {
      var front, last := more[..|more| - 1], more[|more| - 1];
      forall k | 0 <= k < |front| ensures steps + front[..k] == steps + more[..k] { assert front[..k] == more[..k]; }
      DismissedKeepsContent(steps, front, card);
      assert (steps + more)[..|steps + more| - 1] == steps + front == steps + more[..|front|];
      RunKeeps(steps + front);
      StepFollowsEdges(steps + front, last, card);
      RunSnoc(steps + more);
      KnownStatus(Run(steps + front), card);
    }
  }

  lemma KnownStatus(s: State, card: nat)
    requires Inv(s) && card in s.cards
    ensures s.cards[card].status != Unknown
  {
  }

  lemma RunSnoc(steps: seq<Step>)
    requires steps != []
    ensures Run(steps) == Next(Run(steps[..|steps| - 1]), steps[|steps| - 1])
  {
  }

  /** A store operation of the call failed after its swap. */
  predicate FailsAfterSwap(steps: seq<Step>, call: nat)
  {
    steps != [] &&
      var front, last := steps[..|steps| - 1], steps[|steps| - 1];
      FailsAfterSwap(front, call) || (last == Fail(call) && LateFailure(Run(front), last))
  }

  predicate Lost(s: State, call: nat) { call in s.calls && s.calls[call].Done? && s.calls[call].lost != [] }

  lemma {:induction false} LostIffFailsAfterSwap(steps: seq<Step>, call: nat)
    ensures FailsAfterSwap(steps, call) <==> Lost(Run(steps), call)
  {
    hide Next, Inv, OutcomesOk, LateFailure, Lost;
    if steps == [] {
      NothingLost(call);
    } else {
      var front := steps[..|steps| - 1];
      LostIffFailsAfterSwap(front, call);
      RunKeeps(front);
      OutcomesHold(Run(front));
      LostStep(Run(front), steps[|steps| - 1], call);
    }
  }

  lemma NothingLost(call: nat)
    ensures !Lost(INITIAL, call)
  {
  }

  lemma OutcomesHold(s: State)
    requires Inv(s)
    ensures OutcomesOk(s)
  {
  }

  lemma LostStep(s: State, step: Step, call: nat)
    requires OutcomesOk(s)
    ensures Lost(Next(s, step), call) <==> Lost(s, call) || (step == Fail(call) && LateFailure(s, step))
  {
    hide Validate, PatchRow, EventsFor;
  }

  /** A call has always logged a prefix of what its swap promised. Once it has
      returned the log is complete exactly when none of its store operations failed
      after its swap, and then a success means that it is complete. */
  lemma LogMatchesSuccess(steps: seq<Step>, call: nat)
    ensures var s := Run(steps);
      && LoggedBy(s.events, call) <= PromisedBy(s.history, call)
      && (call in s.calls && s.calls[call].Done? ==>
           && (LoggedBy(s.events, call) == PromisedBy(s.history, call) <==> !FailsAfterSwap(steps, call))
           && (s.calls[call].returned.Some? ==> !FailsAfterSwap(steps, call)))
  {
    hide Run, FailsAfterSwap, LoggedBy, PromisedBy, CardsOk, PendingOk, HistoryOk, ReadsOk;
    RunKeeps(steps);
    LostIffFailsAfterSwap(steps, call);
    var s := Run(steps);
    assert LoggedBy(s.events, call) + Unlogged(s.calls, call) == PromisedBy(s.history, call);
  }

  ghost predicate SwappedFor(history: seq<Applied>, call: nat, card: nat) {
    exists i :: 0 <= i < |history| && history[i].call == call && history[i].card == card
  }

  /** Events, and calls that may still log some, name the card that the call swapped. */
  ghost predicate EventsNamed(s: State) {
    && (forall e :: e in s.events ==> SwappedFor(s.history, e.call, e.card))
    && forall k :: k in s.calls && (s.calls[k].Swapped? || s.calls[k].Owing?) ==>
         SwappedFor(s.history, k, s.calls[k].card)
  }

  lemma StepNames(s: State, step: Step)
    requires EventsNamed(s)
    ensures EventsNamed(Next(s, step))
  {
    hide Validate, PatchRow, EventsFor, NewCard;
    var s' := Next(s, step);
    forall k, card | SwappedFor(s.history, k, card) ensures SwappedFor(s'.history, k, card) {
      var i :| 0 <= i < |s.history| && s.history[i].call == k && s.history[i].card == card;
      assert s'.history[i] == s.history[i];
    }
    if s'.history != s.history {
      var h := s'.history[|s.history|];
      assert SwappedFor(s'.history, h.call, h.card);
    }
  }

  /** In every interleaving an event is of the card that its call has changed. */
  lemma {:induction false} EventsNameTheirCard(steps: seq<Step>)
    ensures EventsNamed(Run(steps))
  {
    hide Next, EventsNamed;
    if steps == [] {
      NothingNamed();
    } else {
      EventsNameTheirCard(steps[..|steps| - 1]);
      StepNames(Run(steps[..|steps| - 1]), steps[|steps| - 1]);
    }
  }

  lemma NothingNamed()
    ensures EventsNamed(INITIAL)
  {
  }

  /** A swap always promises an event. */
  lemma {:induction false} SwapPromises(history: seq<Applied>, call: nat)
    requires forall i :: 0 <= i < |history| ==>
      Validate(history[i].before, history[i].before.revision, history[i].patch).Success?
    ensures PromisedBy(history, call) != [] <==> exists i :: 0 <= i < |history| && history[i].call == call
  {
    if history != [] { SwapPromises(history[..|history| - 1], call); }
  }

  ghost predicate HasSwapped(s: State, call: nat) { exists i :: 0 <= i < |s.history| && s.history[i].call == call }

  /** A call that returned an error changed its card exactly when a store operation of
      it failed after its swap: the read-back or an append. */
  lemma FailureAppliedIff(steps: seq<Step>, call: nat)
    requires call in Run(steps).calls && Run(steps).calls[call].Done? && Run(steps).calls[call].returned.None?
    ensures HasSwapped(Run(steps), call) <==> FailsAfterSwap(steps, call)
  {
    hide Run, FailsAfterSwap, LoggedBy, PromisedBy, Validate, CardsOk, PendingOk, ReadsOk;
    RunKeeps(steps);
    LostIffFailsAfterSwap(steps, call);
    var s := Run(steps);
    SwapPromises(s.history, call);
    assert LoggedBy(s.events, call) + Unlogged(s.calls, call) == PromisedBy(s.history, call);
  }

  /** What a call reads back: a row of its own swap's revision or later, and its own
      row exactly when no other swap of the card came in between. */
  lemma ReadBackReturns(steps: seq<Step>, call: nat) returns (i: nat)
    requires call in Run(steps).calls && Run(steps).calls[call].Swapped?
    ensures var s, c := Run(steps), Run(steps).calls[call];
      && SwapOf(s.history, call, c.card, c.own, i) && c.own.revision == s.history[i].before.revision + 1
      && c.card in s.cards && Next(s, ReadBack(call)).calls[call] == Owing(c.card, s.cards[c.card], c.owed)
      && c.own.revision <= s.cards[c.card].revision
      && (s.cards[c.card] == c.own <==> LastOf(s.history, i))
      && (s.cards[c.card].revision == c.own.revision <==> LastOf(s.history, i))
  {
    hide Run, LogOk, CardsOk, PendingOk, HistoryOk, Current, LastOf, Validate, PatchRow, EventsFor;
    RunKeeps(steps);
    var s := Run(steps);
    var c := s.calls[call];
    assert CallReads(s.history, call, c);
    i :| SwapOf(s.history, call, c.card, c.own, i);
    StoredRow(s, i);
    RevisionAfter(s, i);
  }

  /** What a successful call returns is the row of its swap or a later one. */
  lemma SuccessReturns(steps: seq<Step>, call: nat)
    requires call in Run(steps).calls && Run(steps).calls[call].Done? && Run(steps).calls[call].returned.Some?
    ensures OwnOrLater(Run(steps).history, call, Run(steps).calls[call].returned.value)
  {
    hide Run, LogOk, CardsOk, PendingOk, HistoryOk, OwnOrLater;
    RunKeeps(steps);
    assert CallReads(Run(steps).history, call, Run(steps).calls[call]);
  }

  const RENAME := Patch(Some("new"), None, None, None)

  /** Card 0 with a call 7 that has swapped its new data in. */
  lemma SwappedRun() returns (steps: seq<Step>, start: seq<Step>)
    ensures steps == start + [Swap(7, 2)]
    ensures var s := Run(steps);
      && s.calls == map[7 := Swapped(0, PatchRow(NewCard("old", "", "", 1), RENAME, 2), [CardUpdated])]
      && s.cards == map[0 := PatchRow(NewCard("old", "", "", 1), RENAME, 2)] && s.events == []
  {
    var row := NewCard("old", "", "", 1);
    var s1 := State(map[0 := row], map[], [], []);
    var s2 := State(map[0 := row], map[7 := Pending(0, 1, RENAME, row, None)], [], []);
    assert Next(INITIAL, Create(0, "old", "", "", 1)) == s1;
    assert Validate(row, 1, RENAME) == Success(None) && EventsFor(None, RENAME) == [CardUpdated];
    assert Next(s1, Begin(7, 0, 1, RENAME)) == s2;
    assert Run([]) == INITIAL;
    start := ThenStep([], INITIAL, Create(0, "old", "", "", 1));
    start := ThenStep(start, s1, Begin(7, 0, 1, RENAME));
    steps := ThenStep(start, s2, Swap(7, 2));
  }

  /** Two runs with a call that returned an error although its card has its new data,
      unlogged: one whose append failed, one whose read-back failed before any append. */
  lemma FailedCallChangedCard() returns (append: seq<Step>, readBack: seq<Step>)
    ensures forall steps :: steps in {append, readBack} ==>
      var s := Run(steps);
      && 7 in s.calls && s.calls[7] == Done(None, [CardUpdated])
      && 0 in s.cards && s.cards[0].data == "new" && s.cards[0].revision == 2 && s.events == []
    ensures exists steps :: append == steps + [ReadBack(7), Fail(7)]
    ensures exists steps :: readBack == steps + [Swap(7, 2), Fail(7)]
  {
    hide Run, Validate, EventsFor;
    var steps, start := SwappedRun();
    var s := Run(steps);
    readBack := ThenStep(steps, s, Fail(7));
    append := ThenStep(steps, s, ReadBack(7));
    append := ThenStep(append, Next(s, ReadBack(7)), Fail(7));
    assert append == steps + [ReadBack(7), Fail(7)];
    assert readBack == start + [Swap(7, 2), Fail(7)];
  }

  lemma ThenStep(steps: seq<Step>, s: State, step: Step) returns (more: seq<Step>)
    requires Run(steps) == s
    ensures more == steps + [step] && Run(more) == Next(s, step)
  {
    more := steps + [step];
    assert more[..|steps|] == steps;
  }

  // --- The service -----------------------------------------------------------------

  /** The errors of a call whose swap went through. */
  predicate LateError(r: Result<Card, Error>) { r.Failure? && (r.error == ReadBackFailed || r.error == AppendFailed) }

  /** PatchCard run on its own: the checks, the swap, the read-back, which works if
      `readable`, and the appends, of which the store takes the first `room`. Only a
      failure after the swap is an error that leaves the row changed, and then the
      log holds a proper prefix of what was promised. */
  method PatchCard(repo: CardRepo, card: nat, expected: int, patch: Patch, now: int, call: nat,
                   readable: bool, room: nat)
    returns (r: Result<Card, Error>)
    modifies repo
    ensures r == Failure(CardNotFound) <==> card !in old(repo.cards)
    ensures r == Failure(RevisionConflict) <==> card in old(repo.cards) && old(repo.cards)[card].revision != expected
    ensures card in old(repo.cards) && old(repo.cards)[card].revision == expected ==>
      var status := old(repo.cards)[card].status;
      var content := patch.data != None || patch.actions != None || patch.contextHash != None;
      && (r == Failure(StatusArchived) <==>
           status == Archived || (status == Active && patch.status == Some(Archived) && content))
      && (r == Failure(StatusDismissed) <==> status == Dismissed && content)
      && (r.Success? || LateError(r) <==>
           || (patch.status == None && status in {Active, Unknown} && content)
           || (patch.status == Some(Dismissed) && status == Active)
           || (patch.status == Some(Active) && status == Dismissed && !content)
           || (patch.status == Some(Archived) && status in {Active, Dismissed} && !content))
    ensures r.Success? || LateError(r) ==>
      var c, start := old(repo.cards)[card], old(repo.events);
      var promised := (match patch.status
        case None => []
        case Some(Active) => [CardRestored]
        case Some(Dismissed) => [CardDismissed]
        case Some(_) => [CardArchived]) +
        if patch.data != None || patch.actions != None || patch.contextHash != None then [CardUpdated] else [];
      var logged := if readable then Min(room, |promised|) else 0;
      && r == (if !readable then Failure(ReadBackFailed)
               else if room < |promised| then Failure(AppendFailed) else Success(PatchRow(c, patch, now)))
      && repo.cards == old(repo.cards)[card := PatchRow(c, patch, now)]
      && repo.events == start + seq(logged, k requires 0 <= k < logged =>
           Event(|start| + k + 1, card, promised[k], call))
    ensures r.Failure? && !LateError(r) ==> repo.cards == old(repo.cards) && repo.events == old(repo.events)
  {
    hide PatchRow;
    if card in repo.cards { ValidateAnswers(repo.cards[card], expected, patch); }
    var found := repo.Get(card);
    if found.None? { return Failure(CardNotFound); }
    var c := found.value;
    if c.revision != expected { return Failure(RevisionConflict); }
    var mutates := MutatesData(patch);
    if c.status == Archived { return Failure(StatusArchived); }
    if c.status == Dismissed && mutates { return Failure(StatusDismissed); }
    if patch.status.None? && !mutates { return Failure(InvalidTransition); }
    var lifecycle: Option<Kind> := None;
    if patch.status.Some? {
      lifecycle := Transition(c.status, patch.status.value);
      if lifecycle.None? { return Failure(InvalidTransition); }
      if patch.status.value == Archived && mutates { return Failure(StatusArchived); }
    }
    r := repo.PatchIf(card, expected, patch, now, readable);
    if r.Failure? { return; }
    var left := room;
    if lifecycle.Some? {
      if left == 0 { return Failure(AppendFailed); }
      var _ := repo.AppendEvent(card, lifecycle.value, call);
      left := left - 1;
    }
    if mutates {
      if left == 0 { return Failure(AppendFailed); }
      var _ := repo.AppendEvent(card, CardUpdated, call);
    }
  }

  /** ArchiveCard without a revision reads the current one first. */
  method ArchiveCard(repo: CardRepo, card: nat, expected: Option<int>, now: int, call: nat, readable: bool, room: nat)
    returns (r: Result<Card, Error>)
    modifies repo
    ensures card !in old(repo.cards) ==> r == Failure(CardNotFound)
    ensures r.Success? || LateError(r) <==>
      && card in old(repo.cards) && old(repo.cards)[card].status in {Active, Dismissed}
      && (expected.None? || expected.value == old(repo.cards)[card].revision)
    ensures r.Success? || LateError(r) ==>
      && card in repo.cards && repo.cards[card].status == Archived && repo.cards[card].archivedAt == Some(now)
      && (r.Success? <==> readable && room > 0)
    ensures r.Failure? && !LateError(r) ==> repo.cards == old(repo.cards) && repo.events == old(repo.events)
  {
    var found := repo.Get(card);
    if found.None? { return Failure(CardNotFound); }
    var revision := if expected.Some? then expected.value else found.value.revision;
    r := PatchCard(repo, card, revision, Patch(None, None, None, Some(Archived)), now, call, readable, room);
  }
}
