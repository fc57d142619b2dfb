/** The card store: rows under optimistic concurrency and the event log
    (internal/card/repo.go), and the service's patch on top of it
    (internal/card/service.go). Instants are integers handed in by the caller. */
module CardStore {
  import opened Wrappers
  import opened Sums

  /** Unknown stands for any other status text a caller may submit. */
  datatype Status = Active | Dismissed | Archived | Unknown

  datatype Card = Card(status: Status, revision: int, data: string, actions: string, contextHash: string,
                       updatedAt: int, dismissedAt: Option<int>, archivedAt: Option<int>)

  datatype Patch = Patch(data: Option<string>, actions: Option<string>, contextHash: Option<string>,
                         status: Option<Status>)

  datatype Kind = CardCreated | CardUpdated | CardDismissed | CardRestored | CardArchived

  /** A stored event; sequence numbers are assigned by the log, from one. */
  datatype Event = Event(sequence: int, card: nat, kind: Kind, call: nat)

  datatype Error = CardNotFound | RevisionConflict | StatusArchived | StatusDismissed | InvalidTransition
    | ReadBackFailed | AppendFailed

  // --- Rows -------------------------------------------------------------------

  /** Empty data or actions are stored as the empty object and list. */
  function NewCard(data: string, actions: string, contextHash: string, now: int): Card {
    Card(Active, 1, if data == "" then "{}" else data, if actions == "" then "[]" else actions,
      contextHash, now, None, None)
  }

  /** The row update of Patch: selected columns, revision plus one, and the
      timestamps that go with a status. */
  function PatchRow(c: Card, p: Patch, now: int): Card {
    Card(
      if p.status.Some? then p.status.value else c.status,
      c.revision + 1,
      if p.data.Some? then p.data.value else c.data,
      if p.actions.Some? then p.actions.value else c.actions,
      if p.contextHash.Some? then p.contextHash.value else c.contextHash,
      now,
      if p.status == Some(Dismissed) then Some(now) else if p.status == Some(Active) then None else c.dismissedAt,
      if p.status == Some(Archived) then Some(now) else c.archivedAt)
  }

  predicate MutatesData(p: Patch) { p.data.Some? || p.actions.Some? || p.contextHash.Some? }

  /** The lifecycle edges. */
  function Transition(from: Status, to: Status): Option<Kind> {
    if from == Active && to == Dismissed then Some(CardDismissed)
    else if from == Dismissed && to == Active then Some(CardRestored)
    else if (from == Active || from == Dismissed) && to == Archived then Some(CardArchived)
    else None
  }

  /** PatchCard's checks on the row it read: the lifecycle event to log, if any. */
  function Validate(c: Card, expected: int, p: Patch): Result<Option<Kind>, Error> {
    if c.revision != expected then Failure(RevisionConflict)
    else if c.status == Archived then Failure(StatusArchived)
    else if c.status == Dismissed && MutatesData(p) then Failure(StatusDismissed)
    else if p.status == None && !MutatesData(p) then Failure(InvalidTransition)
    else if p.status == None then Success(None)
    else if Transition(c.status, p.status.value).None? then Failure(InvalidTransition)
    else if p.status.value == Archived && MutatesData(p) then Failure(StatusArchived)
    else Success(Transition(c.status, p.status.value))
  }

  /** The events a successful patch appends, in order. */
  function EventsFor(lifecycle: Option<Kind>, p: Patch): seq<Kind> {
    (if lifecycle.Some? then [lifecycle.value] else []) + (if MutatesData(p) then [CardUpdated] else [])
  }

  /** Status and timestamps agree. */
  predicate StampsAgree(c: Card) {
    && c.status != Unknown
    && (c.status == Active ==> c.dismissedAt == None && c.archivedAt == None)
    && (c.status == Dismissed ==> c.dismissedAt.Some? && c.archivedAt == None)
    && (c.status == Archived ==> c.archivedAt.Some?)
  }

  /** Every answer of the checks, by the row's revision and status and the patch's fields
      alone. A dismissed card takes no content and an archived one nothing at all; a patch
      that archives carries no content; and no other patch changes the status but one that
      dismisses an active card or restores a dismissed one. The lifecycle event comes first. */
  lemma ValidateAnswers(c: Card, expected: int, p: Patch)
    ensures var r := Validate(c, expected, p);
      var content := p.data != None || p.actions != None || p.contextHash != None;
      && (r == Failure(RevisionConflict) <==> c.revision != expected)
      && (c.revision == expected ==>
           && (r == Failure(StatusArchived) <==>
                c.status == Archived || (c.status == Active && p.status == Some(Archived) && content))
           && (r == Failure(StatusDismissed) <==> c.status == Dismissed && content)
           && (r == Success(None) <==> c.status in {Active, Unknown} && p.status == None && content)
           && (r == Success(Some(CardDismissed)) <==> c.status == Active && p.status == Some(Dismissed))
           && (r == Success(Some(CardRestored)) <==> c.status == Dismissed && p.status == Some(Active) && !content)
           && (r == Success(Some(CardArchived)) <==>
                c.status in {Active, Dismissed} && p.status == Some(Archived) && !content))
      && (r.Failure? ==> r.error in {RevisionConflict, StatusArchived, StatusDismissed, InvalidTransition})
      && (r.Success? ==>
           && r.value in {None, Some(CardDismissed), Some(CardRestored), Some(CardArchived)}
           && EventsFor(r.value, p) == (match p.status
                case None => []
                case Some(Active) => [CardRestored]
                case Some(Dismissed) => [CardDismissed]
                case Some(_) => [CardArchived]) + if content then [CardUpdated] else [])
  {
  }

  lemma ValidPatchKeepsStamps(c: Card, expected: int, p: Patch, now: int)
    requires StampsAgree(c) && Validate(c, expected, p).Success?
    ensures StampsAgree(PatchRow(c, p, now)) && PatchRow(c, p, now).revision == expected + 1
  {
  }

  // --- The event log ------------------------------------------------------------

  /** Sequence numbers are positions in the log. */
  ghost predicate Sequenced(events: seq<Event>) { forall i :: 0 <= i < |events| ==> events[i].sequence == i + 1 }

  /** A card's events after a cursor, in sequence order. */
  function EventsAfter(events: seq<Event>, card: nat, after: int): seq<Event>
  {
    if events == [] then [] else
      var last := events[|events| - 1];
      EventsAfter(events[..|events| - 1], card, after) +
      (if last.card == card && last.sequence > after then [last] else [])
  }

  function Limit(limit: int): nat { if limit <= 0 then 50 else limit }

  function Page(events: seq<Event>, card: nat, after: int, limit: int): seq<Event> {
    var all := EventsAfter(events, card, after); all[..Min(Limit(limit), |all|)]
  }

  /** A card's events after one cursor up to another. */
  function EventsUpTo(events: seq<Event>, card: nat, after: int, cursor: int): seq<Event>
  {
    if events == [] then [] else
      var last := events[|events| - 1];
      EventsUpTo(events[..|events| - 1], card, after, cursor) +
      (if last.card == card && after < last.sequence <= cursor then [last] else [])
  }

  lemma {:induction false} AfterMembers(events: seq<Event>, card: nat, after: int, e: Event)
    ensures e in EventsAfter(events, card, after) <==> e in events && e.card == card && e.sequence > after
  {
    if events != [] {
      AfterMembers(events[..|events| - 1], card, after, e);
      assert events == events[..|events| - 1] + [events[|events| - 1]];
    }
  }

  ghost predicate Rising(r: seq<Event>) { forall i, j :: 0 <= i < j < |r| ==> r[i].sequence < r[j].sequence }

  ghost predicate Within(r: seq<Event>, low: int, high: int) {
    forall i :: 0 <= i < |r| ==> low < r[i].sequence <= high
  }

  lemma {:induction false} AfterSorted(events: seq<Event>, card: nat, after: int)
    requires Sequenced(events)
    ensures Rising(EventsAfter(events, card, after)) && Within(EventsAfter(events, card, after), after, |events|)
  {
    if events != [] { AfterSorted(events[..|events| - 1], card, after); }
  }

  lemma {:induction false} UpToBounded(events: seq<Event>, card: nat, after: int, cursor: int)
    ensures Within(EventsUpTo(events, card, after, cursor), after, cursor)
  {
    if events != [] { UpToBounded(events[..|events| - 1], card, after, cursor); }
  }

  /** Advancing the cursor drops exactly the events up to it. */
  lemma {:induction false} CursorSplits(events: seq<Event>, card: nat, after: int, cursor: int)
    requires Sequenced(events) && after <= cursor
    ensures EventsAfter(events, card, after) ==
      EventsUpTo(events, card, after, cursor) + EventsAfter(events, card, cursor)
  {
    if events != [] {
      CursorSplits(events[..|events| - 1], card, after, cursor);
      if events[|events| - 1].sequence <= cursor { NothingAfter(events, card, cursor); }
    }
  }

  class CardRepo {
    var cards: map<nat, Card>
    var events: seq<Event>

    constructor ()
      ensures cards == map[] && events == []
    {
      cards, events := map[], [];
    }

    method Create(id: nat, data: string, actions: string, contextHash: string, now: int) returns (r: Option<Card>)
      modifies this`cards
      ensures id in old(cards) ==> r.None? && cards == old(cards)
      ensures id !in old(cards) ==>
        var c := NewCard(data, actions, contextHash, now); r == Some(c) && cards == old(cards)[id := c]
      ensures r.Some? ==>
        && r.value.status == Active && r.value.revision == 1
        && r.value.data == (if data == "" then "{}" else data)
        && r.value.actions == (if actions == "" then "[]" else actions)
        && r.value.contextHash == contextHash && r.value.updatedAt == now
        && r.value.dismissedAt == None && r.value.archivedAt == None
    {
      if id in cards { return None; }
      cards := cards[id := NewCard(data, actions, contextHash, now)];
      return Some(cards[id]);
    }

    method Get(id: nat) returns (r: Option<Card>)
      ensures r == if id in cards then Some(cards[id]) else None
    {
      r := if id in cards then Some(cards[id]) else None;
    }

    /** Compare-and-swap on the revision, then a read of the row. A read that fails
        is an error with the row changed. */
    method PatchIf(id: nat, expected: int, p: Patch, now: int, readable: bool) returns (r: Result<Card, Error>)
      modifies this`cards
      ensures if id !in old(cards) then r == Failure(CardNotFound) && cards == old(cards)
        else if old(cards)[id].revision != expected then r == Failure(RevisionConflict) && cards == old(cards)
        else var row := PatchRow(old(cards)[id], p, now);
          cards == old(cards)[id := row] && r == if readable then Success(row) else Failure(ReadBackFailed)
      ensures id in old(cards) && old(cards)[id].revision == expected ==>
        var c, row := old(cards)[id], cards[id];
        && row.revision == expected + 1 && row.updatedAt == now
        && (if p.status == None then row.status == c.status else p.status == Some(row.status))
        && (if p.data == None then row.data == c.data else p.data == Some(row.data))
        && (if p.actions == None then row.actions == c.actions else p.actions == Some(row.actions))
        && (if p.contextHash == None then row.contextHash == c.contextHash else p.contextHash == Some(row.contextHash))
        && (p.status == Some(Dismissed) ==> row.dismissedAt == Some(now))
        && (p.status == Some(Active) ==> row.dismissedAt == None)
        && (p.status !in {Some(Dismissed), Some(Active)} ==> row.dismissedAt == c.dismissedAt)
        && row.archivedAt == (if p.status == Some(Archived) then Some(now) else c.archivedAt)
    {
      if id !in cards { return Failure(CardNotFound); }
      if cards[id].revision != expected { return Failure(RevisionConflict); }
      var row := cards[id].(revision := cards[id].revision + 1, updatedAt := now);
      if p.data.Some? { row := row.(data := p.data.value); }
      if p.actions.Some? { row := row.(actions := p.actions.value); }
      if p.status.Some? {
        row := row.(status := p.status.value);
        if p.status.value == Dismissed { row := row.(dismissedAt := Some(now)); }
        if p.status.value == Active { row := row.(dismissedAt := None); }
        if p.status.value == Archived { row := row.(archivedAt := Some(now)); }
      }
      if p.contextHash.Some? { row := row.(contextHash := p.contextHash.value); }
      cards := cards[id := row];
      return if readable then Success(cards[id]) else Failure(ReadBackFailed);
    }

    method AppendEvent(card: nat, kind: Kind, call: nat) returns (e: Event)
      modifies this`events
      ensures e == Event(|old(events)| + 1, card, kind, call) && events == old(events) + [e]
      ensures Sequenced(old(events)) ==> Sequenced(events)
    {
      e := Event(|events| + 1, card, kind, call);
      events := events + [e];
    }

    method ListEvents(card: nat, after: int, limit: int) returns (r: seq<Event>)
      ensures r == Page(events, card, after, limit)
      ensures var all := EventsAfter(events, card, after);
        r == all[..Min(|all|, if limit > 0 then limit else 50)]
    {
      var all: seq<Event> := [];
      for i := 0 to |events|
        invariant all == EventsAfter(events[..i], card, after)
      {
        assert events[..i + 1][..i] == events[..i];
        if events[i].card == card && events[i].sequence > after { all := all + [events[i]]; }
      }
      assert events[..|events|] == events;
      r := all[..Min(Limit(limit), |all|)];
    }

    method MaxSequence(card: nat) returns (m: int)
      requires Sequenced(events)
      ensures forall e :: e in events && e.card == card ==> e.sequence <= m
      ensures m == 0 || exists e :: e in events && e.card == card && e.sequence == m
      ensures EventsAfter(events, card, m) == []
    {
      m := 0;
      for i := 0 to |events|
        invariant 0 <= m && forall j :: 0 <= j < i && events[j].card == card ==> events[j].sequence <= m
        invariant m == 0 || exists j :: 0 <= j < i && events[j].card == card && events[j].sequence == m
      {
        if events[i].card == card && events[i].sequence > m { m := events[i].sequence; }
      }
      NothingAfter(events, card, m);
    }

    /** Reading page after page from a cursor, whatever the page size, returns every
        event stored beyond it, in order: an event the live hub dropped is never
        out of reach of a reader whose cursor is below it. */
    method ReplayFrom(card: nat, after: int, limit: int) returns (r: seq<Event>)
      requires Sequenced(events)
      ensures r == EventsAfter(events, card, after)
      ensures forall e :: e in events && e.card == card && e.sequence > after ==> e in r
    {
      forall e | e in events && e.card == card && e.sequence > after ensures e in EventsAfter(events, card, after) {
        AfterMembers(events, card, after, e);
      }
      r := [];
      var cursor := after;
      while true
        invariant after <= cursor
        invariant r + EventsAfter(events, card, cursor) == EventsAfter(events, card, after)
        decreases |EventsAfter(events, card, cursor)|
      {
        hide EventsAfter;
        var page := ListEvents(card, cursor, limit);
        if |page| == 0 { return; }
        var next := page[|page| - 1].sequence;
        PageSplits(events, card, cursor, limit);
        assert r + (page + EventsAfter(events, card, next)) == r + page + EventsAfter(events, card, next);
        r, cursor := r + page, next;
      }
    }
  }

  lemma {:induction false} NothingAfter(events: seq<Event>, card: nat, cursor: int)
    requires forall i :: 0 <= i < |events| && events[i].card == card ==> events[i].sequence <= cursor
    ensures EventsAfter(events, card, cursor) == []
  {
    if events != [] { NothingAfter(events[..|events| - 1], card, cursor); }
  }

  /** In a rising sequence, the elements up to that of index k are the first k + 1. */
  lemma RisingCut(all: seq<Event>, upto: seq<Event>, rest: seq<Event>, k: nat)
    requires all == upto + rest && k < |all| && Rising(all)
    requires forall i :: 0 <= i < |upto| ==> upto[i].sequence <= all[k].sequence
    requires forall i :: 0 <= i < |rest| ==> all[k].sequence < rest[i].sequence
    ensures upto == all[..k + 1]
  {
    var c := |upto|;
    var e := all[k];
    forall i | c <= i < |all| ensures e.sequence < all[i].sequence { assert all[i] == rest[i - c]; }
    forall i | 0 <= i < c ensures all[i].sequence <= e.sequence { assert all[i] == upto[i]; }
    assert c <= k ==> e.sequence < e.sequence;
    assert k + 1 < |all| ==> all[k].sequence < all[k + 1].sequence;
    assert c <= k + 1;
  }

  lemma PageSplits(events: seq<Event>, card: nat, cursor: int, limit: int)
    requires Sequenced(events) && Page(events, card, cursor, limit) != []
    ensures var page := Page(events, card, cursor, limit);
      var next := page[|page| - 1].sequence;
      cursor < next && EventsAfter(events, card, cursor) == page + EventsAfter(events, card, next)
  {
    hide EventsAfter, EventsUpTo;
    var page := Page(events, card, cursor, limit);
    var all := EventsAfter(events, card, cursor);
    var k := |page| - 1;
    var next := page[k].sequence;
    assert page[k] == all[k];
    AfterSorted(events, card, cursor);
    AfterSorted(events, card, next);
    CursorSplits(events, card, cursor, next);
    UpToBounded(events, card, cursor, next);
    RisingCut(all, EventsUpTo(events, card, cursor, next), EventsAfter(events, card, next), k);
  }

  // --- The event window of a card reference ----------------------------------------

  const WINDOW := 20

  /** loadCardRefEvents reads at most 20 events after the last sequence minus 20. */
  function RecentEvents(events: seq<Event>, card: nat, lastSequence: int): seq<Event> {
    Page(events, card, Max(lastSequence - WINDOW, 0), WINDOW)
  }

  lemma {:induction false} FewInRange(r: seq<Event>, low: int, high: int)
    requires low <= high && Within(r, low, high) && Rising(r)
    ensures |r| <= high - low
  {
    if r != [] { FewInRange(r[..|r| - 1], low, r[|r| - 1].sequence - 1); }
  }

  /** The window is a suffix of the card's events: the page limit never cuts it. */
  lemma WindowIsSuffix(events: seq<Event>, card: nat, last: int)
    requires Sequenced(events) && 0 <= last && forall e :: e in events && e.card == card ==> e.sequence <= last
    ensures var w, all := RecentEvents(events, card, last), EventsAfter(events, card, 0);
      && |w| <= 20 && |w| <= |all| && all[|all| - |w|..] == w
      && w == EventsAfter(events, card, Max(last - 20, 0))
  {
    hide EventsAfter, EventsUpTo;
    var after := Max(last - WINDOW, 0);
    var r := EventsAfter(events, card, after);
    AfterSorted(events, card, after);
    forall i | 0 <= i < |r| ensures r[i].sequence <= last { AfterMembers(events, card, after, r[i]); }
    FewInRange(r, after, Max(last, after));
    CursorSplits(events, card, 0, after);
  }
}
