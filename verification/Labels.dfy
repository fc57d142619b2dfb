/** Collision-free display labels (uniqueLabels in cmd/canopyd/cli.go). Ids are
    ASCII, so a character is a byte. */
module Labels {

  const SHORT := 8

  function ShortId(id: string): string { if |id| >= SHORT then id[..SHORT] else id }

  /** The id without its hyphens. */
  function Compact(id: string): string
  {
    if id == [] then [] else Compact(id[..|id| - 1]) + (if id[|id| - 1] == '-' then [] else [id[|id| - 1]])
  }

  lemma {:induction false} CompactShorter(id: string)
    ensures |Compact(id)| <= |id|
    ensures |Compact(id)| == |id| ==> Compact(id) == id
  {
    if id != [] { CompactShorter(id[..|id| - 1]); }
  }

  lemma {:induction false} CompactPrefix(id: string, k: nat)
    requires k <= |id|
    ensures Compact(id[..k]) <= Compact(id)
  {
    if k < |id| {
      CompactPrefix(id[..|id| - 1], k);
      assert id[..|id| - 1][..k] == id[..k];
    } else {
      assert id[..k] == id;
    }
  }

  /** One more non-hyphen character than the current text has, or the whole id when
      there is none; a text as long as the id stays. */
  function Extended(id: string, current: string): string {
    if |current| >= |id| then current
    else if |Compact(id)| > |current| then Compact(id)[..|current| + 1]
    else id
  }

  method ExtendLabel(id: string, current: string) returns (r: string)
    ensures r == Extended(id, current)
  {
    if |current| >= |id| { return current; }
    var sb: string := "";
    for i := 0 to |id|
      invariant sb == Compact(id[..i]) && |sb| <= |current|
    {
      assert id[..i + 1][..i] == id[..i];
      if id[i] != '-' {
        sb := sb + [id[i]];
        if |sb| > |current| {
          CompactPrefix(id, i + 1);
          return sb;
        }
      }
    }
    assert id[..|id|] == id;
    return id;
  }

  /** Dropping hyphens works part by part and leaves none behind. */
  lemma {:induction false} CompactAppend(a: string, b: string)
    ensures Compact(a + b) == Compact(a) + Compact(b)
  {
    if b == [] {
      assert a + b == a;
    } else {
      CompactAppend(a, b[..|b| - 1]);
      assert (a + b)[..|a + b| - 1] == a + b[..|b| - 1];
    }
  }

  lemma {:induction false} CompactClean(id: string)
    ensures '-' !in Compact(id) && ('-' !in id ==> Compact(id) == id)
  {
    if id != [] {
      CompactClean(id[..|id| - 1]);
      assert id == id[..|id| - 1] + [id[|id| - 1]];
    }
  }

  /** The shapes a text can take: a short prefix of the id, a prefix of its compact
      form, or the id itself. */
  predicate Shaped(id: string, text: string) {
    text == ShortId(id) || text <= Compact(id) || text == id
  }

  lemma ExtendedFacts(id: string, current: string)
    requires Shaped(id, current)
    ensures Shaped(id, Extended(id, current))
    ensures |Extended(id, current)| <= |id|
    ensures Extended(id, current) != current ==> |current| < |Extended(id, current)|
    ensures Extended(id, current) == current <==> current == id
    ensures Extended(id, current) == (if |current| >= |id| || |current| >= |Compact(id)| then id
                                      else Compact(id)[..|current| + 1])
  {
    CompactShorter(id);
  }

  ghost predicate Labelled(ids: seq<string>, labels: map<string, string>) {
    forall id :: id in ids ==> id in labels && Shaped(id, labels[id]) && |labels[id]| <= |id|
  }

  /** What is left to extend, summed over the list. */
  function Slack(ids: seq<string>, labels: map<string, string>): int
    requires forall id :: id in ids ==> id in labels
  {
    if ids == [] then 0 else Slack(ids[..|ids| - 1], labels) + |ids[|ids| - 1]| - |labels[ids[|ids| - 1]]|
  }

  /** Labels that nowhere shrink and somewhere grow have less slack. */
  lemma {:induction false} SlackDrops(ids: seq<string>, labels: map<string, string>, grown: map<string, string>)
    requires forall id :: id in ids ==> id in labels && id in grown && |labels[id]| <= |grown[id]|
    ensures Slack(ids, grown) <= Slack(ids, labels)
    ensures (exists id :: id in ids && |labels[id]| < |grown[id]|) ==> Slack(ids, grown) < Slack(ids, labels)
  {
    if ids != [] {
      var front, last := ids[..|ids| - 1], ids[|ids| - 1];
      assert ids == front + [last];
      SlackDrops(front, labels, grown);
      if id :| id in ids && |labels[id]| < |grown[id]| { assert id == last || id in front; }
    }
  }

  lemma {:induction false} SlackNatural(ids: seq<string>, labels: map<string, string>)
    requires Labelled(ids, labels)
    ensures 0 <= Slack(ids, labels)
  {
    if ids != [] {
      assert forall x :: x in ids[..|ids| - 1] ==> x in ids;
      SlackNatural(ids[..|ids| - 1], labels);
    }
  }

  // --- What a round does, whatever the order of the groups ---------------------------

  /** The ids of a list whose label is t, in list order. */
  function Group(ids: seq<string>, labels: map<string, string>, t: string): seq<string>
  {
    if ids == [] then [] else
      var id := ids[|ids| - 1];
      Group(ids[..|ids| - 1], labels, t) + (if id in labels && labels[id] == t then [id] else [])
  }

  lemma {:induction false} GroupMembers(ids: seq<string>, labels: map<string, string>, t: string, id: string)
    ensures multiset(Group(ids, labels, t))[id] == if id in labels && labels[id] == t then multiset(ids)[id] else 0
  {
    if ids != [] {
      GroupMembers(ids[..|ids| - 1], labels, t, id);
      assert ids == ids[..|ids| - 1] + [ids[|ids| - 1]];
    }
  }

  lemma GroupSnoc(ids: seq<string>, id: string, labels: map<string, string>, t: string)
    ensures Group(ids + [id], labels, t) ==
      Group(ids, labels, t) + (if id in labels && labels[id] == t then [id] else [])
  {
    assert (ids + [id])[..|ids|] == ids;
  }

  /** A label extended once for every occurrence of its id. */
  function Grow(id: string, text: string, n: nat): string
  {
    if n == 0 then text else Extended(id, Grow(id, text, n - 1))
  }

  lemma {:induction false} GrowFacts(id: string, text: string, n: nat)
    requires Shaped(id, text) && |text| <= |id|
    ensures Shaped(id, Grow(id, text, n)) && |text| <= |Grow(id, text, n)| <= |id|
    ensures n > 0 && text != id ==> |text| < |Grow(id, text, n)|
    ensures text == id ==> Grow(id, text, n) == id
  {
    if n > 0 {
      GrowFacts(id, text, n - 1);
      ExtendedFacts(id, Grow(id, text, n - 1));
    }
  }

  function RoundLabel(ids: seq<string>, labels: map<string, string>, id: string): string
    requires id in labels
  {
    if |Group(ids, labels, labels[id])| < 2 then labels[id] else Grow(id, labels[id], multiset(ids)[id])
  }

  /** One round: every id that shares its label grows. */
  function Round(ids: seq<string>, labels: map<string, string>): map<string, string> {
    map id | id in labels :: RoundLabel(ids, labels, id)
  }

  lemma RoundKeeps(ids: seq<string>, labels: map<string, string>)
    requires Labelled(ids, labels) && forall x :: x in labels ==> x in ids
    ensures Labelled(ids, Round(ids, labels)) && Slack(ids, Round(ids, labels)) <= Slack(ids, labels)
    ensures Round(ids, labels) != labels ==> Slack(ids, Round(ids, labels)) < Slack(ids, labels)
  {
    hide Shaped, Slack, Grow, Group;
    var grown := Round(ids, labels);
    forall id | id in labels
      ensures Shaped(id, grown[id]) && |labels[id]| <= |grown[id]| <= |id|
      ensures grown[id] != labels[id] ==> |labels[id]| < |grown[id]|
    {
      GrowFacts(id, labels[id], multiset(ids)[id]);
    }
    SlackDrops(ids, labels, grown);
    SlackNatural(ids, grown);
  }

  /** Rounds until nothing changes. */
  ghost function Settle(ids: seq<string>, labels: map<string, string>): map<string, string>
    requires Labelled(ids, labels) && forall x :: x in labels ==> x in ids
    decreases Slack(ids, labels)
  {
    RoundKeeps(ids, labels);
    SlackNatural(ids, labels);
    SlackNatural(ids, Round(ids, labels));
    if Round(ids, labels) == labels then labels else Settle(ids, Round(ids, labels))
  }

  function Shorts(ids: seq<string>): (r: map<string, string>)
    ensures Labelled(ids, r)
  {
    map id | id in ids :: ShortId(id)
  }

  ghost function Labelling(ids: seq<string>): map<string, string> { Settle(ids, Shorts(ids)) }

  /** A short label that no other entry of the list shares is final. */
  lemma UniqueKeeps(ids: seq<string>, id: string)
    requires multiset(ids)[id] == 1
    requires forall x :: x in ids && x != id ==> x[..ShortLength(x)] != id[..ShortLength(id)]
    ensures id in Labelling(ids) && Labelling(ids)[id] == id[..ShortLength(id)]
  {
    assert id in multiset(ids);
    SettleKeeps(ids, Shorts(ids), id);
  }

  function ShortLength(s: string): (n: nat)
    ensures n <= |s| && n <= 8 && (n == |s| || n == 8)
  {
    if |s| < 8 then |s| else 8
  }

  /** The id still has its short label, and no other has that one. */
  ghost predicate Alone(labels: map<string, string>, id: string) {
    && id in labels && labels[id] == ShortId(id)
    && forall x :: x in labels && x != id ==>
         labels[x] != ShortId(id) && (labels[x] == ShortId(x) || |labels[x]| > 8)
  }

  lemma {:induction false} SettleKeeps(ids: seq<string>, labels: map<string, string>, id: string)
    requires Labelled(ids, labels) && (forall x :: x in labels ==> x in ids)
    requires multiset(ids)[id] == 1 && Alone(labels, id)
    ensures id in Settle(ids, labels) && Settle(ids, labels)[id] == ShortId(id)
    decreases Slack(ids, labels)
  {
    hide Slack, Group, Grow, Alone, Shaped;
    RoundKeeps(ids, labels);
    SlackNatural(ids, labels);
    SlackNatural(ids, Round(ids, labels));
    if Round(ids, labels) == labels {
      assert labels[id] == ShortId(id) by { AloneAt(labels, id); }
    } else {
      AloneStays(ids, labels, id);
      SettleKeeps(ids, Round(ids, labels), id);
    }
  }

  lemma AloneAt(labels: map<string, string>, id: string)
    requires Alone(labels, id)
    ensures id in labels && labels[id] == ShortId(id)
  {
  }

  lemma AloneStays(ids: seq<string>, labels: map<string, string>, id: string)
    requires Labelled(ids, labels) && (forall x :: x in labels ==> x in ids)
    requires multiset(ids)[id] == 1 && Alone(labels, id)
    ensures Alone(Round(ids, labels), id)
  {
    hide Group, Grow;
    var g := Group(ids, labels, labels[id]);
    forall x ensures multiset(g)[x] == if x == id then 1 else 0 { GroupMembers(ids, labels, labels[id], x); }
    assert multiset(g) == multiset{id};
    assert |g| == |multiset(g)| == 1;
    forall x | x in labels && x != id
      ensures RoundLabel(ids, labels, x) != ShortId(id)
      ensures RoundLabel(ids, labels, x) == ShortId(x) || |RoundLabel(ids, labels, x)| > 8
    {
      GrowFacts(x, labels[x], multiset(ids)[x]);
      assert x in multiset(ids);
    }
  }

  lemma GroupPermutes(ids: seq<string>, ids': seq<string>, labels: map<string, string>, t: string)
    requires multiset(ids) == multiset(ids')
    ensures |Group(ids, labels, t)| == |Group(ids', labels, t)|
  {
    var g, g' := Group(ids, labels, t), Group(ids', labels, t);
    forall id ensures multiset(g)[id] == multiset(g')[id] {
      GroupMembers(ids, labels, t, id);
      GroupMembers(ids', labels, t, id);
    }
    assert multiset(g) == multiset(g');
    assert |g| == |multiset(g)| == |multiset(g')| == |g'|;
  }

  lemma {:induction false} SettlePermutes(ids: seq<string>, ids': seq<string>, labels: map<string, string>)
    requires multiset(ids) == multiset(ids')
    requires Labelled(ids, labels) && Labelled(ids', labels) && forall x :: x in labels ==> x in ids && x in ids'
    ensures Settle(ids, labels) == Settle(ids', labels)
    decreases Slack(ids, labels)
  {
    hide Shaped, Slack, Grow, Group;
    RoundKeeps(ids, labels);
    RoundKeeps(ids', labels);
    SlackNatural(ids, labels);
    SlackNatural(ids, Round(ids, labels));
    forall id | id in labels ensures RoundLabel(ids, labels, id) == RoundLabel(ids', labels, id) {
      GroupPermutes(ids, ids', labels, labels[id]);
    }
    assert Round(ids, labels) == Round(ids', labels);
    if Round(ids, labels) != labels { SettlePermutes(ids, ids', Round(ids, labels)); }
  }

  /** The labels do not depend on the order in which the ids are listed either. */
  lemma OrderIrrelevant(ids: seq<string>, ids': seq<string>)
    requires multiset(ids) == multiset(ids')
    ensures Labelling(ids) == Labelling(ids')
  {
    forall x ensures x in ids <==> x in ids' { assert x in ids <==> x in multiset(ids); }
    assert Shorts(ids) == Shorts(ids');
    SettlePermutes(ids, ids', Shorts(ids));
  }

  // --- The loops ----------------------------------------------------------------------

  /** Groups of ids by current text, in list order. */
  method GroupByLabel(ids: seq<string>, labels: map<string, string>) returns (groups: map<string, seq<string>>)
    requires forall id :: id in ids ==> id in labels
    ensures forall id :: id in ids ==> labels[id] in groups
    ensures forall t :: t in groups ==> groups[t] == Group(ids, labels, t)
  {
    groups := map[];
    for i := 0 to |ids|
      invariant forall id :: id in ids[..i] ==> labels[id] in groups
      invariant forall t :: Group(ids[..i], labels, t) == if t in groups then groups[t] else []
    {
      var id := ids[i];
      assert ids[..i + 1] == ids[..i] + [id];
      var t := labels[id];
      forall u { GroupSnoc(ids[..i], id, labels, u); }
      assert forall u :: u != t ==> Group(ids[..i], labels, u) + [] == Group(ids[..i], labels, u);
      groups := groups[t := (if t in groups then groups[t] else []) + [id]];
    }
    assert ids[..|ids|] == ids;
  }

  ghost predicate NoShorter(a: map<string, string>, b: map<string, string>) {
    a.Keys == b.Keys && forall id :: id in a ==> |a[id]| <= |b[id]|
  }

  ghost predicate Longer(a: map<string, string>, b: map<string, string>) {
    a.Keys == b.Keys && exists id :: id in a && |a[id]| < |b[id]|
  }

  lemma LongerDiffers(a: map<string, string>, b: map<string, string>)
    requires Longer(a, b)
    ensures a != b
  {
  }

  lemma StillLonger(a: map<string, string>, b: map<string, string>, c: map<string, string>)
    requires NoShorter(a, b) && NoShorter(b, c)
    ensures NoShorter(a, c) && (Longer(a, b) || Longer(b, c) ==> Longer(a, c))
  {
    forall id | id in a ensures |a[id]| <= |c[id]| { assert |a[id]| <= |b[id]| <= |c[id]|; }
    if Longer(a, b) {
      var id :| id in a && |a[id]| < |b[id]|;
      assert |a[id]| < |c[id]|;
    }
    if Longer(b, c) {
      var id :| id in b && |b[id]| < |c[id]|;
      assert |a[id]| < |c[id]|;
    }
  }

  /** Every id has grown by its occurrences so far. */
  ghost predicate Grown(labels0: map<string, string>, labels: map<string, string>, seen: multiset<string>) {
    labels.Keys == labels0.Keys && forall id :: id in labels ==> labels[id] == Grow(id, labels0[id], seen[id])
  }

  lemma GrownStep(labels0: map<string, string>, labels: map<string, string>, seen: multiset<string>, id: string)
    requires Grown(labels0, labels, seen) && id in labels
    ensures Grown(labels0, labels[id := Extended(id, labels[id])], seen + multiset{id})
  {
    hide Extended;
  }

  /** Extends every id of one colliding group, once for each of its occurrences. */
  method ExtendGroup(group: seq<string>, labels0: map<string, string>)
    returns (labels: map<string, string>, extended: bool)
    requires forall id :: id in group ==> id in labels0 && Shaped(id, labels0[id]) && |labels0[id]| <= |id|
    ensures Grown(labels0, labels, multiset(group))
    ensures NoShorter(labels0, labels)
    ensures if extended then Longer(labels0, labels) else labels == labels0
  {
    hide Shaped, Extended, Longer, NoShorter, Grow, Grown;
    labels, extended := labels0, false;
    NothingGrown(labels0);
    for i := 0 to |group|
      invariant Grown(labels0, labels, multiset(group[..i])) && labels.Keys == labels0.Keys
      invariant NoShorter(labels0, labels)
      invariant if extended then Longer(labels0, labels) else labels == labels0
    {
      var id := group[i];
      assert id in group;
      assert group[..i + 1] == group[..i] + [id];
      var next := ExtendLabel(id, labels[id]);
      GrownStep(labels0, labels, multiset(group[..i]), id);
      GrownAt(labels0, labels, multiset(group[..i]), id);
      GrowFacts(id, labels0[id], multiset(group[..i])[id]);
      ExtendedFacts(id, labels[id]);
      if next != labels[id] {
        OneLonger(labels, id, next);
        StillLonger(labels0, labels, labels[id := next]);
        labels := labels[id := next];
        extended := true;
      } else {
        assert labels[id := next] == labels;
      }
    }
    assert group[..|group|] == group;
  }

  lemma NothingGrown(labels: map<string, string>)
    ensures Grown(labels, labels, multiset{}) && NoShorter(labels, labels)
  {
  }

  lemma GrownAt(labels0: map<string, string>, labels: map<string, string>, seen: multiset<string>, id: string)
    requires Grown(labels0, labels, seen) && id in labels
    ensures id in labels0 && labels[id] == Grow(id, labels0[id], seen[id])
  {
  }

  lemma OneLonger(labels: map<string, string>, id: string, text: string)
    requires id in labels && |labels[id]| < |text|
    ensures NoShorter(labels, labels[id := text]) && Longer(labels, labels[id := text])
  {
    assert labels[id := text][id] == text;
  }

  /** The groups still to visit have their old labels, the others their new ones. */
  ghost predicate Partly(ids: seq<string>, labels0: map<string, string>, labels: map<string, string>,
                         todo: set<string>)
  {
    && labels.Keys == labels0.Keys
    && forall id :: id in labels ==>
         labels[id] == if labels0[id] in todo then labels0[id] else RoundLabel(ids, labels0, id)
  }

  lemma PartlyStep(ids: seq<string>, labels0: map<string, string>, labels: map<string, string>, todo: set<string>,
                   t: string, grown: map<string, string>)
    requires Partly(ids, labels0, labels, todo) && t in todo
    requires var g := Group(ids, labels0, t); if |g| < 2 then grown == labels else Grown(labels, grown, multiset(g))
    ensures Partly(ids, labels0, grown, todo - {t})
  {
    hide Grow, Group;
    forall id | id in grown
      ensures grown[id] == if labels0[id] in todo - {t} then labels0[id] else RoundLabel(ids, labels0, id)
    {
      GroupMembers(ids, labels0, t, id);
      GrowNothing(id, labels[id]);
    }
  }

  lemma Waiting(ids: seq<string>, labels0: map<string, string>, labels: map<string, string>,
                todo: set<string>, t: string)
    requires Labelled(ids, labels0) && Partly(ids, labels0, labels, todo) && t in todo
    ensures forall id :: id in Group(ids, labels0, t) ==> id in labels && Shaped(id, labels[id]) && |labels[id]| <= |id|
  {
    hide Group, Shaped;
    forall id | id in Group(ids, labels0, t) ensures id in ids && id in labels0 && labels0[id] == t {
      GroupMembers(ids, labels0, t, id);
      assert multiset(Group(ids, labels0, t))[id] > 0;
      assert id in multiset(ids);
    }
  }

  lemma NothingVisited(ids: seq<string>, labels0: map<string, string>, todo: set<string>)
    requires Labelled(ids, labels0) && forall x :: x in labels0 ==> x in ids
    requires forall id :: id in ids ==> labels0[id] in todo
    ensures Partly(ids, labels0, labels0, todo)
  {
  }

  lemma AllVisited(ids: seq<string>, labels0: map<string, string>, labels: map<string, string>)
    requires Partly(ids, labels0, labels, {})
    ensures labels == Round(ids, labels0)
  {
  }

  /** One pass over the groups, which are taken in any order. */
  method ExtendColliding(ids: seq<string>, groups: map<string, seq<string>>, labels0: map<string, string>)
    returns (labels: map<string, string>, extended: bool)
    requires Labelled(ids, labels0) && forall x :: x in labels0 ==> x in ids
    requires forall id :: id in ids ==> labels0[id] in groups
    requires forall t :: t in groups ==> groups[t] == Group(ids, labels0, t)
    ensures labels == Round(ids, labels0)
    ensures extended <==> labels != labels0
  {
    hide Shaped, Grow, Group, Partly, NoShorter, Longer, RoundLabel, Labelled;
    labels, extended := labels0, false;
    var todo := groups.Keys;
    NothingVisited(ids, labels0, todo);
    NothingGrown(labels0);
    while todo != {}
      invariant todo <= groups.Keys
      invariant Partly(ids, labels0, labels, todo) && NoShorter(labels0, labels)
      invariant if extended then Longer(labels0, labels) else labels == labels0
      decreases |todo|
    {
      var t :| t in todo;
      ghost var before := labels;
      if |groups[t]| >= 2 {
        Waiting(ids, labels0, labels, todo, t);
        var grown;
        labels, grown := ExtendGroup(groups[t], labels);
        StillLonger(labels0, before, labels);
        extended := extended || grown;
      }
      PartlyStep(ids, labels0, before, todo, t, labels);
      todo := todo - {t};
    }
    AllVisited(ids, labels0, labels);
    if extended { LongerDiffers(labels0, labels); }
  }

  lemma GrowNothing(id: string, text: string)
    ensures Grow(id, text, 0) == text
  {
  }

  /** Labels that a round leaves alone are distinct. */
  lemma StableDistinct(ids: seq<string>, labels: map<string, string>, a: string, b: string)
    requires Labelled(ids, labels) && Round(ids, labels) == labels
    requires a in ids && b in ids && labels[a] == labels[b]
    ensures a == b
  {
    hide Shaped, Grow, Group;
    var g := Group(ids, labels, labels[a]);
    GroupMembers(ids, labels, labels[a], a);
    GroupMembers(ids, labels, labels[a], b);
    assert a in multiset(g) && b in multiset(g);
    var i :| 0 <= i < |g| && g[i] == a;
    var j :| 0 <= j < |g| && g[j] == b;
    if i != j {
      assert |g| >= 2;
      assert Round(ids, labels)[a] == labels[a] && Round(ids, labels)[b] == labels[b];
      GrowFacts(a, labels[a], multiset(ids)[a]);
      GrowFacts(b, labels[b], multiset(ids)[b]);
    }
  }

  /** For every list of ids the loop terminates and distinct ids end with distinct
      labels, each of an admitted shape and no longer than its id. The labels are a
      function of the ids: the order in which groups are visited does not show. */
  method UniqueLabels(ids: seq<string>) returns (labels: map<string, string>)
    ensures forall x :: x in labels <==> x in ids
    ensures forall id :: id in ids ==> Shaped(id, labels[id]) && |labels[id]| <= |id|
    ensures forall a, b :: a in ids && b in ids && a != b ==> labels[a] != labels[b]
    ensures labels == Labelling(ids)
  {
    hide Slack, Shaped, Group, Grow;
    labels := ShortLabels(ids);
    while true
      invariant Labelled(ids, labels) && forall x :: x in labels <==> x in ids
      invariant Settle(ids, labels) == Labelling(ids)
      decreases Slack(ids, labels)
    {
      SlackNatural(ids, labels);
      RoundKeeps(ids, labels);
      var groups := GroupByLabel(ids, labels);
      var extended;
      ghost var before := labels;
      labels, extended := ExtendColliding(ids, groups, labels);
      if !extended {
        forall a, b | a in ids && b in ids && a != b ensures labels[a] != labels[b] {
          if labels[a] == labels[b] { StableDistinct(ids, labels, a, b); }
        }
        return;
      }
      SlackNatural(ids, labels);
    }
  }

  method ShortLabels(ids: seq<string>) returns (labels: map<string, string>)
    ensures labels == Shorts(ids)
  {
    labels := map[];
    for i := 0 to |ids|
      invariant forall x :: x in labels <==> x in ids[..i]
      invariant forall x :: x in labels ==> labels[x] == ShortId(x)
    {
      assert ids[..i + 1] == ids[..i] + [ids[i]];
      labels := labels[ids[i] := ShortId(ids[i])];
    }
    assert ids[..|ids|] == ids;
  }
}
