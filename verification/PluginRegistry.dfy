/** The plugin version registry (internal/db/plugin_repo.go). The table is a map
    from row id to row and every transaction is one atomic step; a transaction
    that ends in an error leaves the table as it was. */
module PluginRegistry {
  import opened Wrappers
  import opened Sums

  datatype Status = Active | Disabled | Archived

  datatype Row = Row(name: string, slug: string, version: string, status: Status, root: bool,
                     supersededBy: Option<nat>, previous: Option<nat>)

  type Table = map<nat, Row>

  /** The identity of a submitted plugin; the other columns are carried along. */
  datatype Plugin = Plugin(name: string, slug: string, version: string)

  datatype Error = NotFound | Duplicate | NoPrevious | ConstraintViolation | DanglingReference

  // --- Queries ---------------------------------------------------------------

  predicate IsActive(t: Table, name: string, id: nat) { id in t && t[id].name == name && t[id].status == Active }

  predicate IsActiveSlug(t: Table, slug: string, id: nat) { id in t && t[id].slug == slug && t[id].status == Active }

  predicate IsVersion(t: Table, name: string, version: string, id: nat) {
    id in t && t[id].name == name && t[id].version == version
  }

  ghost function ActiveOf(t: Table, name: string): (r: Option<nat>)
    ensures r.Some? ==> IsActive(t, name, r.value)
    ensures r.None? ==> forall id :: !IsActive(t, name, id)
  {
    if exists id :: IsActive(t, name, id) then var id :| IsActive(t, name, id); Some(id) else None
  }

  /** A slug query returns some active row of the slug; several may share it. */
  ghost predicate Picks(t: Table, slug: string, was: Option<nat>) {
    && (was.Some? ==> IsActiveSlug(t, slug, was.value))
    && (was.None? ==> forall id :: !IsActiveSlug(t, slug, id))
  }

  ghost function VersionOf(t: Table, name: string, version: string): (r: Option<nat>)
    ensures r.Some? ==> IsVersion(t, name, version, r.value)
    ensures r.None? ==> forall id :: !IsVersion(t, name, version, id)
  {
    if exists id :: IsVersion(t, name, version, id) then var id :| IsVersion(t, name, version, id); Some(id) else None
  }

  // --- Transactions as functions ------------------------------------------------

  /** The old active row, if any, is archived in favour of the target, and the
      target becomes active with the old row as its previous version. */
  function Supersede(t: Table, was: Option<nat>, target: nat, row: Row): Table
    requires was.Some? ==> was.value in t
  {
    (if was.Some? then t[was.value := t[was.value].(status := Archived, supersededBy := Some(target))] else t)
    [target := row.(status := Active, supersededBy := None, previous := was)]
  }

  function NewRow(p: Plugin, root: bool): Row { Row(p.name, p.slug, p.version, Active, root, None, None) }

  ghost function Register(t: Table, p: Plugin, id: nat): (Table, Result<nat, Error>) {
    if VersionOf(t, p.name, p.version).Some? then (t, Failure(Duplicate)) else
      var was := ActiveOf(t, p.name);
      (Supersede(t, was, id, NewRow(p, was.None?)), Success(id))
  }

  /** Another active row of the name makes the partial unique index fire. */
  ghost predicate IndexFires(t: Table, name: string, except: nat) {
    exists id :: id != except && IsActive(t, name, id)
  }

  ghost predicate SomeActive(t: Table, name: string) { exists id :: IsActive(t, name, id) }

  lemma IndexAfterArchiving(t: Table, name: string, was: nat)
    requires was in t
    ensures IndexFires(t, name, was) <==> SomeActive(t[was := t[was].(status := Archived)], name)
  {
    var t' := t[was := t[was].(status := Archived)];
    forall id: nat ensures IsActive(t', name, id) <==> id != was && IsActive(t, name, id) { }
  }

  ghost function Update(t: Table, p: Plugin, id: nat, was: Option<nat>): (Table, Result<nat, Error>)
    requires Picks(t, p.slug, was)
  {
    if was.None? then (t, Failure(NotFound))
    else if t[was.value].version == p.version || VersionOf(t, p.name, p.version).Some? then (t, Failure(Duplicate))
    else if IndexFires(t, p.name, was.value) then (t, Failure(ConstraintViolation))
    else (Supersede(t, was, id, NewRow(p, false)), Success(id))
  }

  ghost function Activate(t: Table, name: string, target: nat): (Table, Result<nat, Error>) {
    var was := ActiveOf(t, name);
    if was == Some(target) then (t, Success(target))
    else if was.Some? && target !in t then (t, Failure(DanglingReference))
    else if target !in t || t[target].name != name then (t, Failure(NotFound))
    else (Supersede(t, was, target, t[target]), Success(target))
  }

  ghost function RollbackTo(t: Table, slug: string, version: string, was: Option<nat>): (Table, Result<nat, Error>)
    requires Picks(t, slug, was)
  {
    if was.None? then (t, Failure(NotFound)) else
      var target := VersionOf(t, t[was.value].name, version);
      if target.None? then (t, Failure(NotFound))
      else if target == was then (t, Failure(Duplicate))
      else (Supersede(t, was, target.value, t[target.value]), Success(target.value))
  }

  /** Rollback when nothing happens between its read and its activation. */
  ghost function Rollback(t: Table, name: string): (Table, Result<nat, Error>) {
    var was := ActiveOf(t, name);
    if was.None? then (t, Failure(NotFound))
    else if t[was.value].previous.None? then (t, Failure(NoPrevious))
    else Activate(t, name, t[was.value].previous.value)
  }

  ghost function SetStatus(t: Table, name: string, status: Status): (Table, Result<nat, Error>) {
    var was := ActiveOf(t, name);
    if was.None? then (t, Failure(NotFound))
    else (t[was.value := t[was.value].(status := status)], Success(was.value))
  }

  // --- The registry invariant -----------------------------------------------------

  ghost predicate OneActive(t: Table) {
    forall i, j, name :: IsActive(t, name, i) && IsActive(t, name, j) ==> i == j
  }

  ghost predicate VersionsUnique(t: Table) {
    forall i, j :: i in t && j in t && t[i].name == t[j].name && t[i].version == t[j].version ==> i == j
  }

  /** Both pointers name stored rows; an active row is not superseded. */
  ghost predicate PointersOk(t: Table) {
    forall i :: i in t ==>
      && (t[i].status == Active ==> t[i].supersededBy == None)
      && (t[i].supersededBy.Some? ==> t[i].supersededBy.value in t)
      && (t[i].previous.Some? ==> t[i].previous.value in t)
  }

  /** Both pointers stay within the name. */
  ghost predicate WithinName(t: Table) {
    forall i :: i in t ==>
      && (t[i].supersededBy.Some? ==> t[i].supersededBy.value in t && t[t[i].supersededBy.value].name == t[i].name)
      && (t[i].previous.Some? ==> t[i].previous.value in t && t[t[i].previous.value].name == t[i].name)
  }

  /** A slug leads to one active row at most. */
  ghost predicate OneActiveSlug(t: Table) {
    forall i, j, slug :: IsActiveSlug(t, slug, i) && IsActiveSlug(t, slug, j) ==> i == j
  }

  /** A rank that falls along every superseded_by pointer. */
  ghost predicate Ranked(t: Table, rank: map<nat, nat>) {
    forall i :: i in t ==>
      && i in rank
      && (t[i].supersededBy.Some? ==> t[i].supersededBy.value in rank && rank[t[i].supersededBy.value] < rank[i])
  }

  ghost predicate Acyclic(t: Table) { exists rank :: Ranked(t, rank) }

  ghost predicate Valid(t: Table) {
    OneActive(t) && VersionsUnique(t) && PointersOk(t) && Acyclic(t)
  }

  /** Following superseded_by pointers never returns to where it started. */
  ghost predicate Chain(t: Table, path: seq<nat>) {
    && (forall k :: 0 <= k < |path| ==> path[k] in t)
    && forall k :: 0 <= k < |path| - 1 ==> t[path[k]].supersededBy == Some(path[k + 1])
  }

  lemma {:induction false} RankFalls(t: Table, rank: map<nat, nat>, path: seq<nat>)
    requires Ranked(t, rank) && Chain(t, path) && |path| >= 2
    ensures path[0] in rank && path[|path| - 1] in rank && rank[path[|path| - 1]] < rank[path[0]]
  {
    if |path| > 2 {
      var front := path[..|path| - 1];
      assert Chain(t, front);
      RankFalls(t, rank, front);
      assert t[path[|path| - 2]].supersededBy == Some(path[|path| - 2 + 1]);
    } else {
      assert t[path[0]].supersededBy == Some(path[0 + 1]);
    }
  }

  lemma NoCycles(t: Table, path: seq<nat>)
    requires Valid(t) && Chain(t, path) && |path| >= 2
    ensures path[0] != path[|path| - 1]
  {
    var rank :| Ranked(t, rank);
    RankFalls(t, rank, path);
  }

  lemma SupersedeRanks(t: Table, was: Option<nat>, target: nat, row: Row, rank: map<nat, nat>)
    requires Ranked(t, rank) && (was.Some? ==> was.value in t && was.value != target)
    ensures Acyclic(Supersede(t, was, target, row))
  {
    var t' := Supersede(t, was, target, row);
    var lifted := map i | i in t'.Keys + rank.Keys :: if i == target then 0 else (if i in rank then rank[i] else 0) + 1;
    assert Ranked(t', lifted);
  }

  /** The situation in which a transaction puts a stored row, or a new version, in
      the place of an active row. */
  ghost predicate MaySupersede(t: Table, was: Option<nat>, target: nat, row: Row) {
    && Valid(t) && was != Some(target)
    && (was.Some? ==> was.value in t && t[was.value].status == Active)
    && (forall i: nat :: IsActive(t, row.name, i) ==> was == Some(i))
    && (target in t ==> row == t[target])
    && (target !in t ==> VersionOf(t, row.name, row.version).None?)
  }

  lemma SupersedeOneActive(t: Table, was: Option<nat>, target: nat, row: Row)
    requires MaySupersede(t, was, target, row)
    ensures OneActive(Supersede(t, was, target, row))
    ensures ActiveOf(Supersede(t, was, target, row), row.name) == Some(target)
  {
    var t' := Supersede(t, was, target, row);
    forall i, j, name | IsActive(t', name, i) && IsActive(t', name, j) ensures i == j {
      assert i == target || IsActive(t, name, i);
      assert j == target || IsActive(t, name, j);
      assert name == row.name && was.Some? ==> i != was.value && j != was.value;
    }
    assert IsActive(t', row.name, target);
  }

  lemma SupersedeVersions(t: Table, was: Option<nat>, target: nat, row: Row)
    requires MaySupersede(t, was, target, row)
    ensures VersionsUnique(Supersede(t, was, target, row))
  {
    var t' := Supersede(t, was, target, row);
    forall i | i in t' ensures i == target || (i in t && t'[i].name == t[i].name && t'[i].version == t[i].version) { }
    if target !in t {
      forall i | i in t && t[i].name == row.name ensures t[i].version != row.version {
        assert !IsVersion(t, row.name, row.version, i);
      }
    }
  }

  /** Every way of changing the active version keeps the invariant: rollback
      re-roots the superseded_by pointers without ever closing a cycle. */
  lemma SupersedeKeeps(t: Table, was: Option<nat>, target: nat, row: Row)
    requires MaySupersede(t, was, target, row)
    ensures Valid(Supersede(t, was, target, row))
    ensures ActiveOf(Supersede(t, was, target, row), row.name) == Some(target)
  {
    var rank :| Ranked(t, rank);
    SupersedeRanks(t, was, target, row, rank);
    SupersedeOneActive(t, was, target, row);
    SupersedeVersions(t, was, target, row);
  }

  /** It keeps the pointers within the name exactly when it replaces a row by one of
      the same name. */
  lemma SupersedeWithinIff(t: Table, was: Option<nat>, target: nat, row: Row)
    requires MaySupersede(t, was, target, row) && WithinName(t)
    ensures WithinName(Supersede(t, was, target, row)) <==> (was.Some? ==> t[was.value].name == row.name)
  {
    hide OneActive, VersionsUnique, Acyclic, PointersOk;
    var t' := Supersede(t, was, target, row);
    hide MaySupersede;
    NamesStay(t, was, target, row);
    assert target in t' && t'[target].name == row.name && t'[target].previous == was;
  }

  lemma NamesStay(t: Table, was: Option<nat>, target: nat, row: Row)
    requires MaySupersede(t, was, target, row)
    ensures forall i :: i in t ==>
      i in Supersede(t, was, target, row) && Supersede(t, was, target, row)[i].name == t[i].name
    ensures was.Some? ==> was.value in t && was.value != target
  {
    hide OneActive, VersionsUnique, Acyclic, PointersOk;
  }

  // --- Steps --------------------------------------------------------------------

  /** One transaction each. Rollback reads the previous version and then activates
      it in a transaction of its own, so it is a DoActivate of whatever it read. */
  datatype Op =
    | DoRegister(p: Plugin, id: nat)
    | DoUpdate(p: Plugin, id: nat, was: Option<nat>)
    | DoActivate(name: string, target: nat)
    | DoRollbackTo(slug: string, version: string, was: Option<nat>)
    | DoSetStatus(name: string, status: Status)

  ghost function Apply(t: Table, op: Op): (Table, Result<nat, Error>)
    requires Admissible(t, op)
  {
    match op
    case DoRegister(p, id) => Register(t, p, id)
    case DoUpdate(p, id, was) => Update(t, p, id, was)
    case DoActivate(name, target) => Activate(t, name, target)
    case DoRollbackTo(slug, version, was) => RollbackTo(t, slug, version, was)
    case DoSetStatus(name, status) => SetStatus(t, name, status)
  }

  /** New rows get unused ids, slug queries return a row they match, and statuses are
      set by Disable and Archive only. Names and slugs are arbitrary. */
  ghost predicate Admissible(t: Table, op: Op) {
    match op
    case DoRegister(p, id) => id !in t
    case DoUpdate(p, id, was) => id !in t && Picks(t, p.slug, was)
    case DoActivate(_, _) => true
    case DoRollbackTo(slug, _, was) => Picks(t, slug, was)
    case DoSetStatus(_, status) => status != Active
  }

  lemma RegisterKeeps(t: Table, p: Plugin, id: nat)
    requires Valid(t) && id !in t
    ensures Valid(Register(t, p, id).0)
    ensures WithinName(t) ==> WithinName(Register(t, p, id).0)
  {
    hide Acyclic, PointersOk, VersionsUnique, WithinName;
    var was := ActiveOf(t, p.name);
    if VersionOf(t, p.name, p.version).None? {
      SupersedeKeeps(t, was, id, NewRow(p, was.None?));
      if WithinName(t) { SupersedeWithinIff(t, was, id, NewRow(p, was.None?)); }
    }
  }

  /** Update keeps the invariant whatever name it is given. It keeps the pointers
      within the name, and can be rolled back, exactly when that is the name of the
      row it replaces. The index stops it only when it is not. */
  lemma UpdateWithinIff(t: Table, p: Plugin, id: nat, was: Option<nat>)
    requires Valid(t) && id !in t && Picks(t, p.slug, was)
    ensures var (t', r) := Update(t, p, id, was);
      && Valid(t')
      && (r == Failure(ConstraintViolation) ==> t[was.value].name != p.name)
      && (r.Success? ==>
           && (WithinName(t) ==> (WithinName(t') <==> t[was.value].name == p.name))
           && (Rollback(t', p.name).1.Success? <==> t[was.value].name == p.name))
  {
    hide Acyclic, PointersOk, VersionsUnique, WithinName;
    var (t', r) := Update(t, p, id, was);
    if was.Some? { assert IsActive(t, t[was.value].name, was.value); }
    if r.Success? {
      SupersedeKeeps(t, was, id, NewRow(p, false));
      if WithinName(t) { SupersedeWithinIff(t, was, id, NewRow(p, false)); }
      assert t'[id].previous == was && t'[was.value].name == t[was.value].name;
    }
  }

  lemma ActivateKeeps(t: Table, name: string, target: nat)
    requires Valid(t)
    ensures Valid(Activate(t, name, target).0)
    ensures WithinName(t) ==> WithinName(Activate(t, name, target).0)
    ensures Activate(t, name, target).1.Success? <==> target in t && t[target].name == name
    ensures Activate(t, name, target).1.Success? ==> ActiveOf(Activate(t, name, target).0, name) == Some(target)
  {
    hide Acyclic, PointersOk, VersionsUnique, OneActive, WithinName;
    var was := ActiveOf(t, name);
    if target in t && t[target].name == name && was != Some(target) {
      OnlyActive(t, name);
      SupersedeKeeps(t, was, target, t[target]);
      if WithinName(t) { SupersedeWithinIff(t, was, target, t[target]); }
    }
  }

  lemma OnlyActive(t: Table, name: string)
    requires Valid(t)
    ensures forall i: nat :: IsActive(t, name, i) ==> ActiveOf(t, name) == Some(i)
  {
  }

  lemma RollbackToKeeps(t: Table, slug: string, version: string, was: Option<nat>)
    requires Valid(t) && Picks(t, slug, was)
    ensures Valid(RollbackTo(t, slug, version, was).0)
    ensures WithinName(t) ==> WithinName(RollbackTo(t, slug, version, was).0)
  {
    hide Acyclic, PointersOk, VersionsUnique, WithinName;
    if was.Some? {
      var name := t[was.value].name;
      var target := VersionOf(t, name, version);
      assert IsActive(t, name, was.value);
      if target.Some? && target != was {
        SupersedeKeeps(t, was, target.value, t[target.value]);
        if WithinName(t) { SupersedeWithinIff(t, was, target.value, t[target.value]); }
      }
    }
  }

  lemma SetStatusKeeps(t: Table, name: string, status: Status)
    requires Valid(t) && status != Active
    ensures Valid(SetStatus(t, name, status).0)
    ensures WithinName(t) ==> WithinName(SetStatus(t, name, status).0)
  {
    var was := ActiveOf(t, name);
    if was.Some? {
      var t' := SetStatus(t, name, status).0;
      var rank :| Ranked(t, rank);
      assert Ranked(t', rank);
      forall i, j, n | IsActive(t', n, i) && IsActive(t', n, j) ensures i == j {
        assert IsActive(t, n, i) && IsActive(t, n, j);
      }
    }
  }

  /** An update that succeeds under the name of the row it replaces. */
  ghost predicate KeepsName(t: Table, op: Op) {
    op.DoUpdate? && op.was.Some? && op.was.value in t ==> t[op.was.value].name == op.p.name
  }

  /** Every transaction keeps the invariant, and every one but an update under another
      name keeps the pointers within the name. */
  lemma StepKeeps(t: Table, op: Op)
    requires Valid(t) && Admissible(t, op)
    ensures Valid(Apply(t, op).0)
    ensures WithinName(t) && KeepsName(t, op) ==> WithinName(Apply(t, op).0)
  {
    hide Valid, WithinName, Supersede;
    match op
    case DoRegister(p, id) => RegisterKeeps(t, p, id);
    case DoUpdate(p, id, was) => UpdateWithinIff(t, p, id, was);
    case DoActivate(name, target) => ActivateKeeps(t, name, target);
    case DoRollbackTo(slug, version, was) => RollbackToKeeps(t, slug, version, was);
    case DoSetStatus(name, status) => SetStatusKeeps(t, name, status);
  }

  // --- What each transaction does to the rows --------------------------------------

  /** The active row, if there is one, is archived in favour of the target; the target
      is active, points to nothing and remembers it; every other row and the identity of
      every stored row stay. */
  ghost predicate HandsOver(t: Table, t': Table, was: Option<nat>, target: nat) {
    && t'.Keys == t.Keys + {target}
    && t'[target].status == Active && t'[target].supersededBy == None && t'[target].previous == was
    && (was.Some? ==>
         && was.value in t && was.value != target
         && t'[was.value].status == Archived && t'[was.value].supersededBy == Some(target)
         && t'[was.value].previous == t[was.value].previous)
    && (forall i :: i in t && i != target && was != Some(i) ==> t'[i] == t[i])
    && forall i :: i in t ==>
         && t'[i].name == t[i].name && t'[i].slug == t[i].slug
         && t'[i].version == t[i].version && t'[i].root == t[i].root
  }

  /** A registration succeeds exactly when the name has no such version, and is the root
      exactly when the name had no active one. */
  lemma RegisterEffect(t: Table, p: Plugin, id: nat)
    requires Valid(t) && id !in t
    ensures var (t', r) := Register(t, p, id);
      var taken := exists i :: i in t && t[i].name == p.name && t[i].version == p.version;
      && r == (if taken then Failure(Duplicate) else Success(id))
      && (taken ==> t' == t)
      && (!taken ==>
           && HandsOver(t, t', ActiveOf(t, p.name), id)
           && t'[id].name == p.name && t'[id].slug == p.slug && t'[id].version == p.version
           && (t'[id].root <==> forall i :: i in t && t[i].name == p.name ==> t[i].status != Active))
  {
    hide Valid;
    forall i | i in t ensures IsVersion(t, p.name, p.version, i) <==> t[i].name == p.name && t[i].version == p.version {
    }
    forall i | i in t ensures IsActive(t, p.name, i) <==> t[i].name == p.name && t[i].status == Active { }
  }

  /** An update needs an active row of its slug with another version, a version new to
      its name, and no other active row of that name. */
  lemma UpdateEffect(t: Table, p: Plugin, id: nat, was: Option<nat>)
    requires Valid(t) && id !in t && Picks(t, p.slug, was)
    ensures var (t', r) := Update(t, p, id, was);
      var taken := exists i :: i in t && t[i].name == p.name && t[i].version == p.version;
      && (r == Failure(NotFound) <==> forall i :: i in t && t[i].slug == p.slug ==> t[i].status != Active)
      && (r == Failure(Duplicate) <==> was.Some? && (t[was.value].version == p.version || taken))
      && (r == Failure(ConstraintViolation) <==>
           && was.Some? && t[was.value].version != p.version && !taken
           && exists i :: i in t && was != Some(i) && t[i].name == p.name && t[i].status == Active)
      && (r.Failure? ==> t' == t && r.error in {NotFound, Duplicate, ConstraintViolation})
      && (r.Success? ==>
           && r.value == id && was.Some? && HandsOver(t, t', was, id)
           && t'[id].name == p.name && t'[id].slug == p.slug && t'[id].version == p.version && !t'[id].root)
  {
    hide Valid;
    forall i | i in t ensures IsVersion(t, p.name, p.version, i) <==> t[i].name == p.name && t[i].version == p.version {
    }
    forall i | i in t
      ensures IsActive(t, p.name, i) <==> t[i].name == p.name && t[i].status == Active
      ensures IsActiveSlug(t, p.slug, i) <==> t[i].slug == p.slug && t[i].status == Active
    {
    }
  }

  /** Activation succeeds exactly for stored versions of the name; the active one stays
      as it is. */
  lemma ActivateEffect(t: Table, name: string, target: nat)
    requires Valid(t)
    ensures var (t', r) := Activate(t, name, target);
      && (r == Success(target) <==> target in t && t[target].name == name)
      && (r == Failure(DanglingReference) <==> target !in t && ActiveOf(t, name).Some?)
      && (r.Failure? ==> t' == t && r.error in {NotFound, DanglingReference})
      && (r.Success? ==> if t[target].status == Active then t' == t else HandsOver(t, t', ActiveOf(t, name), target))
  {
    OnlyActive(t, name);
    hide Valid;
    assert target in t && t[target].name == name && t[target].status == Active ==> IsActive(t, name, target);
  }

  /** A rollback to a version succeeds exactly when another row of the active row's name
      has it, and activates that row. */
  lemma RollbackToEffect(t: Table, slug: string, version: string, was: Option<nat>)
    requires Valid(t) && Picks(t, slug, was)
    ensures var (t', r) := RollbackTo(t, slug, version, was);
      && (r == Failure(Duplicate) <==> was.Some? && t[was.value].version == version)
      && (r.Success? <==>
           && was.Some? && t[was.value].version != version
           && exists i :: i in t && t[i].name == t[was.value].name && t[i].version == version)
      && (r.Failure? ==> t' == t && r.error in {NotFound, Duplicate})
      && (r.Success? ==>
           && r.value in t && t[r.value].name == t[was.value].name && t[r.value].version == version
           && HandsOver(t, t', was, r.value))
  {
    hide Acyclic, OneActive, PointersOk;
    if was.Some? {
      var name := t[was.value].name;
      forall i | i in t ensures IsVersion(t, name, version, i) <==> t[i].name == name && t[i].version == version { }
    }
  }

  /** Disable and Archive change the status of the name's active row and nothing else. */
  lemma SetStatusEffect(t: Table, name: string, status: Status)
    ensures var (t', r) := SetStatus(t, name, status);
      && (r.Failure? <==> forall i :: i in t && t[i].name == name ==> t[i].status != Active)
      && (r.Failure? ==> r.error == NotFound && t' == t)
      && (r.Success? ==>
           && r.value in t && t[r.value].name == name && t[r.value].status == Active
           && t'.Keys == t.Keys && t'[r.value] == t[r.value].(status := status)
           && forall i :: i in t && i != r.value ==> t'[i] == t[i])
  {
    forall i | i in t ensures IsActive(t, name, i) <==> t[i].name == name && t[i].status == Active { }
  }

  // --- Runs ---------------------------------------------------------------------

  /** The table after a run, in which inadmissible operations do not happen. */
  ghost function After(ops: seq<Op>): Table
  {
    if ops == [] then map[] else
      var t, op := After(ops[..|ops| - 1]), ops[|ops| - 1];
      if Admissible(t, op) then Apply(t, op).0 else t
  }

  /** In every run, whatever its names and slugs, each name has one active version at
      most, no active version is superseded and the pointers are acyclic. They stay
      within the name when every update keeps the name of the row it replaces. */
  lemma {:induction false} RunKeeps(ops: seq<Op>)
    ensures Valid(After(ops))
    ensures (forall k :: 0 <= k < |ops| ==> KeepsName(After(ops[..k]), ops[k])) ==> WithinName(After(ops))
  {
    hide Apply, KeepsName;
    if ops == [] {
      var none: map<nat, nat> := map[];
      assert Ranked(map[], none);
    } else {
      var front := ops[..|ops| - 1];
      assert forall k :: 0 <= k < |front| ==> front[..k] == ops[..k] && front[k] == ops[k];
      RunKeeps(front);
      if Admissible(After(front), ops[|ops| - 1]) { StepKeeps(After(front), ops[|ops| - 1]); }
    }
  }

  /** Rows are never lost and never renamed, so the version a rollback read can still
      be activated after whatever happened in between, and is the active one then. */
  lemma {:induction false} ReadStaysActivatable(ops: seq<Op>, k: nat, name: string)
    requires k <= |ops| && Rollback(After(ops[..k]), name).1.Success?
    ensures var previous := After(ops[..k])[ActiveOf(After(ops[..k]), name).value].previous.value;
      var (t, r) := Activate(After(ops), name, previous);
      r.Success? && ActiveOf(t, name) == Some(previous)
  {
    hide After, Valid;
    var t := After(ops[..k]);
    RunKeeps(ops[..k]);
    RunKeeps(ops);
    var previous := t[ActiveOf(t, name).value].previous.value;
    ActivateKeeps(t, name, previous);
    RowsStay(ops, k, previous);
    ActivateKeeps(After(ops), name, previous);
  }

  lemma {:induction false} RowsStay(ops: seq<Op>, k: nat, id: nat)
    requires k <= |ops| && id in After(ops[..k])
    ensures id in After(ops) && After(ops)[id].name == After(ops[..k])[id].name
  {
    if k == |ops| {
      assert ops[..k] == ops;
    } else {
      var front := ops[..|ops| - 1];
      assert front[..k] == ops[..k];
      RowsStay(front, k, id);
      if Admissible(After(front), ops[|ops| - 1]) { RowStays(After(front), ops[|ops| - 1], id); }
    }
  }

  lemma RowStays(t: Table, op: Op, id: nat)
    requires Admissible(t, op) && id in t
    ensures id in Apply(t, op).0 && Apply(t, op).0[id].name == t[id].name
  {
    hide Picks, IndexFires;
  }

  /** A successful rollback followed by another restores the active row, all of
      it, and touches only the two versions that traded places. */
  lemma RollbackTwice(t: Table, name: string)
    requires Valid(t) && Rollback(t, name).1.Success?
    ensures var t1 := Rollback(t, name).0;
      var t2 := Rollback(t1, name).0;
      var a := ActiveOf(t, name);
      && Rollback(t1, name).1.Success?
      && ActiveOf(t2, name) == a && t2[a.value] == t[a.value]
      && t2.Keys == t.Keys
      && forall i :: i in t && i != a.value && Some(i) != t[a.value].previous ==> t2[i] == t[i]
  {
    hide Acyclic, OneActive, VersionsUnique, WithinName;
    var a := ActiveOf(t, name).value;
    var b := t[a].previous.value;
    var t1 := Rollback(t, name).0;
    ActivateKeeps(t, name, b);
    if b != a {
      assert t1 == Supersede(t, Some(a), b, t[b]);
      assert ActiveOf(t1, name) == Some(b) && t1[b].previous == Some(a);
      ActivateKeeps(t1, name, a);
      assert Rollback(t1, name).0 == Supersede(t1, Some(b), a, t1[a]);
    }
  }

  // --- Names that share a slug ----------------------------------------------------

  /** The slug of an operation's new active row has no other active row. */
  ghost predicate SlugFree(t: Table, slug: string, was: Option<nat>) {
    forall i: nat :: IsActiveSlug(t, slug, i) ==> was == Some(i)
  }

  /** Putting a row in the place of an active one leaves every slug with one active row
      at most exactly when the row's slug has no other. */
  lemma SupersedeSlugIff(t: Table, was: Option<nat>, target: nat, row: Row)
    requires MaySupersede(t, was, target, row) && OneActiveSlug(t) && (target in t ==> t[target].status != Active)
    ensures OneActiveSlug(Supersede(t, was, target, row)) <==> SlugFree(t, row.slug, was)
  {
    hide Valid;
    var t' := Supersede(t, was, target, row);
    assert IsActiveSlug(t', row.slug, target);
    forall i, slug | i != target
      ensures IsActiveSlug(t', slug, i) <==> IsActiveSlug(t, slug, i) && was != Some(i) { }
    if i: nat :| IsActiveSlug(t, row.slug, i) && was != Some(i) {
      assert i != target;
      assert IsActiveSlug(t', row.slug, i);
    } else {
      forall i, j, slug | IsActiveSlug(t', slug, i) && IsActiveSlug(t', slug, j) ensures i == j {
        assert i == target || IsActiveSlug(t, slug, i);
        assert j == target || IsActiveSlug(t, slug, j);
      }
    }
  }

  /** The operation, if it goes through, leaves its slug with no active row of another
      name. Update replaces a row of the slug it was given; Disable and Archive take
      a row away. */
  ghost predicate KeepsSlug(t: Table, op: Op)
    requires Admissible(t, op)
  {
    match op
    case DoRegister(p, id) => Register(t, p, id).1.Success? ==> OnlyName(t, p.slug, p.name)
    case DoUpdate(_, _, _) => true
    case DoActivate(name, target) => Activate(t, name, target).1.Success? ==> OnlyName(t, t[target].slug, name)
    case DoRollbackTo(slug, version, was) =>
      RollbackTo(t, slug, version, was).1.Success? ==>
        OnlyName(t, t[RollbackTo(t, slug, version, was).1.value].slug, t[was.value].name)
    case DoSetStatus(_, _) => true
  }

  ghost predicate OnlyName(t: Table, slug: string, name: string) {
    forall i :: IsActiveSlug(t, slug, i) ==> t[i].name == name
  }

  /** An active row of the name is the one that is replaced. */
  lemma OnlyNameIsFree(t: Table, slug: string, name: string, was: Option<nat>)
    requires Valid(t) && was == ActiveOf(t, name)
    ensures OnlyName(t, slug, name) <==> SlugFree(t, slug, was)
  {
    OnlyActive(t, name);
    forall i | IsActiveSlug(t, slug, i)
      ensures t[i].name == name <==> was == Some(i)
    {
      assert IsActive(t, t[i].name, i);
    }
  }

  /** A slug still leads to one active row after a registration exactly when no other
      name has an active row under it. */
  lemma RegisterSlugIff(t: Table, p: Plugin, id: nat)
    requires Valid(t) && OneActiveSlug(t) && id !in t && Register(t, p, id).1.Success?
    ensures OneActiveSlug(Register(t, p, id).0) <==> OnlyName(t, p.slug, p.name)
  {
    hide Acyclic, PointersOk, VersionsUnique, OneActiveSlug, SlugFree, OnlyName;
    var was := ActiveOf(t, p.name);
    OnlyActive(t, p.name);
    SupersedeSlugIff(t, was, id, NewRow(p, was.None?));
    OnlyNameIsFree(t, p.slug, p.name, was);
  }

  /** An update never gives a slug a second active row. */
  lemma UpdateKeepsSlug(t: Table, p: Plugin, id: nat, was: Option<nat>)
    requires Valid(t) && OneActiveSlug(t) && id !in t && Picks(t, p.slug, was)
    ensures OneActiveSlug(Update(t, p, id, was).0)
  {
    var t' := Update(t, p, id, was).0;
    if Update(t, p, id, was).1.Success? {
      forall i, j, slug | IsActiveSlug(t', slug, i) && IsActiveSlug(t', slug, j) ensures i == j {
        assert i == id || IsActiveSlug(t, slug, i);
        assert j == id || IsActiveSlug(t, slug, j);
      }
    }
  }

  /** Activation brings back a row with the slug it was registered under. */
  lemma ActivateSlugIff(t: Table, name: string, target: nat)
    requires Valid(t) && OneActiveSlug(t) && Activate(t, name, target).1.Success?
    ensures OneActiveSlug(Activate(t, name, target).0) <==> OnlyName(t, t[target].slug, name)
  {
    hide Acyclic, PointersOk, VersionsUnique, SlugFree;
    var was := ActiveOf(t, name);
    OnlyActive(t, name);
    OnlyNameIsFree(t, t[target].slug, name, was);
    if was != Some(target) {
      assert t[target].status == Active ==> IsActive(t, name, target);
      SupersedeSlugIff(t, was, target, t[target]);
    } else {
      assert IsActiveSlug(t, t[target].slug, target);
    }
  }

  lemma RollbackToSlugIff(t: Table, slug: string, version: string, was: Option<nat>)
    requires Valid(t) && OneActiveSlug(t) && Picks(t, slug, was) && RollbackTo(t, slug, version, was).1.Success?
    ensures var (t', r) := RollbackTo(t, slug, version, was);
      OneActiveSlug(t') <==> OnlyName(t, t[r.value].slug, t[was.value].name)
  {
    hide Acyclic, PointersOk, VersionsUnique, SlugFree, OnlyName;
    var name, target := t[was.value].name, RollbackTo(t, slug, version, was).1.value;
    assert IsActive(t, name, was.value);
    OnlyActive(t, name);
    assert t[target].status == Active ==> IsActive(t, name, target);
    OnlyNameIsFree(t, t[target].slug, name, was);
    SupersedeSlugIff(t, was, target, t[target]);
  }

  lemma SetStatusKeepsSlug(t: Table, name: string, status: Status)
    requires OneActiveSlug(t) && status != Active
    ensures OneActiveSlug(SetStatus(t, name, status).0)
  {
    var t' := SetStatus(t, name, status).0;
    forall i, j, slug | IsActiveSlug(t', slug, i) && IsActiveSlug(t', slug, j) ensures i == j {
      assert IsActiveSlug(t, slug, i) && IsActiveSlug(t, slug, j);
    }
  }

  /** Whether a step leaves every slug with one active row at most, for every operation. */
  lemma StepSlugIff(t: Table, op: Op)
    requires Valid(t) && OneActiveSlug(t) && Admissible(t, op)
    ensures OneActiveSlug(Apply(t, op).0) <==> KeepsSlug(t, op)
  {
    hide Valid, OneActiveSlug, Supersede, OnlyName;
    match op
    case DoRegister(p, id) => if Register(t, p, id).1.Success? { RegisterSlugIff(t, p, id); }
    case DoUpdate(p, id, was) => UpdateKeepsSlug(t, p, id, was);
    case DoActivate(name, target) => if Activate(t, name, target).1.Success? { ActivateSlugIff(t, name, target); }
    case DoRollbackTo(slug, version, was) =>
      if RollbackTo(t, slug, version, was).1.Success? { RollbackToSlugIff(t, slug, version, was); }
    case DoSetStatus(name, status) => SetStatusKeepsSlug(t, name, status);
  }

  /** Every operation of the run kept its slug to one name. */
  ghost predicate SlugsKept(ops: seq<Op>) {
    ops != [] ==>
      var front, last := ops[..|ops| - 1], ops[|ops| - 1];
      SlugsKept(front) && (Admissible(After(front), last) ==> KeepsSlug(After(front), last))
  }

  /** Every slug had one active row at most throughout the run. */
  ghost predicate SlugsSingle(ops: seq<Op>) {
    OneActiveSlug(After(ops)) && (ops != [] ==> SlugsSingle(ops[..|ops| - 1]))
  }

  /** Over a run every slug leads to one active row at most exactly as long as every
      operation keeps it so. */
  lemma {:induction false} RunSlugsIff(ops: seq<Op>)
    ensures SlugsSingle(ops) <==> SlugsKept(ops)
  {
    hide Apply, KeepsSlug, OneActiveSlug, Admissible, Valid;
    if ops == [] {
      NoActiveSlugs();
    } else {
      var front, last := ops[..|ops| - 1], ops[|ops| - 1];
      RunSlugsIff(front);
      RunKeeps(front);
      assert SlugsSingle(front) ==> OneActiveSlug(After(front));
      if OneActiveSlug(After(front)) && Admissible(After(front), last) { StepSlugIff(After(front), last); }
    }
  }

  lemma NoActiveSlugs()
    ensures OneActiveSlug(After([]))
  {
  }

  ghost predicate SlugsNameOneToOne(t: Table) {
    forall i, j :: i in t && j in t ==> (t[i].name == t[j].name <==> t[i].slug == t[j].slug)
  }

  ghost predicate OneToOne(t: Table, p: Plugin) {
    forall i :: i in t ==> (t[i].name == p.name <==> t[i].slug == p.slug)
  }

  /** Names and slugs stay one-to-one exactly when the new row's agree with the table's. */
  lemma OneToOneIff(t: Table, was: Option<nat>, id: nat, p: Plugin, root: bool)
    requires SlugsNameOneToOne(t) && id !in t && (was.Some? ==> was.value in t)
    ensures SlugsNameOneToOne(Supersede(t, was, id, NewRow(p, root))) <==> OneToOne(t, p)
  {
    var t' := Supersede(t, was, id, NewRow(p, root));
    assert t'[id].name == p.name && t'[id].slug == p.slug;
    assert forall i :: i in t ==> i in t' && i != id && t'[i].name == t[i].name && t'[i].slug == t[i].slug;
    if SlugsNameOneToOne(t') {
      forall i | i in t ensures t[i].name == p.name <==> t[i].slug == p.slug {
        assert t'[i].name == t'[id].name <==> t'[i].slug == t'[id].slug;
      }
    }
  }

  /** While they are, an update agrees with the table exactly when it keeps the name of
      the row it replaces, and the index never stops it. */
  lemma OneToOneUpdate(t: Table, p: Plugin, id: nat, was: Option<nat>)
    requires Valid(t) && SlugsNameOneToOne(t) && id !in t && Picks(t, p.slug, was) && was.Some?
    ensures OneToOne(t, p) <==> t[was.value].name == p.name
    ensures OneToOne(t, p) ==> Update(t, p, id, was).1 != Failure(ConstraintViolation)
  {
    hide Acyclic, PointersOk, VersionsUnique;
    UpdateWithinIff(t, p, id, was);
  }

  /** strings.ToLower on ASCII letters. */
  function Lower(name: string): (r: string)
    ensures |r| == |name|
  {
    seq(|name|, i requires 0 <= i < |name| => if 'A' <= name[i] <= 'Z' then name[i] - 'A' + 'a' else name[i])
  }

  /** registrySlug of internal/service/plugin_service_impl.go on lower-case text: letters
      and digits stay, runs of separators after the first of them become one hyphen. */
  function Hyphenated(name: string, built: string, dash: bool): string
    decreases |name|
  {
    if name == [] then (if dash then built[..Max(|built| - 1, 0)] else built)
    else if 'a' <= name[0] <= 'z' || '0' <= name[0] <= '9' then Hyphenated(name[1..], built + [name[0]], false)
    else if name[0] in " -_" && built != [] && !dash then Hyphenated(name[1..], built + ['-'], true)
    else Hyphenated(name[1..], built, dash)
  }

  function RegistrySlug(name: string): string { Hyphenated(Lower(name), "", false) }

  predicate Alnum(c: char) { 'a' <= c <= 'z' || '0' <= c <= '9' }

  /** The lower-case letters and digits of a text. */
  function Letters(s: string): string
  {
    if s == [] then [] else Letters(s[..|s| - 1]) + (if Alnum(s[|s| - 1]) then [s[|s| - 1]] else [])
  }

  lemma {:induction false} LettersAppend(a: string, b: string)
    ensures Letters(a + b) == Letters(a) + Letters(b)
  {
    if b == [] {
      assert a + b == a;
    } else {
      LettersAppend(a, b[..|b| - 1]);
      assert (a + b)[..|a + b| - 1] == a + b[..|b| - 1];
    }
  }

  /** Letters, digits and single hyphens between them, of which one may end the text. */
  ghost predicate SlugText(s: string, dash: bool) {
    && (dash <==> s != [] && s[|s| - 1] == '-')
    && (s != [] ==> s[0] != '-')
    && (forall i :: 0 <= i < |s| ==> Alnum(s[i]) || s[i] == '-')
    && forall i :: 0 <= i < |s| - 1 ==> s[i] != '-' || s[i + 1] != '-'
  }

  lemma SlugSnoc(s: string, dash: bool, c: char)
    requires SlugText(s, dash) && (Alnum(c) || (c == '-' && s != [] && !dash))
    ensures SlugText(s + [c], c == '-') && Letters(s + [c]) == Letters(s) + if c == '-' then [] else [c]
  {
    var t := s + [c];
    assert t[..|s|] == s;
    assert forall i :: 0 <= i < |s| ==> t[i] == s[i];
  }

  lemma SlugEnd(s: string, dash: bool)
    requires SlugText(s, dash)
    ensures var r := if dash then s[..Max(|s| - 1, 0)] else s; SlugText(r, false) && Letters(r) == Letters(s)
  {
    if dash && |s| > 1 { assert s[|s| - 2] != '-'; }
  }

  lemma {:induction false} HyphenatedShape(name: string, built: string, dash: bool)
    requires SlugText(built, dash)
    ensures var r := Hyphenated(name, built, dash); SlugText(r, false) && Letters(r) == Letters(built) + Letters(name)
    decreases |name|
  {
    hide SlugText, Letters;
    if name == [] {
      SlugEnd(built, dash);
      NoLetters();
    } else {
      var c, rest := name[0], name[1..];
      LettersCons(c, rest);
      assert name == [c] + rest;
      if Alnum(c) {
        SlugSnoc(built, dash, c);
        HyphenatedShape(rest, built + [c], false);
      } else if c in " -_" && built != [] && !dash {
        SlugSnoc(built, dash, '-');
        HyphenatedShape(rest, built + ['-'], true);
      } else {
        HyphenatedShape(rest, built, dash);
      }
    }
  }

  lemma NoLetters()
    ensures Letters([]) == []
  {
  }

  lemma LettersCons(c: char, rest: string)
    ensures Letters([c] + rest) == (if Alnum(c) then [c] else []) + Letters(rest)
  {
    LettersAppend([c], rest);
    assert [c][..0] == [];
  }

  /** A slug holds the letters and digits of the name in order, and single hyphens
      between them. */
  lemma SlugShape(name: string)
    ensures SlugText(RegistrySlug(name), false) && Letters(RegistrySlug(name)) == Letters(Lower(name))
  {
    HyphenatedShape(Lower(name), "", false);
  }

  /** Names that differ in the case of letters only have one slug. */
  lemma SlugIgnoresCase(a: string, b: string)
    requires Lower(a) == Lower(b)
    ensures RegistrySlug(a) == RegistrySlug(b)
  {
  }

  const SHOWN := Row("CSV Viewer", RegistrySlug("CSV Viewer"), "1.0.0", Active, true, None, None)

  const RENAMED := Plugin("csv viewer", RegistrySlug("csv viewer"), "2.0.0")

  lemma ShownIsReachable()
    ensures After([Op.DoRegister(Plugin("CSV Viewer", RegistrySlug("CSV Viewer"), "1.0.0"), 0)]) == map[0 := SHOWN]
    ensures var t: Table := map[0 := SHOWN];
      Valid(t) && WithinName(t) && OneActiveSlug(t) && Picks(t, RENAMED.slug, Some(0))
  {
    var first := Op.DoRegister(Plugin("CSV Viewer", RegistrySlug("CSV Viewer"), "1.0.0"), 0);
    assert [first][..0] == [];
    assert ActiveOf(map[], "CSV Viewer").None? && VersionOf(map[], "CSV Viewer", "1.0.0").None?;
    RunKeeps([first]);
    OneSlug();
  }

  lemma OneSlug()
    ensures RENAMED.slug == SHOWN.slug
  {
    assert Lower("CSV Viewer") == "csv viewer" == Lower("csv viewer");
    SlugIgnoresCase("CSV Viewer", "csv viewer");
  }

  /** The names "CSV Viewer" and "csv viewer" have one slug. An update from the one to
      the other links the two names, leaves the first without an active version, and
      cannot be rolled back by name. */
  lemma UpdateCrossesNames()
    ensures RENAMED.slug == SHOWN.slug && IsActiveSlug(map[0 := SHOWN], RENAMED.slug, 0)
    ensures var (t', r) := Update(map[0 := SHOWN], RENAMED, 1, Some(0));
      r.Success? && !WithinName(t') && ActiveOf(t', "CSV Viewer").None? && Rollback(t', "csv viewer").1.Failure?
  {
    hide Valid, WithinName, Rollback, OneActiveSlug, Update;
    var t: Table := map[0 := SHOWN];
    ShownIsReachable();
    OneSlug();
    CrossingUpdate();
    assert "CSV Viewer"[0] != "csv viewer"[0];
    UpdateWithinIff(t, RENAMED, 1, Some(0));
  }

  lemma CrossingUpdate()
    requires Picks(map[0 := SHOWN], RENAMED.slug, Some(0))
    ensures var (t', r) := Update(map[0 := SHOWN], RENAMED, 1, Some(0));
      && r.Success? && t'.Keys == {0, 1} && t'[0].status == Archived && t'[1].name == "csv viewer"
      && ActiveOf(t', "CSV Viewer").None?
  {
    hide RegistrySlug, Picks;
    assert "CSV Viewer"[0] != "csv viewer"[0] && "1.0.0"[0] != "2.0.0"[0];
  }

  /** A registration in its place gives the slug two active rows. */
  lemma RegisterSharesSlug()
    ensures var (t', r) := Register(map[0 := SHOWN], RENAMED, 1); r.Success? && !OneActiveSlug(t')
  {
    hide Valid, WithinName, OneActiveSlug;
    var t: Table := map[0 := SHOWN];
    ShownIsReachable();
    OneSlug();
    hide RegistrySlug;
    assert "CSV Viewer"[0] != "csv viewer"[0] && "1.0.0"[0] != "2.0.0"[0];
    assert VersionOf(t, RENAMED.name, RENAMED.version).None?;
    RegisterSlugIff(t, RENAMED, 1);
    assert IsActiveSlug(t, RENAMED.slug, 0);
  }

  /** After an update to "csv viewer", activating the old version of "CSV Viewer" gives
      their slug two active rows, although the table had one per slug. */
  lemma ActivateSharesSlug()
    ensures RENAMED.slug == SHOWN.slug && IsActiveSlug(map[0 := SHOWN], RENAMED.slug, 0)
    ensures var t := Update(map[0 := SHOWN], RENAMED, 1, Some(0)).0;
      && Valid(t) && OneActiveSlug(t)
      && Activate(t, "CSV Viewer", 0).1.Success? && !OneActiveSlug(Activate(t, "CSV Viewer", 0).0)
  {
    hide Valid, WithinName, OneActiveSlug;
    var shown: Table := map[0 := SHOWN];
    ShownIsReachable();
    OneSlug();
    UpdateCrossesNames();
    UpdateWithinIff(shown, RENAMED, 1, Some(0));
    UpdateKeepsSlug(shown, RENAMED, 1, Some(0));
    hide RegistrySlug;
    var t := Update(shown, RENAMED, 1, Some(0)).0;
    assert "CSV Viewer"[0] != "csv viewer"[0];
    ActivateKeeps(t, "CSV Viewer", 0);
    ActivateSlugIff(t, "CSV Viewer", 0);
    assert IsActiveSlug(t, SHOWN.slug, 1);
  }

  // --- The repository --------------------------------------------------------------

  /** Statements of a transaction work on a copy of the table that is stored on
      commit. */
  class PluginRepo {
    var rows: Table

    constructor ()
      ensures rows == map[]
    {
      rows := map[];
    }

    method SelectActive(name: string) returns (r: Option<nat>)
      requires Valid(rows)
      ensures r == ActiveOf(rows, name)
    {
      if id :| id in rows && rows[id].name == name && rows[id].status == Active {
        assert IsActive(rows, name, id);
        return Some(id);
      }
      assert forall id :: !IsActive(rows, name, id);
      return None;
    }

    method SelectActiveSlug(slug: string) returns (r: Option<nat>)
      ensures Picks(rows, slug, r)
    {
      if id :| id in rows && rows[id].slug == slug && rows[id].status == Active { return Some(id); }
      return None;
    }

    method SelectVersion(name: string, version: string) returns (r: Option<nat>)
      requires Valid(rows)
      ensures r == VersionOf(rows, name, version)
    {
      if id :| id in rows && rows[id].name == name && rows[id].version == version {
        assert IsVersion(rows, name, version, id);
        return Some(id);
      }
      assert forall id :: !IsVersion(rows, name, version, id);
      return None;
    }

    method DoRegister(p: Plugin, id: nat) returns (r: Result<nat, Error>)
      requires Valid(rows) && id !in rows
      modifies this
      ensures (rows, r) == Register(old(rows), p, id) && Valid(rows)
    {
      hide Valid;
      RegisterKeeps(rows, p, id);
      var existing := SelectVersion(p.name, p.version);
      if existing.Some? { return Failure(Duplicate); }
      var was := SelectActive(p.name);
      var tx := rows;
      if was.Some? { tx := tx[was.value := tx[was.value].(status := Archived)]; }
      tx := tx[id := NewRow(p, was.None?)];
      if was.Some? {
        tx := tx[was.value := tx[was.value].(supersededBy := Some(id))];
        tx := tx[id := tx[id].(previous := was)];
      }
      assert tx == Supersede(rows, was, id, NewRow(p, was.None?));
      rows := tx;
      return Success(id);
    }

    method DoUpdate(p: Plugin, id: nat) returns (r: Result<nat, Error>)
      requires Valid(rows) && id !in rows
      modifies this
      ensures exists was ::
        && Picks(old(rows), p.slug, was) && (rows, r) == Update(old(rows), p, id, was)
        && (WithinName(old(rows)) && r.Success? ==> (WithinName(rows) <==> old(rows)[was.value].name == p.name))
      ensures Valid(rows)
    {
      hide Valid;
      var was := SelectActiveSlug(p.slug);
      UpdateWithinIff(rows, p, id, was);
      if was.None? { return Failure(NotFound); }
      if rows[was.value].version == p.version { return Failure(Duplicate); }
      var existing := SelectVersion(p.name, p.version);
      if existing.Some? { return Failure(Duplicate); }
      var tx := rows[was.value := rows[was.value].(status := Archived)];
      IndexAfterArchiving(rows, p.name, was.value);
      if other :| other in tx && tx[other].name == p.name && tx[other].status == Active {
        assert IsActive(tx, p.name, other);
        return Failure(ConstraintViolation);
      }
      assert !SomeActive(tx, p.name);
      tx := tx[id := NewRow(p, false).(previous := was)];
      tx := tx[was.value := tx[was.value].(supersededBy := Some(id))];
      assert tx == Supersede(rows, was, id, NewRow(p, false));
      rows := tx;
      return Success(id);
    }

    method DoActivate(name: string, target: nat) returns (r: Result<nat, Error>)
      requires Valid(rows)
      modifies this
      ensures (rows, r) == Activate(old(rows), name, target) && Valid(rows)
    {
      hide Valid;
      ActivateKeeps(rows, name, target);
      var was := SelectActive(name);
      if was == Some(target) { return Success(target); }
      var tx := rows;
      if was.Some? {
        if target !in tx { return Failure(DanglingReference); }
        tx := tx[was.value := tx[was.value].(status := Archived, supersededBy := Some(target))];
      }
      if target !in tx || tx[target].name != name { return Failure(NotFound); }
      tx := tx[target := tx[target].(status := Active, previous := was, supersededBy := None)];
      rows := tx;
      return Success(target);
    }

    method DoRollbackTo(slug: string, version: string) returns (r: Result<nat, Error>)
      requires Valid(rows)
      modifies this
      ensures exists was :: Picks(old(rows), slug, was) && (rows, r) == RollbackTo(old(rows), slug, version, was)
      ensures Valid(rows)
    {
      hide Valid;
      var was := SelectActiveSlug(slug);
      RollbackToKeeps(rows, slug, version, was);
      if was.None? { return Failure(NotFound); }
      var target := SelectVersion(rows[was.value].name, version);
      if target.None? { return Failure(NotFound); }
      if target == was { return Failure(Duplicate); }
      var tx := rows[was.value := rows[was.value].(status := Archived, supersededBy := target)];
      tx := tx[target.value := tx[target.value].(status := Active, previous := was, supersededBy := None)];
      rows := tx;
      return Success(target.value);
    }

    /** The read at the start of Rollback, outside any transaction. */
    method ReadPrevious(name: string) returns (r: Result<nat, Error>)
      requires Valid(rows)
      ensures r == match ActiveOf(rows, name)
        case None => Failure(NotFound)
        case Some(id) => if rows[id].previous.None? then Failure(NoPrevious) else Success(rows[id].previous.value)
    {
      var was := SelectActive(name);
      if was.None? { return Failure(NotFound); }
      if rows[was.value].previous.None? { return Failure(NoPrevious); }
      return Success(rows[was.value].previous.value);
    }

    /** Rollback when no other transaction comes between its two. */
    method DoRollback(name: string) returns (r: Result<nat, Error>)
      requires Valid(rows)
      modifies this
      ensures (rows, r) == Rollback(old(rows), name) && Valid(rows)
    {
      hide Valid, Activate;
      var previous := ReadPrevious(name);
      if previous.Failure? { return previous; }
      r := DoActivate(name, previous.value);
    }

    method DoSetStatus(name: string, status: Status) returns (r: Result<nat, Error>)
      requires Valid(rows) && status != Active
      modifies this
      ensures (rows, r) == SetStatus(old(rows), name, status) && Valid(rows)
    {
      hide Valid;
      SetStatusKeeps(rows, name, status);
      var was := SelectActive(name);
      if was.None? { return Failure(NotFound); }
      rows := rows[was.value := rows[was.value].(status := status)];
      return Success(was.value);
    }
  }
}
