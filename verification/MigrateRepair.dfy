/** Recovery from a dirty migration (internal/db/migrate_repair.go). The migrate
    engine is external: every decision it takes is read from a script, so a
    statement about all scripts is a statement about all engines that go up from a
    clean row to the maximum, stop dirty only at a later version within it, or
    leave the row alone. */
module MigrateRepair {
  import opened Wrappers

  const MAX_ATTEMPTS := 64
  const NIL_VERSION := -1

  /** The single bookkeeping row; version -1 stands for an empty table. */
  datatype Row = Row(version: int, dirty: bool)

  /** What the engine does when asked to go up from a clean row: reach the
      maximum, stop dirty at a version, or fail without touching the row. The
      flag says whether the error text carries a duplicate-object signature. */
  datatype Choice = Reach | Stop(at: int, duplicate: bool) | Refuse(duplicate: bool)

  /** The engine's behaviour during one attempt. */
  datatype Tick = Tick(up: Choice, forceOk: bool, versionOk: bool)

  datatype UpResult = UpDone | UpNoChange | UpDirty(version: int) | UpDuplicate | UpOther

  /** Up: refuses a dirty row, reports no change at the maximum, otherwise marks a
      version dirty before running it, so a failure names its own version. */
  function UpStep(row: Row, choice: Choice, max: int): (Row, UpResult) {
    if row.dirty then (row, UpDirty(row.version))
    else if row.version == max then (row, UpNoChange)
    else if row.version > max then (row, UpOther)
    else match choice
      case Reach => (Row(max, false), UpDone)
      case Stop(at, duplicate) =>
        if row.version < at <= max then (Row(at, true), if duplicate then UpDuplicate else UpOther)
        else (Row(max, false), UpDone)
      case Refuse(duplicate) => (row, if duplicate then UpDuplicate else UpOther)
  }

  class Engine {
    const max: int
    const script: nat -> Tick
    var row: Row
    var tick: nat
    /** Every version the row was forced to. */
    var forced: seq<int>

    constructor (max: int, script: nat -> Tick, row: Row)
      ensures this.max == max && this.script == script && this.row == row && tick == 0 && forced == []
    {
      this.max, this.script, this.row, tick, forced := max, script, row, 0, [];
    }

    method Up() returns (r: UpResult)
      modifies this`row
      ensures (row, r) == UpStep(old(row), script(tick).up, max)
    {
      var step := UpStep(row, script(tick).up, max);
      row, r := step.0, step.1;
    }

    method Force(version: int) returns (ok: bool)
      modifies this`row, this`forced
      ensures ok == script(tick).forceOk
      ensures row == if ok then Row(version, false) else old(row)
      ensures forced == if ok then old(forced) + [version] else old(forced)
    {
      ok := script(tick).forceOk;
      if ok { row, forced := Row(version, false), forced + [version]; }
    }

    /** Version fails on an empty table. */
    method Version() returns (version: Option<int>)
      ensures version == if script(tick).versionOk && row.version != NIL_VERSION then Some(row.version) else None
    {
      version := if script(tick).versionOk && row.version != NIL_VERSION then Some(row.version) else None;
    }

    method NextAttempt()
      modifies this`tick
      ensures tick == old(tick) + 1
    {
      tick := tick + 1;
    }
  }

  datatype Outcome = Recovered | Failed | CapReached

  /** One attempt either ends the repair or moves the walk to a new position, with
      the row forced there. */
  datatype Attempted = Finished(outcome: Outcome, row: Row, forced: seq<int>) | Moved(pos: int)

  function Attempt(row: Row, pos: int, t: Tick, max: int): Attempted {
    var (after, result) := UpStep(row, t.up, max);
    match result
    case UpDone => Finished(Recovered, after, [])
    case UpNoChange => Finished(Recovered, after, [])
    case UpOther => Finished(Failed, after, [])
    case UpDirty(v) => if v <= 0 || v > max || !t.forceOk then Finished(Failed, after, []) else Moved(v)
    case UpDuplicate =>
      var cur := after.version;
      if !t.versionOk || cur == NIL_VERSION || cur <= pos || cur > max || !t.forceOk then Finished(Failed, after, [])
      else if cur >= max then Finished(Recovered, Row(cur, false), [cur])
      else Moved(cur + 1)
  }

  datatype Walked = Walked(outcome: Outcome, row: Row, forced: seq<int>)

  /** The accept-and-advance walk from position pos with n attempts used. */
  function Walk(row: Row, pos: int, n: nat, max: int, script: nat -> Tick, forced: seq<int>): Walked
    decreases MAX_ATTEMPTS - n
  {
    if n >= MAX_ATTEMPTS then Walked(CapReached, row, forced) else
      match Attempt(row, pos, script(n + 1), max)
      case Finished(o, after, f) => Walked(o, after, forced + f)
      case Moved(next) => Walk(Row(next, false), next, n + 1, max, script, forced + [next])
  }

  /** Where the walk starts: at the dirty version, or from scratch when this binary
      has no such migration. */
  function StartVersion(dirty: int, max: int): int { if dirty <= 0 || dirty > max then NIL_VERSION else dirty }

  function StartPosition(dirty: int, max: int): int { if dirty <= 0 || dirty > max then 0 else dirty }

  function Repair(row: Row, dirty: int, max: int, script: nat -> Tick): Walked {
    if !script(0).forceOk then Walked(Failed, row, [])
    else
      var v := StartVersion(dirty, max);
      Walk(Row(v, false), StartPosition(dirty, max), 0, max, script, [v])
  }

  method TryOnce(m: Engine, version: int) returns (done: Option<Outcome>, next: int)
    modifies m`row, m`forced
    ensures match Attempt(old(m.row), version, m.script(m.tick), m.max)
      case Finished(o, after, f) => done == Some(o) && m.row == after && m.forced == old(m.forced) + f
      case Moved(pos) => done == None && next == pos && m.row == Row(pos, false) && m.forced == old(m.forced) + [pos]
  {
    next := version;
    var result := m.Up();
    match result
    case UpDone => done := Some(Recovered);
    case UpNoChange => done := Some(Recovered);
    case UpOther => done := Some(Failed);
    case UpDirty(v) =>
      if v <= 0 || v > m.max { return Some(Failed), next; }
      var ok := m.Force(v);
      done, next := if ok then None else Some(Failed), v;
    case UpDuplicate =>
      var cur := m.Version();
      if cur.None? || cur.value <= version || cur.value > m.max { return Some(Failed), next; }
      if cur.value >= m.max {
        var ok := m.Force(cur.value);
        done := Some(if ok then Recovered else Failed);
      } else {
        var ok := m.Force(cur.value + 1);
        done, next := if ok then None else Some(Failed), cur.value + 1;
      }
  }

  method RepairDirty(m: Engine, dirty: int) returns (o: Outcome)
    requires m.tick == 0 && m.forced == []
    modifies m
    ensures Walked(o, m.row, m.forced) == Repair(old(m.row), dirty, m.max, m.script)
  {
    hide Attempt;
    ghost var goal := Repair(m.row, dirty, m.max, m.script);
    var startOver := dirty <= 0 || dirty > m.max;
    var ok := m.Force(if startOver then NIL_VERSION else dirty);
    if !ok { return Failed; }
    assert m.forced == [StartVersion(dirty, m.max)];
    var version := if startOver then 0 else dirty;
    for steps := 0 to MAX_ATTEMPTS
      invariant m.tick == steps
      invariant Walk(m.row, version, steps, m.max, m.script, m.forced) == goal
    {
      m.NextAttempt();
      var done, next := TryOnce(m, version);
      if done.Some? { return done.value; }
      version := next;
    }
    return CapReached;
  }

  /** runMigrateWithRepair, with the first Up on tick 0. */
  method RunMigrateWithRepair(m: Engine) returns (ok: bool)
    requires m.max >= 1 && m.tick == 0 && m.forced == []
    modifies m
    ensures var (row, first) := UpStep(old(m.row), m.script(0).up, m.max);
      if first.UpDirty?
      then var w := Repair(row, first.version, m.max, m.script);
        ok == w.outcome.Recovered? && m.row == w.row && m.forced == w.forced
      else ok == (first.UpDone? || first.UpNoChange?) && m.row == row && m.forced == []
    ensures ok ==> m.row == Row(m.max, false)
    ensures forall i :: 0 <= i < |m.forced| ==> m.forced[i] <= m.max
  {
    var first := m.Up();
    match first
    case UpDone => return true;
    case UpNoChange => return true;
    case UpDuplicate => return false;
    case UpOther => return false;
    case UpDirty(v) =>
      ghost var row := m.row;
      var o := RepairDirty(m, v);
      RepairSafe(row, v, m.max, m.script);
      return o == Recovered;
  }

  // --- What every engine gets -----------------------------------------------------

  ghost predicate Increasing(s: seq<int>) { forall i, j :: 0 <= i < j < |s| ==> s[i] < s[j] }

  /** The row the walk is about to leave, in single-writer operation. */
  ghost predicate AtPosition(row: Row, pos: int, max: int) {
    0 <= pos <= max && row == Row(if pos == 0 then NIL_VERSION else pos, false)
  }

  /** An attempt from a clean row at its position succeeds only at the maximum: when the
      engine gets there, or stops there on objects that exist and the version can be
      forced. It moves the walk at least two versions up, never beyond the maximum, just
      past a version that stopped on objects that exist. */
  lemma AttemptSafe(row: Row, pos: int, t: Tick, max: int)
    requires 1 <= max && AtPosition(row, pos, max)
    ensures match Attempt(row, pos, t, max)
      case Finished(o, after, f) =>
        (o == Recovered ==> after == Row(max, false)) && o != CapReached
          && (f == [] || (f == [max] && row.version < max))
          && (o == Recovered <==>
               || row.version == max || t.up.Reach? || (t.up.Stop? && !(row.version < t.up.at <= max))
               || (t.up == Stop(max, true) && t.versionOk && t.forceOk))
      case Moved(next) => pos + 2 <= next <= max && t.up == Stop(next - 1, true) && t.versionOk && t.forceOk
  {
  }

  /** From a clean row at its position the walk, against any engine: succeeds only
      with the row clean at the maximum, forces strictly increasing versions
      never above the maximum, and runs into its cap only if it has advanced two
      versions for every attempt. */
  lemma {:induction false} WalkSafe(row: Row, pos: int, n: nat, max: int, script: nat -> Tick, forced: seq<int>)
    requires 1 <= max && AtPosition(row, pos, max) && n <= MAX_ATTEMPTS && 2 * n <= pos
    requires forced != [] && forced[|forced| - 1] == row.version
    requires Increasing(forced) && forall i :: 0 <= i < |forced| ==> forced[i] <= max
    ensures var w := Walk(row, pos, n, max, script, forced);
      && (w.outcome == Recovered ==> w.row == Row(max, false))
      && (w.outcome == CapReached ==> 128 <= max)
      && forced <= w.forced && Increasing(w.forced)
      && forall i :: 0 <= i < |w.forced| ==> w.forced[i] <= max
    decreases MAX_ATTEMPTS - n
  {
    if n < MAX_ATTEMPTS {
      AttemptSafe(row, pos, script(n + 1), max);
      hide Attempt;
      match Attempt(row, pos, script(n + 1), max)
      case Moved(next) => WalkSafe(Row(next, false), next, n + 1, max, script, forced + [next]);
      case Finished(_, _, _) =>
    }
  }

  lemma RepairSafe(row: Row, dirty: int, max: int, script: nat -> Tick)
    requires 1 <= max
    ensures var w := Repair(row, dirty, max, script);
      && (w.outcome == Recovered ==> w.row == Row(max, false))
      && (w.outcome == CapReached ==> 128 <= max)
      && Increasing(w.forced)
      && (forall i :: 0 <= i < |w.forced| ==> w.forced[i] <= max)
      && (if script(0).forceOk then w.forced != [] && w.forced[0] == (if 1 <= dirty <= max then dirty else -1)
          else w == Walked(Failed, row, []))
  {
    hide Walk;
    if script(0).forceOk {
      var v := StartVersion(dirty, max);
      WalkSafe(Row(v, false), StartPosition(dirty, max), 0, max, script, [v]);
    }
  }

  /** The engine gets on, or stops on objects that exist, and its row can be read and
      forced. */
  ghost predicate Helpful(t: Tick) { t.forceOk && t.versionOk && (t.up.Reach? || (t.up.Stop? && t.up.duplicate)) }

  lemma {:induction false} WalkRecovers(row: Row, pos: int, n: nat, max: int, script: nat -> Tick, forced: seq<int>)
    requires 1 <= max < 128 && AtPosition(row, pos, max) && n <= MAX_ATTEMPTS && 2 * n <= pos
    requires forall k :: Helpful(script(k))
    ensures pos > 0 || (forall k :: script(k).up.Stop? ==> script(k).up.at != 0) ==>
      Walk(row, pos, n, max, script, forced).outcome == Recovered
    decreases MAX_ATTEMPTS - n
  {
    var t := script(n + 1);
    AttemptSafe(row, pos, t, max);
    assert Helpful(t);
    match Attempt(row, pos, t, max)
    case Moved(next) => WalkRecovers(Row(next, false), next, n + 1, max, script, forced + [next]);
    case Finished(_, _, _) =>
  }

  /** When nothing stands in the way but objects that exist, the repair always gets the
      database to the maximum, if that is below 128. Versions start at one. */
  lemma RepairRecovers(row: Row, dirty: int, max: int, script: nat -> Tick)
    requires 1 <= max < 128 && forall k :: Helpful(script(k))
    requires forall k :: script(k).up.Stop? ==> script(k).up.at != 0
    ensures Repair(row, dirty, max, script).outcome == Recovered
  {
    hide Walk;
    var v := StartVersion(dirty, max);
    assert Helpful(script(0));
    WalkRecovers(Row(v, false), StartPosition(dirty, max), 0, max, script, [v]);
  }

  /** An engine that finds every other migration already applied. */
  function Alternating(): nat -> Tick { n => Tick(Stop(2 * n - 1, true), true, true) }

  lemma {:induction false} AlternatingWalk(n: nat, max: int, forced: seq<int>)
    requires n <= MAX_ATTEMPTS && 2 * MAX_ATTEMPTS <= max
    ensures Walk(Row(if n == 0 then NIL_VERSION else 2 * n, false), 2 * n, n, max, Alternating(), forced).outcome ==
      CapReached
    decreases MAX_ATTEMPTS - n
  {
    if n < MAX_ATTEMPTS {
      AlternatingWalk(n + 1, max, forced + [2 * n + 2]);
    }
  }

  /** Some engine drives the repair into its 64-attempt cap exactly when the
      maximum is at least 128: the walk advances two versions per attempt. */
  lemma CapBindsIff(max: int)
    requires 1 <= max
    ensures (exists script, row, dirty :: Repair(row, dirty, max, script).outcome == CapReached) <==> 128 <= max
  {
    hide Walk;
    if 128 <= max {
      AlternatingWalk(0, max, [NIL_VERSION]);
      assert Repair(Row(0, true), 0, max, Alternating()).outcome == CapReached;
    }
    if exists script, row, dirty :: Repair(row, dirty, max, script).outcome == CapReached {
      var script, row, dirty :| Repair(row, dirty, max, script).outcome == CapReached;
      RepairSafe(row, dirty, max, script);
    }
  }
}
