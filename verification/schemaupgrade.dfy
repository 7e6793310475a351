/** The stepwise upgrade of the plugin's database schema, run after run, while statements
    and saves of the version number may fail at any time. */
module SchemaUpgrade {
  import opened ArchiveItems

  /** The saved setting: absent, a number, or some other text. */
  datatype Version = Unset | Number(n: int) | OtherText(text: string)

  const CURRENT := Number(1004)
  const STEP_COUNT := 5

  /** The version that step k starts from; the version after the last step is the current one. */
  function VersionAt(k: nat): Version {
    if k == 0 then Unset else Number(999 + k)
  }

  /** The step a version has reached, if it is a known one. */
  predicate At(v: Version, k: nat) {
    k <= STEP_COUNT && v == VersionAt(k)
  }

  predicate Known(v: Version) {
    v == Unset || (v.Number? && 1000 <= v.n <= 1004)
  }

  function StepOf(v: Version): (k: nat)
    requires Known(v)
    ensures At(v, k)
  {
    if v == Unset then 0 else v.n - 999
  }

  /** The statements of a step, by their place in its list. */
  datatype Statement = Statement(step: nat, index: nat)

  function StatementsOf(step: nat): seq<Statement>
    requires step < STEP_COUNT
  {
    if step == 1 || step == 4 then [Statement(step, 0)] else [Statement(step, 0), Statement(step, 1)]
  }

  /** The first, third and fourth step have two statements, the other two have one. */
  lemma StepsAre(step: nat, i: nat)
    requires step < STEP_COUNT
    ensures |StatementsOf(step)| == [2, 1, 2, 2, 1][step]
    ensures i < |StatementsOf(step)| ==> StatementsOf(step)[i] == Statement(step, i)
    ensures VersionAt(step) == [Unset, Number(1000), Number(1001), Number(1002), Number(1003)][step]
  {
    assert step == 0 || step == 1 || step == 2 || step == 3 || step == 4;
  }

  /** Saving a setting deletes its row and then inserts the new one, even when deleting was
      refused; only the insertion decides what is reported. */
  datatype Save = Save(deleted: bool, inserted: bool) {
    predicate Atomic() {
      deleted == inserted
    }
  }

  /** One attempt at a step: the statements that were carried out, and the save of the new
      version, which is tried only after all of them. */
  datatype Attempt = Attempt(step: nat, executed: seq<Statement>, save: Option<Save>) {
    predicate Completed() {
      save.Some? && save.value.inserted
    }
  }

  // ----- what the trace of all attempts must look like -------------------------------------------

  /** The step reached from a starting step by the completed attempts. */
  function Reached(start: nat, trace: seq<Attempt>): nat {
    if |trace| == 0 then start
    else Reached(start, trace[..|trace| - 1]) + (if trace[|trace| - 1].Completed() then 1 else 0)
  }

  /** Every attempt is at the step then due, carries out its statements in order from the
      first, and saves the version only after all of them. */
  ghost predicate Orderly(start: nat, trace: seq<Attempt>) {
    |trace| > 0 ==>
      var a := trace[|trace| - 1];
      && Orderly(start, trace[..|trace| - 1])
      && a.step == Reached(start, trace[..|trace| - 1]) < STEP_COUNT
      && a.executed <= StatementsOf(a.step)
      && (a.save.Some? ==> a.executed == StatementsOf(a.step))
  }

  /** The statements of the completed attempts, in order. */
  function CompletedStatements(trace: seq<Attempt>): seq<Statement> {
    if |trace| == 0 then []
    else
      var before := CompletedStatements(trace[..|trace| - 1]);
      var a := trace[|trace| - 1];
      if a.Completed() then before + a.executed else before
  }

  /** The statements of one run from a step to another that nothing interrupts. */
  function Uninterrupted(from: nat, to: nat): seq<Statement>
    requires to <= STEP_COUNT
  {
    if to <= from then [] else Uninterrupted(from, to - 1) + StatementsOf(to - 1)
  }

  /** An upgrade from nothing carries out eight statements, step by step. */
  lemma WholeUpgrade()
    ensures VersionAt(STEP_COUNT) == CURRENT
    ensures Uninterrupted(0, STEP_COUNT) ==
      [Statement(0, 0), Statement(0, 1), Statement(1, 0), Statement(2, 0), Statement(2, 1),
       Statement(3, 0), Statement(3, 1), Statement(4, 0)]
  {
    assert Uninterrupted(0, 0) == [];
    assert Uninterrupted(0, 2) == [Statement(0, 0), Statement(0, 1), Statement(1, 0)];
    assert Uninterrupted(0, 3) == Uninterrupted(0, 2) + StatementsOf(2);
    assert Uninterrupted(0, 4) == Uninterrupted(0, 3) + StatementsOf(3);
  }

  /** Without its failed attempts, the trace of any number of runs is that of one
      uninterrupted run up to the step reached. */
  lemma {:induction false} DroppingFailures(start: nat, trace: seq<Attempt>)
    requires start <= STEP_COUNT && Orderly(start, trace)
    ensures start <= Reached(start, trace) <= STEP_COUNT
    ensures CompletedStatements(trace) == Uninterrupted(start, Reached(start, trace))
  {
    if |trace| > 0 {
      DroppingFailures(start, trace[..|trace| - 1]);
    }
  }

  /** No step completes twice. */
  lemma {:induction false} CompletedOnce(start: nat, trace: seq<Attempt>, i: nat, j: nat)
    requires Orderly(start, trace) && i < j < |trace| && trace[i].Completed() && trace[j].Completed()
    ensures trace[i].step < trace[j].step
    decreases |trace|
  {
    var front := trace[..|trace| - 1];
    if j < |trace| - 1 {
      CompletedOnce(start, front, i, j);
    } else {
      ReachedPast(start, front, i);
    }
  }

  lemma {:induction false} ReachedPast(start: nat, trace: seq<Attempt>, i: nat)
    requires Orderly(start, trace) && i < |trace| && trace[i].Completed()
    ensures trace[i].step < Reached(start, trace)
  {
    if i < |trace| - 1 {
      ReachedPast(start, trace[..|trace| - 1], i);
    }
  }

  // ----- saving the version ------------------------------------------------------------------------

  /** The version that the rows of the setting stand for: the first, if there is one. */
  function Reading(rows: seq<Version>): Version {
    if |rows| == 0 then Unset else rows[0]
  }

  function Stored(rows: seq<Version>, save: Save, newnumber: Version): seq<Version> {
    (if save.deleted then [] else rows) + (if save.inserted then [newnumber] else [])
  }

  /** The save leaves either the old version or the new one in force, as it reports. */
  predicate Exact(rows: seq<Version>, save: Save) {
    if save.inserted then save.deleted || |rows| == 0 else !save.deleted || Reading(rows) == Unset
  }

  lemma SavedVersionIff(rows: seq<Version>, save: Save, newnumber: Version)
    requires Reading(rows) != newnumber
    ensures Reading(Stored(rows, save, newnumber)) == (if save.inserted then newnumber else Reading(rows))
      <==> Exact(rows, save)
  {
  }

  /** The rows of the setting after some attempts. */
  function RowsAfter(rows: seq<Version>, trace: seq<Attempt>): seq<Version> {
    if |trace| == 0 then rows
    else SettingAfter(RowsAfter(rows, trace[..|trace| - 1]), trace[|trace| - 1])
  }

  function SettingAfter(rows: seq<Version>, a: Attempt): seq<Version> {
    match a.save
    case Some(save) => Stored(rows, save, VersionAt(a.step + 1))
    case None => rows
  }

  /** The saved version names the step that the completed attempts have reached. */
  ghost predicate Tracking(start: nat, trace: seq<Attempt>, rows: seq<Version>) {
    Orderly(start, trace) && At(Reading(rows), Reached(start, trace))
  }

  /** The saved version has named the step reached after every single attempt. */
  ghost predicate AlwaysTracking(start: nat, rows: seq<Version>, trace: seq<Attempt>) {
    && Tracking(start, trace, RowsAfter(rows, trace))
    && (|trace| > 0 ==> AlwaysTracking(start, rows, trace[..|trace| - 1]))
  }

  /** Every save that was tried was exact for the rows it found. */
  predicate SavesExact(rows: seq<Version>, trace: seq<Attempt>) {
    |trace| > 0 ==>
      var front, a := trace[..|trace| - 1], trace[|trace| - 1];
      SavesExact(rows, front) && (a.save.Some? ==> Exact(RowsAfter(rows, front), a.save.value))
  }

  /** As long as it does, the completed statements are those of one uninterrupted run. */
  lemma TrackedTrace(start: nat, rows: seq<Version>, trace: seq<Attempt>)
    requires start <= STEP_COUNT && AlwaysTracking(start, rows, trace)
    ensures var now := Reading(RowsAfter(rows, trace));
      Known(now) && CompletedStatements(trace) == Uninterrupted(start, StepOf(now))
  {
    DroppingFailures(start, trace);
  }

  predicate AtomicFrom(trace: seq<Attempt>, n: nat) {
    forall i | n <= i < |trace| && trace[i].save.Some? :: trace[i].save.value.Atomic()
  }

  /** Saves that do both or neither are exact, whatever they find. */
  lemma {:induction false} AtomicIsExact(rows: seq<Version>, trace: seq<Attempt>)
    requires AtomicFrom(trace, 0)
    ensures SavesExact(rows, trace)
  {
    if |trace| > 0 {
      AtomicIsExact(rows, trace[..|trace| - 1]);
    }
  }

  /** An attempt as the program makes it: its first k statements are carried out, and the save
      follows only the last of them. */
  function Tried(step: nat, k: nat, save: Save): (a: Attempt)
    requires step < STEP_COUNT && k <= |StatementsOf(step)|
    ensures a.save.Some? <==> k == |StatementsOf(step)|
  {
    Attempt(step, StatementsOf(step)[..k], if k == |StatementsOf(step)| then Some(save) else None)
  }

  /** After an attempt at the step that is due, the saved version still names the step
      reached exactly when the version was not saved at all, or exactly. */
  lemma AttemptTracksIff(start: nat, trace: seq<Attempt>, rows: seq<Version>, step: nat, k: nat, save: Save)
    requires Tracking(start, trace, rows) && step == Reached(start, trace) < STEP_COUNT && k <= |StatementsOf(step)|
    ensures var a := Tried(step, k, save);
      && Reached(start, trace + [a]) == (if a.Completed() then step + 1 else step)
      && (Tracking(start, trace + [a], SettingAfter(rows, a)) <==> k < |StatementsOf(step)| || Exact(rows, save))
  {
    var a := Tried(step, k, save);
    assert (trace + [a])[..|trace + [a]| - 1] == trace;
    SavedVersionIff(rows, save, VersionAt(step + 1));
  }

  /** The trace tells what became of the setting, and the version has always named the step
      reached exactly when it was a known one to begin with and every save was exact. */
  ghost predicate Recording(start: nat, rows: seq<Version>, trace: seq<Attempt>, setting: seq<Version>) {
    && setting == RowsAfter(rows, trace)
    && (AlwaysTracking(start, rows, trace) <==> Known(Reading(rows)) && SavesExact(rows, trace))
  }

  lemma OneMoreAttempt(start: nat, rows: seq<Version>, trace: seq<Attempt>, setting: seq<Version>,
                       step: nat, k: nat, save: Save, more: seq<Attempt>, after: seq<Version>)
    requires step < STEP_COUNT && k <= |StatementsOf(step)| && Recording(start, rows, trace, setting)
    requires AlwaysTracking(start, rows, trace) ==> step == Reached(start, trace)
    requires more == trace + [Tried(step, k, save)] && after == SettingAfter(setting, Tried(step, k, save))
    ensures Recording(start, rows, more, after)
    ensures AlwaysTracking(start, rows, more) ==>
      && AlwaysTracking(start, rows, trace)
      && Reached(start, more) == (if Tried(step, k, save).Completed() then step + 1 else step)
  {
    assert more[..|more| - 1] == trace;
    if AlwaysTracking(start, rows, trace) {
      AttemptTracksIff(start, trace, setting, step, k, save);
    }
  }

  // ----- the upgrade ------------------------------------------------------------------------------

  /** How many of n requests are carried out before the first refusal, from a point in time on. */
  function Accepted(accepts: nat -> bool, clock: nat, n: nat): (k: nat)
    ensures k <= n && forall t: nat | clock <= t < clock + k :: accepts(t)
    ensures k < n ==> !accepts(clock + k)
    decreases n
  {
    if n == 0 || !accepts(clock) then 0 else 1 + Accepted(accepts, clock + 1, n - 1)
  }

  class ArchiveDatabase {
    /** The rows of the version setting when the trace begins, and now. */
    const initial: seq<Version>
    var setting: seq<Version>
    var trace: seq<Attempt>
    /** Whether the database carries out the statement it gets at each point in time, and what
        it makes of a save. */
    const accepts: nat -> bool
    const saves: nat -> Save
    var clock: nat

    constructor (rows: seq<Version>, accepts: nat -> bool, saves: nat -> Save)
      ensures initial == rows && this.accepts == accepts && this.saves == saves && trace == []
      ensures Recorded()
    {
      initial, setting, this.accepts, this.saves, trace, clock := rows, rows, accepts, saves, [], 0;
    }

    function Start(): nat {
      if Known(Reading(initial)) then StepOf(Reading(initial)) else 0
    }

    ghost predicate AlwaysTracks()
      reads this
    {
      AlwaysTracking(Start(), initial, trace)
    }

    ghost predicate Recorded()
      reads this
    {
      Recording(Start(), initial, trace, setting)
    }

    ghost predicate AtomicSaves() {
      forall t: nat :: saves(t).Atomic()
    }

    ghost predicate NothingFailsFrom(time: nat) {
      forall t: nat | t >= time :: accepts(t) && saves(t) == Save(true, true)
    }

    method UpdateDBVersionNumber(newnumber: Version) returns (ok: bool)
      modifies this`setting, this`clock
      ensures setting == Stored(old(setting), saves(old(clock)), newnumber)
      ensures ok == saves(old(clock)).inserted && clock == old(clock) + 1
    {
      var save := saves(clock);
      clock := clock + 1;
      if save.deleted {
        setting := [];
      }
      if save.inserted {
        setting := setting + [newnumber];
      }
      ok := save.inserted;
    }

    /** Carries out statements one after the other, up to the first that is refused. */
    method ExecuteAll(updates: seq<Statement>) returns (counter: nat)
      modifies this`clock
      ensures counter == Accepted(accepts, old(clock), |updates|)
      ensures clock == old(clock) + (if counter < |updates| then counter + 1 else counter)
    {
      counter := 0;
      while counter < |updates|
        invariant counter <= |updates| && clock == old(clock) + counter
        invariant Accepted(accepts, old(clock), |updates|) == counter + Accepted(accepts, clock, |updates| - counter)
      {
        var done := accepts(clock);
        clock := clock + 1;
        if !done {
          return;
        }
        counter := counter + 1;
      }
    }

    /** How many statements of a step the database carries out from a point in time on. */
    function Reach(step: nat, time: nat): (k: nat)
      requires step < STEP_COUNT
      ensures k <= |StatementsOf(step)|
    {
      Accepted(accepts, time, |StatementsOf(step)|)
    }

    /** One attempt at a step: its statements up to the first refusal, then the new version. */
    method PerformActualUpdate(step: nat) returns (ok: bool)
      requires step < STEP_COUNT
      modifies this`setting, this`clock, this`trace
      ensures var a := Tried(step, Reach(step, old(clock)), saves(old(clock) + |StatementsOf(step)|));
        && trace == old(trace) + [a] && ok == a.Completed()
        && setting == SettingAfter(old(setting), a)
      ensures clock > old(clock)
    {
      var updates := StatementsOf(step);
      var counter := ExecuteAll(updates);
      ok := false;
      var save := None;
      if counter == |updates| {
        save := Some(saves(clock));
        ok := UpdateDBVersionNumber(VersionAt(step + 1));
      }
      trace := trace + [Attempt(step, updates[..counter], save)];
    }

    lemma NothingFails(step: nat, time: nat)
      requires step < STEP_COUNT && NothingFailsFrom(time)
      ensures Tried(step, Reach(step, time), saves(time + |StatementsOf(step)|)).Completed()
    {
    }

    /** An attempt at the step that is due, in terms of the whole trace. */
    method UpdateDue(step: nat) returns (ok: bool)
      requires step < STEP_COUNT
      requires Recorded() && (AlwaysTracks() ==> step == Reached(Start(), trace))
      modifies this`setting, this`clock, this`trace
      ensures |trace| == |old(trace)| + 1 && old(trace) <= trace && trace[|old(trace)|].step == step
      ensures clock > old(clock) && (old(NothingFailsFrom(clock)) ==> ok)
      ensures AtomicSaves() ==> AtomicFrom(trace, |old(trace)|)
      ensures Recorded() && (AlwaysTracks() ==> old(AlwaysTracks()))
      ensures AlwaysTracks() ==> Reached(Start(), trace) == (if ok then step + 1 else step)
    {
      ghost var before, rows, k, save := trace, setting, Reach(step, clock), saves(clock + |StatementsOf(step)|);
      if NothingFailsFrom(clock) {
        NothingFails(step, clock);
      }
      ok := PerformActualUpdate(step);
      OneMoreAttempt(Start(), initial, before, rows, step, k, save, trace, setting);
    }

    /** Runs the steps that are due, the first one being the one that the saved version names,
        each only when the one before it has completed. A version that is not known starts no
        step and counts as success. */
    method UpgradeArchiveDatabaseSchema() returns (ok: bool)
      requires Recorded()
      modifies this`setting, this`clock, this`trace
      ensures old(trace) <= trace && clock >= old(clock)
      ensures !Known(Reading(old(setting))) || Reading(old(setting)) == CURRENT ==>
        ok && setting == old(setting) && trace == old(trace)
      ensures Known(Reading(old(setting))) && Reading(old(setting)) != CURRENT ==>
        |trace| > |old(trace)| && trace[|old(trace)|].step == StepOf(Reading(old(setting)))
      ensures Recorded()
      ensures AtomicSaves() ==> AtomicFrom(trace, |old(trace)|)
      ensures AlwaysTracks() ==> (ok <==> Reading(setting) == CURRENT)
      ensures old(NothingFailsFrom(clock)) ==> ok
    {
      var dbver := Reading(setting);
      if dbver == CURRENT {
        return true;
      }
      var k := 0;
      ok := true;
      while k < STEP_COUNT && ok
        invariant 0 <= k <= STEP_COUNT && clock >= old(clock) && old(trace) <= trace
        invariant !Known(Reading(old(setting))) || k <= StepOf(Reading(old(setting))) ==>
          ok && dbver == Reading(old(setting)) && setting == old(setting) && trace == old(trace)
        invariant Known(Reading(old(setting))) && k > StepOf(Reading(old(setting))) ==>
          && |trace| > |old(trace)| && trace[|old(trace)|].step == StepOf(Reading(old(setting)))
          && (ok ==> dbver == VersionAt(k))
        invariant AtomicSaves() ==> AtomicFrom(trace, |old(trace)|)
        invariant Recorded()
        invariant AlwaysTracks() ==>
          if ok then dbver == Reading(setting) else Reading(setting) != CURRENT
        invariant old(NothingFailsFrom(clock)) ==> ok
        decreases STEP_COUNT - k
      {
        if dbver == VersionAt(k) {
          ok := UpdateDue(k);
          if ok {
            dbver := VersionAt(k + 1);
          }
        }
        k := k + 1;
      }
    }
  }

  /** Any number of upgrade runs, whatever statements and saves fail in them: the saved version
      names the last completed step after every attempt exactly when it was a known one to begin
      with and every save was exact. Then
      success means the current version, and the completed statements are those of one
      uninterrupted run. Saves that do both or neither are always exact. */
  method RunUpgrades(db: ArchiveDatabase, runs: nat) returns (ok: bool)
    requires db.Recorded() && db.trace == []
    modifies db
    ensures db.AlwaysTracks() <==> Known(Reading(db.initial)) && SavesExact(db.initial, db.trace)
    ensures db.setting == RowsAfter(db.initial, db.trace)
    ensures db.AlwaysTracks() ==>
      && Known(Reading(db.setting))
      && CompletedStatements(db.trace) == Uninterrupted(db.Start(), StepOf(Reading(db.setting)))
    ensures db.AlwaysTracks() && runs > 0 ==> (ok <==> Reading(db.setting) == CURRENT)
    ensures Known(Reading(db.initial)) && db.AtomicSaves() ==> db.AlwaysTracks()
    ensures runs > 0 && old(db.NothingFailsFrom(db.clock)) ==> ok
  {
    ok := false;
    for k := 0 to runs
      invariant db.Recorded() && db.clock >= old(db.clock)
      invariant db.AtomicSaves() ==> AtomicFrom(db.trace, 0)
      invariant k > 0 && db.AlwaysTracks() ==> (ok <==> Reading(db.setting) == CURRENT)
      invariant k > 0 && old(db.NothingFailsFrom(db.clock)) ==> ok
    {
      ok := db.UpgradeArchiveDatabaseSchema();
    }
    if db.AlwaysTracks() {
      TrackedTrace(db.Start(), db.initial, db.trace);
    }
    if db.AtomicSaves() {
      AtomicIsExact(db.initial, db.trace);
    }
  }

  /** A save that deletes the old version and fails to insert the new one makes the next run
      start again at the first step, although that has completed already. */
  method UpgradeAfterLostVersion(db: ArchiveDatabase) returns (ok: bool)
    requires db.Recorded() && Reading(db.setting) == Unset
    requires Orderly(db.Start(), db.trace) && Reached(db.Start(), db.trace) > 0
    modifies db
    ensures old(db.trace) < db.trace && db.trace[|old(db.trace)|].step == 0
    ensures !Orderly(db.Start(), db.trace[..|old(db.trace)| + 1])
  {
    ghost var before := db.trace;
    ok := db.UpgradeArchiveDatabaseSchema();
    assert db.trace[..|before| + 1][..|before|] == before;
  }

  /** One such save: the second step's statements are carried out, but its version is lost. */
  lemma LostVersion()
    ensures var trace := [Tried(0, 2, Save(true, true)), Tried(1, 1, Save(true, false))];
      && Orderly(0, trace) && Reached(0, trace) == 1
      && Reading(RowsAfter([], trace)) == Unset
      && !AlwaysTracking(0, [], trace)
  {
    var first, second := Tried(0, 2, Save(true, true)), Tried(1, 1, Save(true, false));
    var trace := [first, second];
    assert trace[..1] == [first] && [first][..0] == [];
  }

  /** A save whose deletion alone is refused reports success, but the old version stays in force. */
  lemma StaleVersion()
    ensures var trace := [Tried(0, 2, Save(true, true)), Tried(1, 1, Save(false, true))];
      && Orderly(0, trace) && Reached(0, trace) == 2
      && Reading(RowsAfter([], trace)) == VersionAt(1)
      && !AlwaysTracking(0, [], trace)
  {
    var first, second := Tried(0, 2, Save(true, true)), Tried(1, 1, Save(false, true));
    var trace := [first, second];
    assert trace[..1] == [first] && [first][..0] == [];
  }
}
