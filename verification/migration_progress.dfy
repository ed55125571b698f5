/** Every migration and direct write on its own connection returns, and what it returns if nothing of its own fails. */
module MigrationProgress {
  import opened Bytes
  import opened BundleCodec
  import opened Tables
  import opened FileStore
  import opened Statements
  import opened Migration
  import opened Connections
  import opened MigrationProtocol
  import opened ExactlyOnce
  import opened MixedRuns

  /** How many events of the run are turns of job i. */
  function Turns(evs: seq<Event>, i: nat): nat
  {
    if evs == [] then 0 else Turns(evs[..|evs| - 1], i) + if evs[|evs| - 1].who == i then 1 else 0
  }

  lemma {:induction false} AllTurns(evs: seq<Event>, i: nat)
    requires forall k :: 0 <= k < |evs| ==> evs[k].who == i
    ensures Turns(evs, i) == |evs|
  {
    if evs != [] {
      AllTurns(evs[..|evs| - 1], i);
    }
  }

  // ----- every job returns -----

  /** The number of entries a bundle claims to hold. */
  function Claimed(buf: Option<seq<byte>>): nat
  {
    if buf.Some? && |buf.value| >= 4 then ReadU32(buf.value[..4]) else 0
  }

  /** A bound on the turns a job still needs. */
  function TurnsLeft(j: Job): nat
  {
    match j
    case Direct(_, pc, _) => StepsLeft(pc)
    case Migrator(_, buf, stage) =>
      match stage
      case Check => Claimed(buf) + 6
      case Begin => Claimed(buf) + 5
      case Entries(_, _, entries, _) => 4 + if |entries| <= Claimed(buf) then Claimed(buf) - |entries| else 0
      case Recording(_, _, _) => 3
      case Committing(_, _, _) => 2
      case Open(_) => 1
      case Returned(_) => 0
  }

  lemma DirectTurn(s: Sys, ev: Event)
    requires Enabled(s, ev) && s.jobs[ev.who].Direct?
    ensures |FireDirect(s, ev).jobs| == |s.jobs|
    ensures forall i :: 0 <= i < |s.jobs| && i != ev.who ==> FireDirect(s, ev).jobs[i] == s.jobs[i]
    ensures var before, after := TurnsLeft(s.jobs[ev.who]), TurnsLeft(FireDirect(s, ev).jobs[ev.who]);
            after == 0 || after < before
  {
    hide MaxOrZero, InsertVersion;
  }

  lemma MigratorTouchesItself(s: Sys, ev: Event)
    requires Enabled(s, ev) && s.jobs[ev.who].Migrator?
    ensures |FireMigrator(s, ev).jobs| == |s.jobs|
    ensures forall i :: 0 <= i < |s.jobs| && i != ev.who ==> FireMigrator(s, ev).jobs[i] == s.jobs[i]
  {
    hide ReadU32, ParseEntry, WriteRun;
  }

  lemma MigratorTurn(s: Sys, ev: Event)
    requires Enabled(s, ev) && s.jobs[ev.who].Migrator? && |FireMigrator(s, ev).jobs| == |s.jobs|
    ensures var before, after := TurnsLeft(s.jobs[ev.who]), TurnsLeft(FireMigrator(s, ev).jobs[ev.who]);
            after == 0 || after < before
  {
    hide ReadU32, ParseEntry, WriteRun;
  }

  /** Whatever the others do and whatever fails: after so many turns of its own, a job has returned. */
  lemma {:induction false} EveryJobReturns(s: Sys, evs: seq<Event>, i: nat)
    requires i < |s.jobs|
    ensures var t := Execute(s, evs);
            && |t.jobs| == |s.jobs|
            && (TurnsLeft(t.jobs[i]) == 0 || TurnsLeft(t.jobs[i]) + Turns(evs, i) <= TurnsLeft(s.jobs[i]))
  {
    hide FireDirect, FireMigrator, TurnsLeft;
    if evs != [] {
      var n := |evs| - 1;
      EveryJobReturns(s, evs[..n], i);
      var before := Execute(s, evs[..n]);
      if Enabled(before, evs[n]) {
        if before.jobs[evs[n].who].Direct? {
          DirectTurn(before, evs[n]);
        } else {
          MigratorTouchesItself(before, evs[n]);
          MigratorTurn(before, evs[n]);
        }
      }
    }
  }

  // ----- what a status says, whatever fails -----

  predicate TrueStatus(disk: Db, j: Job, status: Status)
    requires j.Migrator?
  {
    match status
    case MigrateOk => j.id in disk.migrations
    case AlreadyApplied => j.id in disk.migrations
    case DecompressError => j.buf.None?
    case Corrupt => j.buf.Some? && Parse(j.buf.value).None?
    case DbError => true
  }

  predicate Truthful(disk: Db, j: Job)
  {
    j.Migrator? ==>
      match j.stage
      case Open(status) => status != MigrateOk && TrueStatus(disk, j, status)
      case Returned(status) => TrueStatus(disk, j, status)
      case _ => true
  }

  lemma EntriesTruthful(s: Sys, ev: Event)
    requires Locked(s) && Enabled(s, ev) && s.jobs[ev.who].Migrator? && s.jobs[ev.who].stage.Entries?
    ensures Truthful(s.disk, FireEntries(s, ev).jobs[ev.who])
    ensures FireEntries(s, ev).disk == s.disk
  {
    hide ReadU32, ParseEntry, ParseEntries, ApplyAll, WriteRun, Parse;
    var j := s.jobs[ev.who];
    assert JobOk(s.disk, j);
    var buf := j.buf.value;
    var num := ReadU32(buf[..4]);
    if |j.stage.entries| < num {
      ResumeParsing(buf, j.stage.ptr, num - |j.stage.entries|, j.stage.entries);
    }
  }

  lemma OwnTurnTruthful(s: Sys, ev: Event)
    requires Locked(s) && Enabled(s, ev) && s.jobs[ev.who].Migrator? && Truthful(s.disk, s.jobs[ev.who])
    ensures var t := FireMigrator(s, ev);
            |t.jobs| == |s.jobs| && Truthful(t.disk, t.jobs[ev.who])
  {
    hide Contiguous, FireEntries, Parse, TwoPhase, ApplyAll, ReadU32;
    var j := s.jobs[ev.who];
    assert JobOk(s.disk, j);
    SameBundle(s, ev);
    match j.stage
    case Check => ShortIsCorrupt(j.buf);
    case Entries(_, _, _, _) => EntriesTruthful(s, ev);
    case Committing(_, _, _) => CommittedId(s.disk, j);
    case _ =>
  }

  lemma ShortIsCorrupt(buf: Option<seq<byte>>)
    ensures buf.Some? && |buf.value| < 4 ==> Parse(buf.value).None?
  {}

  lemma CommittedId(disk: Db, j: Job)
    requires JobOk(disk, j) && j.Migrator? && j.stage.Committing?
    ensures j.id in j.stage.tx.migrations
  {
    hide ApplyAll, Parse;
  }

  lemma TruthfulTurn(s: Sys, ev: Event)
    requires Locked(s) && Enabled(s, ev) && forall i :: 0 <= i < |s.jobs| ==> Truthful(s.disk, s.jobs[i])
    ensures var t := Fire(s, ev);
            |t.jobs| == |s.jobs| && forall i :: 0 <= i < |t.jobs| ==> Truthful(t.disk, t.jobs[i])
  {
    hide Locked, FireMigrator, FireDirect, EntryCount, Parse;
    var committed := StepEffect(s, ev);
    if s.jobs[ev.who].Migrator? {
      OwnTurnTruthful(s, ev);
    } else {
      StaysDirect(s, ev);
    }
  }

  lemma StaysDirect(s: Sys, ev: Event)
    requires Enabled(s, ev) && s.jobs[ev.who].Direct?
    ensures |FireDirect(s, ev).jobs| == |s.jobs| && FireDirect(s, ev).jobs[ev.who].Direct?
  {}

  /** Any interleaving, any failures: a status other than DB_ERROR is never wrong about the store or the bundle. */
  lemma {:induction false} StatusesAreTrue(s: Sys, evs: seq<Event>)
    requires Initial(s) && Contiguous(s.disk.versions)
    ensures var t := Execute(s, evs);
            |t.jobs| == |s.jobs| && forall i :: 0 <= i < |t.jobs| ==> Truthful(t.disk, t.jobs[i])
  {
    hide Contiguous, Fire, Locked, Ledger;
    if evs != [] {
      var n := |evs| - 1;
      StatusesAreTrue(s, evs[..n]);
      EachBundleAtMostOnce(s, evs[..n]);
      if Enabled(Execute(s, evs[..n]), evs[n]) {
        TruthfulTurn(Execute(s, evs[..n]), evs[n]);
      }
    }
  }

  // ----- calls that fail -----

  /** The turn makes a call that fails, other than the step of the check or a ROLLBACK. */
  predicate FailingTurn(s: Sys, ev: Event)
    requires Enabled(s, ev) && s.jobs[ev.who].Migrator?
  {
    var j := s.jobs[ev.who];
    match j.stage
    case Check => ev.env.outcome.PrepareFails?
    case Begin => !ev.env.outcome.Runs?
    case Entries(_, _, entries, _) => !ev.env.outcome.Runs? && |entries| < Claimed(j.buf)
    case Recording(_, _, _) => !ev.env.outcome.Runs?
    case Committing(_, _, _) => !ev.env.outcome.Runs?
    case _ => false
  }

  /**
   * A failing call ends a migration at once, with the database as it was. The write lock is given back only by a
   * ROLLBACK that runs: not by a failed COMMIT.
   */
  lemma FailureEndsMigration(s: Sys, ev: Event)
    requires Locked(s) && Enabled(s, ev) && s.jobs[ev.who].Migrator? && FailingTurn(s, ev)
    ensures var t, stage := Fire(s, ev), s.jobs[ev.who].stage;
            && |t.jobs| == |s.jobs| && t.jobs[ev.who].Migrator? && t.disk == s.disk
            && (t.jobs[ev.who].stage.Open? || t.jobs[ev.who].stage.Returned?)
            && t.jobs[ev.who].stage.status in {DbError, Corrupt}
            && (s.lock == Some(ev.who) && (stage.Committing? || !ev.rollback) ==> t.lock == Some(ev.who))
            && (s.lock == Some(ev.who) && !stage.Committing? && ev.rollback ==> t.lock == None)
  {
    hide Contiguous, ReadU32, ParseEntry, WriteRun, ParseEntries, Parse, ApplyAll;
    assert JobOk(s.disk, s.jobs[ev.who]);
  }

  /** While a connection has its transaction open, a direct write that would change the database fails. */
  lemma OpenTransactionBlocks(s: Sys, ev: Event)
    requires Enabled(s, ev) && s.jobs[ev.who].Direct? && s.lock.Some?
    requires s.jobs[ev.who].pc.CreateId? || s.jobs[ev.who].pc.InsertRow?
    ensures var t := Fire(s, ev);
            t == s.(jobs := t.jobs) && |t.jobs| == |s.jobs| && t.jobs[ev.who] == s.jobs[ev.who].(pc := Failed)
  {}

  // ----- a migration whose own calls do not fail -----

  /** No call made in this turn fails. */
  ghost predicate Smooth(ev: Event)
  {
    ev.env.outcome.Runs? && ev.rollback && forall t :: ev.world(t).outcome.Runs?
  }

  /** No call made in this turn fails, except perhaps the step of the check, which the code ignores. */
  ghost predicate SmoothTurn(s: Sys, ev: Event)
    requires Enabled(s, ev)
  {
    var j := s.jobs[ev.who];
    if j.Migrator? && j.stage.Check? then !ev.env.outcome.PrepareFails? else Smooth(ev)
  }

  /** All turns of job i are smooth. */
  ghost predicate SmoothRun(s: Sys, evs: seq<Event>, i: nat)
  {
    evs == [] ||
    (SmoothRun(s, evs[..|evs| - 1], i) &&
     var before, ev := Execute(s, evs[..|evs| - 1]), evs[|evs| - 1];
     Enabled(before, ev) && ev.who == i ==> SmoothTurn(before, ev))
  }

  /** This turn finds the lock held by another job at BEGIN, or the bundle recorded already when it would record it. */
  predicate BlockedNow(s: Sys, ev: Event, i: nat)
    requires Enabled(s, ev)
  {
    var j := s.jobs[ev.who];
    && ev.who == i && j.Migrator?
    && ((j.stage.Begin? && s.lock.Some?) || (j.stage.Recording? && j.id in s.disk.migrations))
  }

  predicate Blocked(s: Sys, evs: seq<Event>, i: nat)
  {
    evs != [] &&
    (Blocked(s, evs[..|evs| - 1], i) ||
     var before := Execute(s, evs[..|evs| - 1]);
     Enabled(before, evs[|evs| - 1]) && BlockedNow(before, evs[|evs| - 1], i))
  }

  /** Such a migration has returned DB_ERROR exactly if it was blocked, and never leaves its transaction open. */
  predicate Explained(j: Job, blocked: bool)
  {
    j.Migrator? && !j.stage.Open? && (j.stage == Returned(DbError) <==> blocked)
  }

  lemma EntryIsWritten(disk: Db, tx: Db, entries: seq<Entry>, times: seq<int>, e: Entry, ev: Event)
    requires Consistent(disk) && Progress(disk, tx, entries, times) && Smooth(ev)
    ensures WriteRun(tx, ev.rowid, 0, RequestOf(e), ev.world).pc.Wrote?
  {
    hide Contiguous, Linked, CacheOk, ApplyAll, WriteRun;
    ApplyAllDoesItsJob(disk, entries, times);
    AppliedToParts(disk, tx, entries);
    WriteSucceeds(tx, ev.rowid, 0, RequestOf(e), ev.world);
  }

  lemma AppliedToParts(db: Db, after: Db, es: seq<Entry>)
    requires AppliedTo(db, after, es)
    ensures Contiguous(after.versions) && Linked(after)
  {}

  lemma EntriesTurn(s: Sys, ev: Event)
    requires Sound(s) && Enabled(s, ev) && Smooth(ev)
    requires s.jobs[ev.who].Migrator? && s.jobs[ev.who].stage.Entries?
    ensures var j := s.jobs[ev.who];
            var stage := FireEntries(s, ev).jobs[ev.who].stage;
            stage.Entries? || stage.Recording? || (stage == Returned(Corrupt) && j.buf.Some? && Parse(j.buf.value).None?)
  {
    hide Consistent, OwnId, ReadU32, ParseEntry, ParseEntries, ApplyAll, WriteRun, Parse, Smooth;
    var j := s.jobs[ev.who];
    assert JobOk(s.disk, j);
    var Entries(ptr, tx, entries, times) := j.stage;
    var buf := j.buf.value;
    var num := ReadU32(buf[..4]);
    SmoothRuns(ev);
    if |entries| < num {
      ResumeParsing(buf, ptr, num - |entries|, entries);
      if ParseEntry(buf, ptr).Some? {
        EntryIsWritten(s.disk, tx, entries, times, ParseEntry(buf, ptr).value.0, ev);
      }
    }
  }

  lemma SmoothRuns(ev: Event)
    requires Smooth(ev)
    ensures ev.env.outcome.Runs? && ev.rollback
  {}

  /** A transaction knows the ids that the database knows. */
  lemma SameMigrations(disk: Db, j: Job)
    requires JobOk(disk, j) && j.Migrator? && j.stage.Recording?
    ensures j.stage.tx.migrations == disk.migrations
  {
    hide ApplyAll, Parse;
    ApplyAllAddsRows(disk, j.stage.entries, j.stage.times);
  }

  lemma OwnTurnExplained(s: Sys, ev: Event, blocked: bool)
    requires Sound(s) && Enabled(s, ev) && SmoothTurn(s, ev) && Explained(s.jobs[ev.who], blocked)
    ensures |FireMigrator(s, ev).jobs| == |s.jobs|
    ensures Explained(FireMigrator(s, ev).jobs[ev.who], blocked || BlockedNow(s, ev, ev.who))
  {
    hide Consistent, OwnId, FireEntries, Smooth, Parse, TwoPhase, ApplyAll, ReadU32;
    var j := s.jobs[ev.who];
    assert JobOk(s.disk, j);
    if !j.stage.Check? {
      SmoothRuns(ev);
    }
    SameBundle(s, ev);
    match j.stage
    case Entries(_, _, _, _) => EntriesTurn(s, ev);
    case Recording(_, _, _) => SameMigrations(s.disk, j);
    case _ =>
  }

  lemma NothingLeftMeansReturned(j: Job)
    ensures j.Migrator? ==> (TurnsLeft(j) == 0 <==> j.stage.Returned?)
  {}

  /**
   * Any interleaving, rowids faithful: a migration whose turns are smooth returns after so many of them, and returns
   * DB_ERROR exactly if it found the write lock taken at BEGIN, or the bundle recorded although its check had not
   * seen it. StatusesAreTrue says what the other statuses mean.
   */
  lemma {:induction false} DbErrorMeansBlocked(s: Sys, evs: seq<Event>, i: nat)
    requires Initial(s) && Consistent(s.disk) && MixedRuns.FaithfulRun(s, evs)
    requires i < |s.jobs| && s.jobs[i].Migrator? && SmoothRun(s, evs, i)
    ensures var t := Execute(s, evs);
            && |t.jobs| == |s.jobs| && t.jobs[i].Migrator?
            && (Turns(evs, i) >= TurnsLeft(s.jobs[i]) ==> t.jobs[i].stage.Returned?)
            && (t.jobs[i].stage == Returned(DbError) <==> Blocked(s, evs, i))
            && !t.jobs[i].stage.Open?
  {
    hide Consistent, Fire, BlockedNow, Sound, SmoothTurn, Faithful, TurnsLeft;
    EveryJobReturns(s, evs, i);
    NothingLeftMeansReturned(Execute(s, evs).jobs[i]);
    if evs != [] {
      var n := |evs| - 1;
      DbErrorMeansBlocked(s, evs[..n], i);
      MixedReadsSeeLastStored(s, evs[..n], []);
      var before := Execute(s, evs[..n]);
      if Enabled(before, evs[n]) {
        OnlyOneJobMoves(before, evs[n]);
        if evs[n].who == i {
          OwnTurnExplained(before, evs[n], Blocked(s, evs[..n], i));
          FireIsFireMigrator(before, evs[n]);
        } else {
          NotOwnTurn(before, evs[n], i);
        }
      }
    }
  }

  lemma FireIsFireMigrator(s: Sys, ev: Event)
    requires Enabled(s, ev) && s.jobs[ev.who].Migrator?
    ensures Fire(s, ev) == FireMigrator(s, ev)
  {}

  lemma NotOwnTurn(s: Sys, ev: Event, i: nat)
    requires Enabled(s, ev) && ev.who != i
    ensures !BlockedNow(s, ev, i)
  {}

  // ----- one job on its own -----

  /** A migration with the database to itself; `checked` says that its check ran. Nothing changes before the commit. */
  ghost predicate Undisturbed(base: Db, t: Sys, i: nat, checked: bool)
  {
    && i < |t.jobs| && t.jobs[i].Migrator? && (t.lock == None || t.lock == Some(i))
    && var j := t.jobs[i];
       var isNew := j.id !in base.migrations;
       match j.stage
       case Check => t.disk == base
       case Committing(_, _, _) => t.disk == base && isNew
       case Returned(status) =>
         (match status
          case MigrateOk => isNew && j.buf.Some? && Parse(j.buf.value).Some? && Applied(base, t.disk, j.id, j.buf.value)
          case AlreadyApplied => t.disk == base && checked && !isNew
          case DecompressError => t.disk == base && (checked ==> isNew)
          case Corrupt => t.disk == base && (checked ==> isNew)
          case DbError => t.disk == base && !checked && !isNew && j.buf.Some? && Parse(j.buf.value).Some?)
       case Open(_) => false
       case _ => t.disk == base && (checked ==> isNew)
  }

  lemma UndisturbedTurn(base: Db, s: Sys, ev: Event, checked: bool)
    requires Sound(s) && Enabled(s, ev) && SmoothTurn(s, ev) && Undisturbed(base, s, ev.who, checked)
    requires s.jobs[ev.who].stage.Check? ==> checked == ev.env.outcome.Runs?
    ensures Undisturbed(base, FireMigrator(s, ev), ev.who, checked)
  {
    hide Consistent, OwnId, FireEntries, Smooth, Parse, TwoPhase, ApplyAll, ReadU32, Extends;
    var j := s.jobs[ev.who];
    assert JobOk(s.disk, j) && (InTransaction(j) <==> s.lock == Some(ev.who));
    if !j.stage.Check? {
      SmoothRuns(ev);
    }
    SameBundle(s, ev);
    MigratorStep(s, ev);
    CommitStep(s, ev);
    match j.stage
    case Entries(_, _, _, _) => EntriesTurn(s, ev);
    case Recording(_, _, _) => SameMigrations(s.disk, j);
    case Committing(_, _, _) => IsApplied(s.disk, FireMigrator(s, ev).disk, j);
    case _ =>
  }

  lemma IsApplied(before: Db, after: Db, j: Job)
    requires j.Migrator? && j.stage.Committing? && j.buf.Some?
    requires TwoPhase(before, j.id, j.buf.value, j.stage.times) == Some(after)
    ensures Applied(before, after, j.id, j.buf.value)
  {}

  /** The check is the first turn: it may fail to step; no later turn may fail. */
  ghost predicate AloneAndSmooth(evs: seq<Event>, i: nat)
  {
    && evs != [] && !evs[0].env.outcome.PrepareFails?
    && forall k :: 0 <= k < |evs| ==> evs[k].who == i && (k > 0 ==> Smooth(evs[k]))
  }

  lemma {:induction false} AloneUndisturbed(s: Sys, evs: seq<Event>, i: nat)
    requires Initial(s) && Consistent(s.disk) && i < |s.jobs| && s.jobs[i].Migrator? && AloneAndSmooth(evs, i)
    ensures var t := Execute(s, evs);
            && MixedRuns.FaithfulRun(s, evs) && Undisturbed(s.disk, t, i, evs[0].env.outcome.Runs?)
            && |t.jobs| == |s.jobs| && t.jobs[i].id == s.jobs[i].id && t.jobs[i].buf == s.jobs[i].buf
            && !t.jobs[i].stage.Check?
  {
    hide Consistent, FireMigrator, FireDirect, Sound, Smooth, Undisturbed;
    var n := |evs| - 1;
    var checked := evs[0].env.outcome.Runs?;
    InitiallyUndisturbed(s, i, checked);
    if n > 0 {
      AloneUndisturbed(s, evs[..n], i);
    }
    MixedReadsSeeLastStored(s, evs[..n], []);
    var before := Execute(s, evs[..n]);
    StaysMigrator(s.disk, before, i, checked);
    UndisturbedTurn(s.disk, before, evs[n], checked);
    SameBundle(before, evs[n]);
    LeavesCheck(before, evs[n]);
  }

  lemma LeavesCheck(s: Sys, ev: Event)
    requires Enabled(s, ev) && s.jobs[ev.who].Migrator?
    ensures |FireMigrator(s, ev).jobs| == |s.jobs| && FireMigrator(s, ev).jobs[ev.who].Migrator?
    ensures !FireMigrator(s, ev).jobs[ev.who].stage.Check?
  {
    hide ReadU32, ParseEntry, WriteRun;
  }

  lemma InitiallyUndisturbed(s: Sys, i: nat, checked: bool)
    requires Initial(s) && i < |s.jobs| && s.jobs[i].Migrator?
    ensures Undisturbed(s.disk, s, i, checked) && s.jobs[i].stage.Check?
  {}

  lemma StaysMigrator(base: Db, t: Sys, i: nat, checked: bool)
    requires Undisturbed(base, t, i, checked)
    ensures i < |t.jobs| && t.jobs[i].Migrator?
  {}

  /**
   * A migration with the database to itself and no failing call but perhaps its check: after enough turns it has
   * returned the status that the store and the bundle determine, and MIGRATE_OK means that the whole bundle is
   * applied and recorded. A check that fails costs a recorded bundle nothing but the status.
   */
  lemma MigratorAlone(s: Sys, evs: seq<Event>, i: nat)
    requires Initial(s) && Consistent(s.disk) && i < |s.jobs| && s.jobs[i].Migrator? && AloneAndSmooth(evs, i)
    requires |evs| >= TurnsLeft(s.jobs[i])
    ensures |Execute(s, evs).jobs| == |s.jobs|
    ensures var t, j, checked := Execute(s, evs), s.jobs[i], evs[0].env.outcome.Runs?;
            && t.jobs[i] == j.(stage := Returned(
                 if checked && j.id in s.disk.migrations then AlreadyApplied
                 else if j.buf.None? then DecompressError
                 else if Parse(j.buf.value).None? then Corrupt
                 else if j.id in s.disk.migrations then DbError
                 else MigrateOk))
            && if t.jobs[i].stage == Returned(MigrateOk) then Applied(s.disk, t.disk, j.id, j.buf.value) else t.disk == s.disk
  {
    hide Consistent, Parse, Applied, Smooth, TurnsLeft, Execute;
    AllTurns(evs, i);
    AloneUndisturbed(s, evs, i);
    EveryJobReturns(s, evs, i);
    NothingLeftMeansReturned(Execute(s, evs).jobs[i]);
    ConsistentIsContiguous(s.disk);
    StatusesAreTrue(s, evs);
  }

  lemma ConsistentIsContiguous(db: Db)
    requires Consistent(db)
    ensures Contiguous(db.versions)
  {}

  /** The matching states of a direct write on its own and of the run of overlay_fs_write. */
  lemma {:induction false} DirectSoFar(s: Sys, evs: seq<Event>, i: nat, world: World) returns (r: Run)
    requires Initial(s) && i < |s.jobs| && s.jobs[i].Direct? && MixedRuns.FaithfulRun(s, evs)
    requires forall k :: 0 <= k < |evs| ==> evs[k].who == i && world(k) == evs[k].env
    ensures var t := Execute(s, evs);
            && |t.jobs| == |s.jobs| && t.lock == None && t.disk == r.db
            && t.jobs[i] == Direct(s.jobs[i].req, r.pc, r.rowid)
    ensures !FileStore.Returned(r.pc) ==> r.tick == |evs|
    ensures RunWrite(r, s.jobs[i].req, world) == WriteRun(s.disk, s.jobs[i].last, 0, s.jobs[i].req, world)
  {
    hide Step, RunWrite;
    if evs == [] {
      r := Run(s.disk, s.jobs[i].last, 0, Lookup);
    } else {
      var n := |evs| - 1;
      var q := DirectSoFar(s, evs[..n], i, world);
      Unroll(q, s.jobs[i].req, world);
      RowidMatters(q.db, q.pc, s.jobs[i].req, evs[n].env, evs[n].rowid, q.rowid);
      r := if FileStore.Returned(q.pc) then q else Next(q, s.jobs[i].req, world);
    }
  }

  /** Four turns of a direct write with the database to itself, with any failures, end as overlay_fs_write ends. */
  lemma DirectAlone(s: Sys, evs: seq<Event>, i: nat, world: World)
    requires Initial(s) && i < |s.jobs| && s.jobs[i].Direct? && MixedRuns.FaithfulRun(s, evs) && |evs| >= 4
    requires forall k :: 0 <= k < |evs| ==> evs[k].who == i && world(k) == evs[k].env
    ensures |Execute(s, evs).jobs| == |s.jobs|
    ensures var r := WriteRun(s.disk, s.jobs[i].last, 0, s.jobs[i].req, world);
            Execute(s, evs).disk == r.db && Execute(s, evs).jobs[i] == Direct(s.jobs[i].req, r.pc, r.rowid)
  {
    hide MixedRuns.FaithfulRun, RunWrite;
    var r := DirectSoFar(s, evs, i, world);
    AllTurns(evs, i);
    EveryJobReturns(s, evs, i);
    Unroll(r, s.jobs[i].req, world);
  }

  /** Whatever a connection is about to do, some rowid is the one sqlite3_last_insert_rowid answers with. */
  lemma SomeRowidIsFaithful(s: Sys, ev: Event) returns (rowid: int)
    requires Enabled(s, ev)
    ensures Faithful(s, ev.(rowid := rowid))
  {
    rowid := if s.jobs[ev.who].Direct? then s.jobs[ev.who].last else 0;
  }
}
