/** Migrators and direct writers on separate connections of one database, interleaved. */
module MigrationProtocol {
  import opened Bytes
  import opened BundleCodec
  import opened Tables
  import opened FileStore
  import opened Statements
  import opened Migration
  import opened Connections
  import opened WriteProtocol

  /** Where a call of overlay_fs_migrate_assets stands. `entries` and `times` record what tx already holds. */
  datatype Stage =
    | Check
    | Begin
    | Entries(ptr: nat, tx: Db, entries: seq<Entry>, times: seq<int>)
    | Recording(tx: Db, entries: seq<Entry>, times: seq<int>)
    | Committing(tx: Db, entries: seq<Entry>, times: seq<int>)
    | Open(status: Status)      // returned with the transaction open; the connection will be closed
    | Returned(status: Status)

  /**
   * A direct write (`last` is sqlite3_last_insert_rowid of its connection), or a migration of a bundle with this
   * id whose decompression gives buf.
   */
  datatype Job =
    | Direct(req: Request, pc: Pc, last: int)
    | Migrator(id: string, buf: Option<seq<byte>>, stage: Stage)

  /** `lock` is the job whose connection is inside BEGIN IMMEDIATE. */
  datatype Sys = Sys(disk: Db, lock: Option<nat>, jobs: seq<Job>)

  /**
   * Job `who` takes its next step. `env` governs its statement, `world` the statements of a whole file write
   * inside a transaction (invisible to the others), `rollback` whether a ROLLBACK succeeds.
   */
  datatype Event = Event(who: nat, env: Env, rowid: int, world: World, rollback: bool)

  predicate InTransaction(j: Job)
  {
    j.Migrator? && (j.stage.Entries? || j.stage.Recording? || j.stage.Committing? || j.stage.Open?)
  }

  predicate Enabled(s: Sys, ev: Event) { ev.who < |s.jobs| }

  function SetJob(s: Sys, i: nat, j: Job): Sys
    requires i < |s.jobs|
  {
    s.(jobs := s.jobs[i := j])
  }

  /** A direct writer's environment: writing is refused while another connection holds the lock. */
  function EnvOf(s: Sys, ev: Event): Env
    requires Enabled(s, ev) && s.jobs[ev.who].Direct?
  {
    var pc := s.jobs[ev.who].pc;
    var busy := s.lock.Some? && (pc.CreateId? || pc.InsertRow?);
    if busy && ev.env.outcome.Runs? then Env(StepFails, ev.env.now) else ev.env
  }

  /** A direct writer's statement. */
  function FireDirect(s: Sys, ev: Event): Sys
    requires Enabled(s, ev) && s.jobs[ev.who].Direct?
  {
    var j := s.jobs[ev.who];
    var after := Step(s.disk, j.pc, j.req, EnvOf(s, ev), ev.rowid);
    SetJob(s, ev.who, j.(pc := after.1, last := RowidAfter(j.pc, after, j.last))).(disk := after.0)
  }

  /** ROLLBACK, whose result is ignored, and return. */
  function Abort(s: Sys, ev: Event, status: Status): Sys
    requires Enabled(s, ev) && s.jobs[ev.who].Migrator?
  {
    var j := s.jobs[ev.who];
    if ev.rollback then SetJob(s, ev.who, j.(stage := Returned(status))).(lock := None)
    else SetJob(s, ev.who, j.(stage := Open(status)))
  }

  /** One turn of the loop over the entries, or its end. */
  function FireEntries(s: Sys, ev: Event): Sys
    requires Enabled(s, ev) && s.jobs[ev.who].Migrator? && s.jobs[ev.who].stage.Entries?
  {
    var j := s.jobs[ev.who];
    var Entries(ptr, tx, entries, times) := j.stage;
    // the cursor never leaves the buffer (StageOk), so this line only makes the function total
    if j.buf.None? || |j.buf.value| < 4 || ptr > |j.buf.value| then Abort(s, ev, Corrupt)
    else if |entries| >= ReadU32(j.buf.value[..4]) then SetJob(s, ev.who, j.(stage := Recording(tx, entries, times)))
    else
      match ParseEntry(j.buf.value, ptr)
      case None => Abort(s, ev, Corrupt)
      case Some((e, next)) =>
        if !ev.env.outcome.Runs? then Abort(s, ev, DbError)
        else
          var r := WriteRun(tx, ev.rowid, 0, RequestOf(e), ev.world);
          if r.pc.Wrote?
          then SetJob(s, ev.who, j.(stage := Entries(next, r.db, entries + [e], times + [ev.world(r.tick - 1).now])))
          else Abort(s, ev, DbError)
  }

  function FireMigrator(s: Sys, ev: Event): Sys
    requires Enabled(s, ev) && s.jobs[ev.who].Migrator?
  {
    var j := s.jobs[ev.who];
    match j.stage
    case Check =>
      if ev.env.outcome.PrepareFails? then SetJob(s, ev.who, j.(stage := Returned(DbError)))
      else if ev.env.outcome.Runs? && j.id in s.disk.migrations
      then SetJob(s, ev.who, j.(stage := Returned(AlreadyApplied)))
      else if j.buf.None? then SetJob(s, ev.who, j.(stage := Returned(DecompressError)))
      else if |j.buf.value| < 4 then SetJob(s, ev.who, j.(stage := Returned(Corrupt)))
      else SetJob(s, ev.who, j.(stage := Begin))
    case Begin =>
      if !ev.env.outcome.Runs? || s.lock.Some? then SetJob(s, ev.who, j.(stage := Returned(DbError)))
      else SetJob(s, ev.who, j.(stage := Entries(4, s.disk, [], []))).(lock := Some(ev.who))
    case Entries(_, _, _, _) => FireEntries(s, ev)
    case Recording(tx, entries, times) =>
      if !ev.env.outcome.Runs? || j.id in tx.migrations then Abort(s, ev, DbError)
      else SetJob(s, ev.who, j.(stage := Committing(Record(tx, j.id, |entries|).value, entries, times)))
    case Committing(tx, _, _) =>
      if ev.env.outcome.Runs?
      then SetJob(s, ev.who, j.(stage := Returned(MigrateOk))).(disk := tx, lock := None)
      else SetJob(s, ev.who, j.(stage := Open(DbError)))
    // hbf_db_init closes the connection
    case Open(status) => SetJob(s, ev.who, j.(stage := Returned(status))).(lock := None)
    case Returned(_) => s
  }

  function Fire(s: Sys, ev: Event): (t: Sys)
    requires Enabled(s, ev)
  {
    if s.jobs[ev.who].Direct? then FireDirect(s, ev) else FireMigrator(s, ev)
  }

  function Execute(s: Sys, evs: seq<Event>): Sys
  {
    if evs == [] then s
    else
      var before := Execute(s, evs[..|evs| - 1]);
      var ev := evs[|evs| - 1];
      if Enabled(before, ev) then Fire(before, ev) else before
  }

  predicate Initial(s: Sys)
  {
    && s.lock == None
    && forall i :: 0 <= i < |s.jobs| ==>
                     match s.jobs[i] case Direct(_, pc, _) => pc == Lookup case Migrator(_, _, stage) => stage == Check
  }

  // ----- the state of one migrator -----

  /** What the private state of a transaction is: the committed state plus the entries read so far. */
  ghost predicate Progress(disk: Db, tx: Db, entries: seq<Entry>, times: seq<int>)
  {
    |entries| == |times| && ApplyAll(disk, entries, times) == Some(tx)
  }

  /** The whole bundle has been read into `entries`. */
  predicate ReadAll(buf: seq<byte>, entries: seq<Entry>)
  {
    Parse(buf).Some? && Parse(buf).value.0 == entries
  }

  ghost predicate StageOk(disk: Db, buf: Option<seq<byte>>, id: string, stage: Stage)
  {
    match stage
    case Begin => buf.Some? && |buf.value| >= 4
    case Entries(ptr, tx, entries, times) =>
      && buf.Some? && 4 <= ptr <= |buf.value| && |entries| <= ReadU32(buf.value[..4])
      && Progress(disk, tx, entries, times)
      && Parse(buf.value) == Resume(entries, ParseEntries(buf.value, ptr, ReadU32(buf.value[..4]) - |entries|))
    case Recording(tx, entries, times) =>
      buf.Some? && ReadAll(buf.value, entries) && Progress(disk, tx, entries, times)
    case Committing(tx, entries, times) =>
      buf.Some? && ReadAll(buf.value, entries) && TwoPhase(disk, id, buf.value, times) == Some(tx)
    case Open(status) => status != MigrateOk
    case _ => true
  }

  ghost predicate JobOk(disk: Db, j: Job)
  {
    match j
    case Direct(_, pc, _) => Follows(disk.versions, pc)
    case Migrator(id, buf, stage) => StageOk(disk, buf, id, stage)
  }

  /** The lock is held by the one job inside a transaction, and its private state is explained by the disk. */
  ghost predicate Locked(s: Sys)
  {
    && Contiguous(s.disk.versions)
    && (forall i :: 0 <= i < |s.jobs| ==> (InTransaction(s.jobs[i]) <==> s.lock == Some(i)))
    && (forall i :: 0 <= i < |s.jobs| ==> JobOk(s.disk, s.jobs[i]))
  }

  /** One turn of the loop keeps the transaction explained. */
  lemma EntriesStep(s: Sys, ev: Event)
    requires Locked(s) && Enabled(s, ev) && s.jobs[ev.who].Migrator? && s.jobs[ev.who].stage.Entries?
    ensures JobOk(s.disk, FireEntries(s, ev).jobs[ev.who])
  {
    hide Contiguous, ReadU32, ParseEntry, ParseEntries, ApplyAll, WriteRun, Append, Parse;
    var j := s.jobs[ev.who];
    var Entries(ptr, tx, entries, times) := j.stage;
    assert JobOk(s.disk, j);
    var buf := j.buf.value;
    var num := ReadU32(buf[..4]);
    if |entries| >= num {
      NothingLeft(buf, ptr, entries);
    } else {
      ResumeParsing(buf, ptr, num - |entries|, entries);
      if ParseEntry(buf, ptr).Some? {
        EntryApplied(s.disk, tx, entries, times, ParseEntry(buf, ptr).value.0, ev);
      }
    }
  }

  lemma EntryApplied(disk: Db, tx: Db, entries: seq<Entry>, times: seq<int>, e: Entry, ev: Event)
    requires Contiguous(disk.versions) && Progress(disk, tx, entries, times)
    ensures var r := WriteRun(tx, ev.rowid, 0, RequestOf(e), ev.world);
            r.pc.Wrote? ==> Progress(disk, r.db, entries + [e], times + [ev.world(r.tick - 1).now])
  {
    hide Contiguous, ApplyAll, WriteRun, Append;
    var r := WriteRun(tx, ev.rowid, 0, RequestOf(e), ev.world);
    ApplyAllKeepsContiguous(disk, entries, times);
    WriteOutcome(tx, ev.rowid, 0, RequestOf(e), ev.world);
    ApplyAllSnoc(disk, entries, times, e, ev.world(r.tick - 1).now);
  }

  lemma RecordingStep(disk: Db, j: Job)
    requires JobOk(disk, j) && j.Migrator? && j.stage.Recording? && j.id !in j.stage.tx.migrations
    ensures var Recording(tx, entries, times) := j.stage;
            TwoPhase(disk, j.id, j.buf.value, times) == Record(tx, j.id, |entries|)
  {
    hide ApplyAll, Parse;
  }

  /** A transition of one migrator: it changes the disk only by committing a whole bundle. */
  lemma MigratorStep(s: Sys, ev: Event)
    requires Locked(s) && Enabled(s, ev) && s.jobs[ev.who].Migrator?
    ensures var t := FireMigrator(s, ev);
            && JobOk(s.disk, t.jobs[ev.who])
            && |t.jobs| == |s.jobs|
            && (forall i :: 0 <= i < |s.jobs| && i != ev.who ==> t.jobs[i] == s.jobs[i])
            && (InTransaction(t.jobs[ev.who]) <==> t.lock == Some(ev.who))
            && (t.lock == s.lock || (s.lock == None && t.lock == Some(ev.who)) || (s.lock == Some(ev.who) && t.lock == None))
            && (t.disk != s.disk ==> s.lock == Some(ev.who) && s.jobs[ev.who].stage.Committing?)
  {
    hide Contiguous, ReadU32, ParseEntry, ParseEntries, ApplyAll, WriteRun, Parse, TwoPhase;
    var j := s.jobs[ev.who];
    assert JobOk(s.disk, j) && (InTransaction(j) <==> s.lock == Some(ev.who));
    match j.stage
    case Begin => BeginStep(s.disk, j);
    case Entries(_, _, _, _) => EntriesStep(s, ev);
    case Recording(_, _, _) => if j.id !in j.stage.tx.migrations { RecordingStep(s.disk, j); }
    case _ =>
  }

  lemma BeginStep(disk: Db, j: Job)
    requires j.Migrator? && j.buf.Some? && |j.buf.value| >= 4
    ensures StageOk(disk, j.buf, j.id, Entries(4, disk, [], []))
  {
    hide ParseEntries, ReadU32;
    ResumeNothing(Parse(j.buf.value));
  }

  // ----- what a commit adds -----

  /** A committed bundle adds its entries as rows, one row to migrations under a new id, and nothing else. */
  lemma CommitEffect(disk: Db, id: string, buf: seq<byte>, times: seq<int>)
    requires Contiguous(disk.versions) && TwoPhase(disk, id, buf, times).Some?
    ensures var after := TwoPhase(disk, id, buf, times).value;
            var n := |Parse(buf).value.0|;
            && Contiguous(after.versions) && Extends(disk.versions, after.versions)
            && |after.versions| == |disk.versions| + n
            && id !in disk.migrations && after.migrations == disk.migrations[id := n]
  {
    hide Contiguous, Parse, ApplyAll;
    var es := Parse(buf).value.0;
    ApplyAllKeepsContiguous(disk, es, times);
    ApplyAllAddsRows(disk, es, times);
  }

  // ----- every reachable state -----

  lemma StepCountsRows(db: Db, pc: Pc, req: Request, env: Env, rowid: int)
    ensures var after := Step(db, pc, req, env, rowid);
            && after.0.migrations == db.migrations
            && |after.0.versions| == |db.versions| + (if after.1.Wrote? && !pc.Wrote? then 1 else 0)
            && (pc.Wrote? ==> after.1.Wrote?)
            && (!env.outcome.Runs? || !(pc.CreateId? || pc.InsertRow?) ==> after.0 == db)
  {
    hide MaxOrZero, UpsertIfNewer;
  }

  lemma DirectStep(s: Sys, ev: Event)
    requires Locked(s) && Enabled(s, ev) && s.jobs[ev.who].Direct?
    ensures var t := FireDirect(s, ev);
            && Contiguous(t.disk.versions) && JobOk(t.disk, t.jobs[ev.who]) && t.jobs[ev.who].Direct?
            && Extends(s.disk.versions, t.disk.versions) && t.disk.migrations == s.disk.migrations
            && (s.lock.Some? ==> t.disk == s.disk)
            && |t.disk.versions| ==
               |s.disk.versions| + (if t.jobs[ev.who].pc.Wrote? && !s.jobs[ev.who].pc.Wrote? then 1 else 0)
            && (s.jobs[ev.who].pc.Wrote? ==> t.jobs[ev.who].pc.Wrote?)
  {
    hide Step, Contiguous, Follows, Extends;
    var j := s.jobs[ev.who];
    assert JobOk(s.disk, j);
    var env := EnvOf(s, ev);
    StepKeepsRows(s.disk, j.pc, j.req, env, ev.rowid);
    StepKeepsContiguous(s.disk, j.pc, j.req, env, ev.rowid);
    StepCountsRows(s.disk, j.pc, j.req, env, ev.rowid);
  }

  lemma OtherJobStaysOk(s: Sys, t: Sys, j: Job)
    requires JobOk(s.disk, j) && Extends(s.disk.versions, t.disk.versions)
    requires InTransaction(j) ==> t.disk == s.disk
    ensures JobOk(t.disk, j)
  {
    hide ReadAll, Progress, TwoPhase, ParseEntries, Parse, ReadU32;
  }

  /** A step keeps the lock discipline; only a commit, or a direct write outside any transaction, changes the disk. */
  lemma FireKeepsLocked(s: Sys, ev: Event)
    requires Locked(s) && Enabled(s, ev)
    ensures Locked(Fire(s, ev)) && Extends(s.disk.versions, Fire(s, ev).disk.versions)
  {
    hide Contiguous, StageOk, Follows, FireMigrator, FireDirect, Extends;
    var t := Fire(s, ev);
    SameRows(s.disk.versions);
    if s.jobs[ev.who].Direct? {
      DirectStep(s, ev);
      DirectTouchesItself(s, ev);
    } else {
      MigratorStep(s, ev);
      CommitStep(s, ev);
    }
    forall i | 0 <= i < |t.jobs|
      ensures JobOk(t.disk, t.jobs[i]) && (InTransaction(t.jobs[i]) <==> t.lock == Some(i))
    {
      if i != ev.who {
        OtherJobStaysOk(s, t, s.jobs[i]);
      }
    }
  }

  lemma SameRows(vs: Versions)
    ensures Extends(vs, vs)
  {}

  lemma DirectTouchesItself(s: Sys, ev: Event)
    requires Enabled(s, ev) && s.jobs[ev.who].Direct?
    ensures var t := FireDirect(s, ev);
            t.lock == s.lock && |t.jobs| == |s.jobs| && forall i :: 0 <= i < |s.jobs| && i != ev.who ==> t.jobs[i] == s.jobs[i]
  {}

  /** What a migrator's step does to the disk. */
  lemma CommitStep(s: Sys, ev: Event)
    requires Locked(s) && Enabled(s, ev) && s.jobs[ev.who].Migrator?
    ensures var t := FireMigrator(s, ev);
            var j := s.jobs[ev.who];
            && Contiguous(t.disk.versions) && Extends(s.disk.versions, t.disk.versions)
            && JobOk(t.disk, t.jobs[ev.who])
            && (if j.stage.Committing? && ev.env.outcome.Runs?
                then
                  && j.buf.Some? && Parse(j.buf.value).Some?
                  && TwoPhase(s.disk, j.id, j.buf.value, j.stage.times) == Some(t.disk)
                  && t.jobs[ev.who].stage == Returned(MigrateOk)
                else t.disk == s.disk && (t.jobs[ev.who].stage == Returned(MigrateOk) ==> t.jobs[ev.who] == j))
  {
    hide Contiguous, TwoPhase, Parse, ReadU32, ParseEntry, WriteRun, Extends;
    var j := s.jobs[ev.who];
    assert JobOk(s.disk, j);
    MigratorStep(s, ev);
    SameRows(s.disk.versions);
    if j.stage.Committing? && ev.env.outcome.Runs? {
      CommitEffect(s.disk, j.id, j.buf.value, j.stage.times);
    } else {
      NeverOkOtherwise(s, ev);
    }
  }

  lemma NeverOkOtherwise(s: Sys, ev: Event)
    requires Locked(s) && Enabled(s, ev) && s.jobs[ev.who].Migrator?
    requires !(s.jobs[ev.who].stage.Committing? && ev.env.outcome.Runs?)
    ensures var t := FireMigrator(s, ev);
            t.disk == s.disk && (t.jobs[ev.who].stage == Returned(MigrateOk) ==> t.jobs[ev.who] == s.jobs[ev.who])
  {
    hide Contiguous, ReadU32, ParseEntry, WriteRun;
  }
}
