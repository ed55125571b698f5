/** Migrators and direct writers together: what clients read and count after any run. */
module MixedRuns {
  import opened Bytes
  import opened BundleCodec
  import opened Tables
  import opened FileStore
  import opened Statements
  import opened Migration
  import opened MigrationProtocol
  import opened ExactlyOnce

  /** sqlite3_last_insert_rowid answers with the last id the writer's own connection inserted. */
  predicate Faithful(s: Sys, ev: Event)
    requires Enabled(s, ev)
  {
    var j := s.jobs[ev.who];
    j.Direct? && j.pc.ReadRowid? ==> ev.rowid == j.last
  }

  predicate FaithfulRun(s: Sys, evs: seq<Event>)
  {
    evs == [] ||
    (FaithfulRun(s, evs[..|evs| - 1]) &&
     var before := Execute(s, evs[..|evs| - 1]);
     Enabled(before, evs[|evs| - 1]) ==> Faithful(before, evs[|evs| - 1]))
  }

  // ----- what one step stores -----

  /** The bytes this step stores under p: those of a completed direct write, or of a committed bundle. */
  function StoredData(s: Sys, ev: Event, p: Path): Option<seq<byte>>
    requires Enabled(s, ev)
  {
    var j, k := s.jobs[ev.who], Fire(s, ev).jobs[ev.who];
    if j.Direct? then
      if k.Direct? && k.pc.Wrote? && !j.pc.Wrote? && j.req.path == p then Some(j.req.data) else None
    else if Migrated(k) && !Migrated(j) then LastData(EntriesOf(j), p) else None
  }

  /** The bytes stored last under p in the run. */
  function LastStored(s: Sys, evs: seq<Event>, p: Path): Option<seq<byte>>
  {
    if evs == [] then None
    else
      var before := Execute(s, evs[..|evs| - 1]);
      var ev := evs[|evs| - 1];
      if Enabled(before, ev) && StoredData(before, ev, p).Some? then StoredData(before, ev, p)
      else LastStored(s, evs[..|evs| - 1], p)
  }

  /** How many versions of p a job has stored. */
  function StoredBy(j: Job, p: Path): nat
  {
    if j.Direct? then (if j.pc.Wrote? && j.req.path == p then 1 else 0)
    else if Migrated(j) then Occurrences(EntriesOf(j), p)
    else 0
  }

  function StoredByAll(jobs: seq<Job>, p: Path): nat
  {
    if jobs == [] then 0 else StoredByAll(jobs[1..], p) + StoredBy(jobs[0], p)
  }

  lemma {:induction false} StoredByAllUpdate(jobs: seq<Job>, i: nat, j: Job, p: Path)
    requires i < |jobs|
    ensures StoredByAll(jobs[i := j], p) == StoredByAll(jobs, p) + StoredBy(j, p) - StoredBy(jobs[i], p)
  {
    hide StoredBy;
    if i > 0 {
      assert jobs[i := j][1..] == jobs[1..][i - 1 := j];
      StoredByAllUpdate(jobs[1..], i - 1, j, p);
    } else {
      assert jobs[0 := j][1..] == jobs[1..];
    }
  }

  lemma {:induction false} NothingStoredYet(jobs: seq<Job>, p: Path)
    requires forall i :: 0 <= i < |jobs| ==>
                           match jobs[i] case Direct(_, pc, _) => pc == Lookup case Migrator(_, _, stage) => stage == Check
    ensures StoredByAll(jobs, p) == 0
  {
    if jobs != [] {
      NothingStoredYet(jobs[1..], p);
    }
  }

  // ----- every reachable state is consistent -----

  /** A direct write works on the id of its own path. */
  predicate OwnId(db: Db, j: Job)
  {
    j.Direct? ==>
      match j.pc
      case ReadRowid => j.req.path in db.ids && db.ids[j.req.path] == FileId(j.last)
      case ReadMax(f) => j.req.path in db.ids && db.ids[j.req.path] == f
      case InsertRow(f, _) => j.req.path in db.ids && db.ids[j.req.path] == f
      case _ => true
  }

  ghost predicate Sound(s: Sys)
  {
    Locked(s) && Consistent(s.disk) && forall i :: 0 <= i < |s.jobs| ==> OwnId(s.disk, s.jobs[i])
  }

  /** What one step does to the file at p. */
  ghost predicate FileStep(s: Sys, ev: Event, p: Path)
    requires Enabled(s, ev)
  {
    var t := Fire(s, ev);
    && |t.jobs| == |s.jobs|
    && ReadById(t.disk, p) == (if StoredData(s, ev, p).Some? then StoredData(s, ev, p) else ReadById(s.disk, p))
    && VersionCount(t.disk, p) - StoredBy(t.jobs[ev.who], p) == VersionCount(s.disk, p) - StoredBy(s.jobs[ev.who], p)
  }

  lemma DirectFile(s: Sys, ev: Event, p: Path)
    requires Sound(s) && Enabled(s, ev) && s.jobs[ev.who].Direct?
    ensures Consistent(FireDirect(s, ev).disk) && FileStep(s, ev, p)
  {
    hide Consistent, Step, ReadById, VersionCount, StageOk;
    var j := s.jobs[ev.who];
    assert JobOk(s.disk, j) && OwnId(s.disk, j);
    OnlyInsertCompletes(s.disk, j.pc, j.req, EnvOf(s, ev), ev.rowid);
    StatementOnFile(s.disk, j.pc, j.req, EnvOf(s, ev), ev.rowid, p);
  }

  lemma DirectKeepsOwnId(s: Sys, ev: Event)
    requires Sound(s) && Enabled(s, ev) && Faithful(s, ev) && s.jobs[ev.who].Direct?
    ensures KeepsIds(s.disk, FireDirect(s, ev).disk)
    ensures OwnId(FireDirect(s, ev).disk, FireDirect(s, ev).jobs[ev.who])
  {
    hide Consistent, Locked, MaxOrZero, UpsertIfNewer;
    var j := s.jobs[ev.who];
    assert OwnId(s.disk, j);
    IdsGrow(s.disk, j.pc, j.req, EnvOf(s, ev), ev.rowid);
  }

  /** A commit shows the whole bundle; every other step of a migrator shows nothing. */
  lemma MigratorFile(s: Sys, ev: Event, p: Path)
    requires Sound(s) && Enabled(s, ev) && s.jobs[ev.who].Migrator?
    ensures Consistent(FireMigrator(s, ev).disk) && FileStep(s, ev, p)
    ensures KeepsIds(s.disk, FireMigrator(s, ev).disk)
  {
    hide Consistent, FireMigrator, Locked, TwoPhase, Parse, ReadById, VersionCount, Occurrences, LastData, Extends;
    var j := s.jobs[ev.who];
    CommitStep(s, ev);
    SameBundle(s, ev);
    if j.stage.Committing? && ev.env.outcome.Runs? {
      CommittedFile(s.disk, FireMigrator(s, ev).disk, j.id, j.buf.value, j.stage.times, p);
    }
  }

  lemma CommittedFile(disk: Db, after: Db, id: string, buf: seq<byte>, times: seq<int>, p: Path)
    requires Consistent(disk) && Parse(buf).Some? && TwoPhase(disk, id, buf, times) == Some(after)
    ensures Consistent(after) && KeepsIds(disk, after)
    ensures var es := Parse(buf).value.0;
            && ReadById(after, p) == (if LastData(es, p).Some? then LastData(es, p) else ReadById(disk, p))
            && VersionCount(after, p) == VersionCount(disk, p) + Occurrences(es, p)
  {
    hide Consistent, Parse, ApplyAll, ReadById, VersionCount, Occurrences, LastData;
    var es := Parse(buf).value.0;
    ApplyAllDoesItsJob(disk, es, times);
    ApplyAllKeepsIds(disk, es, times);
    RecordingIsInvisible(ApplyAll(disk, es, times).value, after, p);
  }

  lemma OthersKeepOwnId(s: Sys, t: Sys, i: nat)
    requires i < |s.jobs| && OwnId(s.disk, s.jobs[i]) && KeepsIds(s.disk, t.disk)
    ensures OwnId(t.disk, s.jobs[i])
  {}

  lemma FireKeepsSound(s: Sys, ev: Event, p: Path)
    requires Sound(s) && Enabled(s, ev) && Faithful(s, ev)
    ensures Sound(Fire(s, ev)) && FileStep(s, ev, p)
  {
    hide Consistent, Locked, FireMigrator, FireDirect, OwnId, FileStep, Faithful;
    var t := Fire(s, ev);
    FireKeepsLocked(s, ev);
    if s.jobs[ev.who].Direct? {
      DirectFile(s, ev, p);
      DirectKeepsOwnId(s, ev);
      DirectTouchesItself(s, ev);
    } else {
      MigratorFile(s, ev, p);
      MigratorStep(s, ev);
      SameBundle(s, ev);
      MigratorsHaveNoId(t.disk, t.jobs[ev.who]);
    }
    forall i | 0 <= i < |t.jobs|
      ensures OwnId(t.disk, t.jobs[i])
    {
      if i != ev.who {
        OthersKeepOwnId(s, t, i);
      }
    }
  }

  lemma MigratorsHaveNoId(db: Db, j: Job)
    requires j.Migrator?
    ensures OwnId(db, j)
  {}

  lemma InitiallySound(s: Sys)
    requires Initial(s) && Consistent(s.disk)
    ensures Sound(s)
  {
    hide Contiguous, Linked, CacheOk;
    InitialState(s);
  }

  /**
   * Any number of migrators and writers, any interleaving and any failures, rowids faithful: the store is
   * consistent, a read returns the bytes stored last under the path, by a direct write or by a committed bundle,
   * through either route, and the version count has grown by what the successful calls stored there.
   */
  lemma {:induction false} MixedReadsSeeLastStored(s: Sys, evs: seq<Event>, p: Path)
    requires Initial(s) && Consistent(s.disk) && FaithfulRun(s, evs)
    ensures Sound(Execute(s, evs))
    ensures var t := Execute(s, evs);
            var expected := if LastStored(s, evs, p).Some? then LastStored(s, evs, p) else ReadById(s.disk, p);
            && Consistent(t.disk)
            && ReadById(t.disk, p) == expected
            && (forall r :: MayReadLatest(t.disk, p, r) <==> r == expected)
            && VersionCount(t.disk, p) == VersionCount(s.disk, p) + StoredByAll(t.jobs, p)
  {
    hide Consistent, Locked, Fire, Faithful, StoredData, StoredByAll, StoredBy, ReadById, VersionCount, MayReadLatest, OwnId;
    var t := Execute(s, evs);
    if evs == [] {
      InitiallySound(s);
      NothingStoredYet(s.jobs, p);
    } else {
      var n := |evs| - 1;
      MixedReadsSeeLastStored(s, evs[..n], p);
      var before := Execute(s, evs[..n]);
      if Enabled(before, evs[n]) {
        FireKeepsSound(before, evs[n], p);
        OnlyOneJobMoves(before, evs[n]);
        StoredByAllUpdate(before.jobs, evs[n].who, t.jobs[evs[n].who], p);
      }
    }
    LinkedIfConsistent(t.disk);
    RoutesAgree(t.disk, p);
  }

  lemma OnlyOneJobMoves(s: Sys, ev: Event)
    requires Sound(s) && Enabled(s, ev)
    ensures |Fire(s, ev).jobs| == |s.jobs| && Fire(s, ev).jobs == s.jobs[ev.who := Fire(s, ev).jobs[ev.who]]
  {
    hide Consistent, Locked, FireMigrator, FireDirect, OwnId;
    if s.jobs[ev.who].Direct? {
      DirectTouchesItself(s, ev);
    } else {
      MigratorStep(s, ev);
    }
  }
}
