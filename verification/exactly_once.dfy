/** Over whole runs of migrators and writers: each bundle is applied at most once, and rows are conserved. */
module ExactlyOnce {
  import opened Bytes
  import opened BundleCodec
  import opened Tables
  import opened FileStore
  import opened Migration
  import opened MigrationProtocol

  /** A migration that returned MIGRATE_OK. */
  predicate Migrated(j: Job) { j.Migrator? && j.stage == Returned(MigrateOk) }

  ghost predicate IsMigrationOf(jobs: seq<Job>, id: string, entries: int)
  {
    exists i :: 0 <= i < |jobs| && Migrated(jobs[i]) && jobs[i].id == id && EntryCount(jobs[i]) == entries
  }

  /** The entries the bundle of a migration holds. */
  function EntriesOf(j: Job): seq<Entry>
  {
    if j.Migrator? && j.buf.Some? && Parse(j.buf.value).Some? then Parse(j.buf.value).value.0 else []
  }

  function EntryCount(j: Job): nat { |EntriesOf(j)| }

  ghost predicate Recorded(base: Db, disk: Db, j: Job)
  {
    Migrated(j) ==>
      && j.buf.Some? && Parse(j.buf.value).Some?
      && j.id !in base.migrations && j.id in disk.migrations && disk.migrations[j.id] == EntryCount(j)
  }

  ghost predicate OncePerId(jobs: seq<Job>)
  {
    forall i, j :: 0 <= i < j < |jobs| && Migrated(jobs[i]) && Migrated(jobs[j]) ==> jobs[i].id != jobs[j].id
  }

  /** The table migrations: its old rows, and one row for each migration that returned MIGRATE_OK. */
  ghost predicate Ledger(base: Db, s: Sys)
  {
    && (forall id :: id in base.migrations ==>
                       id in s.disk.migrations && s.disk.migrations[id] == base.migrations[id])
    && (forall i :: 0 <= i < |s.jobs| ==> Recorded(base, s.disk, s.jobs[i]))
    && OncePerId(s.jobs)
    && (forall id :: id in s.disk.migrations && id !in base.migrations ==>
                       IsMigrationOf(s.jobs, id, s.disk.migrations[id]))
  }

  /** One step, as far as migrations are concerned: it completes migration `who`, or completes nothing. */
  ghost predicate Stepped(s: Sys, t: Sys, who: nat, committed: bool)
  {
    && who < |s.jobs| && |t.jobs| == |s.jobs|
    && (forall i :: 0 <= i < |s.jobs| && i != who ==> t.jobs[i] == s.jobs[i])
    && if committed then
         var j := t.jobs[who];
         && !Migrated(s.jobs[who]) && Migrated(j)
         && j.buf.Some? && Parse(j.buf.value).Some?
         && j.id !in s.disk.migrations
         && t.disk.migrations == s.disk.migrations[j.id := EntryCount(j)]
         && |t.disk.versions| == |s.disk.versions| + EntryCount(j)
       else
         && t.disk.migrations == s.disk.migrations
         && (Migrated(t.jobs[who]) ==> t.jobs[who] == s.jobs[who])
         && (Migrated(s.jobs[who]) ==> t.jobs[who] == s.jobs[who])
  }

  lemma StepEffect(s: Sys, ev: Event) returns (committed: bool)
    requires Locked(s) && Enabled(s, ev)
    ensures Stepped(s, Fire(s, ev), ev.who, committed)
    ensures committed ==> s.jobs[ev.who].Migrator?
    ensures !committed && s.jobs[ev.who].Migrator? ==> Fire(s, ev).disk == s.disk
  {
    hide Contiguous, Locked, FireMigrator, FireDirect, TwoPhase, Parse, Extends;
    var j := s.jobs[ev.who];
    if j.Direct? {
      committed := false;
      DirectStep(s, ev);
      DirectTouchesItself(s, ev);
    } else {
      committed := j.stage.Committing? && ev.env.outcome.Runs?;
      MigratorStep(s, ev);
      CommitStep(s, ev);
      SameBundle(s, ev);
      if committed {
        DiskContiguous(s);
        CommitEffect(s.disk, j.id, j.buf.value, j.stage.times);
      }
    }
  }

  lemma DiskContiguous(s: Sys)
    requires Locked(s)
    ensures Contiguous(s.disk.versions)
  {}

  lemma SameBundle(s: Sys, ev: Event)
    requires Enabled(s, ev) && s.jobs[ev.who].Migrator?
    ensures var t := FireMigrator(s, ev);
            && |t.jobs| == |s.jobs| && t.jobs[ev.who].Migrator?
            && t.jobs[ev.who].buf == s.jobs[ev.who].buf && t.jobs[ev.who].id == s.jobs[ev.who].id
            && (Migrated(s.jobs[ev.who]) ==> t == s)
  {
    hide ReadU32, ParseEntry, WriteRun;
  }

  lemma StepKeepsRecorded(base: Db, s: Sys, t: Sys, who: nat, committed: bool)
    requires Ledger(base, s) && Stepped(s, t, who, committed)
    ensures forall i :: 0 <= i < |t.jobs| ==> Recorded(base, t.disk, t.jobs[i])
  {
    hide EntryCount, Parse, IsMigrationOf;
    forall i | 0 <= i < |t.jobs|
      ensures Recorded(base, t.disk, t.jobs[i])
    {
      assert Recorded(base, s.disk, s.jobs[i]);
    }
  }

  lemma StepKeepsOncePerId(base: Db, s: Sys, t: Sys, who: nat, committed: bool)
    requires Ledger(base, s) && Stepped(s, t, who, committed)
    ensures OncePerId(t.jobs)
  {
    hide EntryCount, Parse, IsMigrationOf;
    forall i, j | 0 <= i < j < |t.jobs| && Migrated(t.jobs[i]) && Migrated(t.jobs[j])
      ensures t.jobs[i].id != t.jobs[j].id
    {
      assert Recorded(base, s.disk, s.jobs[i]) && Recorded(base, s.disk, s.jobs[j]);
    }
  }

  lemma StepKeepsOrigin(base: Db, s: Sys, t: Sys, who: nat, committed: bool, id: string)
    requires Ledger(base, s) && Stepped(s, t, who, committed) && id in t.disk.migrations && id !in base.migrations
    ensures IsMigrationOf(t.jobs, id, t.disk.migrations[id])
  {
    hide EntryCount, Parse, Recorded, OncePerId;
    if committed && id == t.jobs[who].id {
      assert Migrated(t.jobs[who]);
    } else {
      assert IsMigrationOf(s.jobs, id, s.disk.migrations[id]);
      var i :| 0 <= i < |s.jobs| && Migrated(s.jobs[i]) && s.jobs[i].id == id
               && EntryCount(s.jobs[i]) == s.disk.migrations[id];
      assert Migrated(t.jobs[i]) && t.jobs[i] == s.jobs[i];
    }
  }

  lemma FireKeepsLedger(base: Db, s: Sys, ev: Event)
    requires Locked(s) && Ledger(base, s) && Enabled(s, ev)
    ensures Ledger(base, Fire(s, ev))
  {
    hide Locked, Fire, EntryCount, Parse, Recorded, OncePerId, IsMigrationOf;
    var t := Fire(s, ev);
    var committed := StepEffect(s, ev);
    StepKeepsRecorded(base, s, t, ev.who, committed);
    StepKeepsOncePerId(base, s, t, ev.who, committed);
    forall id | id in t.disk.migrations && id !in base.migrations
      ensures IsMigrationOf(t.jobs, id, t.disk.migrations[id])
    {
      StepKeepsOrigin(base, s, t, ev.who, committed, id);
    }
  }

  lemma InitialState(s: Sys)
    requires Initial(s) && Contiguous(s.disk.versions)
    ensures Locked(s) && Ledger(s.disk, s)
  {
    hide Contiguous;
  }

  /**
   * Any number of migrators and writers, any interleaving, any failures (the check step included): migration
   * rows are never lost or altered, every new one belongs to exactly one migration that returned MIGRATE_OK
   * and counts its entries, and no two such migrations share a bundle id, nor have one that was there before.
   */
  lemma {:induction false} EachBundleAtMostOnce(s: Sys, evs: seq<Event>)
    requires Initial(s) && Contiguous(s.disk.versions)
    ensures Locked(Execute(s, evs)) && Ledger(s.disk, Execute(s, evs))
  {
    hide Contiguous, Initial, Locked, Fire, Ledger;
    if evs == [] {
      InitialState(s);
    } else {
      var n := |evs| - 1;
      EachBundleAtMostOnce(s, evs[..n]);
      var before := Execute(s, evs[..n]);
      if Enabled(before, evs[n]) {
        FireKeepsLocked(before, evs[n]);
        FireKeepsLedger(s.disk, before, evs[n]);
      }
    }
  }

  // ----- conservation -----

  /** SELECT SUM(entries) FROM migrations */
  ghost function Total(m: map<string, int>): int
  {
    if m == map[] then 0
    else
      var id :| id in m;
      m[id] + Total(m - {id})
  }

  lemma {:induction false} TotalWithout(m: map<string, int>, id: string)
    requires id in m
    ensures Total(m) == m[id] + Total(m - {id})
    decreases |m|
  {
    var first :| first in m && Total(m) == m[first] + Total(m - {first});
    if first != id {
      TotalWithout(m - {first}, id);
      assert m - {first} - {id} == m - {id} - {first};
      TotalWithout(m - {id}, first);
    }
  }

  lemma TotalInsert(m: map<string, int>, id: string, n: int)
    requires id !in m
    ensures Total(m[id := n]) == Total(m) + n
  {
    TotalWithout(m[id := n], id);
    assert m[id := n] - {id} == m;
  }

  /** How many direct writes have returned 0. */
  function DirectWrites(jobs: seq<Job>): nat
  {
    if jobs == [] then 0
    else DirectWrites(jobs[1..]) + if jobs[0].Direct? && jobs[0].pc.Wrote? then 1 else 0
  }

  lemma {:induction false} DirectWritesUpdate(jobs: seq<Job>, i: nat, j: Job)
    requires i < |jobs|
    ensures DirectWrites(jobs[i := j]) ==
            DirectWrites(jobs) + (if j.Direct? && j.pc.Wrote? then 1 else 0)
            - (if jobs[i].Direct? && jobs[i].pc.Wrote? then 1 else 0)
  {
    if i > 0 {
      assert jobs[i := j][1..] == jobs[1..][i - 1 := j];
      DirectWritesUpdate(jobs[1..], i - 1, j);
    } else {
      assert jobs[0 := j][1..] == jobs[1..];
    }
  }

  /** The rows of file_versions not accounted for by migrations or by direct writes of the run. */
  ghost function Balance(s: Sys): int
  {
    |s.disk.versions| - Total(s.disk.migrations) - DirectWrites(s.jobs)
  }

  lemma FireKeepsBalance(s: Sys, ev: Event)
    requires Locked(s) && Enabled(s, ev)
    ensures Balance(Fire(s, ev)) == Balance(s)
  {
    hide Contiguous, Locked, FireMigrator, FireDirect, Total, DirectWrites, EntryCount, Extends;
    var t := Fire(s, ev);
    var committed := StepEffect(s, ev);
    assert t.jobs == s.jobs[ev.who := t.jobs[ev.who]];
    DirectWritesUpdate(s.jobs, ev.who, t.jobs[ev.who]);
    if committed {
      TotalInsert(s.disk.migrations, t.jobs[ev.who].id, EntryCount(t.jobs[ev.who]));
    } else if s.jobs[ev.who].Direct? {
      DirectStep(s, ev);
    } else {
      SameBundle(s, ev);
    }
  }

  /** Conservation: rows = entries recorded in migrations + successful direct writes + what was there before. */
  lemma {:induction false} RowsAreConserved(s: Sys, evs: seq<Event>)
    requires Initial(s) && Contiguous(s.disk.versions)
    ensures var t := Execute(s, evs);
            |t.disk.versions| - |s.disk.versions| ==
            Total(t.disk.migrations) - Total(s.disk.migrations) + DirectWrites(t.jobs)
  {
    BalanceIsConstant(s, evs);
    NoDirectWriteYet(s.jobs);
  }

  lemma {:induction false} NoDirectWriteYet(jobs: seq<Job>)
    requires forall i :: 0 <= i < |jobs| ==> jobs[i].Direct? ==> jobs[i].pc == Lookup
    ensures DirectWrites(jobs) == 0
  {
    if jobs != [] {
      NoDirectWriteYet(jobs[1..]);
    }
  }

  lemma {:induction false} BalanceIsConstant(s: Sys, evs: seq<Event>)
    requires Initial(s) && Contiguous(s.disk.versions)
    ensures Balance(Execute(s, evs)) == Balance(s)
  {
    hide Contiguous, Initial, Locked, Fire, Ledger, Balance;
    if evs != [] {
      var n := |evs| - 1;
      BalanceIsConstant(s, evs[..n]);
      EachBundleAtMostOnce(s, evs[..n]);
      if Enabled(Execute(s, evs[..n]), evs[n]) {
        FireKeepsBalance(Execute(s, evs[..n]), evs[n]);
      }
    }
  }
}
