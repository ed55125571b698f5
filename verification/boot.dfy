/** hbf_db_init: the fixed sequence of steps every start runs on the database file. */
module Boot {
  import opened Bytes
  import opened BundleCodec
  import opened BundleId
  import opened Tables
  import opened FileStore
  import opened Migration
  import opened Connections

  /** sqlite3_close: an open transaction is lost. */
  method Close(c: Connection)
    modifies c`tx
    ensures c.tx.None?
  {
    c.tx := None;
  }

  /**
   * The schema script, statement by statement: the CREATE ... IF NOT EXISTS statements that add no row, the
   * bootstrap upsert, and the remaining CREATE statements. The script stops at the first failure.
   */
  method ApplySchema(c: Connection) returns (rc: int)
    requires c.tx.None?
    modifies c`disk, c`tick
    ensures (rc == 0 || rc == -1) && c.tick >= old(c.tick)
    ensures rc == 0 ==> c.disk == Bootstrap(old(c.disk))
    ensures c.disk == old(c.disk) || c.disk == Bootstrap(old(c.disk))
    ensures rc == 0 <==> forall t :: old(c.tick) <= t < old(c.tick) + 3 ==> c.world(t).outcome.Runs?
    ensures rc == 0 ==> c.tick == old(c.tick) + 3
  {
    var tables := c.Call();
    if !tables.outcome.Runs? {
      return -1;
    }
    var upsert := c.Call();
    if !upsert.outcome.Runs? {
      return -1;
    }
    c.disk := Bootstrap(c.disk);
    var triggers := c.Call();
    return if triggers.outcome.Runs? then 0 else -1;
  }

  lemma BootstrapKeepsLinks(db: Db)
    ensures Contiguous(Bootstrap(db).versions) <==> Contiguous(db.versions)
    ensures Linked(Bootstrap(db)) <==> Linked(db)
    ensures Bootstrap(db).migrations == db.migrations
  {
    hide UpsertIfNewer, LatestRow, Contiguous;
  }

  /** The database a start leaves behind: unchanged, bootstrapped, or bootstrapped and migrated. */
  ghost predicate BootedFrom(z: Zlib, blob: seq<byte>, before: Db, after: Db)
    requires 8 * |blob| < TWO_TO_THE_64
  {
    || after == before
    || after == Bootstrap(before)
    || (Decompress(z, blob).Some? && Applied(Bootstrap(before), after, IdOf(blob), Decompress(z, blob).value))
  }

  /** Whatever failed: a start keeps a consistent store consistent, and changes nothing once the bundle is recorded. */
  lemma BootedIsConsistent(z: Zlib, blob: seq<byte>, before: Db, after: Db)
    requires 8 * |blob| < TWO_TO_THE_64 && BootedFrom(z, blob, before, after)
    ensures Consistent(before) ==> Consistent(after)
    ensures Consistent(before) && IdOf(blob) in before.migrations ==> after == before
    ensures Consistent(before) && after != before ==>
              Decompress(z, blob).Some? && Applied(before, after, IdOf(blob), Decompress(z, blob).value)
  {
    hide Contiguous, Linked, CacheOk, IdOf, Applied, Bootstrap;
    BootstrapIsStable(before);
    if Consistent(before) && after != before {
      var buf := Decompress(z, blob).value;
      AppliedIsConsistent(before, after, IdOf(blob), buf);
      AppliedOnce(before, after, IdOf(blob), buf);
    }
  }

  lemma AppliedIsConsistent(before: Db, after: Db, id: string, buf: seq<byte>)
    requires Consistent(before) && Applied(before, after, id, buf)
    ensures Consistent(after)
  {
    hide Contiguous, Linked, CacheOk, Parse, ApplyAll, AppliedTo;
    var times :| TwoPhase(before, id, buf, times) == Some(after);
    TwoPhaseApplies(before, id, buf, times);
    AppliedToIsConsistent(before, after.(migrations := before.migrations), Parse(buf).value.0);
    RecordingIsInvisible(after.(migrations := before.migrations), after, []);
  }

  lemma AppliedToIsConsistent(db: Db, after: Db, es: seq<Entry>)
    requires AppliedTo(db, after, es)
    ensures Consistent(after)
  {}

  /** No call fails from now on, except perhaps the second of a start, the choice of the journal mode. */
  ghost predicate RunsButJournalMode(c: Connection)
    reads c
  {
    forall t :: c.tick <= t && t != c.tick + 1 ==> c.world(t).outcome.Runs?
  }

  /** Opening, the foreign keys, or one of the three parts of the schema script fails. */
  predicate FatalCallFails(c: Connection)
    reads c
  {
    || !c.world(c.tick).outcome.Runs? || !c.world(c.tick + 2).outcome.Runs?
    || !c.world(c.tick + 3).outcome.Runs? || !c.world(c.tick + 4).outcome.Runs? || !c.world(c.tick + 5).outcome.Runs?
  }

  /** Opening the database and the two settings of the connection. */
  method Configure(c: Connection) returns (rc: int)
    modifies c`tick
    ensures rc == if c.world(old(c.tick)).outcome.Runs? && c.world(old(c.tick) + 2).outcome.Runs? then 0 else -1
    ensures c.tick >= old(c.tick) && (rc == 0 ==> c.tick == old(c.tick) + 3)
  {
    var handle := c.Call();
    if !handle.outcome.Runs? {
      return -1;
    }
    var wal := c.Call();              // a failure is only logged
    var foreignKeys := c.Call();
    return if foreignKeys.outcome.Runs? then 0 else -1;
  }

  /** The migration, and the check that the schema is there. */
  method MigrateAndCheck(c: Connection, z: Zlib, blob: seq<byte>) returns (rc: int)
    requires c.Valid() && c.tx.None? && 8 * |blob| < TWO_TO_THE_64
    modifies c
    ensures c.Valid() && c.tick >= old(c.tick) && (rc == 0 || rc == -1)
    ensures c.disk == old(c.disk) ||
            (Decompress(z, blob).Some? && Applied(old(c.disk), c.disk, IdOf(blob), Decompress(z, blob).value))
    ensures rc == 0 ==> |blob| > 0 && IdOf(blob) in c.disk.migrations
    ensures rc == 0 && IdOf(blob) in old(c.disk).migrations ==> c.disk == old(c.disk)
    ensures rc == 0 ==> c.tx.None? && c.tick > old(c.tick) && c.world(c.tick - 1).outcome.Runs?
    ensures old(c.Reliable()) && Consistent(old(c.disk)) ==>
              Consistent(c.disk) && rc == if Verdict(z, old(c.disk), blob) in {MigrateOk, AlreadyApplied} then 0 else -1
  {
    hide Contiguous, Consistent, IdOf, Applied, Verdict;
    ghost var before := c.disk;
    var status, commit := c.MigrateAssets(z, blob);
    if status != MigrateOk && status != AlreadyApplied {
      return -1;
    }
    if status == MigrateOk {
      AppliedOnce(before, c.disk, IdOf(blob), Decompress(z, blob).value);
    }
    var check := c.Call();
    return if check.outcome.Runs? then 0 else -1;
  }

  /** hbf_db_init on the connection it opened; rc -1 means the connection was closed again. */
  method DbInit(c: Connection, z: Zlib, blob: seq<byte>) returns (rc: int)
    requires c.Valid() && c.tx.None? && 8 * |blob| < TWO_TO_THE_64
    modifies c
    ensures c.tx.None? && c.Valid() && c.tick >= old(c.tick) && (rc == 0 || rc == -1)
    // Whatever fails, no partial migration is ever committed (BootedIsConsistent says what follows).
    ensures BootedFrom(z, blob, old(c.disk), c.disk)
    // A start that succeeds has the bundle, and has applied it at most now.
    ensures rc == 0 ==> |blob| > 0 && IdOf(blob) in c.disk.migrations
    ensures rc == 0 && IdOf(blob) in old(c.disk).migrations ==> c.disk == Bootstrap(old(c.disk))
    // A failing call outside the migration is fatal, except for the choice of the journal mode.
    ensures old(FatalCallFails(c)) ==> rc == -1 && (c.disk == old(c.disk) || c.disk == Bootstrap(old(c.disk)))
    ensures rc == 0 ==> c.tick > old(c.tick) && c.world(c.tick - 1).outcome.Runs?
    // Without other failing calls, on a repairable store, the outcome is determined and the store ends consistent.
    ensures old(RunsButJournalMode(c)) && Consistent(Bootstrap(old(c.disk))) ==>
              && Consistent(c.disk)
              && rc == if Verdict(z, Bootstrap(old(c.disk)), blob) in {MigrateOk, AlreadyApplied} then 0 else -1
  {
    hide Contiguous, Consistent, IdOf, Applied, Verdict, Bootstrap;
    BootstrapKeepsLinks(c.disk);
    rc := Configure(c);
    if rc == 0 {
      rc := ApplySchema(c);
      if rc == 0 {
        rc := MigrateAndCheck(c, z, blob);
      }
    }
    if rc != 0 {
      Close(c);
    }
  }

  /**
   * Starting twice on a consistent store, whatever fails in either start: the store is consistent after each, and a
   * second start after one that succeeded leaves the database exactly as it was. If no call of the second start
   * fails (its calls are numbered from `between`), it succeeds too.
   */
  method BootTwice(c: Connection, z: Zlib, blob: seq<byte>)
    returns (first: int, second: int, ghost store: Db, ghost between: nat)
    requires c.Valid() && c.tx.None? && 8 * |blob| < TWO_TO_THE_64 && Consistent(c.disk)
    modifies c
    ensures Consistent(store) && Consistent(c.disk)
    ensures first == 0 ==> c.disk == store
    ensures first == 0 && (forall t :: between <= t ==> c.world(t).outcome.Runs?) ==> second == 0
  {
    hide Contiguous, Linked, CacheOk, IdOf, Applied, Bootstrap, BootedFrom;
    first := DbInit(c, z, blob);
    BootedIsConsistent(z, blob, old(c.disk), c.disk);
    store := c.disk;
    between := c.tick;
    BootstrapIsStable(store);
    second := DbInit(c, z, blob);
    BootedIsConsistent(z, blob, store, c.disk);
  }

  /** A start whose calls do not fail succeeds on this store. */
  predicate Boots(z: Zlib, db: Db, blob: seq<byte>)
    requires 8 * |blob| < TWO_TO_THE_64
  {
    Verdict(z, db, blob) in {MigrateOk, AlreadyApplied}
  }

  lemma ApplyingKeepsBoots(z: Zlib, before: Db, after: Db, blob: seq<byte>)
    requires 8 * |blob| < TWO_TO_THE_64 && Decompress(z, blob).Some?
    requires Applied(before, after, IdOf(blob), Decompress(z, blob).value)
    ensures Boots(z, before, blob) <==> Boots(z, after, blob)
  {
    hide IdOf, ApplyAll, Parse;
    AppliedOnce(before, after, IdOf(blob), Decompress(z, blob).value);
  }

  /**
   * Any number of starts, whatever fails, with their results: the bundle is applied once or not at all, and once
   * if a start succeeds. Without failing calls every start succeeds, or every start fails, by the first's verdict.
   */
  method BootRepeatedly(c: Connection, z: Zlib, blob: seq<byte>, starts: nat) returns (results: seq<int>)
    requires c.Valid() && c.tx.None? && 8 * |blob| < TWO_TO_THE_64 && Consistent(c.disk)
    modifies c
    ensures |results| == starts && Consistent(c.disk)
    ensures c.disk == old(c.disk) ||
            (Decompress(z, blob).Some? && Applied(old(c.disk), c.disk, IdOf(blob), Decompress(z, blob).value))
    ensures 0 in results ==> IdOf(blob) in c.disk.migrations
    ensures IdOf(blob) in old(c.disk).migrations ==> c.disk == old(c.disk)
    ensures old(c.Reliable()) ==> forall rc :: rc in results ==> rc == if Boots(z, old(c.disk), blob) then 0 else -1
  {
    hide Contiguous, Linked, CacheOk, IdOf, Applied, Bootstrap, BootedFrom, Boots;
    results := [];
    for i := 0 to starts
      invariant |results| == i && c.Valid() && c.tx.None? && Consistent(c.disk)
      invariant c.disk == old(c.disk) ||
                (Decompress(z, blob).Some? && Applied(old(c.disk), c.disk, IdOf(blob), Decompress(z, blob).value))
      invariant 0 in results ==> IdOf(blob) in c.disk.migrations
      invariant IdOf(blob) in old(c.disk).migrations ==> c.disk == old(c.disk)
      invariant Boots(z, c.disk, blob) <==> Boots(z, old(c.disk), blob)
      invariant old(c.Reliable()) ==>
                  c.Reliable() && forall rc :: rc in results ==> rc == if Boots(z, old(c.disk), blob) then 0 else -1
    {
      ghost var before := c.disk;
      var rc := StartOnce(c, z, blob);
      if before != old(c.disk) {
        AppliedOnce(old(c.disk), before, IdOf(blob), Decompress(z, blob).value);
      }
      if c.disk != before {
        ApplyingKeepsBoots(z, before, c.disk, blob);
      }
      results := results + [rc];
    }
  }

  /** One start on a consistent store, where the bootstrap changes nothing. */
  method StartOnce(c: Connection, z: Zlib, blob: seq<byte>) returns (rc: int)
    requires c.Valid() && c.tx.None? && 8 * |blob| < TWO_TO_THE_64 && Consistent(c.disk)
    modifies c
    ensures c.tx.None? && c.Valid() && c.tick >= old(c.tick) && Consistent(c.disk)
    ensures c.disk == old(c.disk) ||
            (Decompress(z, blob).Some? && Applied(old(c.disk), c.disk, IdOf(blob), Decompress(z, blob).value))
    ensures IdOf(blob) in old(c.disk).migrations ==> c.disk == old(c.disk)
    ensures rc == 0 ==> IdOf(blob) in c.disk.migrations
    ensures old(c.Reliable()) ==> rc == if Boots(z, old(c.disk), blob) then 0 else -1
  {
    hide Contiguous, Linked, CacheOk, IdOf, Applied, Bootstrap, BootedFrom, Verdict;
    BootstrapIsStable(c.disk);
    rc := DbInit(c, z, blob);
    BootedIsConsistent(z, blob, old(c.disk), c.disk);
  }
}
