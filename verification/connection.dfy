/** The functions of overlay_fs.c on one database connection, statement by statement. */
module Connections {
  import opened Bytes
  import opened BundleCodec
  import opened BundleId
  import opened Tables
  import opened FileStore
  import opened Migration

  class Connection {
    var disk: Db            // the committed database
    var tx: Option<Db>      // the private state of an open transaction
    var rowid: int          // sqlite3_last_insert_rowid
    var tick: nat           // calls of the SQLite interface made so far
    const world: World      // the environment of each call

    function View(): Db
      reads this
    {
      if tx.Some? then tx.value else disk
    }

    constructor (disk: Db, world: World)
      ensures this.disk == disk && this.world == world && tx == None && tick == 0
    {
      this.disk, this.world, tx, rowid, tick := disk, world, None, 0, 0;
    }

    method Call() returns (env: Env)
      modifies this`tick
      ensures env == world(old(tick)) && tick == old(tick) + 1
    {
      env := world(tick);
      tick := tick + 1;
    }

    /** A statement takes effect in the open transaction, or else is committed at once. */
    method Put(db: Db)
      modifies this`disk, this`tx
      ensures View() == db && tx.Some? == old(tx.Some?)
      ensures tx.Some? ==> disk == old(disk)
    {
      if tx.Some? {
        tx := Some(db);
      } else {
        disk := db;
      }
    }

    ghost function At(pc: Pc): Run
      reads this
    {
      Run(View(), rowid, tick, pc)
    }

    /** overlay_fs_write */
    method Write(path: Path, data: seq<byte>) returns (rc: int)
      modifies this
      ensures var s := WriteRun(old(View()), old(rowid), old(tick), Request(path, data), world);
              && View() == s.db && rowid == s.rowid && tick == s.tick
              && rc == if s.pc.Wrote? then 0 else -1
      ensures tx.Some? == old(tx.Some?) && (tx.Some? ==> disk == old(disk))
    {
      hide InsertVersion, MaxOrZero, RunWrite;
      var req := Request(path, data);
      ghost var r := At(Lookup);
      var fileId := -1;
      var nextVersion := 1;

      // Get or create file_id
      Unroll(r, req, world);
      r := Next(r, req, world);
      var env := Call();
      if env.outcome.PrepareFails? {
        Unroll(r, req, world);
        return -1;
      }
      if env.outcome.Runs? && path in View().ids {
        fileId := View().ids[path].n;
      }

      if fileId < 0 {
        assert r == At(CreateId);
        Unroll(r, req, world);
        r := Next(r, req, world);
        env := Call();
        if !env.outcome.Runs? || path in View().ids {
          Unroll(r, req, world);
          return -1;
        }
        Put(NewId(View(), path));
        rowid := View().seqNo;
        assert r == At(ReadRowid);
        Unroll(r, req, world);
        r := Next(r, req, world);
        env := Call();
        fileId := rowid;
      } else {
        assert r == At(ReadMax(FileId(fileId)));
        Unroll(r, req, world);
        r := Next(r, req, world);
        env := Call();
        if env.outcome.PrepareFails? {
          Unroll(r, req, world);
          return -1;
        }
        if env.outcome.Runs? {
          nextVersion := MaxOrZero(View().versions, FileId(fileId)) + 1;
        }
      }

      assert r == At(InsertRow(FileId(fileId), nextVersion));
      rc := WriteVersion(req, fileId, nextVersion);
    }

    /** The last statement of overlay_fs_write: insert the new version. */
    method WriteVersion(req: Request, fileId: int, nextVersion: int) returns (rc: int)
      modifies this
      ensures var r := old(At(InsertRow(FileId(fileId), nextVersion)));
              var s := RunWrite(r, req, world);
              && View() == s.db && rowid == s.rowid && tick == s.tick
              && rc == if s.pc.Wrote? then 0 else -1
      ensures tx.Some? == old(tx.Some?) && (tx.Some? ==> disk == old(disk))
    {
      hide InsertVersion;
      RunInsertRow(At(InsertRow(FileId(fileId), nextVersion)), req, world);
      var env := Call();
      if !env.outcome.Runs? {
        return -1;
      }
      var inserted := InsertVersion(View(), Key(FileId(fileId), nextVersion), NewRow(req, env.now));
      if inserted.None? {
        return -1;
      }
      Put(inserted.value);
      return 0;
    }

    // ----- the readers -----

    /** overlay_fs_read */
    method Read(path: Path) returns (rc: int, data: seq<byte>)
      modifies this`tick
      ensures rc == if world(old(tick)).outcome.Runs? && ReadById(View(), path).Some? then 0 else -1
      ensures rc == 0 ==> ReadById(View(), path) == Some(data)
    {
      var env := Call();
      if !env.outcome.Runs? {
        return -1, [];
      }
      var found := ReadById(View(), path);
      if found.None? {
        return -1, [];
      }
      return 0, found.value;
    }

    /** overlay_fs_read_file, and the readers of db.c: the first row of latest_files for the path. */
    method ReadFile(path: Path) returns (rc: int, data: seq<byte>)
      modifies this`tick
      ensures rc == if world(old(tick)).outcome.Runs? && !MayReadLatest(View(), path, None) then 0 else -1
      ensures rc == 0 ==> MayReadLatest(View(), path, Some(data))
    {
      hide MaxVersion, Files, LatestRow;
      var env := Call();
      if !env.outcome.Runs? || LatestOf(View(), path) == {} {
        return -1, [];
      }
      var f :| f in LatestOf(View(), path);
      return 0, LatestData(View().versions, f);
    }

    /** overlay_fs_exists */
    method FileExists(path: Path) returns (rc: int)
      modifies this`tick
      ensures rc == if world(old(tick)).outcome.Runs? then Exists(View(), path) else -1
    {
      var env := Call();
      if !env.outcome.Runs? {
        return -1;
      }
      return if path in View().ids then 1 else 0;
    }

    /** overlay_fs_version_count */
    method CountVersions(path: Path) returns (count: int)
      modifies this`tick
      ensures count == if world(old(tick)).outcome.Runs? then VersionCount(View(), path) else -1
    {
      var env := Call();
      if !env.outcome.Runs? {
        return -1;
      }
      return VersionCount(View(), path);
    }

    // ----- overlay_fs_migrate_assets -----

    ghost predicate Valid()
      reads this
    {
      Contiguous(disk.versions) && (tx.Some? ==> Contiguous(tx.value.versions))
    }

    /** No call fails from now on. */
    ghost predicate Reliable()
      reads this
    {
      forall t :: tick <= t ==> world(t).outcome.Runs?
    }

    /** The next n calls do not fail. */
    ghost predicate RunsFor(n: nat)
      reads this
    {
      forall t :: tick <= t < tick + n ==> world(t).outcome.Runs?
    }

    /** Of the next n calls only the first may fail, and only to step. */
    ghost predicate RunsForAfterCheck(n: nat)
      reads this
    {
      !world(tick).outcome.PrepareFails? && forall t :: tick < t < tick + n ==> world(t).outcome.Runs?
    }

    /** The calls of the loop over the entries do not fail; for a corrupt bundle, no call does. */
    ghost predicate EnoughRun(db: Db, parsed: Option<(seq<Entry>, nat)>)
      reads this
    {
      match parsed
      case None => Reliable()
      case Some((es, _)) => RunsFor(EntriesCalls(db, es))
    }

    /** ROLLBACK; its result is ignored, so a failed one leaves the transaction open. */
    method Rollback()
      modifies this`tx, this`tick
      ensures tx == (if world(old(tick)).outcome.Runs? then None else old(tx)) && tick == old(tick) + 1
    {
      var env := Call();
      if env.outcome.Runs? {
        tx := None;
      }
    }

    /** One iteration of the loop over the entries. */
    method ProcessEntry(buf: seq<byte>, start: nat) returns (status: Status, ptr: nat, ghost now: int)
      requires start <= |buf| && tx.Some? && Valid()
      modifies this
      ensures Valid() && disk == old(disk) && tick >= old(tick)
      ensures status in {MigrateOk, Corrupt, DbError}
      ensures status.MigrateOk? ==>
                && world(old(tick)).outcome.Runs? && ParseEntry(buf, start).Some? && ParseEntry(buf, start).value.1 == ptr
                && tx.Some? && tx == Append(old(tx).value, RequestOf(ParseEntry(buf, start).value.0), now)
      ensures status.Corrupt? <==> ParseEntry(buf, start).None?
      ensures tx.Some? ==> tx.value.migrations == old(tx).value.migrations
      ensures status.Corrupt? && world(old(tick)).outcome.Runs? ==> tx.None?
      ensures ParseEntry(buf, start).Some? && Consistent(old(tx).value) &&
              old(RunsFor(EntryCalls(tx.value, ParseEntry(buf, start).value.0))) ==>
                && status.MigrateOk? && Consistent(tx.value)
                && tick == old(tick) + EntryCalls(old(tx).value, ParseEntry(buf, start).value.0)
    {
      hide ReadU32, Append, Contiguous, Consistent, CString, EntryCalls;
      now := 0;
      ptr := start;
      if ptr + 4 > |buf| {
        Rollback();
        return Corrupt, ptr, now;
      }
      var nameLen := ReadU32(buf[ptr..ptr + 4]);
      ptr := ptr + 4;
      if ptr + nameLen > |buf| {
        Rollback();
        return Corrupt, ptr, now;
      }
      var name := buf[ptr..ptr + nameLen];
      ptr := ptr + nameLen;
      if ptr + 4 > |buf| {
        Rollback();
        return Corrupt, ptr, now;
      }
      var dataLen := ReadU32(buf[ptr..ptr + 4]);
      ptr := ptr + 4;
      if ptr + dataLen > |buf| {
        Rollback();
        return Corrupt, ptr, now;
      }
      var data := buf[ptr..ptr + dataLen];
      ptr := ptr + dataLen;
      status, now := ApplyEntry(Entry(name, data));
    }

    /** The rest of an iteration: allocate the name string and write the file. */
    method ApplyEntry(e: Entry) returns (status: Status, ghost now: int)
      requires tx.Some? && Valid()
      modifies this
      ensures Valid() && disk == old(disk) && tick >= old(tick)
      ensures status in {MigrateOk, DbError}
      ensures status.MigrateOk? ==>
                world(old(tick)).outcome.Runs? && tx.Some? && tx == Append(old(tx).value, RequestOf(e), now)
      ensures tx.Some? ==> tx.value.migrations == old(tx).value.migrations
      ensures Consistent(old(tx).value) && old(RunsFor(EntryCalls(tx.value, e))) ==>
                status.MigrateOk? && Consistent(tx.value) && tick == old(tick) + EntryCalls(old(tx).value, e)
    {
      hide Append, Contiguous, Consistent, CString, WriteRun;
      now := 0;
      ghost var before := tx.value;
      var memory := Call();
      if !memory.outcome.Runs? {
        Rollback();
        return DbError, now;
      }
      ghost var req, from := RequestOf(e), At(Lookup);
      var rc := Write(CString(e.name), e.data);
      WriteOutcome(before, from.rowid, from.tick, req, world);
      now := world(tick - 1).now;
      if rc < 0 {
        Rollback();
        return DbError, now;
      }
      return MigrateOk, now;
    }

    /** The loop over the entries, from the cursor after num_entries. */
    method ProcessEntries(buf: seq<byte>, num: nat) returns (status: Status, migrated: nat)
      requires 4 <= |buf| && tx.Some? && Valid()
      modifies this
      ensures Valid() && disk == old(disk) && tick >= old(tick)
      ensures status in {MigrateOk, Corrupt, DbError}
      ensures status.MigrateOk? ==>
                && migrated == num && tx.Some? && ParseEntries(buf, 4, num).Some?
                && AppliedEntries(old(tx).value, tx.value, ParseEntries(buf, 4, num).value.0)
      ensures status.Corrupt? ==> ParseEntries(buf, 4, num).None?
      ensures tx.Some? ==> tx.value.migrations == old(tx).value.migrations
      ensures Consistent(old(tx).value) && old(EnoughRun(tx.value, ParseEntries(buf, 4, num))) ==>
                match ParseEntries(buf, 4, num)
                case None => status.Corrupt? && tx.None?
                case Some((es, _)) =>
                  status.MigrateOk? && Consistent(tx.value) && tick == old(tick) + EntriesCalls(old(tx).value, es)
    {
      hide ParseEntry, ParseEntries, ApplyAll, Append, Valid, Consistent, EntryCalls, EntriesCalls, RequestOf;
      ghost var begun := tx.value;
      ghost var entries: seq<Entry>, times: seq<int> := [], [];
      ghost var smooth := Consistent(begun) && EnoughRun(begun, ParseEntries(buf, 4, num));
      NoCallsYet(begun);
      NothingApplied(begun);
      ResumeNothing(ParseEntries(buf, 4, num));
      var ptr := 4;
      var i := 0;
      migrated := 0;
      while i < num
        invariant 0 <= i <= num && migrated == i && 4 <= ptr <= |buf| && tick >= old(tick)
        invariant tx.Some? && Valid() && disk == old(disk)
        invariant tx.value.migrations == begun.migrations
        invariant |entries| == |times| && ApplyAll(begun, entries, times) == Some(tx.value)
        invariant ParseEntries(buf, 4, num) == Resume(entries, ParseEntries(buf, ptr, num - i))
        invariant smooth ==> Consistent(tx.value) && tick == old(tick) + EntriesCalls(begun, entries)
      {
        ghost var from := ptr;
        ghost var now: int;
        ResumeParsing(buf, from, num - i, entries);
        if ParseEntry(buf, from).Some? {
          EnoughCalls(begun, buf, from, num - i, entries, times);
        }
        status, ptr, now := ProcessEntry(buf, ptr);
        if status != MigrateOk {
          return;
        }
        ghost var e := ParseEntry(buf, from).value.0;
        ApplyAllSnoc(begun, entries, times, e, now);
        entries, times := entries + [e], times + [now];
        migrated := migrated + 1;
        i := i + 1;
      }
      NothingLeft(buf, ptr, entries);
      status := MigrateOk;
    }

    /** Record the migration and commit it; a failed COMMIT leaves the transaction open. `commit` is its call, if made. */
    method RecordAndCommit(id: string, migrated: nat) returns (status: Status, ghost commit: Option<nat>)
      requires tx.Some? && Valid()
      modifies this
      ensures Valid() && tick >= old(tick)
      ensures status in {MigrateOk, DbError}
      ensures status.MigrateOk? ==> tx.None? && Record(old(tx).value, id, migrated) == Some(disk)
      ensures status.DbError? ==> disk == old(disk)
      ensures commit.Some? <==> world(old(tick)).outcome.Runs? && id !in old(tx).value.migrations
      ensures commit.Some? ==>
                && commit.value == old(tick) + 1 == tick - 1
                && if world(commit.value).outcome.Runs? then status.MigrateOk?
                   else status.DbError? && tx == Record(old(tx).value, id, migrated)
      ensures commit.None? ==> status.DbError? && (tx.None? || tx == old(tx))
    {
      hide Contiguous;
      commit := None;
      var env := Call();
      if !env.outcome.Runs? || id in tx.value.migrations {
        Rollback();
        return DbError, commit;
      }
      tx := Record(tx.value, id, migrated);
      rowid := |tx.value.migrations|;
      commit := Some(tick);
      env := Call();
      if !env.outcome.Runs? {
        return DbError, commit;
      }
      disk, tx := tx.value, None;
      return MigrateOk, commit;
    }

    /** overlay_fs_migrate_assets; `commit` is the number of its COMMIT, if it makes that call. */
    method MigrateAssets(z: Zlib, blob: seq<byte>) returns (status: Status, ghost commit: Option<nat>)
      requires Valid() && 8 * |blob| < TWO_TO_THE_64
      modifies this
      ensures Valid() && tick >= old(tick)
      // All or nothing: streaming is the two-phase reference, whatever fails.
      ensures status.MigrateOk? ==>
                && old(tx).None? && tx.None? && Decompress(z, blob).Some?
                && Applied(old(disk), disk, IdOf(blob), Decompress(z, blob).value)
      ensures !status.MigrateOk? ==> disk == old(disk)
      ensures status.MigrateOk? ==> world(old(tick) + 1).outcome.Runs? && world(old(tick) + 2).outcome.Runs?
      // What each status reports.
      ensures |blob| == 0 ==> status.DbError? && commit.None?
      ensures status.AlreadyApplied? <==>
                |blob| > 0 && world(old(tick)).outcome.Runs? && IdOf(blob) in old(View()).migrations
      ensures status.AlreadyApplied? ==> tx == old(tx)
      ensures status.DecompressError? ==> Decompress(z, blob).None? || !world(old(tick) + 1).outcome.Runs?
      ensures status.Corrupt? ==> Decompress(z, blob).Some? && Parse(Decompress(z, blob).value).None?
      // COMMIT makes the difference: it alone completes a migration, and it alone leaves one open and recorded.
      ensures commit.Some? ==> commit.value == tick - 1 && tick > old(tick)
      ensures status.MigrateOk? <==> commit.Some? && world(commit.value).outcome.Runs?
      ensures old(tx).None? ==>
                ((tx.Some? && IdOf(blob) in tx.value.migrations && IdOf(blob) !in disk.migrations)
                 <==> commit.Some? && !world(commit.value).outcome.Runs?)
      // Without failing calls the status and the final state are determined.
      ensures old(Reliable()) && old(tx).None? && Consistent(old(disk)) ==>
                status == Verdict(z, old(disk), blob) && tx.None? && Consistent(disk)
      // If the calls before COMMIT run, but for a check that may fail to step, COMMIT decides; if it fails, the
      // transaction stays open with the bundle in it.
      ensures old(tx).None? && Consistent(old(disk)) && Verdict(z, old(disk), blob).MigrateOk? &&
              old(RunsForAfterCheck(CallsBeforeCommit(z, disk, blob))) ==>
                && tick == old(tick) + CallsBeforeCommit(z, old(disk), blob) + 1
                && CommitDecides(old(disk), IdOf(blob), Decompress(z, blob).value, status, disk, tx, world(tick - 1))
    {
      hide ParseEntries, ApplyAll, Append, Contiguous, Consistent, ReadU32, IdOf, EntriesCalls, Applied;
      commit := None;
      if |blob| == 0 {
        return DbError, commit;
      }
      var id := ComputeBundleId(blob);

      // Check if already applied; only a row found stops the migration.
      var env := Call();
      if env.outcome.PrepareFails? {
        return DbError, commit;
      }
      if env.outcome.Runs? && id in View().migrations {
        return AlreadyApplied, commit;
      }

      // Decompress
      env := Call();
      if !env.outcome.Runs? {
        return DecompressError, commit;
      }
      var decompressed := Decompress(z, blob);
      if decompressed.None? {
        return DecompressError, commit;
      }
      var buf := decompressed.value;
      if 4 > |buf| {
        return Corrupt, commit;
      }
      status, commit := MigrateParsed(buf, id);
    }

    /** From the entry count to the end of the transaction. */
    method MigrateParsed(buf: seq<byte>, id: string) returns (status: Status, ghost commit: Option<nat>)
      requires Valid() && 4 <= |buf|
      modifies this
      ensures Valid() && tick >= old(tick)
      ensures status in {MigrateOk, Corrupt, DbError}
      ensures status.MigrateOk? ==> world(old(tick)).outcome.Runs?
      ensures status.MigrateOk? ==> old(tx).None? && tx.None? && Applied(old(disk), disk, id, buf)
      ensures !status.MigrateOk? ==> disk == old(disk)
      ensures status.Corrupt? ==> Parse(buf).None?
      ensures commit.Some? ==> commit.value == tick - 1 && tick > old(tick)
      ensures status.MigrateOk? <==> commit.Some? && world(commit.value).outcome.Runs?
      ensures old(tx).None? ==>
                ((tx.Some? && id in tx.value.migrations && id !in disk.migrations)
                 <==> commit.Some? && !world(commit.value).outcome.Runs?)
      ensures old(Reliable()) && old(tx).None? && Consistent(old(disk)) && id !in old(disk).migrations ==>
                status == (if Parse(buf).None? then Corrupt else MigrateOk) && tx.None? && Consistent(disk)
      ensures old(tx).None? && Consistent(old(disk)) && id !in old(disk).migrations && Parse(buf).Some? &&
              old(RunsFor(2 + EntriesCalls(disk, Parse(buf).value.0))) ==>
                && tick == old(tick) + 3 + EntriesCalls(old(disk), Parse(buf).value.0)
                && CommitDecides(old(disk), id, buf, status, disk, tx, world(tick - 1))
    {
      hide ParseEntries, ApplyAll, Append, Contiguous, Consistent, ReadU32, EntriesCalls;
      commit := None;
      var num := ReadU32(buf[..4]);
      // BEGIN IMMEDIATE fails inside a transaction.
      var env := Call();
      if !env.outcome.Runs? || tx.Some? {
        return DbError, commit;
      }
      ghost var begun := disk;
      tx := Some(disk);
      var migrated: nat;
      status, migrated := ProcessEntries(buf, num);
      if status != MigrateOk {
        return;
      }
      ghost var applied := tx.value;
      var es := ParseEntries(buf, 4, num).value.0;
      AppliedEntriesKeepMigrations(begun, applied, es);
      status, commit := RecordAndCommit(id, migrated);
      if id !in applied.migrations {
        TwoPhaseFromStream(begun, applied, Record(applied, id, migrated).value, id, buf);
        RecordKeepsConsistent(applied, id, migrated);
      }
    }
  }

  /** What a call that meets no failure answers. */
  function Verdict(z: Zlib, db: Db, blob: seq<byte>): Status
    requires 8 * |blob| < TWO_TO_THE_64
  {
    if |blob| == 0 then DbError
    else if IdOf(blob) in db.migrations then AlreadyApplied
    else
      match Decompress(z, blob)
      case None => DecompressError
      case Some(buf) => if Parse(buf).None? then Corrupt else MigrateOk
  }

  /** Each answer in terms of the store, the decompressor and the format: corrupt means that no packing is a prefix. */
  lemma VerdictMeans(z: Zlib, db: Db, blob: seq<byte>)
    requires 8 * |blob| < TWO_TO_THE_64
    ensures var v, known, out := Verdict(z, db, blob), IdOf(blob) in db.migrations, z.uncompress(blob, 10 * |blob|);
            && (v.DbError? <==> blob == [])
            && (v.AlreadyApplied? <==> blob != [] && known)
            && (v.DecompressError? <==> blob != [] && !known && out.None?)
            && (v.Corrupt? <==> blob != [] && !known && out.Some? && forall es :: AllFit(es) ==> !(Encode(es) <= out.value))
            && (v.MigrateOk? <==> blob != [] && !known && out.Some? && exists es :: AllFit(es) && Encode(es) <= out.value)
  {
    hide IdOf, Parse, Encode;
    if Decompress(z, blob).Some? {
      CorruptIff(Decompress(z, blob).value);
    }
  }

  /** The number of calls a migration makes before COMMIT if none of them fails. */
  function CallsBeforeCommit(z: Zlib, db: Db, blob: seq<byte>): nat
    requires 8 * |blob| < TWO_TO_THE_64 && Verdict(z, db, blob).MigrateOk?
  {
    4 + EntriesCalls(db, Parse(Decompress(z, blob).value).value.0)
  }

  /** How a migration of a new bundle ends that has reached COMMIT. */
  ghost predicate CommitDecides(before: Db, id: string, buf: seq<byte>, status: Status, disk: Db, tx: Option<Db>, commit: Env)
  {
    if commit.outcome.Runs? then status.MigrateOk? && tx.None? && Applied(before, disk, id, buf)
    else status.DbError? && disk == before && tx.Some? && Applied(before, tx.value, id, buf)
  }

  /** The result of a parse whose first entries are already known. */
  function Resume(done: seq<Entry>, rest: Option<(seq<Entry>, nat)>): Option<(seq<Entry>, nat)>
  {
    match rest
    case None => None
    case Some((es, end)) => Some((done + es, end))
  }

  lemma ResumeNothing(rest: Option<(seq<Entry>, nat)>)
    ensures Resume([], rest) == rest
  {
    if rest.Some? {
      assert [] + rest.value.0 == rest.value.0;
    }
  }

  lemma ResumeParsing(buf: seq<byte>, pos: nat, n: nat, done: seq<Entry>)
    requires pos <= |buf| && n > 0
    ensures Resume(done, ParseEntries(buf, pos, n)) ==
            match ParseEntry(buf, pos)
            case None => None
            case Some((e, next)) => Resume(done + [e], ParseEntries(buf, next, n - 1))
  {
    hide ParseEntry;
    if ParseEntry(buf, pos).Some? {
      var (e, next) := ParseEntry(buf, pos).value;
      if ParseEntries(buf, next, n - 1).Some? {
        var es := ParseEntries(buf, next, n - 1).value.0;
        assert done + ([e] + es) == done + [e] + es;
      }
    }
  }

  lemma NothingLeft(buf: seq<byte>, ptr: nat, entries: seq<Entry>)
    requires ptr <= |buf|
    ensures Resume(entries, ParseEntries(buf, ptr, 0)) == Some((entries, ptr))
  {
    assert entries + [] == entries;
  }

  ghost predicate AppliedEntries(before: Db, after: Db, es: seq<Entry>)
  {
    exists times :: |times| == |es| && ApplyAll(before, es, times) == Some(after)
  }

  lemma NoCallsYet(db: Db)
    ensures EntriesCalls(db, []) == 0
  {}

  /** The calls for the entries done and for the next one are among those for the whole bundle. */
  lemma EnoughCalls(db: Db, buf: seq<byte>, pos: nat, n: nat, done: seq<Entry>, times: seq<int>)
    requires pos <= |buf| && n > 0 && ParseEntry(buf, pos).Some?
    requires |done| == |times| && ApplyAll(db, done, times).Some?
    ensures var (e, next) := ParseEntry(buf, pos).value;
            && EntriesCalls(db, done + [e]) == EntriesCalls(db, done) + EntryCalls(ApplyAll(db, done, times).value, e)
            && var all := Resume(done + [e], ParseEntries(buf, next, n - 1));
               all.Some? ==> EntriesCalls(db, done + [e]) <= EntriesCalls(db, all.value.0)
  {
    hide ParseEntry, ParseEntries, ApplyAll, EntriesCalls, EntryCalls;
    var (e, next) := ParseEntry(buf, pos).value;
    CallsForNext(db, done, times, e);
    if ParseEntries(buf, next, n - 1).Some? {
      CallsGrow(db, done + [e], ParseEntries(buf, next, n - 1).value.0);
    }
  }

  lemma NothingApplied(db: Db)
    ensures ApplyAll(db, [], []) == Some(db)
  {}

  lemma AppliedEntriesKeepMigrations(db: Db, after: Db, es: seq<Entry>)
    requires AppliedEntries(db, after, es)
    ensures after.migrations == db.migrations
  {
    hide ApplyAll;
    var times :| |times| == |es| && ApplyAll(db, es, times) == Some(after);
    ApplyAllAddsRows(db, es, times);
  }

  lemma TwoPhaseFromStream(begun: Db, applied: Db, after: Db, id: string, buf: seq<byte>)
    requires Parse(buf).Some? && AppliedEntries(begun, applied, Parse(buf).value.0)
    requires Record(applied, id, |Parse(buf).value.0|) == Some(after)
    ensures Applied(begun, after, id, buf)
  {
    hide ApplyAll, Parse;
    var es := Parse(buf).value.0;
    var times :| |times| == |es| && ApplyAll(begun, es, times) == Some(applied);
    assert TwoPhase(begun, id, buf, times) == Some(after);
  }

  lemma RecordKeepsConsistent(db: Db, id: string, n: nat)
    requires Record(db, id, n).Some?
    ensures Consistent(db) ==> Consistent(Record(db, id, n).value)
    ensures Contiguous(db.versions) ==> Contiguous(Record(db, id, n).value.versions)
  {
    hide Contiguous, LatestView;
  }

  /** What the migration loop needs to know about one write. */
  lemma WriteOutcome(db: Db, rowid: int, tick: nat, req: Request, world: World)
    requires Contiguous(db.versions)
    ensures var s := WriteRun(db, rowid, tick, req, world);
            && (s.pc.Wrote? ==> s.tick > 0 && Append(db, req, world(s.tick - 1).now) == Some(s.db))
            && Contiguous(s.db.versions) && s.db.migrations == db.migrations
            && (Consistent(db) && (forall t :: tick <= t < tick + WriteCalls(db, req.path) ==> world(t).outcome.Runs?) ==>
                  s.pc.Wrote? && Consistent(s.db) && s.tick == tick + WriteCalls(db, req.path))
  {
    hide Contiguous, Linked, CacheOk, WriteRun, Append;
    var s := WriteRun(db, rowid, tick, req, world);
    WriteAppendsOrFails(db, rowid, tick, req, world);
    if s.pc.Wrote? {
      AppendKeepsContiguous(db, req, world(s.tick - 1).now);
      AppendAddsOneRow(db, req, world(s.tick - 1).now);
    }
    if Consistent(db) && forall t :: tick <= t < tick + WriteCalls(db, req.path) ==> world(t).outcome.Runs? {
      WriteSucceeds(db, rowid, tick, req, world);
      AppendDoesItsJob(db, req, world(s.tick - 1).now);
    }
  }
}
