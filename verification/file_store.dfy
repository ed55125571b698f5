/** overlay_fs_write as a sequence of atomic SQL statements, each of which may fail, and the readers. */
module FileStore {
  import opened Bytes
  import opened Tables

  // ----- consistency of a store -----

  /** Every file's version numbers are 1..n (see VersionsAreOneToN). */
  predicate Contiguous(vs: Versions)
  {
    forall k :: k in vs ==> k.version >= 1 && (k.version > 1 ==> Key(k.file, k.version - 1) in vs)
  }

  /** Ids are issued once, and every version row carries the path of its id. */
  predicate Linked(db: Db)
  {
    && (forall p :: p in db.ids ==> 1 <= db.ids[p].n <= db.seqNo)
    && (forall p, q :: p in db.ids && q in db.ids && db.ids[p] == db.ids[q] ==> p == q)
    && (forall k :: k in db.versions ==> db.versions[k].path in db.ids && db.ids[db.versions[k].path] == k.file)
  }

  predicate Consistent(db: Db) { Contiguous(db.versions) && Linked(db) && CacheOk(db) }

  function KeysOf(vs: Versions, f: FileId): set<Key>
  {
    set k | k in vs && k.file == f
  }

  function KeysUpTo(f: FileId, n: nat): (s: set<Key>)
    ensures |s| == n
    ensures forall k :: k in s <==> k.file == f && 1 <= k.version <= n
  {
    if n == 0 then {} else KeysUpTo(f, n - 1) + {Key(f, n)}
  }

  lemma {:induction false} BelowIsPresent(vs: Versions, f: FileId, n: int, v: int)
    requires Contiguous(vs) && Key(f, n) in vs && 1 <= v <= n
    ensures Key(f, v) in vs
    decreases n - v
  {
    if v < n {
      BelowIsPresent(vs, f, n, v + 1);
    }
  }

  /** Contiguity is what it says: the stored versions of a file are exactly 1..n, n of them, n the maximum. */
  lemma VersionsAreOneToN(vs: Versions, f: FileId)
    requires Contiguous(vs) && f in Files(vs)
    ensures var n := MaxVersion(vs, f);
            n >= 1 && |KeysOf(vs, f)| == n && forall v :: Key(f, v) in vs <==> 1 <= v <= n
  {
    hide Files, MaxVersion;
    var n := MaxVersion(vs, f);
    forall v | 1 <= v <= n
      ensures Key(f, v) in vs
    {
      BelowIsPresent(vs, f, n, v);
    }
    assert KeysOf(vs, f) == KeysUpTo(f, n);
  }

  // ----- the readers -----

  /** The query of overlay_fs_read: path -> file_id -> highest version. */
  function ReadById(db: Db, p: Path): Option<seq<byte>>
  {
    if p in db.ids && db.ids[p] in Files(db.versions)
    then Some(db.versions[Key(db.ids[p], MaxVersion(db.versions, db.ids[p]))].data)
    else None
  }

  /** The rows of `SELECT data FROM latest_files WHERE path = ?`, by file_id. */
  function LatestOf(db: Db, p: Path): set<FileId>
  {
    set f | f in Files(db.versions) && LatestRow(db.versions, f).path == p
  }

  function LatestData(vs: Versions, f: FileId): seq<byte>
    requires f in Files(vs)
  {
    vs[Key(f, MaxVersion(vs, f))].data
  }

  /** The first row of that query, in whatever order the engine produces its rows. */
  ghost predicate MayReadLatest(db: Db, p: Path, r: Option<seq<byte>>)
  {
    match r
    case None => LatestOf(db, p) == {}
    case Some(d) => exists f :: f in LatestOf(db, p) && LatestData(db.versions, f) == d
  }

  /** The answer of overlay_fs_exists. */
  function Exists(db: Db, p: Path): int { if p in db.ids then 1 else 0 }

  /** The answer of overlay_fs_version_count. */
  function VersionCount(db: Db, p: Path): nat
  {
    if p in db.ids then |KeysOf(db.versions, db.ids[p])| else 0
  }

  /** 1 and 0 are the only answers, by whether the path has an id. */
  lemma ExistsIff(db: Db, p: Path)
    ensures Exists(db, p) == 1 <==> p in db.ids
    ensures Exists(db, p) == 0 <==> p !in db.ids
  {}

  lemma EmptyIsConsistent()
    ensures Consistent(EMPTY)
  {
    SameMap(EMPTY.meta, LatestView(EMPTY.versions));
  }

  lemma LatestOfLinked(db: Db, p: Path, f: FileId)
    requires Linked(db)
    ensures f in LatestOf(db, p) <==> p in db.ids && f == db.ids[p] && f in Files(db.versions)
  {
    if f in Files(db.versions) {
      assert Key(f, MaxVersion(db.versions, f)) in db.versions;
    }
  }

  /** In a linked store the two read routes agree, and latest_files has at most one row per path. */
  lemma RoutesAgree(db: Db, p: Path)
    requires Linked(db)
    ensures forall r :: MayReadLatest(db, p, r) <==> r == ReadById(db, p)
    ensures forall f, g :: f in LatestOf(db, p) && g in LatestOf(db, p) ==> f == g
  {
    hide LatestOf, Files, MaxVersion, Linked;
    forall f
      ensures f in LatestOf(db, p) <==> p in db.ids && f == db.ids[p] && f in Files(db.versions)
    {
      LatestOfLinked(db, p, f);
    }
    if ReadById(db, p).Some? {
      assert db.ids[p] in LatestOf(db, p);
    }
  }

  // ----- overlay_fs_write, statement by statement -----

  /** What one call of the SQLite interface does: it runs, or fails to prepare, or fails to step. */
  datatype Outcome = Runs | PrepareFails | StepFails

  /** The environment of one call: its outcome and the clock. */
  datatype Env = Env(outcome: Outcome, now: int)

  datatype Request = Request(path: Path, data: seq<byte>)

  /** Where a call of overlay_fs_write stands: about to run a statement, or returned. */
  datatype Pc =
    | Lookup
    | CreateId
    | ReadRowid
    | ReadMax(file: FileId)
    | InsertRow(file: FileId, version: int)
    | Wrote(key: Key)      // returned 0
    | Failed               // returned -1

  predicate Returned(pc: Pc) { pc.Wrote? || pc.Failed? }

  /** SELECT MAX(version_number): NULL reads as 0. */
  function MaxOrZero(vs: Versions, f: FileId): int
  {
    if f in Files(vs) then MaxVersion(vs, f) else 0
  }

  function NewId(db: Db, p: Path): Db
  {
    db.(ids := db.ids[p := FileId(db.seqNo + 1)], seqNo := db.seqNo + 1)
  }

  function NewRow(req: Request, now: int): Row { Row(req.path, now, |req.data|, req.data) }

  /** One statement of overlay_fs_write. `rowid` is what sqlite3_last_insert_rowid would return now. */
  function Step(db: Db, pc: Pc, req: Request, env: Env, rowid: int): (Db, Pc)
  {
    match pc
    case Lookup =>
      if env.outcome.PrepareFails? then (db, Failed)
      // a failing step is not told from an empty result
      else if env.outcome.Runs? && req.path in db.ids && db.ids[req.path].n >= 0
      then (db, ReadMax(db.ids[req.path]))
      else (db, CreateId)
    case CreateId =>
      if !env.outcome.Runs? || req.path in db.ids then (db, Failed)
      else (NewId(db, req.path), ReadRowid)
    case ReadRowid => (db, InsertRow(FileId(rowid), 1))
    case ReadMax(f) =>
      if env.outcome.PrepareFails? then (db, Failed)
      // a failing step leaves next_version at its initial value
      else (db, InsertRow(f, if env.outcome.Runs? then MaxOrZero(db.versions, f) + 1 else 1))
    case InsertRow(f, v) =>
      if !env.outcome.Runs? then (db, Failed)
      else
        (match InsertVersion(db, Key(f, v), NewRow(req, env.now))
         case None => (db, Failed)
         case Some(after) => (after, Wrote(Key(f, v))))
    case _ => (db, pc)
  }

  // ----- one call, run to its end on one connection -----

  type World = nat -> Env

  datatype Run = Run(db: Db, rowid: int, tick: nat, pc: Pc)

  function StepsLeft(pc: Pc): nat
  {
    match pc
    case Lookup => 4
    case CreateId => 3
    case ReadRowid => 2
    case ReadMax(_) => 2
    case InsertRow(_, _) => 1
    case _ => 0
  }

  /** last_insert_rowid of the connection after a statement: only creating an id changes it. */
  function RowidAfter(pc: Pc, after: (Db, Pc), rowid: int): int
  {
    if pc.CreateId? && after.1.ReadRowid? then after.0.seqNo else rowid
  }

  /** One statement of a call. Calls of the SQLite interface are numbered; world gives the environment of each. */
  function Next(r: Run, req: Request, world: World): (s: Run)
    ensures !Returned(r.pc) ==> StepsLeft(s.pc) < StepsLeft(r.pc)
  {
    var after := Step(r.db, r.pc, req, world(r.tick), r.rowid);
    Run(after.0, RowidAfter(r.pc, after, r.rowid), r.tick + 1, after.1)
  }

  function RunWrite(r: Run, req: Request, world: World): (s: Run)
    ensures Returned(s.pc) && s.tick >= r.tick && (!Returned(r.pc) ==> s.tick > r.tick)
    decreases StepsLeft(r.pc)
  {
    if Returned(r.pc) then r else RunWrite(Next(r, req, world), req, world)
  }

  lemma Unroll(r: Run, req: Request, world: World)
    ensures RunWrite(r, req, world) == if Returned(r.pc) then r else RunWrite(Next(r, req, world), req, world)
  {}

  function WriteRun(db: Db, rowid: int, tick: nat, req: Request, world: World): (s: Run)
    ensures Returned(s.pc) && s.tick > tick
  {
    RunWrite(Run(db, rowid, tick, Lookup), req, world)
  }

  /** The effect the header promises: a new version, numbered one above the last, on a new id if need be. */
  function Append(db: Db, req: Request, now: int): Option<Db>
  {
    if req.path in db.ids
    then InsertVersion(db, Key(db.ids[req.path], MaxOrZero(db.versions, db.ids[req.path]) + 1), NewRow(req, now))
    else InsertVersion(NewId(db, req.path), Key(FileId(db.seqNo + 1), 1), NewRow(req, now))
  }

  /** A contiguous file has version 1 or nothing. */
  lemma OneOrNothing(vs: Versions, f: FileId)
    requires Contiguous(vs)
    ensures f in Files(vs) <==> Key(f, 1) in vs
  {
    hide MaxVersion;
    if f in Files(vs) {
      VersionsAreOneToN(vs, f);
    }
    assert Key(f, 1).file == f;
  }

  /** The last statement of a write. */
  lemma RunInsertRow(r: Run, req: Request, world: World)
    requires r.pc.InsertRow?
    ensures var after := Step(r.db, r.pc, req, world(r.tick), r.rowid);
            RunWrite(r, req, world) == Run(after.0, r.rowid, r.tick + 1, after.1)
  {
    hide InsertVersion;
    var after := Step(r.db, r.pc, req, world(r.tick), r.rowid);
    var s := Run(after.0, r.rowid, r.tick + 1, after.1);
    assert RunWrite(s, req, world) == s;
  }

  /** One append, stamped with a clock reading, or nothing but at most one new id without versions. */
  ghost predicate AppendedOrFailed(db: Db, req: Request, world: World, s: Run)
  {
    match s.pc
    case Wrote(_) => s.tick > 0 && Append(db, req, world(s.tick - 1).now) == Some(s.db)
    case Failed => s.db == db || (req.path !in db.ids && s.db == NewId(db, req.path))
    case _ => false
  }

  lemma CreatePath(db: Db, rowid: int, tick: nat, req: Request, world: World)
    ensures AppendedOrFailed(db, req, world, RunWrite(Run(db, rowid, tick, CreateId), req, world))
  {
    hide InsertVersion, Files;
    var r := Run(db, rowid, tick, CreateId);
    var a := Step(db, CreateId, req, world(tick), rowid);
    if a.1.ReadRowid? {
      var r1 := Run(a.0, a.0.seqNo, tick + 1, ReadRowid);
      var r2 := Run(a.0, a.0.seqNo, tick + 2, InsertRow(FileId(a.0.seqNo), 1));
      RunInsertRow(r2, req, world);
      assert RunWrite(r, req, world) == RunWrite(r1, req, world) == RunWrite(r2, req, world);
    }
  }

  lemma AppendToPath(db: Db, rowid: int, tick: nat, req: Request, world: World)
    requires Contiguous(db.versions) && req.path in db.ids
    ensures AppendedOrFailed(db, req, world, RunWrite(Run(db, rowid, tick, ReadMax(db.ids[req.path])), req, world))
  {
    hide InsertVersion, Files, MaxVersion, Contiguous;
    var f := db.ids[req.path];
    var r := Run(db, rowid, tick, ReadMax(f));
    var a := Step(db, r.pc, req, world(tick), rowid);
    if a.1.InsertRow? {
      var r1 := Run(db, rowid, tick + 1, a.1);
      RunInsertRow(r1, req, world);
      OneOrNothing(db.versions, f);
      RejectedIfPresent(db, Key(f, 1), NewRow(req, world(tick + 1).now));
      assert RunWrite(r, req, world) == RunWrite(r1, req, world);
    }
  }

  lemma RejectedIfPresent(db: Db, k: Key, row: Row)
    ensures InsertVersion(db, k, row).None? <==> k in db.versions
  {}

  /**
   * Whatever fails: a write that returns 0 did exactly one append, and a write that returns -1 left every
   * table alone except for at most one new id without versions.
   */
  lemma WriteAppendsOrFails(db: Db, rowid: int, tick: nat, req: Request, world: World)
    requires Contiguous(db.versions)
    ensures AppendedOrFailed(db, req, world, WriteRun(db, rowid, tick, req, world))
  {
    hide AppendedOrFailed, Contiguous, Files;
    var r := Run(db, rowid, tick, Lookup);
    var a := Step(db, Lookup, req, world(tick), rowid);
    assert WriteRun(db, rowid, tick, req, world) == RunWrite(Run(db, rowid, tick + 1, a.1), req, world);
    if a.1.CreateId? {
      CreatePath(db, rowid, tick + 1, req, world);
    } else if a.1.ReadMax? {
      AppendToPath(db, rowid, tick + 1, req, world);
    } else {
      FailedAtOnce(db, req, world, Run(db, rowid, tick + 1, Failed));
    }
  }

  lemma FailedAtOnce(db: Db, req: Request, world: World, s: Run)
    requires s.db == db && s.pc == Failed
    ensures AppendedOrFailed(db, req, world, s)
  {}

  /** How many calls of the SQLite interface a write makes that succeeds. */
  function WriteCalls(db: Db, p: Path): nat { if p in db.ids then 3 else 4 }

  /** If its calls do not fail, a write into a consistent store always succeeds. */
  lemma WriteSucceeds(db: Db, rowid: int, tick: nat, req: Request, world: World)
    requires Contiguous(db.versions) && Linked(db)
    requires forall t :: tick <= t < tick + WriteCalls(db, req.path) ==> world(t).outcome.Runs?
    ensures var s := WriteRun(db, rowid, tick, req, world);
            s.pc.Wrote? && s.tick == tick + WriteCalls(db, req.path)
  {
    hide MaxVersion, Files, InsertVersion, Linked, Contiguous, RunWrite;
    var r := Run(db, rowid, tick, Lookup);
    Unroll(r, req, world);
    assert world(tick).outcome.Runs?;
    if req.path in db.ids {
      IdsArePositive(db, req.path);
      AppendSucceeds(db, rowid, tick + 1, req, world);
    } else {
      CreateSucceeds(db, rowid, tick + 1, req, world);
    }
  }

  lemma AppendSucceeds(db: Db, rowid: int, tick: nat, req: Request, world: World)
    requires Contiguous(db.versions) && req.path in db.ids
    requires world(tick).outcome.Runs? && world(tick + 1).outcome.Runs?
    ensures var s := RunWrite(Run(db, rowid, tick, ReadMax(db.ids[req.path])), req, world);
            s.pc.Wrote? && s.tick == tick + 2
  {
    hide MaxVersion, Files, InsertVersion, Contiguous, RunWrite;
    var f := db.ids[req.path];
    var r2 := Run(db, rowid, tick + 1, InsertRow(f, MaxOrZero(db.versions, f) + 1));
    Unroll(Run(db, rowid, tick, ReadMax(f)), req, world);
    MaxAfterAppend(db.versions, f, NewRow(req, 0));
    RejectedIfPresent(db, Key(f, r2.pc.version), NewRow(req, world(tick + 1).now));
    RunInsertRow(r2, req, world);
  }

  lemma IdsArePositive(db: Db, p: Path)
    requires Linked(db) && p in db.ids
    ensures db.ids[p].n >= 1
  {}

  lemma CreateSucceeds(db: Db, rowid: int, tick: nat, req: Request, world: World)
    requires Linked(db) && req.path !in db.ids
    requires forall t :: tick <= t < tick + 3 ==> world(t).outcome.Runs?
    ensures var s := RunWrite(Run(db, rowid, tick, CreateId), req, world);
            s.pc.Wrote? && s.tick == tick + 3
  {
    hide MaxVersion, InsertVersion;
    var f := FileId(db.seqNo + 1);
    var after := NewId(db, req.path);
    var r1 := Run(db, rowid, tick, CreateId);
    var r2 := Run(after, after.seqNo, tick + 1, ReadRowid);
    var r3 := Run(after, after.seqNo, tick + 2, InsertRow(f, 1));
    NoVersionsYet(db);
    assert Key(f, 1) !in db.versions;
    RejectedIfPresent(after, Key(f, 1), NewRow(req, world(tick + 2).now));
    RunInsertRow(r3, req, world);
    assert RunWrite(r1, req, world) == RunWrite(r2, req, world) == RunWrite(r3, req, world);
  }

  // ----- what an append does to a store -----

  lemma MaxAfterAppend(vs: Versions, f: FileId, row: Row)
    ensures var k := Key(f, MaxOrZero(vs, f) + 1);
            k !in vs && f in Files(vs[k := row]) && (Contiguous(vs) ==> Contiguous(vs[k := row]))
            && MaxOrZero(vs[k := row], f) == k.version
  {
    var k := Key(f, MaxOrZero(vs, f) + 1);
    assert k.file == f;
    if f in Files(vs) {
      assert Key(f, MaxVersion(vs, f)) in vs;
    }
    MaxIs(vs[k := row], f, k.version);
  }

  lemma AppendKeepsContiguous(db: Db, req: Request, now: int)
    requires Contiguous(db.versions)
    ensures Append(db, req, now).Some? ==> Contiguous(Append(db, req, now).value.versions)
  {
    hide MaxVersion, Files, MaxOrZero, Contiguous, UpsertIfNewer;
    if req.path in db.ids {
      MaxAfterAppend(db.versions, db.ids[req.path], NewRow(req, now));
    } else {
      FirstRowIsContiguous(db.versions, FileId(db.seqNo + 1), NewRow(req, now));
    }
  }

  lemma FirstRowIsContiguous(vs: Versions, f: FileId, row: Row)
    requires Contiguous(vs)
    ensures Contiguous(vs[Key(f, 1) := row])
  {}

  /** What a client can see of a path. */
  predicate SameFile(before: Db, after: Db, p: Path)
  {
    && ReadById(before, p) == ReadById(after, p)
    && VersionCount(before, p) == VersionCount(after, p)
  }

  lemma NewIdKeepsConsistent(db: Db, p: Path)
    requires Consistent(db) && p !in db.ids
    ensures Consistent(NewId(db, p))
  {
    hide Contiguous, LatestView;
  }

  lemma NewIdIsInvisible(db: Db, p: Path, q: Path)
    requires Linked(db) && p !in db.ids
    ensures SameFile(db, NewId(db, p), q)
  {
    hide MaxVersion, Files;
    NoVersionsYet(db);
    if q == p {
      NoRowsNoKeys(db.versions, FileId(db.seqNo + 1));
    }
  }

  lemma NoRowsNoKeys(vs: Versions, f: FileId)
    requires f !in Files(vs)
    ensures KeysOf(vs, f) == {}
  {}

  lemma NoVersionsYet(db: Db)
    requires Linked(db)
    ensures FileId(db.seqNo + 1) !in Files(db.versions)
  {}

  lemma SameRowsSameFile(before: Db, after: Db, q: Path)
    requires q in before.ids <==> q in after.ids
    requires q in before.ids ==> before.ids[q] == after.ids[q]
    requires q in before.ids ==> forall k: Key :: k.file == before.ids[q] ==> (k in before.versions <==> k in after.versions)
    requires forall k :: k in before.versions && k in after.versions ==> before.versions[k] == after.versions[k]
    ensures SameFile(before, after, q)
  {
    if q in before.ids {
      var f := before.ids[q];
      SameLatest(before.versions, after.versions, f);
      assert KeysOf(before.versions, f) == KeysOf(after.versions, f);
      if f in Files(before.versions) {
        MaxIs(after.versions, f, MaxVersion(before.versions, f));
      }
    }
  }

  lemma AddedRowKeepsConsistent(db: Db, req: Request, now: int)
    requires Consistent(db) && req.path in db.ids
    ensures var k := Key(db.ids[req.path], MaxOrZero(db.versions, db.ids[req.path]) + 1);
            var after := InsertVersion(db, k, NewRow(req, now));
            && after.Some? && Consistent(after.value) && k !in db.versions
            && after.value.versions == db.versions[k := NewRow(req, now)]
  {
    hide Files, MaxVersion, LatestRow, Contiguous, CacheOk, UpsertIfNewer;
    var k := Key(db.ids[req.path], MaxOrZero(db.versions, db.ids[req.path]) + 1);
    MaxAfterAppend(db.versions, k.file, NewRow(req, now));
    InsertKeepsCache(db, k, NewRow(req, now));
  }

  /** A row put at the end of one file's history: the whole effect of a successful write on a known path. */
  lemma AddedRow(db: Db, req: Request, now: int)
    requires Consistent(db) && req.path in db.ids
    ensures var f := db.ids[req.path];
            var k := Key(f, MaxOrZero(db.versions, f) + 1);
            var after := InsertVersion(db, k, NewRow(req, now));
            && after.Some? && Consistent(after.value) && k !in db.versions
            && after.value.versions == db.versions[k := NewRow(req, now)]
            && ReadById(after.value, req.path) == Some(req.data)
            && VersionCount(after.value, req.path) == VersionCount(db, req.path) + 1
  {
    hide Files, MaxVersion, Consistent, UpsertIfNewer, KeysOf;
    var f := db.ids[req.path];
    AddedRowKeepsConsistent(db, req, now);
    MaxAfterAppend(db.versions, f, NewRow(req, now));
    OneMoreKey(db.versions, Key(f, MaxOrZero(db.versions, f) + 1), NewRow(req, now));
  }

  lemma OneMoreKey(vs: Versions, k: Key, row: Row)
    requires k !in vs
    ensures |KeysOf(vs[k := row], k.file)| == |KeysOf(vs, k.file)| + 1
  {
    assert KeysOf(vs[k := row], k.file) == KeysOf(vs, k.file) + {k};
  }

  lemma OthersAfterAddedRow(db: Db, k: Key, row: Row, q: Path)
    requires Linked(db) && row.path in db.ids && k.file == db.ids[row.path] && k !in db.versions && q != row.path
    ensures SameFile(db, InsertVersion(db, k, row).value, q)
  {
    hide Files, MaxVersion;
    SameRowsSameFile(db, InsertVersion(db, k, row).value, q);
  }

  lemma SameFileTransitive(a: Db, b: Db, c: Db, q: Path)
    requires SameFile(a, b, q) && SameFile(b, c, q)
    ensures SameFile(a, c, q)
  {}

  /** The contract of a successful write, from the client's side. */
  lemma AppendDoesItsJob(db: Db, req: Request, now: int)
    requires Consistent(db)
    ensures var r := Append(db, req, now);
            && r.Some? && Consistent(r.value)
            && ReadById(r.value, req.path) == Some(req.data)
            && VersionCount(r.value, req.path) == VersionCount(db, req.path) + 1
            && (forall q :: q != req.path ==> SameFile(db, r.value, q))
            && (forall k :: k in db.versions ==> k in r.value.versions && r.value.versions[k] == db.versions[k])
            && |r.value.versions| == |db.versions| + 1
            && r.value.migrations == db.migrations
  {
    hide Files, MaxVersion, Consistent, SameFile, ReadById, VersionCount, Append, MaxOrZero, UpsertIfNewer;
    var base := if req.path in db.ids then db else NewId(db, req.path);
    PreparedForAppend(db, req.path);
    AddedRow(base, req, now);
    AppendIsInsert(db, req, now);
    var k := Key(base.ids[req.path], MaxOrZero(base.versions, base.ids[req.path]) + 1);
    SameCount(db, base, req.path);
    LinkedIfConsistent(base);
    forall q | q != req.path
      ensures SameFile(db, Append(db, req, now).value, q)
    {
      OthersAfterAddedRow(base, k, NewRow(req, now), q);
      SameFileTransitive(db, base, Append(db, req, now).value, q);
    }
  }

  lemma SameCount(a: Db, b: Db, q: Path)
    requires SameFile(a, b, q)
    ensures VersionCount(a, q) == VersionCount(b, q)
  {}

  lemma LinkedIfConsistent(db: Db)
    requires Consistent(db)
    ensures Linked(db)
  {}

  lemma PreparedForAppend(db: Db, p: Path)
    requires Consistent(db)
    ensures var base := if p in db.ids then db else NewId(db, p);
            Consistent(base) && p in base.ids && base.versions == db.versions && forall q :: SameFile(db, base, q)
  {
    hide Consistent, Linked, SameFile;
    LinkedIfConsistent(db);
    var base := if p in db.ids then db else NewId(db, p);
    if p !in db.ids {
      NewIdKeepsConsistent(db, p);
    }
    forall q
      ensures SameFile(db, base, q)
    {
      if p in db.ids {
        SameFileReflexive(db, q);
      } else {
        NewIdIsInvisible(db, p, q);
      }
    }
  }

  lemma SameFileReflexive(db: Db, q: Path)
    ensures SameFile(db, db, q)
  {}

  lemma AppendIsInsert(db: Db, req: Request, now: int)
    requires Consistent(db)
    ensures var base := if req.path in db.ids then db else NewId(db, req.path);
            var f := base.ids[req.path];
            Append(db, req, now) ==
            InsertVersion(base, Key(f, MaxOrZero(base.versions, f) + 1), NewRow(req, now))
  {
    hide InsertVersion, MaxVersion;
    NoVersionsYet(db);
  }
}
