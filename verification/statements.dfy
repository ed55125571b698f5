/** What one statement of overlay_fs_write does to a store, whichever protocol schedules it. */
module Statements {
  import opened Bytes
  import opened Tables
  import opened FileStore

  // ----- rows and ids only grow -----

  lemma StepKeepsRows(db: Db, pc: Pc, req: Request, env: Env, rowid: int)
    ensures var after := Step(db, pc, req, env, rowid);
            && Extends(db.versions, after.0.versions)
            && ((after.0.versions == db.versions && after.0.meta == db.meta)
                || (pc.InsertRow? && env.outcome.Runs? && after.1 == Wrote(Key(pc.file, pc.version))
                    && InsertVersion(db, after.1.key, NewRow(req, env.now)) == Some(after.0)))
  {
    hide MaxVersion, UpsertIfNewer;
  }

  lemma IdsGrow(db: Db, pc: Pc, req: Request, env: Env, rowid: int)
    ensures var after := Step(db, pc, req, env, rowid);
            && (forall p :: p in db.ids ==> p in after.0.ids && after.0.ids[p] == db.ids[p])
            && ((after.0.ids == db.ids && after.0.seqNo == db.seqNo) ||
                (pc.CreateId? && env.outcome.Runs? && after.1.ReadRowid? && req.path !in db.ids && after.0 == NewId(db, req.path)))
  {
    hide MaxOrZero, UpsertIfNewer;
  }

  /** Only the reading of the rowid depends on it; only creating an id leads there; a returned call stays returned. */
  lemma RowidMatters(db: Db, pc: Pc, req: Request, env: Env, rowid: int, other: int)
    ensures !pc.ReadRowid? || rowid == other ==> Step(db, pc, req, env, rowid) == Step(db, pc, req, env, other)
    ensures Step(db, pc, req, env, rowid).1.ReadRowid? ==> pc.CreateId?
    ensures Returned(pc) ==> Step(db, pc, req, env, rowid) == (db, pc)
  {
    hide MaxOrZero, InsertVersion;
  }

  // ----- version numbers -----

  /** A version about to be inserted is 1 or follows a stored one. */
  predicate Follows(vs: Versions, pc: Pc)
  {
    pc.InsertRow? ==> pc.version >= 1 && (pc.version > 1 ==> Key(pc.file, pc.version - 1) in vs)
  }

  lemma ReadMaxIsNext(vs: Versions, f: FileId)
    requires Contiguous(vs)
    ensures var v := MaxOrZero(vs, f) + 1;
            v >= 1 && (v > 1 ==> Key(f, v - 1) in vs) && Key(f, v) !in vs
  {
    hide MaxVersion;
    if f in Files(vs) {
      VersionsAreOneToN(vs, f);
    }
  }

  lemma NextVersion(vs: Versions, f: FileId, v: int)
    requires Contiguous(vs) && Key(f, v) !in vs && v >= 1 && (v > 1 ==> Key(f, v - 1) in vs)
    ensures v == MaxOrZero(vs, f) + 1
  {
    hide MaxVersion;
    if f in Files(vs) {
      VersionsAreOneToN(vs, f);
    }
  }

  lemma StepKeepsContiguous(db: Db, pc: Pc, req: Request, env: Env, rowid: int)
    requires Contiguous(db.versions) && Follows(db.versions, pc)
    ensures var after := Step(db, pc, req, env, rowid);
            && Contiguous(after.0.versions) && Follows(after.0.versions, after.1)
            && (CacheOk(db) ==> CacheOk(after.0))
  {
    hide UpsertIfNewer, LatestView;
    StepKeepsRows(db, pc, req, env, rowid);
    if pc.InsertRow? && CacheOk(db) {
      InsertKeepsCache(db, Key(pc.file, pc.version), NewRow(req, env.now));
    } else if pc.ReadMax? {
      ReadMaxIsNext(db.versions, pc.file);
    }
  }

  // ----- what clients read -----

  /** This statement completes the write. */
  predicate CompletesWrite(db: Db, pc: Pc, req: Request, env: Env, rowid: int)
  {
    !pc.Wrote? && Step(db, pc, req, env, rowid).1.Wrote?
  }

  lemma OnlyInsertCompletes(db: Db, pc: Pc, req: Request, env: Env, rowid: int)
    ensures CompletesWrite(db, pc, req, env, rowid) ==> pc.InsertRow?
    ensures pc.Wrote? ==> Step(db, pc, req, env, rowid) == (db, pc)
  {
    hide MaxOrZero, InsertVersion;
  }

  /** A row about to be inserted goes under the id of its own path. */
  predicate OnOwnId(db: Db, pc: Pc, req: Request)
  {
    pc.InsertRow? ==> req.path in db.ids && db.ids[req.path] == pc.file
  }

  /** Reading and counting p before and after one statement. */
  ghost predicate FileAfter(db: Db, pc: Pc, req: Request, env: Env, rowid: int, p: Path)
  {
    var after := Step(db, pc, req, env, rowid).0;
    if CompletesWrite(db, pc, req, env, rowid) && req.path == p then
      && ReadById(after, p) == Some(req.data)
      && VersionCount(after, p) == VersionCount(db, p) + 1
    else SameFile(db, after, p)
  }

  lemma InsertedFile(db: Db, pc: Pc, req: Request, env: Env, rowid: int, p: Path)
    requires Consistent(db) && Follows(db.versions, pc) && OnOwnId(db, pc, req)
    requires CompletesWrite(db, pc, req, env, rowid)
    ensures FileAfter(db, pc, req, env, rowid, p) && Consistent(Step(db, pc, req, env, rowid).0)
  {
    hide Linked, Contiguous, CacheOk, MaxOrZero, ReadById, VersionCount, UpsertIfNewer;
    var k := Key(pc.file, pc.version);
    NextVersion(db.versions, pc.file, pc.version);
    AddedRow(db, req, env.now);
    if p != req.path {
      OthersAfterAddedRow(db, k, NewRow(req, env.now), p);
    }
  }

  lemma UntouchedFile(db: Db, pc: Pc, req: Request, env: Env, rowid: int, p: Path)
    requires Consistent(db) && !CompletesWrite(db, pc, req, env, rowid)
    ensures FileAfter(db, pc, req, env, rowid, p) && Consistent(Step(db, pc, req, env, rowid).0)
  {
    hide Linked, Contiguous, CacheOk, MaxOrZero, ReadById, VersionCount, UpsertIfNewer, NewId;
    if pc.CreateId? && Step(db, pc, req, env, rowid).1.ReadRowid? {
      NewIdIsInvisible(db, req.path, p);
      NewIdKeepsConsistent(db, req.path);
    }
  }

  /** One statement on a consistent store: it shows the new bytes at the request's path, or nothing at all. */
  lemma StatementOnFile(db: Db, pc: Pc, req: Request, env: Env, rowid: int, p: Path)
    requires Consistent(db) && Follows(db.versions, pc)
    requires CompletesWrite(db, pc, req, env, rowid) ==> OnOwnId(db, pc, req)
    ensures FileAfter(db, pc, req, env, rowid, p) && Consistent(Step(db, pc, req, env, rowid).0)
  {
    hide Consistent, Follows, OnOwnId, FileAfter, Step;
    if CompletesWrite(db, pc, req, env, rowid) {
      InsertedFile(db, pc, req, env, rowid, p);
    } else {
      UntouchedFile(db, pc, req, env, rowid, p);
    }
  }
}
