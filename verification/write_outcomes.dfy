/** When a write fails, what it leaves behind, and when existence agrees with content. */
module WriteOutcomes {
  import opened Bytes
  import opened Tables
  import opened FileStore
  import opened Statements
  import opened WriteProtocol
  import opened Crossings
  import opened OrderlyRuns

  // ----- exists and version_count -----

  /** The count of versions is the highest version number. */
  lemma CountIsMaximum(db: Db, p: Path)
    requires Consistent(db)
    ensures VersionCount(db, p) == if p in db.ids then MaxOrZero(db.versions, db.ids[p]) else 0
    ensures VersionCount(db, p) >= 1 <==> p in db.ids && db.ids[p] in Files(db.versions)
  {
    hide CacheOk, MaxVersion, Linked;
    if p in db.ids {
      if db.ids[p] in Files(db.versions) {
        VersionsAreOneToN(db.versions, db.ids[p]);
      } else {
        NoRowsNoKeys(db.versions, db.ids[p]);
      }
    }
  }

  /** A call that has created p's id, or holds it, and is about to insert a row. */
  predicate Pending(w: Writer, p: Path)
  {
    w.req.path == p && (w.pc.ReadRowid? || w.pc.InsertRow?)
  }

  ghost predicate SomePending(ws: seq<Writer>, p: Path)
  {
    exists i :: 0 <= i < |ws| && Pending(ws[i], p)
  }

  /** Every id owns a row, or a call in progress is about to give it one. */
  ghost predicate Accounted(s: Sys)
  {
    forall p :: p in s.db.ids ==> s.db.ids[p] in Files(s.db.versions) || SomePending(s.writers, p)
  }

  lemma PendingOrStored(s: Sys, ev: Event, p: Path)
    requires AllPlaced(s) && Accounted(s) && Enabled(s, ev) && ev.env.outcome.Runs?
    requires p in Fire(s, ev).db.ids
    ensures var t := Fire(s, ev);
            t.db.ids[p] in Files(t.db.versions) || SomePending(t.writers, p)
  {
    hide MaxVersion, UpsertIfNewer, Linked;
    var w := s.writers[ev.who];
    var t := Fire(s, ev);
    assert Placed(s, w, false);
    if p !in s.db.ids {
      assert Pending(t.writers[ev.who], p);
    } else if s.db.ids[p] in Files(s.db.versions) {
      StepKeepsRows(s.db, w.pc, w.req, ev.env, ev.rowid);
      var k :| k in s.db.versions && k.file == s.db.ids[p];
      assert k in t.db.versions;
    } else {
      var i :| 0 <= i < |s.writers| && Pending(s.writers[i], p);
      if i != ev.who {
        assert Pending(t.writers[i], p);
      } else if w.pc.ReadRowid? {
        assert Pending(t.writers[i], p);
      } else {
        var k := Key(w.pc.file, w.pc.version);
        assert k in t.db.versions && k.file == s.db.ids[p];
      }
    }
  }

  lemma {:induction false} RunIsAccounted(s: Sys, evs: seq<Event>)
    requires Initial(s) && Consistent(s.db) && OrderlyRun(s, evs)
    requires forall i :: 0 <= i < |evs| ==> evs[i].env.outcome.Runs?
    requires Accounted(s)
    ensures Accounted(Execute(s, evs))
  {
    hide Consistent, Fire, OrderlyRun, Accounted, AllPlaced;
    if evs != [] {
      var n := |evs| - 1;
      OrderlyPrefix(s, evs);
      RunIsAccounted(s, evs[..n]);
      OrderlyRunPlaces(s, evs[..n]);
      if Enabled(Execute(s, evs[..n]), evs[n]) {
        AccountedStep(Execute(s, evs[..n]), evs[n]);
      }
    }
  }

  lemma AccountedStep(s: Sys, ev: Event)
    requires AllPlaced(s) && Accounted(s) && Enabled(s, ev) && ev.env.outcome.Runs?
    ensures Accounted(Fire(s, ev))
  {
    hide Fire, SomePending, Files, AllPlaced;
    forall p | p in Fire(s, ev).db.ids
      ensures Fire(s, ev).db.ids[p] in Files(Fire(s, ev).db.versions) || SomePending(Fire(s, ev).writers, p)
    {
      PendingOrStored(s, ev, p);
    }
  }

  lemma OrderlyRunIsFaithful(s: Sys, evs: seq<Event>)
    requires OrderlyRun(s, evs)
    ensures FaithfulRun(s, evs)
  {}

  /**
   * In a run without failing calls, once every call has returned, a path exists exactly when it has a version,
   * even though some of the calls may have lost a race and returned -1.
   */
  lemma ExistsIffVersions(s: Sys, evs: seq<Event>, p: Path)
    requires Initial(s) && Consistent(s.db) && OrderlyRun(s, evs)
    requires forall i :: 0 <= i < |evs| ==> evs[i].env.outcome.Runs?
    requires forall q :: q in s.db.ids ==> s.db.ids[q] in Files(s.db.versions)
    requires forall i :: 0 <= i < |s.writers| ==> Returned(Execute(s, evs).writers[i].pc)
    ensures var db := Execute(s, evs).db;
            Exists(db, p) == 1 <==> VersionCount(db, p) >= 1
  {
    hide Consistent, Fire, OrderlyRun, NoCrossedSuccess, Files;
    RunIsAccounted(s, evs);
    OrderlyRunPlaces(s, evs);
    OrderlyRunIsFaithful(s, evs);
    ReadsSeeLastWrite(s, evs, p);
    CountIsMaximum(Execute(s, evs).db, p);
  }

  /**
   * A single call leaves an id without versions (so that overlay_fs_exists answers 1 and overlay_fs_read
   * fails) exactly when it creates the id and then its insert fails.
   */
  lemma StrandedIff(db: Db, rowid: int, tick: nat, req: Request, world: World)
    requires Consistent(db)
    requires req.path in db.ids ==> db.ids[req.path] in Files(db.versions)
    ensures var after := WriteRun(db, rowid, tick, req, world).db;
            (Exists(after, req.path) == 1 && ReadById(after, req.path) == None) <==>
            && req.path !in db.ids
            && !world(tick).outcome.PrepareFails? && world(tick + 1).outcome.Runs?
            && !world(tick + 3).outcome.Runs?
  {
    hide Contiguous, CacheOk, MaxVersion, Files;
    var s := WriteRun(db, rowid, tick, req, world);
    WriteAppendsOrFails(db, rowid, tick, req, world);
    if req.path in db.ids {
      KnownPathStaysReadable(db, s.db, req, world, s);
    } else {
      NewPathOutcome(db, rowid, tick, req, world);
    }
  }

  lemma KnownPathStaysReadable(db: Db, after: Db, req: Request, world: World, s: Run)
    requires Consistent(db) && req.path in db.ids && db.ids[req.path] in Files(db.versions)
    requires AppendedOrFailed(db, req, world, s) && after == s.db
    ensures ReadById(after, req.path).Some?
  {
    hide Contiguous, CacheOk, MaxVersion, Append, Linked;
    if s.pc.Wrote? {
      AppendDoesItsJob(db, req, world(s.tick - 1).now);
    }
  }

  lemma NewPathOutcome(db: Db, rowid: int, tick: nat, req: Request, world: World)
    requires Consistent(db) && req.path !in db.ids
    ensures var after := WriteRun(db, rowid, tick, req, world).db;
            (Exists(after, req.path) == 1 && ReadById(after, req.path) == None) <==>
            && !world(tick).outcome.PrepareFails? && world(tick + 1).outcome.Runs?
            && !world(tick + 3).outcome.Runs?
  {
    hide Contiguous, CacheOk, MaxVersion, InsertVersion, Linked, MaxOrZero, ReadById, RunWrite;
    var r0 := Run(db, rowid, tick, Lookup);
    var r1 := Next(r0, req, world);
    Unroll(r0, req, world);
    Unroll(r1, req, world);
    if r1.pc.CreateId? {
      var r2 := Next(r1, req, world);
      Unroll(r2, req, world);
      if r2.pc.ReadRowid? {
        var r3 := Next(r2, req, world);
        RunInsertRow(r3, req, world);
        FreshIdOutcome(db, req, world(tick + 3));
      }
    }
  }

  lemma FreshIdOutcome(db: Db, req: Request, env: Env)
    requires Consistent(db) && req.path !in db.ids
    ensures var base := NewId(db, req.path);
            var after := InsertVersion(base, Key(FileId(base.seqNo), 1), NewRow(req, env.now));
            && ReadById(base, req.path) == None
            && after.Some? && ReadById(after.value, req.path) == Some(req.data)
            && after.value.ids == base.ids
  {
    hide Contiguous, CacheOk, MaxVersion, UpsertIfNewer;
    var base := NewId(db, req.path);
    NewIdKeepsConsistent(db, req.path);
    LinkedIfConsistent(db);
    NoVersionsYet(db);
    AddedRow(base, req, env.now);
  }

  // ----- which failures a write survives -----

  /**
   * Exactly when a call returns 0, whatever its SQLite calls do. A lookup that fails to step is taken for a missing
   * path, so it is fatal for a known one; a MAX that fails to step is taken for no versions, so it is harmless for
   * a known path without any.
   */
  lemma ReturnsZeroIff(db: Db, rowid: int, tick: nat, req: Request, world: World)
    requires Consistent(db)
    ensures var lookup, second, third, fourth := world(tick).outcome, world(tick + 1).outcome,
                                                 world(tick + 2).outcome, world(tick + 3).outcome;
            WriteRun(db, rowid, tick, req, world).pc.Wrote? <==>
            if req.path !in db.ids then !lookup.PrepareFails? && second.Runs? && fourth.Runs?
            else
              && lookup.Runs? && !second.PrepareFails? && third.Runs?
              && (second.Runs? || VersionCount(db, req.path) == 0)
  {
    hide Consistent, MaxVersion, InsertVersion, MaxOrZero, RunWrite, VersionCount;
    LinkedIfConsistent(db);
    var r0 := Run(db, rowid, tick, Lookup);
    var r1 := Next(r0, req, world);
    Unroll(r0, req, world);
    Unroll(r1, req, world);
    if req.path in db.ids {
      IdsArePositive(db, req.path);
      if r1.pc.ReadMax? {
        InsertAfterMaxIff(db, rowid, tick + 1, req, world);
      } else if r1.pc.CreateId? {
        Unroll(Next(r1, req, world), req, world);
      }
    } else if r1.pc.CreateId? {
      var r2 := Next(r1, req, world);
      Unroll(r2, req, world);
      if r2.pc.ReadRowid? {
        RunInsertRow(Next(r2, req, world), req, world);
        FreshIdOutcome(db, req, world(tick + 3));
      }
    }
  }

  /** The two statements after the lookup of a known path. */
  lemma InsertAfterMaxIff(db: Db, rowid: int, tick: nat, req: Request, world: World)
    requires Consistent(db) && req.path in db.ids
    ensures RunWrite(Run(db, rowid, tick, ReadMax(db.ids[req.path])), req, world).pc.Wrote? <==>
            && !world(tick).outcome.PrepareFails? && world(tick + 1).outcome.Runs?
            && (world(tick).outcome.Runs? || VersionCount(db, req.path) == 0)
  {
    hide CacheOk, Linked, Contiguous, MaxVersion, Files, InsertVersion, RunWrite, VersionCount;
    var f := db.ids[req.path];
    var r := Run(db, rowid, tick, ReadMax(f));
    var r1 := Next(r, req, world);
    Unroll(r, req, world);
    Unroll(r1, req, world);
    CountIsMaximum(db, req.path);
    if r1.pc.InsertRow? {
      RunInsertRow(r1, req, world);
      MaxAfterAppend(db.versions, f, NewRow(req, 0));
      OneOrNothing(db.versions, f);
      RejectedIfPresent(db, Key(f, r1.pc.version), NewRow(req, world(tick + 1).now));
    }
  }

  /** The row a successful write adds, column by column, under the number after those the path has. */
  lemma AppendStoresRow(db: Db, req: Request, now: int)
    requires Consistent(db)
    ensures var after := Append(db, req, now);
            && after.Some? && req.path in after.value.ids
            && var k := Key(after.value.ids[req.path], VersionCount(db, req.path) + 1);
               && k !in db.versions
               && after.value.versions == db.versions[k := Row(req.path, now, |req.data|, req.data)]
  {
    hide Consistent, MaxVersion, Files, VersionCount, MaxOrZero, InsertVersion, Append, ReadById, SameFile;
    var base := if req.path in db.ids then db else NewId(db, req.path);
    InsertKeepsIds(base, req, now);
    PreparedForAppend(db, req.path);
    AddedRow(base, req, now);
    AppendIsInsert(db, req, now);
    SameCount(db, base, req.path);
    CountIsMaximum(base, req.path);
  }

  lemma InsertKeepsIds(db: Db, req: Request, now: int)
    requires req.path in db.ids
    ensures var k := Key(db.ids[req.path], MaxOrZero(db.versions, db.ids[req.path]) + 1);
            var after := InsertVersion(db, k, NewRow(req, now));
            after.Some? ==> after.value.ids == db.ids
  {
    hide MaxOrZero, UpsertIfNewer;
  }

  // ----- progress: losing a race -----

  /** The state before the n-th event. */
  function StateAt(s: Sys, evs: seq<Event>, n: nat): (t: Sys)
    requires n <= |evs|
    ensures |t.writers| == |s.writers|
  {
    Execute(s, evs[..n])
  }

  lemma StateStep(s: Sys, evs: seq<Event>, n: nat)
    requires n < |evs|
    ensures StateAt(s, evs, n + 1) ==
            if Enabled(StateAt(s, evs, n), evs[n]) then Fire(StateAt(s, evs, n), evs[n]) else StateAt(s, evs, n)
  {
    hide Fire;
    assert evs[..n + 1][..n] == evs[..n];
  }

  /** Another call created the path's id, or inserted a version of the path's file, at event m. */
  predicate Overtakes(s: Sys, evs: seq<Event>, m: nat, i: nat)
    requires m < |evs| && i < |s.writers|
  {
    var before, after := StateAt(s, evs, m), StateAt(s, evs, m + 1);
    var p := before.writers[i].req.path;
    && evs[m].who != i
    && (   (p !in before.db.ids && p in after.db.ids)
        || (p in before.db.ids && KeysOf(before.db.versions, before.db.ids[p]) != KeysOf(after.db.versions, before.db.ids[p])))
  }

  lemma {:induction false} RequestsAreFixed(s: Sys, evs: seq<Event>, n: nat, i: nat)
    requires n <= |evs| && i < |s.writers|
    ensures StateAt(s, evs, n).writers[i].req == s.writers[i].req
    ensures StateAt(s, evs, n).writers[i].conn == s.writers[i].conn
  {
    if n > 0 {
      StateStep(s, evs, n - 1);
      RequestsAreFixed(s, evs, n - 1, i);
    }
  }

  /** The last statement of call i before event n. */
  lemma {:induction false} LastOwnEvent(s: Sys, evs: seq<Event>, n: nat, i: nat) returns (r: nat)
    requires n <= |evs| && i < |s.writers|
    requires StateAt(s, evs, n).writers[i].pc != s.writers[i].pc
    ensures r < n && evs[r].who == i && forall k :: r < k < n ==> evs[k].who != i
    ensures StateAt(s, evs, r + 1).writers[i].pc == StateAt(s, evs, n).writers[i].pc
  {
    hide Step;
    assert n > 0;
    StateStep(s, evs, n - 1);
    if evs[n - 1].who == i {
      r := n - 1;
    } else {
      r := LastOwnEvent(s, evs, n - 1, i);
    }
  }

  /** If the path's id appears between two states, some event between them creates it. */
  lemma {:induction false} WhenIdAppears(s: Sys, evs: seq<Event>, a: nat, n: nat, p: Path) returns (m: nat)
    requires a <= n <= |evs| && p !in StateAt(s, evs, a).db.ids && p in StateAt(s, evs, n).db.ids
    ensures a <= m < n && p !in StateAt(s, evs, m).db.ids && p in StateAt(s, evs, m + 1).db.ids
    decreases n - a
  {
    if p in StateAt(s, evs, a + 1).db.ids {
      m := a;
    } else {
      m := WhenIdAppears(s, evs, a + 1, n, p);
    }
  }

  /** If a row appears between two states, some event between them inserts it. */
  lemma {:induction false} WhenRowAppears(s: Sys, evs: seq<Event>, a: nat, n: nat, k: Key) returns (m: nat)
    requires a <= n <= |evs| && k !in StateAt(s, evs, a).db.versions && k in StateAt(s, evs, n).db.versions
    ensures a <= m < n && k !in StateAt(s, evs, m).db.versions && k in StateAt(s, evs, m + 1).db.versions
    decreases n - a
  {
    if k in StateAt(s, evs, a + 1).db.versions {
      m := a;
    } else {
      m := WhenRowAppears(s, evs, a + 1, n, k);
    }
  }

  lemma {:induction false} PrefixOfRun(s: Sys, evs: seq<Event>, n: nat, i: nat)
    requires FaithfulRun(s, evs) && n <= |evs|
    ensures FaithfulRun(s, evs[..n])
    ensures Crossed(s, evs[..n], i) ==> Crossed(s, evs, i)
  {
    hide Fire, Faithful, Crosses;
    if n < |evs| {
      PrefixOfRun(s, evs[..|evs| - 1], n, i);
      assert evs[..|evs| - 1][..n] == evs[..n];
    } else {
      assert evs[..n] == evs;
    }
  }

  lemma {:induction false} IdsStay(s: Sys, evs: seq<Event>, a: nat, n: nat, p: Path)
    requires a <= n <= |evs| && p in StateAt(s, evs, a).db.ids
    ensures p in StateAt(s, evs, n).db.ids && StateAt(s, evs, n).db.ids[p] == StateAt(s, evs, a).db.ids[p]
  {
    hide Step;
    if a < n {
      IdsStay(s, evs, a, n - 1, p);
      StateStep(s, evs, n - 1);
      var before := StateAt(s, evs, n - 1);
      if Enabled(before, evs[n - 1]) {
        var w := before.writers[evs[n - 1].who];
        IdsGrow(before.db, w.pc, w.req, evs[n - 1].env, evs[n - 1].rowid);
      }
    }
  }

  /** A run with faithful rowids in which call i was not crossed. */
  predicate UncrossedRun(s: Sys, evs: seq<Event>, i: nat)
  {
    FaithfulRun(s, evs) && !Crossed(s, evs, i)
  }

  /** The invariants of the run, at any point of it. */
  lemma StateIsPlaced(s: Sys, evs: seq<Event>, n: nat, i: nat)
    requires n <= |evs| && i < |s.writers| && Initial(s) && Consistent(s.db) && UncrossedRun(s, evs, i)
    ensures IdsIssued(StateAt(s, evs, n).db) && Contiguous(StateAt(s, evs, n).db.versions)
    ensures Placed(StateAt(s, evs, n), StateAt(s, evs, n).writers[i], false)
  {
    hide Contiguous, CacheOk, Fire, Linked, IdsIssued, Placed, Faithful, Crosses;
    PrefixOfRun(s, evs, n, i);
    RunPlaces(s, evs[..n]);
    AnyRunIsSafe(s, evs[..n]);
  }

  /** Call i executes event n, without failure of its calls, and thereby returns -1. */
  ghost predicate LosesAt(s: Sys, evs: seq<Event>, n: nat, i: nat)
  {
    && n < |evs| && i < |s.writers| && evs[n].who == i
    && (forall k :: 0 <= k <= n && evs[k].who == i ==> evs[k].env.outcome.Runs?)
    && StateAt(s, evs, n).writers[i].pc != Failed && StateAt(s, evs, n + 1).writers[i].pc == Failed
  }

  lemma LostCreation(s: Sys, evs: seq<Event>, n: nat, i: nat) returns (r: nat, m: nat)
    requires Initial(s) && Consistent(s.db) && UncrossedRun(s, evs, i)
    requires LosesAt(s, evs, n, i) && StateAt(s, evs, n).writers[i].pc.CreateId?
    ensures r < m < n && evs[r].who == i && StateAt(s, evs, r).writers[i].pc.Lookup?
    ensures Overtakes(s, evs, m, i)
  {
    hide Linked, Contiguous, CacheOk, MaxOrZero, FaithfulRun, Crossed, StateAt, InsertVersion;
    var p := s.writers[i].req.path;
    RequestsAreFixed(s, evs, n, i);
    StateStep(s, evs, n);
    assert p in StateAt(s, evs, n).db.ids;
    r := LastOwnEvent(s, evs, n, i);
    StateStep(s, evs, r);
    RequestsAreFixed(s, evs, r, i);
    StateIsPlaced(s, evs, r, i);
    assert StateAt(s, evs, r).writers[i].pc.Lookup?;
    AbsentAtLookup(StateAt(s, evs, r), evs[r]);
    m := WhenIdAppears(s, evs, r + 1, n, p);
    RequestsAreFixed(s, evs, m, i);
  }

  lemma AbsentAtLookup(s: Sys, ev: Event)
    requires IdsIssued(s.db) && Enabled(s, ev) && ev.env.outcome.Runs? && s.writers[ev.who].pc.Lookup?
    requires Fire(s, ev).writers[ev.who].pc.CreateId?
    ensures s.writers[ev.who].req.path !in Fire(s, ev).db.ids
  {}

  lemma FaithfulAt(s: Sys, evs: seq<Event>, n: nat)
    requires FaithfulRun(s, evs) && n < |evs| && Enabled(StateAt(s, evs, n), evs[n])
    ensures Faithful(StateAt(s, evs, n), evs[n])
  {
    hide Execute, Faithful, Crossed;
    PrefixOfRun(s, evs, n + 1, 0);
    assert evs[..n + 1][..n] == evs[..n];
  }

  lemma AbsentAfterReadMax(s: Sys, ev: Event)
    requires Contiguous(s.db.versions) && Enabled(s, ev) && ev.env.outcome.Runs? && s.writers[ev.who].pc.ReadMax?
    ensures var t := Fire(s, ev);
            var pc := t.writers[ev.who].pc;
            pc.InsertRow? && Key(pc.file, pc.version) !in t.db.versions
  {
    hide MaxVersion;
    ReadMaxIsNext(s.db.versions, s.writers[ev.who].pc.file);
  }

  lemma AbsentAfterCreate(s: Sys, ev: Event)
    requires IdsIssued(s.db) && Enabled(s, ev) && s.writers[ev.who].pc.CreateId?
    requires Fire(s, ev).writers[ev.who].pc.ReadRowid?
    ensures var t := Fire(s, ev);
            var p := s.writers[ev.who].req.path;
            p in t.db.ids && Key(t.db.ids[p], 1) !in t.db.versions
  {
    assert Key(FileId(s.db.seqNo + 1), 1).file.n == s.db.seqNo + 1;
  }

  lemma ReadsOwnId(s: Sys, ev: Event)
    requires Enabled(s, ev) && Faithful(s, ev) && s.writers[ev.who].pc.ReadRowid?
    requires Placed(s, s.writers[ev.who], false)
    ensures var t := Fire(s, ev);
            t.db == s.db && t.writers[ev.who].pc == InsertRow(s.db.ids[s.writers[ev.who].req.path], 1)
  {}

  /** A row that appears in the path's file at event m, by the id the path has at a later time. */
  lemma RowOfPath(s: Sys, evs: seq<Event>, a: nat, m: nat, n: nat, i: nat, k: Key)
    requires a <= m < n <= |evs| && i < |s.writers| && evs[m].who != i
    requires var p := s.writers[i].req.path;
             && p in StateAt(s, evs, a).db.ids
             && p in StateAt(s, evs, n).db.ids && StateAt(s, evs, n).db.ids[p] == k.file
    requires k !in StateAt(s, evs, m).db.versions && k in StateAt(s, evs, m + 1).db.versions
    ensures Overtakes(s, evs, m, i)
  {
    hide StateAt;
    var p := s.writers[i].req.path;
    IdsStay(s, evs, a, m, p);
    IdsStay(s, evs, m, n, p);
    RequestsAreFixed(s, evs, m, i);
    assert k in KeysOf(StateAt(s, evs, m + 1).db.versions, k.file);
    assert k !in KeysOf(StateAt(s, evs, m).db.versions, k.file);
  }

  /** The row that beats an insert was absent when the call read the maximum. */
  lemma LostInsertAfterReadMax(s: Sys, evs: seq<Event>, n: nat, i: nat, k: Key, r: nat) returns (m: nat)
    requires Initial(s) && Consistent(s.db) && UncrossedRun(s, evs, i)
    requires LosesAt(s, evs, n, i) && StateAt(s, evs, n).writers[i].pc == InsertRow(k.file, k.version)
    requires k in StateAt(s, evs, n).db.versions
    requires r < n && evs[r].who == i && StateAt(s, evs, r).writers[i].pc.ReadMax?
    requires forall l :: r < l < n ==> evs[l].who != i
    requires StateAt(s, evs, r + 1).writers[i].pc == StateAt(s, evs, n).writers[i].pc
    ensures r < m < n && Overtakes(s, evs, m, i)
  {
    hide Linked, Contiguous, CacheOk, Step, FaithfulRun, Crossed, StateAt, Overtakes;
    StateStep(s, evs, r);
    StateIsPlaced(s, evs, r, i);
    AbsentAfterReadMax(StateAt(s, evs, r), evs[r]);
    m := WhenRowAppears(s, evs, r + 1, n, k);
    PathIsLinked(s, evs, r + 1, i);
    PathIsLinked(s, evs, n, i);
    RowOfPath(s, evs, r + 1, m, n, i, k);
  }

  lemma PathIsLinked(s: Sys, evs: seq<Event>, n: nat, i: nat)
    requires Initial(s) && Consistent(s.db) && UncrossedRun(s, evs, i)
    requires n <= |evs| && i < |s.writers| && StateAt(s, evs, n).writers[i].pc.InsertRow?
    ensures var p := s.writers[i].req.path;
            && p in StateAt(s, evs, n).db.ids
            && StateAt(s, evs, n).db.ids[p] == StateAt(s, evs, n).writers[i].pc.file
  {
    hide Linked, Contiguous, CacheOk, Step, FaithfulRun, Crossed, StateAt;
    StateIsPlaced(s, evs, n, i);
    RequestsAreFixed(s, evs, n, i);
  }

  /** The row that beats a first insert was absent when the call created the id. */
  lemma LostFirstInsert(s: Sys, evs: seq<Event>, n: nat, i: nat, k: Key, last: nat) returns (r: nat, m: nat)
    requires Initial(s) && Consistent(s.db) && UncrossedRun(s, evs, i)
    requires LosesAt(s, evs, n, i) && StateAt(s, evs, n).writers[i].pc == InsertRow(k.file, k.version)
    requires k in StateAt(s, evs, n).db.versions
    requires last < n && evs[last].who == i && StateAt(s, evs, last).writers[i].pc.ReadRowid?
    requires forall l :: last < l < n ==> evs[l].who != i
    requires StateAt(s, evs, last + 1).writers[i].pc == StateAt(s, evs, n).writers[i].pc
    ensures r < m < n && evs[r].who == i && StateAt(s, evs, r).writers[i].pc.CreateId?
    ensures Overtakes(s, evs, m, i)
  {
    hide Linked, Contiguous, CacheOk, FaithfulRun, Crossed, StateAt, Overtakes, InsertVersion, MaxOrZero, Faithful;
    var p := s.writers[i].req.path;
    r := LastOwnEvent(s, evs, last, i);
    StateStep(s, evs, r);
    StateIsPlaced(s, evs, r, i);
    RequestsAreFixed(s, evs, r, i);
    AbsentAfterCreate(StateAt(s, evs, r), evs[r]);
    StateStep(s, evs, last);
    StateIsPlaced(s, evs, last, i);
    FaithfulAt(s, evs, last);
    RequestsAreFixed(s, evs, last, i);
    ReadsOwnId(StateAt(s, evs, last), evs[last]);
    IdsStay(s, evs, r + 1, last, p);
    m := WhenRowAppears(s, evs, r + 1, n, k);
    PathIsLinked(s, evs, n, i);
    RowOfPath(s, evs, r + 1, m, n, i, k);
  }

  /**
   * Progress of the lock-free write: a call that was not crossed and none of whose SQLite calls failed
   * returns -1 only because another call created the same path's id, or inserted a version of the same file,
   * after this call's own read (or creation) of it.
   */
  lemma LosingMeansOvertaken(s: Sys, evs: seq<Event>, n: nat, i: nat) returns (r: nat, m: nat)
    requires Initial(s) && Consistent(s.db) && UncrossedRun(s, evs, i)
    requires LosesAt(s, evs, n, i)
    ensures r < m < n && evs[r].who == i && Overtakes(s, evs, m, i)
    ensures var pc := StateAt(s, evs, r).writers[i].pc;
            if StateAt(s, evs, n).writers[i].pc.CreateId? then pc.Lookup? else pc.ReadMax? || pc.CreateId?
  {
    hide Linked, Contiguous, CacheOk, FaithfulRun, Crossed, StateAt, Overtakes, MaxOrZero, UpsertIfNewer;
    StateStep(s, evs, n);
    var pc := StateAt(s, evs, n).writers[i].pc;
    if pc.CreateId? {
      r, m := LostCreation(s, evs, n, i);
    } else {
      var k := Key(pc.file, pc.version);
      r := LastOwnEvent(s, evs, n, i);
      StateStep(s, evs, r);
      if StateAt(s, evs, r).writers[i].pc.ReadRowid? {
        r, m := LostFirstInsert(s, evs, n, i, k, r);
      } else {
        m := LostInsertAfterReadMax(s, evs, n, i, k, r);
      }
    }
  }
}
