/** Any number of calls of overlay_fs_write, interleaved statement by statement, with no lock. */
module WriteProtocol {
  import opened Bytes
  import opened Tables
  import opened FileStore
  import opened Statements

  /** One call in progress, on connection conn. */
  datatype Writer = Writer(req: Request, conn: nat, pc: Pc)

  /** `last` is sqlite3_last_insert_rowid of each connection (absent while nothing was inserted). */
  datatype Sys = Sys(db: Db, last: map<nat, int>, writers: seq<Writer>)

  /** Writer `who` executes its next statement; rowid is what sqlite3_last_insert_rowid would return. */
  datatype Event = Event(who: nat, env: Env, rowid: int)

  predicate Enabled(s: Sys, ev: Event) { ev.who < |s.writers| }

  function Fire(s: Sys, ev: Event): (t: Sys)
    requires Enabled(s, ev)
    ensures |t.writers| == |s.writers|
  {
    var w := s.writers[ev.who];
    var after := Step(s.db, w.pc, w.req, ev.env, ev.rowid);
    Sys(after.0,
        if w.pc.CreateId? && after.1.ReadRowid? then s.last[w.conn := after.0.seqNo] else s.last,
        s.writers[ev.who := w.(pc := after.1)])
  }

  /** The state after a run; an event of no writer is ignored. */
  function Execute(s: Sys, evs: seq<Event>): (t: Sys)
    ensures |t.writers| == |s.writers|
  {
    if evs == [] then s
    else
      var before := Execute(s, evs[..|evs| - 1]);
      var ev := evs[|evs| - 1];
      if Enabled(before, ev) then Fire(before, ev) else before
  }

  predicate Initial(s: Sys)
  {
    forall i :: 0 <= i < |s.writers| ==> s.writers[i].pc == Lookup
  }

  // ----- safety for any rowids -----

  predicate Carries(row: Row, req: Request)
  {
    row.path == req.path && row.data == req.data && row.size == |req.data|
  }

  /** What the local state of a call says about the tables; `base` are the rows before the run. */
  ghost predicate WriterOk(base: Versions, vs: Versions, w: Writer)
  {
    match w.pc
    case InsertRow(_, _) => Follows(vs, w.pc)
    case Wrote(k) => k !in base && k in vs && Carries(vs[k], w.req)
    case _ => true
  }

  ghost predicate OwnKeys(ws: seq<Writer>)
  {
    forall i, j :: 0 <= i < j < |ws| && ws[i].pc.Wrote? ==> ws[i].pc != ws[j].pc
  }

  ghost predicate IsWriteOf(ws: seq<Writer>, k: Key)
  {
    exists i :: 0 <= i < |ws| && ws[i].pc == Wrote(k)
  }

  /** The rows added so far are exactly those of the calls that returned 0, one each. */
  ghost predicate Safe(base: Versions, s: Sys)
  {
    && Contiguous(s.db.versions) && CacheOk(s.db) && Extends(base, s.db.versions)
    && (forall i :: 0 <= i < |s.writers| ==> WriterOk(base, s.db.versions, s.writers[i]))
    && OwnKeys(s.writers)
    && (forall k :: k in s.db.versions && k !in base ==> IsWriteOf(s.writers, k))
  }

  lemma StepKeepsWriterOk(base: Versions, db: Db, w: Writer, env: Env, rowid: int)
    requires Contiguous(db.versions) && CacheOk(db) && Extends(base, db.versions)
    requires WriterOk(base, db.versions, w)
    ensures var after := Step(db, w.pc, w.req, env, rowid);
            && Contiguous(after.0.versions) && CacheOk(after.0) && Extends(base, after.0.versions)
            && WriterOk(base, after.0.versions, w.(pc := after.1))
  {
    hide UpsertIfNewer, Contiguous, CacheOk, MaxOrZero;
    StepKeepsRows(db, w.pc, w.req, env, rowid);
    StepKeepsContiguous(db, w.pc, w.req, env, rowid);
  }

  lemma OthersStayOk(base: Versions, vs: Versions, ws: Versions, w: Writer)
    requires WriterOk(base, vs, w) && Extends(vs, ws)
    ensures WriterOk(base, ws, w)
  {}

  lemma FireKeepsSafe(base: Versions, s: Sys, ev: Event)
    requires Safe(base, s) && Enabled(s, ev)
    ensures Safe(base, Fire(s, ev))
  {
    hide Contiguous, CacheOk, Step, Carries, WriterOk, OwnKeys, IsWriteOf;
    var w := s.writers[ev.who];
    var t := Fire(s, ev);
    StepKeepsRows(s.db, w.pc, w.req, ev.env, ev.rowid);
    StepKeepsWriterOk(base, s.db, w, ev.env, ev.rowid);
    forall i | 0 <= i < |t.writers|
      ensures WriterOk(base, t.db.versions, t.writers[i])
    {
      if i != ev.who {
        OthersStayOk(base, s.db.versions, t.db.versions, s.writers[i]);
      }
    }
    FireKeepsOwnKeys(base, s, ev);
    forall k | k in t.db.versions && k !in base
      ensures IsWriteOf(t.writers, k)
    {
      NewRowIsWrite(s, ev, k);
    }
  }

  /** A call that inserted a row had it rejected before if another call's write owns the key. */
  lemma FireKeepsOwnKeys(base: Versions, s: Sys, ev: Event)
    requires Safe(base, s) && Enabled(s, ev)
    ensures OwnKeys(Fire(s, ev).writers)
  {
    hide Contiguous, CacheOk, Carries, UpsertIfNewer, MaxOrZero, IsWriteOf, NewId;
    var t := Fire(s, ev);
    var pc := s.writers[ev.who].pc;
    if pc.InsertRow? && t.writers[ev.who].pc.Wrote? {
      assert t.writers[ev.who].pc.key !in s.db.versions;
      assert forall i :: 0 <= i < |s.writers| && s.writers[i].pc.Wrote? ==> s.writers[i].pc.key in s.db.versions;
    }
  }

  lemma NewRowIsWrite(s: Sys, ev: Event, k: Key)
    requires Enabled(s, ev) && k in Fire(s, ev).db.versions
    requires k in s.db.versions ==> IsWriteOf(s.writers, k)
    ensures IsWriteOf(Fire(s, ev).writers, k)
  {
    hide UpsertIfNewer, MaxOrZero;
    var t := Fire(s, ev);
    if k in s.db.versions {
      var i :| 0 <= i < |s.writers| && s.writers[i].pc == Wrote(k);
      assert t.writers[i].pc == Wrote(k);
    } else {
      assert t.writers[ev.who].pc == Wrote(k);
    }
  }

  /**
   * With any number of writers, any interleaving, any failures and any value of last_insert_rowid: versions
   * stay contiguous, no stored row changes, the cache is the view, and the new rows are exactly those of the
   * writes that returned 0.
   */
  lemma {:induction false} AnyRunIsSafe(s: Sys, evs: seq<Event>)
    requires Initial(s) && Contiguous(s.db.versions) && CacheOk(s.db)
    ensures Safe(s.db.versions, Execute(s, evs))
  {
    hide Contiguous, CacheOk, Fire;
    if evs != [] {
      var n := |evs| - 1;
      AnyRunIsSafe(s, evs[..n]);
      if Enabled(Execute(s, evs[..n]), evs[n]) {
        FireKeepsSafe(s.db.versions, Execute(s, evs[..n]), evs[n]);
      }
    }
  }

  /** How many calls are in such a state. */
  function Count(ws: seq<Writer>, counted: Writer -> bool): nat
  {
    if ws == [] then 0 else Count(ws[1..], counted) + if counted(ws[0]) then 1 else 0
  }

  lemma {:induction false} CountUpdate(ws: seq<Writer>, i: nat, w: Writer, counted: Writer -> bool)
    requires i < |ws|
    ensures Count(ws[i := w], counted) ==
            Count(ws, counted) + (if counted(w) then 1 else 0) - (if counted(ws[i]) then 1 else 0)
  {
    if i > 0 {
      assert ws[i := w][1..] == ws[1..][i - 1 := w];
      CountUpdate(ws[1..], i - 1, w, counted);
    } else {
      assert ws[0 := w][1..] == ws[1..];
    }
  }

  lemma {:induction false} NoneCounted(ws: seq<Writer>, counted: Writer -> bool)
    requires forall i :: 0 <= i < |ws| ==> !counted(ws[i])
    ensures Count(ws, counted) == 0
  {
    if ws != [] {
      NoneCounted(ws[1..], counted);
    }
  }

  /** A call that returned 0. */
  predicate Succeeded(w: Writer) { w.pc.Wrote? }

  function Successes(ws: seq<Writer>): nat { Count(ws, Succeeded) }

  lemma FireCounts(s: Sys, ev: Event)
    requires Enabled(s, ev)
    ensures var t := Fire(s, ev);
            |t.db.versions| - Successes(t.writers) == |s.db.versions| - Successes(s.writers)
  {
    hide MaxOrZero, UpsertIfNewer, Count;
    var w := s.writers[ev.who];
    CountUpdate(s.writers, ev.who, Fire(s, ev).writers[ev.who], Succeeded);
    StepKeepsRows(s.db, w.pc, w.req, ev.env, ev.rowid);
  }

  /** Conservation: the table grows by one row for each call that returned 0, and by nothing else. */
  lemma {:induction false} EachSuccessAddsOneRow(s: Sys, evs: seq<Event>)
    requires Initial(s)
    ensures var t := Execute(s, evs);
            |t.db.versions| == |s.db.versions| + Successes(t.writers)
  {
    hide Fire, Count;
    if evs == [] {
      NoneCounted(s.writers, Succeeded);
    } else {
      var n := |evs| - 1;
      EachSuccessAddsOneRow(s, evs[..n]);
      if Enabled(Execute(s, evs[..n]), evs[n]) {
        FireCounts(Execute(s, evs[..n]), evs[n]);
      }
    }
  }
}
