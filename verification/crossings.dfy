/** Calls that share connections: exactly when the row of a successful write lands under the id of its own path. */
module Crossings {
  import opened Bytes
  import opened Tables
  import opened FileStore
  import opened Statements
  import opened WriteProtocol

  /** sqlite3_last_insert_rowid answers with the last id inserted on the caller's connection. */
  predicate Faithful(s: Sys, ev: Event)
    requires Enabled(s, ev)
  {
    var w := s.writers[ev.who];
    w.pc.ReadRowid? ==> w.conn in s.last && ev.rowid == s.last[w.conn]
  }

  predicate FaithfulRun(s: Sys, evs: seq<Event>)
  {
    evs == [] ||
    (FaithfulRun(s, evs[..|evs| - 1]) &&
     var before := Execute(s, evs[..|evs| - 1]);
     Enabled(before, evs[|evs| - 1]) ==> Faithful(before, evs[|evs| - 1]))
  }

  /** Another call creates an id on the connection of call i, which has yet to read the rowid of its own. */
  predicate Crosses(s: Sys, ev: Event, i: nat)
    requires Enabled(s, ev)
  {
    var w := s.writers[ev.who];
    && i < |s.writers| && i != ev.who && s.writers[i].pc.ReadRowid? && s.writers[i].conn == w.conn
    && w.pc.CreateId? && Fire(s, ev).writers[ev.who].pc.ReadRowid?
  }

  /** Call i was crossed during the run. */
  predicate Crossed(s: Sys, evs: seq<Event>, i: nat)
  {
    evs != [] &&
    (Crossed(s, evs[..|evs| - 1], i) ||
     var before := Execute(s, evs[..|evs| - 1]);
     Enabled(before, evs[|evs| - 1]) && Crosses(before, evs[|evs| - 1], i))
  }

  // ----- where a call stands, crossed or not -----

  /** Ids are issued once, and no row has an id that was never issued. */
  predicate IdsIssued(db: Db)
  {
    && (forall p :: p in db.ids ==> 1 <= db.ids[p].n <= db.seqNo)
    && (forall p, q :: p in db.ids && q in db.ids && db.ids[p] == db.ids[q] ==> p == q)
    && (forall k :: k in db.versions ==> k.file.n <= db.seqNo)
  }

  /** A call works on the id of its own path exactly if it was not crossed, and on a newer one otherwise. */
  predicate Placed(s: Sys, w: Writer, crossed: bool)
  {
    match w.pc
    case ReadRowid =>
      && w.req.path in s.db.ids && w.conn in s.last && s.last[w.conn] <= s.db.seqNo
      && IsPlace(s.db, w.req.path, FileId(s.last[w.conn]), crossed)
    case InsertRow(f, _) => f.n <= s.db.seqNo && IsPlace(s.db, w.req.path, f, crossed)
    case Wrote(k) => IsPlace(s.db, w.req.path, k.file, crossed)
    case ReadMax(f) => !crossed && IsPlace(s.db, w.req.path, f, false)
    case Failed => true
    case _ => !crossed
  }

  predicate IsPlace(db: Db, p: Path, f: FileId, crossed: bool)
  {
    p in db.ids && if crossed then db.ids[p].n < f.n else db.ids[p] == f
  }

  lemma LinkedIdsAreIssued(db: Db)
    requires Linked(db)
    ensures IdsIssued(db)
  {}

  lemma FireKeepsIssued(s: Sys, ev: Event, crossed: bool)
    requires IdsIssued(s.db) && Enabled(s, ev) && Placed(s, s.writers[ev.who], crossed)
    ensures IdsIssued(Fire(s, ev).db)
  {
    hide MaxOrZero, UpsertIfNewer;
  }

  lemma OwnPlace(s: Sys, ev: Event, crossed: bool)
    requires IdsIssued(s.db) && Enabled(s, ev) && Faithful(s, ev) && Placed(s, s.writers[ev.who], crossed)
    ensures Placed(Fire(s, ev), Fire(s, ev).writers[ev.who], crossed)
  {
    hide MaxOrZero, UpsertIfNewer;
  }

  lemma OtherPlace(s: Sys, ev: Event, i: nat, crossed: bool)
    requires IdsIssued(s.db) && Enabled(s, ev) && i < |s.writers| && i != ev.who
    requires Placed(s, s.writers[i], crossed)
    ensures Placed(Fire(s, ev), s.writers[i], crossed || Crosses(s, ev, i))
  {
    hide MaxOrZero, UpsertIfNewer;
  }

  /** The places of all calls, over any run with faithful rowids. */
  lemma {:induction false} RunPlaces(s: Sys, evs: seq<Event>)
    requires Initial(s) && Linked(s.db) && FaithfulRun(s, evs)
    ensures IdsIssued(Execute(s, evs).db)
    ensures forall i :: 0 <= i < |s.writers| ==> Placed(Execute(s, evs), Execute(s, evs).writers[i], Crossed(s, evs, i))
  {
    hide Linked, IdsIssued, Fire, Faithful, Crosses;
    if evs == [] {
      LinkedIdsAreIssued(s.db);
    } else {
      var n := |evs| - 1;
      RunPlaces(s, evs[..n]);
      var before := Execute(s, evs[..n]);
      if Enabled(before, evs[n]) {
        FirePlaces(before, evs[n], seq(|s.writers|, i requires 0 <= i => Crossed(s, evs[..n], i)));
      }
    }
  }

  lemma FirePlaces(s: Sys, ev: Event, crossed: seq<bool>)
    requires IdsIssued(s.db) && Enabled(s, ev) && Faithful(s, ev) && |crossed| == |s.writers|
    requires forall i :: 0 <= i < |s.writers| ==> Placed(s, s.writers[i], crossed[i])
    ensures IdsIssued(Fire(s, ev).db)
    ensures forall i :: 0 <= i < |s.writers| ==>
                          Placed(Fire(s, ev), Fire(s, ev).writers[i], crossed[i] || Crosses(s, ev, i))
  {
    hide IdsIssued, Placed, Step, Faithful;
    FireKeepsIssued(s, ev, crossed[ev.who]);
    forall i | 0 <= i < |s.writers|
      ensures Placed(Fire(s, ev), Fire(s, ev).writers[i], crossed[i] || Crosses(s, ev, i))
    {
      if i == ev.who {
        OwnPlace(s, ev, crossed[i]);
      } else {
        OtherPlace(s, ev, i, crossed[i]);
      }
    }
  }

  /** In every reachable state each event has a faithful rowid, so every interleaving has a faithful run. */
  lemma SomeRowidIsFaithful(s: Sys, evs: seq<Event>, ev: Event) returns (rowid: int)
    requires Initial(s) && Linked(s.db) && FaithfulRun(s, evs) && Enabled(Execute(s, evs), ev)
    ensures Faithful(Execute(s, evs), ev.(rowid := rowid))
  {
    hide Linked, Execute, Crossed;
    RunPlaces(s, evs);
    var t := Execute(s, evs);
    var w := t.writers[ev.who];
    assert Placed(t, w, Crossed(s, evs, ev.who));
    rowid := if w.conn in t.last then t.last[w.conn] else 0;
  }

  // ----- ids and paths stay linked if and only if no successful write was crossed -----

  /** No call that returned 0 was crossed. */
  predicate NoCrossedSuccess(s: Sys, evs: seq<Event>)
  {
    forall i :: 0 <= i < |s.writers| && Succeeded(Execute(s, evs).writers[i]) ==> !Crossed(s, evs, i)
  }

  /** One call: the row of a successful write is under the id of its path exactly if the call was not crossed. */
  lemma RowOnOwnIdIff(s: Sys, evs: seq<Event>, i: nat)
    requires Initial(s) && Consistent(s.db) && FaithfulRun(s, evs)
    requires i < |s.writers| && Succeeded(Execute(s, evs).writers[i])
    ensures var t := Execute(s, evs);
            var w := t.writers[i];
            && w.pc.key in t.db.versions && Carries(t.db.versions[w.pc.key], w.req) && w.req.path in t.db.ids
            && (t.db.ids[w.req.path] == w.pc.key.file <==> !Crossed(s, evs, i))
  {
    hide Linked, Contiguous, CacheOk, Execute, Crossed;
    AnyRunIsSafe(s, evs);
    RunPlaces(s, evs);
    assert WriterOk(s.db.versions, Execute(s, evs).db.versions, Execute(s, evs).writers[i]);
  }

  /** Ids are never lost or altered, and new ones are above the old counter. */
  ghost predicate IdsExtend(a: Db, b: Db)
  {
    && a.seqNo <= b.seqNo
    && (forall p :: p in a.ids ==> p in b.ids && b.ids[p] == a.ids[p])
    && (forall p :: p in b.ids && p !in a.ids ==> b.ids[p].n > a.seqNo)
  }

  lemma {:induction false} RunExtendsIds(s: Sys, evs: seq<Event>)
    ensures IdsExtend(s.db, Execute(s, evs).db)
  {
    hide Step;
    if evs != [] {
      var n := |evs| - 1;
      RunExtendsIds(s, evs[..n]);
      var before := Execute(s, evs[..n]);
      if Enabled(before, evs[n]) {
        var w := before.writers[evs[n].who];
        IdsGrow(before.db, w.pc, w.req, evs[n].env, evs[n].rowid);
      }
    }
  }

  /** Whatever the connections: the tables stay linked exactly if no successful write was crossed. */
  lemma LinkedIff(s: Sys, evs: seq<Event>)
    requires Initial(s) && Consistent(s.db) && FaithfulRun(s, evs)
    ensures Linked(Execute(s, evs).db) <==> NoCrossedSuccess(s, evs)
    ensures Consistent(Execute(s, evs).db) <==> NoCrossedSuccess(s, evs)
  {
    hide Contiguous, CacheOk, Execute, Crossed, Placed, WriterOk, FaithfulRun;
    AnyRunIsSafe(s, evs);
    RunPlaces(s, evs);
    RunExtendsIds(s, evs);
    var t := Execute(s, evs);
    forall i | 0 <= i < |t.writers| && Succeeded(t.writers[i])
      ensures var w := t.writers[i];
              && w.pc.key in t.db.versions && t.db.versions[w.pc.key].path == w.req.path && w.req.path in t.db.ids
              && (t.db.ids[w.req.path] == w.pc.key.file <==> !Crossed(s, evs, i))
    {
      RowOnOwnIdIff(s, evs, i);
    }
  }

  // ----- what clients count -----

  /** The call wrote a row under this id. */
  function WroteUnder(f: FileId): Writer -> bool { (w: Writer) => w.pc.Wrote? && w.pc.key.file == f }

  /** The call is a successful write of this path. */
  function WroteTo(p: Path): Writer -> bool { (w: Writer) => w.pc.Wrote? && w.req.path == p }

  /** How many calls for p have returned 0. */
  function WritesTo(ws: seq<Writer>, p: Path): nat { Count(ws, WroteTo(p)) }

  /** version_count of every path has grown by the calls for it that returned 0. */
  ghost predicate CountsAreRight(s: Sys, t: Sys)
  {
    forall p :: VersionCount(t.db, p) == VersionCount(s.db, p) + WritesTo(t.writers, p)
  }

  lemma FireCountsKeys(s: Sys, ev: Event, f: FileId)
    requires Enabled(s, ev)
    ensures var t := Fire(s, ev);
            |KeysOf(t.db.versions, f)| - Count(t.writers, WroteUnder(f)) ==
            |KeysOf(s.db.versions, f)| - Count(s.writers, WroteUnder(f))
  {
    hide MaxOrZero, UpsertIfNewer, Count, KeysOf;
    var w := s.writers[ev.who];
    var t := Fire(s, ev);
    CountUpdate(s.writers, ev.who, t.writers[ev.who], WroteUnder(f));
    StepKeepsRows(s.db, w.pc, w.req, ev.env, ev.rowid);
    if t.db.versions != s.db.versions {
      var k := t.writers[ev.who].pc.key;
      OneMoreKey(s.db.versions, k, NewRow(w.req, ev.env.now));
      OtherKeys(s.db.versions, k, NewRow(w.req, ev.env.now), f);
    }
  }

  lemma OtherKeys(vs: Versions, k: Key, row: Row, f: FileId)
    ensures k.file != f ==> KeysOf(vs[k := row], f) == KeysOf(vs, f)
  {}

  lemma {:induction false} RunCountsKeys(s: Sys, evs: seq<Event>, f: FileId)
    requires Initial(s)
    ensures var t := Execute(s, evs);
            |KeysOf(t.db.versions, f)| == |KeysOf(s.db.versions, f)| + Count(t.writers, WroteUnder(f))
  {
    hide Fire, Count, KeysOf;
    if evs == [] {
      NoneCounted(s.writers, WroteUnder(f));
    } else {
      var n := |evs| - 1;
      RunCountsKeys(s, evs[..n], f);
      if Enabled(Execute(s, evs[..n]), evs[n]) {
        FireCountsKeys(Execute(s, evs[..n]), evs[n], f);
      }
    }
  }

  /** A weaker condition counts at least as many calls, and more if some call meets only that one. */
  lemma {:induction false} CountMonotone(ws: seq<Writer>, a: Writer -> bool, b: Writer -> bool)
    requires forall i :: 0 <= i < |ws| && a(ws[i]) ==> b(ws[i])
    ensures Count(ws, a) <= Count(ws, b)
    ensures (exists i :: 0 <= i < |ws| && b(ws[i]) && !a(ws[i])) ==> Count(ws, a) < Count(ws, b)
  {
    if ws != [] {
      CountMonotone(ws[1..], a, b);
      if i :| 0 <= i < |ws| && b(ws[i]) && !a(ws[i]) {
        assert i > 0 ==> ws[1..][i - 1] == ws[i];
      }
    }
  }

  /** A successful write whose row is under another path's id. */
  predicate Misplaced(db: Db, w: Writer)
  {
    w.pc.Wrote? && w.req.path in db.ids && db.ids[w.req.path] != w.pc.key.file
  }

  /** Every row of a successful write is under the id of its path or a newer one. */
  ghost predicate NeverUnderOlder(t: Sys)
  {
    forall i :: 0 <= i < |t.writers| && t.writers[i].pc.Wrote? ==>
                  var w := t.writers[i];
                  w.req.path in t.db.ids && t.db.ids[w.req.path].n <= w.pc.key.file.n
  }

  /** Among the misplaced writes, one whose path has the oldest id. */
  lemma {:induction false} OldestMisplaced(t: Sys, i: nat) returns (j: nat)
    requires IdsIssued(t.db) && i < |t.writers| && Misplaced(t.db, t.writers[i])
    ensures j < |t.writers| && Misplaced(t.db, t.writers[j])
    ensures forall k :: 0 <= k < |t.writers| && Misplaced(t.db, t.writers[k]) ==>
                          t.db.ids[t.writers[j].req.path].n <= t.db.ids[t.writers[k].req.path].n
    decreases t.db.ids[t.writers[i].req.path].n
  {
    if k :| 0 <= k < |t.writers| && Misplaced(t.db, t.writers[k])
            && t.db.ids[t.writers[k].req.path].n < t.db.ids[t.writers[i].req.path].n {
      j := OldestMisplaced(t, k);
    } else {
      j := i;
    }
  }

  /** The path of the oldest misplaced write has fewer rows than successful writes: nothing strays into its id. */
  lemma MisplacedRowIsMissing(t: Sys, i: nat) returns (p: Path)
    requires IdsIssued(t.db) && NeverUnderOlder(t) && i < |t.writers| && Misplaced(t.db, t.writers[i])
    ensures p in t.db.ids && Count(t.writers, WroteUnder(t.db.ids[p])) < WritesTo(t.writers, p)
  {
    hide Count;
    var j := OldestMisplaced(t, i);
    p := t.writers[j].req.path;
    var under, to := WroteUnder(t.db.ids[p]), WroteTo(p);
    forall k | 0 <= k < |t.writers| && under(t.writers[k])
      ensures to(t.writers[k])
    {
      var w := t.writers[k];
      assert w.req.path != p ==> Misplaced(t.db, w);
    }
    assert to(t.writers[j]) && !under(t.writers[j]);
    CountMonotone(t.writers, under, to);
  }

  lemma CountsOfPath(s: Sys, evs: seq<Event>, p: Path)
    requires Initial(s) && Consistent(s.db) && p in Execute(s, evs).db.ids
    ensures var t := Execute(s, evs);
            VersionCount(t.db, p) == VersionCount(s.db, p) + Count(t.writers, WroteUnder(t.db.ids[p]))
  {
    hide Contiguous, CacheOk, Execute, Count, Linked, KeysOf, Files;
    RunExtendsIds(s, evs);
    var f := Execute(s, evs).db.ids[p];
    RunCountsKeys(s, evs, f);
    LinkedIdsAreIssued(s.db);
    if p !in s.db.ids {
      NoRowsNoKeys(s.db.versions, f);
    }
  }

  /** A crossed success always shows: some path then counts fewer versions than its successful writes. */
  lemma CrossedSuccessMiscounts(s: Sys, evs: seq<Event>)
    requires Initial(s) && Consistent(s.db) && FaithfulRun(s, evs) && !NoCrossedSuccess(s, evs)
    ensures !CountsAreRight(s, Execute(s, evs))
  {
    hide Consistent, Execute, Count, Crossed, FaithfulRun, VersionCount;
    var t := Execute(s, evs);
    LinkedIfConsistent(s.db);
    RunPlaces(s, evs);
    var i :| 0 <= i < |s.writers| && Succeeded(t.writers[i]) && Crossed(s, evs, i);
    assert NeverUnderOlder(t) by {
      assert forall j :: 0 <= j < |t.writers| ==> Placed(t, t.writers[j], Crossed(s, evs, j));
    }
    var p := MisplacedRowIsMissing(t, i);
    CountsOfPath(s, evs, p);
    assert VersionCount(t.db, p) != VersionCount(s.db, p) + WritesTo(t.writers, p);
  }
}
