/** What clients read and count after interleaved writes, and the disciplines under which no call is crossed. */
module OrderlyRuns {
  import opened Bytes
  import opened Tables
  import opened FileStore
  import opened Statements
  import opened WriteProtocol
  import opened Crossings

  // ----- reads and counts -----

  /** This event completes a write of p. */
  predicate Completes(s: Sys, ev: Event, p: Path)
    requires Enabled(s, ev)
  {
    var w := s.writers[ev.who];
    w.req.path == p && CompletesWrite(s.db, w.pc, w.req, ev.env, ev.rowid)
  }

  /** The bytes of the last successful write of p in the run. */
  function LastWrite(s: Sys, evs: seq<Event>, p: Path): Option<seq<byte>>
  {
    if evs == [] then None
    else
      var before := Execute(s, evs[..|evs| - 1]);
      var ev := evs[|evs| - 1];
      if Enabled(before, ev) && Completes(before, ev, p) then Some(before.writers[ev.who].req.data)
      else LastWrite(s, evs[..|evs| - 1], p)
  }

  lemma PrefixKeepsNoCrossedSuccess(s: Sys, evs: seq<Event>)
    requires evs != [] && NoCrossedSuccess(s, evs)
    ensures NoCrossedSuccess(s, evs[..|evs| - 1])
  {
    hide MaxOrZero, UpsertIfNewer, InsertVersion;
    var before := Execute(s, evs[..|evs| - 1]);
    forall i | 0 <= i < |s.writers| && Succeeded(before.writers[i])
      ensures !Crossed(s, evs[..|evs| - 1], i)
    {
      assert Succeeded(Execute(s, evs).writers[i]);
    }
  }

  /** What the last statement of a run without crossed successes may rely on. */
  lemma BeforeLastEvent(s: Sys, evs: seq<Event>)
    requires Initial(s) && Consistent(s.db) && FaithfulRun(s, evs) && NoCrossedSuccess(s, evs) && evs != []
    requires Enabled(Execute(s, evs[..|evs| - 1]), evs[|evs| - 1])
    ensures var before := Execute(s, evs[..|evs| - 1]);
            var ev := evs[|evs| - 1];
            var w := before.writers[ev.who];
            && Consistent(before.db) && Follows(before.db.versions, w.pc)
            && (CompletesWrite(before.db, w.pc, w.req, ev.env, ev.rowid) ==> OnOwnId(before.db, w.pc, w.req))
  {
    hide Consistent, Step, Crossed, WriterOk, OwnKeys, IsWriteOf, Carries, Initial;
    var n := |evs| - 1;
    var i := evs[n].who;
    PrefixKeepsNoCrossedSuccess(s, evs);
    LinkedIff(s, evs[..n]);
    LinkedIfConsistent(s.db);
    assert Contiguous(s.db.versions) && CacheOk(s.db) by {
      ConsistentParts(s.db);
    }
    AnyRunIsSafe(s, evs[..n]);
    RunPlaces(s, evs[..n]);
    var before := Execute(s, evs[..n]);
    assert WriterOk(s.db.versions, before.db.versions, before.writers[i]);
    assert Placed(before, before.writers[i], Crossed(s, evs[..n], i));
    FollowsIfOk(s.db.versions, before.db.versions, before.writers[i]);
    assert Execute(s, evs) == Fire(before, evs[n]);
    CrossedStays(s, evs, i);
    OnlyInsertCompletes(before.db, before.writers[i].pc, before.writers[i].req, evs[n].env, evs[n].rowid);
  }

  lemma ConsistentParts(db: Db)
    requires Consistent(db)
    ensures Contiguous(db.versions) && CacheOk(db)
  {}

  lemma CrossedStays(s: Sys, evs: seq<Event>, i: nat)
    requires evs != []
    ensures Crossed(s, evs[..|evs| - 1], i) ==> Crossed(s, evs, i)
  {}

  lemma FollowsIfOk(base: Versions, vs: Versions, w: Writer)
    requires WriterOk(base, vs, w)
    ensures Follows(vs, w.pc)
  {}

  lemma FireCountsWrites(s: Sys, ev: Event, p: Path)
    requires Enabled(s, ev)
    ensures WritesTo(Fire(s, ev).writers, p) == WritesTo(s.writers, p) + if Completes(s, ev, p) then 1 else 0
  {
    hide MaxOrZero, InsertVersion, Count;
    CountUpdate(s.writers, ev.who, Fire(s, ev).writers[ev.who], WroteTo(p));
  }

  /**
   * Any interleaving and any failures in which no successful write was crossed: the store stays consistent, a
   * read returns the bytes of the last successful write of the path (or what it returned before the run),
   * through either route, and the version count has grown by the number of successful writes.
   */
  lemma {:induction false} ReadsSeeLastWrite(s: Sys, evs: seq<Event>, p: Path)
    requires Initial(s) && Consistent(s.db) && FaithfulRun(s, evs) && NoCrossedSuccess(s, evs)
    ensures var t := Execute(s, evs);
            var expected := if LastWrite(s, evs, p).Some? then LastWrite(s, evs, p) else ReadById(s.db, p);
            && Consistent(t.db)
            && ReadById(t.db, p) == expected
            && (forall r :: MayReadLatest(t.db, p, r) <==> r == expected)
            && VersionCount(t.db, p) == VersionCount(s.db, p) + WritesTo(t.writers, p)
  {
    hide Consistent, Fire, Faithful, NoCrossedSuccess, Completes, ReadById, VersionCount, MayReadLatest, WritesTo;
    LinkedIff(s, evs);
    LinkedIfConsistent(Execute(s, evs).db);
    RoutesAgree(Execute(s, evs).db, p);
    if evs == [] {
      NoneCounted(s.writers, WroteTo(p));
      NoWritesYet(s.writers, p);
    } else {
      var n := |evs| - 1;
      PrefixKeepsNoCrossedSuccess(s, evs);
      ReadsSeeLastWrite(s, evs[..n], p);
      if Enabled(Execute(s, evs[..n]), evs[n]) {
        OneMoreEvent(s, evs, p);
      }
    }
  }

  lemma NoWritesYet(ws: seq<Writer>, p: Path)
    requires Count(ws, WroteTo(p)) == 0
    ensures WritesTo(ws, p) == 0
  {}

  lemma OneMoreEvent(s: Sys, evs: seq<Event>, p: Path)
    requires Initial(s) && Consistent(s.db) && FaithfulRun(s, evs) && NoCrossedSuccess(s, evs) && evs != []
    requires Enabled(Execute(s, evs[..|evs| - 1]), evs[|evs| - 1])
    ensures var before := Execute(s, evs[..|evs| - 1]);
            var ev := evs[|evs| - 1];
            var t := Fire(before, ev);
            && WritesTo(t.writers, p) == WritesTo(before.writers, p) + (if Completes(before, ev, p) then 1 else 0)
            && if Completes(before, ev, p) then
                 && ReadById(t.db, p) == Some(before.writers[ev.who].req.data)
                 && VersionCount(t.db, p) == VersionCount(before.db, p) + 1
               else SameFile(before.db, t.db, p)
  {
    hide Consistent, Step, Follows, OnOwnId, CompletesWrite, SameFile, ReadById, VersionCount, Count,
      Initial, NoCrossedSuccess, FaithfulRun;
    var n := |evs| - 1;
    var before := Execute(s, evs[..n]);
    var w := before.writers[evs[n].who];
    BeforeLastEvent(s, evs);
    FireCountsWrites(before, evs[n], p);
    StatementOnFile(before.db, w.pc, w.req, evs[n].env, evs[n].rowid, p);
  }

  /** Every path counts one version per successful write, exactly if no successful write was crossed. */
  lemma CountsAreRightIff(s: Sys, evs: seq<Event>)
    requires Initial(s) && Consistent(s.db) && FaithfulRun(s, evs)
    ensures CountsAreRight(s, Execute(s, evs)) <==> NoCrossedSuccess(s, evs)
  {
    hide Consistent, NoCrossedSuccess, FaithfulRun, VersionCount, WritesTo, ReadById, MayReadLatest;
    if NoCrossedSuccess(s, evs) {
      forall p
        ensures VersionCount(Execute(s, evs).db, p) == VersionCount(s.db, p) + WritesTo(Execute(s, evs).writers, p)
      {
        ReadsSeeLastWrite(s, evs, p);
      }
    } else {
      CrossedSuccessMiscounts(s, evs);
    }
  }

  // ----- runs in which no call is crossed -----

  predicate OrderlyRun(s: Sys, evs: seq<Event>)
  {
    FaithfulRun(s, evs) && forall i :: 0 <= i < |s.writers| ==> !Crossed(s, evs, i)
  }

  lemma OrderlyPrefix(s: Sys, evs: seq<Event>)
    requires evs != [] && OrderlyRun(s, evs)
    ensures OrderlyRun(s, evs[..|evs| - 1])
  {
    hide Fire, Faithful, Crosses;
    var rest := evs[..|evs| - 1];
    forall i | 0 <= i < |s.writers|
      ensures !Crossed(s, rest, i)
    {
      CrossedStays(s, evs, i);
    }
  }

  /** Every call works on the id of its own path. */
  predicate AllPlaced(s: Sys)
  {
    IdsIssued(s.db) && forall i :: 0 <= i < |s.writers| ==> Placed(s, s.writers[i], false)
  }

  lemma OrderlyRunPlaces(s: Sys, evs: seq<Event>)
    requires Initial(s) && Consistent(s.db) && OrderlyRun(s, evs)
    ensures AllPlaced(Execute(s, evs)) && NoCrossedSuccess(s, evs)
  {
    hide Consistent, Placed, IdsIssued, Crossed, FaithfulRun;
    LinkedIfConsistent(s.db);
    RunPlaces(s, evs);
  }

  predicate DistinctConnections(ws: seq<Writer>)
  {
    forall i, j :: 0 <= i < |ws| && 0 <= j < |ws| && ws[i].conn == ws[j].conn ==> i == j
  }

  predicate OneAtATime(ws: seq<Writer>)
  {
    forall i, j :: 0 <= i < |ws| && 0 <= j < |ws| && Active(ws[i]) && Active(ws[j]) ==> i == j
  }

  /** A call that has started and not returned. */
  predicate Active(w: Writer) { w.pc != Lookup && !Returned(w.pc) }

  /** At no moment of the run have two calls started and not returned. */
  predicate NeverOverlaps(s: Sys, evs: seq<Event>)
  {
    OneAtATime(Execute(s, evs).writers) && (evs == [] || NeverOverlaps(s, evs[..|evs| - 1]))
  }

  lemma {:induction false} ConnectionsAreFixed(s: Sys, evs: seq<Event>)
    ensures forall i :: 0 <= i < |s.writers| ==> Execute(s, evs).writers[i].conn == s.writers[i].conn
  {
    hide Step;
    if evs != [] {
      ConnectionsAreFixed(s, evs[..|evs| - 1]);
    }
  }

  lemma DisciplinedEvent(s: Sys, ev: Event, i: nat)
    requires Enabled(s, ev) && (DistinctConnections(s.writers) || OneAtATime(s.writers))
    ensures !Crosses(s, ev, i)
  {
    assert forall j :: 0 <= j < |s.writers| && (s.writers[j].pc.ReadRowid? || s.writers[j].pc.CreateId?) ==>
                         Active(s.writers[j]);
  }

  /** A connection per call, or one call at a time on shared connections: either way no call is ever crossed. */
  lemma {:induction false} UsualDisciplines(s: Sys, evs: seq<Event>)
    requires FaithfulRun(s, evs) && (DistinctConnections(s.writers) || NeverOverlaps(s, evs))
    ensures OrderlyRun(s, evs)
  {
    hide Fire, Faithful, Crosses;
    if evs != [] {
      var n := |evs| - 1;
      UsualDisciplines(s, evs[..n]);
      ConnectionsAreFixed(s, evs[..n]);
      forall i | 0 <= i < |s.writers|
        ensures !Crossed(s, evs, i)
      {
        assert !Crossed(s, evs[..n], i);
        if Enabled(Execute(s, evs[..n]), evs[n]) {
          DisciplinedEvent(Execute(s, evs[..n]), evs[n], i);
        }
      }
    }
  }
}
