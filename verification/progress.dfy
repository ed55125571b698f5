/** Every interleaved call of overlay_fs_write returns, and what it returns if nothing of its own fails. */
module Progress {
  import opened Bytes
  import opened Tables
  import opened FileStore
  import opened Statements
  import opened WriteProtocol
  import opened Crossings
  import opened WriteOutcomes

  /** How many events of the run are turns of call i. */
  function Turns(evs: seq<Event>, i: nat): nat
  {
    if evs == [] then 0 else Turns(evs[..|evs| - 1], i) + if evs[|evs| - 1].who == i then 1 else 0
  }

  /** A turn of a call that has not returned is one statement less to go. */
  lemma TurnCounts(s: Sys, ev: Event)
    requires Enabled(s, ev)
    ensures var before, after := StepsLeft(s.writers[ev.who].pc), StepsLeft(Fire(s, ev).writers[ev.who].pc);
            if before == 0 then after == 0 else after < before
  {
    hide MaxOrZero, InsertVersion;
  }

  /** Whatever the others do and whatever fails: four turns of its own, and a call has returned. */
  lemma {:induction false} FourTurnsSuffice(s: Sys, evs: seq<Event>, i: nat)
    requires Initial(s) && i < |s.writers|
    ensures var pc := Execute(s, evs).writers[i].pc;
            && (StepsLeft(pc) == 0 || StepsLeft(pc) + Turns(evs, i) <= 4)
            && (Turns(evs, i) >= 4 ==> Returned(pc))
  {
    hide Step;
    if evs != [] {
      var n := |evs| - 1;
      FourTurnsSuffice(s, evs[..n], i);
      if evs[n].who == i {
        TurnCounts(Execute(s, evs[..n]), evs[n]);
      }
    }
  }

  // ----- a call whose own calls do not fail -----

  /** The event at which a call that has failed did so. */
  lemma {:induction false} WhenFailed(s: Sys, evs: seq<Event>, n: nat, i: nat) returns (m: nat)
    requires Initial(s) && i < |s.writers| && n <= |evs| && StateAt(s, evs, n).writers[i].pc == Failed
    ensures m < n && evs[m].who == i
    ensures StateAt(s, evs, m).writers[i].pc != Failed && StateAt(s, evs, m + 1).writers[i].pc == Failed
  {
    hide Step;
    assert n > 0;
    StateStep(s, evs, n - 1);
    if StateAt(s, evs, n - 1).writers[i].pc == Failed {
      m := WhenFailed(s, evs, n - 1, i);
    } else {
      m := n - 1;
    }
  }

  /**
   * Any interleaving: after four turns a call that was not crossed, and none of whose SQLite calls failed, has
   * returned 0, or another call overtook it.
   */
  lemma ReturnsZeroOrOvertaken(s: Sys, evs: seq<Event>, i: nat)
    requires Initial(s) && Consistent(s.db) && i < |s.writers| && UncrossedRun(s, evs, i) && Turns(evs, i) >= 4
    requires forall k :: 0 <= k < |evs| && evs[k].who == i ==> evs[k].env.outcome.Runs?
    ensures Execute(s, evs).writers[i].pc.Wrote? || exists m :: 0 <= m < |evs| && Overtakes(s, evs, m, i)
  {
    hide Consistent, Execute, UncrossedRun, Turns, Overtakes;
    FourTurnsSuffice(s, evs, i);
    if Execute(s, evs).writers[i].pc == Failed {
      assert evs[..|evs|] == evs;
      var n := WhenFailed(s, evs, |evs|, i);
      var r, m := LosingMeansOvertaken(s, evs, n, i);
    }
  }

  // ----- a call on its own -----

  /** The state of the call's own run that matches the interleaved machine after these turns. */
  lemma {:induction false} AloneSoFar(s: Sys, evs: seq<Event>, i: nat, rowid: int, world: World) returns (r: Run)
    requires Initial(s) && i < |s.writers| && FaithfulRun(s, evs)
    requires forall k :: 0 <= k < |evs| ==> evs[k].who == i && world(k) == evs[k].env
    ensures var t, w := Execute(s, evs), Execute(s, evs).writers[i];
            && t.db == r.db && w.pc == r.pc && w.req == s.writers[i].req && w.conn == s.writers[i].conn
            && (r.pc.ReadRowid? ==> w.conn in t.last && t.last[w.conn] == r.rowid)
    ensures !Returned(r.pc) ==> r.tick == |evs|
    ensures RunWrite(r, s.writers[i].req, world) == WriteRun(s.db, rowid, 0, s.writers[i].req, world)
  {
    hide Step, RunWrite;
    var req := s.writers[i].req;
    if evs == [] {
      r := Run(s.db, rowid, 0, Lookup);
    } else {
      var n := |evs| - 1;
      var q := AloneSoFar(s, evs[..n], i, rowid, world);
      Unroll(q, req, world);
      RowidMatters(q.db, q.pc, req, evs[n].env, evs[n].rowid, q.rowid);
      r := if Returned(q.pc) then q else Next(q, req, world);
    }
  }

  /** Four turns of one call and of no other, with any failures, end as the run of overlay_fs_write ends. */
  lemma AloneIsWriteRun(s: Sys, evs: seq<Event>, i: nat, rowid: int, world: World)
    requires Initial(s) && i < |s.writers| && FaithfulRun(s, evs) && |evs| >= 4
    requires forall k :: 0 <= k < |evs| ==> evs[k].who == i && world(k) == evs[k].env
    ensures var r := WriteRun(s.db, rowid, 0, s.writers[i].req, world);
            Execute(s, evs).db == r.db && Execute(s, evs).writers[i].pc == r.pc
  {
    hide FaithfulRun, RunWrite;
    var r := AloneSoFar(s, evs, i, rowid, world);
    AllTurns(evs, i);
    FourTurnsSuffice(s, evs, i);
    Unroll(r, s.writers[i].req, world);
  }

  lemma {:induction false} AllTurns(evs: seq<Event>, i: nat)
    requires forall k :: 0 <= k < |evs| ==> evs[k].who == i
    ensures Turns(evs, i) == |evs|
  {
    if evs != [] {
      AllTurns(evs[..|evs| - 1], i);
    }
  }
}
