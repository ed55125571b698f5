/** A run in which two calls share a connection, nothing fails, and a successful write is lost to its path. */
module Sharing {
  import opened Bytes
  import opened Tables
  import opened FileStore
  import opened WriteProtocol
  import opened Crossings

  const PATH_A: Path := [97]
  const PATH_B: Path := [98]

  /** The n-th state of a run in which two calls on connection 0 create files a and b. */
  function Shared(n: nat): Sys
  {
    var ids1, ids2 := map[PATH_A := FileId(1)], map[PATH_A := FileId(1), PATH_B := FileId(2)];
    var db0 := EMPTY;
    var db1 := db0.(ids := ids1, seqNo := 1);
    var db2 := db0.(ids := ids2, seqNo := 2);
    var row := NewRow(Request(PATH_A, [1]), 0);
    var db3 := db2.(versions := map[Key(FileId(2), 1) := row], meta := map[FileId(2) := MetaRow(PATH_A, 1, 0, 1)]);
    if n == 0 then Sys(db0, map[], Both(Lookup, Lookup))
    else if n == 1 then Sys(db0, map[], Both(CreateId, Lookup))
    else if n == 2 then Sys(db1, map[0 := 1], Both(ReadRowid, Lookup))
    else if n == 3 then Sys(db1, map[0 := 1], Both(ReadRowid, CreateId))
    else if n == 4 then Sys(db2, map[0 := 2], Both(ReadRowid, ReadRowid))
    else if n == 5 then Sys(db2, map[0 := 2], Both(InsertRow(FileId(2), 1), ReadRowid))
    else Sys(db3, map[0 := 2], Both(Wrote(Key(FileId(2), 1)), ReadRowid))
  }

  function Both(pcA: Pc, pcB: Pc): seq<Writer>
  {
    [Writer(Request(PATH_A, [1]), 0, pcA), Writer(Request(PATH_B, [2]), 0, pcB)]
  }

  function SharedEvent(n: nat): Event
  {
    Event(if n == 2 || n == 3 then 1 else 0, Env(Runs, 0), if n == 4 then 2 else 0)
  }

  lemma SharedStep(n: nat)
    requires n < 6
    ensures Enabled(Shared(n), SharedEvent(n)) && Faithful(Shared(n), SharedEvent(n))
    ensures Fire(Shared(n), SharedEvent(n)) == Shared(n + 1)
  {}

  lemma {:induction false} SharedRunTo(n: nat)
    requires n <= 6
    ensures var evs := seq(n, i requires 0 <= i => SharedEvent(i));
            Execute(Shared(0), evs) == Shared(n) && FaithfulRun(Shared(0), evs)
  {
    hide Shared, SharedEvent, Fire, Faithful;
    if n > 0 {
      var evs := seq(n, i requires 0 <= i => SharedEvent(i));
      assert evs[..n - 1] == seq(n - 1, i requires 0 <= i => SharedEvent(i));
      SharedRunTo(n - 1);
      SharedStep(n - 1);
    }
  }

  /**
   * No call of this run fails and every rowid is faithful, yet the first write, which returned 0, cannot be
   * read back by its path: its row went under the id of the other file.
   */
  lemma SharingMixesFiles() returns (s: Sys, evs: seq<Event>)
    ensures Initial(s) && s.db == EMPTY && FaithfulRun(s, evs)
    ensures forall i :: 0 <= i < |evs| ==> evs[i].env.outcome.Runs?
    ensures var t := Execute(s, evs);
            && |s.writers| == 2 && t.writers[0].req == Request(PATH_A, [1]) && t.writers[0].pc.Wrote?
            && ReadById(t.db, PATH_A) == None
            && ReadById(t.db, PATH_B) == Some([1])
            && MayReadLatest(t.db, PATH_A, Some([1]))
  {
    hide MayReadLatest, ReadById, Fire, Faithful, FaithfulRun;
    s, evs := Shared(0), seq(6, i requires 0 <= i => SharedEvent(i));
    SharedRunTo(6);
    MixedReads(Shared(6).db);
  }

  lemma MixedReads(db: Db)
    requires db.ids == map[PATH_A := FileId(1), PATH_B := FileId(2)]
    requires db.versions == map[Key(FileId(2), 1) := NewRow(Request(PATH_A, [1]), 0)]
    ensures ReadById(db, PATH_A) == None && ReadById(db, PATH_B) == Some([1])
    ensures MayReadLatest(db, PATH_A, Some([1]))
  {
    MaxIs(db.versions, FileId(2), 1);
    assert FileId(2) in LatestOf(db, PATH_A);
  }
}
