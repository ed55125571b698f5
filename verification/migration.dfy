/** What migrating an asset bundle means: parse the whole bundle, then append every entry, or do nothing. */
module Migration {
  import opened Bytes
  import opened BundleCodec
  import opened Tables
  import opened FileStore

  /** migrate_status_t */
  datatype Status = MigrateOk | DecompressError | DbError | AlreadyApplied | Corrupt

  /** zlib, as far as the pipeline relies on it. uncompress takes the capacity of its output buffer. */
  datatype Zlib = Zlib(compress: seq<byte> -> seq<byte>, uncompress: (seq<byte>, nat) -> Option<seq<byte>>)

  ghost predicate Lossless(z: Zlib)
  {
    forall x: seq<byte>, capacity: nat ::
      z.uncompress(z.compress(x), capacity) == if |x| <= capacity then Some(x) else None
  }

  /** The output buffer holds ten times the compressed size, and there is no second attempt. */
  function Decompress(z: Zlib, blob: seq<byte>): Option<seq<byte>>
  {
    z.uncompress(blob, 10 * |blob|)
  }

  /** The name is bound as a C string, so an embedded NUL ends it. */
  function RequestOf(e: Entry): Request { Request(CString(e.name), e.data) }

  /** The entries appended one after the other, each stamped with a clock reading. */
  function ApplyAll(db: Db, es: seq<Entry>, times: seq<int>): Option<Db>
    requires |es| == |times|
  {
    if es == [] then Some(db)
    else
      var n := |es| - 1;
      match ApplyAll(db, es[..n], times[..n])
      case None => None
      case Some(before) => Append(before, RequestOf(es[n]), times[n])
  }

  /** INSERT INTO migrations; None is a primary key violation. */
  function Record(db: Db, id: string, entries: nat): Option<Db>
  {
    if id in db.migrations then None else Some(db.(migrations := db.migrations[id := entries]))
  }

  /** The two-phase reference: nothing is applied unless the whole bundle parses. */
  function TwoPhase(db: Db, id: string, buf: seq<byte>, times: seq<int>): Option<Db>
  {
    match Parse(buf)
    case None => None
    case Some((es, _)) =>
      if |times| != |es| then None
      else
        match ApplyAll(db, es, times)
        case None => None
        case Some(after) => Record(after, id, |es|)
  }

  ghost predicate Applied(before: Db, after: Db, id: string, buf: seq<byte>)
  {
    exists times :: TwoPhase(before, id, buf, times) == Some(after)
  }

  // ----- what an applied bundle does to a store -----

  lemma ApplyAllSnoc(db: Db, es: seq<Entry>, times: seq<int>, e: Entry, now: int)
    requires |es| == |times|
    ensures ApplyAll(db, es + [e], times + [now]) ==
            match ApplyAll(db, es, times)
            case None => None
            case Some(before) => Append(before, RequestOf(e), now)
  {
    var n := |es|;
    assert (es + [e])[..n] == es && (times + [now])[..n] == times;
  }

  /** How often a path is written by a bundle. */
  function Occurrences(es: seq<Entry>, p: Path): nat
  {
    if es == [] then 0
    else Occurrences(es[..|es| - 1], p) + if CString(es[|es| - 1].name) == p then 1 else 0
  }

  /** The bytes the last entry for a path carries. */
  function LastData(es: seq<Entry>, p: Path): Option<seq<byte>>
  {
    if es == [] then None
    else if CString(es[|es| - 1].name) == p then Some(es[|es| - 1].data)
    else LastData(es[..|es| - 1], p)
  }

  /** The client's view of an applied sequence of entries. */
  ghost predicate AppliedTo(db: Db, after: Db, es: seq<Entry>)
  {
    && Consistent(after)
    && (forall p :: VersionCount(after, p) == VersionCount(db, p) + Occurrences(es, p))
    && (forall p :: ReadById(after, p) == if LastData(es, p).Some? then LastData(es, p) else ReadById(db, p))
    && (forall k :: k in db.versions ==> k in after.versions && after.versions[k] == db.versions[k])
    && |after.versions| == |db.versions| + |es|
    && after.migrations == db.migrations
  }

  lemma {:induction false} ApplyAllDoesItsJob(db: Db, es: seq<Entry>, times: seq<int>)
    requires Consistent(db) && |es| == |times|
    ensures ApplyAll(db, es, times).Some?
    ensures AppliedTo(db, ApplyAll(db, es, times).value, es)
  {
    hide Consistent, ReadById, VersionCount;
    if es != [] {
      var n := |es| - 1;
      ApplyAllDoesItsJob(db, es[..n], times[..n]);
      var before := ApplyAll(db, es[..n], times[..n]).value;
      AppendDoesItsJob(before, RequestOf(es[n]), times[n]);
      OneMoreEntry(db, before, es, times[n]);
    }
  }

  lemma OneMoreEntry(db: Db, before: Db, es: seq<Entry>, now: int)
    requires es != [] && AppliedTo(db, before, es[..|es| - 1])
    ensures var r := Append(before, RequestOf(es[|es| - 1]), now);
            r.Some? && AppliedTo(db, r.value, es)
  {
    hide Consistent, ReadById, VersionCount, CString, Append;
    var e := es[|es| - 1];
    AppendDoesItsJob(before, RequestOf(e), now);
    var after := Append(before, RequestOf(e), now).value;
    forall p
      ensures VersionCount(after, p) == VersionCount(db, p) + Occurrences(es, p)
      ensures ReadById(after, p) == if LastData(es, p).Some? then LastData(es, p) else ReadById(db, p)
    {
      if p != CString(e.name) {
        assert SameFile(before, after, p);
      }
    }
  }

  /** A bundle that parses applies to every consistent store that does not hold its id yet. */
  lemma TwoPhaseApplies(db: Db, id: string, buf: seq<byte>, times: seq<int>)
    requires Consistent(db) && Parse(buf).Some? && |times| == |Parse(buf).value.0|
    ensures TwoPhase(db, id, buf, times).Some? <==> id !in db.migrations
    ensures id !in db.migrations ==>
              var es := Parse(buf).value.0;
              var after := TwoPhase(db, id, buf, times).value;
              && AppliedTo(db, after.(migrations := db.migrations), es)
              && after.migrations == db.migrations[id := |es|]
  {
    hide AppliedTo, Consistent, Append, Parse;
    var es := Parse(buf).value.0;
    ApplyAllDoesItsJob(db, es, times);
    AppliedKeepsMigrations(db, ApplyAll(db, es, times).value, es);
    if id !in db.migrations {
      var applied := ApplyAll(db, es, times).value;
      assert TwoPhase(db, id, buf, times).value.(migrations := db.migrations) == applied;
    }
  }

  lemma AppliedKeepsMigrations(db: Db, after: Db, es: seq<Entry>)
    requires AppliedTo(db, after, es)
    ensures after.migrations == db.migrations
  {}

  lemma RecordingIsInvisible(applied: Db, after: Db, p: Path)
    requires applied == after.(migrations := applied.migrations)
    ensures ReadById(after, p) == ReadById(applied, p) && VersionCount(after, p) == VersionCount(applied, p)
    ensures Consistent(after) <==> Consistent(applied)
  {
    hide MaxVersion, Contiguous, LatestView;
  }

  // ----- how many calls a migration makes -----

  /** Those for one entry: the name string, and a write. */
  function EntryCalls(db: Db, e: Entry): nat { 1 + WriteCalls(db, CString(e.name)) }

  function EntriesCalls(db: Db, es: seq<Entry>): nat
  {
    if es == [] then 0
    else
      var n := |es| - 1;
      var p := CString(es[n].name);
      EntriesCalls(db, es[..n]) + if p in db.ids || Occurrences(es[..n], p) > 0 then 4 else 5
  }

  lemma {:induction false} IdsAfterAll(db: Db, es: seq<Entry>, times: seq<int>, p: Path)
    requires |es| == |times|
    ensures var r := ApplyAll(db, es, times);
            r.Some? ==> (p in r.value.ids <==> p in db.ids || Occurrences(es, p) > 0)
  {
    hide MaxOrZero, UpsertIfNewer, CString;
    if es != [] {
      IdsAfterAll(db, es[..|es| - 1], times[..|es| - 1], p);
    }
  }

  lemma CallsForNext(db: Db, es: seq<Entry>, times: seq<int>, e: Entry)
    requires |es| == |times| && ApplyAll(db, es, times).Some?
    ensures EntriesCalls(db, es + [e]) ==
            EntriesCalls(db, es) + EntryCalls(ApplyAll(db, es, times).value, e)
  {
    hide ApplyAll, CString;
    IdsAfterAll(db, es, times, CString(e.name));
    assert (es + [e])[..|es|] == es;
  }

  lemma CallsForOneMore(db: Db, es: seq<Entry>, e: Entry)
    ensures EntriesCalls(db, es) <= EntriesCalls(db, es + [e])
  {
    hide CString, Occurrences;
    assert (es + [e])[..|es|] == es;
  }

  lemma {:induction false} CallsGrow(db: Db, a: seq<Entry>, b: seq<Entry>)
    ensures EntriesCalls(db, a) <= EntriesCalls(db, a + b)
  {
    hide EntriesCalls;
    if b == [] {
      assert a + b == a;
    } else {
      var n := |b| - 1;
      CallsGrow(db, a, b[..n]);
      CallsForOneMore(db, a + b[..n], b[n]);
      assert a + b[..n] + [b[n]] == a + b;
    }
  }

  // ----- what holds of any store, consistent or not -----

  lemma AppendAddsOneRow(db: Db, req: Request, now: int)
    ensures var r := Append(db, req, now);
            r.Some? ==> && |r.value.versions| == |db.versions| + 1 && Extends(db.versions, r.value.versions)
                        && r.value.migrations == db.migrations
  {
    hide MaxOrZero, UpsertIfNewer;
  }

  lemma {:induction false} ApplyAllAddsRows(db: Db, es: seq<Entry>, times: seq<int>)
    requires |es| == |times|
    ensures var r := ApplyAll(db, es, times);
            r.Some? ==> && |r.value.versions| == |db.versions| + |es| && Extends(db.versions, r.value.versions)
                        && r.value.migrations == db.migrations
  {
    hide Append;
    if es != [] {
      var n := |es| - 1;
      ApplyAllAddsRows(db, es[..n], times[..n]);
      if ApplyAll(db, es[..n], times[..n]).Some? {
        AppendAddsOneRow(ApplyAll(db, es[..n], times[..n]).value, RequestOf(es[n]), times[n]);
      }
    }
  }

  /** No path loses or changes its id. */
  ghost predicate KeepsIds(a: Db, b: Db)
  {
    forall p :: p in a.ids ==> p in b.ids && b.ids[p] == a.ids[p]
  }

  lemma {:induction false} ApplyAllKeepsIds(db: Db, es: seq<Entry>, times: seq<int>)
    requires |es| == |times|
    ensures ApplyAll(db, es, times).Some? ==> KeepsIds(db, ApplyAll(db, es, times).value)
  {
    hide MaxOrZero, UpsertIfNewer;
    if es != [] {
      ApplyAllKeepsIds(db, es[..|es| - 1], times[..|es| - 1]);
    }
  }

  lemma {:induction false} ApplyAllKeepsContiguous(db: Db, es: seq<Entry>, times: seq<int>)
    requires Contiguous(db.versions) && |es| == |times|
    ensures ApplyAll(db, es, times).Some? ==> Contiguous(ApplyAll(db, es, times).value.versions)
  {
    hide Contiguous;
    if es != [] {
      var n := |es| - 1;
      ApplyAllKeepsContiguous(db, es[..n], times[..n]);
      if ApplyAll(db, es[..n], times[..n]).Some? {
        AppendKeepsContiguous(ApplyAll(db, es[..n], times[..n]).value, RequestOf(es[n]), times[n]);
      }
    }
  }

  /** An id is recorded by the migration that applies its bundle, and was not there before. */
  lemma AppliedOnce(before: Db, after: Db, id: string, buf: seq<byte>)
    requires Applied(before, after, id, buf)
    ensures id !in before.migrations && id in after.migrations
  {
    hide ApplyAll, Parse;
    var times :| TwoPhase(before, id, buf, times) == Some(after);
    ApplyAllAddsRows(before, Parse(buf).value.0, times);
  }
}
