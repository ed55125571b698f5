/** From the packer's input files to what a client of the migrated store reads. */
module EndToEnd {
  import opened Bytes
  import opened BundleCodec
  import opened BundleId
  import opened AssetPacker
  import opened Tables
  import opened FileStore
  import opened Migration
  import opened Connections

  // ----- rearranging entries does not change what they mean -----

  lemma {:induction false} OccurrencesConcat(a: seq<Entry>, b: seq<Entry>, p: Path)
    ensures Occurrences(a + b, p) == Occurrences(a, p) + Occurrences(b, p)
  {
    hide CString;
    if b == [] {
      assert a + b == a;
    } else {
      var n := |b| - 1;
      OccurrencesConcat(a, b[..n], p);
      assert (a + b)[..|a + b| - 1] == a + b[..n];
    }
  }

  /** Where the last entry of s stands in a rearrangement of s. */
  lemma FindLast(s: seq<Entry>, t: seq<Entry>) returns (k: nat)
    requires Rearranged(s, t) && s != []
    ensures k < |t| && t[k] == s[|s| - 1]
    ensures Rearranged(s[..|s| - 1], t[..k] + t[k + 1..])
    ensures t == t[..k + 1] + t[k + 1..] && t[..k + 1][..k] == t[..k]
  {
    var n := |s| - 1;
    assert s[n] in multiset(t);
    k :| 0 <= k < |t| && t[k] == s[n];
    assert s == s[..n] + [s[n]];
    assert t == t[..k] + [t[k]] + t[k + 1..];
    assert multiset(s[..n]) == multiset(s) - multiset{s[n]};
    assert multiset(t[..k] + t[k + 1..]) == multiset(t) - multiset{s[n]};
  }

  lemma SameLength(s: seq<Entry>, t: seq<Entry>)
    requires Rearranged(s, t)
    ensures |s| == |t|
  {
    assert |s| == |multiset(s)| == |multiset(t)| == |t|;
  }

  lemma {:induction false} OccurrencesRearranged(s: seq<Entry>, t: seq<Entry>, p: Path)
    requires Rearranged(s, t)
    ensures Occurrences(s, p) == Occurrences(t, p)
    decreases |s|
  {
    hide CString, Rearranged;
    SameLength(s, t);
    if s != [] {
      var k := FindLast(s, t);
      OccurrencesRearranged(s[..|s| - 1], t[..k] + t[k + 1..], p);
      OccurrencesConcat(t[..k], t[k + 1..], p);
      OccurrencesConcat(t[..k + 1], t[k + 1..], p);
    }
  }

  /** LastData answers with the data of an entry of that path, if there is one. */
  lemma {:induction false} LastDataIsAnEntry(es: seq<Entry>, p: Path)
    ensures LastData(es, p).Some? <==> exists i :: 0 <= i < |es| && CString(es[i].name) == p
    ensures LastData(es, p).Some? ==>
              exists i :: 0 <= i < |es| && CString(es[i].name) == p && LastData(es, p) == Some(es[i].data)
  {
    hide CString;
    if es != [] {
      var n := |es| - 1;
      LastDataIsAnEntry(es[..n], p);
      if CString(es[n].name) == p {
        assert LastData(es, p) == Some(es[n].data);
      } else if LastData(es, p).Some? {
        var i :| 0 <= i < n && CString(es[..n][i].name) == p && LastData(es[..n], p) == Some(es[..n][i].data);
        assert CString(es[i].name) == p && LastData(es, p) == Some(es[i].data);
      } else {
        assert forall i :: 0 <= i < n ==> CString(es[..n][i].name) != p && es[..n][i] == es[i];
      }
    }
  }

  /** What packing and migrating `files` must do to a store. */
  ghost predicate Deployed(before: Db, after: Db, files: seq<Entry>)
  {
    && Consistent(after)
    && (forall e :: e in files ==> ReadById(after, e.name) == Some(e.data))
    && (forall e :: e in files ==> forall r :: MayReadLatest(after, e.name, r) <==> r == Some(e.data))
    && (forall p :: VersionCount(after, p) == VersionCount(before, p) + Occurrences(files, p))
    && (forall p :: (forall e :: e in files ==> e.name != p) ==> SameFile(before, after, p))
  }

  lemma PackedFilesAreRead(files: seq<Entry>, sorted: seq<Entry>, e: Entry)
    requires Rearranged(files, sorted) && EqualPathsEqualData(files) && e in files
    requires forall f :: f in files ==> 0 !in f.name
    ensures LastData(sorted, e.name) == Some(e.data)
  {
    LastDataIsAnEntry(sorted, e.name);
    assert e in multiset(sorted);
    CStringOfPlainString(e.name);
    var k :| 0 <= k < |sorted| && sorted[k] == e;
    assert CString(sorted[k].name) == e.name;
    var i :| 0 <= i < |sorted| && CString(sorted[i].name) == e.name && LastData(sorted, e.name) == Some(sorted[i].data);
    assert sorted[i] in multiset(files);
    CStringOfPlainString(sorted[i].name);
    assert sorted[i] in files;
  }

  lemma OtherPathsAbsent(files: seq<Entry>, sorted: seq<Entry>, p: Path)
    requires Rearranged(files, sorted) && (forall f :: f in files ==> 0 !in f.name && f.name != p)
    ensures LastData(sorted, p).None? && Occurrences(files, p) == 0
  {
    LastDataIsAnEntry(sorted, p);
    forall i | 0 <= i < |sorted|
      ensures CString(sorted[i].name) != p
    {
      assert sorted[i] in multiset(files);
      assert sorted[i] in files;
      CStringOfPlainString(sorted[i].name);
    }
    NoOccurrence(files, p);
  }

  lemma {:induction false} NoOccurrence(files: seq<Entry>, p: Path)
    requires forall f :: f in files ==> 0 !in f.name && f.name != p
    ensures Occurrences(files, p) == 0
  {
    if files != [] {
      var n := |files| - 1;
      CStringOfPlainString(files[n].name);
      assert files[n] in files;
      NoOccurrence(files[..n], p);
    }
  }

  lemma AppliedIsDeployed(before: Db, after: Db, files: seq<Entry>, sorted: seq<Entry>, id: string)
    requires Consistent(before) && AllFit(sorted) && Rearranged(files, sorted)
    requires EqualPathsEqualData(files) && forall f :: f in files ==> 0 !in f.name
    requires Applied(before, after, id, Encode(sorted))
    ensures Deployed(before, after, files)
  {
    hide Consistent, ReadById, VersionCount, EqualPathsEqualData, Encode, Parse, TwoPhase, MayReadLatest,
      Rearranged, Occurrences, LastData;
    assert Encode(sorted) + [] == Encode(sorted);
    RoundTrip(sorted, []);
    var times :| TwoPhase(before, id, Encode(sorted), times) == Some(after);
    TimesMatch(before, id, Encode(sorted), times);
    TwoPhaseApplies(before, id, Encode(sorted), times);
    var applied := after.(migrations := before.migrations);
    RecordingIsInvisible(applied, after, []);
    LinkedIfConsistent(after);
    forall e | e in files
      ensures ReadById(after, e.name) == Some(e.data)
      ensures forall r :: MayReadLatest(after, e.name, r) <==> r == Some(e.data)
    {
      PackedFilesAreRead(files, sorted, e);
      RecordingIsInvisible(applied, after, e.name);
      RoutesAgree(after, e.name);
    }
    forall p
      ensures VersionCount(after, p) == VersionCount(before, p) + Occurrences(files, p)
    {
      RecordingIsInvisible(applied, after, p);
      OccurrencesRearranged(files, sorted, p);
    }
    forall p | forall e :: e in files ==> e.name != p
      ensures SameFile(before, after, p)
    {
      RecordingIsInvisible(applied, after, p);
      OtherPathsAbsent(files, sorted, p);
    }
  }

  lemma TimesMatch(db: Db, id: string, buf: seq<byte>, times: seq<int>)
    requires Parse(buf).Some? && TwoPhase(db, id, buf, times).Some?
    ensures |times| == |Parse(buf).value.0|
  {}

  // ----- compressors that meet the requirements -----

  /** However the sort orders the files, the compressed packing is a message SHA-256 is defined on. */
  ghost predicate PackingsAreHashable(z: Zlib, files: seq<Entry>)
  {
    forall s :: SortedArrangement(files, s) && AllFit(s) ==> 8 * |z.compress(Encode(s))| < TWO_TO_THE_64
  }

  function SizeOf(es: seq<Entry>): nat
  {
    if es == [] then 0 else SizeOf(es[..|es| - 1]) + 8 + |es[|es| - 1].name| + |es[|es| - 1].data|
  }

  lemma {:induction false} EncodedSize(es: seq<Entry>)
    requires forall i :: 0 <= i < |es| ==> Fits(es[i])
    ensures |EncodeEntries(es)| == SizeOf(es)
  {
    hide EncodeEntry;
    if es != [] {
      var n := |es| - 1;
      EncodedSize(es[..n]);
      EncodeAppend(es[..n], es[n]);
      assert es == es[..n] + [es[n]];
    }
  }

  lemma {:induction false} SizeOfConcat(a: seq<Entry>, b: seq<Entry>)
    ensures SizeOf(a + b) == SizeOf(a) + SizeOf(b)
  {
    if b == [] {
      assert a + b == a;
    } else {
      var n := |b| - 1;
      SizeOfConcat(a, b[..n]);
      assert (a + b)[..|a + b| - 1] == a + b[..n];
    }
  }

  lemma {:induction false} SizeRearranged(s: seq<Entry>, t: seq<Entry>)
    requires Rearranged(s, t)
    ensures SizeOf(s) == SizeOf(t)
    decreases |s|
  {
    hide Rearranged;
    SameLength(s, t);
    if s != [] {
      var k := FindLast(s, t);
      SizeRearranged(s[..|s| - 1], t[..k] + t[k + 1..]);
      SizeOfConcat(t[..k], t[k + 1..]);
      SizeOfConcat(t[..k + 1], t[k + 1..]);
    }
  }

  /** Storing without compression meets the requirements for every bundle that can itself be hashed. */
  lemma StoringIsLossless(files: seq<Entry>) returns (z: Zlib)
    requires AllFit(files) && 8 * |Encode(files)| < TWO_TO_THE_64
    ensures Lossless(z) && PackingsAreHashable(z, files)
  {
    hide EncodeEntries, Sorted, SizeOf;
    z := Zlib((x: seq<byte>) => x, (b: seq<byte>, capacity: nat) => if |b| <= capacity then Some(b) else None);
    EncodedSize(files);
    forall s | SortedArrangement(files, s) && AllFit(s)
      ensures 8 * |z.compress(Encode(s))| < TWO_TO_THE_64
    {
      SameLength(files, s);
      SizeRearranged(files, s);
      EncodedSize(s);
    }
  }

  // ----- the pipeline -----

  /**
   * Pack the files, compress, migrate. Whatever fails, the store either stays as it was or, if equal paths carry
   * equal data, every packed path reads back its exact bytes through either route, every other path is as before,
   * and each path gains one version per file packed under it. If no call fails, that happens exactly when the
   * store does not hold this bundle and the packing is at most ten times the compressed size.
   */
  method PackAndMigrate(bundle: Bundle, z: Zlib, c: Connection) returns (status: Status, blob: seq<byte>, ghost packing: seq<byte>)
    requires bundle.Valid() && Lossless(z) && PackingsAreHashable(z, bundle.Contents())
    requires c.Valid() && c.tx.None? && Consistent(c.disk)
    modifies c, bundle.entries
    ensures blob == z.compress(packing) && 8 * |blob| < TWO_TO_THE_64
    ensures bundle.Valid() && AllFit(bundle.Contents()) && packing == Encode(bundle.Contents())
    ensures Rearranged(old(bundle.Contents()), bundle.Contents()) && Sorted(bundle.Contents())
    ensures status == MigrateOk ==> IdOf(blob) !in old(c.disk).migrations && IdOf(blob) in c.disk.migrations
    ensures status == MigrateOk && EqualPathsEqualData(old(bundle.Contents())) ==>
              Deployed(old(c.disk), c.disk, old(bundle.Contents()))
    ensures status != MigrateOk ==> c.disk == old(c.disk)
    ensures old(c.Reliable()) ==>
              status == if |blob| == 0 then DbError
                        else if IdOf(blob) in old(c.disk).migrations then AlreadyApplied
                        else if |packing| > 10 * |blob| then DecompressError
                        else MigrateOk
  {
    hide IdOf, Encode, Parse, Consistent, Contiguous, EqualPathsEqualData, Deployed, Sorted;
    ghost var files := bundle.Contents();
    FilesArePlain(bundle);
    var packed := bundle.Pack();
    packing := packed[..];
    ghost var sorted := bundle.Contents();
    assert SortedArrangement(files, sorted) && AllFit(sorted);
    blob := z.compress(packed[..]);
    ghost var before := c.disk;
    assert packing + [] == packing;
    RoundTrip(sorted, []);
    assert Decompress(z, blob) == if |packing| <= 10 * |blob| then Some(packing) else None;
    ghost var commit: Option<nat>;
    status, commit := c.MigrateAssets(z, blob);
    if status == MigrateOk {
      AppliedOnce(before, c.disk, IdOf(blob), packing);
      if EqualPathsEqualData(files) {
        AppliedIsDeployed(before, c.disk, files, sorted, IdOf(blob));
      }
    }
  }

  lemma FilesArePlain(bundle: Bundle)
    requires bundle.Valid()
    ensures forall f :: f in bundle.Contents() ==> 0 !in f.name
  {}
}
