/** asset_packer.c: a bundle of files, sorted in place and packed through a moving pointer. */
module AssetPacker {
  import opened Bytes
  import opened BundleCodec

  const MAX_FILE_SIZE: nat := 100 * 1024 * 1024

  // ----- the order of the sort -----

  /** strcmp on NUL-free strings: bytes compare unsigned, and the terminating NUL is below every byte. */
  function Strcmp(a: seq<byte>, b: seq<byte>): int
  {
    if a == [] then (if b == [] then 0 else -1)
    else if b == [] then 1
    else if a[0] != b[0] then (if a[0] < b[0] then -1 else 1)
    else Strcmp(a[1..], b[1..])
  }

  predicate Greater(x: Entry, y: Entry) { Strcmp(x.name, y.name) > 0 }

  predicate Leq(x: Entry, y: Entry) { !Greater(x, y) }

  lemma {:induction false} StrcmpTotal(a: seq<byte>, b: seq<byte>)
    ensures Strcmp(a, b) == -Strcmp(b, a)
    ensures Strcmp(a, b) == 0 <==> a == b
  {
    if a != [] && b != [] && a[0] == b[0] {
      StrcmpTotal(a[1..], b[1..]);
      assert a == [a[0]] + a[1..] && b == [b[0]] + b[1..];
    }
  }

  lemma {:induction false} StrcmpTransitive(a: seq<byte>, b: seq<byte>, c: seq<byte>)
    requires Strcmp(a, b) <= 0 && Strcmp(b, c) <= 0
    ensures Strcmp(a, c) <= 0
  {
    if a != [] && b != [] && c != [] && a[0] == b[0] == c[0] {
      StrcmpTransitive(a[1..], b[1..], c[1..]);
    }
  }

  /** They agree before position i, where a ends or has the smaller byte. */
  predicate BelowAt(a: seq<byte>, b: seq<byte>, i: nat)
  {
    i <= |a| && i < |b| && (forall k :: 0 <= k < i ==> a[k] == b[k]) && (i == |a| || a[i] < b[i])
  }

  /** A proper prefix, or smaller at the first difference. */
  ghost predicate Below(a: seq<byte>, b: seq<byte>) { exists i :: BelowAt(a, b, i) }

  lemma BelowAfterSameByte(a: seq<byte>, b: seq<byte>)
    requires a != [] && b != [] && a[0] == b[0]
    ensures Below(a[1..], b[1..]) <==> Below(a, b)
  {
    if i: nat :| BelowAt(a, b, i) {
      assert BelowAt(a[1..], b[1..], i - 1);
    }
    if i: nat :| BelowAt(a[1..], b[1..], i) {
      assert forall k :: 0 < k < i + 1 ==> a[k] == a[1..][k - 1] && b[k] == b[1..][k - 1];
      assert BelowAt(a, b, i + 1);
    }
  }

  lemma {:induction false} StrcmpIsLexicographic(a: seq<byte>, b: seq<byte>)
    ensures Strcmp(a, b) < 0 <==> Below(a, b)
  {
    if a != [] && b != [] && a[0] == b[0] {
      StrcmpIsLexicographic(a[1..], b[1..]);
      BelowAfterSameByte(a, b);
    } else if b != [] {
      assert BelowAt(a, b, 0) <==> a == [] || a[0] < b[0];
    }
  }

  predicate Sorted(es: seq<Entry>)
  {
    forall i, j :: 0 <= i < j < |es| ==> Leq(es[i], es[j])
  }

  // ----- the bundle -----

  /** An entry the packer can hold: the path is a C string and the file is not too large. */
  predicate Packable(e: Entry)
  {
    0 !in e.name && |e.name| < TWO_TO_THE_32 && |e.data| <= MAX_FILE_SIZE
  }

  /** A file argument of the packer and what reading the file gave. */
  datatype Input = Input(path: seq<byte>, file: Option<seq<byte>>)

  const JS_MAP: seq<byte> := [46, 106, 115, 46, 109, 97, 112]     // ".js.map"

  /** should_skip_file */
  predicate ShouldSkip(path: seq<byte>)
  {
    |path| >= |JS_MAP| && path[|path| - |JS_MAP|..] == JS_MAP
  }

  const DASH: byte := 45

  /** An argument the loop of main passes over: an option by its first character, or a source map. */
  predicate Skipped(path: seq<byte>) { (path != [] && path[0] == DASH) || ShouldSkip(path) }

  /** Which arguments are passed over: exactly options, and paths that are a stem followed by ".js.map". */
  lemma SkippedIff(path: seq<byte>)
    ensures Skipped(path) <==>
            ([45] <= path) || exists stem: seq<byte> :: path == stem + [46, 106, 115, 46, 109, 97, 112]
  {
    if ShouldSkip(path) {
      assert path == path[..|path| - 7] + [46, 106, 115, 46, 109, 97, 112];
    }
    if stem: seq<byte> :| path == stem + [46, 106, 115, 46, 109, 97, 112] {
      assert path[|path| - 7..] == [46, 106, 115, 46, 109, 97, 112];
    }
  }

  predicate Loadable(a: Input) { Skipped(a.path) || (a.file.Some? && |a.file.value| <= MAX_FILE_SIZE) }

  /** A file that can be read is refused exactly if it has more than 104857600 bytes. */
  lemma LargeFilesAreRefused(path: seq<byte>, data: seq<byte>)
    requires !Skipped(path)
    ensures Loadable(Input(path, Some(data))) <==> |data| <= 104_857_600
  {}

  /** What an argument that can be loaded contributes. */
  function KeptOf(a: Input): seq<Entry>
  {
    if Skipped(a.path) || a.file.None? then [] else [Entry(a.path, a.file.value)]
  }

  /** The entries of the arguments that are not skipped, in order. */
  function Kept(args: seq<Input>): seq<Entry>
  {
    if args == [] then [] else Kept(args[..|args| - 1]) + KeptOf(args[|args| - 1])
  }

  lemma {:induction false} KeptGrows(args: seq<Input>, k: nat)
    requires k <= |args|
    ensures |Kept(args[..k])| <= |Kept(args)|
  {
    hide KeptOf;
    if k < |args| {
      KeptGrows(args[..|args| - 1], k);
      assert args[..|args| - 1][..k] == args[..k];
    } else {
      assert args[..k] == args;
    }
  }

  lemma NothingKept(args: seq<Input>)
    ensures Kept(args[..0]) == []
  {}

  lemma KeptNext(args: seq<Input>, i: nat)
    requires i < |args|
    ensures Kept(args[..i + 1]) == Kept(args[..i]) + KeptOf(args[i])
  {
    hide KeptOf;
    assert args[..i + 1][..i] == args[..i];
  }

  predicate Rearranged(s: seq<Entry>, t: seq<Entry>) { multiset(s) == multiset(t) }

  class Bundle {
    const entries: array<Entry>
    var count: nat

    ghost predicate Valid()
      reads this, entries
    {
      && count <= entries.Length < TWO_TO_THE_32
      && forall i :: 0 <= i < count ==> Packable(entries[i])
    }

    ghost function Contents(): seq<Entry>
      reads this, entries
      requires count <= entries.Length
    {
      entries[..count]
    }

    /** bundle_init */
    constructor (capacity: nat)
      requires capacity < TWO_TO_THE_32
      ensures Valid() && Contents() == [] && entries.Length == capacity && fresh(entries)
    {
      entries := new Entry[capacity](_ => Entry([], []));
      count := 0;
    }

    /** bundle_add_file; `file` is what opening, sizing and reading the file gave, None if any of it failed. */
    method AddFile(path: seq<byte>, file: Option<seq<byte>>) returns (rc: int)
      requires Valid() && 0 !in path && |path| < TWO_TO_THE_32
      modifies this, entries
      ensures Valid()
      ensures rc == if old(count) < entries.Length && file.Some? && |file.value| <= MAX_FILE_SIZE then 0 else -1
      ensures Contents() == old(Contents()) + if rc == 0 then [Entry(path, file.value)] else []
    {
      if count >= entries.Length {
        return -1;
      }
      if file.None? {
        return -1;
      }
      if |file.value| > MAX_FILE_SIZE {
        return -1;
      }
      entries[count] := Entry(path, file.value);
      count := count + 1;
      return 0;
    }

    /** One turn of the loop of main over the arguments. */
    method AddArgument(a: Input) returns (rc: int)
      requires Valid() && 0 !in a.path && |a.path| < TWO_TO_THE_32
      modifies this, entries
      ensures Valid()
      ensures rc == if Loadable(a) && |old(Contents())| + |KeptOf(a)| <= entries.Length then 0 else -1
      ensures Contents() == old(Contents()) + if rc == 0 then KeptOf(a) else []
    {
      hide ShouldSkip, Packable;
      if Skipped(a.path) {
        return 0;
      }
      rc := AddFile(a.path, a.file);
    }

    /**
     * The loop of main over its arguments: it stops with an error at the first file that cannot be loaded or for
     * which there is no room, and `taken` counts the arguments before it.
     */
    method AddAll(args: seq<Input>) returns (rc: int, taken: nat)
      requires Valid() && forall i :: 0 <= i < |args| ==> 0 !in args[i].path && |args[i].path| < TWO_TO_THE_32
      modifies this, entries
      ensures Valid() && taken <= |args|
      ensures rc == if (forall i :: 0 <= i < |args| ==> Loadable(args[i]))
                       && |old(Contents())| + |Kept(args)| <= entries.Length then 0 else -1
      ensures rc == 0 <==> taken == |args|
      ensures Contents() == old(Contents()) + Kept(args[..taken])
    {
      hide Kept, KeptOf, Loadable, Packable;
      NothingKept(args);
      taken := 0;
      while taken < |args|
        invariant 0 <= taken <= |args| && Valid()
        invariant forall j :: 0 <= j < taken ==> Loadable(args[j])
        invariant Contents() == old(Contents()) + Kept(args[..taken])
      {
        KeptNext(args, taken);
        KeptGrows(args, taken + 1);
        rc := AddArgument(args[taken]);
        if rc != 0 {
          return;
        }
        taken := taken + 1;
      }
      assert args[..taken] == args;
      rc := 0;
    }

    /** What the call of qsort promises: some sorted rearrangement of the entries, no more. */
    method Sort()
      requires Valid()
      modifies entries
      ensures Valid() && Sorted(Contents())
      ensures Rearranged(old(Contents()), Contents())
    {
      var n := 0;
      while n < count
        invariant 0 <= n <= count
        invariant Sorted(entries[..n])
        invariant Rearranged(old(entries[..count]), entries[..count])
      {
        InsertLast(n);
        n := n + 1;
      }
      PackableIsOfElements(old(entries[..count]), entries[..count]);
      assert forall i :: 0 <= i < count ==> entries[i] == entries[..count][i];
    }

    method SwapDown(i: nat)
      requires 0 < i < count <= entries.Length
      modifies entries
      ensures var t := old(entries[..count]);
              entries[..count] == t[i - 1 := t[i]][i := t[i - 1]]
    {
      entries[i - 1], entries[i] := entries[i], entries[i - 1];
    }

    /** Swaps entries[n] down past the greater entries before it, to position i. */
    method Sink(n: nat) returns (i: nat)
      requires n < count <= entries.Length
      modifies entries
      ensures i <= n
      ensures var s := old(entries[..count]);
              && entries[..count] == Moved(s, i, n)
              && Rearranged(s, Moved(s, i, n))
              && (forall k :: i <= k < n ==> Greater(s[k], s[n]))
              && (i > 0 ==> !Greater(s[i - 1], s[n]))
    {
      hide Greater, Moved, Rearranged;
      ghost var s := entries[..count];
      i := n;
      NothingMoved(s, n);
      while i > 0 && Greater(entries[..count][i - 1], entries[..count][i])
        invariant 0 <= i <= n
        invariant entries[..count] == Moved(s, i, n)
        invariant Rearranged(s, Moved(s, i, n))
        invariant forall k :: i <= k < n ==> Greater(s[k], s[n])
      {
        MovedAround(s, i, n);
        SwapDown(i);
        i := i - 1;
      }
      MovedAround(s, i, n);
    }

    /** Moves entries[n] down to its place among the sorted entries before it. */
    method InsertLast(n: nat)
      requires n < count <= entries.Length && Sorted(entries[..n])
      modifies entries
      ensures Sorted(entries[..n + 1])
      ensures Rearranged(old(entries[..count]), entries[..count])
    {
      hide Greater, Moved, Rearranged, Sorted;
      ghost var s := entries[..count];
      assert s[..n] == entries[..n];
      var i := Sink(n);
      assert entries[..n + 1] == entries[..count][..n + 1];
      MovedIsSorted(s, i, n);
    }

    /** The size pass of bundle_pack. */
    method TotalSize() returns (total: nat)
      requires Valid()
      ensures AllFit(Contents()) && total == |Encode(Contents())|
    {
      ContentsFit();
      total := 4;
      var i := 0;
      while i < count
        invariant 0 <= i <= count
        invariant total == 4 + |EncodeEntries(entries[..i])|
      {
        EncodeAppend(entries[..i], entries[i]);
        assert entries[..i + 1] == entries[..i] + [entries[i]];
        total := total + 4;
        total := total + |entries[i].name|;
        total := total + 4;
        total := total + |entries[i].data|;
        i := i + 1;
      }
    }

    lemma ContentsFit()
      requires Valid()
      ensures AllFit(Contents()) && forall i :: 0 <= i <= count ==> AllFit(entries[..i])
    {}

    /** The write pass: every copy lands inside the buffer and the last one ends at its end. */
    method WriteEntries(packed: array<byte>)
      requires Valid() && AllFit(Contents()) && packed.Length == |Encode(Contents())|
      modifies packed
      ensures packed[..] == Encode(Contents())
    {
      hide EncodeEntry, EncodeEntries, PutU32, Packable, Fits;
      ghost var es := Contents();
      var ptr := 0;
      Copy(packed, ptr, PutU32(count));
      ptr := ptr + 4;
      var i := 0;
      NothingEncoded(es);
      while i < count
        invariant 0 <= i <= count
        invariant ptr == 4 + |EncodeEntries(es[..i])| <= packed.Length
        invariant packed[..ptr] == PutU32(count) + EncodeEntries(es[..i])
      {
        EncodeNext(es, i);
        WriteEntry(packed, ptr, entries[i]);
        ptr := ptr + 8 + |entries[i].name| + |entries[i].data|;
        i := i + 1;
      }
      assert es[..count] == es;
      assert packed[..] == packed[..ptr];
    }

    /** bundle_pack; the allocation succeeded. */
    method Pack() returns (packed: array<byte>)
      requires Valid()
      modifies entries
      ensures Valid() && Sorted(Contents()) && Rearranged(old(Contents()), Contents())
      ensures AllFit(Contents()) && packed[..] == Encode(Contents())
      ensures fresh(packed)
    {
      Sort();
      var total := TotalSize();
      packed := new byte[total];
      WriteEntries(packed);
    }
  }

  lemma {:induction false} PrefixEncodesShorter(es: seq<Entry>, k: nat)
    requires AllFit(es) && k <= |es|
    ensures |EncodeEntries(es[..k])| <= |EncodeEntries(es)|
  {
    if k > 0 {
      assert es[..k][1..] == es[1..][..k - 1];
      PrefixEncodesShorter(es[1..], k - 1);
    }
  }

  lemma NothingEncoded(es: seq<Entry>)
    ensures EncodeEntries(es[..0]) == []
  {}

  lemma EncodeNext(es: seq<Entry>, i: nat)
    requires AllFit(es) && i < |es|
    ensures EncodeEntries(es[..i + 1]) == EncodeEntries(es[..i]) + EncodeEntry(es[i])
    ensures |EncodeEntries(es[..i + 1])| <= |EncodeEntries(es)|
  {
    EncodeAppend(es[..i], es[i]);
    assert es[..i + 1] == es[..i] + [es[i]];
    PrefixEncodesShorter(es, i + 1);
  }

  /** memcpy */
  method Copy(dst: array<byte>, at: nat, src: seq<byte>)
    requires at + |src| <= dst.Length
    modifies dst
    ensures dst[..at + |src|] == old(dst[..at]) + src
  {
    var i := 0;
    while i < |src|
      invariant 0 <= i <= |src|
      invariant dst[..at + i] == old(dst[..at]) + src[..i]
    {
      dst[at + i] := src[i];
      i := i + 1;
    }
    assert src[..|src|] == src;
  }

  method WriteEntry(packed: array<byte>, start: nat, e: Entry)
    requires Fits(e) && start + |EncodeEntry(e)| <= packed.Length
    modifies packed
    ensures packed[..start + |EncodeEntry(e)|] == old(packed[..start]) + EncodeEntry(e)
  {
    hide PutU32;
    var ptr := start;
    Copy(packed, ptr, PutU32(|e.name|));
    ptr := ptr + 4;
    Copy(packed, ptr, e.name);
    ptr := ptr + |e.name|;
    Copy(packed, ptr, PutU32(|e.data|));
    ptr := ptr + 4;
    Copy(packed, ptr, e.data);
  }

  // ----- determinism -----

  /** Equal paths carry equal data. */
  predicate EqualPathsEqualData(es: seq<Entry>)
  {
    forall i, j :: 0 <= i < |es| && 0 <= j < |es| && es[i].name == es[j].name ==> es[i] == es[j]
  }

  /** s with its n-th element moved down to position i. */
  ghost function Moved(s: seq<Entry>, i: nat, n: nat): (t: seq<Entry>)
    requires i <= n < |s|
    ensures |t| == |s|
  {
    seq(|s|, k requires 0 <= k < |s| =>
      if k < i || n < k then s[k] else if k == i then s[n] else s[k - 1])
  }

  lemma NothingMoved(s: seq<Entry>, n: nat)
    requires n < |s|
    ensures Moved(s, n, n) == s && Rearranged(s, s)
  {}

  lemma MovedAround(s: seq<Entry>, i: nat, n: nat)
    requires i <= n < |s|
    ensures var t := Moved(s, i, n);
            && t[i] == s[n]
            && (i > 0 ==>
                  && t[i - 1] == s[i - 1]
                  && Moved(s, i - 1, n) == t[i - 1 := t[i]][i := t[i - 1]]
                  && (Rearranged(s, t) ==> Rearranged(s, Moved(s, i - 1, n))))
  {}

  lemma MovedIsSorted(s: seq<Entry>, i: nat, n: nat)
    requires i <= n < |s| && Sorted(s[..n])
    requires forall k :: i <= k < n ==> Greater(s[k], s[n])
    requires i > 0 ==> !Greater(s[i - 1], s[n])
    ensures Sorted(Moved(s, i, n)[..n + 1])
  {
    hide Strcmp;
    var t := Moved(s, i, n)[..n + 1];
    forall j, k | 0 <= j < k < |t|
      ensures Leq(t[j], t[k])
    {
      MovedInOrder(s, i, n, j, k);
    }
  }

  lemma MovedInOrder(s: seq<Entry>, i: nat, n: nat, j: nat, k: nat)
    requires i <= n < |s| && Sorted(s[..n]) && j < k <= n
    requires forall l :: i <= l < n ==> Greater(s[l], s[n])
    requires i > 0 ==> !Greater(s[i - 1], s[n])
    ensures Leq(Moved(s, i, n)[j], Moved(s, i, n)[k])
  {
    hide Strcmp;
    var u := s[..n];
    if k == i {
      if j < i - 1 {
        assert Leq(u[j], u[i - 1]);
        StrcmpTransitive(s[j].name, s[i - 1].name, s[n].name);
      }
    } else if j == i {
      StrcmpTotal(s[k - 1].name, s[n].name);
    } else {
      assert Leq(u[if j < i then j else j - 1], u[if k < i then k else k - 1]);
    }
  }

  /** What the sort may leave behind for these files: it is not stable, so possibly several orders. */
  predicate SortedArrangement(es: seq<Entry>, s: seq<Entry>)
  {
    Rearranged(es, s) && Sorted(s)
  }

  lemma SameFirst(s: seq<Entry>, t: seq<Entry>)
    requires Sorted(s) && Sorted(t) && Rearranged(s, t) && EqualPathsEqualData(s) && s != [] && t != []
    ensures s[0] == t[0]
  {
    hide Strcmp;
    assert t[0] in multiset(s) && s[0] in multiset(t);
    var k :| 0 <= k < |s| && s[k] == t[0];
    var l :| 0 <= l < |t| && t[l] == s[0];
    StrcmpTotal(s[0].name, t[0].name);
  }

  lemma TailsRearranged(s: seq<Entry>, t: seq<Entry>)
    requires Rearranged(s, t) && s != [] && t != [] && s[0] == t[0]
    ensures Rearranged(s[1..], t[1..])
  {
    assert s == [s[0]] + s[1..] && t == [t[0]] + t[1..];
    assert multiset(s[1..]) == multiset(s) - multiset{s[0]};
  }

  lemma {:induction false} SortedUnique(s: seq<Entry>, t: seq<Entry>)
    requires Sorted(s) && Sorted(t) && Rearranged(s, t) && EqualPathsEqualData(s)
    ensures s == t
  {
    hide Greater;
    assert |s| == |multiset(s)| == |multiset(t)| == |t|;
    if s != [] {
      SameFirst(s, t);
      TailsRearranged(s, t);
      SortedUnique(s[1..], t[1..]);
      assert s == [s[0]] + s[1..] && t == [t[0]] + t[1..];
    }
  }

  lemma {:induction false} ArrangementExists(es: seq<Entry>) returns (s: seq<Entry>)
    ensures SortedArrangement(es, s)
  {
    if es == [] {
      s := [];
    } else {
      var n := |es| - 1;
      var t := ArrangementExists(es[..n]);
      assert es == es[..n] + [es[n]];
      s := InsertSorted(t, es[n]);
    }
  }

  lemma {:induction false} InsertSorted(t: seq<Entry>, e: Entry) returns (s: seq<Entry>)
    requires Sorted(t)
    ensures SortedArrangement(t + [e], s)
  {
    hide Strcmp;
    if t == [] || !Greater(t[|t| - 1], e) {
      s := t + [e];
      forall j | 0 <= j < |t|
        ensures Leq(t[j], e)
      {
        if j < |t| - 1 {
          StrcmpTransitive(t[j].name, t[|t| - 1].name, e.name);
        }
      }
    } else {
      var last := t[|t| - 1];
      var u := InsertSorted(t[..|t| - 1], e);
      s := u + [last];
      assert t == t[..|t| - 1] + [last];
      StrcmpTotal(last.name, e.name);
      forall j | 0 <= j < |u|
        ensures Leq(u[j], last)
      {
        assert u[j] in multiset(u);
        assert u[j] in t[..|t| - 1] + [e];
      }
    }
  }

  /** Exchanging two entries of equal path keeps a sequence sorted. */
  lemma TwinExchange(s: seq<Entry>, k: nat, l: nat)
    requires Sorted(s) && k < |s| && l < |s| && s[k].name == s[l].name && s[k] != s[l]
    ensures var t := s[k := s[l]][l := s[k]];
            Sorted(t) && Rearranged(s, t) && t != s
  {
    hide Strcmp;
    var t := s[k := s[l]][l := s[k]];
    assert forall i :: 0 <= i < |s| ==> t[i].name == s[i].name;
  }

  lemma ArrangementFits(es: seq<Entry>, s: seq<Entry>)
    requires AllFit(es) && Rearranged(es, s)
    ensures AllFit(s)
  {
    assert |s| == |multiset(s)| == |multiset(es)| == |es|;
    forall i | 0 <= i < |s|
      ensures Fits(s[i])
    {
      assert s[i] in multiset(s);
      assert s[i] in es;
    }
  }

  /** Whatever order qsort chooses, the packed bytes are the same; */
  ghost predicate PackingDeterministic(es: seq<Entry>)
    requires AllFit(es)
  {
    forall s, t :: SortedArrangement(es, s) && SortedArrangement(es, t) && AllFit(s) && AllFit(t) ==>
                     Encode(s) == Encode(t)
  }

  /** which holds exactly when equal paths carry equal data. */
  lemma PackingDeterministicIff(es: seq<Entry>)
    requires AllFit(es)
    ensures PackingDeterministic(es) <==> EqualPathsEqualData(es)
  {
    hide Encode, Sorted;
    if EqualPathsEqualData(es) {
      forall s, t | SortedArrangement(es, s) && SortedArrangement(es, t)
        ensures s == t
      {
        EqualDataOfElements(es, s);
        SortedUnique(s, t);
      }
    } else {
      UnequalDataPacking(es);
    }
  }

  /** Two packers given the same files in any order produce the same bytes, if equal paths carry equal data. */
  method PackTwice(a: Bundle, b: Bundle) returns (x: array<byte>, y: array<byte>)
    requires a.Valid() && b.Valid() && a.entries != b.entries
    requires Rearranged(a.Contents(), b.Contents()) && EqualPathsEqualData(a.Contents())
    modifies a.entries, b.entries
    ensures x[..] == y[..]
  {
    hide Encode, Sorted, Packable, EqualPathsEqualData, Rearranged;
    ghost var files, others := a.Contents(), b.Contents();
    x := a.Pack();
    ghost var s := a.Contents();
    y := b.Pack();
    SamePacking(files, others, s, b.Contents());
  }

  lemma SamePacking(files: seq<Entry>, others: seq<Entry>, s: seq<Entry>, t: seq<Entry>)
    requires Rearranged(files, others) && EqualPathsEqualData(files)
    requires SortedArrangement(files, s) && SortedArrangement(others, t)
    ensures s == t
  {
    hide Sorted;
    EqualDataOfElements(files, s);
    SortedUnique(s, t);
  }

  lemma UnequalDataPacking(es: seq<Entry>)
    requires AllFit(es) && !EqualPathsEqualData(es)
    ensures !PackingDeterministic(es)
  {
    hide Encode, Sorted;
    var i, j :| 0 <= i < |es| && 0 <= j < |es| && es[i].name == es[j].name && es[i] != es[j];
    var s := ArrangementExists(es);
    assert es[i] in multiset(s) && es[j] in multiset(s);
    var k :| 0 <= k < |s| && s[k] == es[i];
    var l :| 0 <= l < |s| && s[l] == es[j];
    var t := s[k := s[l]][l := s[k]];
    TwinExchange(s, k, l);
    ArrangementFits(es, s);
    ArrangementFits(es, t);
    EncodeInjective(s, t);
  }

  lemma EqualDataOfElements(s: seq<Entry>, t: seq<Entry>)
    requires Rearranged(s, t) && EqualPathsEqualData(s)
    ensures EqualPathsEqualData(t)
  {
    forall i, j | 0 <= i < |t| && 0 <= j < |t| && t[i].name == t[j].name
      ensures t[i] == t[j]
    {
      assert t[i] in multiset(t) && t[j] in multiset(t);
      assert t[i] in s && t[j] in s;
    }
  }

  lemma PackableIsOfElements(s: seq<Entry>, t: seq<Entry>)
    requires Rearranged(s, t)
    requires forall i :: 0 <= i < |s| ==> Packable(s[i])
    ensures forall i :: 0 <= i < |t| ==> Packable(t[i])
  {
    forall i | 0 <= i < |t|
      ensures Packable(t[i])
    {
      assert t[i] in multiset(t);
      assert t[i] in s;
    }
  }
}
