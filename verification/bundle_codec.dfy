/** The asset bundle format: `[count] ([name_len][name][data_len][data])*`, as written and as read. */
module BundleCodec {
  import opened Bytes

  datatype Entry = Entry(name: seq<byte>, data: seq<byte>)

  predicate Fits(e: Entry) { |e.name| < TWO_TO_THE_32 && |e.data| < TWO_TO_THE_32 }

  predicate AllFit(es: seq<Entry>)
  {
    |es| < TWO_TO_THE_32 && forall i :: 0 <= i < |es| ==> Fits(es[i])
  }

  // ----- the format -----

  function EncodeEntry(e: Entry): (b: seq<byte>)
    requires Fits(e)
    ensures |b| == 8 + |e.name| + |e.data|
  {
    PutU32(|e.name|) + e.name + PutU32(|e.data|) + e.data
  }

  function EncodeEntries(es: seq<Entry>): seq<byte>
    requires forall i :: 0 <= i < |es| ==> Fits(es[i])
  {
    if es == [] then [] else EncodeEntry(es[0]) + EncodeEntries(es[1..])
  }

  function Encode(es: seq<Entry>): seq<byte>
    requires AllFit(es)
  {
    PutU32(|es|) + EncodeEntries(es)
  }

  lemma {:induction false} EncodeAppend(es: seq<Entry>, e: Entry)
    requires Fits(e) && forall i :: 0 <= i < |es| ==> Fits(es[i])
    ensures EncodeEntries(es + [e]) == EncodeEntries(es) + EncodeEntry(e)
  {
    if es == [] {
      assert EncodeEntries([e][1..]) == [];
    } else {
      EncodeAppend(es[1..], e);
      assert (es + [e])[1..] == es[1..] + [e];
    }
  }

  /** Where the fields of the first entry lie in a packing: name length, name, data length, data. */
  lemma EncodedLayout(es: seq<Entry>)
    requires AllFit(es) && es != []
    ensures var b := Encode(es);
            var namePos, n := 8, |es[0].name|;
            var lenPos, d := namePos + n, |es[0].data|;
            var dataPos := lenPos + 4;
            && dataPos + d <= |b|
            && ReadU32(b[..4]) == |es| && ReadU32(b[4..namePos]) == n && ReadU32(b[lenPos..dataPos]) == d
            && b[namePos..lenPos] == es[0].name && b[dataPos..dataPos + d] == es[0].data
            && b[dataPos + d..] == EncodeEntries(es[1..])
  {
    hide PutU32, ReadU32, EncodeEntries;
    var b, e := Encode(es), es[0];
    var rest := EncodeEntries(es[1..]);
    FirstEntryEncoded(es);
    assert b == PutU32(|es|) + (PutU32(|e.name|) + e.name + PutU32(|e.data|) + e.data) + rest;
    assert b[..4] == PutU32(|es|);
    assert b[4..8] == PutU32(|e.name|);
    assert b[8..8 + |e.name|] == e.name;
    assert b[8 + |e.name|..12 + |e.name|] == PutU32(|e.data|);
    assert b[12 + |e.name|..12 + |e.name| + |e.data|] == e.data;
    ReadPutU32(|es|);
    ReadPutU32(|e.name|);
    ReadPutU32(|e.data|);
  }

  lemma FirstEntryEncoded(es: seq<Entry>)
    requires AllFit(es) && es != []
    ensures EncodeEntries(es) == EncodeEntry(es[0]) + EncodeEntries(es[1..])
  {}

  // ----- the reader, one bounds check at a time -----

  /** One iteration of the reading loop: None is a truncation, otherwise the entry and the new cursor. */
  function ParseEntry(buf: seq<byte>, pos: nat): (r: Option<(Entry, nat)>)
    requires pos <= |buf|
    ensures r.Some? ==> pos + 8 <= r.value.1 <= |buf|
  {
    if pos + 4 > |buf| then None else
    var nameLen := ReadU32(buf[pos..pos + 4]);
    var namePos := pos + 4;
    if namePos + nameLen > |buf| then None else
    var lenPos := namePos + nameLen;
    if lenPos + 4 > |buf| then None else
    var dataLen := ReadU32(buf[lenPos..lenPos + 4]);
    var dataPos := lenPos + 4;
    if dataPos + dataLen > |buf| then None else
    Some((Entry(buf[namePos..lenPos], buf[dataPos..dataPos + dataLen]), dataPos + dataLen))
  }

  function ParseEntries(buf: seq<byte>, pos: nat, n: nat): (r: Option<(seq<Entry>, nat)>)
    requires pos <= |buf|
    ensures r.Some? ==> |r.value.0| == n && pos + 8 * n <= r.value.1 <= |buf|
    decreases n
  {
    if n == 0 then Some(([], pos))
    else
      match ParseEntry(buf, pos)
      case None => None
      case Some((e, next)) =>
        match ParseEntries(buf, next, n - 1)
        case None => None
        case Some((es, end)) => Some(([e] + es, end))
  }

  function Parse(buf: seq<byte>): Option<(seq<Entry>, nat)>
  {
    if |buf| < 4 then None else ParseEntries(buf, 4, ReadU32(buf[..4]))
  }

  // ----- reading what was written -----

  lemma EntryRoundTrip(before: seq<byte>, e: Entry, rest: seq<byte>)
    requires Fits(e)
    ensures ParseEntry(before + EncodeEntry(e) + rest, |before|) == Some((e, |before| + |EncodeEntry(e)|))
  {
    hide ReadU32, PutU32;
    var buf := before + EncodeEntry(e) + rest;
    var pos := |before|;
    var namePos := pos + 4;
    var lenPos := namePos + |e.name|;
    assert buf[pos..namePos] == PutU32(|e.name|);
    assert buf[namePos..lenPos] == e.name;
    assert buf[lenPos..lenPos + 4] == PutU32(|e.data|);
    assert buf[lenPos + 4..lenPos + 4 + |e.data|] == e.data;
    ReadPutU32(|e.name|);
    ReadPutU32(|e.data|);
  }

  lemma {:induction false} EntriesRoundTrip(before: seq<byte>, es: seq<Entry>, rest: seq<byte>)
    requires forall i :: 0 <= i < |es| ==> Fits(es[i])
    ensures ParseEntries(before + EncodeEntries(es) + rest, |before|, |es|)
            == Some((es, |before| + |EncodeEntries(es)|))
    decreases |es|
  {
    hide EncodeEntry, ParseEntry;
    var buf := before + EncodeEntries(es) + rest;
    if es != [] {
      var first := EncodeEntry(es[0]);
      var others := EncodeEntries(es[1..]);
      EntryRoundTrip(before, es[0], others + rest);
      assert buf == before + first + (others + rest);
      EntriesRoundTrip(before + first, es[1..], rest);
      assert buf == before + first + others + rest;
      assert ParseEntries(buf, |before|, |es|) == Some(([es[0]] + es[1..], |before| + |first| + |others|));
      assert es == [es[0]] + es[1..];
    }
  }

  /** Parsing what was packed gives back the entries, with the cursor at the end of the packing. */
  lemma RoundTrip(es: seq<Entry>, rest: seq<byte>)
    requires AllFit(es)
    ensures Parse(Encode(es) + rest) == Some((es, |Encode(es)|))
  {
    hide PutU32, ReadU32, ParseEntries, EncodeEntries;
    var count := PutU32(|es|);
    ReadPutU32(|es|);
    EntriesRoundTrip(count, es, rest);
    assert Encode(es) + rest == count + EncodeEntries(es) + rest;
    assert (Encode(es) + rest)[..4] == count;
  }

  // ----- writing what was read -----

  lemma EntryParsed(buf: seq<byte>, pos: nat)
    requires pos <= |buf| && ParseEntry(buf, pos).Some?
    ensures var (e, end) := ParseEntry(buf, pos).value;
            Fits(e) && buf[pos..end] == EncodeEntry(e)
  {
    hide ReadU32, PutU32;
    var (e, end) := ParseEntry(buf, pos).value;
    var lenPos := pos + 4 + |e.name|;
    PutReadU32(buf[pos..pos + 4]);
    PutReadU32(buf[lenPos..lenPos + 4]);
    assert e.name == buf[pos + 4..lenPos] && e.data == buf[lenPos + 4..end];
    FourSlices(buf, pos, pos + 4, lenPos, lenPos + 4, end);
  }

  lemma FourSlices(b: seq<byte>, p: nat, q: nat, r: nat, s: nat, t: nat)
    requires p <= q <= r <= s <= t <= |b|
    ensures b[p..t] == b[p..q] + b[q..r] + b[r..s] + b[s..t]
  {
    assert b[p..r] == b[p..q] + b[q..r];
    assert b[p..s] == b[p..r] + b[r..s];
    assert b[p..t] == b[p..s] + b[s..t];
  }

  lemma {:induction false} EntriesParsed(buf: seq<byte>, pos: nat, n: nat)
    requires pos <= |buf| && ParseEntries(buf, pos, n).Some?
    ensures var (es, end) := ParseEntries(buf, pos, n).value;
            (forall i :: 0 <= i < |es| ==> Fits(es[i])) && buf[pos..end] == EncodeEntries(es)
    decreases n
  {
    hide EncodeEntry, ParseEntry;
    if n > 0 {
      var (e, next) := ParseEntry(buf, pos).value;
      var (es, end) := ParseEntries(buf, next, n - 1).value;
      EntryParsed(buf, pos);
      EntriesParsed(buf, next, n - 1);
      assert ([e] + es)[1..] == es;
      assert buf[pos..end] == buf[pos..next] + buf[next..end];
    }
  }

  /** Any byte string that parses begins with exactly the packing of the parsed entries. */
  lemma ParsedIsPacked(buf: seq<byte>)
    requires Parse(buf).Some?
    ensures var (es, end) := Parse(buf).value;
            AllFit(es) && end <= |buf| && buf[..end] == Encode(es)
  {
    var (es, end) := Parse(buf).value;
    PutReadU32(buf[..4]);
    EntriesParsed(buf, 4, |es|);
    assert buf[..end] == buf[..4] + buf[4..end];
  }

  // ----- consequences -----

  lemma PackedPrefixParses(es: seq<Entry>, buf: seq<byte>)
    requires AllFit(es) && Encode(es) <= buf
    ensures Parse(buf) == Some((es, |Encode(es)|))
  {
    hide Encode, Parse;
    RoundTrip(es, buf[|Encode(es)|..]);
    assert Encode(es) + buf[|Encode(es)|..] == buf;
  }

  /** The reader reports corruption exactly when no packing is a prefix of the input. */
  lemma CorruptIff(buf: seq<byte>)
    ensures Parse(buf).None? <==> forall es :: AllFit(es) ==> !(Encode(es) <= buf)
  {
    hide Encode, Parse;
    if Parse(buf).Some? {
      ParsedIsPacked(buf);
      var (es, end) := Parse(buf).value;
      assert AllFit(es) && Encode(es) <= buf;
    }
    forall es | AllFit(es) && Encode(es) <= buf
      ensures Parse(buf).Some?
    {
      PackedPrefixParses(es, buf);
    }
  }

  /** No packing is a proper prefix of another: the format is self-delimiting, hence injective. */
  lemma PrefixFree(x: seq<Entry>, y: seq<Entry>, buf: seq<byte>)
    requires AllFit(x) && AllFit(y) && Encode(x) <= buf && Encode(y) <= buf
    ensures x == y
  {
    hide Encode, Parse;
    PackedPrefixParses(x, buf);
    PackedPrefixParses(y, buf);
  }

  lemma EncodeInjective(x: seq<Entry>, y: seq<Entry>)
    requires AllFit(x) && AllFit(y)
    ensures Encode(x) == Encode(y) <==> x == y
  {
    hide Encode;
    if Encode(x) == Encode(y) {
      PrefixFree(x, y, Encode(x));
    }
  }

  /** However large the claimed count, the loop completes at most (L - 4) / 8 entries. */
  lemma {:induction false} CompletedEntriesBound(buf: seq<byte>, k: nat)
    requires |buf| >= 4
    ensures ParseEntries(buf, 4, k).Some? ==> k <= (|buf| - 4) / 8
    ensures ReadU32(buf[..4]) > (|buf| - 4) / 8 ==> Parse(buf).None?
  {
    hide ReadU32;
    assert ParseEntries(buf, 4, ReadU32(buf[..4])).Some? ==> ReadU32(buf[..4]) <= (|buf| - 4) / 8;
  }

  /** A truncated iteration stays a truncation whatever count was claimed. */
  lemma {:induction false} TruncationIsFinal(buf: seq<byte>, pos: nat, k: nat, n: nat)
    requires pos <= |buf| && k <= n && ParseEntries(buf, pos, k).None?
    ensures ParseEntries(buf, pos, n).None?
    decreases k
  {
    if k > 0 && ParseEntry(buf, pos).Some? {
      TruncationIsFinal(buf, ParseEntry(buf, pos).value.1, k - 1, n - 1);
    }
  }
}
