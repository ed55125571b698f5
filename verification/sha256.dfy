/** The buffered SHA-256 of overlay_fs.c and hash.c (two identical copies), proved equal to FIPS 180-4. */
module Sha256 {
  import opened Bytes
  import opened Fips180

  // The macros EP0, EP1, SIG0 and SIG1, expanded: ROTRIGHT is written with two plain shifts.

  function Ep0Bits(u: bv32): (r: bv32)
    ensures r == BigSigma0Bits(u)
  {
    ((u >> 2) | (u << 30)) ^ ((u >> 13) | (u << 19)) ^ ((u >> 22) | (u << 10))
  }

  function Ep1Bits(u: bv32): (r: bv32)
    ensures r == BigSigma1Bits(u)
  {
    ((u >> 6) | (u << 26)) ^ ((u >> 11) | (u << 21)) ^ ((u >> 25) | (u << 7))
  }

  function Sig0Bits(u: bv32): (r: bv32)
    ensures r == SmallSigma0Bits(u)
  {
    ((u >> 7) | (u << 25)) ^ ((u >> 18) | (u << 14)) ^ (u >> 3)
  }

  function Sig1Bits(u: bv32): (r: bv32)
    ensures r == SmallSigma1Bits(u)
  {
    ((u >> 17) | (u << 15)) ^ ((u >> 19) | (u << 13)) ^ (u >> 10)
  }

  function Ep0(x: Word): (r: Word)
    ensures r == BigSigma0(x)
  {
    FromBits(Ep0Bits(ToBits(x)))
  }

  function Ep1(x: Word): (r: Word)
    ensures r == BigSigma1(x)
  {
    FromBits(Ep1Bits(ToBits(x)))
  }

  function Sig0(x: Word): (r: Word)
    ensures r == SmallSigma0(x)
  {
    FromBits(Sig0Bits(ToBits(x)))
  }

  function Sig1(x: Word): (r: Word)
    ensures r == SmallSigma1(x)
  {
    FromBits(Sig1Bits(ToBits(x)))
  }

  /** The block that a message leaves in the buffer, and the blocks already hashed. */
  function Tail(m: seq<byte>): (t: seq<byte>)
    ensures |t| == |m| % 64
  {
    m[|m| - |m| % 64..]
  }

  function Head(m: seq<byte>): (h: seq<byte>)
    ensures |h| % 64 == 0 && h + Tail(m) == m
  {
    m[..|m| - |m| % 64]
  }

  lemma HashOneMoreBlock(h: seq<byte>, block: seq<byte>)
    requires |h| % 64 == 0 && |block| == 64
    ensures HashBlocks(h + block) == Compress(HashBlocks(h), block)
  {
    var m := h + block;
    assert m[..|m| - 64] == h && m[|m| - 64..] == block;
  }

  lemma AppendByte(m: seq<byte>, b: byte)
    ensures |m| % 64 < 63 ==> Head(m + [b]) == Head(m) && Tail(m + [b]) == Tail(m) + [b]
    ensures |m| % 64 == 63 ==>
              |Tail(m) + [b]| == 64 && Head(m + [b]) == Head(m) + (Tail(m) + [b]) && Tail(m + [b]) == []
  {
    var n := m + [b];
    if |m| % 64 < 63 {
      assert |n| % 64 == |m| % 64 + 1;
    } else {
      assert |n| % 64 == 0;
    }
  }

  lemma NoWords(block: seq<byte>)
    requires |block| == 64
    ensures Schedule(block, 0) == []
  {}

  lemma CountOneMoreBlock(n: nat)
    ensures ((8 * n) % TWO_TO_THE_64 + 512) % TWO_TO_THE_64 == (8 * (n + 64)) % TWO_TO_THE_64
  {}

  class Context {
    const data: array<byte>
    var datalen: nat
    var bitlen: nat
    const state: array<Word>

    ghost predicate Valid()
      reads this, data, state
    {
      data.Length == 64 && state.Length == 8 && datalen <= 64
    }

    /** The context stands for message m. */
    ghost predicate Absorbed(m: seq<byte>)
      reads this, data, state
    {
      && Valid()
      && datalen == |m| % 64
      && data[..datalen] == Tail(m)
      && state[..] == HashBlocks(Head(m))
      && bitlen == (8 * |Head(m)|) % TWO_TO_THE_64
    }

    /** sha256_init */
    constructor ()
      ensures Absorbed([]) && fresh(data) && fresh(state)
    {
      data := new byte[64];
      datalen, bitlen := 0, 0;
      var s := new Word[8];
      s[0], s[1], s[2], s[3] := 0x6a09e667, 0xbb67ae85, 0x3c6ef372, 0xa54ff53a;
      s[4], s[5], s[6], s[7] := 0x510e527f, 0x9b05688c, 0x1f83d9ab, 0x5be0cd19;
      state := s;
      new;
      assert state[..] == IV;
    }

    /** The message schedule of sha256_transform: m[0..16] from the block, then m[16..64]. */
    method ExpandSchedule() returns (m: array<Word>)
      requires Valid()
      ensures fresh(m) && m[..] == Schedule(data[..], 64)
    {
      hide Schedule, BlockWord;
      m := new Word[64];
      NoWords(data[..]);
      var i := 0;
      while i < 16
        invariant 0 <= i <= 16
        invariant m[..i] == Schedule(data[..], i)
      {
        LoadWord(m, i);
        i := i + 1;
      }
      while i < 64
        invariant 16 <= i <= 64
        invariant m[..i] == Schedule(data[..], i)
      {
        MixWord(m, i);
        i := i + 1;
      }
      assert m[..] == m[..64];
    }

    /** The body of the first loop: one big-endian word of the block. */
    method LoadWord(m: array<Word>, i: nat)
      requires Valid() && m.Length == 64 && i < 16 && m[..i] == Schedule(data[..], i)
      modifies m
      ensures m[..i + 1] == Schedule(data[..], i + 1)
    {
      hide BigEndianWord;
      var j := 4 * i;
      m[i] := BigEndianWord(data[j], data[j + 1], data[j + 2], data[j + 3]);
      assert m[..i + 1] == m[..i] + [m[i]];
    }

    /** The body of the second loop: one word from four earlier ones. */
    method MixWord(m: array<Word>, i: nat)
      requires Valid() && m.Length == 64 && 16 <= i < 64 && m[..i] == Schedule(data[..], i)
      modifies m
      ensures m[..i + 1] == Schedule(data[..], i + 1)
    {
      hide Add, BlockWord;
      ghost var w := m[..i];
      m[i] := Add(Add(Add(Sig1(m[i - 2]), m[i - 7]), Sig0(m[i - 15])), m[i - 16]);
      assert w[i - 2] == m[i - 2] && w[i - 7] == m[i - 7] && w[i - 15] == m[i - 15] && w[i - 16] == m[i - 16];
      assert m[..i + 1] == w + [m[i]];
    }

    /** The 64 rounds of sha256_transform, shuffling the eight working variables in place. */
    method RunRounds(m: array<Word>) returns (v: Vars)
      requires Valid() && m.Length == 64
      ensures v == Rounds(Load(state[..]), K, m[..], 64)
    {
      hide Add, Ch, Maj, BigSigma0, BigSigma1, KFrom;
      var a, b, c, d := state[0], state[1], state[2], state[3];
      var e, f, g, h := state[4], state[5], state[6], state[7];
      var i := 0;
      while i < 64
        invariant 0 <= i <= 64
        invariant Vars(a, b, c, d, e, f, g, h) == Rounds(Load(state[..]), K, m[..], i)
      {
        var t1 := Add(Add(Add(Add(h, Ep1(e)), Ch(e, f, g)), K[i]), m[i]);
        var t2 := Add(Ep0(a), Maj(a, b, c));
        h := g;
        g := f;
        f := e;
        e := Add(d, t1);
        d := c;
        c := b;
        b := a;
        a := Add(t1, t2);
        i := i + 1;
      }
      v := Vars(a, b, c, d, e, f, g, h);
    }

    method AddToState(v: Vars)
      requires Valid()
      modifies state
      ensures state[..] == AddVars(old(state[..]), v)
    {
      hide Add;
      AddToHalf(0, v.a, v.b, v.c, v.d);
      AddToHalf(4, v.e, v.f, v.g, v.h);
    }

    /** Four of the eight additions. */
    method AddToHalf(i: nat, p: Word, q: Word, r: Word, s: Word)
      requires Valid() && (i == 0 || i == 4)
      modifies state
      ensures state[i] == Add(old(state[i]), p) && state[i + 1] == Add(old(state[i + 1]), q)
      ensures state[i + 2] == Add(old(state[i + 2]), r) && state[i + 3] == Add(old(state[i + 3]), s)
      ensures forall j :: 0 <= j < 8 && !(i <= j < i + 4) ==> state[j] == old(state[j])
    {
      hide Add;
      state[i] := Add(state[i], p);
      state[i + 1] := Add(state[i + 1], q);
      state[i + 2] := Add(state[i + 2], r);
      state[i + 3] := Add(state[i + 3], s);
    }

    /** sha256_transform on the context's own buffer. */
    method Transform()
      requires Valid()
      modifies state
      ensures state[..] == Compress(old(state[..]), data[..])
    {
      var m := ExpandSchedule();
      var v := RunRounds(m);
      AddToState(v);
    }

    /** sha256_update */
    method Update(input: seq<byte>, ghost m: seq<byte>)
      requires Absorbed(m)
      modifies this, data, state
      ensures Absorbed(m + input)
    {
      hide HashBlocks;
      var i := 0;
      assert m + input[..0] == m;
      while i < |input|
        invariant 0 <= i <= |input|
        invariant Absorbed(m + input[..i])
      {
        UpdateByte(input[i], m + input[..i]);
        assert m + input[..i] + [input[i]] == m + input[..i + 1];
        i := i + 1;
      }
      assert input[..i] == input;
    }

    /** The body of the loop of sha256_update. */
    method UpdateByte(b: byte, ghost m: seq<byte>)
      requires Absorbed(m)
      modifies this, data, state
      ensures Absorbed(m + [b])
    {
      hide HashBlocks, Compress, Head, Tail;
      AppendByte(m, b);
      data[datalen] := b;
      datalen := datalen + 1;
      assert data[..datalen] == Tail(m) + [b];
      if datalen == 64 {
        assert data[..] == Tail(m) + [b];
        EndBlock();
        HashOneMoreBlock(Head(m), Tail(m) + [b]);
        CountOneMoreBlock(|Head(m)|);
      }
    }

    /** The full buffer: hash it, count its bits and start a new one. */
    method EndBlock()
      requires Valid()
      modifies this, state
      ensures Valid() && datalen == 0 && bitlen == (old(bitlen) + 512) % TWO_TO_THE_64
      ensures state[..] == Compress(old(state[..]), data[..])
    {
      hide Compress;
      Transform();
      bitlen := (bitlen + 512) % TWO_TO_THE_64;
      datalen := 0;
    }

    /** The tail of a buffer being padded: one 0x80, then zeros up to `limit`. */
    method PadBuffer(limit: nat)
      requires Valid() && datalen < limit <= 64
      modifies data
      ensures data[..limit] == old(data[..datalen]) + [0x80] + Zeros(limit - datalen - 1)
    {
      var i := datalen;
      data[i] := 0x80;
      i := i + 1;
      while i < limit
        invariant datalen < i <= limit
        invariant data[..i] == old(data[..datalen]) + [0x80] + Zeros(i - datalen - 1)
      {
        data[i] := 0;
        i := i + 1;
      }
    }

    /** The branch of sha256_final that closes the current block. */
    method CloseBlock(ghost m: seq<byte>)
      requires Absorbed(m)
      modifies data, state
      ensures |m| % 64 < 56 ==>
                state[..] == old(state[..]) && data[..56] == Tail(m) + [0x80] + Zeros(55 - datalen)
      ensures |m| % 64 >= 56 ==>
                && state[..] == Compress(old(state[..]), Tail(m) + [0x80] + Zeros(63 - datalen))
                && data[..56] == Zeros(56)
    {
      hide HashBlocks, Compress;
      if datalen < 56 {
        PadBuffer(56);
      } else {
        PadBuffer(64);
        assert data[..] == data[..64];
        Transform();
        ClearLengthlessPart();
      }
    }

    /** memset(ctx->data, 0, 56) */
    method ClearLengthlessPart()
      requires Valid()
      modifies data
      ensures data[..56] == Zeros(56)
    {
      var i := 0;
      while i < 56
        invariant 0 <= i <= 56
        invariant data[..i] == Zeros(i)
      {
        data[i] := 0;
        i := i + 1;
      }
    }

    /** sha256_final */
    method Final(ghost m: seq<byte>) returns (hash: array<byte>)
      requires Absorbed(m) && 8 * |m| < TWO_TO_THE_64
      modifies this, data, state
      ensures fresh(hash) && hash[..] == Fips180.Sha256(m)
    {
      hide HashBlocks, Compress, Digest, Pad, BigEndian64;
      CloseBlock(m);
      assert 8 * |Head(m)| + 8 * datalen == 8 * |m|;
      bitlen := (bitlen + datalen * 8) % TWO_TO_THE_64;
      assert bitlen == 8 * |m|;
      WriteBitLength();
      Transform();
      FinalBlocks(m);
      hash := WriteDigest();
    }

    /** The loop body at the end of sha256_final: byte i of each of the eight words. */
    method WriteColumn(hash: array<byte>, i: nat)
      requires Valid() && hash.Length == 32 && i < 4
      modifies hash
      ensures forall j :: 0 <= j < 32 ==>
                            hash[j] == if j % 4 == i then WordByte(state[j / 4], i) else old(hash[j])
    {
      hide WordByte;
      hash[i], hash[i + 4] := WordByte(state[0], i), WordByte(state[1], i);
      hash[i + 8], hash[i + 12] := WordByte(state[2], i), WordByte(state[3], i);
      hash[i + 16], hash[i + 20] := WordByte(state[4], i), WordByte(state[5], i);
      hash[i + 24], hash[i + 28] := WordByte(state[6], i), WordByte(state[7], i);
    }

    method WriteDigest() returns (hash: array<byte>)
      requires Valid()
      ensures fresh(hash) && hash[..] == Digest(state[..])
    {
      hide WordByte;
      hash := new byte[32];
      var i := 0;
      while i < 4
        invariant 0 <= i <= 4
        invariant forall j :: 0 <= j < 32 && j % 4 < i ==> hash[j] == WordByte(state[j / 4], j % 4)
      {
        WriteColumn(hash, i);
        i := i + 1;
      }
    }

    method WriteBitLength()
      requires Valid() && bitlen < TWO_TO_THE_64
      modifies data
      ensures data[..] == old(data[..56]) + BigEndian64(bitlen)
    {
      hide LengthByte;
      StoreLengthBytes();
      assert data[..] == data[..56] + data[56..];
      assert data[56..] == BigEndian64(bitlen);
    }

    method StoreLengthBytes()
      requires Valid() && bitlen < TWO_TO_THE_64
      modifies data
      ensures data[..56] == old(data[..56])
      ensures forall i :: 0 <= i < 8 ==> data[63 - i] == LengthByte(bitlen, i)
    {
      hide LengthByte;
      data[63], data[62] := LengthByte(bitlen, 0), LengthByte(bitlen, 1);
      data[61], data[60] := LengthByte(bitlen, 2), LengthByte(bitlen, 3);
      data[59], data[58] := LengthByte(bitlen, 4), LengthByte(bitlen, 5);
      data[57], data[56] := LengthByte(bitlen, 6), LengthByte(bitlen, 7);
    }
  }

  /** The one or two blocks sha256_final hashes after the full blocks of the message. */
  lemma FinalBlocks(m: seq<byte>)
    requires 8 * |m| < TWO_TO_THE_64
    ensures var t := Tail(m) + [0x80];
            var len := BigEndian64(8 * |m|);
            HashBlocks(Pad(m)) ==
            if |m| % 64 < 56 then Compress(HashBlocks(Head(m)), t + Zeros(56 - |t|) + len)
            else Compress(Compress(HashBlocks(Head(m)), t + Zeros(64 - |t|)), Zeros(56) + len)
  {
    hide HashBlocks, Compress, BigEndian64;
    var t := Tail(m) + [0x80];
    var len := BigEndian64(8 * |m|);
    PadInBlocks(m);
    if |m| % 64 < 56 {
      HashOneMoreBlock(Head(m), t + Zeros(56 - |t|) + len);
    } else {
      HashOneMoreBlock(Head(m), t + Zeros(64 - |t|));
      HashOneMoreBlock(Head(m) + (t + Zeros(64 - |t|)), Zeros(56) + len);
    }
  }

  lemma PadInBlocks(m: seq<byte>)
    requires 8 * |m| < TWO_TO_THE_64
    ensures var t := Tail(m) + [0x80];
            var len := BigEndian64(8 * |m|);
            Pad(m) ==
            if |m| % 64 < 56 then Head(m) + (t + Zeros(56 - |t|) + len)
            else Head(m) + (t + Zeros(64 - |t|)) + (Zeros(56) + len)
  {
    hide BigEndian64;
    var t := Tail(m) + [0x80];
    if |m| % 64 < 56 {
      assert PadZeros(|m|) == 56 - |t|;
    } else {
      assert PadZeros(|m|) == 120 - |t|;
      assert Zeros(PadZeros(|m|)) == Zeros(64 - |t|) + Zeros(56);
    }
  }

  /** sha256_init, sha256_update, sha256_final. */
  method HashMessage(m: seq<byte>) returns (hash: seq<byte>)
    requires 8 * |m| < TWO_TO_THE_64
    ensures hash == Fips180.Sha256(m)
  {
    var ctx := new Context();
    ctx.Update(m, []);
    assert [] + m == m;
    var digest := ctx.Final(m);
    hash := digest[..];
  }
}
