/** SHA-256 as FIPS 180-4 defines it, independently of the buffered code. Messages are whole bytes. */
module Fips180 {
  import opened Bytes

  type Word = x: int | 0 <= x < TWO_TO_THE_32

  /** The eight working variables of section 6.2.2. */
  datatype Vars = Vars(a: Word, b: Word, c: Word, d: Word, e: Word, f: Word, g: Word, h: Word)

  /** Section 4.2.2, in rows of eight; what these numbers are is shown in Fips180Constants. */
  const K0: seq<Word> := [0x428a2f98, 0x71374491, 0xb5c0fbcf, 0xe9b5dba5, 0x3956c25b, 0x59f111f1, 0x923f82a4, 0xab1c5ed5]
  const K1: seq<Word> := [0xd807aa98, 0x12835b01, 0x243185be, 0x550c7dc3, 0x72be5d74, 0x80deb1fe, 0x9bdc06a7, 0xc19bf174]
  const K2: seq<Word> := [0xe49b69c1, 0xefbe4786, 0x0fc19dc6, 0x240ca1cc, 0x2de92c6f, 0x4a7484aa, 0x5cb0a9dc, 0x76f988da]
  const K3: seq<Word> := [0x983e5152, 0xa831c66d, 0xb00327c8, 0xbf597fc7, 0xc6e00bf3, 0xd5a79147, 0x06ca6351, 0x14292967]
  const K4: seq<Word> := [0x27b70a85, 0x2e1b2138, 0x4d2c6dfc, 0x53380d13, 0x650a7354, 0x766a0abb, 0x81c2c92e, 0x92722c85]
  const K5: seq<Word> := [0xa2bfe8a1, 0xa81a664b, 0xc24b8b70, 0xc76c51a3, 0xd192e819, 0xd6990624, 0xf40e3585, 0x106aa070]
  const K6: seq<Word> := [0x19a4c116, 0x1e376c08, 0x2748774c, 0x34b0bcb5, 0x391c0cb3, 0x4ed8aa4a, 0x5b9cca4f, 0x682e6ff3]
  const K7: seq<Word> := [0x748f82ee, 0x78a5636f, 0x84c87814, 0x8cc70208, 0x90befffa, 0xa4506ceb, 0xbef9a3f7, 0xc67178f2]

  function KRow(j: nat): (row: seq<Word>)
    requires j < 8
    ensures |row| == 8
  {
    match j
    case 0 => K0
    case 1 => K1
    case 2 => K2
    case 3 => K3
    case 4 => K4
    case 5 => K5
    case 6 => K6
    case _ => K7
  }

  function KFrom(j: nat): (k: seq<Word>)
    requires j <= 8
    ensures |k| == 8 * (8 - j)
    decreases 8 - j
  {
    if j == 8 then [] else KRow(j) + KFrom(j + 1)
  }

  const K: seq<Word> := KFrom(0)

  /** Section 5.3.3. */
  const IV: seq<Word> := [
    0x6a09e667, 0xbb67ae85, 0x3c6ef372, 0xa54ff53a, 0x510e527f, 0x9b05688c, 0x1f83d9ab, 0x5be0cd19
  ]

  /** Section 2.2.2: addition modulo 2^32. */
  function Add(x: Word, y: Word): Word { (x + y) % TWO_TO_THE_32 }

  function ToBits(x: Word): bv32 { x as bv32 }

  function FromBits(u: bv32): Word { u as int }

  // Section 4.1.2, on bit vectors. ROTR is the circular right shift.

  function ChBits(x: bv32, y: bv32, z: bv32): bv32 { (x & y) ^ (!x & z) }

  function MajBits(x: bv32, y: bv32, z: bv32): bv32 { (x & y) ^ (x & z) ^ (y & z) }

  function BigSigma0Bits(x: bv32): bv32 { x.RotateRight(2) ^ x.RotateRight(13) ^ x.RotateRight(22) }

  function BigSigma1Bits(x: bv32): bv32 { x.RotateRight(6) ^ x.RotateRight(11) ^ x.RotateRight(25) }

  function SmallSigma0Bits(x: bv32): bv32 { x.RotateRight(7) ^ x.RotateRight(18) ^ (x >> 3) }

  function SmallSigma1Bits(x: bv32): bv32 { x.RotateRight(17) ^ x.RotateRight(19) ^ (x >> 10) }

  /** Ch takes its bits from y where x is set and from z elsewhere. */
  lemma ChChooses(x: bv32, y: bv32, z: bv32)
    ensures ChBits(x, y, z) & x == y & x && ChBits(x, y, z) & !x == z & !x
  {}

  /** Maj takes its bits from x where x and y agree, */
  lemma MajAgrees(x: bv32, y: bv32, z: bv32)
    ensures MajBits(x, y, z) & !(x ^ y) == x & !(x ^ y)
  {}

  /** and from z where they differ. */
  lemma MajDecides(x: bv32, y: bv32, z: bv32)
    ensures MajBits(x, y, z) & (x ^ y) == z & (x ^ y)
  {}

  function Ch(x: Word, y: Word, z: Word): Word { FromBits(ChBits(ToBits(x), ToBits(y), ToBits(z))) }

  function Maj(x: Word, y: Word, z: Word): Word { FromBits(MajBits(ToBits(x), ToBits(y), ToBits(z))) }

  function BigSigma0(x: Word): Word { FromBits(BigSigma0Bits(ToBits(x))) }

  function BigSigma1(x: Word): Word { FromBits(BigSigma1Bits(ToBits(x))) }

  function SmallSigma0(x: Word): Word { FromBits(SmallSigma0Bits(ToBits(x))) }

  function SmallSigma1(x: Word): Word { FromBits(SmallSigma1Bits(ToBits(x))) }

  /** Four bytes as a big-endian word. */
  function BigEndianWord(p: byte, q: byte, r: byte, s: byte): Word
  {
    0x100_0000 * (p as int) + 0x1_0000 * (q as int) + 0x100 * (r as int) + (s as int)
  }

  /** The first byte is the most significant. */
  lemma BigEndianWordShifts(p: byte, q: byte, r: byte, s: byte)
    ensures BigEndianWord(p, q, r, s) == 256 * BigEndianWord(0, p, q, r) + s
    ensures BigEndianWord(0, 0, 0, s) == s
  {}

  /** The t-th big-endian word of a block (section 5.2.1). */
  function BlockWord(block: seq<byte>, t: nat): Word
    requires |block| == 64 && t < 16
  {
    BigEndianWord(block[4 * t], block[4 * t + 1], block[4 * t + 2], block[4 * t + 3])
  }

  /** W_0 .. W_{n-1}: step 1 of section 6.2.2. */
  function Schedule(block: seq<byte>, n: nat): (w: seq<Word>)
    requires |block| == 64 && n <= 64
    ensures |w| == n
  {
    if n == 0 then []
    else
      var w := Schedule(block, n - 1);
      var t := n - 1;
      w + [if t < 16 then BlockWord(block, t)
           else Add(Add(Add(SmallSigma1(w[t - 2]), w[t - 7]), SmallSigma0(w[t - 15])), w[t - 16])]
  }

  /** One iteration of step 3 of section 6.2.2. */
  function Round(v: Vars, k: Word, w: Word): Vars
  {
    var t1 := Add(Add(Add(Add(v.h, BigSigma1(v.e)), Ch(v.e, v.f, v.g)), k), w);
    var t2 := Add(BigSigma0(v.a), Maj(v.a, v.b, v.c));
    Vars(Add(t1, t2), v.a, v.b, v.c, Add(v.d, t1), v.e, v.f, v.g)
  }

  function Rounds(v: Vars, k: seq<Word>, w: seq<Word>, n: nat): Vars
    requires n <= |k| && n <= |w|
  {
    if n == 0 then v else Round(Rounds(v, k, w, n - 1), k[n - 1], w[n - 1])
  }

  function Load(s: seq<Word>): Vars
    requires |s| == 8
  {
    Vars(s[0], s[1], s[2], s[3], s[4], s[5], s[6], s[7])
  }

  /** Step 4 of section 6.2.2. */
  function AddVars(s: seq<Word>, v: Vars): (r: seq<Word>)
    requires |s| == 8
    ensures |r| == 8
  {
    [Add(s[0], v.a), Add(s[1], v.b), Add(s[2], v.c), Add(s[3], v.d),
     Add(s[4], v.e), Add(s[5], v.f), Add(s[6], v.g), Add(s[7], v.h)]
  }

  /** Section 6.2.2 for one block: H^(i) from H^(i-1). */
  function Compress(s: seq<Word>, block: seq<byte>): (r: seq<Word>)
    requires |s| == 8 && |block| == 64
    ensures |r| == 8
  {
    AddVars(s, Rounds(Load(s), K, Schedule(block, 64), 64))
  }

  /** H^(N) after the N blocks of m. */
  function HashBlocks(m: seq<byte>): (r: seq<Word>)
    requires |m| % 64 == 0
    ensures |r| == 8
  {
    if m == [] then IV else Compress(HashBlocks(m[..|m| - 64]), m[|m| - 64..])
  }

  /** Bits 8i .. 8i+7 of a 64-bit integer. */
  function LengthByte(n: nat, i: nat): byte
    requires n < TWO_TO_THE_64 && i < 8
  {
    match i
    case 0 => n % 256
    case 1 => n / 0x100 % 256
    case 2 => n / 0x1_0000 % 256
    case 3 => n / 0x100_0000 % 256
    case 4 => n / 0x1_0000_0000 % 256
    case 5 => n / 0x100_0000_0000 % 256
    case 6 => n / 0x1_0000_0000_0000 % 256
    case _ => n / 0x100_0000_0000_0000
  }

  /** Byte 0 is the least significant. */
  lemma LengthByteShifts(n: nat, i: nat)
    requires n < TWO_TO_THE_64 && i < 7
    ensures LengthByte(n, 0) == n % 256 && LengthByte(n, i + 1) == LengthByte(n / 256, i)
  {
    var m := n / 256;
    match i
    case 0 =>
    case 1 => assert m / 0x100 == n / 0x1_0000;
    case 2 => assert m / 0x1_0000 == n / 0x100_0000;
    case 3 => assert m / 0x100_0000 == n / 0x1_0000_0000;
    case 4 => assert m / 0x1_0000_0000 == n / 0x100_0000_0000;
    case 5 => assert m / 0x100_0000_0000 == n / 0x1_0000_0000_0000;
    case _ => assert m / 0x1_0000_0000_0000 == n / 0x100_0000_0000_0000;
  }

  /** An 8-byte big-endian integer. */
  function BigEndian64(n: nat): (b: seq<byte>)
    requires n < TWO_TO_THE_64
    ensures |b| == 8
  {
    [LengthByte(n, 7), LengthByte(n, 6), LengthByte(n, 5), LengthByte(n, 4),
     LengthByte(n, 3), LengthByte(n, 2), LengthByte(n, 1), LengthByte(n, 0)]
  }

  /** Section 5.1.1: how many zero bytes follow the byte 0x80. */
  function PadZeros(len: nat): nat { (119 - len % 64) % 64 }

  /** Section 5.1.1 asks for the smallest non-negative solution of l + 1 + k = 448 (mod 512). */
  lemma PadZerosIsSmallest(len: nat, k: nat)
    ensures (len + 1 + PadZeros(len)) % 64 == 56
    ensures (len + 1 + k) % 64 == 56 ==> PadZeros(len) <= k
  {
    var q, r := len / 64, len % 64;
    assert len == 64 * q + r;
    assert PadZeros(len) == if r <= 55 then 55 - r else 119 - r;
    SmallestPadding(q, r, k, (len + 1 + k) / 64);
  }

  lemma SmallestPadding(q: nat, r: nat, k: nat, t: nat)
    requires r < 64
    ensures var zeros := if r <= 55 then 55 - r else 119 - r;
            64 * q + r + 1 + k == 64 * t + 56 ==> zeros <= k
  {
    assert 64 * q + r + 1 + k == 64 * t + 56 ==> k == 64 * (t - q) + 55 - r;
  }

  lemma PadFillsBlocks(len: nat)
    ensures (len + 9 + PadZeros(len)) % 64 == 0
  {}

  function Pad(m: seq<byte>): (p: seq<byte>)
    requires 8 * |m| < TWO_TO_THE_64
    ensures |p| % 64 == 0
  {
    PadFillsBlocks(|m|);
    m + [0x80] + Zeros(PadZeros(|m|)) + BigEndian64(8 * |m|)
  }

  /** The i-th byte of a big-endian word. */
  function WordByte(w: Word, i: nat): byte
    requires i < 4
  {
    match i
    case 0 => w / 0x100_0000
    case 1 => w / 0x1_0000 % 256
    case 2 => w / 0x100 % 256
    case _ => w % 256
  }

  /** Byte 0 is the most significant. */
  lemma WordByteShifts(w: Word, i: nat)
    requires i < 3
    ensures WordByte(w, 3) == w % 256 && WordByte(w, i) == WordByte(w / 256, i + 1)
  {}

  function Digest(s: seq<Word>): (d: seq<byte>)
    requires |s| == 8
    ensures |d| == 32
  {
    seq(32, j requires 0 <= j < 32 => WordByte(s[j / 4], j % 4))
  }

  function Sha256(m: seq<byte>): (d: seq<byte>)
    requires 8 * |m| < TWO_TO_THE_64
    ensures |d| == 32
  {
    Digest(HashBlocks(Pad(m)))
  }
}
