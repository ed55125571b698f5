/** Where the published example of SHA-256 for the message "abc" meets the definitions taken from FIPS 180-4. */
module KnownAnswer {
  import opened Bytes
  import opened Fips180

  /** The four functions on the working variables at the start of the first round. */
  lemma FunctionsOfIV()
    ensures BigSigma1(0x510e527f) == 0x3587272b && BigSigma0(0x6a09e667) == 0xce20b47e
    ensures Ch(0x510e527f, 0x9b05688c, 0x1f83d9ab) == 0x1f85c98c
    ensures Maj(0x6a09e667, 0xbb67ae85, 0x3c6ef372) == 0x3a6fe667
  {}

  /** Seven additions modulo 2^32 in the first round. */
  lemma SumsOfFirstRound()
    ensures var t1 := Add(Add(Add(Add(0x5be0cd19, 0x3587272b), 0x1f85c98c), 0x428a2f98), 0x61626380);
            && Add(t1, Add(0xce20b47e, 0x3a6fe667)) == 0x5d6aebcd
            && Add(0xa54ff53a, t1) == 0xfa2a4622
  {}

  /** The working variables after the first round, t = 0 in the published example. */
  lemma FirstRound()
    ensures Round(Load(IV), K[0], 0x61626380) ==
            Vars(0x5d6aebcd, 0x6a09e667, 0xbb67ae85, 0x3c6ef372, 0xfa2a4622, 0x510e527f, 0x9b05688c, 0x1f83d9ab)
  {
    hide BigSigma0, BigSigma1, Ch, Maj, Add;
    FunctionsOfIV();
    SumsOfFirstRound();
    assert K[0] == K0[0];
  }

  /** The two functions of the message schedule, on the first word of the example and on its length. */
  lemma FunctionsOfSchedule()
    ensures SmallSigma0(0x61626380) == 0x940e90ef && SmallSigma1(0x00000018) == 0x000f0000
  {}

  lemma {:induction false} SchedulePrefix(block: seq<byte>, m: nat, n: nat)
    requires |block| == 64 && m <= n <= 64
    ensures Schedule(block, n)[..m] == Schedule(block, m)
  {
    if m < n {
      SchedulePrefix(block, m, n - 1);
      assert Schedule(block, n)[..n - 1] == Schedule(block, n - 1);
    }
  }

  /** Step 1 of section 6.2.2 as the standard writes it, on the finished schedule. */
  lemma ScheduleEquation(block: seq<byte>, t: nat)
    requires |block| == 64 && t < 64
    ensures var w := Schedule(block, 64);
            w[t] == if t < 16 then BigEndianWord(block[4 * t], block[4 * t + 1], block[4 * t + 2], block[4 * t + 3])
                    else Add(Add(Add(SmallSigma1(w[t - 2]), w[t - 7]), SmallSigma0(w[t - 15])), w[t - 16])
  {
    hide BigEndianWord, Add, SmallSigma0, SmallSigma1;
    var w, v, u := Schedule(block, 64), Schedule(block, t + 1), Schedule(block, t);
    SchedulePrefix(block, t + 1, 64);
    SchedulePrefix(block, t, 64);
    assert w[t] == v[t];
    assert forall i :: 0 <= i < t ==> w[..t][i] == u[i];
  }

  /** Step 4 of section 6.2.2 adds the working variables in order. */
  lemma VariablesAddedInOrder(s: seq<Word>, v: Vars)
    requires |s| == 8
    ensures Load(AddVars(s, v)) ==
            Vars(Add(s[0], v.a), Add(s[1], v.b), Add(s[2], v.c), Add(s[3], v.d),
                 Add(s[4], v.e), Add(s[5], v.f), Add(s[6], v.g), Add(s[7], v.h))
  {}

  lemma WordOfBytes(w: Word)
    ensures BigEndianWord(WordByte(w, 0), WordByte(w, 1), WordByte(w, 2), WordByte(w, 3)) == w
  {
    var a, b := w / 0x100_0000, w / 0x1_0000;
    var c := w / 0x100;
    assert w == 256 * c + w % 256 && c == 256 * b + c % 256 && b == 256 * a + b % 256;
  }

  /** The digest is the final hash value, word by word, each most significant byte first. */
  lemma DigestIsHashValue(s: seq<Word>, i: nat)
    requires |s| == 8 && i < 8
    ensures var d := Digest(s);
            BigEndianWord(d[4 * i], d[4 * i + 1], d[4 * i + 2], d[4 * i + 3]) == s[i]
  {
    hide WordByte, BigEndianWord;
    WordOfBytes(s[i]);
  }

  /** The padded message: the message, 0x80, zeros, and its bit length in the last eight bytes. */
  lemma PaddedParts(m: seq<byte>)
    requires 8 * |m| < TWO_TO_THE_64
    ensures var p := Pad(m);
            && |m| + 9 <= |p| && m < p && p[|m|] == 0x80 && p[|p| - 8..] == BigEndian64(8 * |m|)
            && forall i :: |m| < i < |p| - 8 ==> p[i] == 0
  {
    hide BigEndian64;
  }

  /** Its last byte is the lowest, and the bytes before it are those of the number shifted right by eight bits. */
  lemma LengthIsBigEndian(n: nat)
    requires n < TWO_TO_THE_64
    ensures BigEndian64(n)[7] == n % 256 && BigEndian64(n / 256) == [0] + BigEndian64(n)[..7]
  {
    hide LengthByte;
    LengthByteShifts(n, 0);
    LengthByteShifts(n, 1);
    LengthByteShifts(n, 2);
    LengthByteShifts(n, 3);
    LengthByteShifts(n, 4);
    LengthByteShifts(n, 5);
    LengthByteShifts(n, 6);
    TopByteIsClear(n / 256);
  }

  lemma TopByteIsClear(n: nat)
    requires n < 0x100_0000_0000_0000
    ensures LengthByte(n, 7) == 0
  {}
}
