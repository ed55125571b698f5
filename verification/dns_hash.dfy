/** hbf_dns_safe_hash: eight base-36 characters cut from a SHA-256 digest. */
module DnsHash {
  import opened Bytes
  import Fips180
  import Sha256

  const BASE36: seq<char> := "0123456789abcdefghijklmnopqrstuvwxyz"

  function Digit(n: nat): char
    requires n < 36
  {
    BASE36[n]
  }

  predicate IsDigit(c: char) { '0' <= c <= '9' || 'a' <= c <= 'z' }

  predicate Numeral(s: seq<char>) { forall i :: 0 <= i < |s| ==> IsDigit(s[i]) }

  function DigitValue(c: char): (n: nat)
    requires IsDigit(c)
    ensures n < 36
  {
    if c <= '9' then c as int - '0' as int else c as int - 'a' as int + 10
  }

  lemma DigitRoundTrip(n: nat)
    requires n < 36
    ensures IsDigit(Digit(n)) && DigitValue(Digit(n)) == n
  {}

  /** The digits in the order of their characters are 0 to 35; with the round trip this leaves one alphabet. */
  lemma DigitsInOrder(m: nat, n: nat)
    requires m < n < 36
    ensures '0' <= Digit(m) < Digit(n) <= 'z'
    ensures Digit(m) <= '9' <==> m < 10
  {
    DigitRoundTrip(m);
    DigitRoundTrip(n);
  }

  function Power(b: nat, e: nat): (p: nat)
    ensures b > 0 ==> p > 0
  {
    if e == 0 then 1 else b * Power(b, e - 1)
  }

  /** The value of a base-36 numeral, most significant digit first. */
  function Value(s: seq<char>): nat
    requires Numeral(s)
  {
    if s == [] then 0 else DigitValue(s[0]) * Power(36, |s| - 1) + Value(s[1..])
  }

  lemma {:induction false} ValueBound(s: seq<char>)
    requires Numeral(s)
    ensures Value(s) < Power(36, |s|)
  {
    if s != [] {
      ValueBound(s[1..]);
      Times(DigitValue(s[0]), 36, Power(36, |s| - 1));
    }
  }

  /** Numerals of one length are determined by their value. */
  lemma {:induction false} ValueInjective(s: seq<char>, t: seq<char>)
    requires Numeral(s) && Numeral(t) && |s| == |t| && Value(s) == Value(t)
    ensures s == t
  {
    if s != [] {
      var p := Power(36, |s| - 1);
      ValueBound(s[1..]);
      ValueBound(t[1..]);
      LeadingDigit(DigitValue(s[0]), Value(s[1..]), DigitValue(t[0]), Value(t[1..]), p);
      ValueInjective(s[1..], t[1..]);
    }
  }

  lemma Times(a: nat, b: nat, p: nat)
    requires a < b
    ensures a * p + p <= b * p
  {
    assert (a + 1) * p <= b * p;
  }

  lemma LeadingDigit(d: nat, r: nat, e: nat, q: nat, p: nat)
    requires r < p && q < p && d * p + r == e * p + q
    ensures d == e && r == q
  {
    if d < e {
      Times(d, e, p);
    } else if e < d {
      Times(e, d, p);
    }
  }

  /** The big-endian value of a byte string. */
  function BigEndianValue(b: seq<byte>): nat
  {
    if b == [] then 0 else 256 * BigEndianValue(b[..|b| - 1]) + b[|b| - 1]
  }

  /** The bytes before count 256 times for each byte after, and one byte counts its value. */
  lemma {:induction false} BigEndianConcat(a: seq<byte>, b: seq<byte>)
    ensures BigEndianValue(a + b) == BigEndianValue(a) * Power(256, |b|) + BigEndianValue(b)
    ensures |b| == 1 ==> BigEndianValue(b) == b[0]
  {
    if b == [] {
      assert a + b == a;
    } else {
      var n := |b| - 1;
      BigEndianConcat(a, b[..n]);
      assert (a + b)[..|a + b| - 1] == a + b[..n];
      Regroup(BigEndianValue(a), Power(256, n), BigEndianValue(b[..n]));
    }
  }

  lemma Regroup(x: nat, p: nat, y: nat)
    ensures 256 * (x * p + y) == x * (256 * p) + 256 * y
  {}

  lemma {:induction false} BigEndianBound(b: seq<byte>)
    ensures BigEndianValue(b) < Power(256, |b|)
  {
    if b != [] {
      BigEndianBound(b[..|b| - 1]);
    }
  }

  /** The 64-bit number the hash is cut from. */
  function Prefix64(input: seq<byte>): nat
    requires 8 * |input| < TWO_TO_THE_64
  {
    BigEndianValue(Fips180.Sha256(input)[..8])
  }

  /** The accumulation loop: a 64-bit shift left by 8, then OR with a byte (the low 8 bits are free). */
  method FirstEightBytes(hash: seq<byte>) returns (num: nat)
    requires |hash| == 32
    ensures num == BigEndianValue(hash[..8]) < TWO_TO_THE_64
  {
    num := 0;
    var i := 0;
    while i < 8
      invariant 0 <= i <= 8
      invariant num == BigEndianValue(hash[..i])
    {
      BigEndianBound(hash[..i]);
      PowerMonotone(i);
      assert hash[..i + 1][..i] == hash[..i];
      num := num * 256 % TWO_TO_THE_64 + hash[i];
      i := i + 1;
    }
    BigEndianBound(hash[..8]);
  }

  lemma PowerMonotone(i: nat)
    requires i < 8
    ensures Power(256, i) <= Power(256, 7) == 0x100_0000_0000_0000
    ensures Power(256, 8) == TWO_TO_THE_64
  {
    assert Power(256, 1) == 256 && Power(256, 2) == 0x1_0000 && Power(256, 3) == 0x100_0000;
    assert Power(256, 4) == 0x1_0000_0000 && Power(256, 5) == 0x100_0000_0000;
    assert Power(256, 6) == 0x1_0000_0000_0000;
  }

  /** n is num followed by the digits in `done`. */
  ghost predicate Encoded(n: nat, num: nat, done: seq<char>)
  {
    Numeral(done) && n == num * Power(36, |done|) + Value(done)
  }

  lemma PrependDigit(n: nat, num: nat, done: seq<char>)
    requires Encoded(n, num, done)
    ensures Encoded(n, num / 36, [Digit(num % 36)] + done)
  {
    hide Digit, DigitValue, IsDigit;
    var s := [Digit(num % 36)] + done;
    var p := Power(36, |done|);
    DigitRoundTrip(num % 36);
    assert s[1..] == done;
    ShiftDigit(num, p);
  }

  lemma ShiftDigit(num: nat, p: nat)
    ensures num * p == num / 36 * (36 * p) + num % 36 * p
  {
    assert num == num / 36 * 36 + num % 36;
  }

  lemma NothingEncoded(n: nat)
    ensures Encoded(n, n, [])
  {}

  lemma EncodedIsRemainder(n: nat, num: nat, s: seq<char>)
    requires Encoded(n, num, s)
    ensures Numeral(s) && Value(s) == n % Power(36, |s|)
  {
    hide Power, Value, Numeral;
    ValueBound(s);
    Remainder(n, num, Power(36, |s|), Value(s));
  }

  method StoreDigit(output: array<char>, i: nat, c: char)
    requires i < 8 <= output.Length
    modifies output
    ensures output[i..8] == [c] + old(output[i + 1..8])
    ensures output[8..] == old(output[8..])
  {
    output[i] := c;
    assert output[i..8] == [output[i]] + output[i + 1..8];
  }

  /** The base-36 loop, filling output[7] down to output[0]. */
  method EncodeBase36(n: nat, output: array<char>)
    requires output.Length >= 9
    modifies output
    ensures Numeral(output[..8]) && Value(output[..8]) == n % Power(36, 8)
    ensures output[8..] == old(output[8..])
  {
    hide Digit, Power, Value, Numeral, Encoded;
    var num: nat := n;
    var i := 7;
    NothingEncoded(n);
    assert output[8..8] == [];
    while i >= 0
      invariant -1 <= i <= 7
      invariant Encoded(n, num, output[i + 1..8])
      invariant output[8..] == old(output[8..])
    {
      PrependDigit(n, num, output[i + 1..8]);
      StoreDigit(output, i, Digit(num % 36));
      num := num / 36;
      i := i - 1;
    }
    EncodedIsRemainder(n, num, output[..8]);
  }

  /** hbf_dns_safe_hash for a C string given by its bytes; output[8] is the terminating NUL. */
  method DnsSafeHash(input: seq<byte>, output: array<char>)
    requires 0 !in input && 8 * |input| < TWO_TO_THE_64 && output.Length >= 9
    modifies output
    ensures Numeral(output[..8])
    ensures Value(output[..8]) == Prefix64(input) % Power(36, 8)
    ensures output[8] == '\0'
    ensures output[9..] == old(output[9..])
  {
    hide Digit, Power, Value, IsDigit, Fips180.Sha256, BigEndianValue;
    var hash := Sha256.HashMessage(input);
    var num := FirstEightBytes(hash);
    EncodeBase36(num, output);
    assert output[9..] == output[8..][1..];
    ghost var s := output[..8];
    output[8] := '\0';
    assert output[..8] == s;
  }

  lemma Remainder(n: nat, q: nat, p: nat, r: nat)
    requires r < p && n == q * p + r
    ensures n % p == r
  {
    LeadingDigit(q, r, n / p, n % p, p);
  }

  /** Two outputs of the hash are the same string exactly when the 64-bit prefixes agree modulo 36^8. */
  lemma CollideIff(x: seq<byte>, y: seq<byte>, s: seq<char>, t: seq<char>)
    requires 8 * |x| < TWO_TO_THE_64 && 8 * |y| < TWO_TO_THE_64
    requires |s| == 8 && Numeral(s) && Value(s) == Prefix64(x) % Power(36, 8)
    requires |t| == 8 && Numeral(t) && Value(t) == Prefix64(y) % Power(36, 8)
    ensures s == t <==> Prefix64(x) % Power(36, 8) == Prefix64(y) % Power(36, 8)
  {
    if Value(s) == Value(t) {
      ValueInjective(s, t);
    }
  }
}
