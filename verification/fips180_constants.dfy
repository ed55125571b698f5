/** What section 4.2.2 and section 5.3.3 of FIPS 180-4 say the constants are: bits of roots of the first primes. */
module Fips180Constants {
  import opened Bytes
  import opened Fips180

  // ----- the first 64 primes -----

  const P0: seq<nat> := [2, 3, 5, 7, 11, 13, 17, 19]
  const P1: seq<nat> := [23, 29, 31, 37, 41, 43, 47, 53]
  const P2: seq<nat> := [59, 61, 67, 71, 73, 79, 83, 89]
  const P3: seq<nat> := [97, 101, 103, 107, 109, 113, 127, 131]
  const P4: seq<nat> := [137, 139, 149, 151, 157, 163, 167, 173]
  const P5: seq<nat> := [179, 181, 191, 193, 197, 199, 211, 223]
  const P6: seq<nat> := [227, 229, 233, 239, 241, 251, 257, 263]
  const P7: seq<nat> := [269, 271, 277, 281, 283, 293, 307, 311]

  function Product(d: nat, q: nat): nat { d * q }

  ghost predicate IsPrime(n: nat) { n >= 2 && forall d: nat, q: nat :: d >= 2 && q >= 2 ==> Product(d, q) != n }

  /** No prime up to 17 divides n properly. */
  predicate Sieved(n: nat)
  {
    && n >= 2 && (n == 2 || n % 2 != 0) && (n == 3 || n % 3 != 0) && (n == 5 || n % 5 != 0) && (n == 7 || n % 7 != 0)
    && (n == 11 || n % 11 != 0) && (n == 13 || n % 13 != 0) && (n == 17 || n % 17 != 0)
  }

  lemma DivisibleIsNotSieved(n: nat)
    requires || (n % 2 == 0 && n > 2) || (n % 3 == 0 && n > 3) || (n % 5 == 0 && n > 5) || (n % 7 == 0 && n > 7)
             || (n % 11 == 0 && n > 11) || (n % 13 == 0 && n > 13) || (n % 17 == 0 && n > 17)
    ensures !Sieved(n)
  {}

  lemma NoRest(k: nat)
    ensures 2 * k % 2 == 0 && 3 * k % 3 == 0 && 5 * k % 5 == 0 && 7 * k % 7 == 0
    ensures 11 * k % 11 == 0 && 13 * k % 13 == 0 && 17 * k % 17 == 0
  {}

  lemma MultipleIsNotSieved(e: nat, k: nat)
    requires k >= 2
    requires e == 2 || e == 3 || e == 5 || e == 7 || e == 11 || e == 13 || e == 17
    ensures !Sieved(e * k)
  {
    hide Sieved;
    NoRest(k);
    match e
    case 2 => DivisibleIsNotSieved(2 * k);
    case 3 => DivisibleIsNotSieved(3 * k);
    case 5 => DivisibleIsNotSieved(5 * k);
    case 7 => DivisibleIsNotSieved(7 * k);
    case 11 => DivisibleIsNotSieved(11 * k);
    case 13 => DivisibleIsNotSieved(13 * k);
    case 17 => DivisibleIsNotSieved(17 * k);
  }

  lemma NotSievedIsMultiple(n: nat) returns (e: nat, k: nat)
    requires n >= 2 && !Sieved(n)
    ensures e >= 2 && k >= 2 && n == e * k
  {
    e := if n % 2 == 0 && n != 2 then 2 else if n % 3 == 0 && n != 3 then 3 else if n % 5 == 0 && n != 5 then 5
         else if n % 7 == 0 && n != 7 then 7 else if n % 11 == 0 && n != 11 then 11
         else if n % 13 == 0 && n != 13 then 13 else 17;
    k := n / e;
  }

  /** A factor up to 17 is a multiple of a prime up to 17. */
  lemma SmallFactor(n: nat, m: nat, r: nat)
    requires 2 <= m <= 17 && r >= 2 && n == m * r
    ensures !Sieved(n)
  {
    hide Sieved;
    if m % 2 == 0 {
      var h := m / 2;
      assert m * r == 2 * (h * r) && h * r >= r;
      MultipleIsNotSieved(2, h * r);
    } else if m % 3 == 0 {
      var h := m / 3;
      assert m * r == 3 * (h * r) && h * r >= r;
      MultipleIsNotSieved(3, h * r);
    } else {
      assert m == 5 || m == 7 || m == 11 || m == 13 || m == 17;
      MultipleIsNotSieved(m, r);
    }
  }

  lemma SieveFindsPrimes(n: nat)
    requires n < 18 * 18
    ensures IsPrime(n) <==> Sieved(n)
  {
    hide Sieved;
    SievedIsAboveOne(n);
    if Sieved(n) {
      forall d: nat, q: nat | d >= 2 && q >= 2
        ensures Product(d, q) != n
      {
        FactorIsNotSieved(d, q);
      }
    } else if n >= 2 {
      var e, k := NotSievedIsMultiple(n);
      assert Product(e, k) == n;
    }
  }

  lemma FactorIsNotSieved(d: nat, q: nat)
    requires d >= 2 && q >= 2
    ensures d * q < 18 * 18 ==> !Sieved(d * q)
  {
    hide Sieved;
    if d < 18 {
      SmallFactor(d * q, d, q);
    } else if q < 18 {
      SmallFactor(d * q, q, d);
    } else {
      assert d * q >= 18 * q >= 18 * 18;
    }
  }

  lemma SievedIsAboveOne(n: nat)
    ensures Sieved(n) ==> n >= 2
  {}

  predicate NoneSieved(lo: nat, hi: nat)
    decreases hi - lo
  {
    lo >= hi || (!Sieved(lo) && NoneSieved(lo + 1, hi))
  }

  lemma {:induction false} NoneSievedMeans(lo: nat, hi: nat, n: nat)
    requires NoneSieved(lo, hi) && lo <= n < hi
    ensures !Sieved(n)
    decreases hi - lo
  {
    if lo < n {
      NoneSievedMeans(lo + 1, hi, n);
    }
  }

  /** The next number after p that passes the sieve is q. */
  predicate SievedNext(p: nat, q: nat) { Sieved(q) && NoneSieved(p + 1, q) }

  lemma Row0(i: nat)
    requires i < 8
    ensures SievedNext(if i == 0 then 1 else P0[i - 1], P0[i])
  {}

  lemma Row1(i: nat)
    requires i < 8
    ensures SievedNext(if i == 0 then P0[7] else P1[i - 1], P1[i])
  {}

  lemma Row2(i: nat)
    requires i < 8
    ensures SievedNext(if i == 0 then P1[7] else P2[i - 1], P2[i])
  {}

  lemma Row3(i: nat)
    requires i < 8
    ensures SievedNext(if i == 0 then P2[7] else P3[i - 1], P3[i])
  {}

  lemma Row4(i: nat)
    requires i < 8
    ensures SievedNext(if i == 0 then P3[7] else P4[i - 1], P4[i])
  {}

  lemma Row5(i: nat)
    requires i < 8
    ensures SievedNext(if i == 0 then P4[7] else P5[i - 1], P5[i])
  {}

  lemma Row6(i: nat)
    requires i < 8
    ensures SievedNext(if i == 0 then P5[7] else P6[i - 1], P6[i])
  {}

  lemma Row7(i: nat)
    requires i < 8
    ensures SievedNext(if i == 0 then P6[7] else P7[i - 1], P7[i])
  {}

  function PrimeRow(j: nat): (row: seq<nat>)
    requires j < 8
    ensures |row| == 8
  {
    match j
    case 0 => P0
    case 1 => P1
    case 2 => P2
    case 3 => P3
    case 4 => P4
    case 5 => P5
    case 6 => P6
    case _ => P7
  }

  lemma {:induction false} ConstantByRow(m: nat, j: nat, i: nat)
    requires m <= j < 8 && i < 8
    ensures KFrom(m)[8 * (j - m) + i] == KRow(j)[i]
    decreases j - m
  {
    hide KRow;
    if m < j {
      ConstantByRow(m + 1, j, i);
    }
  }

  /** The prime before PrimeRow(j)[i] in the table, or 1. */
  function Previous(j: nat, i: nat): nat
    requires j < 8 && i < 8
  {
    if i > 0 then PrimeRow(j)[i - 1] else if j > 0 then PrimeRow(j - 1)[7] else 1
  }

  lemma NextInRow(j: nat, i: nat)
    requires j < 8 && i < 8
    ensures Previous(j, i) < PrimeRow(j)[i] <= 311 && SievedNext(Previous(j, i), PrimeRow(j)[i])
  {
    hide SievedNext;
    match j
    case 0 => Row0(i);
    case 1 => Row1(i);
    case 2 => Row2(i);
    case 3 => Row3(i);
    case 4 => Row4(i);
    case 5 => Row5(i);
    case 6 => Row6(i);
    case _ => Row7(i);
  }

  /** The table lists the primes in order from 2: each entry is a prime, and the next one after its predecessor. */
  lemma PrimesInOrder(j: nat, i: nat)
    requires j < 8 && i < 8
    ensures IsPrime(PrimeRow(j)[i]) && Previous(j, i) < PrimeRow(j)[i]
    ensures forall n: nat :: IsPrime(n) && n < PrimeRow(j)[i] ==> n <= Previous(j, i)
  {
    hide Sieved, NoneSieved, IsPrime, PrimeRow, Previous;
    var q := PrimeRow(j)[i];
    NextInRow(j, i);
    SieveFindsPrimes(q);
    forall n: nat | IsPrime(n) && n < q
      ensures n <= Previous(j, i)
    {
      SieveFindsPrimes(n);
      if n > Previous(j, i) {
        NoneSievedMeans(Previous(j, i) + 1, q, n);
      }
    }
  }

  // ----- their roots -----

  function Cube(r: nat): nat { r * r * r }

  /** With c its integer part, the cube root of p begins with the fractional bits w. */
  predicate CubeRootBits(p: nat, c: nat, w: Word)
  {
    var r := c * TWO_TO_THE_32 + w;
    Cube(r) <= p * TWO_TO_THE_32 * TWO_TO_THE_64 < Cube(r + 1)
  }

  predicate SquareRootBits(p: nat, c: nat, w: Word)
  {
    var r := c * TWO_TO_THE_32 + w;
    r * r <= p * TWO_TO_THE_64 < (r + 1) * (r + 1)
  }

  lemma CubeRow0(i: nat)
    requires i < 8
    ensures CubeRootBits(P0[i], [1, 1, 1, 1, 2, 2, 2, 2][i], K0[i])
  {}

  lemma CubeRow1(i: nat)
    requires i < 8
    ensures CubeRootBits(P1[i], [2, 3, 3, 3, 3, 3, 3, 3][i], K1[i])
  {}

  lemma CubeRow2(i: nat)
    requires i < 8
    ensures CubeRootBits(P2[i], [3, 3, 4, 4, 4, 4, 4, 4][i], K2[i])
  {}

  lemma CubeRow3(i: nat)
    requires i < 8
    ensures CubeRootBits(P3[i], [4, 4, 4, 4, 4, 4, 5, 5][i], K3[i])
  {}

  lemma CubeRow4(i: nat)
    requires i < 8
    ensures CubeRootBits(P4[i], [5, 5, 5, 5, 5, 5, 5, 5][i], K4[i])
  {}

  lemma CubeRow5(i: nat)
    requires i < 8
    ensures CubeRootBits(P5[i], [5, 5, 5, 5, 5, 5, 5, 6][i], K5[i])
  {}

  lemma CubeRow6(i: nat)
    requires i < 8
    ensures CubeRootBits(P6[i], [6, 6, 6, 6, 6, 6, 6, 6][i], K6[i])
  {}

  lemma CubeRow7(i: nat)
    requires i < 8
    ensures CubeRootBits(P7[i], [6, 6, 6, 6, 6, 6, 6, 6][i], K7[i])
  {}

  lemma CubeRow(j: nat, i: nat) returns (c: nat)
    requires j < 8 && i < 8
    ensures CubeRootBits(PrimeRow(j)[i], c, KRow(j)[i])
  {
    hide CubeRootBits;
    match j
    case 0 =>
      CubeRow0(i);
      c := [1, 1, 1, 1, 2, 2, 2, 2][i];
    case 1 =>
      CubeRow1(i);
      c := [2, 3, 3, 3, 3, 3, 3, 3][i];
    case 2 =>
      CubeRow2(i);
      c := [3, 3, 4, 4, 4, 4, 4, 4][i];
    case 3 =>
      CubeRow3(i);
      c := [4, 4, 4, 4, 4, 4, 5, 5][i];
    case 4 =>
      CubeRow4(i);
      c := [5, 5, 5, 5, 5, 5, 5, 5][i];
    case 5 =>
      CubeRow5(i);
      c := [5, 5, 5, 5, 5, 5, 5, 6][i];
    case 6 =>
      CubeRow6(i);
      c := [6, 6, 6, 6, 6, 6, 6, 6][i];
    case _ =>
      CubeRow7(i);
      c := [6, 6, 6, 6, 6, 6, 6, 6][i];
  }

  /** K[t] is the first 32 bits of the fractional part of the cube root of the t-th prime. */
  lemma RoundConstantsAreRoots(t: nat)
    requires t < 64
    ensures |K| == 64 && exists c: nat :: CubeRootBits(PrimeRow(t / 8)[t % 8], c, K[t])
  {
    hide CubeRootBits, PrimeRow, KRow;
    ConstantByRow(0, t / 8, t % 8);
    var c := CubeRow(t / 8, t % 8);
  }

  /** IV[i] is the first 32 bits of the fractional part of the square root of the i-th prime. */
  lemma InitialValueIsRoots(i: nat)
    requires i < 8
    ensures exists c: nat :: SquareRootBits(PrimeRow(0)[i], c, IV[i])
  {
    assert SquareRootBits(PrimeRow(0)[i], [1, 1, 2, 2, 3, 3, 4, 4][i], IV[i]);
  }
}
