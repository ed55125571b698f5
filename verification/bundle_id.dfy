/** compute_bundle_id: the lower-case hexadecimal SHA-256 of a compressed bundle. */
module BundleId {
  import opened Bytes
  import Fips180
  import Sha256

  /** A digit of "%02x". */
  function HexDigit(n: nat): char
    requires n < 16
  {
    if n < 10 then '0' + n as char else 'a' + (n - 10) as char
  }

  function Hex(b: seq<byte>): (s: string)
    ensures |s| == 2 * |b|
  {
    if b == [] then "" else Hex(b[..|b| - 1]) + [HexDigit(b[|b| - 1] / 16), HexDigit(b[|b| - 1] % 16)]
  }

  lemma {:induction false} HexInjective(a: seq<byte>, b: seq<byte>)
    ensures Hex(a) == Hex(b) <==> a == b
  {
    if Hex(a) == Hex(b) && a != [] {
      var n := |a| - 1;
      var s, t := Hex(a), Hex(b);
      assert s[..2 * n] == Hex(a[..n]) && t[..2 * n] == Hex(b[..n]);
      assert s[2 * n] == t[2 * n] && s[2 * n + 1] == t[2 * n + 1];
      HexInjective(a[..n], b[..n]);
      assert a == a[..n] + [a[n]] && b == b[..n] + [b[n]];
    }
  }

  /** The value of a hexadecimal digit, by its place in the alphabet. */
  function HexValue(c: char): Option<nat>
  {
    if '0' <= c <= '9' then Some(c as int - '0' as int)
    else if 'a' <= c <= 'f' then Some(c as int - 'a' as int + 10)
    else None
  }

  /** Reading a hexadecimal string, two digits a byte, high digit first. */
  function Unhex(s: string): Option<seq<byte>>
  {
    if s == "" then Some([])
    else if |s| == 1 then None
    else
      match (HexValue(s[0]), HexValue(s[1]), Unhex(s[2..]))
      case (Some(h), Some(l), Some(rest)) => if 16 * h + l < 256 then Some([16 * h + l] + rest) else None
      case _ => None
  }

  lemma HexOfConcat(a: seq<byte>, b: byte)
    ensures Hex(a + [b]) == Hex(a) + [HexDigit(b / 16), HexDigit(b % 16)]
  {
    assert (a + [b])[..|a|] == a;
  }

  lemma {:induction false} HexOfFirst(b: seq<byte>)
    requires b != []
    ensures Hex(b) == [HexDigit(b[0] / 16), HexDigit(b[0] % 16)] + Hex(b[1..])
  {
    if |b| > 1 {
      var n := |b| - 1;
      HexOfFirst(b[..n]);
      assert b[..n][1..] == b[1..][..n - 1];
    }
  }

  lemma HexDigitValue(n: nat)
    requires n < 16
    ensures HexValue(HexDigit(n)) == Some(n)
  {}

  lemma {:induction false} UnhexHex(b: seq<byte>)
    ensures Unhex(Hex(b)) == Some(b)
  {
    hide HexValue, HexDigit, Hex;
    if b == [] {
      NoDigits();
    } else {
      HexOfFirst(b);
      HexDigitValue(b[0] / 16);
      HexDigitValue(b[0] % 16);
      UnhexHex(b[1..]);
      assert Hex(b)[2..] == Hex(b[1..]);
      assert 16 * (b[0] / 16) + b[0] % 16 == b[0];
      assert [b[0]] + b[1..] == b;
    }
  }

  lemma NoDigits()
    ensures Hex([]) == ""
  {}

  lemma {:induction false} HexIsLowerCase(b: seq<byte>)
    ensures forall i :: 0 <= i < |Hex(b)| ==> '0' <= Hex(b)[i] <= '9' || 'a' <= Hex(b)[i] <= 'f'
  {
    if b != [] {
      HexIsLowerCase(b[..|b| - 1]);
    }
  }

  function IdOf(blob: seq<byte>): string
    requires 8 * |blob| < TWO_TO_THE_64
  {
    Hex(Fips180.Sha256(blob))
  }

  method ComputeBundleId(blob: seq<byte>) returns (id: string)
    requires 8 * |blob| < TWO_TO_THE_64
    ensures id == IdOf(blob) && |id| == 64
  {
    hide Fips180.Sha256;
    var hash := Sha256.HashMessage(blob);
    id := "";
    var i := 0;
    while i < 32
      invariant 0 <= i <= 32
      invariant id == Hex(hash[..i])
    {
      assert hash[..i + 1][..i] == hash[..i];
      id := id + [HexDigit(hash[i] / 16), HexDigit(hash[i] % 16)];
      i := i + 1;
    }
    assert hash[..32] == hash;
  }

  /** An id is 64 digits of 0-9a-f, and reading them gives the digest back. */
  lemma IdIsHexDigest(blob: seq<byte>)
    requires 8 * |blob| < TWO_TO_THE_64
    ensures |IdOf(blob)| == 64 && Unhex(IdOf(blob)) == Some(Fips180.Sha256(blob))
    ensures forall c :: c in IdOf(blob) ==> '0' <= c <= '9' || 'a' <= c <= 'f'
  {
    hide Fips180.Sha256, Unhex;
    UnhexHex(Fips180.Sha256(blob));
    HexIsLowerCase(Fips180.Sha256(blob));
  }

  /** Bundle ids collide exactly when the digests do. */
  lemma SameIdIff(x: seq<byte>, y: seq<byte>)
    requires 8 * |x| < TWO_TO_THE_64 && 8 * |y| < TWO_TO_THE_64
    ensures IdOf(x) == IdOf(y) <==> Fips180.Sha256(x) == Fips180.Sha256(y)
  {
    hide Fips180.Sha256;
    HexInjective(Fips180.Sha256(x), Fips180.Sha256(y));
  }
}
