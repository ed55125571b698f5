/** Bytes, fixed-width integers and C strings: the vocabulary shared by every other module. */
module Bytes {

  type byte = x: int | 0 <= x < 256

  datatype Option<+T> = None | Some(value: T)

  const TWO_TO_THE_32: int := 0x1_0000_0000
  const TWO_TO_THE_64: int := 0x1_0000_0000_0000_0000

  function Zeros(n: nat): (z: seq<byte>)
    ensures |z| == n
    ensures forall i :: 0 <= i < n ==> z[i] == 0
  {
    seq(n, _ => 0)
  }

  /** A C string as its reader sees it: the bytes before the first NUL. */
  function CString(s: seq<byte>): (c: seq<byte>)
    ensures 0 !in c && c <= s
    ensures c == s || s[|c|] == 0
  {
    if s == [] || s[0] == 0 then [] else [s[0]] + CString(s[1..])
  }

  lemma {:induction false} CStringOfPlainString(s: seq<byte>)
    requires 0 !in s
    ensures CString(s) == s
  {
    if s != [] {
      CStringOfPlainString(s[1..]);
    }
  }

  /** Little-endian 32-bit integer: what `memcpy` of a `uint32_t` leaves on a little-endian host. */
  function PutU32(n: nat): (b: seq<byte>)
    requires n < TWO_TO_THE_32
    ensures |b| == 4
  {
    [n % 256, n / 256 % 256, n / 256 / 256 % 256, n / 256 / 256 / 256]
  }

  /** `read_u32`: the four bytes occupy disjoint bit ranges, so the bitwise OR of the shifts is a sum. */
  function ReadU32(b: seq<byte>): (n: nat)
    requires |b| == 4
    ensures n < TWO_TO_THE_32
  {
    (b[0] as int) + 256 * ((b[1] as int) + 256 * ((b[2] as int) + 256 * (b[3] as int)))
  }

  /** The low byte comes first, and the rest follows as for the number shifted right by eight bits. */
  lemma U32IsLittleEndian(n: nat)
    requires n < TWO_TO_THE_32
    ensures PutU32(n)[0] == n % 256 && PutU32(n / 256) == PutU32(n)[1..] + [0]
  {
    assert PutU32(n / 256)[3] == 0;
  }

  lemma ReadPutU32(n: nat)
    requires n < TWO_TO_THE_32
    ensures ReadU32(PutU32(n)) == n
  {
    var m := n / 256;
    var k := m / 256;
    assert n == n % 256 + 256 * m && m == m % 256 + 256 * k;
  }

  lemma PutReadU32(b: seq<byte>)
    requires |b| == 4
    ensures PutU32(ReadU32(b)) == b
  {
    var k := (b[2] as int) + 256 * (b[3] as int);
    var m := (b[1] as int) + 256 * k;
    var n := (b[0] as int) + 256 * m;
    assert n / 256 == m && m / 256 == k && k / 256 == b[3];
  }
}
