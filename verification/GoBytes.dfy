/** Go's byte slices and strings: both are byte sequences, and integers are written into them in
    a fixed byte order by `encoding/binary`. */
module GoBytes {

  type byte = b: int | 0 <= b < 256

  /** A Go string is an immutable sequence of bytes. */
  type Str = seq<byte>

  /** A byte as a number: byte arithmetic that may leave the byte range. */
  function Int(b: byte): int { b }

  const U16 := 0x1_0000
  const U32 := 0x1_0000_0000
  const U63 := 0x8000_0000_0000_0000
  const U64 := 0x1_0000_0000_0000_0000

  const NUL: byte := 0
  const LF: byte := 10
  const CR: byte := 13
  const SPACE: byte := 32
  const PLUS: byte := 43
  const COMMA: byte := 44
  const MINUS: byte := 45
  const DOT: byte := 46
  const SLASH: byte := 47
  const ZERO: byte := 48
  const BACKSLASH: byte := 92

  datatype Option<+T> = None | Some(value: T)

  /** The bytes of an ASCII literal. */
  function Ascii(s: string): (b: Str)
    ensures |b| == |s|
  {
    seq(|s|, i requires 0 <= i < |s| => s[i] as int % 256)
  }

  /** `uint32(n)`: the low 32 bits. */
  function Low32(n: int): (r: int)
    ensures 0 <= r < U32
  {
    n % U32
  }

  /** `binary.BigEndian.PutUint32(b, uint32(n))`: the conversion keeps the low 32 bits. */
  function BE32(n: int): (b: seq<byte>)
    ensures |b| == 4
  {
    var q1 := n / 256;
    var q2 := q1 / 256;
    var q3 := q2 / 256;
    [q3 % 256, q2 % 256, q1 % 256, n % 256]
  }

  function FromBE32(b: seq<byte>): (n: int)
    requires |b| >= 4
    ensures 0 <= n < U32
  {
    var b0: int, b1: int, b2: int, b3: int := b[0], b[1], b[2], b[3];
    0x100_0000 * b0 + 0x1_0000 * b1 + 0x100 * b2 + b3
  }

  function BE64(n: int): (b: seq<byte>)
    ensures |b| == 8
  {
    BE32(n / U32) + BE32(n)
  }

  function FromBE64(b: seq<byte>): (n: int)
    requires |b| >= 8
    ensures 0 <= n < U64
  {
    FromBE32(b[..4]) * U32 + FromBE32(b[4..8])
  }

  function LE16(n: int): (b: seq<byte>)
    ensures |b| == 2
  {
    [n % 256, n / 0x100 % 256]
  }

  function FromLE16(b: seq<byte>): (n: int)
    requires |b| >= 2
    ensures 0 <= n < U16
  {
    var b0: int, b1: int := b[0], b[1];
    b0 + 0x100 * b1
  }

  function LE32(n: int): (b: seq<byte>)
    ensures |b| == 4
  {
    var q1 := n / 256;
    var q2 := q1 / 256;
    var q3 := q2 / 256;
    [n % 256, q1 % 256, q2 % 256, q3 % 256]
  }

  function FromLE32(b: seq<byte>): (n: int)
    requires |b| >= 4
    ensures 0 <= n < U32
  {
    var b0: int, b1: int, b2: int, b3: int := b[0], b[1], b[2], b[3];
    b0 + 0x100 * b1 + 0x1_0000 * b2 + 0x100_0000 * b3
  }

  /** `int64(n)` of an unsigned 64-bit value. */
  function Signed64(n: int): (r: int)
    requires 0 <= n < U64
    ensures -U63 <= r < U63
  {
    if n < U63 then n else n - U64
  }

  /** Four base-256 digits are the value modulo 2^32. */
  lemma FourDigits(n: int, q1: int, q2: int, q3: int)
    requires q1 == n / 256 && q2 == q1 / 256 && q3 == q2 / 256
    ensures 0x100_0000 * (q3 % 256) + 0x1_0000 * (q2 % 256) + 0x100 * (q1 % 256) + n % 256 == n % U32
  {
    var r := 0x100_0000 * (q3 % 256) + 0x1_0000 * (q2 % 256) + 0x100 * (q1 % 256) + n % 256;
    assert n == U32 * (q3 / 256) + r;
  }

  /** Big-endian puts the highest byte first, little-endian the lowest. */
  lemma ByteOrder(a: byte, b: byte, c: byte, d: byte)
    ensures FromBE32([a, b, c, d]) == ((Int(a) * 256 + b) * 256 + c) * 256 + d
    ensures FromLE32([d, c, b, a]) == ((Int(a) * 256 + b) * 256 + c) * 256 + d
    ensures BE32(((Int(a) * 256 + b) * 256 + c) * 256 + d) == [a, b, c, d]
    ensures LE32(((Int(a) * 256 + b) * 256 + c) * 256 + d) == [d, c, b, a]
    ensures FromLE16([b, a]) == Int(a) * 256 + b && LE16(Int(a) * 256 + b) == [b, a]
  {
    var n := ((Int(a) * 256 + b) * 256 + c) * 256 + d;
    assert n / 256 == (Int(a) * 256 + b) * 256 + c && n % 256 == d;
    assert n / 256 / 256 == Int(a) * 256 + b && n / 256 % 256 == c;
    assert n / 256 / 256 / 256 == a && n / 256 / 256 % 256 == b && n / 256 / 256 / 256 % 256 == a;
    assert (Int(a) * 256 + b) / 0x100 % 256 == a && (Int(a) * 256 + b) % 256 == b;
  }

  lemma BE32RoundTrip(n: int)
    ensures FromBE32(BE32(n)) == Low32(n)
  {
    FourDigits(n, n / 256, n / 256 / 256, n / 256 / 256 / 256);
  }

  lemma BE64RoundTrip(n: int)
    requires 0 <= n < U64
    ensures FromBE64(BE64(n)) == n
  {
    hide BE32, FromBE32;
    assert BE64(n)[..4] == BE32(n / U32);
    assert BE64(n)[4..8] == BE32(n);
    BE32RoundTrip(n / U32);
    BE32RoundTrip(n);
  }

  lemma LE16RoundTrip(n: int)
    ensures FromLE16(LE16(n)) == n % U16
  {
  }

  lemma LE32RoundTrip(n: int)
    ensures FromLE32(LE32(n)) == Low32(n)
  {
    FourDigits(n, n / 256, n / 256 / 256, n / 256 / 256 / 256);
  }

  /** `copy(b[at:], s)` into a destination that has room for all of `s`. */
  method CopyAt(b: array<byte>, at: nat, s: seq<byte>)
    requires at + |s| <= b.Length
    modifies b
    ensures b[..at + |s|] == old(b[..at]) + s
    ensures b[at + |s|..] == old(b[at + |s|..])
  {
    var i := 0;
    while i < |s|
      invariant 0 <= i <= |s|
      invariant b[..at] == old(b[..at])
      invariant b[at..at + i] == s[..i]
      invariant b[at + i..] == old(b[at + i..])
    {
      b[at + i] := s[i];
      assert b[at..at + i + 1] == s[..i] + [s[i]];
      i := i + 1;
    }
    assert b[..at + |s|] == b[..at] + b[at..at + |s|];
  }
}
