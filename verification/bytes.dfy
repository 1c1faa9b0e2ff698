/** Byte strings and the little-endian integer fields of the wire format:
    `struct.pack('<H')`, `struct.pack('<I')` and `int.to_bytes(n, 'little')`,
    plus the NUL-terminated text helpers `find`, `split` and `ljust`. */
module Bytes {
  import opened Wrappers

  type Byte = b: int | 0 <= b < 0x100
  type Bytes = seq<Byte>
  type U16 = n: int | 0 <= n < 0x1_0000
  type U32 = n: int | 0 <= n < 0x1_0000_0000

  const NUL: Byte := 0

  function Repeat(b: Byte, n: nat): (r: Bytes)
    ensures |r| == n
    ensures forall i :: 0 <= i < n ==> r[i] == b
  {
    seq(n, _ => b)
  }

  function Min(a: int, b: int): int
  {
    if a <= b then a else b
  }

  // ---------------------------------------------------------------------
  // Little-endian unsigned integers
  // ---------------------------------------------------------------------

  /** `struct.pack('<H', n)`, also `n.to_bytes(2, 'little')`. */
  function EncodeU16(n: U16): (r: Bytes)
    ensures |r| == 2
  {
    [n % 0x100, n / 0x100]
  }

  /** `struct.unpack('<H', b)`. Every two bytes are the encoding of the
      number they decode to, so the field loses nothing. */
  function DecodeU16(b: Bytes): (n: U16)
    requires |b| == 2
    ensures EncodeU16(n) == b
  {
    b[0] as int + 0x100 * (b[1] as int)
  }

  /** `struct.pack('<I', n)`, also `n.to_bytes(4, 'little')`. */
  function EncodeU32(n: U32): (r: Bytes)
    ensures |r| == 4
  {
    [n % 0x100, n / 0x100 % 0x100, n / 0x1_0000 % 0x100, n / 0x100_0000]
  }

  /** `struct.unpack('<I', b)`. Every four bytes are the encoding of the
      number they decode to. */
  function DecodeU32(b: Bytes): (n: U32)
    requires |b| == 4
    ensures EncodeU32(n) == b
  {
    var n := b[0] as int + 0x100 * (b[1] as int) + 0x1_0000 * (b[2] as int) + 0x100_0000 * (b[3] as int);
    var m1 := b[1] as int + 0x100 * (b[2] as int) + 0x1_0000 * (b[3] as int);
    var m2 := b[2] as int + 0x100 * (b[3] as int);
    SplitByte(b[0], m1);
    SplitByte(b[1], m2);
    SplitByte(b[2], b[3]);
    DivTwice(n);
    DivThrice(n);
    n
  }

  /** Decoding a two-byte field gives back the number that was encoded. */
  lemma DecodeEncodeU16(n: U16)
    ensures DecodeU16(EncodeU16(n)) == n
  {
  }

  /** Decoding a four-byte field gives back the number that was encoded. */
  lemma DecodeEncodeU32(n: U32)
    ensures DecodeU32(EncodeU32(n)) == n
  {
  }

  lemma SplitByte(lo: int, hi: int)
    requires 0 <= lo < 0x100
    ensures (lo + 0x100 * hi) / 0x100 == hi
    ensures (lo + 0x100 * hi) % 0x100 == lo
  {
  }

  lemma DivTwice(n: nat)
    ensures n / 0x1_0000 == n / 0x100 / 0x100
  {
  }

  lemma DivThrice(n: nat)
    ensures n / 0x100_0000 == n / 0x100 / 0x100 / 0x100
  {
  }

  // ---------------------------------------------------------------------
  // NUL-terminated text
  // ---------------------------------------------------------------------

  /** Position of the first NUL byte: `s.find(b'\x00')`, with None for -1. */
  function FindNul(s: Bytes): (r: Option<nat>)
    ensures r.None? <==> NUL !in s
    ensures r.Some? ==> r.value < |s| && s[r.value] == NUL && NUL !in s[..r.value]
  {
    if |s| == 0 then None
    else if s[0] == NUL then Some(0)
    else match FindNul(s[1..])
      case None => None
      case Some(k) =>
        assert s[..k + 1] == [s[0]] + s[1..][..k];
        Some(k + 1)
  }

  /** The bytes before the first NUL, or all of them when there is none:
      `s.split(b'\x00')[0]`. */
  function BeforeNul(s: Bytes): (r: Bytes)
    ensures NUL !in r
    ensures r <= s
    ensures |r| < |s| ==> s[|r|] == NUL
  {
    match FindNul(s)
    case None => s
    case Some(k) => s[..k]
  }

  /** `s.ljust(n, b'\x00')`: pads with NUL bytes up to length n and never
      shortens. */
  function PadNul(s: Bytes, n: nat): (r: Bytes)
    ensures |r| == if |s| < n then n else |s|
    ensures s <= r
    ensures forall i :: |s| <= i < |r| ==> r[i] == NUL
  {
    if |s| < n then s + Repeat(NUL, n - |s|) else s
  }

  /** Bytes that `decode('ascii')` accepts. */
  predicate IsAscii(s: Bytes)
  {
    forall i :: 0 <= i < |s| ==> s[i] < 0x80
  }

  /** A NUL-free text, terminated and padded to any field that holds it, is
      read back unchanged by `BeforeNul`. */
  lemma {:induction false} BeforeNulOfPadded(s: Bytes, n: nat)
    requires NUL !in s
    requires |s| < n
    ensures BeforeNul(PadNul(s + [NUL], n)) == s
  {
    var p := PadNul(s + [NUL], n);
    assert p[|s|] == NUL;
    assert p[..|s|] == s;
  }
}
