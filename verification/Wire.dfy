/**
 Integer widths of the C source and their byte form on the wire.

 A fixed-width integer is written as its base-256 digits, most significant
 first when NET_DATA_BIG_END holds and least significant first otherwise.
 */
module Wire {

  type byte = x: int | 0 <= x < 0x100
  type u16 = x: int | 0 <= x < 0x1_0000
  type u32 = x: int | 0 <= x < 0x1_0000_0000
  type u64 = x: int | 0 <= x < 0x1_0000_0000_0000_0000
  type s8 = x: int | -0x80 <= x < 0x80
  type s16 = x: int | -0x8000 <= x < 0x8000
  type s32 = x: int | -0x8000_0000 <= x < 0x8000_0000
  type s64 = x: int | -0x8000_0000_0000_0000 <= x < 0x8000_0000_0000_0000

  type Bytes = seq<byte>

  datatype Option<+T> = None | Some(value: T)

  // A build option of the source; nothing here depends on which one it is.
  const NET_DATA_BIG_END: bool

  function Pow256(n: nat): (p: int)
    ensures p >= 1
  {
    if n == 0 then 1 else Pow256(n - 1) * 256
  }

  // The n low base-256 digits of x, most significant first.
  function Digits(x: nat, n: nat): (s: Bytes)
    ensures |s| == n
  {
    if n == 0 then [] else Digits(x / 256, n - 1) + [x % 256]
  }

  // The number a digit string denotes: the reference reading of Digits.
  function Num(s: Bytes): nat
  {
    if s == [] then 0 else Num(s[..|s| - 1]) * 256 + s[|s| - 1]
  }

  lemma {:induction false} NumOfDigits(x: nat, n: nat)
    requires x < Pow256(n)
    ensures Num(Digits(x, n)) == x
  {
    if n == 0 {
    } else {
      NumOfDigits(x / 256, n - 1);
      assert Digits(x, n)[..n - 1] == Digits(x / 256, n - 1);
    }
  }

  lemma {:induction false} DigitsOfNum(s: Bytes)
    ensures Num(s) < Pow256(|s|)
    ensures Digits(Num(s), |s|) == s
  {
    if s == [] {
    } else {
      DigitsOfNum(s[..|s| - 1]);
      assert s == s[..|s| - 1] + [s[|s| - 1]];
    }
  }

  function Reversed(s: Bytes): (r: Bytes)
    ensures |r| == |s|
    ensures forall i :: 0 <= i < |s| ==> r[i] == s[|s| - 1 - i]
  {
    if s == [] then [] else Reversed(s[1..]) + [s[0]]
  }

  // Digit strings in wire order; its own inverse.
  function InWireOrder(s: Bytes): (r: Bytes)
    ensures |r| == |s|
  {
    if NET_DATA_BIG_END then s else Reversed(s)
  }

  lemma WireOrderTwice(s: Bytes)
    ensures InWireOrder(InWireOrder(s)) == s
  {
    assert Reversed(Reversed(s)) == s;
  }

  function EncUnsigned(x: nat, n: nat): (s: Bytes)
    ensures |s| == n
  {
    InWireOrder(Digits(x, n))
  }

  function DecUnsigned(s: Bytes): nat
  {
    Num(InWireOrder(s))
  }

  // Two's complement: the pattern of x in n bytes, and back.
  function Pattern(x: int, n: nat): (p: nat)
    requires -Pow256(n) <= 2 * x < Pow256(n)
    ensures p < Pow256(n)
  {
    if x < 0 then x + Pow256(n) else x
  }

  function Signed(p: nat, n: nat): (x: int)
    requires p < Pow256(n)
    ensures -Pow256(n) <= 2 * x < Pow256(n)
  {
    if 2 * p >= Pow256(n) then p - Pow256(n) else p
  }

  function EncSigned(x: int, n: nat): (s: Bytes)
    requires -Pow256(n) <= 2 * x < Pow256(n)
    ensures |s| == n
  {
    EncUnsigned(Pattern(x, n), n)
  }

  function DecSigned(s: Bytes): int
  {
    UnsignedOnto(s);
    Signed(DecUnsigned(s), |s|)
  }

  lemma SignedPattern(p: nat, n: nat)
    requires p < Pow256(n)
    ensures Pattern(Signed(p, n), n) == p
  {
  }

  lemma UnsignedRoundTrip(x: nat, n: nat)
    requires x < Pow256(n)
    ensures DecUnsigned(EncUnsigned(x, n)) == x
  {
    WireOrderTwice(Digits(x, n));
    NumOfDigits(x, n);
  }

  // Every byte string of the right length is the encoding of the number read
  // from it, so writing and reading are inverse bijections at each width.
  lemma UnsignedOnto(s: Bytes)
    ensures DecUnsigned(s) < Pow256(|s|)
    ensures EncUnsigned(DecUnsigned(s), |s|) == s
  {
    DigitsOfNum(InWireOrder(s));
    WireOrderTwice(s);
  }

  lemma SignedRoundTrip(x: int, n: nat)
    requires -Pow256(n) <= 2 * x < Pow256(n)
    ensures DecSigned(EncSigned(x, n)) == x
  {
    UnsignedRoundTrip(Pattern(x, n), n);
  }

  lemma SignedOnto(s: Bytes)
    ensures -Pow256(|s|) <= 2 * DecSigned(s) < Pow256(|s|)
    ensures EncSigned(DecSigned(s), |s|) == s
  {
    UnsignedOnto(s);
    SignedPattern(DecUnsigned(s), |s|);
  }

  lemma Widths()
    ensures Pow256(1) == 0x100 && Pow256(2) == 0x1_0000 && Pow256(4) == 0x1_0000_0000
    ensures Pow256(8) == 0x1_0000_0000_0000_0000
  {
    assert Pow256(4) == Pow256(3) * 256 == Pow256(2) * 256 * 256;
    assert Pow256(8) == Pow256(7) * 256 == Pow256(6) * 256 * 256;
    assert Pow256(6) == Pow256(5) * 256 == Pow256(4) * 256 * 256;
  }

  // The widths the source uses, by name.
  function EncU16(x: u16): (s: Bytes) ensures |s| == 2 { EncUnsigned(x, 2) }
  function EncU32(x: u32): (s: Bytes) ensures |s| == 4 { EncUnsigned(x, 4) }
  function EncU64(x: u64): (s: Bytes) ensures |s| == 8 { EncUnsigned(x, 8) }
  function EncS8(x: s8): byte { if x < 0 then x + 256 else x }
  function EncS16(x: s16): (s: Bytes) ensures |s| == 2 { Widths(); EncSigned(x, 2) }
  function EncS32(x: s32): (s: Bytes) ensures |s| == 4 { Widths(); EncSigned(x, 4) }
  function EncS64(x: s64): (s: Bytes) ensures |s| == 8 { Widths(); EncSigned(x, 8) }

  function DecU16(s: Bytes): u16 requires |s| == 2 { Widths(); UnsignedOnto(s); DecUnsigned(s) }
  function DecU32(s: Bytes): u32 requires |s| == 4 { Widths(); UnsignedOnto(s); DecUnsigned(s) }
  function DecU64(s: Bytes): u64 requires |s| == 8 { Widths(); UnsignedOnto(s); DecUnsigned(s) }
  function DecS8(b: byte): s8 { if b >= 128 then b - 256 else b }
  function DecS16(s: Bytes): s16 requires |s| == 2 { Widths(); SignedOnto(s); DecSigned(s) }
  function DecS32(s: Bytes): s32 requires |s| == 4 { Widths(); SignedOnto(s); DecSigned(s) }
  function DecS64(s: Bytes): s64 requires |s| == 8 { Widths(); SignedOnto(s); DecSigned(s) }

  lemma RoundTrip16(u: u16, x: s16)
    ensures DecU16(EncU16(u)) == u && DecS16(EncS16(x)) == x
  {
    Widths();
    UnsignedRoundTrip(u, 2);
    SignedRoundTrip(x, 2);
  }

  lemma RoundTrip32(u: u32, x: s32)
    ensures DecU32(EncU32(u)) == u && DecS32(EncS32(x)) == x
  {
    Widths();
    UnsignedRoundTrip(u, 4);
    SignedRoundTrip(x, 4);
  }

  lemma RoundTrip64(u: u64, x: s64)
    ensures DecU64(EncU64(u)) == u && DecS64(EncS64(x)) == x
  {
    Widths();
    UnsignedRoundTrip(u, 8);
    SignedRoundTrip(x, 8);
  }

  // The shift-and-mask form the source writes, byte by byte.  Dafny's `/` and
  // `%` round down, as an arithmetic right shift and a mask do.
  lemma Shifts2(x: nat)
    ensures Digits(x, 2) == [x / 0x100 % 256, x % 256]
  {
    assert Digits(x, 2) == Digits(x / 256, 1) + [x % 256];
    assert Digits(x / 256, 1) == Digits(x / 256 / 256, 0) + [x / 256 % 256];
  }

  lemma Shifts4(x: nat)
    ensures Digits(x, 4) == [x / 0x100_0000 % 256, x / 0x1_0000 % 256, x / 0x100 % 256, x % 256]
  {
    assert Digits(x, 4) == Digits(x / 256, 3) + [x % 256];
    assert Digits(x / 256, 3) == Digits(x / 256 / 256, 2) + [x / 256 % 256];
    Shifts2(x / 256 / 256);
  }

  lemma HighHalf(x: nat)
    ensures Digits(x, 8) == Digits(x / 0x1_0000_0000, 4) + Digits(x, 4)
  {
    var a, b, c, d := x / 256, x / 0x1_0000, x / 0x100_0000, x / 0x1_0000_0000;
    assert b == a / 256 && c == b / 256 && d == c / 256;
    assert Digits(x, 8) == Digits(a, 7) + [x % 256];
    assert Digits(a, 7) == Digits(b, 6) + [a % 256];
    assert Digits(b, 6) == Digits(c, 5) + [b % 256];
    assert Digits(c, 5) == Digits(d, 4) + [c % 256];
    Shifts4(x);
  }

  lemma Shifts8(x: nat)
    ensures Digits(x, 8) == [x / 0x100_0000_0000_0000 % 256, x / 0x1_0000_0000_0000 % 256,
                             x / 0x100_0000_0000 % 256, x / 0x1_0000_0000 % 256,
                             x / 0x100_0000 % 256, x / 0x1_0000 % 256, x / 0x100 % 256, x % 256]
  {
    var d := x / 0x1_0000_0000;
    HighHalf(x);
    Shifts4(x);
    Shifts4(d);
    assert d / 0x100_0000 == x / 0x100_0000_0000_0000;
    assert d / 0x1_0000 == x / 0x1_0000_0000_0000;
    assert d / 0x100 == x / 0x100_0000_0000;
  }

  /** Reading one value off the front of a byte string **/

  type Parsed<T> = Option<(T, Bytes)>

  function ParseU8(b: Bytes): Parsed<byte> {
    if |b| >= 1 then Some((b[0], b[1..])) else None
  }

  function ParseS8(b: Bytes): Parsed<s8> {
    if |b| >= 1 then Some((DecS8(b[0]), b[1..])) else None
  }

  function ParseU16(b: Bytes): Parsed<u16> {
    if |b| >= 2 then Some((DecU16(b[..2]), b[2..])) else None
  }

  function ParseS16(b: Bytes): Parsed<s16> {
    if |b| >= 2 then Some((DecS16(b[..2]), b[2..])) else None
  }

  function ParseU32(b: Bytes): Parsed<u32> {
    if |b| >= 4 then Some((DecU32(b[..4]), b[4..])) else None
  }

  function ParseS32(b: Bytes): Parsed<s32> {
    if |b| >= 4 then Some((DecS32(b[..4]), b[4..])) else None
  }

  function ParseU64(b: Bytes): Parsed<u64> {
    if |b| >= 8 then Some((DecU64(b[..8]), b[8..])) else None
  }

  function ParseS64(b: Bytes): Parsed<s64> {
    if |b| >= 8 then Some((DecS64(b[..8]), b[8..])) else None
  }

  // The first n bytes; like the source's length check, it refuses an empty
  // queue even for n == 0.
  function ParseBytes(b: Bytes, n: nat): Parsed<Bytes> {
    if b != [] && |b| >= n then Some((b[..n], b[n..])) else None
  }

  lemma Assoc(a: Bytes, b: Bytes, c: Bytes)
    ensures (a + b) + c == a + (b + c)
  {
  }

  lemma NoMore(b: Bytes)
    ensures b + [] == [] + b == b
  {
  }

  lemma Cut(a: Bytes, b: Bytes)
    ensures (a + b)[..|a|] == a && (a + b)[|a|..] == b
  {
  }

  lemma ReadBack8(x: s8, rest: Bytes)
    ensures ParseS8([EncS8(x)] + rest) == Some((x, rest))
  {
  }

  lemma ReadBack16(u: u16, x: s16, rest: Bytes)
    ensures ParseU16(EncU16(u) + rest) == Some((u, rest))
    ensures ParseS16(EncS16(x) + rest) == Some((x, rest))
  {
    RoundTrip16(u, x);
    Cut(EncU16(u), rest);
    Cut(EncS16(x), rest);
  }

  lemma ReadBack32(u: u32, x: s32, rest: Bytes)
    ensures ParseU32(EncU32(u) + rest) == Some((u, rest))
    ensures ParseS32(EncS32(x) + rest) == Some((x, rest))
  {
    RoundTrip32(u, x);
    Cut(EncU32(u), rest);
    Cut(EncS32(x), rest);
  }

  lemma ReadBack64(u: u64, x: s64, rest: Bytes)
    ensures ParseU64(EncU64(u) + rest) == Some((u, rest))
    ensures ParseS64(EncS64(x) + rest) == Some((x, rest))
  {
    RoundTrip64(u, x);
    Cut(EncU64(u), rest);
    Cut(EncS64(x), rest);
  }
}
