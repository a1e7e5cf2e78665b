/**
 The number printers and scanners of jm_stdcimpl.c: val_to_dec and val_to_hex
 write padded text of limited length, dec_to and hex_to read it back, and
 jm_itoa with jm_atoi do the same for plain decimals.
 */
module Numbers {
  import opened Wire

  const NUL: char := '\0'

  predicate IsSpace(c: char) {
    c == ' ' || c == '\t' || c as int == 11 || c as int == 12 || c == '\r' || c == '\n'
  }

  // -1 for what is no digit of any base here.
  function DigitOf(c: char): (d: int)
    ensures -1 <= d < 16
  {
    if '0' <= c <= '9' then c as int - '0' as int
    else if 'a' <= c <= 'f' then 10 + c as int - 'a' as int
    else if 'A' <= c <= 'F' then 10 + c as int - 'A' as int
    else -1
  }

  function CharOf(d: nat, upper: bool): (c: char)
    requires d < 16
    ensures DigitOf(c) == d && !IsSpace(c)
    ensures d < 10 <==> '0' <= c <= '9'
  {
    if d < 10 then (d + '0' as int) as char
    else ((d - 10) + (if upper then 'A' else 'a') as int) as char
  }

  predicate IsDigit(c: char, base: nat) {
    0 <= DigitOf(c) < base
  }

  /** Text **/

  type Base = b: nat | b == 10 || b == 16 witness 10

  function Times(n: nat, base: Base): nat {
    if base == 16 then n * 16 else n * 10
  }

  // The quotient and the remainder by the base.
  function Split(n: nat, base: Base): (r: (nat, nat))
    ensures n == Times(r.0, base) + r.1 && r.1 < base && (r.0 == 0 <==> n < base) && (n > 0 ==> r.0 < n)
  {
    if base == 16 then (n / 16, n % 16) else (n / 10, n % 10)
  }

  // The digits of n, most significant first.
  function Digs(n: nat, base: Base): (s: seq<nat>)
    ensures |s| > 0 && forall i :: 0 <= i < |s| ==> s[i] < base
  {
    var q := Split(n, base);
    if q.0 == 0 then [q.1] else Digs(q.0, base) + [q.1]
  }

  function Chars(s: seq<nat>, upper: bool): (t: string)
    requires forall i :: 0 <= i < |s| ==> s[i] < 16
    ensures |t| == |s| && forall i :: 0 <= i < |t| ==> t[i] == CharOf(s[i], upper)
  {
    seq(|s|, i requires 0 <= i < |s| => CharOf(s[i], upper))
  }

  function Numeral(n: nat, base: Base, upper: bool): (t: string)
    ensures |t| == |Digs(n, base)| > 0
  {
    Chars(Digs(n, base), upper)
  }

  function Rep(c: char, n: int): (t: string)
    ensures |t| == if n < 0 then 0 else n
    ensures forall i :: 0 <= i < |t| ==> t[i] == c
  {
    if n <= 0 then [] else [c] + Rep(c, n - 1)
  }

  // The sign comes after the padding, whatever the padding is.
  function Text(mag: nat, neg: bool, base: Base, upper: bool, padchar: char, width: nat): (t: string)
  {
    var body := Minus(neg) + Numeral(mag, base, upper);
    Rep(padchar, width - |body|) + body
  }

  // A decimal without padding.
  function Decimal(val: int): (t: string)
    ensures t != []
  {
    Minus(val < 0) + Numeral(if val < 0 then -val else val, 10, false)
  }

  function DecText(val: int, padchar: char, width: nat): (t: string)
    ensures t == Rep(padchar, width - |Decimal(val)|) + Decimal(val)
  {
    Text(if val < 0 then -val else val, val < 0, 10, false, padchar, width)
  }

  function HexText(val: nat, upper: bool, padchar: char, width: nat): string {
    Text(val, false, 16, upper, padchar, width)
  }

  // What fits into len characters.
  function Fit(t: string, len: nat): (s: string)
    ensures |s| == if |t| < len then |t| else len
  {
    if |t| < len then t else t[..len]
  }

  // t written over s from position at.
  function Overlay(s: string, at: nat, t: string): (r: string)
    requires at + |t| <= |s|
    ensures |r| == |s|
  {
    s[..at] + t + s[at + |t|..]
  }

  // From s to r, as much of t as fits into len characters was written at
  // position at, and end is behind it.
  predicate Wrote(s: string, r: string, at: nat, len: nat, t: string, end: nat) {
    && at + len <= |s|
    && end == at + |Fit(t, len)|
    && r == Overlay(s, at, Fit(t, len))
  }

  lemma OverlayTwice(s: string, at: nat, a: string, b: string)
    requires at + |a| + |b| <= |s|
    ensures Overlay(Overlay(s, at, a), at + |a|, b) == Overlay(s, at, a + b)
  {
    assert Overlay(s, at, a)[..at + |a|] == s[..at] + a;
    assert Overlay(s, at, a)[at + |a| + |b|..] == s[at + |a| + |b|..];
    assert s[..at] + a + b == s[..at] + (a + b);
  }

  lemma FitJoin(a: string, b: string, len: nat)
    ensures Fit(a + b, len) == Fit(a, len) + Fit(b, len - |Fit(a, len)|)
  {
  }

  lemma WroteBoth(s: string, m: string, r: string, at: nat, len: nat, a: string, mid: nat, b: string, end: nat)
    requires Wrote(s, m, at, len, a, mid) && mid <= at + len && Wrote(m, r, mid, at + len - mid, b, end)
    ensures Wrote(s, r, at, len, a + b, end)
  {
    hide Overlay, Fit;
    FitJoin(a, b, len);
    OverlayTwice(s, at, Fit(a, len), Fit(b, len - |Fit(a, len)|));
  }

  /** Printing **/

  function Backwards(s: seq<nat>): (r: seq<nat>)
    ensures |r| == |s| && forall i :: 0 <= i < |s| ==> r[i] == s[|s| - 1 - i]
  {
    seq(|s|, i requires 0 <= i < |s| => s[|s| - 1 - i])
  }

  function Ten(k: nat): (p: nat)
    ensures p >= 1
  {
    if k == 0 then 1 else 10 * Ten(k - 1)
  }

  lemma {:induction false} FewDigits(n: nat, base: Base, k: nat)
    requires n < Ten(k) && k >= 1
    ensures |Digs(n, base)| <= k
  {
    var q := Split(n, base).0;
    if q == 0 {
    } else {
      FewDigits(q, base, k - 1);
    }
  }

  lemma TwentyDigits(n: nat, base: Base)
    requires n <= 0xFFFF_FFFF_FFFF_FFFF
    ensures |Digs(n, base)| <= 20
  {
    assert Ten(5) == 100000 by {
      assert Ten(2) == 100 && Ten(4) == 10000;
    }
    assert Ten(10) == 100000 * 100000 by {
      assert Ten(7) == 10000000 && Ten(9) == 1000000000;
    }
    assert Ten(15) == 100000 * 100000 * 100000 by {
      assert Ten(12) == 1000000000000 && Ten(14) == 100000000000000;
    }
    assert Ten(20) == 100000 * 100000 * 100000 * 100000 by {
      assert Ten(17) == 100000000000000000 && Ten(19) == 10000000000000000000;
    }
    FewDigits(n, base, 20);
  }

  // The digits in front of the last one.
  function High(v: nat, base: Base): seq<nat> {
    if v == 0 then [] else Digs(v, base)
  }

  lemma OneMore(v: nat, base: Base, low: seq<nat>, all: seq<nat>)
    requires all == Digs(v, base) + Backwards(low)
    ensures all == High(Split(v, base).0, base) + Backwards(low + [Split(v, base).1])
  {
    var q := Split(v, base);
    assert Backwards(low + [q.1]) == [q.1] + Backwards(low);
    assert Digs(v, base) == High(q.0, base) + [q.1];
    assert High(q.0, base) + [q.1] + Backwards(low) == High(q.0, base) + ([q.1] + Backwards(low));
  }

  // The digits of val, least significant first, in a buffer of 24.
  method Dismantle(val: nat, base: Base) returns (buf: array<nat>, cnt: nat)
    requires val <= 0xFFFF_FFFF_FFFF_FFFF
    ensures fresh(buf) && cnt <= buf.Length == 24
    ensures Backwards(buf[..cnt]) == Digs(val, base)
    ensures forall i :: 0 <= i < cnt ==> buf[i] < base
  {
    TwentyDigits(val, base);
    ghost var all := Digs(val, base);
    OneMore(val, base, [], all);
    hide Digs, Backwards;
    buf := new nat[24];
    buf[0] := Split(val, base).1;
    var v := Split(val, base).0;
    cnt := 1;
    assert buf[..1] == [] + [Split(val, base).1];
    while v != 0
      invariant 1 <= cnt <= 24
      invariant all == High(v, base) + Backwards(buf[..cnt])
      invariant forall i :: 0 <= i < cnt ==> buf[i] < base
    {
      OneMore(v, base, buf[..cnt], all);
      buf[cnt] := Split(v, base).1;
      v := Split(v, base).0;
      cnt := cnt + 1;
      assert buf[..cnt] == buf[..cnt - 1] + [buf[cnt - 1]];
    }
  }

  method Pad(str: array<char>, at: nat, len: nat, padchar: char, n: int) returns (end: nat, room: nat)
    requires at + len <= str.Length
    modifies str
    ensures Wrote(old(str[..]), str[..], at, len, Rep(padchar, n), end) && room == at + len - end
  {
    end, room := at, len;
    if n > 0 {
      var k := if n < len then n else len;
      forall i | at <= i < at + k {
        str[i] := padchar;
      }
      end, room := at + k, len - k;
    }
    assert str[..] == Overlay(old(str[..]), at, Fit(Rep(padchar, n), len));
  }

  function Minus(neg: bool): string {
    if neg then "-" else ""
  }

  method Sign(str: array<char>, at: nat, len: nat, neg: bool) returns (end: nat, room: nat)
    requires at + len <= str.Length
    modifies str
    ensures Wrote(old(str[..]), str[..], at, len, Minus(neg), end) && room == at + len - end
  {
    end, room := at, len;
    if neg && len > 0 {
      str[at] := '-';
      end, room := at + 1, len - 1;
    }
    assert str[..] == Overlay(old(str[..]), at, Fit(Minus(neg), len));
  }

  // buf holds the digits of the text num, in reverse.
  predicate Holds(buf: array<nat>, cnt: nat, upper: bool, num: string)
    reads buf
  {
    && |num| == cnt <= buf.Length
    && forall i :: 0 <= i < cnt ==> buf[i] < 16 && num[cnt - 1 - i] == CharOf(buf[i], upper)
  }

  method Emit(str: array<char>, at: nat, len: nat, buf: array<nat>, cnt: nat, upper: bool, ghost t: string)
    returns (end: nat)
    requires at + len <= str.Length && Holds(buf, cnt, upper, t)
    modifies str
    ensures Wrote(old(str[..]), str[..], at, len, t, end)
  {
    var left, room := cnt, len;
    end := at;
    while left > 0 && room > 0
      invariant 0 <= left <= cnt && 0 <= room <= len && cnt - left == len - room == end - at
      invariant forall i :: at <= i < end ==> str[i] == t[i - at]
      invariant forall i :: 0 <= i < str.Length && (i < at || i >= end) ==> str[i] == old(str[i])
    {
      left, room := left - 1, room - 1;
      str[end] := CharOf(buf[left], upper);
      end := end + 1;
    }
    assert str[..] == Overlay(old(str[..]), at, Fit(t, len));
  }

  // Padding, sign and digits, as far as there is room.
  method Lay(str: array<char>, at: nat, len: nat, padchar: char, n: int, neg: bool, buf: array<nat>, cnt: nat,
             upper: bool, ghost num: string)
    returns (end: nat)
    requires at + len <= str.Length && Holds(buf, cnt, upper, num)
    modifies str
    ensures Wrote(old(str[..]), str[..], at, len, Rep(padchar, n) + Minus(neg) + num, end)
  {
    hide Wrote, Rep, Holds, Minus;
    ghost var pad, s0 := Rep(padchar, n), str[..];
    var room;
    end, room := Pad(str, at, len, padchar, n);
    ghost var mid, s1 := end, str[..];
    end, room := Sign(str, end, room, neg);
    ghost var s2 := str[..];
    WroteBoth(s0, s1, s2, at, len, pad, mid, Minus(neg), end);
    mid := end;
    end := Emit(str, end, room, buf, cnt, upper, num);
    WroteBoth(s0, s2, str[..], at, len, pad + Minus(neg), mid, num, end);
  }

  lemma HoldsNumeral(buf: array<nat>, cnt: nat, mag: nat, base: Base, upper: bool)
    requires cnt <= buf.Length && Backwards(buf[..cnt]) == Digs(mag, base)
    ensures Holds(buf, cnt, upper, Numeral(mag, base, upper)) && |Numeral(mag, base, upper)| == cnt
  {
    assert forall i :: 0 <= i < cnt ==> buf[i] == buf[..cnt][i] == Digs(mag, base)[cnt - 1 - i];
  }

  lemma TextParts(mag: nat, neg: bool, base: Base, upper: bool, padchar: char, width: nat)
    ensures var num := Numeral(mag, base, upper);
            Text(mag, neg, base, upper, padchar, width)
              == Rep(padchar, width - (if neg then 1 else 0) - |num|) + Minus(neg) + num
  {
    var num := Numeral(mag, base, upper);
    var pad := Rep(padchar, width - (if neg then 1 else 0) - |num|);
    assert pad + (Minus(neg) + num) == pad + Minus(neg) + num;
  }

  // The common shape of the printers.
  method Print(mag: nat, neg: bool, base: Base, upper: bool, padchar: char, padlen: nat, len: nat,
               str: array<char>, at: nat)
    returns (end: nat)
    requires mag <= 0xFFFF_FFFF_FFFF_FFFF && at + len <= str.Length
    modifies str
    ensures Wrote(old(str[..]), str[..], at, len, Text(mag, neg, base, upper, padchar, padlen), end)
  {
    var buf, cnt := Dismantle(mag, base);
    var n := padlen - (if neg then 1 else 0) - cnt;
    ghost var num := Numeral(mag, base, upper);
    HoldsNumeral(buf, cnt, mag, base, upper);
    TextParts(mag, neg, base, upper, padchar, padlen);
    hide Wrote, Holds, Numeral, Digs, Rep, Text, Minus, Backwards;
    end := Lay(str, at, len, padchar, n, neg, buf, cnt, upper, num);
  }

  // int_to_dec; the source negates val, which needs it above the least int.
  method IntToDec(val: s32, padchar: char, padlen: nat, len: nat, str: array<char>, at: nat) returns (end: nat)
    requires val > -0x8000_0000 && at + len <= str.Length
    modifies str
    ensures Wrote(old(str[..]), str[..], at, len, DecText(val, padchar, padlen), end)
  {
    var v: int := val;
    end := Print(if v < 0 then -v else v, v < 0, 10, false, padchar, padlen, len, str, at);
  }

  // uint_to_hex and siz_to_hex
  method UintToHex(val: u64, upper: bool, padchar: char, padlen: nat, len: nat, str: array<char>, at: nat)
    returns (end: nat)
    requires at + len <= str.Length
    modifies str
    ensures Wrote(old(str[..]), str[..], at, len, HexText(val, upper, padchar, padlen), end)
  {
    end := Print(val, false, 16, upper, padchar, padlen, len, str, at);
  }

  // How much is printed: the width or the number, whichever is longer, cut to
  // the room there is; around it nothing changes.
  lemma PrintedLength(s: string, r: string, at: nat, len: nat, mag: nat, neg: bool, base: Base, upper: bool,
                      padchar: char, width: nat, end: nat)
    requires Wrote(s, r, at, len, Text(mag, neg, base, upper, padchar, width), end)
    ensures var k := |Digs(mag, base)| + (if neg then 1 else 0);
            var full := if width > k then width else k;
            end == at + if full < len then full else len
    ensures |r| == |s| && r[..at] == s[..at] && r[end..] == s[end..]
  {
  }

  /** Scanning **/

  function Spaces(t: string): (n: nat)
    ensures n <= |t|
  {
    if t == [] || !IsSpace(t[0]) then 0 else 1 + Spaces(t[1..])
  }

  function Digits(t: string, base: Base): (n: nat)
    ensures n <= |t|
    ensures forall i :: 0 <= i < n ==> IsDigit(t[i], base)
  {
    if t == [] || !IsDigit(t[0], base) then 0 else 1 + Digits(t[1..], base)
  }

  lemma {:induction false} SpacesAre(t: string, n: nat)
    requires n <= |t| && (forall i :: 0 <= i < n ==> IsSpace(t[i])) && (n < |t| ==> !IsSpace(t[n]))
    ensures Spaces(t) == n
  {
    if n == 0 {
    } else {
      SpacesAre(t[1..], n - 1);
    }
  }

  lemma {:induction false} DigitsAre(t: string, base: Base, n: nat)
    requires n <= |t| && (forall i :: 0 <= i < n ==> IsDigit(t[i], base)) && (n < |t| ==> !IsDigit(t[n], base))
    ensures Digits(t, base) == n
  {
    if n == 0 {
    } else {
      DigitsAre(t[1..], base, n - 1);
    }
  }

  function Value(t: string, base: Base): (v: nat)
    requires forall i :: 0 <= i < |t| ==> IsDigit(t[i], base)
  {
    if t == [] then 0 else assert IsDigit(t[|t| - 1], base); Times(Value(t[..|t| - 1], base), base) + DigitOf(t[|t| - 1])
  }

  function SignLen(t: string): (n: nat)
    ensures n <= |t|
  {
    if t != [] && (t[0] == '+' || t[0] == '-') then 1 else 0
  }

  // How many characters a scan consumes, and the number it reads, if any.
  datatype Reading = Nothing | Number(len: int, num: int)

  // A sign, if any, and digits.
  function Signed(t: string): (r: Reading) {
    var b := SignLen(t);
    var d := Digits(t[b..], 10);
    var v: int := Value(t[b..][..d], 10);
    if d == 0 then Nothing else Number(b + d, if t[0] == '-' then -v else v)
  }

  function PrefixLen(t: string): (n: nat)
    ensures n <= |t|
  {
    if |t| >= 2 && t[0] == '0' && t[1] == 'x' then 2 else 0
  }

  function Hex(t: string): (r: Reading) {
    var b := PrefixLen(t);
    var d := Digits(t[b..], 16);
    if d == 0 then Nothing else Number(b + d, Value(t[b..][..d], 16))
  }

  // A scan skips white space first, and consumes nothing if there is no number.
  function Scan(spaces: nat, r: Reading): Reading {
    if r == Nothing then Nothing else Number(spaces + r.len, r.num)
  }

  function ScanSigned(t: string): (r: Reading) {
    Scan(Spaces(t), Signed(t[Spaces(t)..]))
  }

  function ScanHex(t: string): (r: Reading) {
    Scan(Spaces(t), Hex(t[Spaces(t)..]))
  }

  // A scanner's text ends at its first NUL.
  predicate Ended(str: string, from: nat) {
    exists z :: from <= z < |str| && str[z] == NUL
  }

  method SkipSpaces(str: string) returns (cur: nat)
    requires Ended(str, 0)
    ensures cur == Spaces(str) && Ended(str, cur)
  {
    cur := 0;
    while IsSpace(str[cur])
      invariant Ended(str, cur)
      invariant forall i :: 0 <= i < cur ==> IsSpace(str[i])
      decreases |str| - cur
    {
      cur := cur + 1;
    }
    SpacesAre(str, cur);
  }

  method ReadDigits(str: string, from: nat, base: Base) returns (cur: nat, value: nat)
    requires Ended(str, from)
    ensures cur == from + Digits(str[from..], base)
    ensures value == Value(str[from..][..cur - from], base)
  {
    cur, value := from, 0;
    while IsDigit(str[cur], base)
      invariant from <= cur && Ended(str, cur)
      invariant forall i :: from <= i < cur ==> IsDigit(str[i], base)
      invariant value == Value(str[from..cur], base)
      decreases |str| - cur
    {
      assert str[from..cur + 1][..cur - from] == str[from..cur];
      value := Times(value, base) + DigitOf(str[cur]);
      cur := cur + 1;
    }
    DigitsAre(str[from..], base, cur - from);
    assert str[from..cur] == str[from..][..cur - from];
  }

  // dec_to_signed; end 0 means that nothing was read.
  method DecToSigned(str: string) returns (end: nat, out: int)
    requires Ended(str, 0)
    ensures ScanSigned(str) == if end == 0 then Nothing else Number(end, out)
  {
    hide Value, Digits, Spaces, IsSpace, IsDigit;
    var cur := SkipSpaces(str);
    ghost var t := str[cur..];
    assert SignLen(t) == if str[cur] == '+' || str[cur] == '-' then 1 else 0;
    assert t[SignLen(t)..] == str[cur + SignLen(t)..];
    var isneg := false;
    if str[cur] == '+' {
      cur := cur + 1;
    } else if str[cur] == '-' {
      cur, isneg := cur + 1, true;
    }
    var v;
    end, v := ReadDigits(str, cur, 10);
    if end == cur {
      return 0, 0;
    }
    var value: int := v;
    out := if isneg then -value else value;
  }

  // hex_to_unsigned
  method HexToUnsigned(str: string) returns (end: nat, out: int)
    requires Ended(str, 0)
    ensures ScanHex(str) == if end == 0 then Nothing else Number(end, out)
  {
    hide Value, Digits, Spaces, IsSpace, IsDigit;
    var cur := SkipSpaces(str);
    ghost var t := str[cur..];
    assert t[PrefixLen(t)..] == str[cur + PrefixLen(t)..];
    if str[cur] == '0' && str[cur + 1] == 'x' {
      cur := cur + 2;
    }
    var v;
    end, v := ReadDigits(str, cur, 16);
    if end == cur {
      return 0, 0;
    }
    out := v;
  }

  /** Printing and scanning are inverse **/

  lemma {:induction false} NumeralValue(n: nat, base: Base, upper: bool)
    ensures forall i :: 0 <= i < |Numeral(n, base, upper)| ==> IsDigit(Numeral(n, base, upper)[i], base)
    ensures Value(Numeral(n, base, upper), base) == n
  {
    var q := Split(n, base);
    var t := Numeral(n, base, upper);
    if q.0 != 0 {
      NumeralValue(q.0, base, upper);
      assert t[..|t| - 1] == Numeral(q.0, base, upper);
    } else {
      assert t[..|t| - 1] == "";
    }
  }

  lemma {:induction false} LeadingZeros(k: nat, t: string, base: Base)
    requires forall i :: 0 <= i < |t| ==> IsDigit(t[i], base)
    ensures forall i :: 0 <= i < k + |t| ==> IsDigit((Rep('0', k) + t)[i], base)
    ensures Value(Rep('0', k) + t, base) == Value(t, base)
    decreases |t|, k
  {
    var z := Rep('0', k);
    if t != [] {
      LeadingZeros(k, t[..|t| - 1], base);
      assert (z + t)[..k + |t| - 1] == z + t[..|t| - 1];
    } else if k > 0 {
      LeadingZeros(k - 1, t, base);
      assert (z + t)[..k - 1] == Rep('0', k - 1) + t;
    }
  }

  lemma AfterSpaces(pad: string, s: string)
    requires (forall i :: 0 <= i < |pad| ==> IsSpace(pad[i])) && s != [] && !IsSpace(s[0])
    ensures Spaces(pad + s) == |pad| && (pad + s)[|pad|..] == s
  {
    SpacesAre(pad + s, |pad|);
  }

  predicate Stops(rest: string, base: Base) {
    rest == [] || !IsDigit(rest[0], base)
  }

  lemma DigitsThen(num: string, rest: string, base: Base)
    requires (forall i :: 0 <= i < |num| ==> IsDigit(num[i], base)) && Stops(rest, base)
    ensures Digits(num + rest, base) == |num| && (num + rest)[..|num|] == num
  {
    DigitsAre(num + rest, base, |num|);
  }

  lemma Assoc(x: string, y: string, z: string)
    ensures x + y + z == x + (y + z)
  {
  }

  lemma SignedIs(s: string, num: string, rest: string)
    requires s[SignLen(s)..] == num + rest && (forall i :: 0 <= i < |num| ==> IsDigit(num[i], 10))
    requires num != [] && s != [] && Stops(rest, 10)
    ensures var v: int := Value(num, 10);
            Signed(s) == Number(SignLen(s) + |num|, if s[0] == '-' then -v else v)
  {
    DigitsThen(num, rest, 10);
    hide Digits, Value, SignLen, IsDigit;
  }

  lemma Unsigned(num: string, rest: string)
    requires num != [] && (forall i :: 0 <= i < |num| ==> IsDigit(num[i], 10)) && Stops(rest, 10)
    ensures var s := num + rest;
            Signed(s) == Number(|num|, Value(num, 10)) && s != [] && !IsSpace(s[0])
  {
    var s := num + rest;
    assert IsDigit(num[0], 10) && s[0] == num[0] && s[0..] == s;
    hide Value, Signed;
    SignedIs(s, num, rest);
  }

  lemma Negative(num: string, rest: string)
    requires num != [] && (forall i :: 0 <= i < |num| ==> IsDigit(num[i], 10)) && Stops(rest, 10)
    ensures var s := "-" + (num + rest); var v: int := Value(num, 10);
            Signed(s) == Number(1 + |num|, -v) && s != [] && !IsSpace(s[0])
  {
    var s := "-" + (num + rest);
    assert s[0] == '-' && s[1..] == num + rest;
    hide Value, Signed;
    SignedIs(s, num, rest);
  }

  lemma DecimalIs(val: int)
    ensures val < 0 ==> Decimal(val) == "-" + Numeral(-val, 10, false)
    ensures val >= 0 ==> Decimal(val) == Numeral(val, 10, false)
  {
    hide Numeral;
  }

  lemma DecimalScans(val: int, rest: string)
    requires Stops(rest, 10)
    ensures var s := Decimal(val) + rest;
            Signed(s) == Number(|Decimal(val)|, val) && s != [] && !IsSpace(s[0])
  {
    hide *;
    DecimalIs(val);
    if val < 0 {
      NumeralValue(-val, 10, false);
      Negative(Numeral(-val, 10, false), rest);
      Assoc("-", Numeral(-val, 10, false), rest);
    } else {
      NumeralValue(val, 10, false);
      Unsigned(Numeral(val, 10, false), rest);
    }
  }

  // A padded decimal, scanned, gives back the number and ends behind it.
  lemma DecRoundTrip(val: int, width: nat, rest: string)
    requires Stops(rest, 10)
    ensures var t := DecText(val, ' ', width);
            ScanSigned(t + rest) == Number(|t|, val)
  {
    hide Decimal, DecText, Signed;
    var body := Decimal(val);
    var pad := Rep(' ', width - |body|);
    Assoc(pad, body, rest);
    DecimalScans(val, rest);
    AfterSpaces(pad, body + rest);
  }

  // A text that starts with no space.
  lemma NoSpaces(t: string)
    requires t != [] && !IsSpace(t[0])
    ensures Spaces(t) == 0 && t[Spaces(t)..] == t
  {
  }

  lemma ZerosScan(k: nat, num: string, rest: string)
    requires (forall i :: 0 <= i < |num| ==> IsDigit(num[i], 10)) && k + |num| > 0 && Stops(rest, 10)
    ensures ScanSigned(Rep('0', k) + num + rest) == Number(k + |num|, Value(num, 10))
  {
    LeadingZeros(k, num, 10);
    hide Value, Rep, Digits, IsDigit, Signed;
    Unsigned(Rep('0', k) + num, rest);
    NoSpaces(Rep('0', k) + num + rest);
  }

  // Zero padding goes before the sign, so a negative number comes back only
  // when there is no padding.
  lemma DecZeroPadRoundTripIff(val: int, width: nat, rest: string)
    requires Stops(rest, 10)
    ensures var t := DecText(val, '0', width);
            ScanSigned(t + rest) == Number(|t|, val) <==> val >= 0 || width <= |Decimal(val)|
  {
    if val >= 0 {
      ZeroPadded(val, width, rest);
    } else if width <= |Decimal(val)| {
      hide Decimal, DecText, Signed;
      DecimalScans(val, rest);
      NoSpaces(Decimal(val) + rest);
      assert [] + Decimal(val) == Decimal(val);
    } else {
      assert Decimal(val)[0] == '-';
      hide Decimal, DecText;
      ZeroesThenMinus(width - |Decimal(val)|, Decimal(val), rest);
    }
  }

  // Text without a sign: padding, if any, and digits.
  lemma PlainText(mag: nat, base: Base, upper: bool, padchar: char, width: nat) returns (k: nat)
    ensures Text(mag, false, base, upper, padchar, width) == Rep(padchar, k) + Numeral(mag, base, upper)
    ensures k == if width > |Numeral(mag, base, upper)| then width - |Numeral(mag, base, upper)| else 0
  {
    var num := Numeral(mag, base, upper);
    k := if width > |num| then width - |num| else 0;
    assert Minus(false) + num == num;
    assert Rep(padchar, width - |num|) == Rep(padchar, k);
    hide Rep, Numeral;
  }

  lemma ZeroPadded(val: nat, width: nat, rest: string)
    requires Stops(rest, 10)
    ensures var t := Text(val, false, 10, false, '0', width);
            ScanSigned(t + rest) == Number(|t|, val)
  {
    hide *;
    var k := PlainText(val, 10, false, '0', width);
    NumeralValue(val, 10, false);
    ZerosScan(k, Numeral(val, 10, false), rest);
  }

  lemma ZeroesThenMinus(k: nat, body: string, rest: string)
    requires k > 0 && body != [] && body[0] == '-'
    ensures ScanSigned(Rep('0', k) + body + rest) == Number(k, 0)
  {
    var z := Rep('0', k);
    Assoc(z, body, rest);
    assert z + [] == z;
    assert Stops(body + rest, 10) by {
      assert (body + rest)[0] == '-';
    }
    assert Value([], 10) == 0;
    hide Value, Rep, ScanSigned, IsDigit, Stops;
    ZerosScan(k, [], body + rest);
  }

  // The same in base 16, with zeros in front; the exception is a lone zero
  // before an x, which together read as a prefix.
  lemma HexRoundTripIff(val: nat, upper: bool, width: nat, rest: string)
    requires Stops(rest, 16)
    ensures var t := HexText(val, upper, '0', width);
            ScanHex(t + rest) == Number(|t|, val) <==> !(|t| == 1 && val == 0 && rest != [] && rest[0] == 'x')
  {
    var k := PlainText(val, 16, upper, '0', width);
    var num := Numeral(val, 16, upper);
    NumeralValue(val, 16, upper);
    LeadingZeros(k, num, 16);
    hide Text, Numeral, Rep, Value, IsDigit, ScanHex, Stops;
    HexParts(Rep('0', k) + num, rest);
    if k + |num| == 1 {
      OneDigit(Rep('0', k) + num);
    }
  }

  lemma OneDigit(t: string)
    requires |t| == 1 && forall i :: 0 <= i < |t| ==> IsDigit(t[i], 16)
    ensures Value(t, 16) == 0 <==> t == "0"
  {
    assert t == [] + [t[0]] && t[..0] == [] && Value([], 16) == 0;
    assert IsDigit(t[0], 16);
  }

  lemma HexParts(t: string, rest: string)
    requires t != [] && (forall i :: 0 <= i < |t| ==> IsDigit(t[i], 16)) && Stops(rest, 16)
    ensures ScanHex(t + rest) == Number(|t|, Value(t, 16)) <==> !(t == "0" && rest != [] && rest[0] == 'x')
  {
    if t == "0" && rest != [] && rest[0] == 'x' {
      ReadAsPrefix(rest);
    } else {
      assert !FalsePrefix("", t, rest);
      hide IsDigit, ScanHex, Value, Stops, FalsePrefix;
      HexReads("", "", t, rest);
      assert "" + ("" + (t + rest)) == t + rest;
    }
  }

  lemma ReadAsPrefix(rest: string)
    requires rest != [] && rest[0] == 'x'
    ensures ScanHex("0" + rest) == Nothing || ScanHex("0" + rest).len > 1
  {
    hide Digits, Value;
    NoSpaces("0" + rest);
  }

  // In the buffer: what was printed with enough room is read back from where
  // it was put, up to its end.
  lemma PrintedDecScans(s: string, r: string, at: nat, len: nat, val: int, width: nat, end: nat)
    requires Wrote(s, r, at, len, DecText(val, ' ', width), end)
    requires |DecText(val, ' ', width)| <= len && (end < |r| ==> Stops(r[end..], 10))
    ensures ScanSigned(r[at..]) == Number(end - at, val)
  {
    var t := DecText(val, ' ', width);
    WroteTail(s, r, at, len, t, end);
    assert Stops(r[end..], 10);
    hide *;
    DecRoundTrip(val, width, r[end..]);
  }

  // The same for zero-padded hexadecimal, with its one exception.
  lemma PrintedHexScansIff(s: string, r: string, at: nat, len: nat, val: nat, upper: bool, width: nat, end: nat)
    requires Wrote(s, r, at, len, HexText(val, upper, '0', width), end)
    requires |HexText(val, upper, '0', width)| <= len && (end < |r| ==> Stops(r[end..], 16))
    ensures ScanHex(r[at..]) == Number(end - at, val)
            <==> !(end == at + 1 && val == 0 && end < |r| && r[end] == 'x')
  {
    var t := HexText(val, upper, '0', width);
    WroteTail(s, r, at, len, t, end);
    assert Stops(r[end..], 16);
    hide *;
    HexRoundTripIff(val, upper, width, r[end..]);
    assert end < |r| ==> r[end..][0] == r[end];
  }

  lemma WroteTail(s: string, r: string, at: nat, len: nat, t: string, end: nat)
    requires Wrote(s, r, at, len, t, end) && |t| <= len
    ensures end == at + |t| && end <= |r| && r[at..] == t + r[end..]
  {
    hide DecText, Rep;
    assert r == s[..at] + t + s[end..];
  }

  /** jm_itoa and jm_atoi **/

  method Itoa(n: nat, buf: array<char>)
    requires |Numeral(n, 10, false)| < buf.Length
    modifies buf
    ensures var t := Numeral(n, 10, false);
            && buf[..|t|] == t && buf[|t|] == NUL
            && forall i :: |t| < i < buf.Length ==> buf[i] == old(buf[i])
    decreases n
  {
    ghost var t := Numeral(n, 10, false);
    if n < 10 {
      buf[0] := CharOf(n, false);
      buf[1] := NUL;
      return;
    }
    ghost var u := Numeral(n / 10, 10, false);
    assert t == u + [CharOf(n % 10, false)];
    Itoa(n / 10, buf);
    var i := 0;
    while buf[i] != NUL
      invariant 0 <= i <= |u| && buf[..|u|] == u && buf[|u|] == NUL
      invariant i < |u| ==> buf[i] == u[i]
      decreases |u| - i
    {
      i := i + 1;
    }
    buf[i] := CharOf(n % 10, false);
    buf[i + 1] := NUL;
    assert buf[..|t|] == t;
  }

  predicate IsBlank(c: char) {
    c == ' ' || c == '\n' || c == '\t' || c as int == 8
  }

  function Blanks(t: string): (n: nat)
    ensures n <= |t|
  {
    if t == [] || !IsBlank(t[0]) then 0 else 1 + Blanks(t[1..])
  }

  // What jm_atoi answers: 0 where there is no digit.
  function AtoiOf(t: string): int {
    Leading(t[Blanks(t)..])
  }

  function Leading(t: string): int {
    var b := SignLen(t);
    var v: int := Value(t[b..][..Digits(t[b..], 10)], 10);
    if t != [] && t[0] == '-' then -v else v
  }

  lemma {:induction false} BlanksAre(t: string, n: nat)
    requires n <= |t| && (forall i :: 0 <= i < n ==> IsBlank(t[i])) && (n < |t| ==> !IsBlank(t[n]))
    ensures Blanks(t) == n
  {
    if n == 0 {
    } else {
      BlanksAre(t[1..], n - 1);
    }
  }

  method SkipBlanks(str: string) returns (cur: nat)
    requires Ended(str, 0)
    ensures cur == Blanks(str) && Ended(str, cur)
  {
    cur := 0;
    while IsBlank(str[cur])
      invariant Ended(str, cur)
      invariant forall i :: 0 <= i < cur ==> IsBlank(str[i])
      decreases |str| - cur
    {
      cur := cur + 1;
    }
    BlanksAre(str, cur);
  }

  method Atoi(str: string) returns (r: int)
    requires Ended(str, 0)
    ensures r == AtoiOf(str)
  {
    hide Value, Digits, Blanks, IsDigit, IsBlank;
    var cur := SkipBlanks(str);
    ghost var a := cur;
    assert SignLen(str[a..]) == if str[a] == '+' || str[a] == '-' then 1 else 0;
    var neg := str[cur] == '-';
    if str[cur] == '-' || str[cur] == '+' {
      cur := cur + 1;
    }
    var end, v := ReadDigits(str, cur, 10);
    r := if neg then -(v as int) else v;
  }

  lemma AtoiOfItoa(n: nat, rest: string)
    ensures AtoiOf(Numeral(n, 10, false) + [NUL] + rest) == n
  {
    var num := Numeral(n, 10, false);
    var t := num + [NUL] + rest;
    NumeralValue(n, 10, false);
    assert IsDigit(num[0], 10) && t[0] == num[0];
    assert t[0..] == t;
    DigitsAre(t, 10, |num|);
    assert t[..|num|] == num;
  }

  // A sign in front of what begins with none.
  lemma SignStrips(sign: string, t: string)
    requires sign in {"", "+", "-"} && (t == [] || (t[0] != '+' && t[0] != '-'))
    ensures var b := sign + t;
            && SignLen(b) == |sign| && b[SignLen(b)..] == t
            && (b != [] ==> (b[0] == '-' <==> sign == "-"))
            && (sign == "" ==> b == t) && (sign != "" ==> b[0] == sign[0])
  {
    var b := sign + t;
    assert b[|sign|..] == t;
    if sign == "" {
      assert b == t;
    }
  }

  lemma PlainChar(c: char)
    ensures IsDigit(c, 10) ==> IsDigit(c, 16)
    ensures IsDigit(c, 16) || c == '+' || c == '-' ==> !IsSpace(c) && !IsBlank(c)
    ensures IsDigit(c, 16) ==> c != '+' && c != '-'
  {
  }

  lemma AfterBlanks(blanks: string, s: string)
    requires (forall i :: 0 <= i < |blanks| ==> IsBlank(blanks[i])) && (s == [] || !IsBlank(s[0]))
    ensures Blanks(blanks + s) == |blanks| && (blanks + s)[|blanks|..] == s
  {
    hide IsBlank;
    BlanksAre(blanks + s, |blanks|);
  }

  lemma LeadingIs(s: string, num: string, rest: string)
    requires (forall i :: 0 <= i < |num| ==> IsDigit(num[i], 10)) && Stops(rest, 10)
    requires s[SignLen(s)..] == num + rest
    ensures var v: int := Value(num, 10); Leading(s) == if s != [] && s[0] == '-' then -v else v
  {
    hide IsDigit, Value, Digits, SignLen, Stops;
    DigitsThen(num, rest, 10);
  }

  // A sign and digits begin with neither a blank nor white space.
  lemma SignThenDigits(sign: string, num: string, t: string)
    requires sign in {"", "+", "-"} && num != [] && t != [] && t[0] == num[0] && IsDigit(num[0], 10)
    ensures var b := sign + t;
            && b != [] && !IsSpace(b[0]) && !IsBlank(b[0])
            && SignLen(b) == |sign| && b[SignLen(b)..] == t && (b[0] == '-' <==> sign == "-")
  {
    hide IsDigit, IsSpace, IsBlank, SignLen;
    PlainChar(num[0]);
    SignStrips(sign, t);
    PlainChar((sign + t)[0]);
  }

  // Blanks, an optional sign and digits: the number they stand for.
  lemma AtoiDigits(blanks: string, sign: string, num: string, rest: string)
    requires forall i :: 0 <= i < |blanks| ==> IsBlank(blanks[i])
    requires sign in {"", "+", "-"} && num != [] && (forall i :: 0 <= i < |num| ==> IsDigit(num[i], 10))
    requires Stops(rest, 10)
    ensures var v: int := Value(num, 10);
            AtoiOf(blanks + (sign + (num + rest))) == if sign == "-" then -v else v
  {
    hide Value, Digits, Blanks, SignLen, IsDigit, IsBlank, IsSpace, Stops, Leading;
    var body := sign + (num + rest);
    SignThenDigits(sign, num, num + rest);
    AfterBlanks(blanks, body);
    LeadingIs(body, num, rest);
  }

  // Blanks, then a decimal with or without a plus sign, then no digit.
  lemma AtoiReads(blanks: string, plus: bool, val: int, rest: string)
    requires forall i :: 0 <= i < |blanks| ==> blanks[i] in " \n\t" || blanks[i] as int == 8
    requires rest == [] || !('0' <= rest[0] <= '9')
    ensures AtoiOf(blanks + ((if plus && val >= 0 then "+" else "") + (Decimal(val) + rest))) == val
  {
    var mag := if val < 0 then -val else val;
    var sign := if val < 0 then "-" else if plus then "+" else "";
    assert forall i :: 0 <= i < |blanks| ==> IsBlank(blanks[i]);
    assert Stops(rest, 10);
    hide *;
    var num := Numeral(mag, 10, false);
    NumeralValue(mag, 10, false);
    DecimalIs(val);
    if val < 0 {
      Assoc("-", num, rest);
      assert "" + (Decimal(val) + rest) == Decimal(val) + rest;
    }
    AtoiDigits(blanks, sign, num, rest);
  }

  // Without a digit the answer is 0.
  lemma AtoiNothing(blanks: string, sign: string, rest: string)
    requires forall i :: 0 <= i < |blanks| ==> blanks[i] in " \n\t" || blanks[i] as int == 8
    requires sign in {"", "+", "-"} && (rest == [] || !('0' <= rest[0] <= '9'))
    requires rest != [] ==> rest[0] !in " \n\t+-" && rest[0] as int != 8
    ensures AtoiOf(blanks + (sign + rest)) == 0
  {
    assert forall i :: 0 <= i < |blanks| ==> IsBlank(blanks[i]);
    assert Stops(rest, 10) && (rest != [] ==> !IsBlank(rest[0]));
    hide Value, Digits, Blanks, SignLen, IsDigit, IsBlank, IsSpace, Stops, Leading;
    var body := sign + rest;
    SignStrips(sign, rest);
    if sign != "" {
      PlainChar(body[0]);
    }
    AfterBlanks(blanks, body);
    assert [] + rest == rest;
    NoValue();
    LeadingIs(body, [], rest);
  }

  lemma NoValue()
    ensures Value([], 10) == 0
  {
  }

  /** Characters **/

  // The digits by their characters, in either case.
  lemma DigitChars(d: nat, c: char)
    requires d < 16
    ensures CharOf(d, false) == "0123456789abcdef"[d] && CharOf(d, true) == "0123456789ABCDEF"[d]
    ensures IsDigit(c, 10) <==> c in "0123456789"
    ensures IsDigit(c, 16) <==> c in "0123456789abcdefABCDEF"
  {
    assert forall x :: x in "0123456789" <==> '0' <= x <= '9' by {
      forall x | '0' <= x <= '9'
        ensures x in "0123456789"
      {
        assert "0123456789"[x as int - '0' as int] == x;
      }
    }
    if IsDigit(c, 16) && !IsDigit(c, 10) {
      var k := DigitOf(c);
      assert c == "0123456789abcdef"[k] || c == "0123456789ABCDEF"[k];
      assert "0123456789abcdefABCDEF"[k] == "0123456789abcdef"[k];
      assert "0123456789abcdefABCDEF"[k + 6] == "0123456789ABCDEF"[k];
    }
  }

  lemma SpaceChars(c: char)
    ensures IsSpace(c) <==> c == ' ' || 9 <= c as int <= 13
  {
  }

  lemma ScanBehind(pad: string, body: string)
    requires (forall i :: 0 <= i < |pad| ==> IsSpace(pad[i])) && body != [] && !IsSpace(body[0])
    ensures ScanSigned(pad + body) == Scan(|pad|, Signed(body)) && ScanHex(pad + body) == Scan(|pad|, Hex(body))
  {
    hide IsSpace, Signed, Hex, Scan;
    AfterSpaces(pad, body);
  }

  lemma SignedBody(sign: string, num: string, rest: string)
    requires sign in {"", "+", "-"}
    requires num != [] && (forall i :: 0 <= i < |num| ==> IsDigit(num[i], 10)) && Stops(rest, 10)
    ensures var v: int := Value(num, 10); var b := sign + (num + rest);
            b != [] && !IsSpace(b[0]) && Signed(b) == Number(|sign| + |num|, if sign == "-" then -v else v)
  {
    hide Value, Digits, Signed, SignLen, IsDigit, IsSpace, IsBlank, Stops;
    var t := num + rest;
    SignThenDigits(sign, num, t);
    SignedIs(sign + t, num, rest);
  }

  // White space, an optional sign and digits: read up to what is no digit.
  lemma SignedReads(pad: string, sign: string, num: string, rest: string)
    requires (forall i :: 0 <= i < |pad| ==> IsSpace(pad[i])) && sign in {"", "+", "-"}
    requires num != [] && (forall i :: 0 <= i < |num| ==> IsDigit(num[i], 10)) && Stops(rest, 10)
    ensures var v: int := Value(num, 10);
            ScanSigned(pad + (sign + (num + rest))) == Number(|pad| + |sign| + |num|, if sign == "-" then -v else v)
  {
    hide Value, Signed, IsDigit, IsSpace, ScanSigned, Stops;
    SignedBody(sign, num, rest);
    ScanBehind(pad, sign + (num + rest));
  }

  lemma HexIs(s: string, num: string, rest: string)
    requires num != [] && (forall i :: 0 <= i < |num| ==> IsDigit(num[i], 16)) && Stops(rest, 16)
    requires s[PrefixLen(s)..] == num + rest
    ensures Hex(s) == Number(PrefixLen(s) + |num|, Value(num, 16))
  {
    hide IsDigit, Value, Digits, PrefixLen, Stops;
    DigitsThen(num, rest, 16);
  }

  lemma NoX(c: char)
    ensures IsDigit(c, 16) ==> c != 'x' && !IsSpace(c)
    ensures c == '0' ==> IsDigit(c, 16)
  {
  }

  // A lone 0 without a prefix, before an x.
  predicate FalsePrefix(prefix: string, num: string, rest: string) {
    prefix == "" && num == "0" && rest != [] && rest[0] == 'x'
  }

  lemma HexBody(prefix: string, num: string, rest: string)
    requires prefix in {"", "0x"} && num != [] && (forall i :: 0 <= i < |num| ==> IsDigit(num[i], 16))
    requires Stops(rest, 16) && !FalsePrefix(prefix, num, rest)
    ensures var b := prefix + (num + rest);
            b != [] && !IsSpace(b[0]) && Hex(b) == Number(|prefix| + |num|, Value(num, 16))
  {
    hide IsDigit, IsSpace, Value, Digits, PrefixLen, Stops, Hex, FalsePrefix;
    BehindPrefix(prefix, num, rest);
    HexIs(prefix + (num + rest), num, rest);
  }

  // The number behind "0x" is read as it is without it.
  lemma HexReads(pad: string, prefix: string, num: string, rest: string)
    requires (forall i :: 0 <= i < |pad| ==> IsSpace(pad[i])) && prefix in {"", "0x"}
    requires num != [] && (forall i :: 0 <= i < |num| ==> IsDigit(num[i], 16)) && Stops(rest, 16)
    requires !FalsePrefix(prefix, num, rest)
    ensures ScanHex(pad + (prefix + (num + rest))) == Number(|pad| + |prefix| + |num|, Value(num, 16))
  {
    hide IsDigit, IsSpace, Value, Stops, Hex, ScanHex, FalsePrefix;
    HexBody(prefix, num, rest);
    ScanBehind(pad, prefix + (num + rest));
  }

  lemma BehindPrefix(prefix: string, num: string, rest: string)
    requires prefix in {"", "0x"} && num != [] && forall i :: 0 <= i < |num| ==> IsDigit(num[i], 16)
    requires !FalsePrefix(prefix, num, rest)
    ensures var body := prefix + (num + rest);
            PrefixLen(body) == |prefix| && body[|prefix|..] == num + rest && !IsSpace(body[0])
  {
    hide IsDigit, IsSpace;
    var t := num + rest;
    NoX('0');
    if prefix == "" {
      assert t[0] == num[0] && prefix + t == t;
      NoX(num[0]);
      if |num| > 1 {
        assert t[1] == num[1];
        NoX(num[1]);
      } else {
        assert num == [num[0]];
        assert rest != [] ==> t[1] == rest[0];
      }
    }
  }

  // Without a digit nothing is read and nothing consumed.
  lemma NothingReads(pad: string, sign: string, rest: string)
    requires (forall i :: 0 <= i < |pad| ==> IsSpace(pad[i])) && sign in {"", "+", "-"}
    requires rest == [] || !IsDigit(rest[0], 16)
    requires sign == "" && rest != [] ==> !IsSpace(rest[0]) && rest[0] !in "+-"
    ensures ScanSigned(pad + (sign + rest)) == Nothing && ScanHex(pad + (sign + rest)) == Nothing
  {
    var body := sign + rest;
    SpacesAre(pad + body, |pad|);
    assert (pad + body)[|pad|..] == body && body[SignLen(body)..] == rest;
    assert body[0..] == body;
  }
}
