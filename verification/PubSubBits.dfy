/**
 Leftover presence bits of pub/sub items.  The serializer sets bits and never
 clears them, so an item may announce fields it does not write.  Which of these
 bits an item survives is settled here, for every item and every set of bits.
 */
module PubSubBits {
  import opened Wire
  import opened ByteRing
  import opened ExtraMap
  import opened PubSubItem

  // The bits of the fields that are there are set, possibly with others.
  ghost predicate Covers(f: bv8, it: Item) {
    forall i :: 0 <= i < 8 ==> Present(i, it) ==> IsDataFlag(i, f)
  }

  predicate Leftover(i: nat, f: bv8, it: Item)
    requires i < 8
  {
    IsDataFlag(i, f) && !Present(i, it)
  }

  // A leftover bit does no harm if it is that of cxt or of map or binary data,
  // and neither data nor anything else follows.
  ghost predicate HarmlessFrom(k: nat, f: bv8, it: Item, rest: Bytes) {
    forall i :: k <= i < 8 && Leftover(i, f, it) ==>
      rest == [] && it.data == NoData && (i == 6 || (i == 7 && DataType(it.flag) in {FLAG_DATA_EXTRA, FLAG_DATA_BIN}))
  }

  ghost predicate Harmless(f: bv8, it: Item, rest: Bytes) {
    HarmlessFrom(0, f, it, rest)
  }

  /** The encoding from each optional field on **/

  ghost function FromData(it: Item): Bytes
    requires SizedItem(it)
  {
    OptData(it.flag, it.data)
  }

  ghost function FromCxt(it: Item): Bytes
    requires SizedItem(it)
  {
    OptMap(it.cxt) + FromData(it)
  }

  ghost function FromCallback(it: Item): Bytes
    requires SizedItem(it)
  {
    OptStr(it.callback) + FromCxt(it)
  }

  ghost function FromTo(it: Item): Bytes
    requires SizedItem(it)
  {
    OptS32(it.to) + FromCallback(it)
  }

  ghost function FromSrc(it: Item): Bytes
    requires SizedItem(it)
  {
    OptS32(it.srcClientId) + FromTo(it)
  }

  ghost function FromTopic(it: Item): Bytes
    requires SizedItem(it)
  {
    OptStr(it.topic) + FromSrc(it)
  }

  ghost function FromTyp(it: Item): Bytes
    requires SizedItem(it)
  {
    OptS8(it.typ) + FromTopic(it)
  }

  ghost function FromId(it: Item): Bytes
    requires SizedItem(it)
  {
    OptS64(it.id) + FromTyp(it)
  }

  /** What reading the fields of an item from b, up to rest, takes **/

  ghost predicate GoodData(f: bv8, it: Item, b: Bytes, rest: Bytes) {
    ParseOptData(IsDataFlag(7, f), it.flag, b) == Some((MirrorData(it.data), rest))
  }

  ghost predicate GoodCxt(f: bv8, it: Item, b: Bytes, rest: Bytes) {
    var p := ParseOptMap(IsDataFlag(6, f), b);
    p.Some? && p.value.0 == Mirror(it.cxt) && GoodData(f, it, p.value.1, rest)
  }

  ghost predicate GoodCallback(f: bv8, it: Item, b: Bytes, rest: Bytes) {
    var p := ParseOptStr(IsDataFlag(5, f), b);
    p.Some? && p.value.0 == it.callback && GoodCxt(f, it, p.value.1, rest)
  }

  ghost predicate GoodTo(f: bv8, it: Item, b: Bytes, rest: Bytes) {
    var p := ParseOptS32(IsDataFlag(4, f), b);
    p.Some? && p.value.0 == it.to && GoodCallback(f, it, p.value.1, rest)
  }

  ghost predicate GoodSrc(f: bv8, it: Item, b: Bytes, rest: Bytes) {
    var p := ParseOptS32(IsDataFlag(3, f), b);
    p.Some? && p.value.0 == it.srcClientId && GoodTo(f, it, p.value.1, rest)
  }

  ghost predicate GoodTopic(f: bv8, it: Item, b: Bytes, rest: Bytes) {
    var p := ParseOptStr(IsDataFlag(2, f), b);
    p.Some? && p.value.0 == it.topic && GoodSrc(f, it, p.value.1, rest)
  }

  ghost predicate GoodTyp(f: bv8, it: Item, b: Bytes, rest: Bytes) {
    var p := ParseOptS8(IsDataFlag(1, f), b);
    p.Some? && p.value.0 == it.typ && GoodTopic(f, it, p.value.1, rest)
  }

  ghost predicate GoodId(f: bv8, it: Item, b: Bytes, rest: Bytes) {
    var p := ParseOptS64(IsDataFlag(0, f), b);
    p.Some? && p.value.0 == it.id && GoodTyp(f, it, p.value.1, rest)
  }

  lemma TailIsGood(f: bv8, it: Item, part: Item, b: Bytes, rest: Bytes)
    requires part.flag == it.flag
    ensures ParseTail(f, part, b) == Some(((f, Received(it)), rest)) <==>
            && part.fr == it.fr && part.id == it.id && part.typ == it.typ && part.topic == it.topic
            && GoodSrc(f, it, b, rest)
  {
    hide IsDataFlag, ParseOptS32, ParseOptStr, ParseOptMap, ParseOptData, Mirror, MirrorData;
  }

  lemma MiddleIsGood(f: bv8, it: Item, b: Bytes, rest: Bytes)
    ensures ParseMiddle(f, Blank(it.flag, it.fr), b) == Some(((f, Received(it)), rest)) <==> GoodId(f, it, b, rest)
  {
    hide IsDataFlag, ParseOptS64, ParseOptS8, ParseOptStr, ParseTail, GoodSrc, Received;
    var p := ParseOptS64(IsDataFlag(0, f), b);
    if p.Some? {
      var q := ParseOptS8(IsDataFlag(1, f), p.value.1);
      if q.Some? {
        var r := ParseOptStr(IsDataFlag(2, f), q.value.1);
        if r.Some? {
          TailIsGood(f, it, Blank(it.flag, it.fr).(id := p.value.0, typ := q.value.0, topic := r.value.0), r.value.1, rest);
        }
      }
    }
  }

  // The two head bytes and the sender are always there; the rest is read
  // field by field.
  lemma ParseIsGood(f: bv8, it: Item, rest: Bytes)
    requires SizedItem(it)
    ensures Parse(Enc(f, it) + rest) == Some(((f, Received(it)), rest)) <==> GoodId(f, it, FromId(it) + rest, rest)
  {
    hide EncS32, OptS64, OptS32, OptS8, OptStr, OptMap, OptData, ParseS32, ParseMiddle, GoodId, Received, SizedItem;
    var h: Bytes := [f as int, it.flag];
    Assoc(h, EncS32(it.fr) + FromId(it), rest);
    Assoc(EncS32(it.fr), FromId(it), rest);
    Cut(h, EncS32(it.fr) + (FromId(it) + rest));
    ReadBack32(0, it.fr, FromId(it) + rest);
    MiddleIsGood(f, it, FromId(it) + rest, rest);
  }

  /** How much is read at least **/

  function LeastStr(s: Option<Bytes>): nat {
    if s.Some? then 1 + |s.value| else 0
  }

  function LeastData(d: Data): nat {
    match d
    case NoData => 0
    case Text(s) => 1 + |s|
    case MapData(_) => 1
    case BinData(s) => |s|
  }

  lemma StringTakes(b: Bytes)
    ensures ParseString(b).Some? ==> |b| >= |ParseString(b).value.1| + 1 + |ParseString(b).value.0|
  {
    hide DecU16, DecU32;
  }

  lemma MapTakes(b: Bytes)
    ensures var p := ParseExtra(b); p.Some? && p.value.0.Node? ==> |b| > |p.value.1|
  {
    hide ParseEntries;
  }

  lemma DataTakes(f: bv8, it: Item, b: Bytes, rest: Bytes)
    requires GoodData(f, it, b, rest)
    ensures |b| >= |rest| + LeastData(it.data)
    ensures it.data.BinData? ==> b == it.data.s != [] && rest == []
  {
    hide IsDataFlag, ParseString, ParseExtra, Mirror;
    StringTakes(b);
    MapTakes(b);
  }

  lemma CxtTakes(f: bv8, it: Item, b: Bytes, rest: Bytes)
    requires GoodCxt(f, it, b, rest)
    ensures |b| >= |rest| + LeastData(it.data)
  {
    hide IsDataFlag, ParseExtra, GoodData, Mirror;
    DataTakes(f, it, ParseOptMap(IsDataFlag(6, f), b).value.1, rest);
  }

  lemma CallbackTakes(f: bv8, it: Item, b: Bytes, rest: Bytes)
    requires GoodCallback(f, it, b, rest)
    ensures |b| >= |rest| + LeastStr(it.callback) + LeastData(it.data)
  {
    hide IsDataFlag, ParseString, GoodCxt;
    StringTakes(b);
    CxtTakes(f, it, ParseOptStr(IsDataFlag(5, f), b).value.1, rest);
  }

  lemma ToTakes(f: bv8, it: Item, b: Bytes, rest: Bytes)
    requires GoodTo(f, it, b, rest)
    ensures |b| >= |rest|
  {
    hide IsDataFlag, DecS32, GoodCallback;
    CallbackTakes(f, it, ParseOptS32(IsDataFlag(4, f), b).value.1, rest);
  }

  lemma TypTakes(f: bv8, it: Item, b: Bytes, rest: Bytes)
    requires GoodTyp(f, it, b, rest)
    ensures |b| >= |rest|
  {
    hide IsDataFlag, DecS8, DecS32, ParseString, GoodTo;
    var b1 := ParseOptS8(IsDataFlag(1, f), b).value.1;
    var b2 := ParseOptStr(IsDataFlag(2, f), b1).value.1;
    StringTakes(b1);
    ToTakes(f, it, ParseOptS32(IsDataFlag(3, f), b2).value.1, rest);
  }

  /** First bytes **/

  predicate Zeros(b: Bytes, n: nat) {
    |b| >= n && forall i :: 0 <= i < n ==> b[i] == 0
  }

  predicate Zero4(b: Bytes, k: nat) {
    |b| >= k + 4 && b[k] == 0 && b[k + 1] == 0 && b[k + 2] == 0 && b[k + 3] == 0
  }

  // The number two bytes stand for.
  function Pair(x: byte, y: byte): nat {
    if NET_DATA_BIG_END then 256 * x + y else 256 * y + x
  }

  lemma PairOfU16(n: u16, b: Bytes)
    requires |b| == 2
    ensures EncU16(n) == b <==> n == Pair(b[0], b[1])
    ensures DecU16(b) == Pair(b[0], b[1])
  {
    var m := Pair(b[0], b[1]);
    Shifts2(m);
    assert EncU16(m) == b;
    RoundTrip16(m, 0);
    RoundTrip16(n, 0);
  }

  lemma {:induction false} ZeroDigits(n: nat)
    ensures forall i :: 0 <= i < n ==> Digits(0, n)[i] == 0
  {
    if n == 0 {
    } else {
      ZeroDigits(n - 1);
    }
  }

  lemma ZeroUnsigned(x: nat, n: nat)
    requires x < Pow256(n)
    ensures Zeros(EncUnsigned(x, n), n) <==> x == 0
  {
    ZeroDigits(n);
    assert Zeros(EncUnsigned(0, n), n);
    UnsignedRoundTrip(x, n);
    UnsignedRoundTrip(0, n);
    hide EncUnsigned, DecUnsigned;
    if Zeros(EncUnsigned(x, n), n) {
      assert EncUnsigned(x, n) == EncUnsigned(0, n);
    }
  }

  // Only zero is written as zeros.
  lemma ZeroNumbers(x: s32, y: s64, z: u32)
    ensures Zero4(EncS32(x), 0) <==> x == 0
    ensures Zero4(EncS64(y), 0) && Zero4(EncS64(y), 4) <==> y == 0
    ensures Zero4(EncU32(z), 0) <==> z == 0
  {
    hide EncUnsigned, Pow256;
    Widths();
    ZeroUnsigned(Pattern(x, 4), 4);
    ZeroUnsigned(Pattern(y, 8), 8);
    ZeroUnsigned(z, 4);
  }

  // How a string, a map, or nothing at all begins.
  ghost predicate Opens(c: Bytes) {
    || c == []
    || (|c| >= 2 && c[1] == KEY_TYPE_STRING)
    || c[0] < MAX_BYTE_VALUE
    || (c[0] == MAX_BYTE_VALUE && |c| >= 3 && 0 < Pair(c[1], c[2]) <= MAX_SHORT_VALUE
        && (Pair(c[1], c[2]) == MAX_SHORT_VALUE ==> |c| >= 7 && !Zero4(c, 3)))
  }

  lemma StringOpens(s: Bytes, t: Bytes)
    requires |s| < 0x1_0000
    ensures Opens(EncString(s) + t)
    ensures EncString(s)[0] == 0 <==> s == []
    ensures EncString(s)[0] == MAX_BYTE_VALUE <==> |s| >= MAX_BYTE_VALUE
    ensures s == [] ==> EncString(s) == [0]
    ensures MAX_BYTE_VALUE <= |s| < MAX_SHORT_VALUE ==>
              |EncString(s)| == |s| + 3 && Pair(EncString(s)[1], EncString(s)[2]) == |s|
    ensures |s| >= MAX_SHORT_VALUE ==> Pair(EncString(s)[1], EncString(s)[2]) == MAX_SHORT_VALUE
  {
    hide EncU16, EncU32, DecU16;
    var e := EncString(s);
    if MAX_BYTE_VALUE <= |s| < MAX_SHORT_VALUE {
      assert e[1..3] == EncU16(|s|);
      PairOfU16(|s|, e[1..3]);
    } else if |s| >= MAX_SHORT_VALUE {
      assert e[1..3] == EncU16(MAX_SHORT_VALUE);
      PairOfU16(MAX_SHORT_VALUE, e[1..3]);
      assert (e + t)[3..7] == EncU32(|s|);
      ZeroNumbers(0, 0, |s|);
    }
  }

  lemma DataOpens(it: Item)
    requires SafeItem(it)
    ensures it.data.BinData? || Opens(FromData(it))
    ensures it.data.BinData? ==> |FromData(it)| == 2 + |it.data.s|
    ensures FromData(it) == [] <==> it.data == NoData
    ensures FromData(it) != [] && FromData(it)[0] == 0 ==>
              it.data.BinData? || (it.data == Text([]) && FromData(it) == [0])
  {
    hide EncString, EncEntries, EncU16;
    match it.data
    case NoData =>
    case Text(s) =>
      StringOpens(s, []);
      NoMore(EncString(s));
    case MapData(m) =>
    case BinData(s) =>
  }

  // Binary data with nothing before it.
  predicate BareBin(it: Item) {
    it.cxt.Nil? && it.data.BinData?
  }

  lemma CxtOpens(it: Item)
    requires SafeItem(it)
    ensures BareBin(it) || Opens(FromCxt(it))
    ensures BareBin(it) ==> |FromCxt(it)| == 2 + |it.data.s|
    ensures FromCxt(it) != [] && FromCxt(it)[0] == 0 ==>
              BareBin(it) || (it.cxt.Nil? && it.data == Text([]) && FromCxt(it) == [0])
  {
    hide EncEntries, FromData;
    DataOpens(it);
    NoMore(FromData(it));
  }

  lemma CallbackOpens(it: Item)
    requires SafeItem(it)
    ensures (it.callback.None? && BareBin(it)) || Opens(FromCallback(it))
    ensures it.callback.None? ==> FromCallback(it) == FromCxt(it)
    ensures FromCallback(it) != [] && FromCallback(it)[0] == 0 ==>
              || it.callback == Some([])
              || (it.callback.None? && (BareBin(it) || (it.data == Text([]) && FromCallback(it) == [0])))
  {
    hide FromCxt, EncString, BareBin;
    CxtOpens(it);
    NoMore(FromCxt(it));
    if it.callback.Some? {
      StringOpens(it.callback.value, FromCxt(it));
    }
  }

  /** An empty string read too early **/

  // The three ways to read an empty string off b, in j bytes.
  predicate EmptyAt(b: Bytes, j: nat) {
    |b| >= j &&
    if j == 1 then b[0] == 0
    else if j == 3 then b[0] == MAX_BYTE_VALUE && b[1] == 0 && b[2] == 0
    else j == 7 && b[0] == MAX_BYTE_VALUE && Pair(b[1], b[2]) == MAX_SHORT_VALUE && Zero4(b, 3)
  }

  lemma EmptyRead(b: Bytes) returns (j: nat)
    requires ParseString(b).Some? && ParseString(b).value.0 == []
    ensures EmptyAt(b, j) && ParseString(b).value.1 == b[j..]
  {
    hide DecU16, DecU32, EncU32, ParseBytes;
    if b[0] == 0 {
      j := 1;
    } else {
      var b1 := b[1..];
      assert b[0] == MAX_BYTE_VALUE by { ParsedSize(b1, b[0]); }
      var b2 := b1[2..];
      PairOfU16(DecU16(b1[..2]), b1[..2]);
      if DecU16(b1[..2]) != MAX_SHORT_VALUE {
        ParsedSize(b2, DecU16(b1[..2]));
        j := 3;
      } else {
        ParsedSize(b2[4..], DecU32(b2[..4]));
        ZeroRead32(b2[..4]);
        j := 7;
      }
    }
  }

  lemma ZeroRead32(b: Bytes)
    requires |b| == 4 && DecU32(b) == 0
    ensures Zero4(b, 0)
  {
    hide Zero4;
    UnsignedOnto(b);
    ZeroNumbers(0, 0, 0);
  }

  lemma ParsedSize(b: Bytes, n: nat)
    ensures ParseBytes(b, n).Some? ==> |ParseBytes(b, n).value.0| == n && ParseBytes(b, n).value.1 == b[n..]
  {
  }

  // In each of these the callback, map and data are read d bytes late.
  ghost predicate Late(f: bv8, it: Item, d: nat, rest: Bytes)
    requires SizedItem(it)
  {
    var y := FromCallback(it) + rest;
    |y| >= d && GoodCallback(f, it, y[d..], rest)
  }

  lemma LateNeedsRoom(f: bv8, it: Item, d: nat, rest: Bytes)
    requires SizedItem(it) && Late(f, it, d, rest)
    ensures |FromCallback(it)| >= d + LeastStr(it.callback) + LeastData(it.data)
  {
    hide FromCallback, GoodCallback;
    CallbackTakes(f, it, (FromCallback(it) + rest)[d..], rest);
  }

  // A marker that is not followed by a length opens nothing.
  lemma NoBareMarker(c: Bytes, j: nat, rest: Bytes)
    requires Opens(c) && 1 < j <= |c|
    ensures !EmptyAt(c + rest, j)
  {
  }

  // Two zeros in front of what is no longer than it must be.
  lemma FewZeros(it: Item)
    requires SafeItem(it) && |FromCallback(it)| >= 2 && FromCallback(it)[0] == 0 && FromCallback(it)[1] == 0
    ensures |FromCallback(it)| <= 2 + LeastStr(it.callback) + LeastData(it.data)
  {
    hide FromCxt, EncString;
    CallbackOpens(it);
    CxtOpens(it);
    StringOpens([], []);
  }

  lemma NotBehindZeros(f: bv8, it: Item, d: nat, rest: Bytes)
    requires SafeItem(it) && d >= 3
    requires var y := FromCallback(it) + rest; |y| >= 2 && y[0] == 0 && y[1] == 0
    ensures !Late(f, it, d, rest)
  {
    hide FromCallback, Late;
    if Late(f, it, d, rest) {
      LateNeedsRoom(f, it, d, rest);
      FewZeros(it);
    }
  }

  lemma NotBehindMarker(f: bv8, it: Item, j: nat, d: nat, rest: Bytes)
    requires SafeItem(it) && j > 1 && d >= j && EmptyAt(FromCallback(it) + rest, j)
    ensures !Late(f, it, d, rest)
  {
    hide FromCallback, FromCxt, Late, Opens;
    if Late(f, it, d, rest) {
      LateNeedsRoom(f, it, d, rest);
      CallbackOpens(it);
      CxtOpens(it);
      if Opens(FromCallback(it)) {
        NoBareMarker(FromCallback(it), j, rest);
      }
    }
  }

  // A length that begins with a zero byte cannot lose it.
  lemma BinNotLate(f: bv8, it: Item, rest: Bytes)
    requires SafeItem(it) && BareBin(it) && FromCxt(it)[0] == 0
    ensures !GoodCxt(f, it, (FromCxt(it) + rest)[1..], rest)
  {
    hide IsDataFlag, ParseExtra, GoodData, EncU16;
    var s := it.data.s;
    var w := FromCxt(it) + rest;
    NoMore(FromData(it));
    if GoodCxt(f, it, w[1..], rest) {
      var b := ParseOptMap(IsDataFlag(6, f), w[1..]).value.1;
      DataTakes(f, it, b, rest);
      NilTakes(w[1..]);
      PairOfU16(|s|, w[..2]);
    }
  }

  // The callback is empty, and the string read instead of it is what follows.
  lemma NotBehindCallback(f: bv8, it: Item, j: nat, rest: Bytes)
    requires SafeItem(it) && EmptyAt(FromCxt(it) + rest, j)
    ensures !GoodCxt(f, it, (FromCxt(it) + rest)[j..], rest)
  {
    hide GoodCxt, FromCxt, Opens;
    var w := FromCxt(it) + rest;
    if GoodCxt(f, it, w[j..], rest) {
      CxtTakes(f, it, w[j..], rest);
      CxtOpens(it);
      if Opens(FromCxt(it)) && j > 1 {
        NoBareMarker(FromCxt(it), j, rest);
      }
      if BareBin(it) && j == 1 {
        BinNotLate(f, it, rest);
      }
    }
  }

  lemma NotBehindZero(f: bv8, it: Item, rest: Bytes)
    requires SafeItem(it) && EmptyAt(FromCallback(it) + rest, 1)
    ensures !Late(f, it, 1, rest)
  {
    hide GoodCxt, FromCxt, ParseString, Opens, EncString;
    if Late(f, it, 1, rest) {
      LateNeedsRoom(f, it, 1, rest);
      CallbackOpens(it);
      CxtOpens(it);
      StringOpens([], []);
      if it.callback.None? {
        BinNotLate(f, it, rest);
      } else {
        Assoc([0], FromCxt(it), rest);
        Cut([0], FromCxt(it) + rest);
        var j := EmptyRead(FromCxt(it) + rest);
        NotBehindCallback(f, it, j, rest);
      }
    }
  }

  lemma NotBehindPair(f: bv8, it: Item, rest: Bytes)
    requires SafeItem(it)
    requires var y := FromCallback(it) + rest; |y| >= 3 && Pair(y[0], y[1]) == MAX_SHORT_VALUE && y[2] == 0
    ensures !Late(f, it, 7, rest)
  {
    hide FromCallback, FromCxt, Late;
    if Late(f, it, 7, rest) {
      LateNeedsRoom(f, it, 7, rest);
      var c := FromCallback(it);
      assert c[0] == (c + rest)[0] && c[1] == (c + rest)[1] && c[2] == (c + rest)[2];
      CallbackOpens(it);
      CxtOpens(it);
    }
  }

  lemma NotBehindZeroMarker(f: bv8, it: Item, rest: Bytes)
    requires SafeItem(it)
    requires var y := FromCallback(it) + rest; |y| >= 3 && y[0] == 0 && y[1] == MAX_BYTE_VALUE && y[2] == 0
    ensures !Late(f, it, 3, rest)
  {
    hide FromCxt, Late, Opens, EncString;
    if Late(f, it, 3, rest) {
      LateNeedsRoom(f, it, 3, rest);
      CallbackOpens(it);
      CxtOpens(it);
      StringOpens([], []);
      assert it.callback == Some([]) && FromCallback(it) == [0] + FromCxt(it);
      var c := FromCxt(it);
      assert c[0] == MAX_BYTE_VALUE && c[1] == 0 by {
        assert c[0] == (FromCallback(it) + rest)[1] && c[1] == (FromCallback(it) + rest)[2];
      }
      MarkerIsText(it);
    }
  }

  // What opens with a marker behind the callback is nothing but a text or
  // binary data.
  lemma MarkerIsText(it: Item)
    requires SafeItem(it) && |FromCxt(it)| >= 2 && FromCxt(it)[0] == MAX_BYTE_VALUE && FromCxt(it)[1] == 0
    ensures |FromCxt(it)| <= LeastData(it.data) + 2
  {
    hide EncString, EncEntries;
    NoMore(FromData(it));
    CxtOpens(it);
    if it.data.Text? {
      StringOpens(it.data.s, []);
    }
  }

  /** The same in front of the two numbers **/

  function Width(on: bool): nat {
    if on then 4 else 0
  }

  lemma Read32(b: Bytes)
    ensures ParseS32(b).Some? ==>
              |b| >= 4 && b[..4] == EncS32(ParseS32(b).value.0) && ParseS32(b).value.1 == b[4..]
  {
    hide EncSigned, DecSigned;
    if |b| >= 4 {
      SignedOnto(b[..4]);
    }
  }

  lemma NumStep(on: bool, x: s32, b: Bytes)
    requires ParseOptS32(on, b).Some? && ParseOptS32(on, b).value.0 == x
    ensures |b| >= Width(on) && ParseOptS32(on, b).value.1 == b[Width(on)..]
    ensures on ==> b[..4] == EncS32(x)
    ensures !on ==> x == 0
    ensures on && x == 0 ==> Zero4(b, 0)
  {
    hide ParseS32, EncS32, EncS64, EncU32;
    Read32(b);
    ZeroNumbers(x, 0, 0);
    assert on ==> forall i :: 0 <= i < 4 ==> b[i] == b[..4][i];
  }

  // Four bytes n that are found again d bytes later.
  lemma Again(n: Bytes, y: Bytes, d: nat)
    requires |n| == 4 && |y| >= d && (n + y)[d..][..4] == n
    ensures var u := n + y;
            && u[0] == n[0] == u[d] && u[1] == n[1] == u[d + 1] && u[2] == n[2] == u[d + 2] && u[3] == n[3] == u[d + 3]
    ensures (n + y)[d..][4..] == y[d..]
  {
    var u := n + y;
    assert u[d] == u[d..][..4][0] && u[d + 1] == u[d..][..4][1];
    assert u[d + 2] == u[d..][..4][2] && u[d + 3] == u[d..][..4][3];
  }

  lemma AgainBehindEmpty(n: Bytes, y: Bytes, j: nat, d: nat)
    requires |n| == 4 && !Zero4(n, 0) && |y| >= d && (n + y)[d..][..4] == n
    requires EmptyAt(n + y, j) && (d == j || (d == j + 4 && Zero4(n + y, j)))
    ensures d >= 3 && |y| >= 2 && y[0] == 0 && y[1] == 0
    ensures (n + y)[d..][4..] == y[d..]
  {
    Again(n, y, d);
    assert (n + y)[4] == y[0] && (d > 1 ==> (n + y)[5] == y[1]);
  }

  // In front of the second number, with the first one missing or read from
  // the four zeros in between.
  lemma NotBeforeTo(f: bv8, it: Item, j: nat, d: nat, rest: Bytes)
    requires SafeItem(it)
    requires var u := FromTo(it) + rest;
             EmptyAt(u, j) && |u| >= d && (d == j || (d == j + 4 && Zero4(u, j)))
    ensures !GoodTo(f, it, (FromTo(it) + rest)[d..], rest)
  {
    hide GoodCallback, FromCallback, EncS32, EncS64, EncU32, SafeMap, SizedMap, DataFits;
    var u, y := FromTo(it) + rest, FromCallback(it) + rest;
    if GoodTo(f, it, u[d..], rest) {
      NumStep(IsDataFlag(4, f), it.to, u[d..]);
      if it.to != 0 {
        var n := EncS32(it.to);
        ZeroNumbers(it.to, 0, 0);
        Assoc(n, FromCallback(it), rest);
        AgainBehindEmpty(n, y, j, d);
        NotBehindZeros(f, it, d, rest);
      } else {
        NotAtCallback(f, it, j, d, rest);
      }
    }
  }

  // Both numbers are missing.
  lemma NotAtCallback(f: bv8, it: Item, j: nat, d: nat, rest: Bytes)
    requires SafeItem(it) && it.to == 0
    requires var u := FromTo(it) + rest;
             EmptyAt(u, j) && |u| >= d && (d == j || (d == j + 4 && Zero4(u, j)))
    ensures !GoodTo(f, it, (FromTo(it) + rest)[d..], rest)
  {
    hide GoodCallback, FromCallback, EncS32, EncS64, EncU32, SafeMap, SizedMap, DataFits;
    var u, y := FromTo(it) + rest, FromCallback(it) + rest;
    if GoodTo(f, it, u[d..], rest) {
      NumStep(IsDataFlag(4, f), it.to, u[d..]);
      NoMore(FromCallback(it));
      var e := d + Width(IsDataFlag(4, f));
      assert u[d..][e - d..] == y[e..];
      if j > 1 {
        NotBehindMarker(f, it, j, e, rest);
      } else if e == 1 {
        NotBehindZero(f, it, rest);
      } else {
        assert y[1] == 0 by {
          assert d == 1 ==> u[1] == u[d..][0];
        }
        NotBehindZeros(f, it, e, rest);
      }
    }
  }

  // Behind a first number that ends in an empty string.
  lemma NotBehindSrc(f: bv8, it: Item, d: nat, rest: Bytes)
    requires SafeItem(it)
    requires var u := FromTo(it) + rest;
             && |u| >= d >= 3 && u[0] == 0 && u[1] == 0
             && ((d == 3 && u[2] == MAX_BYTE_VALUE)
                 || (d == 7 && |u| >= 7 && u[2] == 0 && Pair(u[4], u[5]) == MAX_SHORT_VALUE && u[6] == 0))
    ensures !GoodTo(f, it, (FromTo(it) + rest)[d..], rest)
  {
    hide GoodCallback, FromCallback, EncS32, EncS64, EncU32, SafeMap, SizedMap, DataFits;
    var u, y := FromTo(it) + rest, FromCallback(it) + rest;
    if GoodTo(f, it, u[d..], rest) {
      NumStep(IsDataFlag(4, f), it.to, u[d..]);
      if it.to != 0 {
        var n := EncS32(it.to);
        Assoc(n, FromCallback(it), rest);
        Again(n, y, d);
        if d == 3 {
          assert y[0] == u[4] && y[1] == u[5] && y[2] == u[6];
          NotBehindZeroMarker(f, it, rest);
        } else {
          assert y[0] == u[4] && y[1] == u[5] && y[2] == u[6];
          NotBehindPair(f, it, rest);
        }
      } else {
        NoMore(FromCallback(it));
        var e := d + Width(IsDataFlag(4, f));
        assert u[d..][e - d..] == y[e..];
        NotBehindZeros(f, it, e, rest);
      }
    }
  }

  lemma AgainInFront(n: Bytes, u: Bytes, j: nat)
    requires |n| == 4 && !Zero4(n, 0) && |u| >= j && (n + u)[j..][..4] == n
    requires EmptyAt(n + u, j)
    ensures |u| >= j >= 3 && u[0] == 0 && u[1] == 0
    ensures (j == 3 && u[2] == MAX_BYTE_VALUE)
            || (j == 7 && u[2] == 0 && Pair(u[4], u[5]) == MAX_SHORT_VALUE && u[6] == 0)
    ensures (n + u)[j..][4..] == u[j..]
  {
    Again(n, u, j);
    var s := n + u;
    assert j > 1;
    assert s[4] == u[0] && s[5] == u[1] && s[6] == u[2];
    assert j == 7 ==> s[8] == u[4] && s[9] == u[5] && s[10] == u[6];
  }

  // An empty string cannot be read in front of the fields behind the topic
  // and leave them all readable.
  lemma NotBeforeSrc(f: bv8, it: Item, j: nat, rest: Bytes)
    requires SafeItem(it) && EmptyAt(FromSrc(it) + rest, j)
    ensures !GoodSrc(f, it, (FromSrc(it) + rest)[j..], rest)
  {
    hide GoodTo, FromTo, EncS32, EncS64, EncU32, SafeMap, SizedMap, DataFits;
    var s, u := FromSrc(it) + rest, FromTo(it) + rest;
    if GoodSrc(f, it, s[j..], rest) {
      NumStep(IsDataFlag(3, f), it.srcClientId, s[j..]);
      if it.srcClientId != 0 {
        var n := EncS32(it.srcClientId);
        ZeroNumbers(it.srcClientId, 0, 0);
        Assoc(n, FromTo(it), rest);
        AgainInFront(n, u, j);
        NotBehindSrc(f, it, j, rest);
      } else {
        NoMore(FromTo(it));
        var d := j + Width(IsDataFlag(3, f));
        assert s[j..][d - j..] == u[d..];
        NotBeforeTo(f, it, j, d, rest);
      }
    }
  }

  // One zero byte cannot be taken away from in front of the topic.
  lemma NotBehindTyp(f: bv8, it: Item, rest: Bytes)
    requires SafeItem(it)
    requires var x := FromTopic(it) + rest; x != [] && x[0] == 0
    ensures !GoodTopic(f, it, (FromTopic(it) + rest)[1..], rest)
  {
    hide GoodSrc, FromSrc, ParseString, EncString, SafeMap, SizedMap, DataFits;
    var x, s := FromTopic(it) + rest, FromSrc(it) + rest;
    if GoodTopic(f, it, x[1..], rest) {
      if it.topic.None? {
        NoMore(FromSrc(it));
        NotBeforeSrc(f, it, 1, rest);
      } else {
        StringOpens(it.topic.value, []);
        assert it.topic == Some([]) by {
          assert x[0] == EncString(it.topic.value)[0];
        }
        Assoc([0], FromSrc(it), rest);
        Cut([0], s);
        var j := EmptyRead(s);
        NotBeforeSrc(f, it, j, rest);
      }
    }
  }

  /** Which leftover bits an item survives **/

  lemma SkipBit(k: nat, f: bv8, it: Item, rest: Bytes)
    requires k < 8 && Covers(f, it)
    ensures IsDataFlag(k, f) == Present(k, it) ==> (HarmlessFrom(k, f, it, rest) <==> HarmlessFrom(k + 1, f, it, rest))
    ensures IsDataFlag(k, f) != Present(k, it) ==> Leftover(k, f, it) && (k < 6 ==> !HarmlessFrom(k, f, it, rest))
  {
    hide IsDataFlag, Present;
  }

  lemma EntriesAreNodes(b: Bytes, n: nat, kt: byte, acc: Extra)
    requires n > 0 || acc.Node?
    ensures var p := ParseEntries(b, n, kt, acc); p.Some? ==> p.value.0.Node?
    decreases n
  {
    hide ParseKey, ParseVal;
  }

  lemma NilTakes(b: Bytes)
    ensures ParseExtra([]) == Some((Nil, []))
    ensures ParseExtra(b).Some? && ParseExtra(b).value.0.Nil? && b != [] ==>
              b[0] == 0 && ParseExtra(b).value.1 == b[1..]
  {
    hide ParseEntries;
    if b != [] && b[0] != 0 && |b| > 1 {
      assert b[1..][1..] == b[2..];
      EntriesAreNodes(b[2..], b[0], b[1], Nil);
    }
  }

  lemma DataIff(f: bv8, it: Item, rest: Bytes)
    requires SafeItem(it) && Covers(f, it)
    ensures GoodData(f, it, FromData(it) + rest, rest) <==> !it.data.BinData? && HarmlessFrom(7, f, it, rest)
  {
    hide IsDataFlag, ParseString, ParseExtra, EncString, EncExtra;
    assert Present(7, it) == (it.data != NoData);
    if Leftover(7, f, it) {
      NoMore(rest);
      NilTakes(rest);
    } else {
      OptDataRoundTrip(it, rest);
    }
  }

  lemma CxtIff(f: bv8, it: Item, rest: Bytes)
    requires SafeItem(it) && Covers(f, it)
    ensures GoodCxt(f, it, FromCxt(it) + rest, rest) <==> !it.data.BinData? && HarmlessFrom(6, f, it, rest)
  {
    hide IsDataFlag, ParseExtra, GoodData, FromData, SafeMap, SizedMap, DataFits;
    var t := FromData(it) + rest;
    DataIff(f, it, rest);
    SkipBit(6, f, it, rest);
    if Leftover(6, f, it) {
      NoMore(FromData(it));
      NilTakes(t);
      DataOpens(it);
      if GoodCxt(f, it, t, rest) && t != [] {
        DataTakes(f, it, t[1..], rest);
      }
    } else {
      Assoc(OptMap(it.cxt), FromData(it), rest);
      OptMapRoundTrip(it.cxt, t);
    }
  }

  // A number that is there keeps four zeros away, and what follows it has fewer.
  lemma NoFourZeros(x: s32, c: Bytes)
    requires !Zero4(c, 0)
    ensures !Zero4(OptS32(x) + c, 0)
  {
    hide EncS32, EncS64, EncU32;
    NoMore(c);
    ZeroNumbers(x, 0, 0);
    if x != 0 {
      var n, b := EncS32(x), EncS32(x) + c;
      assert b[0] == n[0] && b[1] == n[1] && b[2] == n[2] && b[3] == n[3];
    }
  }

  lemma CallbackNoFourZeros(it: Item)
    requires SafeItem(it)
    ensures !Zero4(FromCallback(it), 0)
  {
    hide FromCxt, EncString;
    CallbackOpens(it);
    CxtOpens(it);
    StringOpens([], []);
    if BareBin(it) {
      var w := FromCxt(it);
      assert w[..2] == EncU16(|it.data.s|) by { BinLength(it); }
      PairOfU16(|it.data.s|, w[..2]);
    }
  }

  lemma BinLength(it: Item)
    requires SafeItem(it) && BareBin(it)
    ensures FromCxt(it) == EncU16(|it.data.s|) + it.data.s
  {
    NoMore(FromData(it));
  }

  lemma NumbersNoFourZeros(it: Item)
    requires SafeItem(it)
    ensures !Zero4(FromTo(it), 0) && !Zero4(FromSrc(it), 0)
  {
    hide FromCallback, OptS32, SafeMap, SizedMap, DataFits;
    CallbackNoFourZeros(it);
    NoFourZeros(it.to, FromCallback(it));
    NoFourZeros(it.srcClientId, FromTo(it));
  }

  lemma NoEightZeros(it: Item)
    requires SafeItem(it)
    ensures !(Zero4(FromTyp(it), 0) && Zero4(FromTyp(it), 4))
  {
    hide FromSrc, EncString, SafeMap, SizedMap, DataFits;
    NumbersNoFourZeros(it);
    if it.topic.Some? {
      StringOpens(it.topic.value, []);
      var c := FromTopic(it);
      assert c[0] == EncString(it.topic.value)[0];
      assert it.topic.value == [] && |FromSrc(it)| >= 4 ==>
          FromSrc(it)[0] == c[1] && FromSrc(it)[1] == c[2] && FromSrc(it)[2] == c[3] && FromSrc(it)[3] == c[4];
    }
  }

  lemma CallbackIff(f: bv8, it: Item, rest: Bytes)
    requires SafeItem(it) && Covers(f, it)
    ensures GoodCallback(f, it, FromCallback(it) + rest, rest) <==> !it.data.BinData? && HarmlessFrom(5, f, it, rest)
  {
    hide IsDataFlag, ParseString, GoodCxt, FromCxt, SafeMap, SizedMap, DataFits, HarmlessFrom, OptStr;
    CxtIff(f, it, rest);
    SkipBit(5, f, it, rest);
    Assoc(OptStr(it.callback), FromCxt(it), rest);
    OptStrRoundTrip(it.callback, FromCxt(it) + rest);
  }

  // Four bytes are too many to be read in front of the callback as zero.
  lemma ToIff(f: bv8, it: Item, rest: Bytes)
    requires SafeItem(it) && Covers(f, it)
    ensures GoodTo(f, it, FromTo(it) + rest, rest) <==> !it.data.BinData? && HarmlessFrom(4, f, it, rest)
  {
    hide IsDataFlag, ParseS32, EncS32, GoodCallback, FromCallback, SafeMap, SizedMap, DataFits, HarmlessFrom;
    CallbackIff(f, it, rest);
    SkipBit(4, f, it, rest);
    if Leftover(4, f, it) {
      NoMore(FromCallback(it));
      var y := FromCallback(it) + rest;
      if GoodTo(f, it, y, rest) {
        NumStep(true, 0, y);
        NotBehindZeros(f, it, 4, rest);
      }
    } else {
      Assoc(OptS32(it.to), FromCallback(it), rest);
      OptNumRoundTrip(0, it.to, 0, FromCallback(it) + rest);
    }
  }

  lemma SrcIff(f: bv8, it: Item, rest: Bytes)
    requires SafeItem(it) && Covers(f, it)
    ensures GoodSrc(f, it, FromSrc(it) + rest, rest) <==> !it.data.BinData? && HarmlessFrom(3, f, it, rest)
  {
    hide IsDataFlag, ParseS32, EncS32, GoodTo, FromTo, SafeMap, SizedMap, DataFits, HarmlessFrom;
    ToIff(f, it, rest);
    SkipBit(3, f, it, rest);
    if Leftover(3, f, it) {
      NoMore(FromTo(it));
      NumbersNoFourZeros(it);
      var u := FromTo(it) + rest;
      if GoodSrc(f, it, u, rest) {
        NumStep(true, 0, u);
        ToTakes(f, it, u[4..], rest);
      }
    } else {
      Assoc(OptS32(it.srcClientId), FromTo(it), rest);
      OptNumRoundTrip(0, it.srcClientId, 0, FromTo(it) + rest);
    }
  }

  lemma TopicIff(f: bv8, it: Item, rest: Bytes)
    requires SafeItem(it) && Covers(f, it)
    ensures GoodTopic(f, it, FromTopic(it) + rest, rest) <==> !it.data.BinData? && HarmlessFrom(2, f, it, rest)
  {
    hide IsDataFlag, ParseString, GoodSrc, FromSrc, SafeMap, SizedMap, DataFits, HarmlessFrom, OptStr;
    SrcIff(f, it, rest);
    SkipBit(2, f, it, rest);
    Assoc(OptStr(it.topic), FromSrc(it), rest);
    OptStrRoundTrip(it.topic, FromSrc(it) + rest);
  }

  lemma TypIff(f: bv8, it: Item, rest: Bytes)
    requires SafeItem(it) && Covers(f, it)
    ensures GoodTyp(f, it, FromTyp(it) + rest, rest) <==> !it.data.BinData? && HarmlessFrom(1, f, it, rest)
  {
    hide IsDataFlag, GoodTopic, FromTopic, SafeMap, SizedMap, DataFits, HarmlessFrom;
    TopicIff(f, it, rest);
    SkipBit(1, f, it, rest);
    if Leftover(1, f, it) {
      NoMore(FromTopic(it));
      var x := FromTopic(it) + rest;
      if x != [] && x[0] == 0 {
        NotBehindTyp(f, it, rest);
      }
    } else {
      Assoc(OptS8(it.typ), FromTopic(it), rest);
      OptNumRoundTrip(0, 0, it.typ, FromTopic(it) + rest);
    }
  }

  lemma Read64Zero(b: Bytes)
    requires ParseS64(b).Some? && ParseS64(b).value.0 == 0
    ensures Zero4(b, 0) && Zero4(b, 4) && ParseS64(b).value.1 == b[8..]
  {
    hide EncSigned, DecSigned, EncUnsigned;
    SignedOnto(b[..8]);
    ZeroNumbers(0, 0, 0);
    assert forall i :: 0 <= i < 8 ==> b[i] == b[..8][i];
  }

  lemma IdIff(f: bv8, it: Item, rest: Bytes)
    requires SafeItem(it) && Covers(f, it)
    ensures GoodId(f, it, FromId(it) + rest, rest) <==> !it.data.BinData? && HarmlessFrom(0, f, it, rest)
  {
    hide IsDataFlag, ParseS64, EncS64, GoodTyp, FromTyp, SafeMap, SizedMap, DataFits, HarmlessFrom;
    TypIff(f, it, rest);
    SkipBit(0, f, it, rest);
    if Leftover(0, f, it) {
      NoMore(FromTyp(it));
      NoEightZeros(it);
      var x := FromTyp(it) + rest;
      if GoodId(f, it, x, rest) {
        Read64Zero(x);
        TypTakes(f, it, x[8..], rest);
      }
    } else {
      Assoc(OptS64(it.id), FromTyp(it), rest);
      OptNumRoundTrip(it.id, 0, 0, FromTyp(it) + rest);
    }
  }

  // An item and whatever follows come back if and only if it has no binary data
  // and every leftover bit is harmless.
  lemma SurvivesIff(f: bv8, it: Item, rest: Bytes)
    requires SafeItem(it) && Covers(f, it)
    ensures Parse(Enc(f, it) + rest) == Some(((f, Received(it)), rest))
            <==> !it.data.BinData? && Harmless(f, it, rest)
  {
    hide Enc, Parse, GoodId, FromId, HarmlessFrom, SafeMap, SizedMap, DataFits, Covers, Received;
    ParseIsGood(f, it, rest);
    IdIff(f, it, rest);
  }

  // The same, told by the bits the item had before it was serialized.
  lemma MarkedSurvivesIff(f: bv8, it: Item, rest: Bytes)
    requires SafeItem(it)
    ensures var g := Marked(f, it);
            Parse(Enc(g, it) + rest) == Some(((g, Received(it)), rest))
            <==> !it.data.BinData? && Harmless(f, it, rest)
  {
    hide Enc, Parse, SafeItem, Received, Present, IsDataFlag, Marked;
    MarkedBits(f, it);
    var g := Marked(f, it);
    assert forall i :: 0 <= i < 8 ==> (Leftover(i, g, it) <==> Leftover(i, f, it));
    SurvivesIff(g, it, rest);
  }

  // Serialized and parsed; port, host and ack tell of the message it came in.
  method Trip(ps: PsItem, port: s32, host: Option<Bytes>, ack: bool) returns (back: PsItem)
    requires SafeItem(ps.View()) && !ps.data.BinData? && Harmless(ps.dataFlag, ps.View(), [])
    requires var n := |Enc(Marked(ps.dataFlag, ps.View()), ps.View())|;
             n <= ITEM_BUF_SIZE && n + Slack(ps.View()) <= ITEM_BUF_SIZE
    modifies ps`dataFlag, ps`data
    ensures ps.View() == old(ps.View())
    ensures fresh(back) && back.dataFlag == ps.dataFlag == Marked(old(ps.dataFlag), ps.View())
    ensures back.View() == Received(ps.View()).(cxt := WithUdp(Mirror(ps.cxt), port, host, ack))
  {
    hide Enc, Parse, SizedItem, Mirror, MirrorData, WithUdp, Marked, Harmless, Slack, Ring.Contents, Ring.ReadableLen, SafeMap;
    ghost var it := ps.View();
    SafeMapIsSized(it.cxt, KEY_TYPE_STRING);
    if it.data.MapData? {
      SafeMapIsSized(it.data.m, KEY_TYPE_STRING);
    }
    MarkedSurvivesIff(ps.dataFlag, it, []);
    NoMore(Enc(Marked(ps.dataFlag, it), it));
    var buf := ps.Serialize();
    back := ParseBin(buf, port, host, ack);
  }
}
