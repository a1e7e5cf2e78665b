/**
 The presence-bitmap form of pub/sub items: _c_serialPsItem and the parser
 _psitem_pubsubItemParseBin of jm_client.c, for string, JSON and map data.
 */
module PubSubItem {
  import opened Wire
  import opened ByteRing
  import opened ExtraMap
  import opened ExtraCodec
  import ExtraLookup

  const ITEM_BUF_SIZE: nat := 256
  const FLAG_DATA_STRING := 0
  const FLAG_DATA_BIN := 1
  const FLAG_DATA_JSON := 2
  const FLAG_DATA_EXTRA := 3

  // it->data read according to the data type in it->flag; of a buffer, the
  // bytes queued in it.
  datatype Data = NoData | Text(s: Bytes) | MapData(m: Extra) | BinData(s: Bytes)

  datatype Item = Item(flag: byte, fr: s32, id: s64, typ: s8, topic: Option<Bytes>, srcClientId: s32, to: s32,
                       callback: Option<Bytes>, cxt: Extra, data: Data)

  // Bits 5 and 6
  function DataType(flag: byte): nat {
    flag / 32 % 4
  }

  /** The presence bits **/

  function SetDataFlag(idx: nat, f: bv8): bv8
    requires idx < 8
  {
    f | ((1 as bv8) << idx)
  }

  predicate IsDataFlag(idx: nat, f: bv8)
    requires idx < 8
  {
    f & ((1 as bv8) << idx) != 0
  }

  function SetIf(on: bool, idx: nat, f: bv8): (g: bv8)
    requires idx < 8
    ensures IsDataFlag(0, g) == (IsDataFlag(0, f) || (on && idx == 0))
    ensures IsDataFlag(1, g) == (IsDataFlag(1, f) || (on && idx == 1))
    ensures IsDataFlag(2, g) == (IsDataFlag(2, f) || (on && idx == 2))
    ensures IsDataFlag(3, g) == (IsDataFlag(3, f) || (on && idx == 3))
    ensures IsDataFlag(4, g) == (IsDataFlag(4, f) || (on && idx == 4))
    ensures IsDataFlag(5, g) == (IsDataFlag(5, f) || (on && idx == 5))
    ensures IsDataFlag(6, g) == (IsDataFlag(6, f) || (on && idx == 6))
    ensures IsDataFlag(7, g) == (IsDataFlag(7, f) || (on && idx == 7))
  {
    if on then SetDataFlag(idx, f) else f
  }

  // Whether the idx-th optional field differs from its default.
  predicate Present(idx: nat, it: Item)
    requires idx < 8
  {
    if idx == 0 then it.id != 0
    else if idx == 1 then it.typ != 0
    else if idx == 2 then it.topic.Some?
    else if idx == 3 then it.srcClientId != 0
    else if idx == 4 then it.to != 0
    else if idx == 5 then it.callback.Some?
    else if idx == 6 then it.cxt.Node?
    else it.data != NoData
  }

  // The bits are added to those the item already has.
  function Marked(f: bv8, it: Item): bv8 {
    var f0 := SetIf(Present(0, it), 0, f);
    var f1 := SetIf(Present(1, it), 1, f0);
    var f2 := SetIf(Present(2, it), 2, f1);
    var f3 := SetIf(Present(3, it), 3, f2);
    var f4 := SetIf(Present(4, it), 4, f3);
    var f5 := SetIf(Present(5, it), 5, f4);
    var f6 := SetIf(Present(6, it), 6, f5);
    SetIf(Present(7, it), 7, f6)
  }

  lemma MarkedBits(f: bv8, it: Item)
    ensures forall i :: 0 <= i < 8 ==> IsDataFlag(i, Marked(f, it)) == (IsDataFlag(i, f) || Present(i, it))
  {
    hide SetIf, IsDataFlag, Present;
    forall i | 0 <= i < 8
      ensures IsDataFlag(i, Marked(f, it)) == (IsDataFlag(i, f) || Present(i, it))
    {
      if i == 0 {} else if i == 1 {} else if i == 2 {} else if i == 3 {}
      else if i == 4 {} else if i == 5 {} else if i == 6 {} else {}
    }
  }

  // Each bit tells exactly whether its field is there, if and only if the item
  // carried no bit of a missing field beforehand.
  lemma BitsExactIff(f: bv8, it: Item)
    ensures (forall i :: 0 <= i < 8 ==> IsDataFlag(i, Marked(f, it)) == Present(i, it))
            <==> (forall i :: 0 <= i < 8 ==> IsDataFlag(i, f) ==> Present(i, it))
  {
    MarkedBits(f, it);
    hide IsDataFlag, Present, Marked;
    if forall i :: 0 <= i < 8 ==> IsDataFlag(i, Marked(f, it)) == Present(i, it) {
      forall i | 0 <= i < 8 && IsDataFlag(i, f)
        ensures Present(i, it)
      {
        assert IsDataFlag(i, Marked(f, it));
      }
    }
  }

  /** Optional fields **/

  function OptS64(x: s64): Bytes { if x != 0 then EncS64(x) else [] }
  function OptS32(x: s32): Bytes { if x != 0 then EncS32(x) else [] }
  function OptS8(x: s8): Bytes { if x != 0 then [EncS8(x)] else [] }

  ghost predicate ShortOpt(s: Option<Bytes>) {
    s.Some? ==> |s.value| < 0x1_0000
  }

  function OptStr(s: Option<Bytes>): Bytes
    requires ShortOpt(s)
  {
    if s.Some? then EncString(s.value) else []
  }

  ghost function OptMap(m: Extra): Bytes
    requires SizedMap(m, KEY_TYPE_STRING)
  {
    if m.Node? then EncExtra(m, KEY_TYPE_STRING) else []
  }

  // Data of the type the flag says; a map that is there has entries.
  ghost predicate DataFits(flag: byte, d: Data) {
    match d
    case NoData => true
    case Text(s) => DataType(flag) in {FLAG_DATA_STRING, FLAG_DATA_JSON} && |s| < 0x1_0000
    case MapData(m) => DataType(flag) == FLAG_DATA_EXTRA && m.Node? && SizedMap(m, KEY_TYPE_STRING)
    case BinData(s) => DataType(flag) == FLAG_DATA_BIN && |s| < 0x1_0000
  }

  ghost function OptData(flag: byte, d: Data): Bytes
    requires DataFits(flag, d)
  {
    match d
    case NoData => []
    case Text(s) => EncString(s)
    case MapData(m) => EncExtra(m, KEY_TYPE_STRING)
    case BinData(s) => EncU16(|s|) + s
  }

  ghost predicate SizedItem(it: Item) {
    ShortOpt(it.topic) && ShortOpt(it.callback) && SizedMap(it.cxt, KEY_TYPE_STRING) && DataFits(it.flag, it.data)
  }

  ghost predicate SafeItem(it: Item) {
    && SizedItem(it)
    && SafeMap(it.cxt, KEY_TYPE_STRING) && Count(it.cxt) <= 255
    && (it.data.MapData? ==> SafeMap(it.data.m, KEY_TYPE_STRING) && Count(it.data.m) <= 255)
  }

  ghost function Enc(f: bv8, it: Item): Bytes
    requires SizedItem(it)
  {
    [f as int, it.flag] + (EncS32(it.fr) + (OptS64(it.id) + (OptS8(it.typ) + (OptStr(it.topic) + EncTail(it)))))
  }

  ghost function EncTail(it: Item): Bytes
    requires SizedItem(it)
  {
    OptS32(it.srcClientId) + (OptS32(it.to) + (OptStr(it.callback) + (OptMap(it.cxt) + OptData(it.flag, it.data))))
  }

  /** Parsing **/

  function ParseOptS64(on: bool, b: Bytes): Parsed<s64> { if on then ParseS64(b) else Some((0, b)) }
  function ParseOptS32(on: bool, b: Bytes): Parsed<s32> { if on then ParseS32(b) else Some((0, b)) }
  function ParseOptS8(on: bool, b: Bytes): Parsed<s8> { if on then ParseS8(b) else Some((0, b)) }

  function ParseOptStr(on: bool, b: Bytes): Parsed<Option<Bytes>> {
    if !on then Some((None, b))
    else match ParseString(b) case None => None case Some((s, r)) => Some((Some(s), r))
  }

  function ParseOptMap(on: bool, b: Bytes): Parsed<Extra> {
    if on then ParseExtra(b) else Some((Nil, b))
  }

  // Binary data is all that is left, the length in front of it included.
  function ParseOptData(on: bool, flag: byte, b: Bytes): Parsed<Data> {
    if !on then Some((NoData, b))
    else if DataType(flag) == FLAG_DATA_BIN then if b == [] then Some((NoData, b)) else Some((BinData(b), []))
    else if DataType(flag) == FLAG_DATA_EXTRA then
      match ParseExtra(b) case None => None case Some((m, r)) => Some((if m.Nil? then NoData else MapData(m), r))
    else
      match ParseString(b) case None => None case Some((s, r)) => Some((Text(s), r))
  }

  function ParseTail(f: bv8, it: Item, b: Bytes): Parsed<(bv8, Item)> {
    match ParseOptS32(IsDataFlag(3, f), b)
    case None => None
    case Some((src, b1)) =>
      match ParseOptS32(IsDataFlag(4, f), b1)
      case None => None
      case Some((to, b2)) =>
        match ParseOptStr(IsDataFlag(5, f), b2)
        case None => None
        case Some((cb, b3)) =>
          match ParseOptMap(IsDataFlag(6, f), b3)
          case None => None
          case Some((cxt, b4)) =>
            match ParseOptData(IsDataFlag(7, f), it.flag, b4)
            case None => None
            case Some((d, b5)) =>
              Some(((f, it.(srcClientId := src, to := to, callback := cb, cxt := cxt, data := d)), b5))
  }

  // An item with the fields read so far and defaults for the rest.
  function Blank(flag: byte, fr: s32): Item {
    Item(flag, fr, 0, 0, None, 0, 0, None, Nil, NoData)
  }

  function ParseMiddle(f: bv8, it: Item, b: Bytes): Parsed<(bv8, Item)> {
    match ParseOptS64(IsDataFlag(0, f), b)
    case None => None
    case Some((id, b1)) =>
      match ParseOptS8(IsDataFlag(1, f), b1)
      case None => None
      case Some((typ, b2)) =>
        match ParseOptStr(IsDataFlag(2, f), b2)
        case None => None
        case Some((topic, b3)) => ParseTail(f, it.(id := id, typ := typ, topic := topic), b3)
  }

  function Parse(b: Bytes): Parsed<(bv8, Item)> {
    if |b| < 2 then None
    else match ParseS32(b[2..])
      case None => None
      case Some((fr, b1)) => ParseMiddle(b[0] as bv8, Blank(b[1], fr), b1)
  }

  /** The round trip **/

  function MirrorData(d: Data): Data {
    if d.MapData? then MapData(Mirror(d.m)) else d
  }

  // What the receiver gets: the maps reversed, everything else as it was.
  function Received(it: Item): Item {
    it.(cxt := Mirror(it.cxt), data := MirrorData(it.data))
  }

  ghost predicate Exact(f: bv8, it: Item) {
    forall i :: 0 <= i < 8 ==> IsDataFlag(i, f) == Present(i, it)
  }

  // The data as the receiver gets it, and what it leaves.
  ghost function DataBack(it: Item, rest: Bytes): Data
    requires SizedItem(it)
  {
    if it.data.BinData? then BinData(OptData(it.flag, it.data) + rest) else MirrorData(it.data)
  }

  function Left(it: Item, rest: Bytes): Bytes {
    if it.data.BinData? then [] else rest
  }

  lemma OptDataRoundTrip(it: Item, rest: Bytes)
    requires SafeItem(it)
    ensures ParseOptData(it.data != NoData, it.flag, OptData(it.flag, it.data) + rest)
            == Some((DataBack(it, rest), Left(it, rest)))
  {
    hide ParseExtra, EncExtra, ParseString, EncString;
    match it.data
    case NoData => assert [] + rest == rest;
    case Text(s) => StringRoundTrip(s, rest);
    case MapData(m) =>
      ExtraRoundTrip(m, KEY_TYPE_STRING, rest);
      MirrorIsNode(m);
    case BinData(_) =>
  }

  lemma MirrorIsNode(m: Extra)
    requires m.Node?
    ensures Mirror(m).Node?
  {
    OntoNode(m.next, Node(m.key, MirrorVal(m.val), Nil));
  }

  lemma OntoNode(m: Extra, acc: Extra)
    requires acc.Node?
    ensures MirrorOnto(m, acc).Node?
    decreases m
  {
  }

  lemma OptMapRoundTrip(m: Extra, rest: Bytes)
    requires SafeMap(m, KEY_TYPE_STRING) && SizedMap(m, KEY_TYPE_STRING) && Count(m) <= 255
    ensures ParseOptMap(m.Node?, OptMap(m) + rest) == Some((Mirror(m), rest))
  {
    hide ParseExtra, EncExtra;
    if m.Node? {
      ExtraRoundTrip(m, KEY_TYPE_STRING, rest);
    } else {
      assert [] + rest == rest;
    }
  }

  lemma OptStrRoundTrip(s: Option<Bytes>, rest: Bytes)
    requires ShortOpt(s)
    ensures ParseOptStr(s.Some?, OptStr(s) + rest) == Some((s, rest))
  {
    hide ParseString, EncString;
    if s.Some? {
      StringRoundTrip(s.value, rest);
    } else {
      assert [] + rest == rest;
    }
  }

  lemma OptNumRoundTrip(x: s64, y: s32, z: s8, rest: Bytes)
    ensures ParseOptS64(x != 0, OptS64(x) + rest) == Some((x, rest))
    ensures ParseOptS32(y != 0, OptS32(y) + rest) == Some((y, rest))
    ensures ParseOptS8(z != 0, OptS8(z) + rest) == Some((z, rest))
  {
    hide EncS64, EncS32, EncS8, ParseS64, ParseS32, ParseS8, EncU64, EncU32, ParseU64, ParseU32;
    ReadBack64(0, x, rest);
    ReadBack32(0, y, rest);
    ReadBack8(z, rest);
    NoMore(rest);
  }

  lemma TailRoundTrip(f: bv8, it: Item, part: Item, rest: Bytes)
    requires SafeItem(it) && Exact(f, it)
    requires part == it.(srcClientId := part.srcClientId, to := part.to, callback := part.callback,
                         cxt := part.cxt, data := part.data)
    ensures ParseTail(f, part, EncTail(it) + rest)
            == Some(((f, Received(it).(data := DataBack(it, rest))), Left(it, rest)))
  {
    hide IsDataFlag, OptS32, OptStr, OptMap, OptData, ParseOptS32, ParseOptStr, ParseOptMap, ParseOptData, Mirror, MirrorData;
    var a, b, c, d, e := OptS32(it.srcClientId), OptS32(it.to), OptStr(it.callback), OptMap(it.cxt), OptData(it.flag, it.data);
    assert EncTail(it) + rest == a + (b + (c + (d + (e + rest)))) by { Regroup5(a, b, c, d, e, rest); }
    OptNumRoundTrip(0, it.srcClientId, 0, b + (c + (d + (e + rest))));
    OptNumRoundTrip(0, it.to, 0, c + (d + (e + rest)));
    OptStrRoundTrip(it.callback, d + (e + rest));
    OptMapRoundTrip(it.cxt, e + rest);
    OptDataRoundTrip(it, rest);
    assert Present(3, it) == (it.srcClientId != 0) && Present(4, it) == (it.to != 0);
    assert Present(5, it) == it.callback.Some? && Present(6, it) == it.cxt.Node? && Present(7, it) == (it.data != NoData);
  }

  lemma Regroup5(a: Bytes, b: Bytes, c: Bytes, d: Bytes, e: Bytes, r: Bytes)
    ensures (a + (b + (c + (d + e)))) + r == a + (b + (c + (d + (e + r))))
  {
    Assoc(d, e, r);
    Assoc(c, d + e, r);
    Assoc(b, c + (d + e), r);
    Assoc(a, b + (c + (d + e)), r);
  }

  lemma MiddleRoundTrip(f: bv8, it: Item, rest: Bytes)
    requires SafeItem(it) && Exact(f, it)
    ensures ParseMiddle(f, Blank(it.flag, it.fr),
                        OptS64(it.id) + (OptS8(it.typ) + (OptStr(it.topic) + (EncTail(it) + rest))))
            == Some(((f, Received(it).(data := DataBack(it, rest))), Left(it, rest)))
  {
    hide IsDataFlag, OptS64, OptS8, OptStr, ParseOptS64, ParseOptS8, ParseOptStr, ParseTail, EncTail;
    var t := EncTail(it) + rest;
    OptNumRoundTrip(it.id, 0, 0, OptS8(it.typ) + (OptStr(it.topic) + t));
    OptNumRoundTrip(0, 0, it.typ, OptStr(it.topic) + t);
    OptStrRoundTrip(it.topic, t);
    TailRoundTrip(f, it, Blank(it.flag, it.fr).(id := it.id, typ := it.typ, topic := it.topic), rest);
    assert Present(0, it) == (it.id != 0) && Present(1, it) == (it.typ != 0) && Present(2, it) == it.topic.Some?;
  }

  // Every field is rebuilt, missing fields come back as zero or null, and what
  // follows the item is untouched; but binary data comes back with its length
  // in front and all that follows behind.
  lemma ItemRoundTrip(f: bv8, it: Item, rest: Bytes)
    requires SafeItem(it) && Exact(f, it)
    ensures Parse(Enc(f, it) + rest) == Some(((f, Received(it).(data := DataBack(it, rest))), Left(it, rest)))
    ensures !it.data.BinData? ==> Parse(Enc(f, it) + rest) == Some(((f, Received(it)), rest))
  {
    hide IsDataFlag, OptS64, OptS8, OptStr, EncTail, EncS32, ParseS32, ParseMiddle;
    var a, b, c, d := EncS32(it.fr), OptS64(it.id), OptS8(it.typ), OptStr(it.topic);
    var h: Bytes := [f as int, it.flag];
    Regroup5(a, b, c, d, EncTail(it), rest);
    Assoc(h, a + (b + (c + (d + EncTail(it)))), rest);
    Cut(h, a + (b + (c + (d + (EncTail(it) + rest)))));
    ReadBack32(0, it.fr, b + (c + (d + (EncTail(it) + rest))));
    MiddleRoundTrip(f, it, rest);
  }

  // An item without optional fields whose id bit was left over cannot be read.
  lemma StaleBitBreaks(f: bv8, flag: byte, fr: s32)
    requires IsDataFlag(0, f)
    ensures Parse(Enc(Marked(f, Blank(flag, fr)), Blank(flag, fr))) == None
  {
    hide EncS32, ParseS32, Marked, IsDataFlag;
    var it := Blank(flag, fr);
    var g := Marked(f, it);
    MarkedBits(f, it);
    assert Enc(g, it) == [g as int, flag] + (EncS32(fr) + []);
    Cut([g as int, flag], EncS32(fr) + []);
    ReadBack32(0, fr, []);
    assert IsDataFlag(0, g);
  }

  /** Serializing **/

  // What a field adds to the item, and how much more room than that its write
  // asks for: one byte for an empty string, because writing no characters to a
  // full ring fails, and one byte less for a map whose last byte is unchecked.
  datatype Piece = Piece(bytes: Bytes, slack: int)

  ghost predicate Sound(p: Piece) {
    if p.bytes == [] then p.slack == 0 else -1 <= p.slack <= 1 <= |p.bytes| + p.slack
  }

  function Then(p: Piece, q: Piece): Piece {
    Piece(p.bytes + q.bytes, if q.bytes == [] then p.slack else q.slack)
  }

  function StrSlack(s: Bytes): int {
    if s == [] then 1 else 0
  }

  ghost function MapSlack(m: Extra): int {
    if LooseMap(m) then -1 else 0
  }

  ghost function StrPiece(s: Option<Bytes>): (p: Piece)
    requires ShortOpt(s)
    ensures Sound(p)
  {
    Piece(OptStr(s), if s.Some? then StrSlack(s.value) else 0)
  }

  ghost function MapPiece(m: Extra): (p: Piece)
    requires SizedMap(m, KEY_TYPE_STRING)
    ensures Sound(p)
  {
    Piece(OptMap(m), MapSlack(m))
  }

  // Of binary data this says the bytes only; see BinOut.
  ghost function DataPiece(flag: byte, d: Data): (p: Piece)
    requires DataFits(flag, d)
    ensures Sound(p)
  {
    match d
    case NoData => Piece([], 0)
    case Text(s) => StrPiece(Some(s))
    case MapData(m) => MapPiece(m)
    case BinData(_) => Piece(OptData(flag, d), 0)
  }

  // p was written where there was room for r bytes.
  ghost predicate Written(before: Bytes, after: Bytes, r: nat, p: Piece, ok: bool) {
    && (ok <==> |p.bytes| + p.slack <= r)
    && (ok ==> after == before + p.bytes[..Min(|p.bytes|, r)])
  }

  lemma WrittenNothing(q: Bytes, r: nat)
    ensures Written(q, q, r, Piece([], 0), true)
  {
  }

  method PutOptS64(x: s64, b: Ring) returns (ok: bool)
    requires b.Valid()
    modifies b`wpos, b`status, b.data
    ensures b.Valid() && Written(old(b.Contents()), b.Contents(), old(b.Room()), Piece(OptS64(x), 0), ok)
  {
    hide Ring.Contents, Ring.ReadableLen, EncS64;
    WrittenNothing(b.Contents(), b.Room());
    if x == 0 { return true; }
    ok := b.PutS64(x);
  }

  method PutOptS32(x: s32, b: Ring) returns (ok: bool)
    requires b.Valid()
    modifies b`wpos, b`status, b.data
    ensures b.Valid() && Written(old(b.Contents()), b.Contents(), old(b.Room()), Piece(OptS32(x), 0), ok)
  {
    hide Ring.Contents, Ring.ReadableLen, EncS32;
    WrittenNothing(b.Contents(), b.Room());
    if x == 0 { return true; }
    ok := b.PutS32(x);
  }

  method PutOptS8(x: s8, b: Ring) returns (ok: bool)
    requires b.Valid()
    modifies b`wpos, b`status, b.data
    ensures b.Valid() && Written(old(b.Contents()), b.Contents(), old(b.Room()), Piece(OptS8(x), 0), ok)
  {
    hide Ring.Contents, Ring.ReadableLen;
    WrittenNothing(b.Contents(), b.Room());
    if x == 0 { return true; }
    ok := b.PutU8(EncS8(x));
  }

  method PutOptStr(s: Option<Bytes>, b: Ring) returns (ok: bool)
    requires b.Valid() && ShortOpt(s)
    modifies b`wpos, b`status, b.data
    ensures b.Valid() && Written(old(b.Contents()), b.Contents(), old(b.Room()), StrPiece(s), ok)
  {
    hide Ring.Contents, Ring.ReadableLen, EncU16, EncU32;
    WrittenNothing(b.Contents(), b.Room());
    if s.None? { return true; }
    ok := b.WriteString(s);
  }

  method PutOptMap(m: Extra, b: Ring) returns (ok: bool)
    requires b.Valid() && SizedMap(m, KEY_TYPE_STRING)
    modifies b`wpos, b`status, b.data
    ensures b.Valid()
    ensures CodableMap(m) ==> Written(old(b.Contents()), b.Contents(), old(b.Room()), MapPiece(m), ok)
    ensures !CodableMap(m) ==> !ok
  {
    hide Ring.Contents, Ring.ReadableLen, EncExtra, LooseMap, CodableMap;
    WrittenNothing(b.Contents(), b.Room());
    if m.Nil? {
      NilIsFirm();
      return true;
    }
    var wl;
    ok, wl := EncodeExtra(m, b, KEY_TYPE_STRING);
  }

  lemma NilIsFirm()
    ensures !LooseMap(Nil) && CodableMap(Nil)
  {
  }

  // What the queued bytes s of a buffer leave where there is room for r: the
  // length is written unchecked, and nothing else is for an empty buffer.
  ghost function BinOut(s: Bytes, r: nat): Option<Bytes>
    requires |s| < 0x1_0000
  {
    if r >= 2 + |s| then Some(EncU16(|s|) + s)
    else if s == [] then Some([])
    else if r == |s| == 1 then Some(s)
    else None
  }

  method PutBin(s: Bytes, b: Ring) returns (ok: bool)
    requires b.Valid() && |s| < 0x1_0000
    modifies b`wpos, b`status, b.data
    ensures b.Valid() && (ok <==> BinOut(s, old(b.Room())).Some?)
    ensures ok ==> b.Contents() == old(b.Contents()) + BinOut(s, old(b.Room())).value
  {
    hide Ring.Contents, Ring.ReadableLen, EncU16;
    ghost var q := b.Contents();
    NoMore(q);
    Assoc(q, EncU16(|s|), s);
    NoMore(EncU16(|s|));
    var _ := b.PutU16(|s|);
    if |s| == 0 { return true; }
    ok := b.PutBytes(s);
  }

  // What the data leaves where there is room for r bytes, None if that fails.
  ghost function DataOut(flag: byte, d: Data, r: nat): Option<Bytes>
    requires DataFits(flag, d)
  {
    if d.BinData? then BinOut(d.s, r)
    else if d.MapData? && !CodableMap(d.m) then None
    else PieceOut(DataPiece(flag, d), r)
  }

  ghost function PieceOut(p: Piece, r: nat): Option<Bytes> {
    if |p.bytes| + p.slack <= r then Some(p.bytes[..Min(|p.bytes|, r)]) else None
  }

  method PutOptData(flag: byte, d: Data, b: Ring) returns (ok: bool)
    requires b.Valid() && DataFits(flag, d)
    modifies b`wpos, b`status, b.data
    ensures b.Valid() && (ok <==> DataOut(flag, d, old(b.Room())).Some?)
    ensures ok ==> b.Contents() == old(b.Contents()) + DataOut(flag, d, old(b.Room())).value
  {
    hide Ring.Contents, Ring.ReadableLen, StrPiece, MapPiece, BinOut, CodableMap;
    NoMore(b.Contents());
    match d
    case NoData => ok := true;
    case Text(s) => ok := PutOptStr(Some(s), b);
    case MapData(m) => ok := PutOptMap(m, b);
    case BinData(s) => ok := PutBin(s, b);
  }

  // A piece behind one that was reported written.
  lemma WrittenThen(before: Bytes, mid: Bytes, after: Bytes, r: nat, p: Piece, q: Piece, ok: bool)
    requires Sound(p) && Sound(q) && Written(before, mid, r, p, true)
    requires Written(mid, after, r - (|mid| - |before|), q, ok)
    ensures Sound(Then(p, q)) && Written(before, after, r, Then(p, q), ok)
  {
    var n := Min(|p.bytes|, r);
    if ok {
      if |p.bytes| <= r {
        var k := Min(|q.bytes|, r - |p.bytes|);
        assert (p.bytes + q.bytes)[..n + k] == p.bytes + q.bytes[..k];
        Assoc(before, p.bytes, q.bytes[..k]);
      } else {
        NoMore(p.bytes);
        NoMore(mid);
      }
    }
  }

  ghost function Field(k: nat, it: Item): (p: Piece)
    requires k < 8 && SizedItem(it)
    ensures Sound(p)
  {
    if k == 0 then Piece(OptS64(it.id), 0)
    else if k == 1 then Piece(OptS8(it.typ), 0)
    else if k == 2 then StrPiece(it.topic)
    else if k == 3 then Piece(OptS32(it.srcClientId), 0)
    else if k == 4 then Piece(OptS32(it.to), 0)
    else if k == 5 then StrPiece(it.callback)
    else if k == 6 then MapPiece(it.cxt)
    else DataPiece(it.flag, it.data)
  }

  // The head and the first k fields.
  ghost function Sofar(f: bv8, it: Item, k: nat): (p: Piece)
    requires k <= 8 && SizedItem(it)
    ensures Sound(p)
  {
    if k == 0 then Piece([f as int, it.flag] + EncS32(it.fr), 0)
    else Then(Sofar(f, it, k - 1), Field(k - 1, it))
  }

  // The slack of the last field that is there.
  ghost function Slack(it: Item): int {
    if it.data.Text? then StrSlack(it.data.s)
    else if it.data.MapData? then MapSlack(it.data.m)
    else if it.cxt.Node? then MapSlack(it.cxt)
    else if it.callback.Some? then StrSlack(it.callback.value)
    else if it.to != 0 || it.srcClientId != 0 || it.topic.None? then 0
    else StrSlack(it.topic.value)
  }

  ghost function BytesFrom(k: nat, it: Item): Bytes
    requires k <= 8 && SizedItem(it)
    decreases 8 - k
  {
    if k == 8 then [] else Field(k, it).bytes + BytesFrom(k + 1, it)
  }

  lemma {:induction false} SofarBytes(f: bv8, it: Item, k: nat)
    requires k <= 8 && SizedItem(it)
    ensures Sofar(f, it, 8).bytes == Sofar(f, it, k).bytes + BytesFrom(k, it)
    decreases 8 - k
  {
    hide Field, SizedItem;
    if k == 8 {
      NoMore(Sofar(f, it, 8).bytes);
    } else {
      Assoc(Sofar(f, it, k).bytes, Field(k, it).bytes, BytesFrom(k + 1, it));
      assert Sofar(f, it, k + 1) == Then(Sofar(f, it, k), Field(k, it));
      SofarBytes(f, it, k + 1);
    }
  }

  lemma DataBytes(flag: byte, d: Data)
    requires DataFits(flag, d)
    ensures DataPiece(flag, d).bytes == OptData(flag, d)
  {
    hide EncString, EncExtra;
  }

  lemma TailBytes(it: Item)
    requires SizedItem(it)
    ensures BytesFrom(3, it) == EncTail(it)
  {
    hide OptS32, OptStr, OptMap, OptData, SizedMap, ShortOpt, DataPiece;
    DataBytes(it.flag, it.data);
    assert BytesFrom(8, it) == [];
    NoMore(OptData(it.flag, it.data));
    assert BytesFrom(7, it) == OptData(it.flag, it.data);
    assert BytesFrom(6, it) == OptMap(it.cxt) + BytesFrom(7, it);
    assert BytesFrom(5, it) == OptStr(it.callback) + BytesFrom(6, it);
    assert BytesFrom(4, it) == OptS32(it.to) + BytesFrom(5, it);
  }

  lemma AllBytes(f: bv8, it: Item)
    requires SizedItem(it)
    ensures Sofar(f, it, 8).bytes == Enc(f, it)
  {
    hide OptS64, OptS8, OptStr, EncS32, EncTail, SizedMap, DataFits;
    SofarBytes(f, it, 0);
    TailBytes(it);
    assert BytesFrom(2, it) == OptStr(it.topic) + BytesFrom(3, it);
    assert BytesFrom(1, it) == OptS8(it.typ) + BytesFrom(2, it);
    Assoc([f as int, it.flag], EncS32(it.fr), BytesFrom(0, it));
  }

  lemma AllSlack(f: bv8, it: Item)
    requires SizedItem(it) && !it.data.BinData?
    ensures Sofar(f, it, 8).slack == Slack(it)
  {
    hide Sound;
    assert Sofar(f, it, 3).slack == if it.topic.Some? then StrSlack(it.topic.value) else 0 by {
      assert Sofar(f, it, 1).slack == 0;
      assert Sofar(f, it, 2).slack == 0;
    }
    assert Sofar(f, it, 4).slack == if it.srcClientId != 0 then 0 else Sofar(f, it, 3).slack;
    assert Sofar(f, it, 5).slack == if it.to != 0 then 0 else Sofar(f, it, 4).slack;
    assert Sofar(f, it, 6).slack == if it.callback.Some? then StrSlack(it.callback.value) else Sofar(f, it, 5).slack;
    assert Sofar(f, it, 7).slack == if it.cxt.Node? then MapSlack(it.cxt) else Sofar(f, it, 6).slack;
  }

  lemma NextField(f: bv8, it: Item, k: nat, mid: Bytes, after: Bytes, ok: bool)
    requires k < 8 && SizedItem(it)
    requires Written([], mid, ITEM_BUF_SIZE, Sofar(f, it, k), true)
    requires |mid| <= ITEM_BUF_SIZE && Written(mid, after, ITEM_BUF_SIZE - |mid|, Field(k, it), ok)
    ensures Written([], after, ITEM_BUF_SIZE, Sofar(f, it, k + 1), ok)
  {
    hide Written, Field, SizedItem, Sound;
    WrittenThen([], mid, after, ITEM_BUF_SIZE, Sofar(f, it, k), Field(k, it), ok);
  }

  // Nothing behind a field that did not fit can make up for it.
  lemma {:induction false} StaysLost(f: bv8, it: Item, k: nat, n: nat, after: Bytes)
    requires k <= n <= 8 && SizedItem(it) && Written([], after, ITEM_BUF_SIZE, Sofar(f, it, k), false)
    ensures Written([], after, ITEM_BUF_SIZE, Sofar(f, it, n), false)
    decreases n - k
  {
    hide Field, SizedItem;
    if k == n {
    } else {
      assert Sofar(f, it, k + 1) == Then(Sofar(f, it, k), Field(k, it));
      StaysLost(f, it, k + 1, n, after);
    }
  }

  // The item without its data.
  function Head(it: Item): Item {
    it.(data := NoData)
  }

  lemma HeadSofar(f: bv8, it: Item)
    requires SizedItem(it)
    ensures Sofar(f, it, 7) == Piece(Enc(f, Head(it)), Slack(Head(it)))
  {
    hide Enc, Slack, Sound, StrPiece, MapPiece;
    var h := Head(it);
    AllBytes(f, h);
    AllSlack(f, h);
    SameSofar(f, it, 7);
    NoMore(Sofar(f, h, 7).bytes);
  }

  lemma {:induction false} SameSofar(f: bv8, it: Item, k: nat)
    requires k <= 7 && SizedItem(it)
    ensures Sofar(f, it, k) == Sofar(f, Head(it), k)
  {
    hide StrPiece, MapPiece, SizedMap;
    if k == 0 {
    } else {
      SameSofar(f, it, k - 1);
    }
  }

  function Drained(d: Data): Data {
    if d.BinData? then BinData([]) else d
  }

  // What serializing leaves in the buffer, None if there is none.
  ghost function Serialized(f: bv8, it: Item): Option<Bytes>
    requires SizedItem(it)
  {
    var h := Enc(f, Head(it));
    if !CodableMap(it.cxt) || |h| + Slack(Head(it)) > ITEM_BUF_SIZE then None
    else
      var w := h[..Min(|h|, ITEM_BUF_SIZE)];
      match DataOut(it.flag, it.data, ITEM_BUF_SIZE - |w|)
      case None => None
      case Some(d) => Some(w + d)
  }

  // The fields before the data did not go, or went as c.
  lemma SerializedBehind(f: bv8, it: Item, c: Bytes, ok: bool)
    requires SizedItem(it)
    requires if CodableMap(it.cxt) then Written([], c, ITEM_BUF_SIZE, Sofar(f, it, 7), ok) else !ok
    ensures !ok ==> Serialized(f, it) == None
    ensures ok ==> |c| <= ITEM_BUF_SIZE
                   && var o := DataOut(it.flag, it.data, ITEM_BUF_SIZE - |c|);
                   Serialized(f, it) == if o.None? then None else Some(c + o.value)
  {
    hide Enc, Slack, Sofar, SizedMap, CodableMap, DataOut;
    HeadSofar(f, it);
    var h := Enc(f, Head(it));
    NoMore(h[..Min(|h|, ITEM_BUF_SIZE)]);
  }

  ghost predicate Codes(it: Item) {
    CodableMap(it.cxt) && (it.data.MapData? ==> CodableMap(it.data.m))
  }

  // Without binary data: a buffer exactly when the maps can be coded and the
  // item fits, and in it the item, short of an unchecked last byte.
  lemma SerializedIff(f: bv8, it: Item)
    requires SizedItem(it) && !it.data.BinData?
    ensures var e := Enc(f, it);
            Serialized(f, it) == if Codes(it) && |e| + Slack(it) <= ITEM_BUF_SIZE
                                 then Some(e[..Min(|e|, ITEM_BUF_SIZE)]) else None
  {
    hide Enc, Slack, Sofar, SizedMap, CodableMap, DataPiece;
    if Codes(it) {
      HeadSofar(f, it);
      AllBytes(f, it);
      AllSlack(f, it);
      var p, d := Sofar(f, it, 7), DataPiece(it.flag, it.data);
      assert Sofar(f, it, 8) == Then(p, d) by { LastField(f, it); }
      if |p.bytes| + p.slack <= ITEM_BUF_SIZE {
        var w := p.bytes[..Min(|p.bytes|, ITEM_BUF_SIZE)];
        var o := PieceOut(d, ITEM_BUF_SIZE - |w|);
        NoMore(w);
        NoMore(Enc(f, it)[..Min(|Enc(f, it)|, ITEM_BUF_SIZE)]);
        WrittenThen([], w, if o.Some? then w + o.value else w, ITEM_BUF_SIZE, p, d, o.Some?);
      } else {
        LostAnyway(p, d);
      }
    }
  }

  lemma LostAnyway(p: Piece, q: Piece)
    requires Sound(p) && Sound(q) && |p.bytes| + p.slack > ITEM_BUF_SIZE
    ensures |Then(p, q).bytes| + Then(p, q).slack > ITEM_BUF_SIZE
  {
  }

  lemma LastField(f: bv8, it: Item)
    requires SizedItem(it)
    ensures Sofar(f, it, 8) == Then(Sofar(f, it, 7), DataPiece(it.flag, it.data))
  {
    hide SizedItem, DataPiece;
  }

  class PsItem {
    var dataFlag: bv8
    var flag: byte
    var fr: s32
    var id: s64
    var typ: s8
    var topic: Option<Bytes>
    var srcClientId: s32
    var to: s32
    var callback: Option<Bytes>
    var cxt: Extra
    var data: Data

    function View(): Item
      reads this
    {
      Item(flag, fr, id, typ, topic, srcClientId, to, callback, cxt, data)
    }

    // Takes the value of a parsed item.
    constructor (f: bv8, it: Item)
      ensures dataFlag == f && View() == it
    {
      dataFlag, flag, fr, id, typ := f, it.flag, it.fr, it.id, it.typ;
      topic, srcClientId, to, callback := it.topic, it.srcClientId, it.to, it.callback;
      cxt, data := it.cxt, it.data;
    }

    method MarkFields()
      modifies this`dataFlag
      ensures dataFlag == Marked(old(dataFlag), View())
    {
      hide SetIf, IsDataFlag;
      dataFlag := SetIf(id != 0, 0, dataFlag);
      dataFlag := SetIf(typ != 0, 1, dataFlag);
      dataFlag := SetIf(topic.Some?, 2, dataFlag);
      dataFlag := SetIf(srcClientId != 0, 3, dataFlag);
      dataFlag := SetIf(to != 0, 4, dataFlag);
      dataFlag := SetIf(callback.Some?, 5, dataFlag);
      dataFlag := SetIf(cxt.Node?, 6, dataFlag);
      dataFlag := SetIf(data != NoData, 7, dataFlag);
    }

    // No result is looked at; the buffer is large enough.
    method PutHead(b: Ring)
      requires b.Valid() && b.Contents() == [] && b.capacity == ITEM_BUF_SIZE && SizedItem(View())
      modifies b`wpos, b`status, b.data
      ensures b.Valid() && Written([], b.Contents(), ITEM_BUF_SIZE, Sofar(dataFlag, View(), 0), true)
    {
      hide Ring.Contents, Ring.ReadableLen, EncS32, SizedItem, Field;
      var _ := b.PutU8(dataFlag as int);
      var _ := b.PutU8(flag);
      var _ := b.PutS32(fr);
    }

    // The field of bit k, behind those of the lower bits.
    method PutField(k: nat, b: Ring) returns (ok: bool)
      requires k < 7 && b.Valid() && b.capacity == ITEM_BUF_SIZE && SizedItem(View())
      requires Written([], b.Contents(), ITEM_BUF_SIZE, Sofar(dataFlag, View(), k), true)
      modifies b`wpos, b`status, b.data
      ensures b.Valid()
      ensures k < 6 || CodableMap(cxt) ==>
                Written([], b.Contents(), ITEM_BUF_SIZE, Sofar(dataFlag, View(), k + 1), ok)
      ensures k == 6 && !CodableMap(cxt) ==> !ok
    {
      hide Ring.Contents, Ring.ReadableLen, Written, OptS64, OptS32, OptS8, StrPiece, MapPiece, DataPiece;
      hide Sofar, SizedMap, CodableMap;
      ghost var q := b.Contents();
      if k == 0 {
        ok := PutOptS64(id, b);
      } else if k == 1 {
        ok := PutOptS8(typ, b);
      } else if k == 2 {
        ok := PutOptStr(topic, b);
      } else if k == 3 {
        ok := PutOptS32(srcClientId, b);
      } else if k == 4 {
        ok := PutOptS32(to, b);
      } else if k == 5 {
        ok := PutOptStr(callback, b);
      } else {
        ok := PutOptMap(cxt, b);
      }
      if k < 6 || CodableMap(cxt) {
        NextField(dataFlag, View(), k, q, b.Contents(), ok);
      }
    }

    // One field after the other, until one does not fit; the data comes apart.
    method PutFields(b: Ring) returns (ok: bool)
      requires b.Valid() && b.Contents() == [] && b.capacity == ITEM_BUF_SIZE && SizedItem(View())
      modifies b`wpos, b`status, b.data
      ensures b.Valid()
      ensures CodableMap(cxt) ==> Written([], b.Contents(), ITEM_BUF_SIZE, Sofar(dataFlag, View(), 7), ok)
      ensures !CodableMap(cxt) ==> !ok
    {
      hide Ring.Contents, Ring.ReadableLen, Sofar, Sound, Written, SizedItem, CodableMap;
      ghost var f, it := dataFlag, View();
      PutHead(b);
      ok := PutField(0, b);
      if !ok { StaysLost(f, it, 1, 7, b.Contents()); return; }
      ok := PutField(1, b);
      if !ok { StaysLost(f, it, 2, 7, b.Contents()); return; }
      ok := PutField(2, b);
      if !ok { StaysLost(f, it, 3, 7, b.Contents()); return; }
      ok := PutField(3, b);
      if !ok { StaysLost(f, it, 4, 7, b.Contents()); return; }
      ok := PutField(4, b);
      if !ok { StaysLost(f, it, 5, 7, b.Contents()); return; }
      ok := PutField(5, b);
      if !ok { StaysLost(f, it, 6, 7, b.Contents()); return; }
      ok := PutField(6, b);
    }

    // Writing a buffer takes its bytes out of it.
    method PutData(b: Ring) returns (ok: bool)
      requires b.Valid() && SizedItem(View())
      modifies this`data, b`wpos, b`status, b.data
      ensures b.Valid() && (ok <==> DataOut(flag, old(data), old(b.Room())).Some?)
      ensures ok ==> b.Contents() == old(b.Contents()) + DataOut(flag, old(data), old(b.Room())).value
      ensures data == if ok then Drained(old(data)) else old(data)
    {
      hide Ring.Contents, Ring.ReadableLen, DataOut, SizedMap;
      ok := PutOptData(flag, data, b);
      if ok && data.BinData? {
        data := BinData([]);
      }
    }

    method PutItem(b: Ring) returns (ok: bool)
      requires b.Valid() && b.Contents() == [] && b.capacity == ITEM_BUF_SIZE && SizedItem(View())
      modifies this`data, b`wpos, b`status, b.data
      ensures b.Valid() && (ok <==> Serialized(dataFlag, old(View())).Some?)
      ensures ok ==> b.Contents() == Serialized(dataFlag, old(View())).value
      ensures data == if ok then Drained(old(data)) else old(data)
    {
      hide Ring.Contents, Ring.ReadableLen, Sofar, SizedMap, CodableMap, DataOut, Written, Serialized;
      ghost var it := View();
      ok := PutFields(b);
      SerializedBehind(dataFlag, it, b.Contents(), ok);
      if !ok { return; }
      ok := PutData(b);
    }

    // The bits are recorded in the item itself, and binary data is used up.
    // Without binary data there is a buffer exactly when the maps can be coded
    // and the item fits, give or take the slack of its last field, and it holds
    // the item, short of an unchecked last byte.
    method Serialize() returns (buf: Ring?)
      requires SizedItem(View())
      modifies this`dataFlag, this`data
      ensures dataFlag == Marked(old(dataFlag), old(View()))
      ensures View() == old(View()).(data := if buf != null then Drained(old(data)) else old(data))
      ensures buf != null && old(data).BinData? ==> data == BinData([])
      ensures buf == null || !old(data).BinData? ==> data == old(data)
      ensures buf != null ==> fresh(buf) && fresh(buf.data) && buf.Valid()
      ensures buf != null <==> Serialized(dataFlag, old(View())).Some?
      ensures buf != null ==> buf.Contents() == Serialized(dataFlag, old(View())).value
      ensures !data.BinData? ==>
                (buf != null <==> Codes(View()) && |Enc(dataFlag, View())| + Slack(View()) <= ITEM_BUF_SIZE)
      ensures !data.BinData? && buf != null ==>
                var e := Enc(dataFlag, View());
                buf.Contents() == e[..Min(|e|, ITEM_BUF_SIZE)]
    {
      hide Ring.Contents, Ring.ReadableLen, Enc, Slack, Marked, SizedMap, Codes, Serialized;
      var b := new Ring(ITEM_BUF_SIZE);
      MarkFields();
      if !data.BinData? {
        SerializedIff(dataFlag, View());
      }
      var ok := PutItem(b);
      if !ok { return null; }
      buf := b;
    }
  }

  /** Parsing from a ring **/

  method GetOptS64(on: bool, b: Ring) returns (x: s64)
    requires b.Valid() && ParseOptS64(on, b.Contents()).Some?
    modifies b`rpos, b`status
    ensures b.Valid() && ParseOptS64(on, old(b.Contents())) == Some((x, b.Contents()))
  {
    hide Ring.Contents, Ring.ReadableLen, ParseS64;
    if !on { return 0; }
    var ok;
    ok, x := b.GetS64();
  }

  method GetOptS32(on: bool, b: Ring) returns (x: s32)
    requires b.Valid() && ParseOptS32(on, b.Contents()).Some?
    modifies b`rpos, b`status
    ensures b.Valid() && ParseOptS32(on, old(b.Contents())) == Some((x, b.Contents()))
  {
    hide Ring.Contents, Ring.ReadableLen, ParseS32;
    if !on { return 0; }
    var ok;
    ok, x := b.GetS32();
  }

  method GetOptS8(on: bool, b: Ring) returns (x: s8)
    requires b.Valid() && ParseOptS8(on, b.Contents()).Some?
    modifies b`rpos, b`status
    ensures b.Valid() && ParseOptS8(on, old(b.Contents())) == Some((x, b.Contents()))
  {
    hide Ring.Contents, Ring.ReadableLen, ParseS8;
    if !on { return 0; }
    var ok;
    ok, x := b.GetS8();
  }

  method GetOptStr(on: bool, b: Ring) returns (s: Option<Bytes>)
    requires b.Valid() && ParseOptStr(on, b.Contents()).Some?
    modifies b`rpos, b`status
    ensures b.Valid() && ParseOptStr(on, old(b.Contents())) == Some((s, b.Contents()))
  {
    b.Accounting();
    hide Ring.Contents, Ring.ReadableLen;
    if !on { return None; }
    hide ParseString;
    assert b.Contents() != [] by { NoEmptyString(); }
    var _, p := b.ReadString();
    s := Some(p);
  }

  lemma NoEmptyString()
    ensures ParseString([]) == None
  {
  }

  method GetOptMap(on: bool, b: Ring) returns (m: Extra)
    requires b.Valid() && ParseOptMap(on, b.Contents()).Some?
    modifies b`rpos, b`status
    ensures b.Valid() && ParseOptMap(on, old(b.Contents())) == Some((m, b.Contents()))
  {
    hide Ring.Contents, Ring.ReadableLen, ParseExtra;
    if !on { return Nil; }
    m := DecodeExtra(b);
  }

  method GetOptData(on: bool, flag: byte, b: Ring) returns (d: Data)
    requires b.Valid() && ParseOptData(on, flag, b.Contents()).Some?
    modifies b`rpos, b`status
    ensures b.Valid() && ParseOptData(on, flag, old(b.Contents())) == Some((d, b.Contents()))
  {
    b.Accounting();
    hide Ring.Contents, Ring.ReadableLen, ParseExtra, ParseString;
    if !on { return NoData; }
    if DataType(flag) == FLAG_DATA_BIN {
      ghost var q := b.Contents();
      var size := b.ReadableLen();
      if size == 0 { return NoData; }
      var _, p := b.GetBytes(size);
      assert q[..size] == q && q[size..] == [];
      d := BinData(p);
    } else if DataType(flag) == FLAG_DATA_EXTRA {
      var m := DecodeExtra(b);
      d := if m.Nil? then NoData else MapData(m);
    } else {
      assert b.Contents() != [] by { NoEmptyString(); }
      var _, p := b.ReadString();
      d := Text(p);
    }
  }

  method GetTail(f: bv8, part: Item, b: Ring) returns (it: Item)
    requires b.Valid() && ParseTail(f, part, b.Contents()).Some?
    modifies b`rpos, b`status
    ensures b.Valid() && ParseTail(f, part, old(b.Contents())) == Some(((f, it), b.Contents()))
  {
    hide Ring.Contents, Ring.ReadableLen, IsDataFlag, ParseOptS32, ParseOptStr, ParseOptMap, ParseOptData;
    var src := GetOptS32(IsDataFlag(3, f), b);
    var to := GetOptS32(IsDataFlag(4, f), b);
    var cb := GetOptStr(IsDataFlag(5, f), b);
    var cxt := GetOptMap(IsDataFlag(6, f), b);
    var d := GetOptData(IsDataFlag(7, f), part.flag, b);
    it := part.(srcClientId := src, to := to, callback := cb, cxt := cxt, data := d);
  }

  method GetHead(b: Ring) returns (df: byte, flag: byte, fr: s32)
    requires b.Valid() && |b.Contents()| >= 2 && ParseS32(b.Contents()[2..]).Some?
    modifies b`rpos, b`status
    ensures b.Valid() && old(b.Contents())[..2] == [df, flag]
    ensures ParseS32(old(b.Contents())[2..]) == Some((fr, b.Contents()))
  {
    hide Ring.Contents, Ring.ReadableLen, Ring.Valid, ParseS32;
    ghost var q := b.Contents();
    var ok;
    ok, df := b.GetU8();
    ok, flag := b.GetU8();
    assert b.Contents() == q[2..];
    ok, fr := b.GetS32();
  }

  // The field-reading part of _psitem_pubsubItemParseBin.
  method ReadFields(b: Ring) returns (ps: PsItem)
    requires b.Valid() && Parse(b.Contents()).Some?
    modifies b`rpos, b`status
    ensures b.Valid() && fresh(ps)
    ensures Parse(old(b.Contents())) == Some(((ps.dataFlag, ps.View()), b.Contents()))
  {
    hide Ring.Contents, Ring.ReadableLen, Ring.Valid, ParseMiddle, ParseS32, Blank, PsItem.View;
    ghost var q := b.Contents();
    var df, flag, fr := GetHead(b);
    assert q[0] == q[..2][0] && q[1] == q[..2][1];
    var it := GetMiddle(df as bv8, Blank(flag, fr), b);
    ps := new PsItem(df as bv8, it);
  }

  method GetMiddle(f: bv8, part: Item, b: Ring) returns (it: Item)
    requires b.Valid() && ParseMiddle(f, part, b.Contents()).Some?
    modifies b`rpos, b`status
    ensures b.Valid() && ParseMiddle(f, part, old(b.Contents())) == Some(((f, it), b.Contents()))
  {
    hide Ring.Contents, Ring.ReadableLen, IsDataFlag, ParseOptS64, ParseOptS8, ParseOptStr, ParseTail;
    var id := GetOptS64(IsDataFlag(0, f), b);
    var typ := GetOptS8(IsDataFlag(1, f), b);
    var topic := GetOptStr(IsDataFlag(2, f), b);
    it := GetTail(f, part.(id := id, typ := typ, topic := topic), b);
  }

  /** UDP entries **/

  const SKEY_UDP_PORT: Key := StrKey([45, 49, 49, 49])
  const SKEY_UDP_HOST: Key := StrKey([45, 49, 49, 48])
  const SKEY_UDP_ACK: Key := StrKey([45, 49, 48, 57])

  // The context map after the entries for the sender's address were put into
  // it.  The last node is not kept when the map is still empty.
  function WithUdp(m: Extra, port: s32, host: Option<Bytes>, ack: bool): Extra {
    var m1 := if port != 0 then ExtraLookup.PutLast(m, SKEY_UDP_PORT, IntVal(port)) else m;
    var m2 := if host.Some? then ExtraLookup.PutLast(m1, SKEY_UDP_HOST, StrVal(host)) else m1;
    if m2.Node? then ExtraLookup.PutLast(m2, SKEY_UDP_ACK, BoolVal(ack)) else m2
  }

  // Other entries stay, and keys stay distinct.
  lemma UdpKeepsOthers(m: Extra, port: s32, host: Option<Bytes>, ack: bool, k: Key)
    requires k !in {SKEY_UDP_PORT, SKEY_UDP_HOST, SKEY_UDP_ACK}
    ensures ExtraLookup.Get(WithUdp(m, port, host, ack), k) == ExtraLookup.Get(m, k)
    ensures ExtraLookup.Distinct(m) ==> ExtraLookup.Distinct(WithUdp(m, port, host, ack))
  {
    hide ExtraLookup.PutLast, ExtraLookup.Get, ExtraLookup.Distinct;
    var m1 := if port != 0 then ExtraLookup.PutLast(m, SKEY_UDP_PORT, IntVal(port)) else m;
    var m2 := if host.Some? then ExtraLookup.PutLast(m1, SKEY_UDP_HOST, StrVal(host)) else m1;
    PutKeeps(m, SKEY_UDP_PORT, IntVal(port), k);
    PutKeeps(m1, SKEY_UDP_HOST, StrVal(host), k);
    PutKeeps(m2, SKEY_UDP_ACK, BoolVal(ack), k);
  }

  lemma PutKeeps(m: Extra, to: Key, v: Val, k: Key)
    ensures k != to ==> ExtraLookup.Get(ExtraLookup.PutLast(m, to, v), k) == ExtraLookup.Get(m, k)
    ensures ExtraLookup.Get(ExtraLookup.PutLast(m, to, v), to) == Some(v)
    ensures ExtraLookup.Distinct(m) ==> ExtraLookup.Distinct(ExtraLookup.PutLast(m, to, v))
  {
    hide ExtraLookup.PutLast, ExtraLookup.Get, ExtraLookup.Distinct;
    ExtraLookup.PutLastLookup(m, to, v, k);
    ExtraLookup.PutLastLookup(m, to, v, to);
    if ExtraLookup.Distinct(m) {
      ExtraLookup.PutLastDistinct(m, to, v);
    }
  }

  // The address entries that are given are found, and the flag entry is found
  // if and only if there was any other entry to follow.
  lemma UdpEntries(m: Extra, port: s32, host: Option<Bytes>, ack: bool)
    ensures var u := WithUdp(m, port, host, ack);
            && (port != 0 ==> ExtraLookup.Get(u, SKEY_UDP_PORT) == Some(IntVal(port)))
            && (host.Some? ==> ExtraLookup.Get(u, SKEY_UDP_HOST) == Some(StrVal(host)))
            && (ExtraLookup.Get(u, SKEY_UDP_ACK) == Some(BoolVal(ack)) <==> m.Node? || port != 0 || host.Some?)
  {
    hide ExtraLookup.Get;
    var m1 := if port != 0 then ExtraLookup.PutLast(m, SKEY_UDP_PORT, IntVal(port)) else m;
    var m2 := if host.Some? then ExtraLookup.PutLast(m1, SKEY_UDP_HOST, StrVal(host)) else m1;
    PutKeeps(m, SKEY_UDP_PORT, IntVal(port), SKEY_UDP_PORT);
    PutKeeps(m1, SKEY_UDP_HOST, StrVal(host), SKEY_UDP_PORT);
    PutKeeps(m2, SKEY_UDP_ACK, BoolVal(ack), SKEY_UDP_PORT);
    PutKeeps(m2, SKEY_UDP_ACK, BoolVal(ack), SKEY_UDP_HOST);
    NothingInNil(SKEY_UDP_ACK);
  }

  lemma NothingInNil(k: Key)
    ensures ExtraLookup.Get(Nil, k) == None
  {
  }

  // _psitem_pubsubItemParseBin: port, host and ack come from the message.
  method ParseBin(b: Ring, port: s32, host: Option<Bytes>, ack: bool) returns (ps: PsItem)
    requires b.Valid() && Parse(b.Contents()).Some?
    modifies b`rpos, b`status
    ensures b.Valid() && fresh(ps)
    ensures var p := Parse(old(b.Contents())).value;
            && ps.dataFlag == p.0.0 && b.Contents() == p.1
            && ps.View() == p.0.1.(cxt := WithUdp(p.0.1.cxt, port, host, ack))
  {
    hide Ring.Contents, Ring.ReadableLen, Parse, ExtraLookup.PutLast;
    ps := ReadFields(b);
    ghost var m := ps.cxt;
    if port != 0 {
      ps.cxt := ExtraLookup.PutLast(ps.cxt, SKEY_UDP_PORT, IntVal(port));
    }
    if host.Some? {
      ps.cxt := ExtraLookup.PutLast(ps.cxt, SKEY_UDP_HOST, StrVal(host));
    }
    if ps.cxt.Node? {
      ps.cxt := ExtraLookup.PutLast(ps.cxt, SKEY_UDP_ACK, BoolVal(ack));
    }
    assert ps.cxt == WithUdp(m, port, host, ack);
  }
}
