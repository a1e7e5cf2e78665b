/**
 Messages of jm_msg.c: msg_encode, msg_decode and what a message is after it
 went over the wire.
 */
module Message {
  import opened Wire
  import opened ByteRing
  import opened ExtraMap
  import opened ExtraLookup
  import opened ExtraCodec

  const EXTRA_KEY_FLAG: s8 := -118
  const MAX_INT_VALUE := 10 * 1024 * 1024
  const EXTRA_BUF_SIZE: nat := 512
  const HEADER_LEN: nat := 13

  /** Bits of a flag word, kept as its 16-bit pattern **/

  // FLAG_LENGTH_INT, 1 << 0
  predicate IsLengthInt(f: u16) {
    f % 2 == 1
  }

  // FLAG_EXTRA, 1 << 4
  predicate HasExtraBit(f: u16) {
    f / 16 % 2 == 1
  }

  lemma Halves(k: nat, t: nat)
    requires t < 2
    ensures (2 * k + t) / 2 == k && (2 * k + t) % 2 == t
  {
  }

  lemma Sixteenths(k: nat, t: nat)
    requires t < 16
    ensures (16 * k + t) / 16 == k && (16 * k + t) % 16 == t
  {
  }

  // The parts of a flag word around its bits 4 and 0.
  lemma Parts(h: nat, s: nat, r: nat, t: nat)
    requires s < 2 && r < 8 && t < 2
    ensures var f := 32 * h + 16 * s + 2 * r + t;
            f % 2 == t && f % 16 == 2 * r + t && f % 16 / 2 == r && f / 16 % 2 == s && f / 32 == h
  {
    Halves(16 * h + 8 * s + r, t);
    Sixteenths(2 * h + s, 2 * r + t);
    Halves(r, t);
    Halves(h, s);
  }

  lemma WholeIsParts(f: nat)
    ensures f == 32 * (f / 32) + 16 * (f / 16 % 2) + 2 * (f % 16 / 2) + f % 2
  {
    assert f / 32 == f / 16 / 2;
    assert f % 16 % 2 == f % 2;
  }

  // msg_set_s16 with the mask of the length form
  function SetLengthType(f: u16, on: bool): (g: u16)
    ensures IsLengthInt(g) == on && HasExtraBit(g) == HasExtraBit(f)
    ensures g % 16 / 2 == f % 16 / 2 && g / 32 == f / 32
  {
    WholeIsParts(f);
    var t := if on then 1 else 0;
    Parts(f / 32, f / 16 % 2, f % 16 / 2, t);
    f - f % 2 + t
  }

  // msg_set_s16 with the mask of the map bit
  function SetExtraFlag(f: u16, on: bool): (g: u16)
    ensures HasExtraBit(g) == on && IsLengthInt(g) == IsLengthInt(f)
    ensures g % 16 == f % 16 && g / 32 == f / 32
  {
    WholeIsParts(f);
    var was, s := f / 16 % 2, if on then 1 else 0;
    Parts(f / 32, s, f % 16 / 2, f % 2);
    f - 16 * was + 16 * s
  }

  // The value of a message: its header fields, extra map and payload bytes.
  datatype MsgVal = MsgVal(flag: u16, typ: byte, msgId: s64, extrFlag: s32, extra: Extra, payload: Bytes)

  // The map msg_encode writes: a non-zero flag word is put into it first.
  function WireExtra(m: MsgVal): Extra {
    if m.extrFlag != 0 then Put(m.extra, NumKey(EXTRA_KEY_FLAG), IntVal(m.extrFlag)) else m.extra
  }

  ghost function ExtBytes(x: Extra): Bytes
    requires SizedMap(x, KEY_TYPE_BYTE)
  {
    if x.Nil? then [] else EncExtra(x, KEY_TYPE_BYTE)
  }

  // The flag word as sent: bit 4 is set when there is a map and otherwise left
  // alone, bit 0 tells the form of the length.
  function SentFlag(flag: u16, hasExtra: bool, len: nat): u16 {
    var f := if hasExtra then SetExtraFlag(flag, true) else flag;
    SetLengthType(f, len > MAX_SHORT_VALUE)
  }

  function LenField(len: nat): (r: Bytes)
    requires len < MAX_INT_VALUE
    ensures |r| == if len <= MAX_SHORT_VALUE then 2 else 4
  {
    if len <= MAX_SHORT_VALUE then EncS16(len) else EncS32(len)
  }

  // Everything before the payload, when the map's bytes are ext and the length
  // field says len.
  function Header(m: MsgVal, ext: Bytes, len: nat): (r: Bytes)
    requires len < MAX_INT_VALUE
    ensures |r| == |LenField(len)| + 11 + |ext|
  {
    EncU16(SentFlag(m.flag, ext != [], len)) + (LenField(len) + ([m.typ] + (EncS64(m.msgId) + ext)))
  }

  // The bytes of a message on the wire.
  ghost function Frame(m: MsgVal): Bytes
    requires SizedMap(WireExtra(m), KEY_TYPE_BYTE)
    requires |ExtBytes(WireExtra(m))| + |m.payload| < MAX_INT_VALUE
  {
    var ext := ExtBytes(WireExtra(m));
    Header(m, ext, |ext| + |m.payload|) + m.payload
  }

  /** Reading a message **/

  function ParseLen(f: u16, b: Bytes): Parsed<s32> {
    if IsLengthInt(f) then ParseS32(b)
    else match ParseS16(b) case None => None case Some((n, r)) => Some((n, r))
  }

  // The flag word carried in a map; None when the entry is not an int.
  function FlagIn(x: Extra): Option<s32> {
    match Get(x, NumKey(EXTRA_KEY_FLAG))
    case None => Some(0)
    case Some(v) => if v.IntVal? then Some(v.x32) else None
  }

  // The map and the length that is left for the payload.
  function ParseMsgExtra(f: u16, len: int, b: Bytes): (r: Parsed<(Extra, int)>)
    ensures r.Some? ==> |r.value.1| <= |b|
  {
    if !HasExtraBit(f) then Some(((Nil, len), b))
    else match ParseExtra(b)
      case None => None
      case Some((x, r)) => if x.Nil? then None else Some(((x, len - (|b| - |r|)), r))
  }

  function ParsePayload(len: int, b: Bytes): (r: Parsed<Bytes>)
    ensures r.Some? ==> |r.value.1| <= |b|
  {
    if len <= 0 then Some(([], b)) else ParseBytes(b, len)
  }

  // The part of a message behind its length, once type and id are read.
  function ParseTail(f: u16, typ: byte, id: s64, len: int, b: Bytes): (r: Parsed<MsgVal>)
    ensures r.Some? ==> |r.value.1| <= |b|
  {
    match ParseMsgExtra(f, len, b)
    case None => None
    case Some(((x, n), b5)) =>
      match ParsePayload(n, b5)
      case None => None
      case Some((p, b6)) =>
        if FlagIn(x).None? then None
        else Some((MsgVal(f, typ, id, FlagIn(x).value, x, p), b6))
  }

  function ParseMsg(b: Bytes): (r: Parsed<MsgVal>)
    ensures r.Some? ==> |r.value.1| <= |b| - HEADER_LEN
  {
    match ParseU16(b)
    case None => None
    case Some((f, b1)) =>
      match ParseLen(f, b1)
      case None => None
      case Some((len, b2)) => if |b2| < len then None else ParseBody(f, len, b2)
  }

  function ParseBody(f: u16, len: int, b: Bytes): (r: Parsed<MsgVal>)
    ensures r.Some? ==> |r.value.1| <= |b| - 9
  {
    match ParseU8(b)
    case None => None
    case Some((typ, b3)) =>
      match ParseS64(b3)
      case None => None
      case Some((id, b4)) =>
        ParseTail(f, typ, id, len, b4)
  }

  /** The round trip **/

  // What the receiver ends up with.
  function Received(m: MsgVal, extLen: nat): MsgVal
    requires FlagIn(Mirror(WireExtra(m))).Some?
  {
    var x := WireExtra(m);
    MsgVal(SentFlag(m.flag, x.Node?, extLen + |m.payload|), m.typ, m.msgId,
           FlagIn(Mirror(x)).value, Mirror(x), m.payload)
  }

  // The sizes the format can carry, and a flag entry (if any) that is an int.
  ghost predicate Sendable(m: MsgVal) {
    var x := WireExtra(m);
    && SafeMap(x, KEY_TYPE_BYTE) && SizedMap(x, KEY_TYPE_BYTE) && Count(x) <= 255
    && |ExtBytes(x)| < EXTRA_BUF_SIZE
    && |m.payload| < 0x1_0000
    && FlagIn(Mirror(x)).Some?
  }

  lemma LenRoundTrip(f: u16, len: nat, rest: Bytes)
    requires len < MAX_INT_VALUE && IsLengthInt(f) == (len > MAX_SHORT_VALUE)
    ensures ParseLen(f, LenField(len) + rest) == Some((len, rest))
  {
    hide EncS16, EncS32, DecS16, DecS32, ParseS16, ParseS32;
    if len <= MAX_SHORT_VALUE {
      ReadBack16(0, len, rest);
    } else {
      ReadBack32(0, len, rest);
    }
  }

  lemma BodyRoundTrip(f: u16, typ: byte, id: s64, len: int, t: Bytes)
    ensures ParseBody(f, len, [typ] + (EncS64(id) + t)) == ParseTail(f, typ, id, len, t)
  {
    hide EncS64, ParseS64, DecS64, ParseTail;
    Cut([typ], EncS64(id) + t);
    ReadBack64(0, id, t);
  }

  // Everything up to the map comes back, whatever follows it.
  lemma HeaderRoundTrip(m: MsgVal, ext: Bytes, len: nat, rest: Bytes)
    requires len < MAX_INT_VALUE
    requires len <= |rest| + |ext|
    ensures ParseMsg(Header(m, ext, len) + rest) ==
            ParseTail(SentFlag(m.flag, ext != [], len), m.typ, m.msgId, len, ext + rest)
  {
    hide EncU16, EncS64, ParseU16, LenField, ParseLen, SentFlag, DecU16, ParseTail, ParseBody;
    var f := SentFlag(m.flag, ext != [], len);
    var t3 := EncS64(m.msgId) + (ext + rest);
    var t2 := [m.typ] + t3;
    var t1 := LenField(len) + t2;
    assert Header(m, ext, len) + rest == EncU16(f) + t1 by {
      Assoc(EncS64(m.msgId), ext, rest);
      Assoc([m.typ], EncS64(m.msgId) + ext, rest);
      Assoc(LenField(len), [m.typ] + (EncS64(m.msgId) + ext), rest);
      Assoc(EncU16(f), LenField(len) + ([m.typ] + (EncS64(m.msgId) + ext)), rest);
    }
    ReadBack16(f, 0, t1);
    SentFlagBits(m.flag, ext != [], len);
    LenRoundTrip(f, len, t2);
    BodyRoundTrip(f, m.typ, m.msgId, len, ext + rest);
  }

  lemma SentFlagBits(flag: u16, hasExtra: bool, len: nat)
    ensures IsLengthInt(SentFlag(flag, hasExtra, len)) == (len > MAX_SHORT_VALUE)
    ensures HasExtraBit(SentFlag(flag, hasExtra, len)) == (hasExtra || HasExtraBit(flag))
  {
  }

  // What parsing makes of a frame once its header is read.
  lemma FrameHeaderRead(m: MsgVal, rest: Bytes)
    requires Sendable(m)
    ensures var ext := ExtBytes(WireExtra(m)); var len := |ext| + |m.payload|;
            ParseMsg(Frame(m) + rest) ==
              ParseTail(SentFlag(m.flag, ext != [], len), m.typ, m.msgId, len, ext + (m.payload + rest))
  {
    hide SentFlag, FlagIn, ParseMsg, ParseTail, Header, EncExtra, SafeMap, SizedMap, Put, From, Mirror;
    var ext := ExtBytes(WireExtra(m));
    var len := |ext| + |m.payload|;
    Assoc(Header(m, ext, len), m.payload, rest);
    HeaderRoundTrip(m, ext, len, m.payload + rest);
  }

  lemma FrameWithMap(m: MsgVal, rest: Bytes)
    requires Sendable(m) && WireExtra(m).Node?
    ensures ParseMsg(Frame(m) + rest) == Some((Received(m, |ExtBytes(WireExtra(m))|), rest))
  {
    hide IsLengthInt, HasExtraBit, SentFlag, FlagIn, ParseMsg, Frame, EncExtra, ParseExtra, SafeMap, SizedMap, Mirror;
    hide Put, From, WireExtra;
    var x := WireExtra(m);
    var ext := ExtBytes(x);
    FrameHeaderRead(m, rest);
    SentFlagBits(m.flag, ext != [], |ext| + |m.payload|);
    Cut(m.payload, rest);
    ExtraRoundTrip(x, KEY_TYPE_BYTE, m.payload + rest);
    MirrorNode(x);
  }

  lemma FrameWithoutMap(m: MsgVal, rest: Bytes)
    requires Sendable(m) && WireExtra(m).Nil?
    ensures ParseMsg(Frame(m) + rest) == Some((Received(m, 0), rest)) <==> !HasExtraBit(m.flag)
  {
    hide IsLengthInt, HasExtraBit, SentFlag, FlagIn, ParseMsg, Frame, ParseExtra, Put, From, WireExtra;
    FrameHeaderRead(m, rest);
    SentFlagBits(m.flag, false, |m.payload|);
    Cut(m.payload, rest);
    NoMore(m.payload + rest);
  }

  // A message comes back exactly, and what follows it is untouched, if and
  // only if it is not one that has no map but carries the map bit.
  lemma FrameRoundTrip(m: MsgVal, rest: Bytes)
    requires Sendable(m)
    ensures ParseMsg(Frame(m) + rest) == Some((Received(m, |ExtBytes(WireExtra(m))|), rest))
            <==> WireExtra(m).Node? || !HasExtraBit(m.flag)
  {
    hide HasExtraBit, ParseMsg, Frame, Received, WireExtra;
    if WireExtra(m).Node? {
      FrameWithMap(m, rest);
    } else {
      FrameWithoutMap(m, rest);
    }
  }

  lemma MirrorNode(x: Extra)
    requires x.Node?
    ensures Mirror(x).Node?
  {
    MirrorOntoNode(x.next, Node(x.key, MirrorVal(x.val), Nil));
  }

  lemma MirrorOntoNode(x: Extra, acc: Extra)
    requires acc.Node?
    ensures MirrorOnto(x, acc).Node?
    decreases x
  {
  }

  // The map the receiver holds: the sender's map reversed, with the flag word
  // behind it when there is one.
  function WithFlag(x: Extra, extrFlag: s32): Extra {
    if extrFlag == 0 then x else Join(x, Node(NumKey(EXTRA_KEY_FLAG), IntVal(extrFlag), Nil))
  }

  // For distinct keys and a map that does not hold the flag word itself, every
  // field survives, up to the reversal of the map and the two bits of the flag
  // word that the encoder owns.
  lemma FieldsSurvive(m: MsgVal, extLen: nat)
    requires Distinct(m.extra) && !Has(m.extra, NumKey(EXTRA_KEY_FLAG))
    ensures FlagIn(Mirror(WireExtra(m))) == Some(m.extrFlag)
    ensures var r := Received(m, extLen);
            && r.typ == m.typ && r.msgId == m.msgId && r.extrFlag == m.extrFlag && r.payload == m.payload
            && r.extra == WithFlag(Mirror(m.extra), m.extrFlag)
            && r.flag / 32 == m.flag / 32 && r.flag % 16 / 2 == m.flag % 16 / 2
            && IsLengthInt(r.flag) == (extLen + |m.payload| > MAX_SHORT_VALUE)
            && HasExtraBit(r.flag) == (r.extra.Node? || HasExtraBit(m.flag))
  {
    var k, x := NumKey(EXTRA_KEY_FLAG), WireExtra(m);
    PutKeepsDistinct(m.extra, k, IntVal(m.extrFlag));
    LookupSurvivesTheWire(x, k);
    if m.extrFlag != 0 {
      MirrorOntoJoin(m.extra, Node(k, IntVal(m.extrFlag), Nil));
    }
    if x.Node? {
      MirrorNode(x);
    }
    FlagKeepsRest(m.flag, x.Node?, extLen + |m.payload|);
    SentFlagBits(m.flag, x.Node?, extLen + |m.payload|);
  }

  lemma FlagKeepsRest(flag: u16, hasExtra: bool, len: nat)
    ensures SentFlag(flag, hasExtra, len) / 32 == flag / 32
    ensures SentFlag(flag, hasExtra, len) % 16 / 2 == flag % 16 / 2
  {
    hide SetExtraFlag, SetLengthType, HasExtraBit, IsLengthInt;
  }

  // A map of exactly 512 bytes fills the encoder's buffer, and the modular
  // length then counts it as nothing.  The message is read back only if it
  // has no payload.
  lemma FullExtraBuffer(m: MsgVal, rest: Bytes)
    requires var x := WireExtra(m);
             && SafeMap(x, KEY_TYPE_BYTE) && SizedMap(x, KEY_TYPE_BYTE) && Count(x) <= 255 && x.Node?
             && |ExtBytes(x)| == EXTRA_BUF_SIZE && |m.payload| < 0x1_0000 && FlagIn(Mirror(x)).Some?
    ensures m.payload == [] <==>
            ParseMsg(Header(m, ExtBytes(WireExtra(m)), |m.payload|) + m.payload + rest) == Some((Received(m, 0), rest))
  {
    hide IsLengthInt, HasExtraBit, SentFlag, FlagIn, ParseMsg, Header, EncExtra, ParseExtra;
    var x := WireExtra(m);
    var ext := ExtBytes(x);
    var t := m.payload + rest;
    Assoc(Header(m, ext, |m.payload|), m.payload, rest);
    HeaderRoundTrip(m, ext, |m.payload|, t);
    SentFlagBits(m.flag, true, |m.payload|);
    ExtraRoundTrip(x, KEY_TYPE_BYTE, t);
    MirrorNode(x);
    assert |(ext + t)| - |t| == EXTRA_BUF_SIZE;
    if m.payload == [] {
      assert t == rest;
    }
  }

  /** The operations **/

  // What of the map's encoding ends up in the 512-byte buffer, when the
  // encoder reports success.
  ghost function ExtOut(x: Extra): (r: Bytes)
    requires SizedMap(x, KEY_TYPE_BYTE)
    ensures |r| <= EXTRA_BUF_SIZE && (r == [] <==> x.Nil?)
  {
    var e := ExtBytes(x);
    e[..Min(|e|, EXTRA_BUF_SIZE)]
  }

  ghost predicate Packable(x: Extra)
    requires SizedMap(x, KEY_TYPE_BYTE)
  {
    && CodableMap(x)
    && (|ExtBytes(x)| <= EXTRA_BUF_SIZE || (LooseMap(x) && |ExtBytes(x)| == EXTRA_BUF_SIZE + 1))
  }

  // The length msg_encode believes in.
  ghost function ClaimedLen(x: Extra, payload: Bytes): nat
    requires SizedMap(x, KEY_TYPE_BYTE)
  {
    |payload| + if |ExtOut(x)| < EXTRA_BUF_SIZE then |ExtOut(x)| else 0
  }

  // Length accounting: for a sendable message the modular length is the number
  // of bytes the map takes, so the encoder's output is the message's frame.
  lemma SentIsFrame(m: MsgVal)
    requires Sendable(m)
    ensures SizedMap(WireExtra(m), KEY_TYPE_BYTE) && |ExtBytes(WireExtra(m))| + |m.payload| < MAX_INT_VALUE
    ensures var x := WireExtra(m);
            && Packable(x) && ExtOut(x) == ExtBytes(x)
            && ClaimedLen(x, m.payload) == |ExtBytes(x)| + |m.payload|
            && Frame(m) == Header(m, ExtOut(x), ClaimedLen(x, m.payload)) + m.payload
  {
    hide EncExtra, Header, WireExtra, SafeMap, SizedMap, CodableMap, LooseMap, FlagIn, Mirror;
    SafeMapIsSized(WireExtra(m), KEY_TYPE_BYTE);
  }

  // The map encoded apart, into a ring of its own; none for no map.
  method PackExtra(x: Extra) returns (ok: bool, ext: Ring?, extraLen: nat)
    requires SizedMap(x, KEY_TYPE_BYTE)
    ensures ok <==> Packable(x)
    ensures ok ==> extraLen == ClaimedLen(x, [])
    ensures ok && x.Nil? ==> ext == null
    ensures ok && x.Node? ==>
              ext != null && fresh(ext) && fresh(ext.data) && ext.Valid() && ext.Contents() == ExtOut(x)
  {
    hide Ring.Contents, Ring.ReadableLen, EncExtra, LooseMap;
    if x.Nil? { return true, null, 0; }
    ext := new Ring(EXTRA_BUF_SIZE);
    ok, extraLen := EncodeExtra(x, ext, KEY_TYPE_BYTE);
  }

  // The fixed fields in front of the map.
  ghost function Fixed(flag: u16, len: nat, typ: byte, id: s64): (r: Bytes)
    requires len < MAX_INT_VALUE
    ensures |r| == |LenField(len)| + 11
  {
    EncU16(flag) + (LenField(len) + ([typ] + EncS64(id)))
  }

  lemma FixedThen(flag: u16, len: nat, typ: byte, id: s64, ext: Bytes)
    requires len < MAX_INT_VALUE
    ensures Fixed(flag, len, typ, id) + ext == EncU16(flag) + (LenField(len) + ([typ] + (EncS64(id) + ext)))
  {
    hide EncU16, LenField, EncS64;
    Assoc([typ], EncS64(id), ext);
    Assoc(LenField(len), [typ] + EncS64(id), ext);
    Assoc(EncU16(flag), LenField(len) + ([typ] + EncS64(id)), ext);
  }

  method PutLen(len: nat, buf: Ring) returns (ok: bool)
    requires buf.Valid() && len < MAX_INT_VALUE
    modifies buf`wpos, buf`status, buf.data
    ensures buf.Valid() && (ok <==> old(buf.Room()) >= |LenField(len)|)
    ensures buf.Contents() == if ok then old(buf.Contents()) + LenField(len) else old(buf.Contents())
  {
    hide Ring.Contents, Ring.ReadableLen, EncS16, EncS32;
    if len <= MAX_SHORT_VALUE {
      ok := buf.PutS16(len);
    } else {
      ok := buf.PutS32(len);
    }
  }

  lemma FlagBytes(flag: u16)
    ensures EncS16(if flag >= 0x8000 then flag - 0x1_0000 else flag) == EncU16(flag)
  {
    Widths();
  }

  method PutFixed(flag: u16, len: nat, typ: byte, id: s64, buf: Ring) returns (ok: bool)
    requires buf.Valid() && len < MAX_INT_VALUE
    modifies buf`wpos, buf`status, buf.data
    ensures buf.Valid() && (ok <==> old(buf.Room()) >= |Fixed(flag, len, typ, id)|)
    ensures ok ==> buf.Contents() == old(buf.Contents()) + Fixed(flag, len, typ, id)
    ensures Partial(old(buf.Contents()), buf.Contents(), Fixed(flag, len, typ, id))
  {
    hide Ring.Contents, Ring.ReadableLen, EncU16, EncS16, EncS64, LenField;
    ghost var q, a, b, c, d := buf.Contents(), EncU16(flag), LenField(len), [typ], EncS64(id);
    Assoc(a, b, c + d);
    Assoc(a + b, c, d);
    FlagBytes(flag);
    ok := buf.PutS16(if flag >= 0x8000 then flag - 0x1_0000 else flag);
    if !ok { return; }
    ghost var q1 := buf.Contents();
    ok := PutLen(len, buf);
    ghost var q2 := buf.Contents();
    PartialAfter(q, q1, q2, a, b);
    PartialOfFirst(q, q2, a + b, c);
    PartialOfFirst(q, q2, a + b + c, d);
    if !ok { return; }
    ok := buf.PutS8(if typ >= 128 then (typ as int) - 256 else typ);
    ghost var q3 := buf.Contents();
    PartialAfter(q, q2, q3, a + b, c);
    PartialOfFirst(q, q3, a + b + c, d);
    if !ok { return; }
    ok := buf.PutS64(id);
    PartialAfter(q, q3, buf.Contents(), a + b + c, d);
  }

  ghost function BytesOf(r: Ring?): Bytes
    requires r != null ==> r.Valid()
    reads r, if r != null then {r.data} else {}
  {
    if r == null then [] else r.Contents()
  }

  ghost predicate Apart(r: Ring?, buf: Ring)
    reads r
  {
    r != null ==> r.Valid() && r != buf && r.data != buf.data
  }

  // Fixed fields, map, payload.
  method PutParts(flag: u16, len: nat, typ: byte, id: s64, ext: Ring?, payload: Ring?, buf: Ring) returns (ok: bool)
    requires buf.Valid() && len < MAX_INT_VALUE && Apart(ext, buf) && Apart(payload, buf)
    requires ext != null ==> ext.Contents() != []
    requires ext != null && payload != null ==> ext != payload && ext.data != payload.data
    modifies buf`wpos, buf`status, buf.data
    modifies if payload == null then {} else {payload}
    modifies if ext == null then {} else {ext}
    ensures buf.Valid() && Apart(payload, buf)
    ensures var h := Fixed(flag, len, typ, id) + old(BytesOf(ext));
            var p := old(BytesOf(payload));
            var fits := |p| <= old(buf.Room()) - |h|;
            && (ok <==> |h| <= old(buf.Room()))
            && (ok ==> buf.Contents() == old(buf.Contents()) + h + if fits then p else [])
            && (ok ==> BytesOf(payload) == if fits then [] else p)
            && (!ok ==> Partial(old(buf.Contents()), buf.Contents(), h) && BytesOf(payload) == p)
  {
    hide Ring.Contents, Ring.ReadableLen, LenField, Fixed;
    ghost var q, fixed, out := buf.Contents(), Fixed(flag, len, typ, id), BytesOf(ext);
    ok := PutFixed(flag, len, typ, id, buf);
    PartialOfFirst(q, buf.Contents(), fixed, out);
    if !ok { return; }
    ghost var q1 := buf.Contents();
    if ext != null {
      var put := buf.PutBuf(ext);
      PartialAfter(q, q1, buf.Contents(), fixed, out);
      if !put { return false; }
    } else {
      assert fixed + out == fixed;
    }
    if payload != null {
      var _ := buf.PutBuf(payload);
    }
    ok := true;
  }

  class Msg {
    var flag: u16
    var typ: byte
    var msgId: s64
    var extrFlag: s32
    var extraMap: Extra
    var payload: Ring?

    constructor ()
      ensures payload == null && extrFlag == 0 && extraMap == Nil
    {
      flag, typ, msgId, extrFlag, extraMap, payload := 0, 0, 0, 0, Nil, null;
    }

    ghost predicate Valid()
      reads this, payload, if payload != null then {payload.data} else {}
    {
      payload != null ==> payload.Valid()
    }

    ghost function Payload(): Bytes
      requires Valid()
      reads this, payload, if payload != null then {payload.data} else {}
    {
      if payload == null then [] else payload.Contents()
    }

    ghost function View(): MsgVal
      requires Valid()
      reads this, payload, if payload != null then {payload.data} else {}
    {
      MsgVal(flag, typ, msgId, extrFlag, extraMap, Payload())
    }

    // Puts the flag word into the map, encodes the map apart, sets the two
    // bits and works out the length.
    method Prepare() returns (ok: bool, ext: Ring?, len: nat)
      requires Valid() && SizedMap(WireExtra(View()), KEY_TYPE_BYTE)
      modifies this`flag, this`extraMap
      ensures Valid() && extraMap == WireExtra(old(View()))
      ensures ok <==> Packable(extraMap)
      ensures ok ==> len == ClaimedLen(extraMap, old(Payload())) < MAX_INT_VALUE
      ensures ok ==> flag == SentFlag(old(flag), ExtOut(extraMap) != [], len)
      ensures ok && extraMap.Nil? ==> ext == null
      ensures ok && extraMap.Node? ==>
                ext != null && fresh(ext) && fresh(ext.data) && ext.Valid() && ext.Contents() == ExtOut(extraMap)
    {
      hide Ring.Contents, Ring.ReadableLen, EncExtra, LooseMap, Get, Put, From, SetExtraFlag, SetLengthType, Packable;
      len := 0;
      if payload != null {
        payload.Accounting();
        len := payload.ReadableLen();
      }
      if extrFlag != 0 {
        extraMap := Put(extraMap, NumKey(EXTRA_KEY_FLAG), IntVal(extrFlag));
      }
      var extraLen;
      ok, ext, extraLen := PackExtra(extraMap);
      if !ok { return; }
      len := len + extraLen;
      if extraMap.Node? {
        flag := SetExtraFlag(flag, true);
      }
      flag := SetLengthType(flag, len > MAX_SHORT_VALUE);
      ok := true;
    }

    // For any room: what is written, what is reported, and what becomes of the
    // message.  A payload that does not fit is dropped without a word.
    method Encode(buf: Ring) returns (ok: bool)
      requires Valid() && buf.Valid() && Apart(payload, buf)
      requires SizedMap(WireExtra(View()), KEY_TYPE_BYTE)
      modifies this`flag, this`extraMap, buf`wpos, buf`status, buf.data
      modifies if payload == null then {} else {payload}
      ensures Valid() && buf.Valid()
      ensures extraMap == WireExtra(old(View()))
      ensures var v := old(View());
              var n := ClaimedLen(extraMap, v.payload);
              var h := Header(v, ExtOut(extraMap), n);
              var fits := |v.payload| <= old(buf.Room()) - |h|;
              && (ok <==> Packable(extraMap) && |h| <= old(buf.Room()))
              && (ok ==> flag == SentFlag(v.flag, extraMap.Node?, n))
              && (ok ==> buf.Contents() == old(buf.Contents()) + h + if fits then v.payload else [])
              && (ok ==> Payload() == if fits then [] else v.payload)
              && (!ok ==> Partial(old(buf.Contents()), buf.Contents(), h))
    {
      hide Ring.Contents, Ring.ReadableLen, Packable, ExtOut, LenField, EncU16, EncS64, Fixed, WireExtra, ClaimedLen, SentFlag;
      var ext, len;
      ok, ext, len := Prepare();
      if !ok { return; }
      FixedThen(flag, len, typ, msgId, ExtOut(extraMap));
      ok := PutParts(flag, len, typ, msgId, ext, payload, buf);
    }
  }

  method GetLen(f: u16, b: Ring) returns (ok: bool, len: s32)
    requires b.Valid()
    modifies b`rpos, b`status
    ensures b.Valid()
    ensures ParseLen(f, old(b.Contents())) == if ok then Some((len, b.Contents())) else None
  {
    hide Ring.Contents, Ring.ReadableLen, ParseS16, ParseS32;
    if IsLengthInt(f) {
      ok, len := b.GetS32();
    } else {
      var slen;
      ok, slen := b.GetS16();
      len := slen;
    }
  }

  // The map, if the flag word announces one, and what it leaves of the length.
  method GetExtra(f: u16, len: int, b: Ring) returns (x: Extra, rest: int)
    requires b.Valid() && ParseMsgExtra(f, len, b.Contents()).Some?
    modifies b`rpos, b`status
    ensures b.Valid() && ParseMsgExtra(f, len, old(b.Contents())) == Some(((x, rest), b.Contents()))
  {
    hide Ring.Contents, Ring.ReadableLen, ParseExtra;
    if !HasExtraBit(f) { return Nil, len; }
    b.Accounting();
    var curLen := b.ReadableLen();
    x := DecodeExtra(b);
    b.Accounting();
    rest := len - (curLen - b.ReadableLen());
  }

  method GetPayload(len: int, b: Ring) returns (p: Ring?)
    requires b.Valid() && ParsePayload(len, b.Contents()).Some?
    modifies b`rpos, b`status
    ensures b.Valid() && (p != null ==> fresh(p) && fresh(p.data) && p.Valid())
    ensures b.Valid() && ParsePayload(len, old(b.Contents())) == Some((BytesOf(p), b.Contents()))
  {
    hide Ring.Contents, Ring.ReadableLen;
    if len <= 0 { return null; }
    p := new Ring(len);
    ghost var q := b.Contents();
    var _ := b.GetBuf(p, len);
    KeptAll(q[..len], len);
  }

  method DecodeTail(f: u16, len: int, b: Ring, ghost typ: byte, ghost id: s64) returns (x: Extra, e: s32, p: Ring?)
    requires b.Valid() && ParseTail(f, typ, id, len, b.Contents()).Some?
    modifies b`rpos, b`status
    ensures b.Valid() && (p != null ==> fresh(p) && fresh(p.data) && p.Valid())
    ensures ParseTail(f, typ, id, len, old(b.Contents())) ==
            Some((MsgVal(f, typ, id, e, x, BytesOf(p)), b.Contents()))
  {
    hide Ring.Contents, Ring.ReadableLen, ParseMsgExtra, ParsePayload, FlagIn;
    var rest;
    x, rest := GetExtra(f, len, b);
    p := GetPayload(rest, b);
    e := CarriedFlag(x);
  }

  // The fixed fields; what is left to read is the rest of the message.
  method GetHeader(b: Ring) returns (f: u16, len: s32, typ: byte, id: s64)
    requires b.Valid() && ParseMsg(b.Contents()).Some?
    modifies b`rpos, b`status
    ensures b.Valid() && ParseMsg(old(b.Contents())) == ParseTail(f, typ, id, len, b.Contents())
  {
    hide Ring.Contents, Ring.ReadableLen, ParseU16, ParseS64, ParseU8, ParseLen, ParseTail;
    var ok;
    ok, f := b.GetU16();
    ok, len := GetLen(f, b);
    ok, typ := b.GetU8();
    ok, id := b.GetS64();
  }

  // msg_decode, for bytes that hold a message.
  method Decode(b: Ring) returns (m: Msg)
    requires b.Valid() && ParseMsg(b.Contents()).Some?
    modifies b`rpos, b`status
    ensures fresh(m) && (m.payload != null ==> fresh(m.payload) && fresh(m.payload.data))
    ensures b.Valid() && m.Valid()
    ensures ParseMsg(old(b.Contents())) == Some((m.View(), b.Contents()))
  {
    hide Ring.Contents, Ring.ReadableLen, ParseMsg, ParseTail;
    var f, len, typ, id := GetHeader(b);
    var x, e, p := DecodeTail(f, len, b, typ, id);
    m := new Msg();
    m.flag, m.typ, m.msgId := f, typ, id;
    m.extraMap, m.extrFlag, m.payload := x, e, p;
  }

  // The flag entry of the decoded map, when there is one.
  function CarriedFlag(x: Extra): (r: s32)
    requires FlagIn(x).Some?
    ensures FlagIn(x) == Some(r)
  {
    var e := Get(x, NumKey(EXTRA_KEY_FLAG));
    if e.Some? then e.value.x32 else 0
  }

  lemma SentAndReadBack(m: MsgVal)
    requires Sendable(m) && (WireExtra(m).Node? || !HasExtraBit(m.flag))
    ensures SizedMap(WireExtra(m), KEY_TYPE_BYTE) && Packable(WireExtra(m))
    ensures var h := Header(m, ExtOut(WireExtra(m)), ClaimedLen(WireExtra(m), m.payload));
            [] + h + m.payload == Frame(m) && |h| + |m.payload| == |Frame(m)|
    ensures ParseMsg(Frame(m)) == Some((Received(m, |ExtBytes(WireExtra(m))|), []))
  {
    hide *;
    SentIsFrame(m);
    FrameRoundTrip(m, []);
    NoMore(Frame(m));
    NoMore(Header(m, ExtOut(WireExtra(m)), ClaimedLen(WireExtra(m), m.payload)));
  }

  // A message through an empty ring, wherever its positions stand.
  method Trip(src: Msg, buf: Ring) returns (m: Msg)
    requires src.Valid() && buf.Valid() && Apart(src.payload, buf)
    requires Sendable(src.View()) && (WireExtra(src.View()).Node? || !HasExtraBit(src.flag))
    requires buf.Contents() == [] && |Frame(src.View())| <= buf.Room()
    modifies src`flag, src`extraMap, buf`rpos, buf`wpos, buf`status, buf.data
    modifies if src.payload == null then {} else {src.payload}
    ensures buf.Valid() && buf.Contents() == [] && m.Valid() && fresh(m)
    ensures var v := old(src.View()); m.View() == Received(v, |ExtBytes(WireExtra(v))|)
  {
    ghost var v := src.View();
    SentAndReadBack(v);
    hide Ring.Contents, Ring.ReadableLen, Header, Frame, ParseMsg, Received, ExtBytes, WireExtra, Packable, ClaimedLen;
    hide Sendable, SizedMap, ExtOut, HasExtraBit, SentFlag;
    var _ := src.Encode(buf);
    m := Decode(buf);
  }
}
