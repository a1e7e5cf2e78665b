/**
 The tagged key/value maps of jm_msg.c: their byte form, what the decoder
 makes of it, and the recursive reversal that relates the two.
 */
module ExtraMap {
  import opened Wire
  import opened ByteRing

  const TYPE_NULL: s8 := -128
  const TYPE_MAP: s8 := -122
  const TYPE_BYTE: s8 := -121
  const TYPE_SHORT: s8 := -120
  const TYPE_INT: s8 := -119
  const TYPE_LONG: s8 := -118
  const TYPE_CHAR: s8 := -115
  const TYPE_BOOLEAN: s8 := -114
  const TYPE_STRING: s8 := -113
  const TYPE_BYTEBUFFER: s8 := -111

  const KEY_TYPE_BYTE: byte := 0
  const KEY_TYPE_STRING: byte := 1

  // A map is a chain of nodes.  A node has a byte key or a string key.
  datatype Key = NumKey(k: s8) | StrKey(s: Bytes)

  // None stands for a null pointer in a string or buffer node.
  datatype Val =
    | NullVal
    | ByteVal(x8: s8)
    | ShortVal(x16: s16)
    | IntVal(x32: s32)
    | LongVal(x64: s64)
    | CharVal(c: byte)
    | BoolVal(b: bool)
    | StrVal(str: Option<Bytes>)
    | BufVal(buf: Option<Bytes>)
    | MapVal(map_: Extra)

  datatype Extra = Nil | Node(key: Key, val: Val, next: Extra)

  function Count(m: Extra): nat {
    if m.Nil? then 0 else 1 + Count(m.next)
  }

  /** The byte form **/

  function Tag(v: Val): s8 {
    match v
    case NullVal => TYPE_NULL
    case ByteVal(_) => TYPE_BYTE
    case ShortVal(_) => TYPE_SHORT
    case IntVal(_) => TYPE_INT
    case LongVal(_) => TYPE_LONG
    case CharVal(_) => TYPE_CHAR
    case BoolVal(_) => TYPE_BOOLEAN
    case StrVal(s) => if s.None? then TYPE_NULL else TYPE_STRING
    case BufVal(s) => if s.None? then TYPE_NULL else TYPE_BYTEBUFFER
    case MapVal(_) => TYPE_MAP
  }

  // The length of a string value, cut down to the source's sint8_t.
  function ShortLen(s: Bytes): (n: s8)
    ensures (|s| - n) % 256 == 0
  {
    DecS8(|s| % 256)
  }

  function EncStrVal(s: Bytes): (r: Bytes)
    ensures |r| > 0
  {
    var n := ShortLen(s);
    if n < MAX_BYTE_VALUE then [EncS8(n)] + (if n > 0 then s[..n] else [])
    else [MAX_BYTE_VALUE] + (EncS16(n) + s[..n])
  }

  // The lengths the source can hold in its 16-bit fields.
  ghost predicate Sized(v: Val) {
    match v
    case StrVal(s) => s.Some? ==> |s.value| < 0x1_0000
    case BufVal(s) => s.Some? ==> |s.value| < 0x1_0000
    case MapVal(m) => SizedMap(m, KEY_TYPE_STRING)
    case _ => true
  }

  ghost predicate SizedMap(m: Extra, kt: byte) {
    m.Node? ==> KeyFits(m.key, kt) && Sized(m.val) && SizedMap(m.next, kt)
  }

  ghost predicate KeyFits(k: Key, kt: byte) {
    if kt == KEY_TYPE_STRING then k.StrKey? && |k.s| < 0x1_0000 else k.NumKey?
  }

  ghost function EncPayload(v: Val): Bytes
    requires Sized(v)
    decreases v, 0
  {
    match v
    case NullVal => []
    case ByteVal(x) => [EncS8(x)]
    case ShortVal(x) => EncS16(x)
    case IntVal(x) => EncS32(x)
    case LongVal(x) => EncS64(x)
    case CharVal(c) => [c]
    case BoolVal(b) => [if b then 1 else 0]
    case StrVal(s) => if s.None? then [] else EncStrVal(s.value)
    case BufVal(s) => if s.None? then [] else EncU16(|s.value|) + s.value
    case MapVal(m) => if m.Nil? then [] else EncExtra(m, KEY_TYPE_STRING)
  }

  ghost function EncVal(v: Val): (r: Bytes)
    requires Sized(v)
    ensures |r| > 0
    decreases v, 1
  {
    [EncS8(Tag(v))] + EncPayload(v)
  }

  ghost function EncKey(k: Key, kt: byte): (r: Bytes)
    requires KeyFits(k, kt)
    ensures |r| > 0
  {
    if kt == KEY_TYPE_STRING then EncString(k.s) else [EncS8(k.k)]
  }

  ghost function EncEntries(m: Extra, kt: byte): Bytes
    requires SizedMap(m, kt)
    decreases m, 0
  {
    if m.Nil? then [] else EncKey(m.key, kt) + (EncVal(m.val) + EncEntries(m.next, kt))
  }

  // Count, key type, entries.
  ghost function EncExtra(m: Extra, kt: byte): (r: Bytes)
    requires SizedMap(m, kt)
    ensures |r| >= 2
    decreases m, 1
  {
    [Count(m) % 256, kt] + EncEntries(m, kt)
  }

  // What the encoder can write at all: it gives up on an empty buffer and on
  // an empty map value.
  ghost predicate Codable(v: Val) {
    match v
    case BufVal(s) => s.Some? ==> |s.value| > 0
    case MapVal(m) => m.Node? && CodableMap(m)
    case _ => true
  }

  ghost predicate CodableMap(m: Extra) {
    m.Node? ==> Codable(m.val) && CodableMap(m.next)
  }

  // What survives the wire: string values whose length fits a sint8_t, buffers
  // whose length fits a sint16_t, and maps whose size fits a byte.
  ghost predicate Safe(v: Val) {
    match v
    case StrVal(s) => s.Some? ==> |s.value| <= 127
    case BufVal(s) => s.Some? ==> 0 < |s.value| <= 32767
    case MapVal(m) => m.Node? && Count(m) <= 255 && SafeMap(m, KEY_TYPE_STRING)
    case _ => true
  }

  ghost predicate SafeMap(m: Extra, kt: byte) {
    m.Node? ==> KeyFits(m.key, kt) && Safe(m.val) && SafeMap(m.next, kt)
  }

  lemma SafeIsSized(v: Val)
    requires Safe(v)
    ensures Sized(v) && Codable(v)
    decreases v
  {
    if v.MapVal? {
      SafeMapIsSized(v.map_, KEY_TYPE_STRING);
    }
  }

  lemma SafeMapIsSized(m: Extra, kt: byte)
    requires SafeMap(m, kt)
    ensures SizedMap(m, kt) && CodableMap(m)
    decreases m
  {
    if m.Nil? {
    } else {
      SafeIsSized(m.val);
      SafeMapIsSized(m.next, kt);
    }
  }

  /** Reading it back **/

  function ParseStrVal(b: Bytes): (r: Parsed<Val>)
    ensures r.Some? ==> |r.value.1| < |b|
  {
    match ParseS8(b)
    case None => None
    case Some((n, b1)) =>
      if n == -1 then Some((StrVal(None), b1))
      else if n == 0 then Some((StrVal(Some([])), b1))
      else if n < 0 then None
      else if n != MAX_BYTE_VALUE then StrOf(ParseBytes(b1, n))
      else match ParseS16(b1)
        case None => None
        case Some((n2, b2)) =>
          if n2 < 0 then None
          else if n2 != MAX_SHORT_VALUE then StrOf(ParseBytes(b2, n2))
          else match ParseS32(b2)
            case None => None
            case Some((n4, b4)) => if 0 <= n4 < 0x1_0000 then StrOf(ParseBytes(b4, n4)) else None
  }

  function StrOf(p: Parsed<Bytes>): Parsed<Val> {
    if p.None? then None else Some((StrVal(Some(p.value.0)), p.value.1))
  }

  function ParseBufVal(b: Bytes): (r: Parsed<Val>)
    ensures r.Some? ==> |r.value.1| < |b|
  {
    match ParseS16(b)
    case None => None
    case Some((n, b1)) =>
      if n < 0 then None
      else if n == 0 then Some((BufVal(None), b1))
      else match ParseBytes(b1, n)
        case None => None
        case Some((s, b2)) => Some((BufVal(Some(s)), b2))
  }

  function ParsePayload(t: s8, b: Bytes): (r: Parsed<Val>)
    ensures r.Some? ==> |r.value.1| <= |b|
    decreases |b|, 2
  {
    if t == TYPE_NULL then Some((NullVal, b))
    else if t == TYPE_BYTEBUFFER then ParseBufVal(b)
    else if t == TYPE_INT then
      match ParseS32(b) case None => None case Some((x, b1)) => Some((IntVal(x), b1))
    else if t == TYPE_BYTE then
      match ParseS8(b) case None => None case Some((x, b1)) => Some((ByteVal(x), b1))
    else if t == TYPE_SHORT then
      match ParseS16(b) case None => None case Some((x, b1)) => Some((ShortVal(x), b1))
    else if t == TYPE_LONG then
      match ParseS64(b) case None => None case Some((x, b1)) => Some((LongVal(x), b1))
    else if t == TYPE_BOOLEAN then
      match ParseU8(b) case None => None case Some((x, b1)) => Some((BoolVal(x != 0), b1))
    else if t == TYPE_CHAR then
      match ParseU8(b) case None => None case Some((x, b1)) => Some((CharVal(x), b1))
    else if t == TYPE_STRING then ParseStrVal(b)
    else if t == TYPE_MAP then
      match ParseExtra(b) case None => None case Some((m, b1)) => Some((MapVal(m), b1))
    else None
  }

  function ParseVal(b: Bytes): (r: Parsed<Val>)
    ensures r.Some? ==> |r.value.1| < |b|
    decreases |b|, 3
  {
    match ParseS8(b)
    case None => None
    case Some((t, b1)) => ParsePayload(t, b1)
  }

  function ParseKey(b: Bytes, kt: byte): (r: Parsed<Key>)
    ensures r.Some? ==> |r.value.1| < |b|
  {
    if kt == KEY_TYPE_STRING then
      match ParseString(b)
      case None => None
      case Some((s, b1)) => if |s| < 0x1_0000 then Some((StrKey(s), b1)) else None
    else
      match ParseS8(b) case None => None case Some((k, b1)) => Some((NumKey(k), b1))
  }

  // n entries, each put in front of the ones already read.
  function ParseEntries(b: Bytes, n: nat, kt: byte, acc: Extra): (r: Parsed<Extra>)
    ensures r.Some? ==> |r.value.1| <= |b|
    decreases |b|, 0
  {
    if n == 0 then Some((acc, b))
    else match ParseKey(b, kt)
      case None => None
      case Some((k, b1)) =>
        match ParseVal(b1)
        case None => None
        case Some((v, b2)) => ParseEntries(b2, n - 1, kt, Node(k, v, acc))
  }

  function ParseExtra(b: Bytes): (r: Parsed<Extra>)
    ensures r.Some? ==> |r.value.1| <= |b|
    decreases |b|, 1
  {
    if b == [] then Some((Nil, b))
    else if b[0] == 0 then Some((Nil, b[1..]))
    else match ParseU8(b[1..])
      case None => None
      case Some((kt, b2)) => ParseEntries(b2, b[0], kt, Nil)
  }

  /** The law that relates them **/

  // Every level of a map in reverse order; a null string or buffer pointer
  // comes back as a node of the null type.
  function MirrorVal(v: Val): Val {
    match v
    case StrVal(s) => if s.None? then NullVal else v
    case BufVal(s) => if s.None? then NullVal else v
    case MapVal(m) => MapVal(MirrorOnto(m, Nil))
    case _ => v
  }

  function MirrorOnto(m: Extra, acc: Extra): Extra {
    if m.Nil? then acc else MirrorOnto(m.next, Node(m.key, MirrorVal(m.val), acc))
  }

  function Mirror(m: Extra): Extra {
    MirrorOnto(m, Nil)
  }

  function NormVal(v: Val): Val {
    match v
    case StrVal(s) => if s.None? then NullVal else v
    case BufVal(s) => if s.None? then NullVal else v
    case MapVal(m) => MapVal(NormOnto(m, Nil))
    case _ => v
  }

  // m in its own order, with null pointers turned into null nodes, before z.
  function NormOnto(m: Extra, z: Extra): Extra {
    if m.Nil? then z else Node(m.key, NormVal(m.val), NormOnto(m.next, z))
  }

  lemma {:induction false} MirrorTwiceVal(v: Val)
    ensures MirrorVal(MirrorVal(v)) == NormVal(v)
    decreases v
  {
    if v.MapVal? {
      MirrorTwiceOnto(v.map_, Nil, Nil);
    }
  }

  lemma {:induction false} MirrorTwiceOnto(m: Extra, acc: Extra, z: Extra)
    ensures MirrorOnto(MirrorOnto(m, acc), z) == MirrorOnto(acc, NormOnto(m, z))
    decreases m
  {
    if m.Nil? {
    } else {
      MirrorTwiceVal(m.val);
      MirrorTwiceOnto(m.next, Node(m.key, MirrorVal(m.val), acc), z);
    }
  }

  // Two trips over the wire restore the order at every level.
  lemma MirrorTwice(m: Extra)
    ensures Mirror(Mirror(m)) == NormOnto(m, Nil)
  {
    MirrorTwiceOnto(m, Nil, Nil);
  }

  lemma ShortTier(n: s8, t: Bytes)
    ensures ParseStrVal([EncS8(n)] + t) ==
            if n == -1 then Some((StrVal(None), t))
            else if n == 0 then Some((StrVal(Some([])), t))
            else if n < 0 then None
            else if n != 127 then StrOf(ParseBytes(t, n))
            else ParseStrVal([127] + t)
  {
    Cut([EncS8(n)], t);
  }

  lemma LongTier(n: s16, t: Bytes)
    requires 0 <= n < MAX_SHORT_VALUE
    ensures ParseStrVal([127] + (EncS16(n) + t)) == StrOf(ParseBytes(t, n))
  {
    hide EncS16, DecS16, EncU16, DecU16, ParseS16, ParseS32, ParseBytes;
    Cut([127], EncS16(n) + t);
    ReadBack16(0, n, t);
  }

  // A string value comes back as it was exactly when it has at most 127
  // bytes; a longer one is cut short, lost or unreadable.  Even its value alone
  // does not come back.
  lemma StrValSurvivesIff(s: Bytes, rest: Bytes)
    requires |s| < 0x1_0000
    ensures ParseStrVal(EncStrVal(s) + rest) == Some((StrVal(Some(s)), rest)) <==> |s| <= 127
    ensures var p := ParseStrVal(EncStrVal(s) + rest); p.Some? && p.value.0 == StrVal(Some(s)) ==> |s| <= 127
  {
    hide DecU16, EncU16, DecS16, EncS16, ParseStrVal;
    var n := ShortLen(s);
    if n < 127 {
      var t := if n > 0 then s[..n] else [];
      Assoc([EncS8(n)], t, rest);
      Cut(t, rest);
      ShortTier(n, t + rest);
      assert EncStrVal(s) + rest == [EncS8(n)] + (t + rest);
      assert n >= 0 ==> |t| == n && (t == s <==> |s| <= 127);
    } else {
      var t := s[..n];
      Regroup([127], EncS16(n), t, rest);
      Assoc([127], EncS16(n) + t, rest);
      Assoc(EncS16(n), t, rest);
      Cut(t, rest);
      LongTier(n, t + rest);
      assert EncStrVal(s) + rest == [127] + (EncS16(n) + (t + rest));
      assert |t| == 127;
      assert t == s <==> |s| == 127;
    }
  }

  // A buffer comes back exactly when it has 1 to 32767 bytes: an empty one is
  // read as null, and the length of a longer one is read as negative.  No memory
  // of a negative size can be had, so reading it fails.
  lemma BufValSurvivesIff(s: Bytes, rest: Bytes)
    requires |s| < 0x1_0000
    ensures ParseBufVal(EncU16(|s|) + s + rest) == Some((BufVal(Some(s)), rest)) <==> 0 < |s| <= 32767
    ensures var p := ParseBufVal(EncU16(|s|) + s + rest);
            p.Some? && p.value.0 == BufVal(Some(s)) ==> 0 < |s| <= 32767
  {
    hide DecU16, DecS16, ParseU16, ParseS16;
    Assoc(EncU16(|s|), s, rest);
    var n := if |s| <= 32767 then |s| else |s| - 0x1_0000;
    Widths();
    assert EncU16(|s|) == EncS16(n);
    hide EncU16, EncS16;
    ReadBack16(0, n, s + rest);
    Cut(s, rest);
  }

  lemma ScalarRoundTrip(v: Val, rest: Bytes)
    requires !v.StrVal? && !v.BufVal? && !v.MapVal? && Sized(v)
    ensures ParsePayload(Tag(v), EncPayload(v) + rest) == Some((v, rest))
  {
    hide EncS8, EncS16, EncS32, EncS64, EncU16, EncU32, EncU64;
    hide ParseS8, ParseU16, ParseS16, ParseU32, ParseS32, ParseU64, ParseS64;
    hide ParseBufVal, ParseStrVal, ParseExtra, EncStrVal, EncExtra;
    match v
    case NullVal => assert EncPayload(v) + rest == rest;
    case ByteVal(x) => ReadBack8(x, rest);
    case ShortVal(x) => ReadBack16(0, x, rest);
    case IntVal(x) => ReadBack32(0, x, rest);
    case LongVal(x) => ReadBack64(0, x, rest);
    case CharVal(c) =>
    case BoolVal(b) =>
  }

  lemma {:induction false} PayloadRoundTrip(v: Val, rest: Bytes)
    requires Safe(v) && Sized(v)
    ensures ParsePayload(Tag(v), EncPayload(v) + rest) == Some((MirrorVal(v), rest))
    decreases v, 0
  {
    hide EncS8, EncU16, EncStrVal, ParseStrVal, ParseBufVal, ParseExtra, EncExtra;
    if v.StrVal? {
      if v.str.None? {
        assert EncPayload(v) + rest == rest;
      } else {
        StrValSurvivesIff(v.str.value, rest);
      }
    } else if v.BufVal? {
      if v.buf.None? {
        assert EncPayload(v) + rest == rest;
      } else {
        BufValSurvivesIff(v.buf.value, rest);
      }
    } else if v.MapVal? {
      ExtraRoundTrip(v.map_, KEY_TYPE_STRING, rest);
    } else {
      ScalarRoundTrip(v, rest);
    }
  }

  lemma {:induction false} EntriesRoundTrip(m: Extra, kt: byte, acc: Extra, rest: Bytes)
    requires SafeMap(m, kt) && SizedMap(m, kt)
    ensures ParseEntries(EncEntries(m, kt) + rest, Count(m), kt, acc) == Some((MirrorOnto(m, acc), rest))
    decreases m, 0
  {
    hide EncPayload, ParsePayload, EncKey, ParseKey, Tag;
    if m.Nil? {
      NoMore(rest);
    } else {
      var t := EncEntries(m.next, kt) + rest;
      Assoc(EncVal(m.val), EncEntries(m.next, kt), rest);
      Assoc(EncKey(m.key, kt), EncVal(m.val) + EncEntries(m.next, kt), rest);
      KeyRoundTrip(m.key, kt, EncVal(m.val) + t);
      Assoc([EncS8(Tag(m.val))], EncPayload(m.val), t);
      ReadBack8(Tag(m.val), EncPayload(m.val) + t);
      PayloadRoundTrip(m.val, t);
      EntriesRoundTrip(m.next, kt, Node(m.key, MirrorVal(m.val), acc), rest);
    }
  }

  lemma KeyRoundTrip(k: Key, kt: byte, rest: Bytes)
    requires KeyFits(k, kt)
    ensures ParseKey(EncKey(k, kt) + rest, kt) == Some((k, rest))
  {
    if kt == KEY_TYPE_STRING {
      StringRoundTrip(k.s, rest);
    } else {
      ReadBack8(k.k, rest);
    }
  }

  // Decoding consumes exactly the bytes written and gives the map back
  // reversed at every level.
  lemma {:induction false} ExtraRoundTrip(m: Extra, kt: byte, rest: Bytes)
    requires SafeMap(m, kt) && SizedMap(m, kt) && m.Node? && Count(m) <= 255
    ensures ParseExtra(EncExtra(m, kt) + rest) == Some((Mirror(m), rest))
    decreases m, 1
  {
    var b := EncExtra(m, kt) + rest;
    assert b == [Count(m), kt] + (EncEntries(m, kt) + rest);
    assert b[1..] == [kt] + (EncEntries(m, kt) + rest);
    assert b[1..][1..] == EncEntries(m, kt) + rest;
    EntriesRoundTrip(m, kt, Nil, rest);
  }

  /** Only such maps come back **/

  // m without its first n nodes.
  function Drop(m: Extra, n: nat): Extra {
    if n == 0 || m.Nil? then m else Drop(m.next, n - 1)
  }

  // The parser puts n nodes in front of what it was given.
  lemma {:induction false} ParsedInFront(b: Bytes, n: nat, kt: byte, acc: Extra)
    requires ParseEntries(b, n, kt, acc).Some?
    ensures var r := ParseEntries(b, n, kt, acc).value.0;
            Count(r) == n + Count(acc) && Drop(r, n) == acc
    decreases n
  {
    hide ParseKey, ParseVal;
    if n == 0 {
    } else {
      var k := ParseKey(b, kt).value;
      var v := ParseVal(k.1).value;
      ParsedInFront(v.1, n - 1, kt, Node(k.0, v.0, acc));
      DropOne(ParseEntries(b, n, kt, acc).value.0, n - 1);
    }
  }

  lemma {:induction false} DropOne(m: Extra, n: nat)
    requires Drop(m, n).Node?
    ensures Drop(m, n + 1) == Drop(m, n).next
  {
    if n == 0 {
      assert Drop(m, 1) == Drop(m.next, 0);
    } else {
      DropOne(m.next, n - 1);
    }
  }

  lemma {:induction false} MirrorInFront(m: Extra, acc: Extra)
    ensures Count(MirrorOnto(m, acc)) == Count(m) + Count(acc) && Drop(MirrorOnto(m, acc), Count(m)) == acc
    decreases m
  {
    if m.Nil? {
    } else {
      MirrorInFront(m.next, Node(m.key, MirrorVal(m.val), acc));
      DropOne(MirrorOnto(m, acc), Count(m.next));
    }
  }

  lemma {:induction false} PayloadOnlySafe(v: Val, rest: Bytes)
    requires Sized(v) && Codable(v)
    requires var p := ParsePayload(Tag(v), EncPayload(v) + rest); p.Some? && p.value.0 == MirrorVal(v)
    ensures Safe(v)
    decreases v, 0
  {
    hide EncU16, EncStrVal, ParseStrVal, ParseBufVal, ParseExtra, EncExtra;
    if v.StrVal? && v.str.Some? {
      StrValSurvivesIff(v.str.value, rest);
    } else if v.BufVal? && v.buf.Some? {
      BufValSurvivesIff(v.buf.value, rest);
    } else if v.MapVal? {
      ExtraOnlySafe(v.map_, KEY_TYPE_STRING, rest);
    }
  }

  lemma {:induction false} EntriesOnlySafe(m: Extra, kt: byte, acc: Extra, rest: Bytes)
    requires SizedMap(m, kt) && CodableMap(m)
    requires var p := ParseEntries(EncEntries(m, kt) + rest, Count(m), kt, acc);
             p.Some? && p.value.0 == MirrorOnto(m, acc)
    ensures SafeMap(m, kt)
    decreases m, 0
  {
    hide EncPayload, ParsePayload, EncKey, ParseKey, Tag;
    if m.Nil? {
    } else {
      var t := EncEntries(m.next, kt) + rest;
      var b := EncVal(m.val) + t;
      Assoc(EncVal(m.val), EncEntries(m.next, kt), rest);
      Assoc(EncKey(m.key, kt), EncVal(m.val) + EncEntries(m.next, kt), rest);
      KeyRoundTrip(m.key, kt, b);
      Assoc([EncS8(Tag(m.val))], EncPayload(m.val), t);
      ReadBack8(Tag(m.val), EncPayload(m.val) + t);
      var v := ParsePayload(Tag(m.val), EncPayload(m.val) + t).value;
      ParsedInFront(v.1, Count(m.next), kt, Node(m.key, v.0, acc));
      MirrorInFront(m.next, Node(m.key, MirrorVal(m.val), acc));
      PayloadOnlySafe(m.val, t);
      PayloadRoundTrip(m.val, t);
      EntriesOnlySafe(m.next, kt, Node(m.key, MirrorVal(m.val), acc), rest);
    }
  }

  lemma {:induction false} ExtraOnlySafe(m: Extra, kt: byte, rest: Bytes)
    requires SizedMap(m, kt) && CodableMap(m) && m.Node?
    requires var p := ParseExtra(EncExtra(m, kt) + rest); p.Some? && p.value.0 == Mirror(m)
    ensures Count(m) <= 255 && SafeMap(m, kt)
    decreases m, 1
  {
    hide EncEntries, ParseEntries;
    var e := EncEntries(m, kt) + rest;
    assert EncExtra(m, kt) + rest == [Count(m) % 256, kt] + e;
    assert ([Count(m) % 256, kt] + e)[1..] == [kt] + e;
    assert ([kt] + e)[1..] == e;
    MirrorInFront(m, Nil);
    ParsedInFront(e, Count(m) % 256, kt, Nil);
    EntriesOnlySafe(m, kt, Nil, rest);
  }

  // A map the encoder writes comes back if and only if its count fits a byte and
  // so do the lengths of its strings and buffers, at every level.
  lemma ExtraSurvivesIff(m: Extra, kt: byte, rest: Bytes)
    requires SizedMap(m, kt) && CodableMap(m) && m.Node?
    ensures ParseExtra(EncExtra(m, kt) + rest) == Some((Mirror(m), rest)) <==> Count(m) <= 255 && SafeMap(m, kt)
  {
    hide ParseExtra, EncExtra, SafeMap, SizedMap, CodableMap, Mirror;
    if Count(m) <= 255 && SafeMap(m, kt) {
      ExtraRoundTrip(m, kt, rest);
    } else if ParseExtra(EncExtra(m, kt) + rest) == Some((Mirror(m), rest)) {
      ExtraOnlySafe(m, kt, rest);
    }
  }

  /** Node by node **/

  function At(m: Extra, i: nat): (n: Extra)
    requires i < Count(m)
    ensures n.Node?
  {
    if i == 0 then m else At(m.next, i - 1)
  }

  lemma {:induction false} MirrorOntoAt(m: Extra, acc: Extra, i: nat)
    requires i < Count(m) + Count(acc)
    ensures var r := MirrorOnto(m, acc); var n := Count(m);
            && Count(r) == n + Count(acc)
            && At(r, i).key == (if i < n then At(m, n - 1 - i).key else At(acc, i - n).key)
            && At(r, i).val == (if i < n then MirrorVal(At(m, n - 1 - i).val) else At(acc, i - n).val)
    decreases m
  {
    if m.Nil? {
    } else {
      MirrorOntoAt(m.next, Node(m.key, MirrorVal(m.val), acc), i);
    }
  }

  // A received map has the nodes of the sent one in reverse, with their keys.
  // Values stay as they are, but null pointers become null values and maps are
  // reversed in turn.
  lemma MirrorAt(m: Extra, i: nat)
    requires i < Count(m)
    ensures Count(Mirror(m)) == Count(m)
    ensures var a, b := At(m, i), At(Mirror(m), Count(m) - 1 - i);
            && b.key == a.key
            && b.val == (if a.val == StrVal(None) || a.val == BufVal(None) then NullVal
                         else if a.val.MapVal? then MapVal(Mirror(a.val.map_)) else a.val)
  {
    MirrorOntoAt(m, Nil, Count(m) - 1 - i);
  }

  // The encoder gives up on an empty buffer and on an empty map value, at any
  // level, and on nothing else.
  lemma CodableIs(v: Val)
    ensures Codable(v) <==> v != BufVal(Some([])) && v != MapVal(Nil) && (v.MapVal? ==> CodableMap(v.map_))
  {
  }

  // A map can be encoded exactly when each of its values can.
  lemma {:induction false} CodableEach(m: Extra, i: nat)
    requires CodableMap(m) && i < Count(m)
    ensures Codable(At(m, i).val)
  {
    if i == 0 {
    } else {
      CodableEach(m.next, i - 1);
    }
  }

  lemma {:induction false} CodableAll(m: Extra)
    requires forall i :: 0 <= i < Count(m) ==> Codable(At(m, i).val)
    ensures CodableMap(m)
  {
    if m.Nil? {
    } else {
      forall i | 0 <= i < Count(m.next)
        ensures Codable(At(m.next, i).val)
      {
        assert At(m.next, i) == At(m, i + 1);
      }
      CodableAll(m.next);
      assert Codable(At(m, 0).val);
    }
  }
}
