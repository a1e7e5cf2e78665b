/**
 The typed trees of RPC parameters and results: client_encodeExtra and
 client_decodeExtra of jm_client.c.  Unlike the maps of ExtraMap they keep the
 order of their nodes.
 */
module TreeCodec {
  import opened Wire
  import opened ByteRing
  import ExtraMap
  import opened ExtraCodec

  const TYPE_LIST: s8 := -124
  const TYPE_SET: s8 := -123
  const TYPE_PROXY: s8 := -108

  // A node without its key, and the chain of keyed nodes below a map, proxy,
  // list or set.  An empty chain is the null pointer.
  datatype Tree =
    | NullNode
    | ByteNode(x8: s8)
    | ShortNode(x16: s16)
    | IntNode(x32: s32)
    | LongNode(x64: s64)
    | CharNode(c: byte)
    | BoolNode(b: bool)
    | StrNode(str: Option<Bytes>)
    | BufNode(buf: Option<Bytes>)
    | MapNode(entries: Chain)
    | ProxyNode(entries: Chain)
    | ListNode(items: Chain)
    | SetNode(items: Chain)

  datatype Chain = End | Link(key: Option<Bytes>, val: Tree, next: Chain)

  function Count(c: Chain): nat {
    if c.End? then 0 else 1 + Count(c.next)
  }

  // What stands for a null pointer is written as a node of the null type;
  // a proxy has no such rule.
  predicate IsNullPtr(t: Tree) {
    match t
    case StrNode(s) => s.None?
    case BufNode(s) => s.None?
    case MapNode(c) => c.End?
    case ListNode(c) => c.End?
    case SetNode(c) => c.End?
    case _ => false
  }

  function TypeOf(t: Tree): s8 {
    match t
    case NullNode => ExtraMap.TYPE_NULL
    case ByteNode(_) => ExtraMap.TYPE_BYTE
    case ShortNode(_) => ExtraMap.TYPE_SHORT
    case IntNode(_) => ExtraMap.TYPE_INT
    case LongNode(_) => ExtraMap.TYPE_LONG
    case CharNode(_) => ExtraMap.TYPE_CHAR
    case BoolNode(_) => ExtraMap.TYPE_BOOLEAN
    case StrNode(_) => ExtraMap.TYPE_STRING
    case BufNode(_) => ExtraMap.TYPE_BYTEBUFFER
    case MapNode(_) => ExtraMap.TYPE_MAP
    case ProxyNode(_) => TYPE_PROXY
    case ListNode(_) => TYPE_LIST
    case SetNode(_) => TYPE_SET
  }

  /** The byte form **/

  // Sizes the source's 16-bit fields can hold; map entries have keys.
  ghost predicate Sized(t: Tree) {
    match t
    case StrNode(s) => s.Some? ==> |s.value| < 0x1_0000
    case BufNode(s) => s.Some? ==> |s.value| < 0x1_0000
    case MapNode(c) => Count(c) < 0x1_0000 && SizedChain(c, true)
    case ProxyNode(c) => Count(c) < 0x1_0000 && SizedChain(c, true)
    case ListNode(c) => Count(c) < 0x1_0000 && SizedChain(c, false)
    case SetNode(c) => Count(c) < 0x1_0000 && SizedChain(c, false)
    case _ => true
  }

  ghost predicate SizedChain(c: Chain, keyed: bool) {
    c.Link? ==>
      && (keyed ==> c.key.Some? && |c.key.value| < 0x1_0000)
      && Sized(c.val) && SizedChain(c.next, keyed)
  }

  ghost function Enc(t: Tree): (r: Bytes)
    requires Sized(t)
    ensures |r| > 0
    decreases t, 1
  {
    if IsNullPtr(t) then [EncS8(ExtraMap.TYPE_NULL)] else [EncS8(TypeOf(t))] + EncValue(t)
  }

  ghost function EncValue(t: Tree): Bytes
    requires Sized(t) && !IsNullPtr(t)
    decreases t, 0
  {
    match t
    case NullNode => []
    case ByteNode(x) => [EncS8(x)]
    case ShortNode(x) => EncS16(x)
    case IntNode(x) => EncS32(x)
    case LongNode(x) => EncS64(x)
    case CharNode(c) => [c]
    case BoolNode(b) => [if b then 1 else 0]
    case StrNode(s) => ExtraMap.EncStrVal(s.value)
    case BufNode(s) => EncU16(|s.value|) + s.value
    case MapNode(c) => EncU16(Count(c)) + EncChain(c, true)
    case ProxyNode(c) => EncU16(Count(c)) + EncChain(c, true)
    case ListNode(c) => EncU16(Count(c)) + EncChain(c, false)
    case SetNode(c) => EncU16(Count(c)) + EncChain(c, false)
  }

  ghost function EncChain(c: Chain, keyed: bool): (r: Bytes)
    requires SizedChain(c, keyed)
    ensures c.Link? ==> |r| > 0
    decreases c
  {
    if c.End? then []
    else (if keyed then EncString(c.key.value) else []) + (Enc(c.val) + EncChain(c.next, keyed))
  }

  // The encoder gives up on an empty buffer.
  ghost predicate Codable(t: Tree) {
    match t
    case BufNode(s) => s.Some? ==> s.value != []
    case MapNode(c) => CodableChain(c)
    case ProxyNode(c) => CodableChain(c)
    case ListNode(c) => CodableChain(c)
    case SetNode(c) => CodableChain(c)
    case _ => true
  }

  ghost predicate CodableChain(c: Chain) {
    c.Link? ==> Codable(c.val) && CodableChain(c.next)
  }

  // String values are limited to the 127 bytes a sint8_t length can say.
  ghost predicate ShortStrings(t: Tree) {
    match t
    case StrNode(s) => s.Some? ==> |s.value| <= 127
    case MapNode(c) => ShortStringsIn(c)
    case ProxyNode(c) => ShortStringsIn(c)
    case ListNode(c) => ShortStringsIn(c)
    case SetNode(c) => ShortStringsIn(c)
    case _ => true
  }

  ghost predicate ShortStringsIn(c: Chain) {
    c.Link? ==> ShortStrings(c.val) && ShortStringsIn(c.next)
  }

  ghost predicate Safe(t: Tree) {
    Sized(t) && Codable(t) && ShortStrings(t)
  }

  /** Reading it back **/

  // The length byte is widened without its sign here, so a negative one asks
  // for some 65 thousand bytes.
  function ParseStr(b: Bytes): (r: Parsed<Tree>)
    ensures r.Some? ==> |r.value.1| < |b|
  {
    match ParseS8(b)
    case None => None
    case Some((n, b1)) =>
      if n == 0 then Some((StrNode(Some([])), b1))
      else if n < 0 then StrOf(ParseBytes(b1, n + 0x1_0000))
      else if n != MAX_BYTE_VALUE then StrOf(ParseBytes(b1, n))
      else match ParseS16(b1)
        case None => None
        case Some((n2, b2)) =>
          if n2 < 0 then None
          else if n2 != MAX_SHORT_VALUE then StrOf(ParseBytes(b2, n2))
          else match ParseS32(b2)
            case None => None
            case Some((n4, b4)) => if 0 <= n4 < 0x1_0000 then StrOf(ParseBytes(b4, n4)) else None
  }

  function StrOf(p: Parsed<Bytes>): Parsed<Tree> {
    if p.None? then None else Some((StrNode(Some(p.value.0)), p.value.1))
  }

  function ParseBuf(b: Bytes): (r: Parsed<Tree>)
    ensures r.Some? ==> |r.value.1| < |b|
  {
    match ParseU16(b)
    case None => None
    case Some((n, b1)) =>
      if n == 0 then Some((BufNode(None), b1))
      else match ParseBytes(b1, n)
        case None => None
        case Some((s, b2)) => Some((BufNode(Some(s)), b2))
  }

  // A map, proxy, list or set by its type.
  function Coll(ty: s8, c: Chain): Tree
    requires ty in {ExtraMap.TYPE_MAP, TYPE_PROXY, TYPE_LIST, TYPE_SET}
  {
    if ty == ExtraMap.TYPE_MAP then MapNode(c)
    else if ty == TYPE_PROXY then ProxyNode(c)
    else if ty == TYPE_LIST then ListNode(c)
    else SetNode(c)
  }

  function ParseScalar(ty: s8, b: Bytes): (r: Parsed<Tree>)
    ensures r.Some? ==> |r.value.1| <= |b|
  {
    if ty == ExtraMap.TYPE_NULL then Some((NullNode, b))
    else if ty == ExtraMap.TYPE_BYTEBUFFER then ParseBuf(b)
    else if ty == ExtraMap.TYPE_INT then
      match ParseS32(b) case None => None case Some((x, b1)) => Some((IntNode(x), b1))
    else if ty == ExtraMap.TYPE_BYTE then
      match ParseS8(b) case None => None case Some((x, b1)) => Some((ByteNode(x), b1))
    else if ty == ExtraMap.TYPE_SHORT then
      match ParseS16(b) case None => None case Some((x, b1)) => Some((ShortNode(x), b1))
    else if ty == ExtraMap.TYPE_LONG then
      match ParseS64(b) case None => None case Some((x, b1)) => Some((LongNode(x), b1))
    else if ty == ExtraMap.TYPE_BOOLEAN then
      match ParseU8(b) case None => None case Some((x, b1)) => Some((BoolNode(x != 0), b1))
    else if ty == ExtraMap.TYPE_CHAR then
      match ParseU8(b) case None => None case Some((x, b1)) => Some((CharNode(x), b1))
    else if ty == ExtraMap.TYPE_STRING then ParseStr(b)
    else None
  }

  function ParseValue(ty: s8, b: Bytes): (r: Parsed<Tree>)
    ensures r.Some? ==> |r.value.1| <= |b|
    decreases |b|, 1
  {
    if ty in {ExtraMap.TYPE_MAP, TYPE_PROXY, TYPE_LIST, TYPE_SET} then
      match ParseU16(b)
      case None => None
      case Some((n, b1)) =>
        match ParseChain(b1, n, ty in {ExtraMap.TYPE_MAP, TYPE_PROXY})
        case None => None
        case Some((c, b2)) => Some((Coll(ty, c), b2))
    else ParseScalar(ty, b)
  }

  function Parse(b: Bytes): (r: Parsed<Tree>)
    ensures r.Some? ==> |r.value.1| < |b|
    decreases |b|, 2
  {
    match ParseS8(b)
    case None => None
    case Some((ty, b1)) => ParseValue(ty, b1)
  }

  function ParseKey(b: Bytes, keyed: bool): (r: Parsed<Option<Bytes>>)
    ensures r.Some? ==> |r.value.1| <= |b|
  {
    if !keyed then Some((None, b))
    else match ParseString(b)
      case None => None
      case Some((s, b1)) => if |s| < 0x1_0000 then Some((Some(s), b1)) else None
  }

  function ParseChain(b: Bytes, n: nat, keyed: bool): (r: Parsed<Chain>)
    ensures r.Some? ==> |r.value.1| <= |b|
    decreases |b|, 4, n
  {
    if n == 0 then Some((End, b))
    else match ParseKey(b, keyed)
      case None => None
      case Some((k, b1)) => ParseLink(b1, n, keyed, k)
  }

  function ParseLink(b: Bytes, n: nat, keyed: bool, k: Option<Bytes>): (r: Parsed<Chain>)
    requires n > 0
    ensures r.Some? ==> |r.value.1| <= |b|
    decreases |b|, 3
  {
    match Parse(b)
    case None => None
    case Some((v, b2)) =>
      match ParseChain(b2, n - 1, keyed)
      case None => None
      case Some((c, b3)) => Some((Link(k, v, c), b3))
  }

  /** The law that relates them **/

  // Null pointers become null nodes, elements of lists and sets lose their keys.
  function Normal(t: Tree): Tree {
    if IsNullPtr(t) then NullNode
    else
      match t
      case MapNode(c) => MapNode(NormalChain(c, true))
      case ProxyNode(c) => ProxyNode(NormalChain(c, true))
      case ListNode(c) => ListNode(NormalChain(c, false))
      case SetNode(c) => SetNode(NormalChain(c, false))
      case _ => t
  }

  function NormalChain(c: Chain, keyed: bool): Chain {
    if c.End? then End
    else Link(if keyed then c.key else None, Normal(c.val), NormalChain(c.next, keyed))
  }

  lemma NegativeLen(n: s8, t: Bytes)
    ensures ParseStr([EncS8(n)] + t) ==
            if n == 0 then Some((StrNode(Some([])), t))
            else if n < 0 then StrOf(ParseBytes(t, n + 0x1_0000))
            else if n != 127 then StrOf(ParseBytes(t, n))
            else ParseStr([127] + t)
  {
    Cut([EncS8(n)], t);
  }

  lemma LongTier(n: s16, t: Bytes)
    requires 0 <= n < MAX_SHORT_VALUE
    ensures ParseStr([127] + (EncS16(n) + t)) == StrOf(ParseBytes(t, n))
  {
    hide EncS16, DecS16, EncU16, DecU16, ParseS16, ParseS32, ParseBytes;
    Cut([127], EncS16(n) + t);
    ReadBack16(0, n, t);
  }

  // A string comes back as it was exactly when it has at most 127 bytes.  A
  // negative length byte makes the decoder eat into what follows, or give up;
  // only 65408 bytes or more could be found again there.
  lemma StrSurvivesIff(s: Bytes, rest: Bytes)
    requires |s| < 0x1_0000
    ensures ParseStr(ExtraMap.EncStrVal(s) + rest) == Some((StrNode(Some(s)), rest)) <==> |s| <= 127
    ensures var p := ParseStr(ExtraMap.EncStrVal(s) + rest);
            p.Some? && p.value.0 == StrNode(Some(s)) ==> |s| <= 127 || |s| >= 65408
  {
    hide DecU16, EncU16, DecS16, EncS16, ParseStr;
    var n := ExtraMap.ShortLen(s);
    if n < 127 {
      var t := if n > 0 then s[..n] else [];
      Assoc([EncS8(n)], t, rest);
      Cut(t, rest);
      NegativeLen(n, t + rest);
      assert ExtraMap.EncStrVal(s) + rest == [EncS8(n)] + (t + rest);
      if n < 0 {
        NoMore(rest);
        assert ParseBytes(rest, n + 0x1_0000).Some? ==> |ParseBytes(rest, n + 0x1_0000).value.1| < |rest|;
      } else {
        assert |t| == n && (t == s <==> |s| <= 127);
      }
    } else {
      var t := s[..n];
      Assoc([127], EncS16(n) + t, rest);
      Assoc(EncS16(n), t, rest);
      Cut(t, rest);
      LongTier(n, t + rest);
      assert ExtraMap.EncStrVal(s) + rest == [127] + (EncS16(n) + (t + rest));
      assert |t| == 127;
      assert t == s <==> |s| == 127;
    }
  }

  lemma BufRoundTrip(s: Bytes, rest: Bytes)
    requires 0 < |s| < 0x1_0000
    ensures ParseBuf(EncU16(|s|) + s + rest) == Some((BufNode(Some(s)), rest))
  {
    hide EncU16, ParseU16;
    Assoc(EncU16(|s|), s, rest);
    ReadBack16(|s|, 0, s + rest);
    Cut(s, rest);
  }

  predicate IsColl(t: Tree) {
    t.MapNode? || t.ProxyNode? || t.ListNode? || t.SetNode?
  }

  function Below(t: Tree): Chain
    requires IsColl(t)
  {
    match t
    case MapNode(c) => c
    case ProxyNode(c) => c
    case ListNode(c) => c
    case SetNode(c) => c
  }

  predicate Keyed(t: Tree) {
    t.MapNode? || t.ProxyNode?
  }

  lemma ScalarRoundTrip(t: Tree, rest: Bytes)
    requires Safe(t) && !IsNullPtr(t) && !IsColl(t)
    ensures ParseScalar(TypeOf(t), EncValue(t) + rest) == Some((t, rest))
  {
    hide EncS8, EncS16, EncS32, EncS64, EncU16, EncU32, EncU64;
    hide ParseS8, ParseU16, ParseS16, ParseU32, ParseS32, ParseU64, ParseS64;
    hide ParseBuf, ParseStr, ExtraMap.EncStrVal, EncChain;
    match t
    case NullNode => assert EncValue(t) + rest == rest;
    case ByteNode(x) => ReadBack8(x, rest);
    case ShortNode(x) => ReadBack16(0, x, rest);
    case IntNode(x) => ReadBack32(0, x, rest);
    case LongNode(x) => ReadBack64(0, x, rest);
    case CharNode(c) =>
    case BoolNode(b) =>
    case StrNode(s) => StrSurvivesIff(s.value, rest);
    case BufNode(s) => BufRoundTrip(s.value, rest);
  }

  lemma CollShape(t: Tree)
    requires Safe(t) && !IsNullPtr(t) && IsColl(t)
    ensures var c := Below(t);
            && SizedChain(c, Keyed(t)) && CodableChain(c) && ShortStringsIn(c) && Count(c) < 0x1_0000
            && EncValue(t) == EncU16(Count(c)) + EncChain(c, Keyed(t))
            && TypeOf(t) in {ExtraMap.TYPE_MAP, TYPE_PROXY, TYPE_LIST, TYPE_SET}
            && Keyed(t) == (TypeOf(t) in {ExtraMap.TYPE_MAP, TYPE_PROXY})
            && Normal(t) == Coll(TypeOf(t), NormalChain(c, Keyed(t)))
            && c < t
  {
    hide EncU16;
  }

  lemma {:induction false} ValueRoundTrip(t: Tree, rest: Bytes)
    requires Safe(t) && !IsNullPtr(t)
    ensures ParseValue(TypeOf(t), EncValue(t) + rest) == Some((Normal(t), rest))
    decreases t, 1
  {
    hide EncU16, ParseU16, ParseScalar, ParseChain, EncChain, EncValue, Normal, TypeOf, NormalChain, Coll;
    hide Safe, Below, Keyed, IsColl, IsNullPtr, SizedChain, CodableChain, ShortStringsIn;
    if IsColl(t) {
      var c := Below(t);
      CollShape(t);
      Assoc(EncU16(Count(c)), EncChain(c, Keyed(t)), rest);
      ReadBack16(Count(c), 0, EncChain(c, Keyed(t)) + rest);
      ChainRoundTrip(c, Keyed(t), rest);
    } else {
      ScalarRoundTrip(t, rest);
      ScalarNormal(t);
    }
  }

  lemma ScalarNormal(t: Tree)
    requires !IsColl(t) && !IsNullPtr(t)
    ensures Normal(t) == t && TypeOf(t) !in {ExtraMap.TYPE_MAP, TYPE_PROXY, TYPE_LIST, TYPE_SET}
  {
  }

  // The same tree comes back, in the same order, up to Normal; exactly the
  // bytes written are consumed.
  lemma {:induction false} TreeRoundTrip(t: Tree, rest: Bytes)
    requires Safe(t)
    ensures Parse(Enc(t) + rest) == Some((Normal(t), rest))
    decreases t, 2
  {
    hide EncS8, ParseS8, ParseValue, EncValue;
    if IsNullPtr(t) {
      ReadBack8(ExtraMap.TYPE_NULL, rest);
      NullValue(rest);
    } else {
      Assoc([EncS8(TypeOf(t))], EncValue(t), rest);
      ReadBack8(TypeOf(t), EncValue(t) + rest);
      ValueRoundTrip(t, rest);
    }
  }

  lemma NullValue(rest: Bytes)
    ensures ParseValue(ExtraMap.TYPE_NULL, rest) == Some((NullNode, rest))
  {
  }

  lemma {:induction false} ChainRoundTrip(c: Chain, keyed: bool, rest: Bytes)
    requires SizedChain(c, keyed) && CodableChain(c) && ShortStringsIn(c)
    ensures ParseChain(EncChain(c, keyed) + rest, Count(c), keyed) == Some((NormalChain(c, keyed), rest))
    decreases c, 0
  {
    hide Enc, Parse, EncString, ParseString;
    if c.End? {
      assert EncChain(c, keyed) + rest == rest;
    } else {
      var k := if keyed then EncString(c.key.value) else [];
      var t := EncChain(c.next, keyed) + rest;
      assert EncChain(c, keyed) + rest == k + (Enc(c.val) + t) by {
        Assoc(Enc(c.val), EncChain(c.next, keyed), rest);
        Assoc(k, Enc(c.val) + EncChain(c.next, keyed), rest);
      }
      if keyed {
        StringRoundTrip(c.key.value, Enc(c.val) + t);
      } else {
        assert k + (Enc(c.val) + t) == Enc(c.val) + t;
      }
      TreeRoundTrip(c.val, t);
      ChainRoundTrip(c.next, keyed, rest);
    }
  }

  // What was received is sent and received again unchanged.
  lemma {:induction false} NormalTwice(t: Tree)
    ensures Normal(Normal(t)) == Normal(t)
    decreases t
  {
    if IsColl(t) {
      NormalChainTwice(Below(t), Keyed(t));
    }
  }

  lemma {:induction false} NormalChainTwice(c: Chain, keyed: bool)
    ensures NormalChain(NormalChain(c, keyed), keyed) == NormalChain(c, keyed)
    decreases c
  {
    if c.End? {
    } else {
      NormalTwice(c.val);
      NormalChainTwice(c.next, keyed);
    }
  }

  /** What normalising keeps **/

  function At(c: Chain, i: nat): (l: Chain)
    requires i < Count(c)
    ensures l.Link?
  {
    if i == 0 then c else At(c.next, i - 1)
  }

  lemma {:induction false} NormalChainAt(c: Chain, keyed: bool, i: nat)
    requires i < Count(c)
    ensures var r := NormalChain(c, keyed);
            && Count(r) == Count(c)
            && At(r, i).val == Normal(At(c, i).val)
            && At(r, i).key == if keyed then At(c, i).key else None
    decreases c
  {
    if i == 0 {
      NormalCount(c, keyed);
    } else {
      NormalChainAt(c.next, keyed, i - 1);
    }
  }

  lemma {:induction false} NormalCount(c: Chain, keyed: bool)
    ensures Count(NormalChain(c, keyed)) == Count(c)
    decreases c
  {
    if c.End? {
    } else {
      NormalCount(c.next, keyed);
    }
  }

  // A node keeps its type, unless it stands for a null pointer.  Single values
  // are as they were, and a collection has the same elements in the same order,
  // with their keys in maps and proxies and without in lists and sets.
  lemma NormalKeeps(t: Tree)
    ensures TypeOf(Normal(t)) == if IsNullPtr(t) then ExtraMap.TYPE_NULL else TypeOf(t)
    ensures t in {StrNode(None), BufNode(None), MapNode(End), ListNode(End), SetNode(End)} ==> Normal(t) == NullNode
    ensures t !in {StrNode(None), BufNode(None), MapNode(End), ListNode(End), SetNode(End)} ==>
              && (Normal(t).MapNode? == t.MapNode?) && (Normal(t).ProxyNode? == t.ProxyNode?)
              && (Normal(t).ListNode? == t.ListNode?) && (Normal(t).SetNode? == t.SetNode?)
    ensures !t.MapNode? && !t.ProxyNode? && !t.ListNode? && !t.SetNode? && t !in {StrNode(None), BufNode(None)} ==>
              Normal(t) == t
  {
  }

  lemma EntriesKept(t: Tree, i: nat)
    requires (t.MapNode? || t.ProxyNode?) && i < Count(t.entries)
    ensures var r := Normal(t);
            && (r.MapNode? || r.ProxyNode?) && Count(r.entries) == Count(t.entries)
            && At(r.entries, i).key == At(t.entries, i).key && At(r.entries, i).val == Normal(At(t.entries, i).val)
  {
    NormalChainAt(t.entries, true, i);
  }

  lemma ItemsKept(t: Tree, i: nat)
    requires (t.ListNode? || t.SetNode?) && i < Count(t.items)
    ensures var r := Normal(t);
            && (r.ListNode? || r.SetNode?) && Count(r.items) == Count(t.items)
            && At(r.items, i).key == None && At(r.items, i).val == Normal(At(t.items, i).val)
  {
    NormalChainAt(t.items, false, i);
  }

  /** Encoding **/

  predicate Loose(t: Tree) {
    t.StrNode? && t.str.Some? && ExtraMap.ShortLen(t.str.value) <= 0
  }

  method EncodeScalar(t: Tree, b: Ring) returns (ok: bool)
    requires b.Valid() && Sized(t) && !IsNullPtr(t) && !IsColl(t)
    modifies b`wpos, b`status, b.data
    ensures b.Valid()
    ensures Codable(t) ==> Wrote(old(b.Contents()), b.Contents(), old(b.Room()), EncValue(t), Loose(t), ok)
    ensures !Codable(t) ==> !ok
    ensures old(b.Contents()) <= b.Contents()
  {
    hide Ring.Contents, Ring.ReadableLen, EncS8, EncS16, EncS32, EncS64, EncU16, ExtraMap.EncStrVal, Wrote;
    ghost var q := b.Contents();
    match t {
      case BufNode(s) =>
        ok := EncodeBuf(s.value, b);
        if Codable(t) {
          WroteExtends(q, b.Contents(), old(b.Room()), EncValue(t), false, ok);
        }
        return;
      case StrNode(s) =>
        ok := EncodeStr(s.value, b);
        WroteExtends(q, b.Contents(), old(b.Room()), EncValue(t), Loose(t), ok);
        return;
      case NullNode => ok := true;
      case IntNode(x) => ok := b.PutS32(x);
      case ByteNode(x) => ok := b.PutS8(x);
      case ShortNode(x) => ok := b.PutS16(x);
      case LongNode(x) => ok := b.PutS64(x);
      case BoolNode(x) => ok := b.PutU8(if x then 1 else 0);
      case CharNode(c) => ok := b.PutU8(c);
    }
    assert q + [] == q;
    WroteOne(q, b.Contents(), old(b.Room()), EncValue(t), ok);
  }

  // _c_encodeWriteLen: a count that does not fit is reported as zero.
  method WriteCount(c: Chain, b: Ring) returns (eleCnt: nat)
    requires b.Valid() && Count(c) < 0x1_0000
    modifies b`wpos, b`status, b.data
    ensures b.Valid()
    ensures eleCnt == if old(b.Room()) >= 2 then Count(c) else 0
    ensures b.Contents() == if old(b.Room()) >= 2 then old(b.Contents()) + EncU16(Count(c)) else old(b.Contents())
  {
    hide Ring.Contents, Ring.ReadableLen, EncU16;
    eleCnt := 0;
    var te := c;
    while te.Link?
      invariant eleCnt + Count(te) == Count(c)
      decreases te
    {
      eleCnt := eleCnt + 1;
      te := te.next;
    }
    var ok := b.PutU16(eleCnt);
    if !ok { return 0; }
  }

  // What the encoder appends when it reports success, with room for r bytes;
  // None when it reports failure.
  ghost function Told(t: Tree, r: nat): (o: Option<Bytes>)
    requires Sized(t)
    ensures o.Some? ==> |o.value| <= r
    decreases t, 1
  {
    if IsNullPtr(t) then
      (if r >= 1 then Some([EncS8(ExtraMap.TYPE_NULL)]) else None)
    else if r < 1 then None
    else Behind([EncS8(TypeOf(t))], ToldValue(t, r - 1))
  }

  ghost function ToldValue(t: Tree, r: nat): (o: Option<Bytes>)
    requires Sized(t) && !IsNullPtr(t)
    ensures o.Some? ==> |o.value| <= r
    decreases t, 0
  {
    if IsColl(t) then
      (CollValue(t); ToldColl(Below(t), Keyed(t), r))
    else if Codable(t) && (|EncValue(t)| <= r || (Loose(t) && |EncValue(t)| == r + 1)) then
      Some(EncValue(t)[..Min(|EncValue(t)|, r)])
    else
      None
  }

  // A count that does not fit is taken for an empty collection.
  ghost function ToldColl(c: Chain, keyed: bool, r: nat): (o: Option<Bytes>)
    requires SizedChain(c, keyed) && Count(c) < 0x1_0000
    ensures o.Some? ==> |o.value| <= r
    decreases c, 3
  {
    if r < 2 then Some([]) else Behind(EncU16(Count(c)), ToldChain(c, keyed, r - 2))
  }

  ghost function ToldChain(c: Chain, keyed: bool, r: nat): (o: Option<Bytes>)
    requires SizedChain(c, keyed)
    ensures o.Some? ==> |o.value| <= r
    decreases c, 2
  {
    if c.End? then Some([])
    else if !KeyGoes(c, keyed, r) then None
    else
      (
        var k := KeyBytes(c, keyed);
        var v := Told(c.val, r - |k|);
        if v.None? then None
        else Behind(k + v.value, ToldChain(c.next, keyed, r - |k| - |v.value|))
      )
  }

  ghost function KeyBytes(c: Chain, keyed: bool): Bytes
    requires SizedChain(c, keyed) && c.Link?
  {
    if keyed then EncString(c.key.value) else []
  }

  ghost predicate KeyGoes(c: Chain, keyed: bool, r: nat)
    requires SizedChain(c, keyed) && c.Link?
  {
    keyed ==> |EncString(c.key.value)| <= r && (c.key.value == [] ==> r >= 2)
  }

  function Behind(a: Bytes, o: Option<Bytes>): (p: Option<Bytes>) {
    if o.None? then None else Some(a + o.value)
  }

  lemma BehindNothing(o: Option<Bytes>)
    ensures Behind([], o) == o
  {
    assert o.Some? ==> [] + o.value == o.value;
  }

  lemma BehindTwice(a: Bytes, b: Bytes, o: Option<Bytes>)
    ensures Behind(a, Behind(b, o)) == Behind(a + b, o)
  {
    if o.Some? {
      Assoc(a, b, o.value);
    }
  }

  lemma ToldOfColl(t: Tree, r: nat)
    requires Sized(t) && IsColl(t) && !IsNullPtr(t) && r >= 1
    ensures SizedChain(Below(t), Keyed(t)) && Count(Below(t)) < 0x1_0000
    ensures Told(t, r) == Behind([EncS8(TypeOf(t))], ToldColl(Below(t), Keyed(t), r - 1))
    ensures Enc(t) == [EncS8(TypeOf(t))] + (EncU16(Count(Below(t))) + EncChain(Below(t), Keyed(t)))
  {
    CollValue(t);
    hide EncS8, TypeOf, EncU16, EncChain, ToldColl, Below, Keyed, EncValue;
  }

  // A tree that can be coded and fits is written whole.
  lemma {:induction false} FittingWritesAll(t: Tree, r: nat)
    requires Sized(t) && Codable(t) && |Enc(t)| <= r
    ensures Told(t, r) == Some(Enc(t))
    decreases t, 1
  {
    hide Told, Enc;
    if !IsColl(t) || IsNullPtr(t) {
      FittingLeaf(t, r);
    } else {
      hide EncS8, TypeOf, EncU16, Codable, Below, Keyed, ToldChain, EncChain, Sized;
      CollValue(t);
      ToldOfColl(t, r);
      FittingChain(Below(t), Keyed(t), r - 3);
    }
  }

  lemma FittingLeaf(t: Tree, r: nat)
    requires Sized(t) && (!IsColl(t) || IsNullPtr(t)) && Codable(t) && |Enc(t)| <= r
    ensures Told(t, r) == Some(Enc(t))
  {
    hide EncS8, TypeOf;
    if !IsNullPtr(t) {
      assert EncValue(t)[..|EncValue(t)|] == EncValue(t);
      hide EncValue, Codable, Loose;
    }
  }

  lemma {:induction false} FittingChain(c: Chain, keyed: bool, r: nat)
    requires SizedChain(c, keyed) && CodableChain(c) && |EncChain(c, keyed)| <= r
    ensures ToldChain(c, keyed, r) == Some(EncChain(c, keyed))
    decreases c, 0
  {
    hide EncString, Told, Enc;
    if c.End? {
    } else {
      var k := KeyBytes(c, keyed);
      FittingWritesAll(c.val, r - |k|);
      FittingChain(c.next, keyed, r - |k| - |Enc(c.val)|);
      Assoc(k, Enc(c.val), EncChain(c.next, keyed));
    }
  }

  // What is appended never exceeds the encoding, and is as long only when it
  // is the encoding.
  lemma {:induction false} ToldAtMost(t: Tree, r: nat)
    requires Sized(t) && Told(t, r).Some?
    ensures |Told(t, r).value| <= |Enc(t)|
    ensures |Told(t, r).value| == |Enc(t)| ==> Codable(t) && Told(t, r).value == Enc(t)
    decreases t, 2
  {
    hide Told, Enc, Sized, Codable;
    if !IsColl(t) || IsNullPtr(t) {
      ToldAtMostLeaf(t, r);
    } else {
      ToldAtMostColl(t, r);
    }
  }

  lemma {:induction false} ToldAtMostColl(t: Tree, r: nat)
    requires Sized(t) && IsColl(t) && !IsNullPtr(t) && Told(t, r).Some?
    ensures |Told(t, r).value| <= |Enc(t)|
    ensures |Told(t, r).value| == |Enc(t)| ==> Codable(t) && Told(t, r).value == Enc(t)
    decreases t, 1
  {
    hide Told, Enc, EncS8, TypeOf, EncU16, Codable, Below, Keyed, ToldChain, EncChain, Sized;
    if r >= 1 {
      CollValue(t);
      ToldOfColl(t, r);
      if r >= 3 {
        ToldAtMostChain(Below(t), Keyed(t), r - 3);
      }
    } else {
      TagNeedsRoom(t);
    }
  }

  lemma ToldAtMostLeaf(t: Tree, r: nat)
    requires Sized(t) && (!IsColl(t) || IsNullPtr(t)) && Told(t, r).Some?
    ensures |Told(t, r).value| <= |Enc(t)|
    ensures |Told(t, r).value| == |Enc(t)| ==> Codable(t) && Told(t, r).value == Enc(t)
  {
    hide EncS8, TypeOf, EncU16;
    if IsNullPtr(t) {
      NullPtrCodable(t);
    } else {
      assert EncValue(t)[..|EncValue(t)|] == EncValue(t);
      hide EncValue, Codable, Loose;
    }
  }

  lemma {:induction false} ToldAtMostChain(c: Chain, keyed: bool, r: nat)
    requires SizedChain(c, keyed) && ToldChain(c, keyed, r).Some?
    ensures |ToldChain(c, keyed, r).value| <= |EncChain(c, keyed)|
    ensures |ToldChain(c, keyed, r).value| == |EncChain(c, keyed)| ==>
              CodableChain(c) && ToldChain(c, keyed, r).value == EncChain(c, keyed)
    decreases c, 0
  {
    hide EncString, Told, Enc;
    if c.End? {
    } else {
      var k := KeyBytes(c, keyed);
      ToldAtMost(c.val, r - |k|);
      var v := Told(c.val, r - |k|).value;
      ToldAtMostChain(c.next, keyed, r - |k| - |v|);
      Assoc(k, Enc(c.val), EncChain(c.next, keyed));
      hide Behind, KeyGoes, KeyBytes;
    }
  }

  // Success is reported with the whole encoding, over-long strings cut short in
  // it, exactly when the tree can be coded and the encoding fits.
  lemma WholeIffFits(t: Tree, r: nat)
    requires Sized(t)
    ensures Told(t, r) == Some(Enc(t)) <==> Codable(t) && |Enc(t)| <= r
  {
    hide Told, Enc, Codable, Sized;
    if Codable(t) && |Enc(t)| <= r {
      FittingWritesAll(t, r);
    } else if Told(t, r).Some? {
      ToldAtMost(t, r);
    }
  }

  lemma TrustedNamed(t: Tree)
    requires Sized(t)
    ensures (forall r: nat :: Told(t, r).Some? ==> Parse(Told(t, r).value) == Some((Normal(t), [])))
            <==> (IsNullPtr(t) || !IsColl(t)) && !Loose(t) && ShortStrings(t)
  {
    if IsColl(t) && !IsNullPtr(t) {
      OnlyTheTag(t, 1);
      TagAlone(t);
      assert Told(t, 1).Some?;
    } else if Loose(t) {
      LooseLosesItsLength(t);
      TagAlone(t);
      assert Told(t, 1).Some?;
    } else if !ShortStrings(t) {
      CutStringsDiffer(t);
      assert Told(t, |Enc(t)|).Some?;
    } else {
      forall r: nat | Told(t, r).Some?
        ensures Parse(Told(t, r).value) == Some((Normal(t), []))
      {
        FirmIsWhole(t, r);
        NoMore(Enc(t));
        TreeRoundTrip(t, []);
      }
    }
  }

  // Reported success means that the receiver gets the tree, whatever the room,
  // exactly for null pointers and for single values that are no empty and no
  // over-long strings; any map, list or set is reported as written in some room
  // too small for it.
  lemma TrustedIff(t: Tree)
    requires Sized(t)
    ensures (forall r: nat :: Told(t, r).Some? ==> Parse(Told(t, r).value) == Some((Normal(t), [])))
            <==> && (t.MapNode? || t.ListNode? || t.SetNode? ==> t in {MapNode(End), ListNode(End), SetNode(End)})
                 && !t.ProxyNode?
                 && (t.StrNode? && t.str.Some? ==> 0 < |t.str.value| <= 127)
  {
    hide Told, Parse, Sized, Normal;
    TrustedNamed(t);
  }

  // A tag without the count or length that belongs to it cannot be read.
  lemma TagAlone(t: Tree)
    requires IsColl(t) || t.StrNode?
    ensures Parse([EncS8(TypeOf(t))]) == None
  {
    hide EncS8, DecS8;
    ReadBack8(TypeOf(t), []);
    NoMore([EncS8(TypeOf(t))]);
  }

  lemma CutStringsDiffer(t: Tree)
    requires Sized(t) && !IsColl(t) && !IsNullPtr(t) && !ShortStrings(t)
    ensures Told(t, |Enc(t)|) == Some(Enc(t)) && Parse(Enc(t)) != Some((Normal(t), []))
  {
    hide EncS8, DecS8, ParseStr, ExtraMap.EncStrVal;
    FittingWritesAll(t, |Enc(t)|);
    var e := ExtraMap.EncStrVal(t.str.value);
    StrSurvivesIff(t.str.value, []);
    NoMore(e);
    ReadBack8(ExtraMap.TYPE_STRING, e);
  }

  // The length byte of an empty or over-long string is written unchecked.
  lemma LooseLosesItsLength(t: Tree)
    requires Sized(t) && Loose(t)
    ensures Told(t, 1) == Some([EncS8(TypeOf(t))]) && |Enc(t)| == 2
  {
    hide EncS8, TypeOf;
    assert EncValue(t)[..0] == [];
    assert [EncS8(TypeOf(t))] + [] == [EncS8(TypeOf(t))];
  }

  lemma FirmIsWhole(t: Tree, r: nat)
    requires Sized(t) && (IsNullPtr(t) || !IsColl(t)) && !Loose(t) && Told(t, r).Some?
    ensures Told(t, r) == Some(Enc(t)) && Codable(t)
  {
    hide EncS8, TypeOf;
    if IsNullPtr(t) {
      NullPtrCodable(t);
    } else {
      assert EncValue(t)[..|EncValue(t)|] == EncValue(t);
      hide EncValue, Codable, Loose;
    }
  }

  // When two bytes of room are left, reported success means that the whole
  // encoding was written.
  lemma {:induction false} RoomLeftMeansWhole(t: Tree, r: nat)
    requires Sized(t) && Told(t, r).Some? && r - |Told(t, r).value| >= 2
    ensures Codable(t) && Told(t, r).value == Enc(t)
    decreases t, 1
  {
    hide Told, Enc;
    if !IsColl(t) || IsNullPtr(t) {
      RoomLeftLeaf(t, r);
    } else if r >= 1 {
      hide EncS8, TypeOf, EncU16, Codable, Below, Keyed, ToldChain, EncChain, Sized;
      CollValue(t);
      ToldOfColl(t, r);
      RoomLeftChain(Below(t), Keyed(t), r - 3);
    } else {
      TagNeedsRoom(t);
    }
  }

  lemma TagNeedsRoom(t: Tree)
    requires Sized(t)
    ensures Told(t, 0) == None
  {
    hide ToldValue;
  }

  lemma RoomLeftLeaf(t: Tree, r: nat)
    requires Sized(t) && (!IsColl(t) || IsNullPtr(t)) && Told(t, r).Some? && r - |Told(t, r).value| >= 2
    ensures Codable(t) && Told(t, r).value == Enc(t)
  {
    hide EncS8, TypeOf, EncU16;
    if IsNullPtr(t) {
      NullPtrCodable(t);
    } else {
      assert EncValue(t)[..|EncValue(t)|] == EncValue(t);
      hide EncValue, Codable, Loose;
    }
  }

  lemma {:induction false} RoomLeftChain(c: Chain, keyed: bool, r: nat)
    requires SizedChain(c, keyed) && ToldChain(c, keyed, r).Some? && r - |ToldChain(c, keyed, r).value| >= 2
    ensures CodableChain(c) && ToldChain(c, keyed, r).value == EncChain(c, keyed)
    decreases c, 0
  {
    hide EncString, Told, Enc;
    if c.End? {
    } else {
      var k := KeyBytes(c, keyed);
      RoomLeftMeansWhole(c.val, r - |k|);
      RoomLeftChain(c.next, keyed, r - |k| - |Enc(c.val)|);
      Assoc(k, Enc(c.val), EncChain(c.next, keyed));
    }
  }

  // Without that room it cannot: a map, list or set whose count finds no room
  // is reported as written although only its tag was.
  lemma OnlyTheTag(t: Tree, r: nat)
    requires Sized(t) && IsColl(t) && !IsNullPtr(t) && 1 <= r < 3
    ensures Told(t, r) == Some([EncS8(TypeOf(t))]) && Told(t, r) != Some(Enc(t))
  {
    ToldOfColl(t, r);
    hide Told, Enc, EncS8, TypeOf, Below, Keyed, ToldChain, EncChain, EncU16;
    assert [EncS8(TypeOf(t))] + [] == [EncS8(TypeOf(t))];
    assert |Enc(t)| >= 3;
  }

  lemma ToldNothing(keyed: bool, r: nat)
    ensures ToldChain(End, keyed, r) == Some([])
  {
  }

  lemma ToldStep(c: Chain, keyed: bool, r: nat)
    requires SizedChain(c, keyed) && c.Link?
    ensures !KeyGoes(c, keyed, r) ==> ToldChain(c, keyed, r) == None
    ensures KeyGoes(c, keyed, r) ==>
              var k := KeyBytes(c, keyed);
              |k| <= r && var v := Told(c.val, r - |k|);
              ToldChain(c, keyed, r) ==
                if v.None? then None else Behind(k + v.value, ToldChain(c.next, keyed, r - |k| - |v.value|))
  {
    hide EncString, Told, Sized, Behind;
  }

  method PutKey(c: Chain, keyed: bool, b: Ring) returns (ok: bool)
    requires b.Valid() && SizedChain(c, keyed) && c.Link?
    modifies b`wpos, b`status, b.data
    ensures b.Valid() && (ok <==> KeyGoes(c, keyed, old(b.Room())))
    ensures ok ==> b.Contents() == old(b.Contents()) + KeyBytes(c, keyed)
    ensures old(b.Contents()) <= b.Contents()
  {
    hide Ring.Contents, Ring.ReadableLen, EncString;
    ok := true;
    if keyed {
      ok := b.WriteString(c.key);
    }
  }

  // The loops of _c_encodeExtraMap and _c_encodeColl.
  method EncodeLinks(c: Chain, keyed: bool, b: Ring) returns (ok: bool)
    requires b.Valid() && SizedChain(c, keyed)
    modifies b`wpos, b`status, b.data
    ensures b.Valid() && (ok <==> ToldChain(c, keyed, old(b.Room())).Some?)
    ensures ok ==> b.Contents() == old(b.Contents()) + ToldChain(c, keyed, old(b.Room())).value
    ensures old(b.Contents()) <= b.Contents()
    decreases c, 0
  {
    hide Ring.Contents, Ring.ReadableLen, EncString, Told, ToldChain, KeyGoes, KeyBytes, Sized;
    ghost var q, r := b.Contents(), b.Room();
    ghost var done: Bytes := [];
    var l := c;
    BehindNothing(ToldChain(c, keyed, r));
    while l.Link?
      invariant b.Valid() && SizedChain(l, keyed) && (l == c || l < c)
      invariant b.Contents() == q + done
      invariant ToldChain(c, keyed, r) == Behind(done, ToldChain(l, keyed, b.Room()))
      decreases l
    {
      ToldStep(l, keyed, b.Room());
      ghost var k := KeyBytes(l, keyed);
      ok := PutKey(l, keyed, b);
      if !ok { return; }
      ghost var v := Told(l.val, b.Room());
      ok := Encode(l.val, b);
      if !ok { return; }
      Assoc(q, done, k);
      Assoc(q, done + k, v.value);
      Assoc(done, k, v.value);
      BehindTwice(done, k + v.value, ToldChain(l.next, keyed, b.Room()));
      done := done + k + v.value;
      l := l.next;
    }
    ToldNothing(keyed, b.Room());
    ok := true;
  }

  method EncodeColl(c: Chain, keyed: bool, b: Ring) returns (ok: bool)
    requires b.Valid() && SizedChain(c, keyed) && Count(c) < 0x1_0000
    modifies b`wpos, b`status, b.data
    ensures b.Valid() && (ok <==> ToldColl(c, keyed, old(b.Room())).Some?)
    ensures ok ==> b.Contents() == old(b.Contents()) + ToldColl(c, keyed, old(b.Room())).value
    ensures old(b.Contents()) <= b.Contents()
    decreases c, 1
  {
    hide Ring.Contents, Ring.ReadableLen, EncU16, ToldChain;
    ghost var q, n, r := b.Contents(), EncU16(Count(c)), b.Room();
    NoMore(q);
    NoMore(n);
    ToldNothing(keyed, if r < 2 then 0 else r - 2);
    var eleCnt := WriteCount(c, b);
    if eleCnt == 0 {
      return true;
    }
    ok := EncodeLinks(c, keyed, b);
    if ok {
      Assoc(q, n, ToldChain(c, keyed, r - 2).value);
    }
  }

  // client_encodeExtra: reports success, and appends, as Told says; bytes queued
  // before are never disturbed.
  method Encode(t: Tree, b: Ring) returns (ok: bool)
    requires b.Valid() && Sized(t)
    modifies b`wpos, b`status, b.data
    ensures b.Valid() && (ok <==> Told(t, old(b.Room())).Some?)
    ensures ok ==> b.Contents() == old(b.Contents()) + Told(t, old(b.Room())).value
    ensures old(b.Contents()) <= b.Contents()
    decreases t, 2
  {
    hide Ring.Contents, Ring.ReadableLen, EncS8, TypeOf, Sized, ToldColl, ToldValue, IsColl;
    if IsNullPtr(t) {
      ok := b.PutS8(ExtraMap.TYPE_NULL);
      return;
    }
    ghost var q, r, tag := b.Contents(), b.Room(), [EncS8(TypeOf(t))];
    ok := b.PutS8(TypeOf(t));
    if !ok { return; }
    ok := EncodeValue(t, b);
    if ok {
      Assoc(q, tag, ToldValue(t, r - 1).value);
    }
  }

  // What follows the tag.
  method EncodeValue(t: Tree, b: Ring) returns (ok: bool)
    requires b.Valid() && Sized(t) && !IsNullPtr(t)
    modifies b`wpos, b`status, b.data
    ensures b.Valid() && (ok <==> ToldValue(t, old(b.Room())).Some?)
    ensures ok ==> b.Contents() == old(b.Contents()) + ToldValue(t, old(b.Room())).value
    ensures old(b.Contents()) <= b.Contents()
    decreases t, 1
  {
    hide Ring.Contents, Ring.ReadableLen, EncValue, Codable, Sized, EncChain, ToldColl, IsNullPtr;
    if IsColl(t) {
      CollValue(t);
      ok := EncodeColl(Below(t), Keyed(t), b);
    } else {
      ok := EncodeScalar(t, b);
    }
  }

  lemma NullPtrCodable(t: Tree)
    requires IsNullPtr(t)
    ensures Codable(t)
  {
  }

  lemma CollValue(t: Tree)
    requires Sized(t) && !IsNullPtr(t) && IsColl(t)
    ensures var c := Below(t);
            && SizedChain(c, Keyed(t)) && Count(c) < 0x1_0000 && (Codable(t) <==> CodableChain(c))
            && EncValue(t) == EncU16(Count(c)) + EncChain(c, Keyed(t))
            && c < t
  {
    hide EncU16;
  }

  /** Decoding **/

  method DecodeStr(b: Ring) returns (t: Tree)
    requires b.Valid() && ParseStr(b.Contents()).Some?
    modifies b`rpos, b`status
    ensures b.Valid() && ParseStr(old(b.Contents())) == Some((t, b.Contents()))
  {
    hide Ring.Contents, Ring.ReadableLen, ParseS16, ParseS32, DecS8;
    var _, slen := b.GetS8();
    var len := if slen < 0 then (slen as int) + 0x1_0000 else slen as int;
    if len == 0 { return StrNode(Some([])); }
    var ilen: s32 := len;
    if len == MAX_BYTE_VALUE {
      var _, slen16 := b.GetS16();
      ilen := slen16;
      if slen16 == MAX_SHORT_VALUE {
        var _, slen32 := b.GetS32();
        ilen := slen32;
      }
    }
    var _, s := b.GetBytes(ilen);
    t := StrNode(Some(s));
  }

  method DecodeBuf(b: Ring) returns (t: Tree)
    requires b.Valid() && ParseBuf(b.Contents()).Some?
    modifies b`rpos, b`status
    ensures b.Valid() && ParseBuf(old(b.Contents())) == Some((t, b.Contents()))
  {
    hide Ring.Contents, Ring.ReadableLen, ParseU16;
    var _, len := b.GetU16();
    if len == 0 { return BufNode(None); }
    var _, s := b.GetBytes(len);
    t := BufNode(Some(s));
  }

  method DecodeScalar(ty: s8, b: Ring) returns (t: Tree)
    requires b.Valid() && ParseScalar(ty, b.Contents()).Some?
    modifies b`rpos, b`status
    ensures b.Valid() && ParseScalar(ty, old(b.Contents())) == Some((t, b.Contents()))
  {
    hide Ring.Contents, Ring.ReadableLen, ParseBuf, ParseStr, ParseS8, ParseS16, ParseS32, ParseS64;
    if ty == ExtraMap.TYPE_NULL {
      t := NullNode;
    } else if ty == ExtraMap.TYPE_BYTEBUFFER {
      t := DecodeBuf(b);
    } else if ty == ExtraMap.TYPE_INT {
      var _, x := b.GetS32();
      t := IntNode(x);
    } else if ty == ExtraMap.TYPE_BYTE {
      var _, x := b.GetS8();
      t := ByteNode(x);
    } else if ty == ExtraMap.TYPE_SHORT {
      var _, x := b.GetS16();
      t := ShortNode(x);
    } else if ty == ExtraMap.TYPE_LONG {
      var _, x := b.GetS64();
      t := LongNode(x);
    } else if ty == ExtraMap.TYPE_BOOLEAN {
      var _, x := b.GetBool();
      t := BoolNode(x);
    } else if ty == ExtraMap.TYPE_CHAR {
      var _, x := b.GetU8();
      t := CharNode(x);
    } else {
      t := DecodeStr(b);
    }
  }

  // The chain c with one more node at its tail.
  function Append(c: Chain, k: Option<Bytes>, v: Tree): Chain {
    if c.End? then Link(k, v, End) else Link(c.key, c.val, Append(c.next, k, v))
  }

  function Join(c: Chain, d: Chain): Chain {
    if c.End? then d else Link(c.key, c.val, Join(c.next, d))
  }

  lemma {:induction false} AppendThenJoin(c: Chain, k: Option<Bytes>, v: Tree, d: Chain)
    ensures Join(Append(c, k, v), d) == Join(c, Link(k, v, d))
  {
    if c.End? {
    } else {
      AppendThenJoin(c.next, k, v, d);
    }
  }

  lemma {:induction false} JoinEnd(c: Chain)
    ensures Join(c, End) == c
  {
    if c.End? {
    } else {
      JoinEnd(c.next);
    }
  }

  method DecodeKey(keyed: bool, b: Ring) returns (k: Option<Bytes>)
    requires b.Valid() && ParseKey(b.Contents(), keyed).Some?
    modifies b`rpos, b`status
    ensures b.Valid() && ParseKey(old(b.Contents()), keyed) == Some((k, b.Contents()))
  {
    b.Accounting();
    hide Ring.Contents, Ring.ReadableLen, ParseString;
    if !keyed { return None; }
    var _, p := b.ReadString();
    k := Some(p);
  }

  // The loops of _c_decodeMap and _c_decodeColl: each node goes to the tail.
  method DecodeLinks(n: nat, keyed: bool, b: Ring) returns (c: Chain)
    requires b.Valid() && ParseChain(b.Contents(), n, keyed).Some?
    modifies b`rpos, b`status
    ensures b.Valid() && ParseChain(old(b.Contents()), n, keyed) == Some((c, b.Contents()))
    decreases |b.Contents()|, 2
  {
    hide Ring.Contents, Ring.ReadableLen, ParseKey, Parse;
    ghost var q := b.Contents();
    var left := n;
    c := End;
    while left > 0
      invariant b.Valid() && 0 <= left && |b.Contents()| <= |q|
      invariant ParseChain(b.Contents(), left, keyed).Some?
      invariant var p := ParseChain(b.Contents(), left, keyed).value;
                ParseChain(q, n, keyed) == Some((Join(c, p.0), p.1))
    {
      ghost var p := ParseChain(b.Contents(), left, keyed).value;
      left := left - 1;
      var k := DecodeKey(keyed, b);
      var v := Decode(b);
      AppendThenJoin(c, k, v, p.0.next);
      c := Append(c, k, v);
    }
    JoinEnd(c);
  }

  method DecodeValue(ty: s8, b: Ring) returns (t: Tree)
    requires b.Valid() && ParseValue(ty, b.Contents()).Some?
    modifies b`rpos, b`status
    ensures b.Valid() && ParseValue(ty, old(b.Contents())) == Some((t, b.Contents()))
    decreases |b.Contents()|, 0
  {
    hide Ring.Contents, Ring.ReadableLen, ParseScalar, ParseChain, DecU16;
    if ty == ExtraMap.TYPE_MAP || ty == TYPE_PROXY {
      var _, n := b.GetU16();
      var c := DecodeLinks(n, true, b);
      t := Coll(ty, c);
    } else if ty == TYPE_SET || ty == TYPE_LIST {
      var _, n := b.GetU16();
      var c := DecodeLinks(n, false, b);
      t := Coll(ty, c);
    } else {
      t := DecodeScalar(ty, b);
    }
  }

  // client_decodeExtra
  method Decode(b: Ring) returns (t: Tree)
    requires b.Valid() && Parse(b.Contents()).Some?
    modifies b`rpos, b`status
    ensures b.Valid() && Parse(old(b.Contents())) == Some((t, b.Contents()))
    decreases |b.Contents()|, 1
  {
    hide Ring.Contents, Ring.ReadableLen, ParseValue, DecS8;
    var _, ty := b.GetS8();
    t := DecodeValue(ty, b);
  }

  // A tree through an empty ring, wherever its positions stand.
  method Trip(t: Tree, b: Ring) returns (u: Tree)
    requires b.Valid() && Safe(t) && b.Contents() == [] && |Enc(t)| <= b.capacity
    modifies b`rpos, b`wpos, b`status, b.data
    ensures b.Valid() && b.Contents() == [] && u == Normal(t)
  {
    hide Ring.Contents, Ring.ReadableLen, Enc, Parse, Normal, Safe;
    SafeIs(t);
    FittingWritesAll(t, b.Room());
    var _ := Encode(t, b);
    TreeRoundTrip(t, []);
    assert [] + Enc(t) == Enc(t) + [] == Enc(t);
    u := Decode(b);
  }

  lemma SafeIs(t: Tree)
    requires Safe(t)
    ensures Sized(t) && Codable(t)
  {
  }
}
