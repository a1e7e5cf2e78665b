/**
 The byte forms in plain numbers: which bytes a peer has to send and may expect.
 The codecs are proved inverse to each other elsewhere; here it is said what
 they agree on, without the names the codecs share.
 */
module WireForm {
  import opened Wire
  import opened ByteRing
  import opened ExtraMap
  import opened ExtraCodec
  import ExtraLookup
  import Message
  import PubSubItem
  import TreeCodec

  /** Numbers **/

  lemma ByteOrder(x: u16, y: u32, z: u64)
    ensures NET_DATA_BIG_END ==> EncU16(x) == [x / 0x100 % 256, x % 256]
    ensures !NET_DATA_BIG_END ==> EncU16(x) == [x % 256, x / 0x100 % 256]
    ensures NET_DATA_BIG_END ==>
              EncU32(y) == [y / 0x100_0000 % 256, y / 0x1_0000 % 256, y / 0x100 % 256, y % 256]
    ensures !NET_DATA_BIG_END ==>
              EncU32(y) == [y % 256, y / 0x100 % 256, y / 0x1_0000 % 256, y / 0x100_0000 % 256]
    ensures var h := z / 0x1_0000_0000;
            EncU64(z) == if NET_DATA_BIG_END then EncU32(h) + EncU32(z % 0x1_0000_0000)
                         else EncU32(z % 0x1_0000_0000) + EncU32(h)
  {
    Order16(x);
    Order32(y);
    Order64(z);
  }

  lemma Order16(x: u16)
    ensures NET_DATA_BIG_END ==> EncU16(x) == [x / 0x100 % 256, x % 256]
    ensures !NET_DATA_BIG_END ==> EncU16(x) == [x % 256, x / 0x100 % 256]
  {
    hide Digits;
    Shifts2(x);
  }

  lemma Order32(y: u32)
    ensures NET_DATA_BIG_END ==>
              EncU32(y) == [y / 0x100_0000 % 256, y / 0x1_0000 % 256, y / 0x100 % 256, y % 256]
    ensures !NET_DATA_BIG_END ==>
              EncU32(y) == [y % 256, y / 0x100 % 256, y / 0x1_0000 % 256, y / 0x100_0000 % 256]
  {
    hide Digits;
    Shifts4(y);
  }

  lemma Order64(z: u64)
    ensures var h := z / 0x1_0000_0000;
            EncU64(z) == if NET_DATA_BIG_END then EncU32(h) + EncU32(z % 0x1_0000_0000)
                         else EncU32(z % 0x1_0000_0000) + EncU32(h)
  {
    hide Digits, Reversed;
    var h := z / 0x1_0000_0000;
    HighHalf(z);
    LowDigits(h, z % 0x1_0000_0000);
    assert z == h * 0x1_0000_0000 + z % 0x1_0000_0000;
    ReversedBoth(Digits(h, 4), Digits(z, 4));
  }

  lemma LowDigits(h: nat, l: nat)
    requires l < 0x1_0000_0000
    ensures Digits(h * 0x1_0000_0000 + l, 4) == Digits(l, 4)
  {
    hide Digits;
    LowDigit(h * 0x100_0000, l, 3);
    LowDigit(h * 0x1_0000, l / 256, 2);
    LowDigit(h * 0x100, l / 256 / 256, 1);
    LowDigit(h, l / 256 / 256 / 256, 0);
    NoDigits(h, l / 256 / 256 / 256 / 256);
  }

  lemma LowDigit(h: nat, l: nat, n: nat)
    ensures Digits(h * 256 + l, n + 1) == Digits(h + l / 256, n) + [l % 256]
    ensures Digits(l, n + 1) == Digits(l / 256, n) + [l % 256]
  {
    assert (h * 256 + l) / 256 == h + l / 256 && (h * 256 + l) % 256 == l % 256;
  }

  lemma NoDigits(h: nat, l: nat)
    ensures Digits(h + l, 0) == Digits(l, 0)
  {
  }

  lemma ReversedBoth(a: Bytes, b: Bytes)
    ensures Reversed(a + b) == Reversed(b) + Reversed(a)
  {
    var r, s := Reversed(a + b), Reversed(b) + Reversed(a);
    forall i | 0 <= i < |a| + |b|
      ensures r[i] == s[i]
    {
    }
  }

  // Negative numbers stand for themselves plus a power of two.
  lemma TwosComplement(x8: s8, x16: s16, x32: s32, x64: s64)
    ensures (EncS8(x8) - x8) % 256 == 0 && DecS8(EncS8(x8)) == x8
    ensures EncS16(x16) == EncU16(if x16 < 0 then x16 + 0x1_0000 else x16)
    ensures EncS32(x32) == EncU32(if x32 < 0 then x32 + 0x1_0000_0000 else x32)
    ensures EncS64(x64) == EncU64(if x64 < 0 then x64 + 0x1_0000_0000_0000_0000 else x64)
  {
    hide EncUnsigned;
    Widths();
  }

  /** Strings **/

  // Keys, topics and callbacks.
  lemma StringForm(s: Bytes)
    requires |s| < 0x1_0000
    ensures |s| < 127 ==> EncString(s) == [|s|] + s
    ensures 127 <= |s| < 32767 ==> EncString(s) == [127] + EncU16(|s|) + s
    ensures 32767 <= |s| ==> EncString(s) == [127] + EncU16(32767) + EncU32(|s|) + s
  {
  }

  // Any length byte other than 127 is the length itself, even above 127.
  lemma StringByteRead(n: byte, t: Bytes)
    ensures n == 0 ==> ParseString([n] + t) == Some(([], t))
    ensures 0 < n != 127 ==> ParseString([n] + t) == if t != [] && |t| >= n then Some((t[..n], t[n..])) else None
  {
    hide ParseU16;
    Cut([n], t);
  }

  /** Maps **/

  // The value of a node, its tag in front.
  lemma ScalarForm(x8: s8, x16: s16, x32: s32, x64: s64, c: byte)
    ensures EncVal(NullVal) == EncVal(StrVal(None)) == EncVal(BufVal(None)) == [128]
    ensures EncVal(ByteVal(x8)) == [135, EncS8(x8)] && EncVal(ShortVal(x16)) == [136] + EncS16(x16)
    ensures EncVal(IntVal(x32)) == [137] + EncS32(x32) && EncVal(LongVal(x64)) == [138] + EncS64(x64)
    ensures EncVal(CharVal(c)) == [141, c]
    ensures EncVal(BoolVal(true)) == [142, 1] && EncVal(BoolVal(false)) == [142, 0]
  {
    hide EncS16, EncS32, EncS64;
  }

  // String values have a length byte that is taken modulo 256; only a length
  // of exactly 127 is written in full.
  lemma StrForm(s: Bytes)
    requires |s| < 0x1_0000
    ensures var n := |s| % 256;
            EncVal(StrVal(Some(s))) ==
              if n == 127 then [143, 127] + EncS16(127) + s[..127]
              else if 0 < n < 127 then [143, n] + s[..n]
              else [143, n]
  {
    hide EncS16;
    var n := |s| % 256;
    assert ShortLen(s) == if n < 128 then n else n - 256;
  }

  lemma BufForm(s: Bytes)
    requires |s| < 0x1_0000
    ensures EncVal(BufVal(Some(s))) == [145] + EncU16(|s|) + s
  {
    hide EncU16;
    Assoc([145], EncU16(|s|), s);
  }

  // A map: its count, 1 for string keys or 0 for byte keys, then key, tag and
  // value of each node; as a value it has a tag in front and string keys.
  lemma MapForm(m: Extra)
    requires m.Node?
    ensures SizedMap(m, 0) ==>
              && m.key.NumKey? && Sized(m.val) && SizedMap(m.next, 0)
              && EncExtra(m, 0) == [Count(m) % 256, 0] + ([EncS8(m.key.k)] + (EncVal(m.val) + EncEntries(m.next, 0)))
    ensures SizedMap(m, 1) ==>
              && m.key.StrKey? && Sized(m.val) && SizedMap(m.next, 1) && |m.key.s| < 0x1_0000
              && EncExtra(m, 1) == [Count(m) % 256, 1]
                 + (EncString(m.key.s) + (EncVal(m.val) + EncEntries(m.next, 1)))
              && EncVal(MapVal(m)) == [134] + EncExtra(m, 1)
    ensures EncEntries(Nil, 0) == EncEntries(Nil, 1) == []
  {
    hide EncString, EncVal;
    if SizedMap(m, 1) {
      MapValForm(m);
    }
  }

  lemma MapValForm(m: Extra)
    requires m.Node? && SizedMap(m, 1)
    ensures EncVal(MapVal(m)) == [134] + EncExtra(m, 1)
  {
    hide EncExtra;
  }

  // What a reader has to accept beyond that: any non-zero truth value, a null
  // string, a null buffer, and no map at all.
  lemma ReadForm(b: byte, t: Bytes)
    ensures ParsePayload(-114, [b] + t) == Some((BoolVal(b != 0), t))
    ensures ParsePayload(-113, [255] + t) == Some((StrVal(None), t))
    ensures ParsePayload(-111, EncS16(0) + t) == Some((BufVal(None), t))
    ensures ParseExtra([]) == Some((Nil, [])) && ParseExtra([0] + t) == Some((Nil, t))
  {
    hide ParsePayload, ParseExtra, EncS16;
    BoolRead(b, t);
    NullRead(t);
    EmptyMapRead(t);
  }

  lemma BoolRead(b: byte, t: Bytes)
    ensures ParsePayload(-114, [b] + t) == Some((BoolVal(b != 0), t))
  {
    hide ParseExtra, ParseStrVal, ParseBufVal;
    Cut([b], t);
  }

  lemma NullRead(t: Bytes)
    ensures ParsePayload(-113, [255] + t) == Some((StrVal(None), t))
    ensures ParsePayload(-111, EncS16(0) + t) == Some((BufVal(None), t))
  {
    hide EncS16, ParseExtra, ParseS16, ParseStrVal;
    ShortTier(-1, t);
    ReadBack16(0, 0, t);
  }

  // String values of any length are read, in maps and in trees, when they come
  // in the form of keys.
  lemma StringValueRead(s: Bytes, t: Bytes)
    requires |s| < 0x1_0000
    ensures ParseStrVal(EncString(s) + t) == Some((StrVal(Some(s)), t))
    ensures TreeCodec.ParseStr(EncString(s) + t) == Some((TreeCodec.StrNode(Some(s)), t))
  {
    hide EncU16, EncS16, EncU32, ParseStrVal, TreeCodec.ParseStr, ParseBytes;
    var n := |s|;
    Cut(s, t);
    if 0 < n {
      ReadBytes(s, t);
    }
    if n < 127 {
      Assoc([n], s, t);
      ShortTier(n, s + t);
      TreeCodec.NegativeLen(n, s + t);
    } else if n < 32767 {
      LongForm(n);
      Assoc([127] + EncS16(n), s, t);
      Assoc([127], EncS16(n), s + t);
      LongTier(n, s + t);
      TreeCodec.LongTier(n, s + t);
    } else {
      LongForm(32767);
      LongestForm(n);
      Assoc([127] + EncS16(32767) + EncS32(n), s, t);
      Assoc([127] + EncS16(32767), EncS32(n), s + t);
      Assoc([127], EncS16(32767), EncS32(n) + (s + t));
      LongestTier(n, s + t);
    }
  }

  lemma ReadBytes(s: Bytes, t: Bytes)
    requires s != []
    ensures ParseBytes(s + t, |s|) == Some((s, t))
  {
    Cut(s, t);
  }

  lemma LongForm(n: nat)
    requires n <= 32767
    ensures EncU16(n) == EncS16(n)
  {
    Widths();
  }

  lemma LongestForm(n: nat)
    requires n < 0x1_0000
    ensures EncU32(n) == EncS32(n)
  {
    Widths();
  }

  lemma LongestTier(n: nat, t: Bytes)
    requires n < 0x1_0000
    ensures ParseStrVal([127] + (EncS16(32767) + (EncS32(n) + t))) == ExtraMap.StrOf(ParseBytes(t, n))
    ensures TreeCodec.ParseStr([127] + (EncS16(32767) + (EncS32(n) + t))) == TreeCodec.StrOf(ParseBytes(t, n))
  {
    var b2 := EncS32(n) + t;
    ReadBack32(0, n, t);
    ReadBack16(0, 32767, b2);
    LongestTiers(EncS16(32767) + b2, b2, n, t);
  }

  lemma LongestTiers(b1: Bytes, b2: Bytes, n: nat, t: Bytes)
    requires ParseS16(b1) == Some((32767, b2)) && ParseS32(b2) == Some((n, t)) && n < 0x1_0000
    ensures ParseStrVal([127] + b1) == ExtraMap.StrOf(ParseBytes(t, n))
    ensures TreeCodec.ParseStr([127] + b1) == TreeCodec.StrOf(ParseBytes(t, n))
  {
    hide ParseS16, ParseS32, ParseBytes;
    Cut([127], b1);
  }

  lemma EmptyMapRead(t: Bytes)
    ensures ParseExtra([]) == Some((Nil, [])) && ParseExtra([0] + t) == Some((Nil, t))
  {
    Cut([0], t);
  }

  /** Trees **/

  lemma TreeScalarForm(x8: s8, x16: s16, x32: s32, x64: s64, c: byte)
    ensures TreeCodec.Enc(TreeCodec.NullNode) == TreeCodec.Enc(TreeCodec.StrNode(None)) == [128]
    ensures TreeCodec.Enc(TreeCodec.BufNode(None)) == TreeCodec.Enc(TreeCodec.MapNode(TreeCodec.End)) == [128]
    ensures TreeCodec.Enc(TreeCodec.ListNode(TreeCodec.End)) == TreeCodec.Enc(TreeCodec.SetNode(TreeCodec.End)) == [128]
    ensures TreeCodec.Enc(TreeCodec.ByteNode(x8)) == [135, EncS8(x8)]
    ensures TreeCodec.Enc(TreeCodec.ShortNode(x16)) == [136] + EncS16(x16)
    ensures TreeCodec.Enc(TreeCodec.IntNode(x32)) == [137] + EncS32(x32)
    ensures TreeCodec.Enc(TreeCodec.LongNode(x64)) == [138] + EncS64(x64)
    ensures TreeCodec.Enc(TreeCodec.CharNode(c)) == [141, c]
    ensures TreeCodec.Enc(TreeCodec.BoolNode(true)) == [142, 1] && TreeCodec.Enc(TreeCodec.BoolNode(false)) == [142, 0]
  {
    hide EncS16, EncS32, EncS64;
  }

  // Strings and buffers as in maps.
  lemma TreeStrForm(s: Bytes)
    requires |s| < 0x1_0000
    ensures TreeCodec.Enc(TreeCodec.StrNode(Some(s))) == EncVal(StrVal(Some(s)))
    ensures TreeCodec.Enc(TreeCodec.BufNode(Some(s))) == EncVal(BufVal(Some(s)))
  {
    hide EncStrVal, EncU16;
  }

  // A collection: tag, 16-bit count, and the elements one behind the other.
  lemma TreeKeyedForm(c: TreeCodec.Chain)
    requires TreeCodec.SizedChain(c, true) && TreeCodec.Count(c) < 0x1_0000
    ensures var e := EncU16(TreeCodec.Count(c)) + TreeCodec.EncChain(c, true);
            && (c.Link? ==> TreeCodec.Enc(TreeCodec.MapNode(c)) == [134] + e)
            && TreeCodec.Enc(TreeCodec.ProxyNode(c)) == [148] + e
  {
    hide EncU16, TreeCodec.EncChain, TreeCodec.SizedChain;
  }

  lemma TreePlainForm(c: TreeCodec.Chain)
    requires TreeCodec.SizedChain(c, false) && TreeCodec.Count(c) < 0x1_0000 && c.Link?
    ensures var e := EncU16(TreeCodec.Count(c)) + TreeCodec.EncChain(c, false);
            TreeCodec.Enc(TreeCodec.ListNode(c)) == [132] + e && TreeCodec.Enc(TreeCodec.SetNode(c)) == [133] + e
  {
    hide EncU16, TreeCodec.EncChain, TreeCodec.SizedChain;
  }

  // An element has its key in front in maps and proxies only.
  lemma TreeLinkForm(c: TreeCodec.Chain, keyed: bool)
    requires TreeCodec.SizedChain(c, keyed) && c.Link?
    ensures TreeCodec.Sized(c.val) && TreeCodec.SizedChain(c.next, keyed)
    ensures keyed ==>
              && c.key.Some? && |c.key.value| < 0x1_0000
              && TreeCodec.EncChain(c, keyed)
                 == EncString(c.key.value) + (TreeCodec.Enc(c.val) + TreeCodec.EncChain(c.next, keyed))
    ensures !keyed ==> TreeCodec.EncChain(c, keyed) == TreeCodec.Enc(c.val) + TreeCodec.EncChain(c.next, keyed)
    ensures TreeCodec.EncChain(TreeCodec.End, keyed) == []
  {
    hide EncString, TreeCodec.Enc, TreeCodec.Sized;
    NoMore(TreeCodec.Enc(c.val) + TreeCodec.EncChain(c.next, keyed));
  }

  // As in maps; but a negative length byte stands for a length of over 65 thousand.
  lemma TreeReadForm(b: byte, n: byte, t: Bytes)
    ensures TreeCodec.ParseScalar(-114, [b] + t) == Some((TreeCodec.BoolNode(b != 0), t))
    ensures TreeCodec.ParseScalar(-111, EncU16(0) + t) == Some((TreeCodec.BufNode(None), t))
    ensures TreeCodec.ParseScalar(-113, [0] + t) == Some((TreeCodec.StrNode(Some([])), t))
    ensures n >= 128 ==> TreeCodec.ParseScalar(-113, [n] + t) == TreeCodec.StrOf(ParseBytes(t, 65280 + n))
  {
    hide EncU16, ParseU16, TreeCodec.ParseStr;
    Cut([b], t);
    ReadBack16(0, 0, t);
    TreeCodec.NegativeLen(0, t);
    if n >= 128 {
      TreeCodec.NegativeLen(n - 256, t);
    }
  }

  /** Pub/sub items **/

  // The type of the data stands in bits 5 and 6 of the flag.
  lemma DataBits(low: nat, kind: nat, high: nat)
    requires low < 32 && kind < 4 && high < 2
    ensures PubSubItem.DataType(low + 32 * kind + 128 * high) == kind
  {
  }

  // Type 1 is all the bytes left, type 3 a map, and 0 and 2 are strings.
  lemma DataForm(low: nat, kind: nat, high: nat, b: Bytes)
    requires low < 32 && kind < 4 && high < 2
    ensures var flag := low + 32 * kind + 128 * high;
            var d := PubSubItem.ParseOptData(true, flag, b);
            if kind == 1 then d == Some((if b == [] then PubSubItem.NoData else PubSubItem.BinData(b), []))
            else if kind == 3 then
              var p := ParseExtra(b);
              d == if p.None? then None
                   else Some((if p.value.0.Nil? then PubSubItem.NoData else PubSubItem.MapData(p.value.0), p.value.1))
            else
              var p := ParseString(b);
              d == if p.None? then None else Some((PubSubItem.Text(p.value.0), p.value.1))
  {
    hide ParseExtra, ParseString;
    DataBits(low, kind, high);
  }

  // What fits the type in a flag.
  lemma DataKinds(low: nat, kind: nat, high: nat, s: Bytes, m: Extra)
    requires low < 32 && kind < 4 && high < 2
    ensures var flag := low + 32 * kind + 128 * high;
            && PubSubItem.DataFits(flag, PubSubItem.NoData)
            && (PubSubItem.DataFits(flag, PubSubItem.Text(s)) <==> kind in {0, 2} && |s| < 0x1_0000)
            && (PubSubItem.DataFits(flag, PubSubItem.BinData(s)) <==> kind == 1 && |s| < 0x1_0000)
            && (PubSubItem.DataFits(flag, PubSubItem.MapData(m)) <==> kind == 3 && m.Node? && SizedMap(m, 1))
  {
    DataBits(low, kind, high);
  }

  function Ascii(t: string): Bytes
    requires forall i :: 0 <= i < |t| ==> t[i] as int < 128
  {
    seq(|t|, i requires 0 <= i < |t| => t[i] as int)
  }

  // The keys of the entries for UDP are numbers in decimal.
  lemma UdpKeys()
    ensures PubSubItem.SKEY_UDP_PORT == StrKey(Ascii("-111"))
    ensures PubSubItem.SKEY_UDP_HOST == StrKey(Ascii("-110"))
    ensures PubSubItem.SKEY_UDP_ACK == StrKey(Ascii("-109"))
  {
  }

  // One bit for each field that is there.
  lemma ItemBits(it: PubSubItem.Item)
    ensures PubSubItem.Marked(0, it) ==
            (if it.id != 0 then 1 else 0) | (if it.typ != 0 then 2 else 0)
            | (if it.topic.Some? then 4 else 0) | (if it.srcClientId != 0 then 8 else 0)
            | (if it.to != 0 then 16 else 0) | (if it.callback.Some? then 32 else 0)
            | (if it.cxt.Node? then 64 else 0) | (if it.data != PubSubItem.NoData then 128 else 0)
  {
  }

  // The bits, the flag and the sender, then the fields that are there in the
  // order of their bits.
  lemma ItemForm(f: bv8, it: PubSubItem.Item)
    requires PubSubItem.SizedItem(it)
    ensures PubSubItem.Enc(f, it)
            == [f as int, it.flag] + EncS32(it.fr)
               + (if it.id != 0 then EncS64(it.id) else [])
               + (if it.typ != 0 then [EncS8(it.typ)] else [])
               + (if it.topic.Some? then EncString(it.topic.value) else [])
               + (if it.srcClientId != 0 then EncS32(it.srcClientId) else [])
               + (if it.to != 0 then EncS32(it.to) else [])
               + (if it.callback.Some? then EncString(it.callback.value) else [])
               + (if it.cxt.Node? then EncExtra(it.cxt, 1) else [])
               + (match it.data
                  case NoData => []
                  case Text(s) => EncString(s)
                  case MapData(m) => EncExtra(m, 1)
                  case BinData(s) => EncU16(|s|) + s)
  {
    hide EncS8, EncS32, EncS64, EncU16, EncString, EncExtra;
    var a, b, c, d := EncS32(it.fr), PubSubItem.OptS64(it.id), PubSubItem.OptS8(it.typ), PubSubItem.OptStr(it.topic);
    var e, g, h := PubSubItem.OptS32(it.srcClientId), PubSubItem.OptS32(it.to), PubSubItem.OptStr(it.callback);
    var i, j := PubSubItem.OptMap(it.cxt), PubSubItem.OptData(it.flag, it.data);
    Unnest([f as int, it.flag], a, b, c, d, e + (g + (h + (i + j))));
    Unnest([f as int, it.flag] + a + b + c + d, e, g, h, i, j);
    hide PubSubItem.OptS64, PubSubItem.OptS32, PubSubItem.OptS8;
    hide PubSubItem.OptStr, PubSubItem.OptMap, PubSubItem.OptData;
  }

  // The string an item ends with, if it ends with one.
  function LastStr(it: PubSubItem.Item): Option<Bytes> {
    if it.data.Text? then Some(it.data.s)
    else if it.data != PubSubItem.NoData || it.cxt.Node? then None
    else if it.callback.Some? then it.callback
    else if it.to != 0 || it.srcClientId != 0 then None
    else it.topic
  }

  // The map it ends with.
  function LastMap(it: PubSubItem.Item): Extra {
    if it.data.MapData? then it.data.m else if it.data == PubSubItem.NoData then it.cxt else Nil
  }

  // An item goes into a buffer of 256 bytes.  An empty string at the end asks
  // for a byte to spare; the length byte of a string without characters, at the
  // end of a map, is left out without a word when there is no room.
  lemma SerializedForm(f: bv8, it: PubSubItem.Item)
    requires PubSubItem.SizedItem(it) && !it.data.BinData?
    ensures var e := PubSubItem.Enc(f, it);
            var out := PubSubItem.Serialized(f, it);
            var fits := CodableMap(it.cxt) && (it.data.MapData? ==> CodableMap(it.data.m));
            && (LastStr(it) == Some([]) ==> out == if fits && |e| < 256 then Some(e) else None)
            && (EndsLoose(LastMap(it)) ==>
                  out == if !fits || |e| > 257 then None else if |e| == 257 then Some(e[..256]) else Some(e))
            && (LastStr(it) != Some([]) && !EndsLoose(LastMap(it)) ==>
                  out == if fits && |e| <= 256 then Some(e) else None)
  {
    hide PubSubItem.Enc, PubSubItem.Serialized, CodableMap, SizedMap, LooseMap;
    PubSubItem.SerializedIff(f, it);
    LooseEnd(LastMap(it));
    var e := PubSubItem.Enc(f, it);
    assert |e| <= 256 ==> e[..|e|] == e;
  }

  // Its last value is a string of length 0, or 128 and above, modulo 256.
  predicate EndsLoose(m: Extra) {
    && m.Node?
    && var l := LastLeafIn(m);
       l.StrVal? && l.str.Some? && (|l.str.value| % 256 == 0 || |l.str.value| % 256 >= 128)
  }

  lemma LooseEnd(m: Extra)
    ensures LooseMap(m) <==> EndsLoose(m)
  {
    if m.Node? {
      LooseMapIff(m);
    }
  }

  // Binary data in a room of r bytes.
  lemma BinForm(s: Bytes, r: nat)
    requires |s| < 0x1_0000
    ensures r >= 2 + |s| ==> PubSubItem.BinOut(s, r) == Some(EncU16(|s|) + s)
    ensures r < 2 + |s| ==>
              PubSubItem.BinOut(s, r) == if s == [] || (|s| == 1 && r == 1) then Some(s) else None
  {
  }

  lemma Unnest(z: Bytes, a: Bytes, b: Bytes, c: Bytes, d: Bytes, e: Bytes)
    ensures z + (a + (b + (c + (d + e)))) == z + a + b + c + d + e
  {
    Assoc(z, a, b + (c + (d + e)));
    Assoc(z + a, b, c + (d + e));
    Assoc(z + a + b, c, d + e);
    Assoc(z + a + b + c, d, e);
  }

  /** Messages **/

  // The flag word as sent: bit 0 for a length of four bytes, bit 4 for a map,
  // all others as they were.
  lemma SentFlagForm(flag: u16, hasMap: bool, len: nat)
    ensures var f := Message.SentFlag(flag, hasMap, len);
            && f % 2 == (if len > 32767 then 1 else 0)
            && f / 16 % 2 == (if hasMap then 1 else flag / 16 % 2)
            && f % 16 / 2 == flag % 16 / 2 && f / 32 == flag / 32
  {
  }

  // A flag entry other than 0 goes into the map under the key -118.
  lemma FlagEntry(m: Message.MsgVal, x: Extra)
    ensures m.extrFlag == 0 ==> Message.WireExtra(m) == m.extra
    ensures m.extrFlag != 0 ==>
              var w := Message.WireExtra(m); w.Node? && w.key == NumKey(-118) && w.val == IntVal(m.extrFlag)
    ensures Message.FlagIn(x) ==
              match ExtraLookup.Get(x, NumKey(-118))
              case None => Some(0)
              case Some(v) => if v.IntVal? then Some(v.x32) else None
  {
  }

  // Flag word, length of map and payload in two or four bytes, type, id, map
  // with byte keys, payload.
  lemma FrameForm(m: Message.MsgVal)
    requires Message.Sendable(m)
    ensures var x := Message.WireExtra(m);
            var map_ := if x.Nil? then [] else EncExtra(x, 0);
            var n := |map_| + |m.payload|;
            && |map_| < 512 && n < 0x1_0000 + 512
            && Message.Frame(m)
               == EncU16(Message.SentFlag(m.flag, x.Node?, n))
                  + (if n <= 32767 then EncS16(n) else EncS32(n))
                  + [m.typ] + EncS64(m.msgId) + map_ + m.payload
            && |Message.Frame(m)| == (if n <= 32767 then 13 else 15) + n
  {
    hide Message.SentFlag, EncU16, EncS16, EncS32, EncS64, EncExtra;
    hide SafeMap, SizedMap, Message.FlagIn, Message.WireExtra;
    var x := Message.WireExtra(m);
    var e := Message.ExtBytes(x);
    var n := |e| + |m.payload|;
    Unnest(EncU16(Message.SentFlag(m.flag, x.Node?, n)), Message.LenField(n), [m.typ], EncS64(m.msgId), e, []);
    NoMore(e);
    hide Message.LenField;
  }

  // The map is packed apart into 512 bytes, of which 512 count as none.  It may
  // have one byte more if the last is the length byte of a string without
  // characters, which is then lost.
  lemma PackForm(x: Extra, payload: Bytes)
    requires SizedMap(x, 0) && x.Node?
    ensures var n := |EncExtra(x, 0)|;
            Message.Packable(x) <==> CodableMap(x) && (n <= 512 || (n == 513 && EndsLoose(x)))
    ensures var e := EncExtra(x, 0);
            if |e| < 512 then Message.ExtOut(x) == e && Message.ClaimedLen(x, payload) == |e| + |payload|
            else Message.ExtOut(x) == e[..512] && Message.ClaimedLen(x, payload) == |payload|
    ensures Message.Packable(Nil) && Message.ExtOut(Nil) == [] && Message.ClaimedLen(Nil, payload) == |payload|
  {
    hide EncExtra;
    LooseEnd(x);
  }
}
