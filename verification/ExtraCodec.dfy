/**
 extra_encode and extra_decode of jm_msg.c, working on a ring.

 The encoder leaves some writes unchecked.  Its contract therefore says for
 every amount of room what is written and what is reported.
 */
module ExtraCodec {
  import opened Wire
  import opened ByteRing
  import opened ExtraMap

  /** What a sequence of writes leaves behind **/

  // e was to be written where there was room for r bytes.  `loose` says that
  // its last byte is written without looking at the result.
  ghost predicate Wrote(before: Bytes, after: Bytes, r: nat, e: Bytes, loose: bool, ok: bool)
  {
    && Partial(before, after, e)
    && |after| - |before| <= r
    && (ok <==> |e| <= r || (loose && |e| == r + 1))
    && (ok ==> |after| - |before| == Min(|e|, r))
  }

  // What was queued before stays in front.
  lemma WroteExtends(before: Bytes, after: Bytes, r: nat, e: Bytes, loose: bool, ok: bool)
    requires Wrote(before, after, r, e, loose, ok)
    ensures before <= after
  {
  }

  lemma WroteThen(before: Bytes, mid: Bytes, after: Bytes, r: nat,
                  e: Bytes, loose: bool, f: Bytes, loose': bool, ok: bool)
    requires Wrote(before, mid, r, e, loose, true)
    requires Wrote(mid, after, r - (|mid| - |before|), f, loose', ok)
    requires |f| >= 2 || !loose
    ensures f != [] ==> Wrote(before, after, r, e + f, loose', ok)
    ensures f == [] && after == mid ==> Wrote(before, after, r, e + f, loose, true)
  {
    if |e| <= r {
      assert mid == before + e;
      assert (e + f)[..|after| - |before|] == e + f[..|after| - |mid|];
    } else {
      assert (e + f)[..r] == e[..r];
    }
  }

  lemma WroteFailed(before: Bytes, after: Bytes, r: nat, e: Bytes, loose: bool, f: Bytes, loose': bool)
    requires Wrote(before, after, r, e, loose, false)
    requires f != []
    ensures Wrote(before, after, r, e + f, loose', false)
  {
    assert (e + f)[..|after| - |before|] == e[..|after| - |before|];
  }

  // The last value's final byte is an unchecked length byte with nothing after it.
  ghost predicate Loose(v: Val) {
    match v
    case StrVal(s) => s.Some? && ShortLen(s.value) <= 0
    case MapVal(m) => LooseMap(m)
    case _ => false
  }

  ghost predicate LooseMap(m: Extra) {
    m.Node? && (if m.next.Nil? then Loose(m.val) else LooseMap(m.next))
  }

  // The last value of the last map inside v, which is what is written last.
  function LastLeaf(v: Val): Val {
    if v.MapVal? && v.map_.Node? then LastLeafIn(v.map_) else v
  }

  function LastLeafIn(m: Extra): Val
    requires m.Node?
  {
    if m.next.Nil? then LastLeaf(m.val) else LastLeafIn(m.next)
  }

  // Its last byte is unchecked exactly when it is a string whose length is 0 or
  // at least 128 modulo 256.
  lemma {:induction false} LooseIff(v: Val)
    ensures var l := LastLeaf(v);
            Loose(v) <==> l.StrVal? && l.str.Some? && (|l.str.value| % 256 == 0 || |l.str.value| % 256 >= 128)
    decreases v
  {
    if v.MapVal? && v.map_.Node? {
      LooseMapIff(v.map_);
    }
  }

  lemma {:induction false} LooseMapIff(m: Extra)
    requires m.Node?
    ensures var l := LastLeafIn(m);
            LooseMap(m) <==> l.StrVal? && l.str.Some? && (|l.str.value| % 256 == 0 || |l.str.value| % 256 >= 128)
    decreases m
  {
    if m.next.Nil? {
      LooseIff(m.val);
    } else {
      LooseMapIff(m.next);
    }
  }

  /** Encoding **/

  // The length prefix of a string value; no result is looked at.
  method EncodeStrLen(len: s8, b: Ring) returns (ghost h: Bytes)
    requires b.Valid()
    modifies b`wpos, b`status, b.data
    ensures b.Valid()
    ensures h == if len < MAX_BYTE_VALUE then [EncS8(len)] else [MAX_BYTE_VALUE] + EncS16(len)
    ensures Partial(old(b.Contents()), b.Contents(), h)
    ensures old(b.Room()) >= |h| ==> b.Contents() == old(b.Contents()) + h
    ensures old(b.Room()) < |h| ==> b.Room() < 2
    ensures old(b.Room()) == 0 ==> b.Contents() == old(b.Contents())
  {
    hide Ring.Contents, Ring.ReadableLen, EncS16;
    ghost var q := b.Contents();
    if len < MAX_BYTE_VALUE {
      h := [EncS8(len)];
      var _ := b.PutS8(len);
    } else {
      h := [MAX_BYTE_VALUE] + EncS16(len);
      var first := b.PutS8(MAX_BYTE_VALUE);
      ghost var mid := b.Contents();
      var _ := b.PutS16(len);
      if first {
        PartialAfter(q, mid, b.Contents(), [MAX_BYTE_VALUE], EncS16(len));
      }
    }
  }

  method EncodeStr(s: Bytes, b: Ring) returns (ok: bool)
    requires b.Valid() && |s| < 0x1_0000
    modifies b`wpos, b`status, b.data
    ensures b.Valid()
    ensures Wrote(old(b.Contents()), b.Contents(), old(b.Room()), EncStrVal(s), ShortLen(s) <= 0, ok)
  {
    hide Ring.Contents, Ring.ReadableLen, EncS16;
    var u := |s| % 256;
    var len := if u >= 128 then u - 256 else u;
    ghost var q := b.Contents();
    ghost var h := EncodeStrLen(len, b);
    if len > 0 {
      ghost var mid := b.Contents();
      EncStrValParts(s, h);
      ok := b.PutBytes(s[..len]);
      PartialOfFirst(q, mid, h, s[..len]);
      if ok {
        PartialAfter(q, mid, b.Contents(), h, s[..len]);
      }
      if !ok { return; }
    }
    ok := true;
  }

  lemma EncStrValParts(s: Bytes, h: Bytes)
    requires ShortLen(s) > 0
    requires h == if ShortLen(s) < MAX_BYTE_VALUE then [EncS8(ShortLen(s))] else [MAX_BYTE_VALUE] + EncS16(ShortLen(s))
    ensures EncStrVal(s) == h + s[..ShortLen(s)]
    ensures |h| == if ShortLen(s) < MAX_BYTE_VALUE then 1 else 3
  {
    hide EncS16;
    Assoc([MAX_BYTE_VALUE], EncS16(ShortLen(s)), s[..ShortLen(s)]);
  }

  method EncodeBuf(s: Bytes, b: Ring) returns (ok: bool)
    requires b.Valid() && |s| < 0x1_0000
    modifies b`wpos, b`status, b.data
    ensures b.Valid()
    ensures s == [] ==> !ok && old(b.Contents()) <= b.Contents()
    ensures s != [] ==> Wrote(old(b.Contents()), b.Contents(), old(b.Room()), EncU16(|s|) + s, false, ok)
  {
    hide Ring.Contents, Ring.ReadableLen, EncU16;
    ghost var q := b.Contents();
    if |s| <= 0 {
      var _ := b.PutU16(0);
      return false;
    }
    ok := b.PutU16(|s|);
    if !ok { return; }
    ok := b.PutBytes(s);
    Assoc(q, EncU16(|s|), s);
  }

  lemma WroteOne(before: Bytes, after: Bytes, r: nat, e: Bytes, ok: bool)
    requires ok <==> r >= |e|
    requires after == if ok then before + e else before
    ensures Wrote(before, after, r, e, false, ok)
  {
  }

  method EncodeScalar(v: Val, b: Ring) returns (ok: bool)
    requires b.Valid() && !v.StrVal? && !v.BufVal? && !v.MapVal? && Sized(v)
    modifies b`wpos, b`status, b.data
    ensures b.Valid()
    ensures Wrote(old(b.Contents()), b.Contents(), old(b.Room()), EncPayload(v), false, ok)
  {
    hide Ring.Contents, Ring.ReadableLen, EncS8, EncS16, EncS32, EncS64, Wrote;
    ghost var q := b.Contents();
    match v {
      case NullVal => ok := true;
      case IntVal(x) => ok := b.PutS32(x);
      case ByteVal(x) => ok := b.PutS8(x);
      case ShortVal(x) => ok := b.PutS16(x);
      case LongVal(x) => ok := b.PutS64(x);
      case BoolVal(x) => ok := b.PutU8(if x then 1 else 0);
      case CharVal(c) => ok := b.PutU8(c);
    }
    assert q + [] == q;
    WroteOne(q, b.Contents(), old(b.Room()), EncPayload(v), ok);
  }

  // extra_encodeVal: the value behind its tag.
  method EncodePayload(v: Val, b: Ring) returns (ok: bool)
    requires b.Valid() && Sized(v)
    modifies b`wpos, b`status, b.data
    ensures b.Valid()
    ensures Codable(v) ==> Wrote(old(b.Contents()), b.Contents(), old(b.Room()), EncPayload(v), Loose(v), ok)
    ensures !Codable(v) ==> !ok
    decreases v, 0
  {
    hide Ring.Contents, Ring.ReadableLen, EncU16, EncStrVal, EncExtra, Wrote;
    WroteNothing(b.Contents(), b.Room());
    if v.BufVal? {
      if v.buf.None? { return true; }
      ok := EncodeBuf(v.buf.value, b);
    } else if v.StrVal? {
      if v.str.None? { return true; }
      ok := EncodeStr(v.str.value, b);
    } else if v.MapVal? {
      var wl;
      ok, wl := EncodeExtra(v.map_, b, KEY_TYPE_STRING);
    } else {
      ok := EncodeScalar(v, b);
    }
  }

  method EncodeKey(k: Key, kt: byte, b: Ring) returns (ok: bool)
    requires b.Valid() && KeyFits(k, kt)
    modifies b`wpos, b`status, b.data
    ensures b.Valid()
    ensures Partial(old(b.Contents()), b.Contents(), EncKey(k, kt))
    ensures ok ==> b.Contents() == old(b.Contents()) + EncKey(k, kt)
    ensures old(b.Room()) > |EncKey(k, kt)| ==> ok
    ensures old(b.Room()) < |EncKey(k, kt)| ==> !ok
  {
    hide Ring.Contents, Ring.ReadableLen, EncS8, EncString, EncLen;
    if kt == KEY_TYPE_STRING {
      ok := b.WriteString(Some(k.s));
    } else {
      ok := b.PutS8(k.k);
    }
  }

  // One turn of the loop: key, tag, value.
  method EncodeEntry(k: Key, v: Val, kt: byte, b: Ring) returns (ok: bool)
    requires b.Valid() && KeyFits(k, kt) && Sized(v)
    modifies b`wpos, b`status, b.data
    ensures b.Valid()
    ensures Codable(v) ==> Wrote(old(b.Contents()), b.Contents(), old(b.Room()), EncKey(k, kt) + EncVal(v), Loose(v), ok)
    ensures !Codable(v) ==> !ok
    decreases v, 1
  {
    hide Ring.Contents, Ring.ReadableLen, EncKey, EncPayload, Codable, Loose;
    ghost var q, r, e, t := b.Contents(), b.Room(), EncKey(k, kt), [EncS8(Tag(v))];
    LooseHasPayload(v);
    ok := EncodeKey(k, kt, b);
    ghost var q1 := b.Contents();
    PartialOfFirst(q, q1, e, EncVal(v));
    if !ok { return; }
    ok := b.PutS8(Tag(v));
    ghost var q2 := b.Contents();
    PartialAfter(q, q1, q2, e, t);
    PartialOfFirst(q, q2, e + t, EncPayload(v));
    Assoc(e, t, EncPayload(v));
    if !ok { return; }
    assert Wrote(q, q2, r, e + t, false, true);
    ok := EncodePayload(v, b);
    if Codable(v) {
      PayloadAfterTag(q, q2, b.Contents(), r, e + t, EncPayload(v), Loose(v), ok);
    }
  }

  lemma LooseHasPayload(v: Val)
    requires Sized(v)
    ensures Loose(v) ==> |EncPayload(v)| > 0
  {
  }

  lemma PayloadAfterTag(before: Bytes, mid: Bytes, after: Bytes, r: nat, e: Bytes, f: Bytes, loose: bool, ok: bool)
    requires mid == before + e && |e| <= r
    requires Wrote(mid, after, r - |e|, f, loose, ok)
    ensures Wrote(before, after, r, e + f, loose, ok)
  {
    assert (e + f)[..|after| - |before|] == e + f[..|after| - |mid|];
  }

  method CountNodes(m: Extra) returns (eleCnt: nat)
    ensures eleCnt == Count(m)
  {
    eleCnt := 0;
    var te := m;
    while te.Node?
      invariant eleCnt + Count(te) == Count(m)
      decreases te
    {
      eleCnt := eleCnt + 1;
      te := te.next;
    }
  }

  // The loop over the nodes.
  method EncodeNodes(m: Extra, b: Ring, kt: byte) returns (ok: bool)
    requires b.Valid() && SizedMap(m, kt)
    modifies b`wpos, b`status, b.data
    ensures b.Valid()
    ensures CodableMap(m) ==>
              Wrote(old(b.Contents()), b.Contents(), old(b.Room()), EncEntries(m, kt), LooseMap(m), ok)
    ensures !CodableMap(m) ==> !ok
    decreases m, 2
  {
    hide Ring.Contents, Ring.ReadableLen, EncKey, EncVal, Codable, Loose, Wrote;
    ghost var q, r := b.Contents(), b.Room();
    ghost var done: Bytes, loose := [], false;
    WroteNothing(q, r);
    var l := m;
    while l.Node?
      invariant b.Valid() && (l == m || l < m) && SizedMap(l, kt)
      invariant CodableMap(m) <==> CodableMap(l)
      invariant done + EncEntries(l, kt) == EncEntries(m, kt)
      invariant Wrote(q, b.Contents(), r, done, loose, true)
      invariant if l.Node? then LooseMap(l) == LooseMap(m) else loose == LooseMap(m)
      invariant b.Room() == r - (|b.Contents()| - |q|)
      decreases l
    {
      ghost var q1, e, f := b.Contents(), EncKey(l.key, kt) + EncVal(l.val), EncEntries(l.next, kt);
      Assoc(EncKey(l.key, kt), EncVal(l.val), f);
      Assoc(done, e, f);
      ok := EncodeEntry(l.key, l.val, kt, b);
      if Codable(l.val) {
        WroteThen(q, q1, b.Contents(), r, done, loose, e, Loose(l.val), ok);
      }
      if !ok {
        if CodableMap(m) {
          FailedEarly(q, b.Contents(), r, done + e, Loose(l.val), f, LooseMap(m), l.next.Nil?);
        }
        return;
      }
      done := done + e;
      loose := Loose(l.val);
      l := l.next;
    }
    assert done + [] == done;
    ok := true;
  }

  lemma WroteNothing(q: Bytes, r: nat)
    ensures Wrote(q, q, r, [], false, true)
  {
  }

  lemma FailedEarly(q: Bytes, after: Bytes, r: nat, e: Bytes, loose: bool, f: Bytes, loose': bool, last: bool)
    requires Wrote(q, after, r, e, loose, false)
    requires if last then f == [] && loose == loose' else f != []
    ensures Wrote(q, after, r, e + f, loose', false)
  {
    if last {
      assert e + f == e;
    } else {
      WroteFailed(q, after, r, e, loose, f, loose');
    }
  }

  // The count is written unchecked, the key type is not.
  method PutHead(count: byte, kt: byte, b: Ring) returns (ok: bool)
    requires b.Valid()
    modifies b`wpos, b`status, b.data
    ensures b.Valid() && (ok <==> old(b.Room()) >= 2)
    ensures Partial(old(b.Contents()), b.Contents(), [count, kt])
    ensures ok ==> b.Contents() == old(b.Contents()) + [count, kt]
    ensures !ok ==> |b.Contents()| - |old(b.Contents())| == old(b.Room())
  {
    hide Ring.Contents, Ring.ReadableLen;
    var _ := b.PutU8(count);
    ok := b.PutU8(kt);
  }

  lemma HeadFailed(q: Bytes, after: Bytes, r: nat, head: Bytes, f: Bytes, loose: bool)
    requires Partial(q, after, head) && |after| - |q| == r < |head| == 2 && f != []
    ensures Wrote(q, after, r, head + f, loose, false)
  {
    PartialOfFirst(q, after, head, f);
  }

  // wl is the distance the write position moved, taken round the ring.
  method EncodeExtra(m: Extra, b: Ring, kt: byte) returns (ok: bool, wl: nat)
    requires b.Valid() && SizedMap(m, kt)
    modifies b`wpos, b`status, b.data
    ensures b.Valid()
    ensures m.Nil? || !CodableMap(m) ==> !ok
    ensures m.Node? && CodableMap(m) ==>
              Wrote(old(b.Contents()), b.Contents(), old(b.Room()), EncExtra(m, kt), LooseMap(m), ok)
    ensures ok ==> wl == var n := |b.Contents()| - |old(b.Contents())|; if n < b.capacity then n else 0
    decreases m, 3
  {
    hide Ring.Contents, Ring.ReadableLen, Ring.WriteableLen, Advance, EncEntries, CodableMap, LooseMap, Wrote;
    if m.Nil? { return false, 0; }
    b.Accounting();
    wl := 0;
    var wpos := b.wpos;
    var eleCnt := CountNodes(m);
    ghost var q, r, head: Bytes := b.Contents(), b.Room(), [Count(m) % 256, kt];
    ok := PutHead(eleCnt % 256, kt, b);
    ghost var q1 := b.Contents();
    NonEmptyEntries(m, kt);
    if !ok {
      HeadFailed(q, q1, r, head, EncEntries(m, kt), LooseMap(m));
      return;
    }
    ok := EncodeNodes(m, b, kt);
    if CodableMap(m) {
      PayloadAfterTag(q, q1, b.Contents(), r, head, EncEntries(m, kt), LooseMap(m), ok);
    }
    if !ok { return; }
    WroteGrows(q, b.Contents(), r, EncExtra(m, kt), LooseMap(m), ok);
    b.Accounting();
    Distance(b.rpos, |q|, |b.Contents()|, b.capacity);
    wl := if b.wpos >= wpos then b.wpos - wpos else b.capacity - (wpos - b.wpos);
  }

  lemma WroteGrows(q: Bytes, after: Bytes, r: nat, e: Bytes, loose: bool, ok: bool)
    requires Wrote(q, after, r, e, loose, ok)
    ensures |q| <= |after|
  {
  }

  // The modular difference of two write positions counts the bytes between
  // them, except that a whole capacity counts as none.
  lemma Distance(p: nat, n0: nat, n: nat, c: nat)
    requires p < c && n0 <= n <= c
    ensures var w0, w := Advance(p, n0, c), Advance(p, n, c);
            (if w >= w0 then w - w0 else c - (w0 - w)) == if n - n0 < c then n - n0 else 0
  {
  }

  lemma NonEmptyEntries(m: Extra, kt: byte)
    requires SizedMap(m, kt) && m.Node?
    ensures |EncEntries(m, kt)| >= 2
  {
  }

  /** Decoding **/

  method DecodeStr(b: Ring) returns (v: Val)
    requires b.Valid() && ParseStrVal(b.Contents()).Some?
    modifies b`rpos, b`status
    ensures b.Valid() && ParseStrVal(old(b.Contents())) == Some((v, b.Contents()))
  {
    hide Ring.Contents, Ring.ReadableLen, ParseS16, ParseS32, DecS8;
    var _, len := b.GetS8();
    if len == -1 { return StrVal(None); }
    if len == 0 { return StrVal(Some([])); }
    var ilen: s32 := len;
    if len == MAX_BYTE_VALUE {
      var _, slen := b.GetS16();
      ilen := slen;
      if slen == MAX_SHORT_VALUE {
        var _, slen32 := b.GetS32();
        ilen := slen32;
      }
    }
    var _, s := b.GetBytes(ilen);
    v := StrVal(Some(s));
  }

  method DecodeBuf(b: Ring) returns (v: Val)
    requires b.Valid() && ParseBufVal(b.Contents()).Some?
    modifies b`rpos, b`status
    ensures b.Valid() && ParseBufVal(old(b.Contents())) == Some((v, b.Contents()))
  {
    hide Ring.Contents, Ring.ReadableLen, ParseS16;
    var _, len := b.GetS16();
    if len == 0 { return BufVal(None); }
    var _, s := b.GetBytes(len);
    v := BufVal(Some(s));
  }

  // extra_decodeVal, behind the tag.
  method DecodePayload(t: s8, b: Ring) returns (v: Val)
    requires b.Valid() && ParsePayload(t, b.Contents()).Some?
    modifies b`rpos, b`status
    ensures b.Valid() && ParsePayload(t, old(b.Contents())) == Some((v, b.Contents()))
    decreases |b.Contents()|, 1
  {
    hide Ring.Contents, Ring.ReadableLen, ParseBufVal, ParseStrVal, ParseExtra, ParseS8, ParseS16, ParseS32, ParseS64;
    if t == TYPE_NULL {
      v := NullVal;
    } else if t == TYPE_BYTEBUFFER {
      v := DecodeBuf(b);
    } else if t == TYPE_INT {
      var _, x := b.GetS32();
      v := IntVal(x);
    } else if t == TYPE_BYTE {
      var _, x := b.GetS8();
      v := ByteVal(x);
    } else if t == TYPE_SHORT {
      var _, x := b.GetS16();
      v := ShortVal(x);
    } else if t == TYPE_LONG {
      var _, x := b.GetS64();
      v := LongVal(x);
    } else if t == TYPE_BOOLEAN {
      var _, x := b.GetBool();
      v := BoolVal(x);
    } else if t == TYPE_CHAR {
      var _, x := b.GetU8();
      v := CharVal(x);
    } else if t == TYPE_STRING {
      v := DecodeStr(b);
    } else {
      var m := DecodeExtra(b);
      v := MapVal(m);
    }
  }

  method DecodeVal(b: Ring) returns (v: Val)
    requires b.Valid() && ParseVal(b.Contents()).Some?
    modifies b`rpos, b`status
    ensures b.Valid() && ParseVal(old(b.Contents())) == Some((v, b.Contents()))
    decreases |b.Contents()|, 2
  {
    hide Ring.Contents, Ring.ReadableLen, ParsePayload, DecS8;
    var _, t := b.GetS8();
    v := DecodePayload(t, b);
  }

  method DecodeKey(b: Ring, kt: byte) returns (k: Key)
    requires b.Valid() && ParseKey(b.Contents(), kt).Some?
    modifies b`rpos, b`status
    ensures b.Valid() && ParseKey(old(b.Contents()), kt) == Some((k, b.Contents()))
  {
    b.Accounting();
    hide Ring.Contents, Ring.ReadableLen, ParseString, ParseS8;
    if kt == KEY_TYPE_STRING {
      var _, p := b.ReadString();
      k := StrKey(p);
    } else {
      var _, n := b.GetS8();
      k := NumKey(n);
    }
  }

  // Each entry goes in front of the entries read before it.
  method DecodeNodes(n: nat, kt: byte, b: Ring) returns (m: Extra)
    requires b.Valid() && ParseEntries(b.Contents(), n, kt, Nil).Some?
    modifies b`rpos, b`status
    ensures b.Valid() && ParseEntries(old(b.Contents()), n, kt, Nil) == Some((m, b.Contents()))
    decreases |b.Contents()|, 3
  {
    hide Ring.Contents, Ring.ReadableLen, ParseKey, ParseVal;
    ghost var q := b.Contents();
    var eleLen := n;
    m := Nil;
    while eleLen > 0
      invariant b.Valid() && 0 <= eleLen && |b.Contents()| <= |q|
      invariant ParseEntries(q, n, kt, Nil) == ParseEntries(b.Contents(), eleLen, kt, m)
    {
      eleLen := eleLen - 1;
      var k := DecodeKey(b, kt);
      var v := DecodeVal(b);
      m := Node(k, v, m);
    }
  }

  method DecodeExtra(b: Ring) returns (m: Extra)
    requires b.Valid() && ParseExtra(b.Contents()).Some?
    modifies b`rpos, b`status
    ensures b.Valid() && ParseExtra(old(b.Contents())) == Some((m, b.Contents()))
    decreases |b.Contents()|, 0
  {
    b.Accounting();
    hide Ring.Contents, Ring.ReadableLen, ParseEntries;
    if b.IsEmpty() { return Nil; }
    var _, eleLen := b.GetU8();
    if eleLen == 0 { return Nil; }
    var _, kt := b.GetU8();
    m := DecodeNodes(eleLen, kt, b);
  }
}
