/**
 What a receiver makes of the bytes that client_encodeExtra reports as written.
 For every tree and every room a ring can have, it gets the tree exactly when
 the tree can be coded, fits, and has no over-long string.
 */
module TreeDelivery {
  import opened Wire
  import opened ByteRing
  import ExtraMap
  import opened TreeCodec

  /** How many bytes a tree takes at least **/

  function Least(t: Tree): nat
    decreases t, 1
  {
    match t
    case StrNode(s) => if s.Some? then 1 + |s.value| else 1
    case BufNode(s) => if s.Some? then 1 + |s.value| else 1
    case MapNode(c) => 1 + LeastChain(c, true)
    case ProxyNode(c) => 1 + LeastChain(c, true)
    case ListNode(c) => 1 + LeastChain(c, false)
    case SetNode(c) => 1 + LeastChain(c, false)
    case _ => 1
  }

  function LeastChain(c: Chain, keyed: bool): nat
    decreases c, 0
  {
    if c.End? then 0
    else (if keyed && c.key.Some? then 1 + |c.key.value| else 0) + Least(c.val) + LeastChain(c.next, keyed)
  }

  lemma StringTakes(b: Bytes)
    ensures ParseString(b).Some? ==> |b| >= |ParseString(b).value.1| + 1 + |ParseString(b).value.0|
  {
    hide DecU16, DecU32;
  }

  lemma ScalarTakes(ty: s8, b: Bytes)
    ensures var p := ParseScalar(ty, b); p.Some? ==> 1 + |b| >= |p.value.1| + Least(p.value.0)
  {
    hide DecS8, DecS16, DecS32, DecS64, DecU16;
  }

  lemma {:induction false} TreeTakes(b: Bytes)
    ensures Parse(b).Some? ==> |b| >= |Parse(b).value.1| + Least(Parse(b).value.0)
    decreases |b|, 2
  {
    hide DecS8, DecU16, ParseScalar, ParseChain;
    if b == [] {
    } else {
      var ty, b1 := DecS8(b[0]), b[1..];
      if ty in {ExtraMap.TYPE_MAP, TYPE_PROXY, TYPE_LIST, TYPE_SET} {
        if |b1| >= 2 {
          ChainTakes(b1[2..], DecU16(b1[..2]), ty in {ExtraMap.TYPE_MAP, TYPE_PROXY});
        }
      } else {
        ScalarTakes(ty, b1);
      }
    }
  }

  lemma {:induction false} ChainTakes(b: Bytes, n: nat, keyed: bool)
    ensures var p := ParseChain(b, n, keyed); p.Some? ==> |b| >= |p.value.1| + LeastChain(p.value.0, keyed)
    decreases |b|, 4, n
  {
    hide Parse, ParseString, Least;
    if n == 0 {
    } else {
      StringTakes(b);
      var k := ParseKey(b, keyed);
      if k.Some? {
        LinkTakes(k.value.1, n, keyed, k.value.0);
      }
    }
  }

  lemma {:induction false} LinkTakes(b: Bytes, n: nat, keyed: bool, k: Option<Bytes>)
    requires n > 0
    ensures var p := ParseLink(b, n, keyed, k);
            p.Some? ==>
              p.value.0.Link? && p.value.0.key == k
              && |b| >= |p.value.1| + Least(p.value.0.val) + LeastChain(p.value.0.next, keyed)
    decreases |b|, 3
  {
    hide Parse, ParseString, Least, LeastChain, ParseChain;
    TreeTakes(b);
    if Parse(b).Some? {
      ChainTakes(Parse(b).value.1, n - 1, keyed);
    }
  }

  /** Strings that a negative length byte could be taken for **/

  predicate Huge(t: Tree) {
    match t
    case StrNode(s) => s.Some? && |s.value| >= 65408
    case MapNode(c) => HugeIn(c)
    case ProxyNode(c) => HugeIn(c)
    case ListNode(c) => HugeIn(c)
    case SetNode(c) => HugeIn(c)
    case _ => false
  }

  predicate HugeIn(c: Chain) {
    c.Link? && (Huge(c.val) || HugeIn(c.next))
  }

  function HugeGap(on: bool): nat {
    if on then 585000 else 0
  }

  // The encoding is not much longer than it must be, and far shorter when a
  // huge string was cut short in it.
  lemma {:induction false} EncAtMost(t: Tree)
    requires Sized(t)
    ensures |Enc(t)| + HugeGap(Huge(t)) <= 9 * Least(Normal(t))
    decreases t, 1
  {
    hide EncS8, EncS16, EncS32, EncS64, EncU16, TypeOf;
    if IsColl(t) && !IsNullPtr(t) {
      CollValue(t);
      ToldOfColl(t, 1);
      hide EncChain, Enc, LeastChain, HugeIn, SizedChain, Told, ToldColl;
      EncChainAtMost(Below(t), Keyed(t));
    }
  }

  lemma {:induction false} EncChainAtMost(c: Chain, keyed: bool)
    requires SizedChain(c, keyed)
    ensures |EncChain(c, keyed)| + HugeGap(HugeIn(c)) <= 9 * LeastChain(NormalChain(c, keyed), keyed)
    decreases c, 0
  {
    hide Enc, Least, Huge, Normal, EncU16, EncU32;
    if c.End? {
    } else {
      EncAtMost(c.val);
      EncChainAtMost(c.next, keyed);
    }
  }

  // No huge string comes back from the 65535 bytes a ring can hold.
  lemma NothingHuge(t: Tree, b: Bytes)
    requires Sized(t) && |b| <= |Enc(t)| && |b| < 0x1_0000 && Parse(b) == Some((Normal(t), []))
    ensures !Huge(t)
  {
    hide Enc, Parse, Least, Huge, Normal;
    EncAtMost(t);
    TreeTakes(b);
  }

  /** Only such trees come back **/

  lemma {:induction false} TreeBack(t: Tree, r: nat, tail: Bytes)
    requires Sized(t) && !Huge(t) && Told(t, r).Some? && |Told(t, r).value| + |tail| <= r
    requires var p := Parse(Told(t, r).value + tail); p.Some? && p.value.0 == Normal(t)
    ensures Safe(t) && Told(t, r).value == Enc(t)
    ensures Parse(Told(t, r).value + tail) == Some((Normal(t), tail))
    decreases t, 1
  {
    hide Told, Enc, Parse, Normal, EncChain, ToldChain, Huge, Safe;
    if IsColl(t) && !IsNullPtr(t) {
      CollBack(t, r, tail);
    } else {
      LeafBack(t, r, tail);
    }
  }

  lemma LeafBack(t: Tree, r: nat, tail: Bytes)
    requires Sized(t) && !Huge(t) && (!IsColl(t) || IsNullPtr(t))
    requires Told(t, r).Some? && |Told(t, r).value| + |tail| <= r
    requires var p := Parse(Told(t, r).value + tail); p.Some? && p.value.0 == Normal(t)
    ensures Safe(t) && Told(t, r).value == Enc(t)
    ensures Parse(Told(t, r).value + tail) == Some((Normal(t), tail))
  {
    hide EncS8, DecS8, ParseValue, ParseStr, ExtraMap.EncStrVal;
    if Loose(t) && r == 1 {
      LooseLosesItsLength(t);
      NoMore([EncS8(TypeOf(t))]);
      TagAlone(t);
    } else {
      LeafWhole(t, r);
      if t.StrNode? && t.str.Some? {
        var e := ExtraMap.EncStrVal(t.str.value);
        Assoc([EncS8(ExtraMap.TYPE_STRING)], e, tail);
        ReadBack8(ExtraMap.TYPE_STRING, e + tail);
        StrSurvivesIff(t.str.value, tail);
        StringValue(e + tail);
      }
      TreeRoundTrip(t, tail);
    }
  }

  lemma StringValue(b: Bytes)
    ensures ParseValue(ExtraMap.TYPE_STRING, b) == ParseStr(b)
  {
    hide ParseStr;
  }

  lemma LeafWhole(t: Tree, r: nat)
    requires Sized(t) && (!IsColl(t) || IsNullPtr(t)) && Told(t, r).Some? && !(Loose(t) && r == 1)
    ensures Told(t, r).value == Enc(t) && Codable(t)
  {
    hide EncS8, TypeOf;
    if IsNullPtr(t) {
      NullPtrCodable(t);
    } else {
      assert EncValue(t)[..|EncValue(t)|] == EncValue(t);
    }
  }

  lemma {:induction false} CollBack(t: Tree, r: nat, tail: Bytes)
    requires Sized(t) && !Huge(t) && IsColl(t) && !IsNullPtr(t)
    requires Told(t, r).Some? && |Told(t, r).value| + |tail| <= r
    requires var p := Parse(Told(t, r).value + tail); p.Some? && p.value.0 == Normal(t)
    ensures Safe(t) && Told(t, r).value == Enc(t)
    ensures Parse(Told(t, r).value + tail) == Some((Normal(t), tail))
    decreases t, 0
  {
    hide EncS8, DecS8, EncU16, ParseU16, Told, Enc, Normal, EncChain, ToldChain, ParseChain, Parse, ParseValue;
    hide Below, Keyed, HugeIn, CodableChain, ShortStringsIn, SizedChain;
    var c, k := Below(t), Keyed(t);
    CollParts(t);
    TagNeedsRoom(t);
    ToldOfColl(t, r);
    if r < 3 {
      TooShort(t, r, tail);
    } else {
      var o := ToldChain(c, k, r - 3).value;
      ParseColl(t, o + tail);
      Assoc([EncS8(TypeOf(t))], EncU16(Count(c)) + o, tail);
      Assoc(EncU16(Count(c)), o, tail);
      ChainBack(c, k, r - 3, tail);
    }
  }

  lemma {:induction false} ChainBack(c: Chain, keyed: bool, r: nat, tail: Bytes)
    requires SizedChain(c, keyed) && !HugeIn(c)
    requires ToldChain(c, keyed, r).Some? && |ToldChain(c, keyed, r).value| + |tail| <= r
    requires var p := ParseChain(ToldChain(c, keyed, r).value + tail, Count(c), keyed);
             p.Some? && p.value.0 == NormalChain(c, keyed)
    ensures CodableChain(c) && ShortStringsIn(c) && ToldChain(c, keyed, r).value == EncChain(c, keyed)
    ensures ParseChain(ToldChain(c, keyed, r).value + tail, Count(c), keyed).value.1 == tail
    decreases c
  {
    hide Told, Enc, Parse, Normal, Huge, EncString, ParseString;
    if c.End? {
      NoMore(tail);
    } else {
      ToldStep(c, keyed, r);
      var k := KeyBytes(c, keyed);
      var v := Told(c.val, r - |k|).value;
      var o := ToldChain(c.next, keyed, r - |k| - |v|).value;
      Assoc(k + v, o, tail);
      Assoc(k, v, o + tail);
      if keyed {
        StringRoundTrip(c.key.value, v + (o + tail));
      } else {
        NoMore(v + (o + tail));
      }
      TreeBack(c.val, r - |k|, o + tail);
      ChainBack(c.next, keyed, r - |k| - |v|, tail);
      Assoc(k, v, o);
    }
  }

  // The facts about a collection in terms of its chain.
  lemma CollParts(t: Tree)
    requires Sized(t) && IsColl(t) && !IsNullPtr(t)
    ensures Huge(t) <==> HugeIn(Below(t))
    ensures Codable(t) <==> CodableChain(Below(t))
    ensures ShortStrings(t) <==> ShortStringsIn(Below(t))
    ensures Below(t) < t
  {
  }

  lemma ParseColl(t: Tree, b: Bytes)
    requires Sized(t) && IsColl(t) && !IsNullPtr(t)
    ensures Count(Below(t)) < 0x1_0000
    ensures var p := Parse([EncS8(TypeOf(t))] + (EncU16(Count(Below(t))) + b));
            var q := ParseChain(b, Count(Below(t)), Keyed(t));
            && (p.Some? <==> q.Some?)
            && (p.Some? ==> p.value.1 == q.value.1)
            && (p.Some? ==> (p.value.0 == Normal(t) <==> q.value.0 == NormalChain(Below(t), Keyed(t))))
  {
    hide EncS8, DecS8, EncU16, ParseU16, ParseChain, NormalChain, ParseScalar, EncChain, SizedChain;
    ReadBack8(TypeOf(t), EncU16(Count(Below(t))) + b);
    ReadBack16(Count(Below(t)), 0, b);
  }

  lemma TooShort(t: Tree, r: nat, tail: Bytes)
    requires Sized(t) && IsColl(t) && !IsNullPtr(t) && 1 <= r < 3
    requires Told(t, r).Some? && |Told(t, r).value| + |tail| <= r
    ensures Parse(Told(t, r).value + tail) == None
  {
    hide EncS8, DecS8, ToldColl;
    OnlyTheTag(t, r);
    ReadBack8(TypeOf(t), tail);
  }

  // For every tree and every room in a ring: success is reported and the
  // receiver gets the tree exactly when it can be coded, its strings are short,
  // and it fits.
  lemma DeliveredIff(t: Tree, r: nat)
    requires Sized(t) && r < 0x1_0000
    ensures Told(t, r).Some? && Parse(Told(t, r).value) == Some((Normal(t), []))
            <==> Safe(t) && |Enc(t)| <= r
  {
    hide Told, Enc, Parse, Normal, Huge, Sized, Codable, ShortStrings;
    if Told(t, r).Some? && Parse(Told(t, r).value) == Some((Normal(t), [])) {
      var o := Told(t, r).value;
      ToldAtMost(t, r);
      NothingHuge(t, o);
      NoMore(o);
      TreeBack(t, r, []);
    } else if Safe(t) && |Enc(t)| <= r {
      FittingWritesAll(t, r);
      NoMore(Enc(t));
      TreeRoundTrip(t, []);
    }
  }

  // With two bytes of room left, reported success means exactly as much as the
  // strings being short.
  lemma RoomLeftDelivers(t: Tree, r: nat)
    requires Sized(t) && r < 0x1_0000 && Told(t, r).Some? && r - |Told(t, r).value| >= 2
    ensures Parse(Told(t, r).value) == Some((Normal(t), [])) <==> ShortStrings(t)
  {
    hide Told, Enc, Parse, Normal, Sized, Codable, ShortStrings;
    RoomLeftMeansWhole(t, r);
    DeliveredIff(t, r);
  }
}
