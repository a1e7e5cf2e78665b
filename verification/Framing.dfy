/**
 Cutting messages out of a byte stream: msg_readMessage and the receive loop
 of client_recv_one_loop.
 */
module Framing {
  import opened Wire
  import opened ByteRing
  import opened ExtraMap
  import opened Message

  /** Frames of a byte string **/

  // How many bytes the message at the front of b takes, by its header.
  function NeedLen(b: Bytes): (n: nat)
    requires |b| >= HEADER_LEN
    ensures n >= HEADER_LEN
  {
    if IsLengthInt(DecU16(b[..2])) then HEADER_LEN + 2 + DecU32(b[2..][..4])
    else HEADER_LEN + DecU16(b[2..][..2])
  }

  predicate Complete(b: Bytes) {
    |b| >= HEADER_LEN && |b| >= NeedLen(b)
  }

  // The complete frames at the front of b, and what is left behind them.
  function Frames(b: Bytes): seq<Bytes>
    decreases |b|
  {
    if Complete(b) then [b[..NeedLen(b)]] + Frames(b[NeedLen(b)..]) else []
  }

  function Tail(b: Bytes): (t: Bytes)
    ensures |t| <= |b|
    decreases |b|
  {
    if Complete(b) then Tail(b[NeedLen(b)..]) else b
  }

  lemma CompleteStays(a: Bytes, b: Bytes)
    requires |a| >= HEADER_LEN
    ensures NeedLen(a + b) == NeedLen(a)
    ensures Complete(a) ==> (a + b)[..NeedLen(a)] == a[..NeedLen(a)] && (a + b)[NeedLen(a)..] == a[NeedLen(a)..] + b
  {
    assert (a + b)[..2] == a[..2];
    assert (a + b)[2..][..4] == a[2..][..4];
    assert (a + b)[2..][..2] == a[2..][..2];
  }

  // Cutting as bytes arrive gives the same frames as cutting all at once,
  // whatever the bytes are.
  lemma {:induction false} CutInSteps(a: Bytes, b: Bytes)
    ensures Frames(a + b) == Frames(a) + Frames(Tail(a) + b)
    ensures Tail(a + b) == Tail(Tail(a) + b)
    decreases |a|
  {
    hide NeedLen;
    if !Complete(a) {
    } else {
      var n := NeedLen(a);
      CompleteStays(a, b);
      CutInSteps(a[n..], b);
      FramesAssoc([a[..n]], Frames(a[n..]), Frames(Tail(a[n..]) + b));
    }
  }

  lemma FramesAssoc(x: seq<Bytes>, y: seq<Bytes>, z: seq<Bytes>)
    ensures x + y + z == x + (y + z)
  {
  }

  lemma {:induction false} TailIncomplete(b: Bytes)
    ensures !Complete(Tail(b)) && Frames(Tail(b)) == []
    decreases |b|
  {
    if !Complete(b) {
    } else {
      TailIncomplete(b[NeedLen(b)..]);
    }
  }

  function Concat(chunks: seq<Bytes>): Bytes {
    if chunks == [] then [] else chunks[0] + Concat(chunks[1..])
  }

  // Appending chunk after chunk and cutting after each.
  function RunFrames(rest: Bytes, chunks: seq<Bytes>): seq<Bytes>
    decreases |chunks|
  {
    if chunks == [] then []
    else Frames(rest + chunks[0]) + RunFrames(Tail(rest + chunks[0]), chunks[1..])
  }

  function RunTail(rest: Bytes, chunks: seq<Bytes>): Bytes
    decreases |chunks|
  {
    if chunks == [] then rest else RunTail(Tail(rest + chunks[0]), chunks[1..])
  }

  // Chunk independence, for any byte stream and any way to split it.
  lemma {:induction false} ChunkIndependence(rest: Bytes, chunks: seq<Bytes>)
    requires !Complete(rest)
    ensures RunFrames(rest, chunks) == Frames(rest + Concat(chunks))
    ensures RunTail(rest, chunks) == Tail(rest + Concat(chunks))
    decreases |chunks|
  {
    if chunks == [] {
      assert rest + [] == rest;
    } else {
      var a, b := rest + chunks[0], Concat(chunks[1..]);
      Assoc(rest, chunks[0], b);
      CutInSteps(a, b);
      TailIncomplete(a);
      ChunkIndependence(Tail(a), chunks[1..]);
    }
  }

  /** Streams of whole frames **/

  // A byte string whose header tells exactly its own length.
  predicate IsFrame(f: Bytes) {
    |f| >= HEADER_LEN && NeedLen(f) == |f|
  }

  predicate AllFrames(fs: seq<Bytes>) {
    forall i :: 0 <= i < |fs| ==> IsFrame(fs[i])
  }

  lemma FrameFirst(f: Bytes, rest: Bytes)
    requires IsFrame(f)
    ensures Complete(f + rest) && Frames(f + rest) == [f] + Frames(rest) && Tail(f + rest) == Tail(rest)
  {
    CompleteStays(f, rest);
    Cut(f, rest);
  }

  lemma PartOfFrame(f: Bytes, p: Bytes)
    requires IsFrame(f) && p < f
    ensures !Complete(p)
  {
    if |p| >= HEADER_LEN {
      CompleteStays(p, f[|p|..]);
      assert p + f[|p|..] == f;
    }
  }

  // Cutting any part of a stream of frames: the frames cut are the first ones,
  // in order, and what is left is an unfinished part of the next.
  lemma {:induction false} PrefixOfStream(fs: seq<Bytes>, p: Bytes)
    requires AllFrames(fs) && p <= Concat(fs)
    ensures var k := |Frames(p)|;
            && k <= |fs| && Frames(p) == fs[..k]
            && p == Concat(fs[..k]) + Tail(p)
            && (k < |fs| ==> Tail(p) < fs[k])
            && (k == |fs| ==> Tail(p) == [])
    decreases |fs|
  {
    hide Complete, NeedLen;
    if fs != [] && fs[0] <= p {
      var f, gs := fs[0], fs[1..];
      var p' := p[|f|..];
      assert p == f + p';
      assert p' <= Concat(gs);
      FrameFirst(f, p');
      PrefixOfStream(gs, p');
      var k := |Frames(p')|;
      assert fs[..k + 1] == [f] + gs[..k];
      assert fs[..k + 1][1..] == gs[..k];
      Assoc(f, Concat(gs[..k]), Tail(p'));
    } else {
      if fs != [] {
        assert p < fs[0];
        PartOfFrame(fs[0], p);
      } else {
        assert !Complete(p) by { NothingComplete(); }
      }
      assert fs[..0] == [] && [] + p == p;
    }
  }

  lemma NothingComplete()
    ensures !Complete([])
  {
  }

  // The whole stream gives every frame and leaves nothing.
  lemma {:induction false} WholeStream(fs: seq<Bytes>)
    requires AllFrames(fs)
    ensures Frames(Concat(fs)) == fs && Tail(Concat(fs)) == []
    decreases |fs|
  {
    hide NeedLen;
    if fs == [] {
      NothingComplete();
    } else {
      WholeStream(fs[1..]);
      FrameFirst(fs[0], Concat(fs[1..]));
      assert [fs[0]] + fs[1..] == fs;
    }
  }

  // The header of a message's frame tells its length.
  lemma MessageIsFrame(m: MsgVal)
    requires Sendable(m)
    ensures IsFrame(Frame(m))
  {
    hide IsLengthInt, SentFlag, EncExtra, DecU16, DecU32, EncU16, EncS16, EncS32, EncS64, LenField;
    var x := WireExtra(m);
    var ext := ExtBytes(x);
    var len := |ext| + |m.payload|;
    var f := SentFlag(m.flag, ext != [], len);
    var t := [m.typ] + (EncS64(m.msgId) + ext);
    assert Frame(m) == EncU16(f) + (LenField(len) + (t + m.payload)) by {
      Assoc(LenField(len), t, m.payload);
      Assoc(EncU16(f), LenField(len) + t, m.payload);
    }
    SentFlagBits(m.flag, ext != [], len);
    RoundTrip16(f, 0);
    Cut(EncU16(f), LenField(len) + (t + m.payload));
    LenFieldReadsBack(len);
    Cut(LenField(len), t + m.payload);
  }

  lemma LenFieldReadsBack(len: nat)
    requires len < MAX_INT_VALUE
    ensures if len <= MAX_SHORT_VALUE then DecU16(LenField(len)) == len else DecU32(LenField(len)) == len
  {
    Widths();
    if len <= MAX_SHORT_VALUE {
      assert EncS16(len) == EncU16(len);
      RoundTrip16(len, 0);
    } else {
      assert EncS32(len) == EncU32(len);
      RoundTrip32(len, 0);
    }
  }

  /** Reading from a ring **/

  // The front of b is something msg_readMessage can deal with: its length does
  // not wrap a uint32_t, and a complete frame holds a message.
  ghost predicate Readable(b: Bytes) {
    && (|b| >= HEADER_LEN ==> NeedLen(b) < 0x1_0000_0000)
    && (Complete(b) ==> ParseMsg(b[..NeedLen(b)]).Some?)
  }

  function Decoded(f: Bytes): MsgVal
    requires ParseMsg(f).Some?
  {
    ParseMsg(f).value.0
  }

  // Reads the flag word and the length, and with them the size of the frame.
  method Peek(buf: Ring) returns (need: nat)
    requires buf.Valid() && |buf.Contents()| >= HEADER_LEN && NeedLen(buf.Contents()) < 0x1_0000_0000
    modifies buf`rpos, buf`status
    ensures buf.Valid() && need == NeedLen(old(buf.Contents()))
    ensures 0 < |buf.Contents()| < |old(buf.Contents())|
  {
    hide Ring.Contents, Ring.ReadableLen, DecU16, DecU32;
    var _, f := buf.GetU16();
    var headerLen := HEADER_LEN;
    if IsLengthInt(f) {
      var _, len := buf.GetU32();
      headerLen := headerLen + 2;
      need := (len + headerLen) % 0x1_0000_0000;
    } else {
      var _, sl := buf.GetU16();
      need := sl + headerLen;
    }
  }

  // Takes a complete frame out of the ring and decodes it.
  method Extract(buf: Ring, need: nat) returns (m: Msg)
    requires buf.Valid() && Complete(buf.Contents()) && need == NeedLen(buf.Contents())
    requires Readable(buf.Contents())
    modifies buf`rpos, buf`status
    ensures buf.Valid() && m.Valid()
    ensures fresh(m) && (m.payload != null ==> fresh(m.payload) && fresh(m.payload.data))
    ensures m.View() == Decoded(old(buf.Contents())[..need])
    ensures buf.Contents() == old(buf.Contents())[need..]
  {
    hide Ring.Contents, Ring.ReadableLen, NeedLen, ParseMsg;
    ghost var q := buf.Contents();
    var cache := new Ring(need);
    var _ := buf.GetBuf(cache, need);
    KeptAll(q[..need], need);
    m := Decode(cache);
  }

  // msg_readMessage.  It puts the read position back but not the status bits,
  // so a ring that was exactly full is left stuck, whatever it holds.
  method ReadMessage(buf: Ring) returns (m: Msg?)
    requires buf.Valid() && Readable(buf.Contents())
    modifies buf`rpos, buf`status
    ensures var q := old(buf.Contents());
            if |q| < HEADER_LEN then m == null && buf.Valid() && buf.Contents() == q
            else if old(buf.Room()) == 0 then m == null && buf.Stuck()
            else if !Complete(q) then m == null && buf.Valid() && buf.Contents() == q
            else
              && m != null && buf.Valid() && m.Valid()
              && fresh(m) && (m.payload != null ==> fresh(m.payload) && fresh(m.payload.data))
              && m.View() == Decoded(q[..NeedLen(q)]) && buf.Contents() == q[NeedLen(q)..]
  {
    buf.Accounting();
    hide Ring.Contents, Ring.ReadableLen, NeedLen, ParseMsg;
    var rpos := buf.rpos;
    var totalLen := buf.ReadableLen();
    if totalLen < HEADER_LEN { return null; }
    var need := Peek(buf);
    buf.Accounting();
    var _ := buf.SetRPos(rpos);
    if totalLen < need { return null; }
    if !buf.CanRead(need) { return null; }
    m := Extract(buf, need);
  }

  // The same with a mark in place of the remembered position: it needs no
  // room in the ring.
  method ReadMessageMarked(buf: Ring) returns (m: Msg?)
    requires buf.Valid() && Readable(buf.Contents())
    modifies buf`rpos, buf`status, buf`rmark, buf`rmarkStatus
    ensures buf.Valid()
    ensures var q := old(buf.Contents());
            if !Complete(q) then m == null && buf.Contents() == q
            else
              && m != null && m.Valid()
              && fresh(m) && (m.payload != null ==> fresh(m.payload) && fresh(m.payload.data))
              && m.View() == Decoded(q[..NeedLen(q)]) && buf.Contents() == q[NeedLen(q)..]
  {
    buf.Accounting();
    hide Ring.Contents, Ring.ReadableLen, Ring.MarkHolds, NeedLen, ParseMsg;
    ghost var q := buf.Contents();
    var totalLen := buf.ReadableLen();
    if totalLen < HEADER_LEN { return null; }
    buf.RMark();
    buf.MarkedHolds();
    var need := Peek(buf);
    assert buf.MarkHolds(q);
    var _ := buf.RMarkReset();
    if totalLen < need { return null; }
    m := Extract(buf, need);
  }

  /** The receive loop **/

  // Every frame the stream b will be cut into holds a message.
  ghost predicate Sound(b: Bytes) {
    && (forall i :: 0 <= i < |Frames(b)| ==> ParseMsg(Frames(b)[i]).Some?)
    && (|Tail(b)| >= HEADER_LEN ==> NeedLen(Tail(b)) < 0x1_0000_0000)
  }

  lemma SoundFront(b: Bytes)
    requires Sound(b) && |b| < 0x1_0000
    ensures Readable(b)
    ensures Complete(b) ==> Sound(b[NeedLen(b)..])
  {
    hide ParseMsg;
    if Complete(b) {
      var c := b[NeedLen(b)..];
      assert Frames(b)[0] == b[..NeedLen(b)];
      forall i | 0 <= i < |Frames(c)|
        ensures ParseMsg(Frames(c)[i]).Some?
      {
        assert Frames(b)[i + 1] == Frames(c)[i];
      }
    }
  }

  // The messages handed over hold what the frames hold.
  ghost predicate Holds(ms: seq<Msg>, fs: seq<Bytes>)
    reads ms, set i | 0 <= i < |ms| && ms[i].payload != null :: ms[i].payload
    reads set i | 0 <= i < |ms| && ms[i].payload != null :: ms[i].payload.data
  {
    && |ms| == |fs|
    && forall i :: 0 <= i < |ms| ==>
        ms[i].Valid() && ParseMsg(fs[i]).Some? && ms[i].View() == Decoded(fs[i])
  }

  lemma CutOne(b: Bytes)
    requires |b| < 0x1_0000
    ensures Complete(b) ==> Frames(b) == [b[..NeedLen(b)]] + Frames(b[NeedLen(b)..]) && Tail(b) == Tail(b[NeedLen(b)..])
    ensures !Complete(b) ==> Frames(b) == [] && Tail(b) == b
  {
  }

  // The inner loop: messages are handed over until none is complete.
  method Drain(buf: Ring) returns (ms: seq<Msg>)
    requires buf.Valid() && buf.Room() > 0 && Sound(buf.Contents())
    modifies buf`rpos, buf`status
    ensures buf.Valid() && buf.Contents() == Tail(old(buf.Contents()))
    ensures Holds(ms, Frames(old(buf.Contents())))
    ensures forall m :: m in ms ==> fresh(m) && (m.payload != null ==> fresh(m.payload) && fresh(m.payload.data))
  {
    ms := [];
    hide Ring.Contents, Ring.ReadableLen, ParseMsg, NeedLen, Frames, Tail, Sound;
    ghost var q, cut: seq<Bytes> := buf.Contents(), [];
    while true
      invariant buf.Valid() && buf.Room() > 0 && Sound(buf.Contents())
      invariant Frames(q) == cut + Frames(buf.Contents()) && Tail(q) == Tail(buf.Contents())
      invariant Holds(ms, cut)
      invariant forall m :: m in ms ==> fresh(m) && (m.payload != null ==> fresh(m.payload) && fresh(m.payload.data))
      decreases |buf.Contents()|
    {
      ghost var c := buf.Contents();
      SoundFront(c);
      CutOne(c);
      var m := ReadMessage(buf);
      if m == null {
        assert cut + [] == cut;
        return;
      }
      FramesAssoc(cut, [c[..NeedLen(c)]], Frames(buf.Contents()));
      ms := ms + [m];
      cut := cut + [c[..NeedLen(c)]];
    }
  }

  // client_recv_one_loop after a chunk arrived.  A chunk that does not fit
  // clears the ring; one that fills it exactly leaves it stuck until the next
  // chunk clears it; any other is drained.
  method RecvOne(buf: Ring, chunk: Bytes) returns (ok: bool, ms: seq<Msg>)
    requires chunk != [] && (buf.Valid() || buf.Stuck())
    requires buf.Valid() && |chunk| < buf.Room() ==> Sound(buf.Contents() + chunk)
    requires buf.Valid() && |chunk| == buf.Room() ==> Readable(buf.Contents() + chunk)
    modifies buf, buf.data
    ensures old(buf.Stuck()) || (old(buf.Valid()) && |chunk| > old(buf.Room())) ==>
              !ok && ms == [] && buf.Valid() && buf.Contents() == []
    ensures old(buf.Valid()) && |chunk| == old(buf.Room()) ==>
              ok && ms == [] && (buf.capacity >= HEADER_LEN ==> buf.Stuck())
    ensures old(buf.Valid()) && |chunk| < old(buf.Room()) ==>
              && ok && buf.Valid() && buf.Contents() == Tail(old(buf.Contents()) + chunk)
              && Holds(ms, Frames(old(buf.Contents()) + chunk))
    ensures forall m :: m in ms ==> fresh(m) && (m.payload != null ==> fresh(m.payload) && fresh(m.payload.data))
  {
    if buf.Valid() { buf.Accounting(); }
    ms := [];
    if !buf.CanWrite(|chunk|) {
      buf.Clear();
      return false, ms;
    }
    hide Ring.Contents, Ring.ReadableLen, Ring.WriteableLen, Sound, Frames, Tail, Readable;
    var _ := buf.PutBytes(chunk);
    buf.Accounting();
    if buf.IsFull() {
      var _ := ReadMessage(buf);
    } else {
      ms := Drain(buf);
    }
    ok := true;
  }

  // No chunk ever fills the ring, and the bytes are messages.
  ghost predicate Feasible(cap: nat, rest: Bytes, chunks: seq<Bytes>)
    decreases |chunks|
  {
    chunks != [] ==>
      && chunks[0] != [] && |rest| + |chunks[0]| < cap && Sound(rest + chunks[0])
      && Feasible(cap, Tail(rest + chunks[0]), chunks[1..])
  }

  // The client over a whole run of received chunks, one call a chunk.
  method ReceiveRun(buf: Ring, chunks: seq<Bytes>) returns (all: seq<Msg>)
    requires buf.Valid() && Feasible(buf.capacity, buf.Contents(), chunks)
    modifies buf, buf.data
    ensures buf.Valid() && buf.Contents() == RunTail(old(buf.Contents()), chunks)
    ensures Holds(all, RunFrames(old(buf.Contents()), chunks))
    ensures forall m :: m in all ==> fresh(m) && (m.payload != null ==> fresh(m.payload) && fresh(m.payload.data))
    decreases |chunks|
  {
    hide Ring.Contents, Ring.ReadableLen, Sound, Frames, Tail, Holds;
    NothingHeld();
    if chunks == [] { return []; }
    ghost var c := buf.Contents() + chunks[0];
    var _, ms := RecvOne(buf, chunks[0]);
    var more := ReceiveRun(buf, chunks[1..]);
    assert Holds(ms, Frames(c));
    HoldsJoin(ms, Frames(c), more, RunFrames(Tail(c), chunks[1..]));
    all := ms + more;
  }

  lemma NothingHeld()
    ensures Holds([], [])
  {
  }

  lemma HoldsJoin(ms: seq<Msg>, fs: seq<Bytes>, ns: seq<Msg>, gs: seq<Bytes>)
    requires Holds(ms, fs) && Holds(ns, gs)
    ensures Holds(ms + ns, fs + gs)
  {
    hide ParseMsg;
  }

  /** Encoded messages, chunked in any way **/

  ghost predicate AllSendable(ms: seq<MsgVal>) {
    forall i :: 0 <= i < |ms| ==>
      Sendable(ms[i]) && (WireExtra(ms[i]).Node? || !HasExtraBit(ms[i].flag))
  }

  ghost function FramesOf(ms: seq<MsgVal>): (fs: seq<Bytes>)
    requires AllSendable(ms)
    ensures |fs| == |ms| && forall i :: 0 <= i < |ms| ==> fs[i] == Frame(ms[i])
  {
    seq(|ms|, i requires 0 <= i < |ms| => Frame(ms[i]))
  }

  // Any split of the encoded messages into chunks delivers exactly those
  // messages, in order, and leaves nothing behind.
  lemma MessagesSurviveChunking(ms: seq<MsgVal>, chunks: seq<Bytes>)
    requires AllSendable(ms) && Concat(chunks) == Concat(FramesOf(ms))
    ensures var fs := RunFrames([], chunks);
            && |fs| == |ms| && RunTail([], chunks) == []
            && forall i :: 0 <= i < |ms| ==>
                ParseMsg(fs[i]) == Some((Received(ms[i], |ExtBytes(WireExtra(ms[i]))|), []))
  {
    hide Frame, ParseMsg, WireExtra, HasExtraBit, NeedLen, IsFrame, Received, FlagIn, EncExtra, SafeMap, SizedMap;
    var fs := FramesOf(ms);
    forall i | 0 <= i < |ms|
      ensures IsFrame(fs[i])
      ensures ParseMsg(fs[i]) == Some((Received(ms[i], |ExtBytes(WireExtra(ms[i]))|), []))
    {
      MessageIsFrame(ms[i]);
      FrameRoundTrip(ms[i], []);
      assert fs[i] + [] == fs[i];
    }
    NothingComplete();
    ChunkIndependence([], chunks);
    assert [] + Concat(chunks) == Concat(chunks);
    WholeStream(fs);
  }

  // After any part of the stream has arrived, the ring holds exactly the
  // unfinished part of the next message.
  lemma UnfinishedPart(ms: seq<MsgVal>, chunks: seq<Bytes>)
    requires AllSendable(ms) && Concat(chunks) <= Concat(FramesOf(ms))
    ensures var fs, t := RunFrames([], chunks), RunTail([], chunks);
            && fs <= FramesOf(ms)
            && Concat(chunks) == Concat(fs) + t
            && (|fs| < |ms| ==> t < Frame(ms[|fs|]))
            && (|fs| == |ms| ==> t == [])
  {
    hide Frame, ParseMsg, Sendable, WireExtra, HasExtraBit, NeedLen, IsFrame;
    var fs := FramesOf(ms);
    forall i | 0 <= i < |ms|
      ensures IsFrame(fs[i])
    {
      MessageIsFrame(ms[i]);
    }
    NothingComplete();
    ChunkIndependence([], chunks);
    assert [] + Concat(chunks) == Concat(chunks);
    PrefixOfStream(fs, Concat(chunks));
  }

  // No chunk is empty or ever fills the ring.
  ghost predicate NeverFull(cap: nat, rest: Bytes, chunks: seq<Bytes>)
    decreases |chunks|
  {
    chunks != [] ==>
      && chunks[0] != [] && |rest| + |chunks[0]| < cap
      && NeverFull(cap, Tail(rest + chunks[0]), chunks[1..])
  }

  ghost predicate Decodable(fs: seq<Bytes>) {
    AllFrames(fs) && forall i :: 0 <= i < |fs| ==> ParseMsg(fs[i]).Some? && |fs[i]| < 0x1_0000_0000
  }

  // Part of a stream of messages is something the receive loop can deal with.
  lemma PartIsSound(fs: seq<Bytes>, p: Bytes)
    requires Decodable(fs) && p <= Concat(fs)
    ensures Sound(p)
  {
    hide ParseMsg, NeedLen;
    PrefixOfStream(fs, p);
    var k, t := |Frames(p)|, Tail(p);
    if |t| >= HEADER_LEN {
      CompleteStays(t, fs[k][|t|..]);
      assert t + fs[k][|t|..] == fs[k];
    }
  }

  lemma {:induction false} ConcatJoin(fs: seq<Bytes>, k: nat)
    requires k <= |fs|
    ensures Concat(fs) == Concat(fs[..k]) + Concat(fs[k..])
    decreases k
  {
    if k == 0 {
      assert fs[0..] == fs && [] + Concat(fs) == Concat(fs);
    } else {
      ConcatJoin(fs[1..], k - 1);
      assert fs[..k][1..] == fs[1..][..k - 1] && fs[k..] == fs[1..][k - 1..];
      Assoc(fs[0], Concat(fs[1..][..k - 1]), Concat(fs[k..]));
    }
  }

  lemma {:induction false} StreamIsFeasible(fs: seq<Bytes>, cap: nat, rest: Bytes, chunks: seq<Bytes>)
    requires Decodable(fs) && rest + Concat(chunks) <= Concat(fs) && NeverFull(cap, rest, chunks)
    ensures Feasible(cap, rest, chunks)
    decreases |chunks|
  {
    hide ParseMsg, NeedLen, Sound, Complete, IsFrame;
    if chunks == [] {
    } else {
      var p, more := rest + chunks[0], Concat(chunks[1..]);
      Assoc(rest, chunks[0], more);
      PartIsSound(fs, p);
      PrefixOfStream(fs, p);
      var k := |Frames(p)|;
      ConcatJoin(fs, k);
      Assoc(Concat(fs[..k]), Tail(p), more);
      SamePrefix(Concat(fs[..k]), Tail(p) + more, Concat(fs[k..]));
      StreamIsFeasible(fs[k..], cap, Tail(p), chunks[1..]);
    }
  }

  lemma SamePrefix(a: Bytes, b: Bytes, c: Bytes)
    requires a + b <= a + c
    ensures b <= c
  {
    assert forall i :: 0 <= i < |b| ==> b[i] == (a + b)[|a| + i] && c[i] == (a + c)[|a| + i];
  }

  // End to end: encoded messages, sent as one stream and received in chunks
  // that never fill the ring, are handed over one by one as they were sent,
  // and the ring is empty afterwards.
  method DeliverAll(buf: Ring, ghost ms: seq<MsgVal>, chunks: seq<Bytes>) returns (all: seq<Msg>)
    requires buf.Valid() && buf.Contents() == [] && AllSendable(ms)
    requires Concat(chunks) == Concat(FramesOf(ms)) && NeverFull(buf.capacity, [], chunks)
    modifies buf, buf.data
    ensures buf.Valid() && buf.Contents() == [] && |all| == |ms|
    ensures forall i :: 0 <= i < |all| ==>
              all[i].Valid() && all[i].View() == Received(ms[i], |ExtBytes(WireExtra(ms[i]))|)
  {
    hide Ring.Contents, Ring.ReadableLen, Ring.Valid, ParseMsg, Sendable, Received, WireExtra, ExtBytes, NeverFull;
    hide Feasible, Concat, RunFrames, RunTail, FramesOf, Decodable;
    FramesDecodable(ms);
    MessagesSurviveChunking(ms, chunks);
    NoMore(Concat(chunks));
    StreamIsFeasible(FramesOf(ms), buf.capacity, [], chunks);
    all := ReceiveRun(buf, chunks);
  }

  lemma FramesDecodable(ms: seq<MsgVal>)
    requires AllSendable(ms)
    ensures Decodable(FramesOf(ms))
  {
    hide ParseMsg, NeedLen, IsFrame, Received, HasExtraBit, FlagIn, EncExtra, SafeMap, SizedMap, Frame;
    forall i | 0 <= i < |ms|
      ensures IsFrame(Frame(ms[i])) && ParseMsg(Frame(ms[i])).Some? && |Frame(ms[i])| < 0x1_0000_0000
    {
      MessageIsFrame(ms[i]);
      FrameRoundTrip(ms[i], []);
      assert Frame(ms[i]) + [] == Frame(ms[i]);
      FrameSize(ms[i]);
    }
  }

  lemma FrameSize(m: MsgVal)
    requires Sendable(m)
    ensures |Frame(m)| < 0x1_0000_0000
  {
    hide SentFlag, EncExtra, SafeMap, SizedMap, FlagIn;
  }
}
