/**
 The plain byte ring of jm_buffer.c: a fixed buffer with a read position, a
 write position and two status bits that tell an empty ring from a full one
 when the positions coincide.  Its meaning is the queue Contents().
 */
module ByteRing {
  import opened Wire

  // The two bits of the status byte, BB_EMPTY and BB_FULL.
  datatype Status = Status(empty: bool, full: bool)

  const NO_MARK: u16 := 0xFFFF  // -1 stored in a uint16_t

  const MAX_BYTE_VALUE := 127
  const MAX_SHORT_VALUE := 32767

  // The position n places after p in a ring of c places, n <= c.
  function Advance(p: nat, n: nat, c: nat): (q: nat)
    requires p < c && n <= c
    ensures q < c
  {
    if p + n < c then p + n else p + n - c
  }

  method Next(p: nat, n: nat, c: nat) returns (q: nat)
    requires p < c && n <= c
    ensures q == Advance(p, n, c)
  {
    q := (p + n) % c;
    WrapsOnce(p + n, c);
  }

  lemma WrapsOnce(a: nat, c: nat)
    requires a < 2 * c
    ensures a % c == if a < c then a else a - c
  {
    if a >= c {
      assert a == c + (a - c);
      assert a / c == 1;
    }
  }

  lemma OneRound(a: nat, c: nat)
    requires 0 < c
    ensures (a + c) % c == a % c
  {
    var d := (a + c) / c - a / c - 1;
    assert c * d == c * ((a + c) / c) - c * (a / c) - c;
    assert c * d == a % c - (a + c) % c;
    Multiples(c, d);
  }

  lemma Multiples(c: nat, d: int)
    ensures d >= 1 ==> c * d >= c
    ensures d <= -1 ==> c * d + c <= 0
  {
  }

  lemma {:induction false} Rounds(k: nat, x: nat, c: nat)
    requires 0 < c
    ensures (k * c + x) % c == x % c
  {
    if k == 0 {
    } else {
      assert k * c + x == ((k - 1) * c + x) + c;
      OneRound((k - 1) * c + x, c);
      Rounds(k - 1, x, c);
    }
  }

  // The position any number of places after p.
  function Onward(p: nat, n: nat, c: nat): (q: nat)
    requires p < c
    ensures q < c
  {
    (p + n) % c
  }

  lemma WithinARound(p: nat, n: nat, c: nat)
    requires p < c && n <= c
    ensures Onward(p, n, c) == Advance(p, n, c)
  {
    WrapsOnce(p + n, c);
  }

  // n steps from p end up n - q places behind Advance(p, q, c), whole rounds
  // left out.
  lemma PastTheEnd(p: nat, q: nat, n: nat, c: nat)
    requires p < c && q <= c && q <= n
    ensures Onward(p, n, c) == Advance(Advance(p, q, c), (n - q) % c, c)
  {
    var k, j := (n - q) / c, (n - q) % c;
    assert p + n == k * c + (p + q + j);
    Rounds(k, p + q + j, c);
    if p + q + j < 2 * c {
      WrapsOnce(p + q + j, c);
    } else {
      OneRound(p + q + j - c, c);
      WrapsOnce(p + q + j - c, c);
    }
  }

  // The n bytes of the buffer d found from position p on, going round.
  ghost function Window(d: Bytes, p: nat, n: nat): (q: Bytes)
    requires p < |d| && n <= |d|
    ensures |q| == n
    decreases n
  {
    if n == 0 then [] else [d[p]] + Window(d, Advance(p, 1, |d|), n - 1)
  }

  lemma {:induction false} WindowAt(d: Bytes, p: nat, n: nat, i: nat)
    requires p < |d| && i < n <= |d|
    ensures Window(d, p, n)[i] == d[Advance(p, i, |d|)]
    decreases n
  {
    if i == 0 {
    } else {
      WindowAt(d, Advance(p, 1, |d|), n - 1, i - 1);
    }
  }

  // Writing one byte just behind a window leaves the window as it is and
  // makes the next longer window end in that byte.
  lemma WindowGrows(d: Bytes, p: nat, n: nat, x: byte)
    requires p < |d| && n < |d|
    ensures Window(d[Advance(p, n, |d|) := x], p, n + 1) == Window(d, p, n) + [x]
  {
    var w := Advance(p, n, |d|);
    var e := d[w := x];
    forall i | 0 <= i < n
      ensures Window(e, p, n + 1)[i] == Window(d, p, n)[i]
    {
      WindowAt(e, p, n + 1, i);
      WindowAt(d, p, n, i);
    }
    WindowAt(e, p, n + 1, n);
  }

  lemma {:induction false} WindowDrop(d: Bytes, p: nat, n: nat, k: nat)
    requires p < |d| && k <= n <= |d|
    ensures Window(d, p, n)[k..] == Window(d, Advance(p, k, |d|), n - k)
    decreases n
  {
    if k == 0 {
    } else {
      WindowDrop(d, Advance(p, 1, |d|), n - 1, k - 1);
    }
  }

  // The three-tier length prefix of bb_writeString.
  function EncLen(n: u16): (r: Bytes)
    ensures |r| == if n < MAX_BYTE_VALUE then 1 else if n < MAX_SHORT_VALUE then 3 else 7
  {
    if n < MAX_BYTE_VALUE then [n]
    else if n < MAX_SHORT_VALUE then [MAX_BYTE_VALUE] + EncU16(n)
    else [MAX_BYTE_VALUE] + EncU16(MAX_SHORT_VALUE) + EncU32(n)
  }

  function EncString(s: Bytes): (r: Bytes)
    requires |s| < 0x1_0000
    ensures |r| > |s|
  {
    EncLen(|s|) + s
  }

  // What bb_readString finds at the front of b.
  function ParseString(b: Bytes): (r: Parsed<Bytes>)
    ensures r.Some? ==> |r.value.1| < |b| && |r.value.0| < 0x1_0000_0000
  {
    match ParseU8(b)
    case None => None
    case Some((n, b1)) =>
      if n == 0 then Some(([], b1))
      else if n != MAX_BYTE_VALUE then ParseBytes(b1, n)
      else match ParseU16(b1)
        case None => None
        case Some((n2, b2)) =>
          if n2 != MAX_SHORT_VALUE then ParseBytes(b2, n2)
          else match ParseU32(b2)
            case None => None
            case Some((n4, b4)) => ParseBytes(b4, n4)
  }

  // The length prefix alone.
  function ParseLen(b: Bytes): Parsed<u32> {
    match ParseU8(b)
    case None => None
    case Some((n, b1)) =>
      if n != MAX_BYTE_VALUE then Some((n, b1))
      else match ParseU16(b1)
        case None => None
        case Some((n2, b2)) => if n2 != MAX_SHORT_VALUE then Some((n2, b2)) else ParseU32(b2)
  }

  lemma MiddleTier(n: u16, t: Bytes)
    requires n != MAX_SHORT_VALUE
    ensures ParseString([MAX_BYTE_VALUE] + (EncU16(n) + t)) == ParseBytes(t, n)
  {
    Cut([MAX_BYTE_VALUE], EncU16(n) + t);
    ReadBack16(n, 0, t);
  }

  lemma TopTier(n: u32, t: Bytes)
    ensures ParseString([MAX_BYTE_VALUE] + (EncU16(MAX_SHORT_VALUE) + (EncU32(n) + t))) == ParseBytes(t, n)
  {
    hide EncU16, DecU16, EncU32, DecU32, ParseBytes;
    Cut([MAX_BYTE_VALUE], EncU16(MAX_SHORT_VALUE) + (EncU32(n) + t));
    ReadBack16(MAX_SHORT_VALUE, 0, EncU32(n) + t);
    ReadBack32(n, 0, t);
  }

  lemma Regroup(a: Bytes, b: Bytes, c: Bytes, d: Bytes)
    ensures (a + b + c) + d == a + (b + (c + d))
    ensures c == [] ==> (a + b) + d == a + (b + d)
  {
  }

  // The prefix is unambiguous for every length, and what follows is untouched.
  lemma StringRoundTrip(s: Bytes, rest: Bytes)
    requires |s| < 0x1_0000
    ensures ParseString(EncString(s) + rest) == Some((s, rest))
  {
    Cut(s, rest);
    Regroup([MAX_BYTE_VALUE], EncU16(|s|), [], s + rest);
    Regroup([MAX_BYTE_VALUE], EncU16(MAX_SHORT_VALUE), EncU32(|s|), s + rest);
    assert EncString(s) + rest == EncLen(|s|) + (s + rest);
    if |s| < MAX_BYTE_VALUE {
      Cut([|s|], s + rest);
    } else if |s| < MAX_SHORT_VALUE {
      MiddleTier(|s|, s + rest);
    } else {
      TopTier(|s|, s + rest);
    }
  }

  class Ring {
    const capacity: u16
    const data: array<byte>
    var status: Status
    var rpos: u16
    var wpos: u16
    var rmark: u16
    var rmarkStatus: Status

    // Positions coincide exactly when one of the two bits is set.
    ghost predicate Valid()
      reads this`rpos, this`wpos, this`status
    {
      && 0 < capacity == data.Length
      && rpos < capacity && wpos < capacity
      && (rpos == wpos <==> status.empty || status.full)
      && !(status.empty && status.full)
    }

    // The state bb_set_rpos can leave behind: coinciding positions and no bit.
    ghost predicate Stuck()
      reads this`rpos, this`wpos, this`status
    {
      && 0 < capacity == data.Length
      && rpos == wpos < capacity && status == Status(false, false)
    }

    // The queued bytes, oldest first.
    ghost function Contents(): (q: Bytes)
      requires Valid()
      reads this`rpos, this`wpos, this`status, data
      ensures |q| == ReadableLen() <= capacity
    {
      Window(data[..], rpos, ReadableLen())
    }

    ghost function Room(): nat
      requires Valid()
      reads this`rpos, this`wpos, this`status, data
    {
      capacity - |Contents()|
    }

    constructor (cap: u16)
      requires 0 < cap
      ensures Valid() && fresh(data) && capacity == cap && Contents() == []
      ensures rpos == 0 && wpos == 0 && rmark == NO_MARK
    {
      capacity := cap;
      data := new byte[cap](_ => 0);
      status := Status(true, false);
      rpos, wpos := 0, 0;
      rmark := NO_MARK;
      rmarkStatus := Status(false, false);
    }

    method Clear()
      requires 0 < capacity == data.Length
      modifies this
      ensures Valid() && Contents() == [] && rpos == 0 && rmark == NO_MARK
    {
      status := Status(true, false);
      rpos, wpos := 0, 0;
      rmark := NO_MARK;
      rmarkStatus := Status(false, false);
    }

    predicate IsFull()
      reads this`rpos, this`wpos, this`status
    {
      rpos == wpos && status.full
    }

    predicate IsEmpty()
      reads this`rpos, this`wpos, this`status
    {
      rpos == wpos && status.empty
    }

    function ReadableLen(): nat
      requires rpos < capacity && wpos < capacity
      reads this`rpos, this`wpos, this`status
    {
      if wpos == rpos then (if IsFull() then capacity else 0)
      else if wpos > rpos then wpos - rpos
      else capacity - (rpos - wpos)
    }

    function WriteableLen(): nat
      requires rpos < capacity && wpos < capacity
      reads this`rpos, this`wpos, this`status
    {
      if wpos == rpos then (if IsEmpty() then capacity else 0)
      else if wpos > rpos then capacity - (wpos - rpos)
      else rpos - wpos
    }

    // Readable and writeable bytes always add up to the capacity, and the
    // write position is the read position moved on by the queue's length.
    lemma Accounting()
      requires Valid()
      ensures ReadableLen() == |Contents()|
      ensures WriteableLen() == Room()
      ensures ReadableLen() + WriteableLen() == capacity
      ensures IsEmpty() <==> Contents() == []
      ensures IsFull() <==> Room() == 0
      ensures wpos == Advance(rpos, |Contents()|, capacity)
      ensures Contents() != [] && Room() > 0 ==> status == Status(false, false)
      ensures Room() == 0 ==> rpos == wpos
    {
    }

    predicate CanRead(n: nat)
      requires rpos < capacity && wpos < capacity
      reads this`rpos, this`wpos, this`status
    {
      !IsEmpty() && ReadableLen() >= n
    }

    predicate CanWrite(n: nat)
      requires rpos < capacity && wpos < capacity
      reads this`rpos, this`wpos, this`status
    {
      !IsFull() && WriteableLen() >= n
    }

    // A stuck ring refuses every non-empty read and every non-empty write.
    lemma StuckRefusesAll(n: nat)
      requires Stuck() && n > 0
      ensures !CanRead(n) && !CanWrite(n) && !IsEmpty() && !IsFull()
    {
    }

    /** Marks **/

    method RMark()
      requires Valid()
      modifies this`rmark, this`rmarkStatus
      ensures rmark == rpos && rmarkStatus == status
    {
      rmark := rpos;
      rmarkStatus := status;
    }

    // The queue the mark remembers, provided nothing was written since.
    ghost predicate MarkHolds(q: Bytes)
      reads this`rmark, this`rmarkStatus, this`wpos, data
    {
      && 0 < capacity == data.Length && rmark < capacity && wpos < capacity
      && (rmark == wpos <==> rmarkStatus.empty || rmarkStatus.full)
      && !(rmarkStatus.empty && rmarkStatus.full)
      && |q| == (if wpos == rmark then (if rmarkStatus.full then capacity else 0)
                 else if wpos > rmark then wpos - rmark else capacity - (rmark - wpos))
      && q == Window(data[..], rmark, |q|)
    }

    lemma MarkedHolds()
      requires Valid() && rmark == rpos && rmarkStatus == status
      ensures MarkHolds(Contents())
    {
    }

    // The guard of the source compares an unsigned field with -1 and so never
    // fires: without a mark the read position becomes 65535.
    method RMarkReset() returns (ok: bool)
      modifies this`rpos, this`status, this`rmark, this`rmarkStatus
      ensures ok && rmark == NO_MARK && rpos == old(rmark) && status == old(rmarkStatus)
      ensures forall q :: old(MarkHolds(q)) ==> Valid() && Contents() == q
      ensures old(rmark) == NO_MARK ==> !Valid()
    {
      if (rmark as int) <= -1 { return false; }
      rpos := rmark;
      status := rmarkStatus;
      rmark := NO_MARK;
      rmarkStatus := Status(false, false);
      ok := true;
    }

    method SetRPos(p: u16) returns (ok: bool)
      modifies this`rpos
      ensures ok && rpos == p
    {
      rpos := p;
      ok := true;
    }

    /** Reading **/

    // _bb_get_u8: no check of its own.  From an empty ring it takes whatever
    // is stored at the position and leaves the ring broken, unless it has one
    // place only.
    method Take() returns (v: byte)
      requires Valid()
      modifies this`rpos, this`status
      ensures old(Contents()) != [] ==> Valid() && [v] + Contents() == old(Contents())
      ensures old(Contents()) == [] ==> v == data[old(rpos)] && (Valid() <==> capacity == 1)
    {
      if IsFull() {
        status := status.(full := false);
      }
      v := data[rpos];
      rpos := Next(rpos, 1, capacity);
      if rpos == wpos {
        status := status.(empty := true);
      }
    }

    method GetU8() returns (ok: bool, v: byte)
      requires Valid()
      modifies this`rpos, this`status
      ensures Valid() && (ok <==> |old(Contents())| >= 1)
      ensures ParseU8(old(Contents())) == if ok then Some((v, Contents())) else None
      ensures !ok ==> Contents() == old(Contents()) && rpos == old(rpos)
    {
      Accounting();
      hide Contents, ReadableLen, WriteableLen;
      if !CanRead(1) { return false, 0; }
      v := Take();
      ok := true;
    }

    method GetS8() returns (ok: bool, v: s8)
      requires Valid()
      modifies this`rpos, this`status
      ensures Valid() && (ok <==> |old(Contents())| >= 1)
      ensures ParseS8(old(Contents())) == if ok then Some((v, Contents())) else None
      ensures !ok ==> Contents() == old(Contents()) && rpos == old(rpos)
    {
      Accounting();
      hide Contents, ReadableLen, WriteableLen;
      if !CanRead(1) { return false, 0; }
      var b: int := Take();
      ok, v := true, if b >= 128 then b - 256 else b;
    }

    method GetBool() returns (ok: bool, v: bool)
      requires Valid()
      modifies this`rpos, this`status
      ensures Valid() && (ok <==> |old(Contents())| >= 1)
      ensures ok ==> v == (old(Contents())[0] != 0) && Contents() == old(Contents())[1..]
      ensures !ok ==> Contents() == old(Contents()) && rpos == old(rpos)
    {
      Accounting();
      hide Contents, ReadableLen, WriteableLen;
      if !CanRead(1) { return false, false; }
      var b := Take();
      ok, v := true, if b == 0 then false else true;
    }

    // bb_get_bytes and bb_get_chars
    method GetBytes(n: nat) returns (ok: bool, s: Bytes)
      requires Valid()
      modifies this`rpos, this`status
      ensures Valid() && (ok <==> ParseBytes(old(Contents()), n).Some?)
      ensures ok ==> ParseBytes(old(Contents()), n) == Some((s, Contents()))
      ensures !ok ==> Contents() == old(Contents()) && rpos == old(rpos)
    {
      Accounting();
      hide Contents, ReadableLen, WriteableLen;
      s := [];
      if !CanRead(n) { return false, s; }
      ghost var q := Contents();
      var len := n;
      while len > 0
        invariant Valid() && 0 <= len <= n && |s| == n - len
        invariant s + Contents() == q
      {
        var v := Take();
        Assoc(s, [v], Contents());
        s := s + [v];
        len := len - 1;
      }
      Cut(s, Contents());
      ok := true;
    }

    method GetU16() returns (ok: bool, v: u16)
      requires Valid()
      modifies this`rpos, this`status
      ensures Valid() && (ok <==> |old(Contents())| >= 2)
      ensures ParseU16(old(Contents())) == if ok then Some((v, Contents())) else None
      ensures !ok ==> Contents() == old(Contents()) && rpos == old(rpos)
    {
      Accounting();
      hide Contents, ReadableLen, WriteableLen;
      if !CanRead(2) { return false, 0; }
      ghost var q := Contents();
      var first: int := Take();
      var second: int := Take();
      assert q[..2] == [first, second] && Contents() == q[2..];
      NumOf2(first, second);
      v := if NET_DATA_BIG_END then first * 0x100 + second else second * 0x100 + first;
      ok := true;
    }

    method GetS16() returns (ok: bool, v: s16)
      requires Valid()
      modifies this`rpos, this`status
      ensures Valid() && (ok <==> |old(Contents())| >= 2)
      ensures ParseS16(old(Contents())) == if ok then Some((v, Contents())) else None
      ensures !ok ==> Contents() == old(Contents()) && rpos == old(rpos)
    {
      Accounting();
      hide Contents, ReadableLen, WriteableLen;
      if !CanRead(2) { return false, 0; }
      ghost var q := Contents();
      var first: int := Take();
      var second: int := Take();
      assert q[..2] == [first, second] && Contents() == q[2..];
      NumOf2(first, second);
      Widths();
      var u := if NET_DATA_BIG_END then first * 0x100 + second else first + second * 0x100;
      v := if u >= 0x8000 then u - 0x1_0000 else u;
      ok := true;
    }

    // Four reads in a row, each unchecked.
    method Take4() returns (a: byte, b: byte, c: byte, d: byte)
      requires Valid() && |Contents()| >= 4
      modifies this`rpos, this`status
      ensures Valid()
      ensures old(Contents())[..4] == [a, b, c, d] && Contents() == old(Contents())[4..]
    {
      hide Contents, ReadableLen, WriteableLen;
      ghost var q := Contents();
      a := Take();
      b := Take();
      c := Take();
      d := Take();
      Front4(q, a, b, c, d, Contents());
    }

    method GetU32() returns (ok: bool, v: u32)
      requires Valid()
      modifies this`rpos, this`status
      ensures Valid() && (ok <==> |old(Contents())| >= 4)
      ensures ParseU32(old(Contents())) == if ok then Some((v, Contents())) else None
      ensures !ok ==> Contents() == old(Contents()) && rpos == old(rpos)
    {
      Accounting();
      hide Contents, ReadableLen, WriteableLen;
      if !CanRead(4) { return false, 0; }
      var a: int, b: int, c: int, d: int := Take4();
      NumOf4(a, b, c, d);
      v := if NET_DATA_BIG_END
      then a * 0x100_0000 + b * 0x1_0000 + c * 0x100 + d
      else a + b * 0x100 + c * 0x1_0000 + d * 0x100_0000;
      ok := true;
    }

    method GetS32() returns (ok: bool, v: s32)
      requires Valid()
      modifies this`rpos, this`status
      ensures Valid() && (ok <==> |old(Contents())| >= 4)
      ensures ParseS32(old(Contents())) == if ok then Some((v, Contents())) else None
      ensures !ok ==> Contents() == old(Contents()) && rpos == old(rpos)
    {
      Accounting();
      hide Contents, ReadableLen, WriteableLen;
      if !CanRead(4) { return false, 0; }
      var a: int, b: int, c: int, d: int := Take4();
      NumOf4(a, b, c, d);
      Widths();
      var u := if NET_DATA_BIG_END
      then a * 0x100_0000 + b * 0x1_0000 + c * 0x100 + d
      else a + b * 0x100 + c * 0x1_0000 + d * 0x100_0000;
      v := if u >= 0x8000_0000 then u - 0x1_0000_0000 else u;
      ok := true;
    }

    method GetU64() returns (ok: bool, v: u64)
      requires Valid()
      modifies this`rpos, this`status
      ensures Valid() && (ok <==> |old(Contents())| >= 8)
      ensures ParseU64(old(Contents())) == if ok then Some((v, Contents())) else None
      ensures !ok ==> Contents() == old(Contents()) && rpos == old(rpos)
    {
      hide Contents, ReadableLen, WriteableLen;
      Accounting();
      if !CanRead(8) { return false, 0; }
      ghost var q := Contents();
      var a: int, b: int, c: int, d: int := Take4();
      var e: int, f: int, g: int, h: int := Take4();
      assert q[..8] == q[..4] + q[4..][..4] && q[4..][4..] == q[8..];
      assert q[..8] == [a, b, c, d, e, f, g, h];
      NumOf8(a, b, c, d, e, f, g, h);
      v := if NET_DATA_BIG_END
      then (a * 0x100_0000_0000_0000 + b * 0x1_0000_0000_0000 + c * 0x100_0000_0000 + d * 0x1_0000_0000
            + e * 0x100_0000 + f * 0x1_0000 + g * 0x100 + h)
      else (a + b * 0x100 + c * 0x1_0000 + d * 0x100_0000 + e * 0x1_0000_0000
            + f * 0x100_0000_0000 + g * 0x1_0000_0000_0000 + h * 0x100_0000_0000_0000);
      ok := true;
    }

    method GetS64() returns (ok: bool, v: s64)
      requires Valid()
      modifies this`rpos, this`status
      ensures Valid() && (ok <==> |old(Contents())| >= 8)
      ensures ParseS64(old(Contents())) == if ok then Some((v, Contents())) else None
      ensures !ok ==> Contents() == old(Contents()) && rpos == old(rpos)
    {
      hide Contents, ReadableLen, WriteableLen;
      Accounting();
      if !CanRead(8) { return false, 0; }
      ghost var q := Contents();
      var a: int, b: int, c: int, d: int := Take4();
      var e: int, f: int, g: int, h: int := Take4();
      assert q[..8] == q[..4] + q[4..][..4] && q[4..][4..] == q[8..];
      assert q[..8] == [a, b, c, d, e, f, g, h];
      NumOf8(a, b, c, d, e, f, g, h);
      Widths();
      var u := if NET_DATA_BIG_END
      then (a * 0x100_0000_0000_0000 + b * 0x1_0000_0000_0000 + c * 0x100_0000_0000 + d * 0x1_0000_0000
            + e * 0x100_0000 + f * 0x1_0000 + g * 0x100 + h)
      else (a + b * 0x100 + c * 0x1_0000 + d * 0x100_0000 + e * 0x1_0000_0000
            + f * 0x100_0000_0000 + g * 0x1_0000_0000_0000 + h * 0x100_0000_0000_0000);
      v := if u >= 0x8000_0000_0000_0000 then u - 0x1_0000_0000_0000_0000 else u;
      ok := true;
    }

    // bb_readString takes its first byte unchecked, so one must be there.  When
    // the length can be read but not all characters are there, it is gone.
    method ReadString() returns (ok: bool, s: Bytes)
      requires Valid() && Contents() != []
      modifies this`rpos, this`status
      ensures Valid()
      ensures ParseString(old(Contents())).Some? ==>
                ok && ParseString(old(Contents())) == Some((s, Contents()))
      ensures var h := ParseLen(old(Contents()));
              ParseString(old(Contents())).None? && h.Some? && h.value.0 < 0x1_0000 ==> !ok && Contents() == h.value.1
    {
      hide Contents, ReadableLen, WriteableLen;
      var len: u32 := Take();
      if len == 0 {
        return true, [];
      }
      if len == MAX_BYTE_VALUE {
        var _, sl := GetU16();
        if sl == MAX_SHORT_VALUE {
          var _, sl32 := GetU32();
          len := sl32;
        } else {
          len := sl;
        }
      }
      ok, s := GetBytes(len);
    }

    /** Writing **/

    method PutU8(x: byte) returns (ok: bool)
      requires Valid()
      modifies this`wpos, this`status, data
      ensures Valid() && (ok <==> old(Room()) >= 1)
      ensures Contents() == if ok then old(Contents()) + [x] else old(Contents())
    {
      if !CanWrite(1) { return false; }
      if IsEmpty() {
        status := status.(empty := false);
      }
      WindowGrows(data[..], rpos, ReadableLen(), x);
      ghost var d := data[..];
      data[wpos] := x;
      assert data[..] == d[wpos := x];
      wpos := Next(wpos, 1, capacity);
      if wpos == rpos {
        status := status.(full := true);
      }
      ok := true;
    }

    method PutS8(x: s8) returns (ok: bool)
      requires Valid()
      modifies this`wpos, this`status, data
      ensures Valid() && (ok <==> old(Room()) >= 1)
      ensures Contents() == if ok then old(Contents()) + [EncS8(x)] else old(Contents())
    {
      hide Contents, ReadableLen, WriteableLen;
      ok := PutU8(if x < 0 then x + 256 else x);
    }

    // bb_put_bytes and bb_put_chars: refused when the ring is full, even for
    // no bytes at all.
    method PutBytes(s: Bytes) returns (ok: bool)
      requires Valid()
      modifies this`wpos, this`status, data
      ensures Valid() && (ok <==> old(Room()) >= 1 && old(Room()) >= |s|)
      ensures Contents() == if ok then old(Contents()) + s else old(Contents())
    {
      Accounting();
      hide Contents, ReadableLen, WriteableLen;
      if !CanWrite(|s|) { return false; }
      ghost var q := Contents();
      var len := |s|;
      while len > 0
        invariant Valid() && 0 <= len <= |s| && Room() >= len
        invariant Contents() == q + s[..|s| - len]
      {
        ghost var i := |s| - len;
        var _ := PutU8(s[|s| - len]);
        OneMore(q, s, i);
        len := len - 1;
      }
      assert s[..|s|] == s;
      ok := true;
    }

    // Writes in a row whose results the source does not look at.
    method Append2(a: byte, b: byte)
      requires Valid() && Room() >= 2
      modifies this`wpos, this`status, data
      ensures Valid() && Contents() == old(Contents()) + [a, b]
    {
      hide Contents, ReadableLen, WriteableLen;
      var _ := PutU8(a);
      var _ := PutU8(b);
    }

    method Append4(a: byte, b: byte, c: byte, d: byte)
      requires Valid() && Room() >= 4
      modifies this`wpos, this`status, data
      ensures Valid() && Contents() == old(Contents()) + [a, b, c, d]
    {
      hide Contents, ReadableLen, WriteableLen;
      Append2(a, b);
      Append2(c, d);
    }

    method Append8(a: byte, b: byte, c: byte, d: byte, e: byte, f: byte, g: byte, h: byte)
      requires Valid() && Room() >= 8
      modifies this`wpos, this`status, data
      ensures Valid() && Contents() == old(Contents()) + [a, b, c, d, e, f, g, h]
    {
      hide Contents, ReadableLen, WriteableLen;
      Append4(a, b, c, d);
      Append4(e, f, g, h);
    }

    method PutU16(x: u16) returns (ok: bool)
      requires Valid()
      modifies this`wpos, this`status, data
      ensures Valid() && (ok <==> old(Room()) >= 2)
      ensures Contents() == if ok then old(Contents()) + EncU16(x) else old(Contents())
    {
      Accounting();
      hide Contents, ReadableLen, WriteableLen;
      if !CanWrite(2) { return false; }
      Bytes2(x);
      var v: int := x;
      if NET_DATA_BIG_END {
        Append2(v / 0x100 % 256, v % 256);
      } else {
        Append2(v % 256, v / 0x100 % 256);
      }
      ok := true;
    }

    method PutS16(x: s16) returns (ok: bool)
      requires Valid()
      modifies this`wpos, this`status, data
      ensures Valid() && (ok <==> old(Room()) >= 2)
      ensures Contents() == if ok then old(Contents()) + EncS16(x) else old(Contents())
    {
      Accounting();
      hide Contents, ReadableLen, WriteableLen;
      if !CanWrite(2) { return false; }
      Widths();
      ShiftOfPattern2(x, Pattern(x, 2));
      Bytes2(Pattern(x, 2));
      var v: int := x;
      if NET_DATA_BIG_END {
        Append2(v / 0x100 % 256, v % 256);
      } else {
        Append2(v % 256, v / 0x100 % 256);
      }
      ok := true;
    }

    method PutU32(x: u32) returns (ok: bool)
      requires Valid()
      modifies this`wpos, this`status, data
      ensures Valid() && (ok <==> old(Room()) >= 4)
      ensures Contents() == if ok then old(Contents()) + EncU32(x) else old(Contents())
    {
      Accounting();
      hide Contents, ReadableLen, WriteableLen;
      if !CanWrite(4) { return false; }
      Bytes4(x);
      var v: int := x;
      if NET_DATA_BIG_END {
        Append4(v / 0x100_0000 % 256, v / 0x1_0000 % 256, v / 0x100 % 256, v % 256);
      } else {
        Append4(v % 256, v / 0x100 % 256, v / 0x1_0000 % 256, v / 0x100_0000 % 256);
      }
      ok := true;
    }

    method PutS32(x: s32) returns (ok: bool)
      requires Valid()
      modifies this`wpos, this`status, data
      ensures Valid() && (ok <==> old(Room()) >= 4)
      ensures Contents() == if ok then old(Contents()) + EncS32(x) else old(Contents())
    {
      Accounting();
      hide Contents, ReadableLen, WriteableLen;
      if !CanWrite(4) { return false; }
      Widths();
      ShiftOfPattern4(x, Pattern(x, 4));
      Bytes4(Pattern(x, 4));
      var v: int := x;
      if NET_DATA_BIG_END {
        Append4(v / 0x100_0000 % 256, v / 0x1_0000 % 256, v / 0x100 % 256, v % 256);
      } else {
        Append4(v % 256, v / 0x100 % 256, v / 0x1_0000 % 256, v / 0x100_0000 % 256);
      }
      ok := true;
    }

    method PutU64(x: u64) returns (ok: bool)
      requires Valid()
      modifies this`wpos, this`status, data
      ensures Valid() && (ok <==> old(Room()) >= 8)
      ensures Contents() == if ok then old(Contents()) + EncU64(x) else old(Contents())
    {
      Accounting();
      hide Contents, ReadableLen, WriteableLen;
      if !CanWrite(8) { return false; }
      Bytes8(x);
      var v: int := x;
      if NET_DATA_BIG_END {
        Append8(v / 0x100_0000_0000_0000 % 256, v / 0x1_0000_0000_0000 % 256,
                v / 0x100_0000_0000 % 256, v / 0x1_0000_0000 % 256,
                v / 0x100_0000 % 256, v / 0x1_0000 % 256, v / 0x100 % 256, v % 256);
      } else {
        Append8(v % 256, v / 0x100 % 256, v / 0x1_0000 % 256, v / 0x100_0000 % 256,
                v / 0x1_0000_0000 % 256, v / 0x100_0000_0000 % 256,
                v / 0x1_0000_0000_0000 % 256, v / 0x100_0000_0000_0000 % 256);
      }
      ok := true;
    }

    method PutS64(x: s64) returns (ok: bool)
      requires Valid()
      modifies this`wpos, this`status, data
      ensures Valid() && (ok <==> old(Room()) >= 8)
      ensures Contents() == if ok then old(Contents()) + EncS64(x) else old(Contents())
    {
      hide Contents, ReadableLen, WriteableLen;
      Widths();
      ok := PutU64(if x < 0 then x + 0x1_0000_0000_0000_0000 else x);
    }

    // The length prefix alone.
    method WriteLen(len: u16) returns (ok: bool)
      requires Valid()
      modifies this`wpos, this`status, data
      ensures Valid()
      ensures ok <==> old(Room()) >= |EncLen(len)|
      ensures ok ==> Contents() == old(Contents()) + EncLen(len)
      ensures Partial(old(Contents()), Contents(), EncLen(len))
    {
      hide Contents, ReadableLen, WriteableLen;
      ghost var q := Contents();
      if len < MAX_BYTE_VALUE {
        ok := PutU8(len);
      } else if len < MAX_SHORT_VALUE {
        ok := PutU8(MAX_BYTE_VALUE);
        if !ok { return; }
        ghost var q1 := Contents();
        ok := PutU16(len);
        PartialAfter(q, q1, Contents(), [MAX_BYTE_VALUE], EncU16(len));
      } else {
        ok := PutU8(MAX_BYTE_VALUE);
        if !ok { return; }
        ghost var q1 := Contents();
        ok := PutU16(MAX_SHORT_VALUE);
        ghost var q2 := Contents();
        PartialAfter(q, q1, q2, [MAX_BYTE_VALUE], EncU16(MAX_SHORT_VALUE));
        PartialOfFirst(q, q2, [MAX_BYTE_VALUE] + EncU16(MAX_SHORT_VALUE), EncU32(len));
        if !ok { return; }
        ok := PutU32(len);
        PartialAfter(q, q2, Contents(), [MAX_BYTE_VALUE] + EncU16(MAX_SHORT_VALUE), EncU32(len));
      }
    }

    // A failing write leaves a prefix of the encoding behind.  The empty string
    // needs one byte more than it writes, because writing no characters to a
    // full ring fails.
    method WriteString(s: Option<Bytes>) returns (ok: bool)
      requires Valid()
      requires s.Some? ==> |s.value| < 0x1_0000
      modifies this`wpos, this`status, data
      ensures Valid()
      ensures s.None? ==> (ok <==> old(Room()) >= 1)
      ensures s.None? ==> Contents() == if ok then old(Contents()) + [0] else old(Contents())
      ensures s.Some? ==> (ok <==> old(Room()) >= |EncString(s.value)| && (s.value == [] ==> old(Room()) >= 2))
      ensures s.Some? && ok ==> Contents() == old(Contents()) + EncString(s.value)
      ensures s.Some? ==> Partial(old(Contents()), Contents(), EncString(s.value))
    {
      hide Contents, ReadableLen, WriteableLen;
      if s.None? {
        ok := PutU8(0);
        return;
      }
      ghost var q, e, t := Contents(), EncLen(|s.value|), s.value;
      ok := WriteLen(|s.value|);
      PartialOfFirst(q, Contents(), e, t);
      if !ok { return; }
      ghost var q1 := Contents();
      ok := PutBytes(s.value);
      PartialAfter(q, q1, Contents(), e, t);
    }

    /** Moving bytes between rings **/

    method MoveAll(src: Ring)
      requires Valid() && src.Valid() && src != this && src.data != data && Room() >= |src.Contents()|
      modifies this`wpos, this`status, data, src`rpos, src`status
      ensures Valid() && src.Valid() && src.Contents() == []
      ensures Contents() == old(Contents()) + old(src.Contents())
    {
      hide Valid, Contents, ReadableLen, WriteableLen, IsEmpty, IsFull, Window, Advance;
      src.Accounting();
      ghost var q, t := Contents(), src.Contents();
      ghost var taken: Bytes := [];
      while !src.IsEmpty()
        invariant Valid() && src.Valid()
        invariant (src.IsEmpty() <==> src.Contents() == []) && Room() >= |src.Contents()|
        invariant taken + src.Contents() == t
        invariant Contents() == q + taken
        decreases |src.Contents()|
      {
        var v := src.Take();
        var _ := PutU8(v);
        Assoc(taken, [v], src.Contents());
        Assoc(q, taken, [v]);
        taken := taken + [v];
        src.Accounting();
      }
    }

    // Appends the whole of src and empties it, or changes nothing.
    method PutBuf(src: Ring) returns (ok: bool)
      requires Valid() && src.Valid() && src != this && src.data != data
      modifies this`wpos, this`status, data, src`rpos, src`status
      ensures Valid() && src.Valid()
      ensures ok <==> old(Room()) >= 1 && old(Room()) >= |old(src.Contents())|
      ensures Contents() == if ok then old(Contents()) + old(src.Contents()) else old(Contents())
      ensures src.Contents() == if ok then [] else old(src.Contents())
    {
      Accounting();
      src.Accounting();
      hide Contents, ReadableLen, WriteableLen;
      var len := src.ReadableLen();
      if !CanWrite(len) { return false; }
      MoveAll(src);
      ok := true;
    }

    method MoveOne(dest: Ring) returns (ok: bool, p: byte)
      requires Valid() && dest.Valid() && dest != this && dest.data != data
      modifies this`rpos, this`status, dest`wpos, dest`status, dest.data
      ensures Valid() && dest.Valid() && (ok <==> old(Contents()) != [])
      ensures ok ==> [p] + Contents() == old(Contents())
      ensures ok ==> dest.Contents() == if old(dest.Room()) >= 1 then old(dest.Contents()) + [p]
                                        else old(dest.Contents())
    {
      hide Contents, ReadableLen, WriteableLen;
      ok, p := GetU8();
      if !ok { return; }
      var _ := dest.PutU8(p);
    }

    method MoveMany(dest: Ring, len: nat)
      requires Valid() && dest.Valid() && dest != this && dest.data != data && len <= |Contents()|
      modifies this`rpos, this`status, dest`wpos, dest`status, dest.data
      ensures Valid() && dest.Valid()
      ensures Contents() == old(Contents())[len..]
      ensures dest.Contents() == Kept(old(dest.Contents()), old(Contents())[..len], old(dest.Room()))
    {
      hide Contents, ReadableLen, WriteableLen;
      ghost var q, t, r := Contents(), dest.Contents(), dest.Room();
      ghost var taken: Bytes := [];
      var n := len;
      while n > 0
        invariant Valid() && dest.Valid() && 0 <= n <= len && |taken| == len - n
        invariant taken + Contents() == q
        invariant dest.Contents() == Kept(t, taken, r)
      {
        var _, p := MoveOne(dest);
        Assoc(taken, [p], Contents());
        KeptStep(t, taken, r, p);
        taken := taken + [p];
        n := n - 1;
      }
      Cut(taken, Contents());
    }

    // Moves the first len bytes to dest; bytes that dest has no room for are lost.
    method GetBuf(dest: Ring, len: nat) returns (ok: bool)
      requires Valid() && dest.Valid() && dest != this && dest.data != data
      modifies this`rpos, this`status, dest`wpos, dest`status, dest.data
      ensures Valid() && dest.Valid()
      ensures ok <==> ParseBytes(old(Contents()), len).Some?
      ensures Contents() == if ok then old(Contents())[len..] else old(Contents())
      ensures dest.Contents() == if ok then Kept(old(dest.Contents()), old(Contents())[..len], old(dest.Room()))
                                 else old(dest.Contents())
    {
      Accounting();
      hide Contents, ReadableLen, WriteableLen;
      if !CanRead(len) { return false; }
      MoveMany(dest, len);
      ok := true;
    }

    // Skips n bytes at once.  Skipping none of a full ring empties it.  Skipping
    // more than is queued makes used places readable again, or breaks the ring
    // if it was empty.
    method MoveForward(n: nat) returns (ok: bool)
      requires Valid()
      modifies this`rpos, this`status
      ensures ok && rpos == Onward(old(rpos), n, capacity)
      ensures n <= |old(Contents())| ==> Valid()
      ensures n <= |old(Contents())| && (n > 0 || old(Room()) > 0) ==> Contents() == old(Contents())[n..]
      ensures n == 0 && old(Room()) == 0 ==> Contents() == []
      ensures old(Contents()) == [] ==> (Valid() <==> n % capacity == 0)
      ensures old(Contents()) != [] && n > |old(Contents())| ==>
                var beyond := (n - |old(Contents())|) % capacity;
                Valid() && |Contents()| == if beyond == 0 then 0 else capacity - beyond
    {
      hide Window, Onward;
      Accounting();
      ghost var q := Contents();
      if n <= |q| {
        WindowDrop(data[..], rpos, ReadableLen(), n);
        WithinARound(rpos, n, capacity);
      } else {
        PastTheEnd(rpos, |q|, n, capacity);
      }
      if IsFull() {
        status := status.(full := false);
      }
      rpos := Onward(rpos, n, capacity);
      if rpos == wpos {
        status := status.(empty := true);
      }
      ok := true;
    }

    lemma IndexInWindow(i: nat)
      requires Valid()
      ensures i < |Contents()| ==> data[(i + rpos) % capacity] == Contents()[i]
    {
      if i < |Contents()| {
        WrapsOnce(i + rpos, capacity);
        WindowAt(data[..], rpos, ReadableLen(), i);
      }
    }

    // The i-th queued byte, without reading it.
    function GetByIndex(i: u16): (b: byte)
      requires Valid()
      reads this`rpos, this`wpos, this`status, data
      ensures i < |Contents()| ==> b == Contents()[i]
    {
      IndexInWindow(i);
      data[(i + rpos) % capacity]
    }
  }

  // `after` extends `before` by a prefix of e.
  ghost predicate Partial(before: Bytes, after: Bytes, e: Bytes)
  {
    && |before| <= |after| <= |before| + |e|
    && after == before + e[..|after| - |before|]
  }

  lemma PartialOfFirst(before: Bytes, after: Bytes, e: Bytes, f: Bytes)
    requires Partial(before, after, e)
    ensures Partial(before, after, e + f)
  {
    assert (e + f)[..|after| - |before|] == e[..|after| - |before|];
  }

  // All of e, then as much of f as there was room for.
  lemma PartialAfter(before: Bytes, mid: Bytes, after: Bytes, e: Bytes, f: Bytes)
    requires mid == before + e
    requires after == mid || after == mid + f
    ensures Partial(before, after, e + f)
    ensures after == mid + f ==> after == before + (e + f)
  {
    if after == mid {
      assert (e + f)[..|e|] == e;
    } else {
      assert after == before + (e + f);
      assert (e + f)[..|e + f|] == e + f;
    }
  }

  lemma OneMore(q: Bytes, s: Bytes, i: nat)
    requires i < |s|
    ensures q + s[..i] + [s[i]] == q + s[..i + 1]
  {
    Assoc(q, s[..i], [s[i]]);
    assert s[..i] + [s[i]] == s[..i + 1];
  }

  // A queue t to which s was offered byte by byte, with room for r of them.
  ghost function Kept(t: Bytes, s: Bytes, r: nat): (u: Bytes)
    ensures |u| == |t| + (if |s| < r then |s| else r) && t <= u && u[|t|..] <= s
  {
    t + s[..Min(|s|, r)]
  }

  lemma KeptAll(s: Bytes, r: nat)
    requires |s| <= r
    ensures Kept([], s, r) == s
  {
  }

  lemma KeptStep(t: Bytes, s: Bytes, r: nat, x: byte)
    ensures Kept(t, s + [x], r) == if |s| < r then Kept(t, s, r) + [x] else Kept(t, s, r)
  {
    if |s| >= r {
      assert (s + [x])[..r] == s[..r];
    }
  }

  function Min(a: int, b: int): int {
    if a < b then a else b
  }

  lemma Bytes2(x: nat)
    ensures EncUnsigned(x, 2) ==
            if NET_DATA_BIG_END then [x / 0x100 % 256, x % 256] else [x % 256, x / 0x100 % 256]
  {
    Shifts2(x);
    var a, b := x / 0x100 % 256, x % 256;
    assert Reversed([a, b]) == [b, a];
  }

  lemma Bytes4(x: nat)
    ensures EncUnsigned(x, 4) ==
            if NET_DATA_BIG_END then [x / 0x100_0000 % 256, x / 0x1_0000 % 256, x / 0x100 % 256, x % 256]
            else [x % 256, x / 0x100 % 256, x / 0x1_0000 % 256, x / 0x100_0000 % 256]
  {
    Shifts4(x);
    var a, b, c, d := x / 0x100_0000 % 256, x / 0x1_0000 % 256, x / 0x100 % 256, x % 256;
    assert Reversed([a, b, c, d]) == [d, c, b, a];
  }

  lemma Turns(y: int, k: int)
    ensures (y + 256 * k) % 256 == y % 256
    ensures (y + 256 * k) / 256 == y / 256 + k
  {
    assert y + 256 * k == 256 * (y / 256 + k) + y % 256;
  }

  // An arithmetic shift of a negative number has the bytes of its pattern.
  lemma ShiftOfPattern2(x: int, p: int)
    requires p == x || p == x + 0x1_0000
    ensures p % 256 == x % 256
    ensures p / 0x100 % 256 == x / 0x100 % 256
  {
    if p != x {
      Turns(x, 0x100);
      Turns(x / 0x100, 1);
    }
  }

  lemma ShiftOfPattern4(x: int, p: int)
    requires p == x || p == x + 0x1_0000_0000
    ensures p % 256 == x % 256
    ensures p / 0x100 % 256 == x / 0x100 % 256
    ensures p / 0x1_0000 % 256 == x / 0x1_0000 % 256
    ensures p / 0x100_0000 % 256 == x / 0x100_0000 % 256
  {
    if p != x {
      var x1 := x / 0x100;
      var x2 := x1 / 0x100;
      Turns(x, 0x100_0000);
      Turns(x1, 0x1_0000);
      Turns(x2, 0x100);
      Turns(x2 / 0x100, 1);
      Halves(x);
      Halves(p);
    }
  }

  lemma Halves(x: int)
    ensures x / 0x1_0000 == x / 0x100 / 0x100
    ensures x / 0x100_0000 == x / 0x100 / 0x100 / 0x100
  {
  }

  lemma Bytes8(x: nat)
    ensures EncUnsigned(x, 8) ==
            if NET_DATA_BIG_END
            then [x / 0x100_0000_0000_0000 % 256, x / 0x1_0000_0000_0000 % 256,
                  x / 0x100_0000_0000 % 256, x / 0x1_0000_0000 % 256,
                  x / 0x100_0000 % 256, x / 0x1_0000 % 256, x / 0x100 % 256, x % 256]
            else [x % 256, x / 0x100 % 256, x / 0x1_0000 % 256, x / 0x100_0000 % 256,
                  x / 0x1_0000_0000 % 256, x / 0x100_0000_0000 % 256,
                  x / 0x1_0000_0000_0000 % 256, x / 0x100_0000_0000_0000 % 256]
  {
    Shifts8(x);
    var a, b, c, d := x / 0x100_0000_0000_0000 % 256, x / 0x1_0000_0000_0000 % 256,
      x / 0x100_0000_0000 % 256, x / 0x1_0000_0000 % 256;
    var e, f, g, h := x / 0x100_0000 % 256, x / 0x1_0000 % 256, x / 0x100 % 256, x % 256;
    assert Reversed([a, b, c, d, e, f, g, h]) == [h, g, f, e, d, c, b, a];
  }

  lemma Front4(q: Bytes, a: byte, b: byte, c: byte, d: byte, rest: Bytes)
    requires q == [a] + ([b] + ([c] + ([d] + rest)))
    ensures q[..4] == [a, b, c, d] && q[4..] == rest
  {
  }

  lemma NumOf2(a: byte, b: byte)
    ensures DecUnsigned([a, b]) == if NET_DATA_BIG_END then a * 0x100 + b else b * 0x100 + a
  {
    NumStep([a], b);
    NumStep([b], a);
    NumStep([], a);
    NumStep([], b);
    assert [a] + [b] == [a, b] && [b] + [a] == [b, a] && [] + [a] == [a] && [] + [b] == [b];
    assert Reversed([a, b]) == [b, a];
  }

  lemma NumOf4(a: byte, b: byte, c: byte, d: byte)
    ensures DecUnsigned([a, b, c, d]) ==
            if NET_DATA_BIG_END then a * 0x100_0000 + b * 0x1_0000 + c * 0x100 + d
            else d * 0x100_0000 + c * 0x1_0000 + b * 0x100 + a
  {
    BigEndian4(a, b, c, d);
    BigEndian4(d, c, b, a);
    assert Reversed([a, b, c, d]) == [d, c, b, a];
  }

  lemma NumStep(s: Bytes, x: byte)
    ensures Num(s + [x]) == Num(s) * 256 + x
  {
    assert (s + [x])[..|s|] == s;
  }

  lemma BigEndian4(a: byte, b: byte, c: byte, d: byte)
    ensures Num([a, b, c, d]) == a * 0x100_0000 + b * 0x1_0000 + c * 0x100 + d
  {
    NumStep([a, b, c], d);
    NumStep([a, b], c);
    NumStep([a], b);
    NumStep([], a);
    assert [a, b, c] + [d] == [a, b, c, d];
    assert [a, b] + [c] == [a, b, c];
    assert [a] + [b] == [a, b];
    assert [] + [a] == [a];
  }

  lemma BigEndian8(a: byte, b: byte, c: byte, d: byte, e: byte, f: byte, g: byte, h: byte)
    ensures Num([a, b, c, d, e, f, g, h]) ==
            (a * 0x100_0000 + b * 0x1_0000 + c * 0x100 + d) * 0x1_0000_0000
            + e * 0x100_0000 + f * 0x1_0000 + g * 0x100 + h
  {
    BigEndian4(a, b, c, d);
    NumStep([a, b, c, d], e);
    NumStep([a, b, c, d, e], f);
    NumStep([a, b, c, d, e, f], g);
    NumStep([a, b, c, d, e, f, g], h);
    assert [a, b, c, d] + [e] == [a, b, c, d, e];
    assert [a, b, c, d, e] + [f] == [a, b, c, d, e, f];
    assert [a, b, c, d, e, f] + [g] == [a, b, c, d, e, f, g];
    assert [a, b, c, d, e, f, g] + [h] == [a, b, c, d, e, f, g, h];
  }

  lemma NumOf8(a: byte, b: byte, c: byte, d: byte, e: byte, f: byte, g: byte, h: byte)
    ensures DecUnsigned([a, b, c, d, e, f, g, h]) ==
            if NET_DATA_BIG_END
            then a * 0x100_0000_0000_0000 + b * 0x1_0000_0000_0000 + c * 0x100_0000_0000 + d * 0x1_0000_0000
                 + e * 0x100_0000 + f * 0x1_0000 + g * 0x100 + h
            else h * 0x100_0000_0000_0000 + g * 0x1_0000_0000_0000 + f * 0x100_0000_0000 + e * 0x1_0000_0000
                 + d * 0x100_0000 + c * 0x1_0000 + b * 0x100 + a
  {
    BigEndian8(a, b, c, d, e, f, g, h);
    BigEndian8(h, g, f, e, d, c, b, a);
    assert Reversed([a, b, c, d, e, f, g, h]) == [h, g, f, e, d, c, b, a];
  }
}
