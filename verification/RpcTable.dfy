/**
 The RPC wait table of jm_client.c: who waits for which response.

 The callback of a response runs before its entry is given back, and may issue
 further requests.  A run is therefore a sequence of four kinds of steps: a
 request, any other message, the arrival of a response (its callback starts),
 and the return of the callback that started last.
 */
module RpcTable {
  import opened Wire

  // A function pointer together with its argument.
  type Callback = int

  // client_msg_result_t without its link.  Slots are listed oldest first; the
  // source's list starts at the newest.
  datatype Slot = Slot(inUsed: bool, id: int, cb: Option<Callback>)

  const FREE := Slot(false, 0, None)

  const MAX_ID := 0x7FFF_FFFF

  // The newest of the first n slots that has the id, or -1.
  function FindId(slots: seq<Slot>, n: nat, id: int): (i: int)
    requires n <= |slots|
    ensures -1 <= i < n
    ensures i >= 0 ==> slots[i].id == id
    ensures forall j :: i < j < n ==> slots[j].id != id
  {
    if n == 0 then -1 else if slots[n - 1].id == id then n - 1 else FindId(slots, n - 1, id)
  }

  // The newest of the first n slots that is not in use, or -1.
  function FindFree(slots: seq<Slot>, n: nat): (i: int)
    requires n <= |slots|
    ensures -1 <= i < n
    ensures i >= 0 ==> !slots[i].inUsed
    ensures forall j :: i < j < n ==> slots[j].inUsed
  {
    if n == 0 then -1 else if !slots[n - 1].inUsed then n - 1 else FindFree(slots, n - 1)
  }

  // The table after room was made for one more entry, and where.
  function Allocated(slots: seq<Slot>): (r: (seq<Slot>, nat))
    ensures r.1 < |r.0|
  {
    var i := FindFree(slots, |slots|);
    if i >= 0 then (slots, i) else (slots + [Slot(true, 0, None)], |slots|)
  }

  /** Runs **/

  // Other is a message that is no request; it takes an id all the same.
  datatype Step =
    | Other
    | Invoke(cb: Option<Callback>, sent: bool)
    | Response(id: int)
    | Return

  // issued[k] is the callback of the request with id k + 1, None if that id
  // went to one of the others; delivered counts how often which callback was
  // started for which id; running is the stack of their slots.
  datatype State = State(slots: seq<Slot>, issued: seq<Option<Callback>>, others: nat, failed: set<int>,
                         delivered: multiset<(int, Option<Callback>)>, running: seq<nat>)

  const INIT := State([], [], 0, {}, multiset{}, [])

  function Registered(slots: seq<Slot>, id: int, cb: Option<Callback>, sent: bool): seq<Slot> {
    var (s, i) := Allocated(slots);
    var t := if cb.Some? then s[i := Slot(true, id, cb)] else s;
    if sent then t else t[i := FREE]
  }

  function Next(s: State, step: Step): State {
    match step
    case Other => s.(issued := s.issued + [None], others := s.others + 1)
    case Invoke(cb, sent) =>
      var id := |s.issued| + 1;
      s.(slots := Registered(s.slots, id, cb, sent), issued := s.issued + [cb],
         failed := if sent then s.failed else s.failed + {id})
    case Response(id) =>
      var i := FindId(s.slots, |s.slots|, id);
      if i < 0 then s
      else s.(delivered := s.delivered + multiset{(id, s.slots[i].cb)}, running := s.running + [i])
    case Return =>
      if s.running == [] then s
      else
        var i := s.running[|s.running| - 1];
        s.(slots := if i < |s.slots| then s.slots[i := FREE] else s.slots, running := s.running[..|s.running| - 1])
  }

  function Run(s: State, steps: seq<Step>): State
    decreases |steps|
  {
    if steps == [] then s else Run(Next(s, steps[0]), steps[1..])
  }

  // A response whose callback is still running when it arrives.
  predicate Reenters(s: State, step: Step) {
    step.Response? && FindId(s.slots, |s.slots|, step.id) in s.running
  }

  predicate RunReenters(s: State, steps: seq<Step>)
    decreases |steps|
  {
    steps != [] && (Reenters(s, steps[0]) || RunReenters(Next(s, steps[0]), steps[1..]))
  }

  // What the source demands of its callers: callbacks are not null, and ids
  // stay within the positive sint32_t.
  predicate StepOk(s: State, step: Step) {
    match step
    case Other => |s.issued| < MAX_ID
    case Invoke(cb, _) => cb.Some? && |s.issued| < MAX_ID
    case Response(id) => 1 <= id <= MAX_ID
    case Return => s.running != []
  }

  predicate RunOk(s: State, steps: seq<Step>)
    decreases |steps|
  {
    steps != [] ==> StepOk(s, steps[0]) && RunOk(Next(s, steps[0]), steps[1..])
  }

  /** The invariant **/

  function UsedSet(slots: seq<Slot>): set<nat> {
    set i | 0 <= i < |slots| && slots[i].inUsed
  }

  // An entry is free or holds an open request with its own callback.
  predicate SlotOk(s: State, e: Slot) {
    if e.inUsed then 1 <= e.id <= |s.issued| && e.cb.Some? && e.cb == s.issued[e.id - 1] && e.id !in s.failed
    else e == FREE
  }

  predicate SlotsOk(s: State) {
    forall i :: 0 <= i < |s.slots| ==> SlotOk(s, s.slots[i])
  }

  // No two entries hold the same request.
  predicate IdsDistinct(slots: seq<Slot>) {
    forall i, j :: 0 <= i < j < |slots| && slots[i].inUsed && slots[j].inUsed ==> slots[i].id != slots[j].id
  }

  // Each running callback has an entry of its own.
  predicate RunningOk(s: State) {
    && (forall k :: 0 <= k < |s.running| ==> s.running[k] < |s.slots| && s.slots[s.running[k]].inUsed)
    && (forall k, l :: 0 <= k < l < |s.running| ==> s.running[k] != s.running[l])
  }

  // Every delivery went to the callback of its request, and only once.
  predicate DeliveredOk(s: State) {
    forall p :: p in s.delivered ==>
      1 <= p.0 <= |s.issued| && p.1 == s.issued[p.0 - 1] && p.0 !in s.failed && s.delivered[p] == 1
  }

  predicate WasDelivered(s: State, e: Slot) {
    (e.id, e.cb) in s.delivered
  }

  // An open request was delivered exactly when its callback is running.
  predicate OpenOk(s: State) {
    forall i :: 0 <= i < |s.slots| && s.slots[i].inUsed ==> (WasDelivered(s, s.slots[i]) <==> i in s.running)
  }

  predicate FailedOk(s: State) {
    forall id :: id in s.failed ==> 1 <= id <= |s.issued|
  }

  // pending = issued - delivered - failed, where pending requests are those
  // with an entry whose callback has not started.
  predicate Conserved(s: State) {
    |UsedSet(s.slots)| - |s.running| == |s.issued| - s.others - |s.delivered| - |s.failed|
  }

  predicate Inv(s: State) {
    && SlotsOk(s) && IdsDistinct(s.slots) && RunningOk(s) && DeliveredOk(s)
    && OpenOk(s) && FailedOk(s) && Conserved(s)
  }

  lemma UsedSetUpdate(slots: seq<Slot>, i: nat, e: Slot)
    requires i < |slots|
    ensures |UsedSet(slots[i := e])| ==
            |UsedSet(slots)| - (if slots[i].inUsed then 1 else 0) + (if e.inUsed then 1 else 0)
  {
    var t := slots[i := e];
    if slots[i].inUsed && !e.inUsed {
      assert UsedSet(t) == UsedSet(slots) - {i};
    } else if !slots[i].inUsed && e.inUsed {
      assert UsedSet(t) == UsedSet(slots) + {i};
    } else {
      assert UsedSet(t) == UsedSet(slots);
    }
  }

  lemma UsedSetGrows(slots: seq<Slot>, e: Slot)
    ensures |UsedSet(slots + [e])| == |UsedSet(slots)| + if e.inUsed then 1 else 0
  {
    var t := slots + [e];
    if e.inUsed {
      assert UsedSet(t) == UsedSet(slots) + {|slots|};
    } else {
      assert UsedSet(t) == UsedSet(slots);
    }
  }

  function Entry(id: int, cb: Option<Callback>, sent: bool): Slot {
    if sent then Slot(true, id, cb) else FREE
  }

  lemma RegisteredIs(slots: seq<Slot>, id: int, cb: Option<Callback>, sent: bool)
    requires cb.Some?
    ensures Registered(slots, id, cb, sent) ==
            var i := FindFree(slots, |slots|);
            if i >= 0 then slots[i := Entry(id, cb, sent)] else slots + [Entry(id, cb, sent)]
  {
    hide FindFree;
    var i := FindFree(slots, |slots|);
    if i >= 0 {
      UpdateTwice(slots, i, Slot(true, id, cb), FREE);
    } else {
      UpdateLast(slots, Slot(true, 0, None), Slot(true, id, cb));
      UpdateLast(slots, Slot(true, id, cb), FREE);
    }
  }

  lemma UpdateTwice(slots: seq<Slot>, i: nat, a: Slot, b: Slot)
    requires i < |slots|
    ensures slots[i := a][i := b] == slots[i := b]
  {
  }

  lemma UpdateLast(slots: seq<Slot>, a: Slot, b: Slot)
    ensures (slots + [a])[|slots| := b] == slots + [b]
  {
  }

  // A request recorded in the free slot i, or behind the last one.
  function Recorded(s: State, i: nat, cb: Option<Callback>, sent: bool): State
    requires i <= |s.slots|
  {
    var id := |s.issued| + 1;
    var e := Entry(id, cb, sent);
    s.(slots := if i < |s.slots| then s.slots[i := e] else s.slots + [e], issued := s.issued + [cb],
       failed := if sent then s.failed else s.failed + {id})
  }

  lemma RecordedOpen(s: State, i: nat, cb: Option<Callback>, sent: bool)
    requires Inv(s) && cb.Some? && i <= |s.slots| && (i < |s.slots| ==> !s.slots[i].inUsed)
    ensures var t := Recorded(s, i, cb, sent); SlotsOk(t) && OpenOk(t)
  {
    hide Conserved;
    var t := Recorded(s, i, cb, sent);
    assert i !in s.running;
    assert (|s.issued| + 1, cb) !in s.delivered;
    forall k | 0 <= k < |t.slots|
      ensures SlotOk(t, t.slots[k])
      ensures t.slots[k].inUsed ==> (WasDelivered(t, t.slots[k]) <==> k in t.running)
    {
      if k != i {
        assert SlotOk(s, s.slots[k]);
      }
    }
  }

  lemma RecordedRest(s: State, i: nat, cb: Option<Callback>, sent: bool)
    requires Inv(s) && cb.Some? && i <= |s.slots| && (i < |s.slots| ==> !s.slots[i].inUsed)
    ensures var t := Recorded(s, i, cb, sent);
            IdsDistinct(t.slots) && RunningOk(t) && DeliveredOk(t) && FailedOk(t) && Conserved(t)
  {
    hide UsedSet, OpenOk;
    var t := Recorded(s, i, cb, sent);
    var e := Entry(|s.issued| + 1, cb, sent);
    if i < |s.slots| {
      UsedSetUpdate(s.slots, i, e);
    } else {
      UsedSetGrows(s.slots, e);
    }
    assert |s.issued| + 1 !in s.failed;
    assert forall k :: 0 <= k < |s.slots| ==> SlotOk(s, s.slots[k]);
  }

  lemma InvokeKeepsInv(s: State, cb: Option<Callback>, sent: bool)
    requires Inv(s) && cb.Some?
    ensures Inv(Next(s, Invoke(cb, sent)))
  {
    hide SlotsOk, IdsDistinct, RunningOk, DeliveredOk, OpenOk, FailedOk, Conserved, Registered, FindFree;
    RegisteredIs(s.slots, |s.issued| + 1, cb, sent);
    var f := FindFree(s.slots, |s.slots|);
    var i := if f >= 0 then f else |s.slots|;
    RecordedOpen(s, i, cb, sent);
    RecordedRest(s, i, cb, sent);
    assert Next(s, Invoke(cb, sent)) == Recorded(s, i, cb, sent);
  }

  lemma ResponseKeepsInv(s: State, id: int)
    requires Inv(s) && 1 <= id && !Reenters(s, Response(id))
    ensures Inv(Next(s, Response(id)))
  {
    hide UsedSet, FindId;
    var i := FindId(s.slots, |s.slots|, id);
    if i >= 0 {
      var t := Next(s, Response(id));
      var e := s.slots[i];
      assert SlotOk(s, e);
      assert !WasDelivered(s, e);
      forall k | 0 <= k < |s.slots| && s.slots[k].inUsed
        ensures WasDelivered(t, s.slots[k]) <==> k in t.running
      {
        assert s.slots[k].id == id <==> k == i;
        assert t.running[|s.running|] == i;
        assert k in t.running <==> k in s.running || k == i;
      }
      forall k | 0 <= k < |s.slots|
        ensures SlotOk(t, t.slots[k])
      {
        assert SlotOk(s, s.slots[k]);
      }
    }
  }

  lemma ReturnKeepsInv(s: State)
    requires Inv(s) && s.running != []
    ensures Inv(Next(s, Return))
  {
    hide UsedSet, FindId;
    var t := Next(s, Return);
    var n := |s.running| - 1;
    var i := s.running[n];
    UsedSetUpdate(s.slots, i, FREE);
    forall k | 0 <= k < |t.slots|
      ensures SlotOk(t, t.slots[k])
      ensures t.slots[k].inUsed ==> (WasDelivered(t, t.slots[k]) <==> k in t.running)
    {
      assert SlotOk(s, s.slots[k]);
      assert k != i ==> (k in t.running <==> k in s.running);
    }
  }

  lemma OtherKeepsInv(s: State)
    requires Inv(s)
    ensures Inv(Next(s, Other))
  {
    var t := Next(s, Other);
    forall i | 0 <= i < |t.slots|
      ensures SlotOk(t, t.slots[i])
      ensures t.slots[i].inUsed ==> (WasDelivered(t, t.slots[i]) <==> i in t.running)
    {
      assert SlotOk(s, s.slots[i]);
    }
  }

  lemma StepKeepsInv(s: State, step: Step)
    requires Inv(s) && StepOk(s, step) && !Reenters(s, step)
    ensures Inv(Next(s, step))
  {
    hide Inv;
    match step {
      case Other => OtherKeepsInv(s);
      case Invoke(cb, sent) => InvokeKeepsInv(s, cb, sent);
      case Response(id) => ResponseKeepsInv(s, id);
      case Return => ReturnKeepsInv(s);
    }
  }

  // Over every run without re-entrance the full invariant holds: each callback
  // at most once, and pending = issued - delivered - failed.
  lemma {:induction false} RunKeepsInv(s: State, steps: seq<Step>)
    requires Inv(s) && RunOk(s, steps) && !RunReenters(s, steps)
    ensures Inv(Run(s, steps))
    decreases |steps|
  {
    hide Inv;
    if steps == [] {
    } else {
      StepKeepsInv(s, steps[0]);
      RunKeepsInv(Next(s, steps[0]), steps[1..]);
    }
  }

  lemma InitInv()
    ensures Inv(INIT)
  {
    assert UsedSet([]) == {};
  }

  // A response that was answered before finds nobody waiting.
  lemma RepeatedResponseIgnored(s: State, id: int)
    requires Inv(s) && 1 <= id <= |s.issued| && (id, s.issued[id - 1]) in s.delivered
    requires !Reenters(s, Response(id))
    ensures Next(s, Response(id)) == s
  {
    var i := FindId(s.slots, |s.slots|, id);
    if i >= 0 {
      var e := s.slots[i];
      assert false by {
        assert SlotOk(s, e);
        assert WasDelivered(s, e);
      }
    }
  }

  /** What holds over every run, re-entrant or not **/

  // Every delivery went to the callback of its request, sent at that.
  predicate ToOwners(s: State) {
    forall p :: p in s.delivered ==> 1 <= p.0 <= |s.issued| && p.1 == s.issued[p.0 - 1] && p.0 !in s.failed
  }

  predicate Always(s: State) {
    SlotsOk(s) && IdsDistinct(s.slots) && FailedOk(s) && ToOwners(s)
  }

  lemma RecordedAlways(s: State, i: nat, cb: Option<Callback>, sent: bool)
    requires Always(s) && cb.Some? && i <= |s.slots| && (i < |s.slots| ==> !s.slots[i].inUsed)
    ensures Always(Recorded(s, i, cb, sent))
  {
    var t := Recorded(s, i, cb, sent);
    assert |s.issued| + 1 !in s.failed;
    forall k | 0 <= k < |t.slots|
      ensures SlotOk(t, t.slots[k])
    {
      assert k < |s.slots| ==> SlotOk(s, s.slots[k]);
    }
    assert forall k :: 0 <= k < |s.slots| ==> SlotOk(s, s.slots[k]);
  }

  lemma StepKeepsAlways(s: State, step: Step)
    requires Always(s) && StepOk(s, step)
    ensures Always(Next(s, step))
  {
    hide Registered, FindFree, FindId;
    match step {
      case Other =>
        assert forall k :: 0 <= k < |s.slots| ==> SlotOk(s, s.slots[k]);
      case Invoke(cb, sent) =>
        var i := RegisteredAt(s, cb, sent);
        RecordedAlways(s, i, cb, sent);
      case Response(id) =>
        var i := FindId(s.slots, |s.slots|, id);
        assert i >= 0 ==> SlotOk(s, s.slots[i]);
        assert forall k :: 0 <= k < |s.slots| ==> SlotOk(s, s.slots[k]);
      case Return =>
        assert forall k :: 0 <= k < |s.slots| ==> SlotOk(s, s.slots[k]);
    }
  }

  // A request with a callback is recorded in a free slot or behind the last.
  lemma RegisteredAt(s: State, cb: Option<Callback>, sent: bool) returns (i: nat)
    requires cb.Some?
    ensures i <= |s.slots| && (i < |s.slots| ==> !s.slots[i].inUsed)
    ensures Next(s, Invoke(cb, sent)) == Recorded(s, i, cb, sent)
  {
    hide Registered;
    RegisteredIs(s.slots, |s.issued| + 1, cb, sent);
    var f := FindFree(s.slots, |s.slots|);
    i := if f >= 0 then f else |s.slots|;
    hide FindFree;
  }

  // Over every run: live ids are distinct, each entry holds the callback of its
  // own request, and a response starts only the callback registered for its id.
  lemma {:induction false} RunKeepsAlways(s: State, steps: seq<Step>)
    requires Always(s) && RunOk(s, steps)
    ensures Always(Run(s, steps))
    decreases |steps|
  {
    hide Always;
    if steps == [] {
    } else {
      StepKeepsAlways(s, steps[0]);
      RunKeepsAlways(Next(s, steps[0]), steps[1..]);
    }
  }

  lemma InitAlways()
    ensures Always(INIT)
  {
  }

  /** Re-entrance is exactly what makes a callback run twice **/

  predicate DeliveredTwice(s: State) {
    exists p :: p in s.delivered && s.delivered[p] > 1
  }

  lemma {:induction false} DeliveriesStay(s: State, steps: seq<Step>)
    ensures s.delivered <= Run(s, steps).delivered
    decreases |steps|
  {
    if steps == [] {
    } else {
      DeliveriesStay(Next(s, steps[0]), steps[1..]);
    }
  }

  lemma ReentranceDeliversTwice(s: State, id: int)
    requires Inv(s) && 1 <= id && Reenters(s, Response(id))
    ensures DeliveredTwice(Next(s, Response(id)))
  {
    var i := FindId(s.slots, |s.slots|, id);
    var e := s.slots[i];
    assert SlotOk(s, e) && WasDelivered(s, e);
    assert Next(s, Response(id)).delivered[(id, e.cb)] > 1;
  }

  lemma {:induction false} TwiceIffReentersFrom(s: State, steps: seq<Step>)
    requires Inv(s) && RunOk(s, steps)
    ensures DeliveredTwice(Run(s, steps)) <==> RunReenters(s, steps)
    decreases |steps|
  {
    if !RunReenters(s, steps) {
      RunKeepsInv(s, steps);
    } else if Reenters(s, steps[0]) {
      var t := Next(s, steps[0]);
      ReentranceDeliversTwice(s, steps[0].id);
      DeliveriesStay(t, steps[1..]);
      var p :| p in t.delivered && t.delivered[p] > 1;
      assert Run(s, steps).delivered[p] > 1;
    } else {
      RunKeepsInv(s, [steps[0]]);
      assert Run(Next(s, steps[0]), []) == Next(s, steps[0]);
      TwiceIffReentersFrom(Next(s, steps[0]), steps[1..]);
    }
  }

  // Some callback runs twice in a run if and only if some response arrives
  // while the callback of the same response is still running.
  lemma TwiceIffReenters(steps: seq<Step>)
    requires RunOk(INIT, steps)
    ensures DeliveredTwice(Run(INIT, steps)) <==> RunReenters(INIT, steps)
  {
    InitInv();
    TwiceIffReentersFrom(INIT, steps);
  }

  /** Lost requests **/

  predicate Live(slots: seq<Slot>, id: int) {
    exists i :: 0 <= i < |slots| && slots[i].inUsed && slots[i].id == id
  }

  // A request that was sent, never delivered, and has no entry any more: its
  // response will find nobody.
  predicate Lost(s: State, id: int) {
    && 1 <= id <= |s.issued| && s.issued[id - 1].Some? && id !in s.failed
    && (id, s.issued[id - 1]) !in s.delivered && !Live(s.slots, id)
  }

  predicate Loses(s: State) {
    exists id :: 1 <= id <= |s.issued| && Lost(s, id)
  }

  // The callback that returns gives back an entry that meanwhile holds a
  // request nobody answered.
  predicate FreesOther(s: State, step: Step) {
    && step.Return? && s.running != []
    && var i := s.running[|s.running| - 1];
       i < |s.slots| && s.slots[i].inUsed && !WasDelivered(s, s.slots[i])
  }

  predicate RunFreesOther(s: State, steps: seq<Step>)
    decreases |steps|
  {
    steps != [] && (FreesOther(s, steps[0]) || RunFreesOther(Next(s, steps[0]), steps[1..]))
  }

  lemma StepLosesNothing(s: State, step: Step)
    requires Always(s) && StepOk(s, step) && !FreesOther(s, step) && !Loses(s)
    ensures !Loses(Next(s, step))
  {
    hide FindId, FindFree, Registered;
    var t := Next(s, step);
    var at := 0;
    if step.Invoke? {
      at := RegisteredAt(s, step.cb, step.sent);
    }
    forall id | 1 <= id <= |t.issued|
      ensures !Lost(t, id)
    {
      if id <= |s.issued| {
        assert !Lost(s, id);
        if Live(s.slots, id) {
          var k :| 0 <= k < |s.slots| && s.slots[k].inUsed && s.slots[k].id == id;
          assert SlotOk(s, s.slots[k]);
          assert t.slots[k] == s.slots[k] || (id, s.issued[id - 1]) in s.delivered;
        }
      } else {
        assert step.Invoke? && step.sent ==> t.slots[at].inUsed && t.slots[at].id == id;
      }
    }
  }

  lemma FreeingOtherLoses(s: State, step: Step)
    requires Always(s) && FreesOther(s, step)
    ensures Loses(Next(s, step))
  {
    var i := s.running[|s.running| - 1];
    var e, t := s.slots[i], Next(s, step);
    assert SlotOk(s, e);
    assert Lost(t, e.id);
  }

  lemma LostStays(s: State, step: Step, id: int)
    requires Always(s) && StepOk(s, step) && Lost(s, id)
    ensures Lost(Next(s, step), id)
  {
    hide FindFree, FindId, Registered;
    var t := Next(s, step);
    match step {
      case Other =>
      case Invoke(cb, sent) =>
        var at := RegisteredAt(s, cb, sent);
        assert forall k :: 0 <= k < |t.slots| && k != at ==> t.slots[k] == s.slots[k];
      case Response(r) =>
        var i := FindId(s.slots, |s.slots|, r);
        assert i >= 0 ==> SlotOk(s, s.slots[i]);
      case Return =>
    }
  }

  lemma {:induction false} LossStays(s: State, steps: seq<Step>)
    requires Always(s) && RunOk(s, steps) && Loses(s)
    ensures Loses(Run(s, steps))
    decreases |steps|
  {
    if steps == [] {
    } else {
      var id :| 1 <= id <= |s.issued| && Lost(s, id);
      hide Always, Lost;
      LostStays(s, steps[0], id);
      StepKeepsAlways(s, steps[0]);
      assert Lost(Next(s, steps[0]), id) && id <= |Next(s, steps[0]).issued|;
      LossStays(Next(s, steps[0]), steps[1..]);
    }
  }

  lemma {:induction false} LosesIffFreesOtherFrom(s: State, steps: seq<Step>)
    requires Always(s) && RunOk(s, steps) && !Loses(s)
    ensures Loses(Run(s, steps)) <==> RunFreesOther(s, steps)
    decreases |steps|
  {
    hide Always, Loses, Next, FreesOther;
    if steps == [] {
    } else {
      StepKeepsAlways(s, steps[0]);
      if FreesOther(s, steps[0]) {
        FreeingOtherLoses(s, steps[0]);
        LossStays(Next(s, steps[0]), steps[1..]);
      } else {
        StepLosesNothing(s, steps[0]);
        LosesIffFreesOtherFrom(Next(s, steps[0]), steps[1..]);
      }
    }
  }

  // Over all runs, a request is lost if and only if some returning callback
  // gives back the entry of a request that nobody answered.
  lemma LosesIffFreesOther(steps: seq<Step>)
    requires RunOk(INIT, steps)
    ensures Loses(Run(INIT, steps)) <==> RunFreesOther(INIT, steps)
  {
    InitAlways();
    LosesIffFreesOtherFrom(INIT, steps);
  }

  // That takes a re-entrant response.
  lemma {:induction false} FreeingOtherNeedsReentrance(s: State, steps: seq<Step>)
    requires Inv(s) && RunOk(s, steps) && RunFreesOther(s, steps)
    ensures RunReenters(s, steps)
    decreases |steps|
  {
    if FreesOther(s, steps[0]) || Reenters(s, steps[0]) {
    } else {
      StepKeepsInv(s, steps[0]);
      FreeingOtherNeedsReentrance(Next(s, steps[0]), steps[1..]);
    }
  }

  lemma OneStep(s: State, step: Step, rest: seq<Step>)
    ensures Run(s, [step] + rest) == Run(Next(s, step), rest)
    ensures RunOk(s, [step] + rest) <==> StepOk(s, step) && RunOk(Next(s, step), rest)
    ensures RunFreesOther(s, [step] + rest) <==> FreesOther(s, step) || RunFreesOther(Next(s, step), rest)
  {
    hide Next, StepOk, FreesOther;
    assert ([step] + rest)[1..] == rest;
  }

  // The states of the run below.
  const ONE := Slot(true, 1, Some(7))
  const TWICE := multiset{(1, Some(7)), (1, Some(7))}
  const INSIDE := State([ONE], [Some(7)], 0, {}, TWICE, [0, 0])
  const BETWEEN := State([Slot(true, 2, Some(8))], [Some(7), Some(8)], 0, {}, TWICE, [0])
  const AFTER := State([FREE], [Some(7), Some(8)], 0, {}, TWICE, [])

  lemma TwiceInside(rest: seq<Step>)
    ensures var steps := [Invoke(Some(7), true)] + ([Response(1)] + ([Response(1)] + rest));
            && Run(INIT, steps) == Run(INSIDE, rest) && (RunOk(INSIDE, rest) ==> RunOk(INIT, steps))
            && (RunFreesOther(INSIDE, rest) ==> RunFreesOther(INIT, steps))
  {
    hide Run, RunOk, RunFreesOther;
    var s1 := State([ONE], [Some(7)], 0, {}, multiset{}, []);
    var s2 := State([ONE], [Some(7)], 0, {}, multiset{(1, Some(7))}, [0]);
    assert Next(INIT, Invoke(Some(7), true)) == s1;
    assert Next(s1, Response(1)) == s2;
    assert Next(s2, Response(1)) == INSIDE;
    OneStep(s2, Response(1), rest);
    OneStep(s1, Response(1), [Response(1)] + rest);
    OneStep(INIT, Invoke(Some(7), true), [Response(1)] + ([Response(1)] + rest));
  }

  lemma SlotTakenOver(rest: seq<Step>)
    ensures var steps := [Return] + ([Invoke(Some(8), true)] + rest);
            && Run(INSIDE, steps) == Run(BETWEEN, rest) && (RunOk(BETWEEN, rest) ==> RunOk(INSIDE, steps))
            && (RunFreesOther(BETWEEN, rest) ==> RunFreesOther(INSIDE, steps))
  {
    hide Run, RunOk, RunFreesOther;
    var s4 := State([FREE], [Some(7)], 0, {}, TWICE, [0]);
    assert Next(INSIDE, Return) == s4;
    assert Next(s4, Invoke(Some(8), true)) == BETWEEN;
    OneStep(s4, Invoke(Some(8), true), rest);
    OneStep(INSIDE, Return, [Invoke(Some(8), true)] + rest);
  }

  lemma FreedAgain()
    ensures Next(BETWEEN, Return) == AFTER && StepOk(BETWEEN, Return) && FreesOther(BETWEEN, Return)
    ensures Lost(AFTER, 2) && Next(AFTER, Response(2)) == AFTER
  {
  }

  // And it happens: the response of request 1 arrives twice while its callback
  // runs, the inner return frees the entry, request 2 takes it, and the outer
  // return frees it again.
  lemma ReentranceLosesARequest()
    ensures var steps := [Invoke(Some(7), true), Response(1), Response(1), Return, Invoke(Some(8), true), Return];
            && RunOk(INIT, steps) && RunFreesOther(INIT, steps)
            && Lost(Run(INIT, steps), 2) && Next(Run(INIT, steps), Response(2)) == Run(INIT, steps)
  {
    hide Next, Lost, FreesOther, StepOk, INSIDE, BETWEEN, AFTER;
    var last := [Return] + [];
    var middle := [Return] + ([Invoke(Some(8), true)] + last);
    FreedAgain();
    OneStep(BETWEEN, Return, []);
    SlotTakenOver(last);
    TwiceInside(middle);
    assert [Invoke(Some(7), true), Response(1), Response(1), Return, Invoke(Some(8), true), Return]
        == [Invoke(Some(7), true)] + ([Response(1)] + ([Response(1)] + middle));
  }

  /** Requests without a callback **/

  // Such a request leaves an entry in use, exactly when it was sent and no
  // entry was free.
  lemma NullCallbackLeaks(slots: seq<Slot>, id: int, sent: bool)
    requires forall i :: 0 <= i < |slots| ==> slots[i].inUsed || slots[i] == FREE
    ensures |UsedSet(Registered(slots, id, None, sent))| > |UsedSet(slots)|
            <==> sent && FindFree(slots, |slots|) < 0
  {
    var (t, i) := Allocated(slots);
    UsedSetUpdate(t, i, FREE);
    UsedSetGrows(slots, Slot(true, 0, None));
  }

  // The entry stays for good: no step gives it back or hands it out again.
  lemma {:induction false} LeakStays(s: State, i: nat, steps: seq<Step>)
    requires i < |s.slots| && s.slots[i] == Slot(true, 0, None) && i !in s.running
    requires forall k :: 0 <= k < |steps| && steps[k].Response? ==> steps[k].id >= 1
    ensures var t := Run(s, steps); i < |t.slots| && t.slots[i] == Slot(true, 0, None)
    decreases |steps|
  {
    if steps == [] {
    } else {
      hide FindId, FindFree;
      LeakStays(Next(s, steps[0]), i, steps[1..]);
    }
  }

  lemma NullCallbackLeaksForGood(s: State, steps: seq<Step>)
    requires FindFree(s.slots, |s.slots|) < 0 && forall k :: 0 <= k < |s.running| ==> s.running[k] < |s.slots|
    requires forall k :: 0 <= k < |steps| && steps[k].Response? ==> steps[k].id >= 1
    ensures var t := Run(Next(s, Invoke(None, true)), steps);
            |s.slots| < |t.slots| && t.slots[|s.slots|] == Slot(true, 0, None)
  {
    hide FindFree;
    LeakStays(Next(s, Invoke(None, true)), |s.slots|, steps);
  }

  /** What is asked gets its answer **/

  // The steps that take an id, in order.
  function Numbered(steps: seq<Step>): (ns: seq<Step>) {
    if steps == [] then []
    else
      (
        var last := steps[|steps| - 1];
        Numbered(steps[..|steps| - 1]) + if last.Invoke? || last.Other? then [last] else []
      )
  }

  lemma {:induction false} RunLast(s: State, steps: seq<Step>)
    requires steps != []
    ensures Run(s, steps) == Next(Run(s, steps[..|steps| - 1]), steps[|steps| - 1])
    decreases |steps|
  {
    var front, last := steps[..|steps| - 1], steps[|steps| - 1];
    if |steps| == 1 {
      assert steps[1..] == [] && front == [];
    } else {
      RunLast(Next(s, steps[0]), steps[1..]);
      assert steps[1..][..|steps| - 2] == front[1..];
    }
  }

  // Ids are given in order, and the requests that failed are those not sent.
  lemma {:induction false} IssuedAre(steps: seq<Step>)
    ensures var s := Run(INIT, steps); var ns := Numbered(steps);
            && |s.issued| == |ns|
            && (forall k :: 0 <= k < |ns| ==> s.issued[k] == if ns[k].Invoke? then ns[k].cb else None)
            && (forall id :: id in s.failed <==> 1 <= id <= |ns| && ns[id - 1].Invoke? && !ns[id - 1].sent)
    decreases |steps|
  {
    if steps == [] {
    } else {
      IssuedAre(steps[..|steps| - 1]);
      RunLast(INIT, steps);
      hide Registered, FindId, Run;
    }
  }

  // A response is for whoever holds an entry with its id, and for nobody else.
  lemma ResponseReaches(s: State, id: int)
    requires Always(s) && id >= 1
    ensures Live(s.slots, id) ==>
              id <= |s.issued|
              && Next(s, Response(id)).delivered == s.delivered + multiset{(id, s.issued[id - 1])}
    ensures !Live(s.slots, id) ==> Next(s, Response(id)) == s
  {
    var i := FindId(s.slots, |s.slots|, id);
    if i >= 0 {
      assert SlotOk(s, s.slots[i]);
      assert Live(s.slots, id);
    } else {
      assert forall j :: 0 <= j < |s.slots| ==> s.slots[j].id != id;
    }
  }

  // Over all runs in which no entry was freed for another request: whoever sent
  // a request with a callback and got no response yet will get it.
  lemma PendingGetsResponse(steps: seq<Step>, id: int)
    requires RunOk(INIT, steps) && !RunFreesOther(INIT, steps) && 1 <= id <= |Numbered(steps)|
    requires var n := Numbered(steps)[id - 1]; n.Invoke? && n.sent && n.cb.Some?
    ensures var s := Run(INIT, steps); var n := Numbered(steps)[id - 1];
            (id, n.cb) !in s.delivered ==>
              Next(s, Response(id)).delivered == s.delivered + multiset{(id, n.cb)}
  {
    var s := Run(INIT, steps);
    InitAlways();
    RunKeepsAlways(INIT, steps);
    LosesIffFreesOther(steps);
    IssuedAre(steps);
    ResponseReaches(s, id);
    hide Run, RunOk, RunFreesOther, Numbered, Live, Always, Next;
    assert !Lost(s, id);
  }

  // A response that was delivered and returned leaves the others as they were.
  lemma ReturnFreesOwn(s: State, id: int)
    requires Always(s) && Live(s.slots, id) && id >= 1
    ensures var t := Next(Next(s, Response(id)), Return);
            && t.running == s.running && t.issued == s.issued && |t.slots| == |s.slots|
            && forall j :: Live(t.slots, j) <==> Live(s.slots, j) && j != id
  {
    var i := FindId(s.slots, |s.slots|, id);
    var k :| 0 <= k < |s.slots| && s.slots[k].inUsed && s.slots[k].id == id;
    assert i >= 0;
    assert SlotOk(s, s.slots[i]);
    var t := Next(Next(s, Response(id)), Return);
    assert (s.running + [i])[..|s.running|] == s.running;
    forall j
      ensures Live(t.slots, j) <==> Live(s.slots, j) && j != id
    {
      if Live(t.slots, j) {
        var l :| 0 <= l < |t.slots| && t.slots[l].inUsed && t.slots[l].id == j;
        assert l != i && s.slots[l] == t.slots[l];
      }
      if Live(s.slots, j) && j != id {
        var l :| 0 <= l < |s.slots| && s.slots[l].inUsed && s.slots[l].id == j;
        assert t.slots[l] == s.slots[l];
      }
    }
  }

  // The table grows exactly when every entry is in use.
  lemma GrowsIffFull(s: State, cb: Option<Callback>, sent: bool)
    ensures var t := Next(s, Invoke(cb, sent));
            |t.slots| == |s.slots| + if forall i :: 0 <= i < |s.slots| ==> s.slots[i].inUsed then 1 else 0
  {
  }

  /** The table itself **/

  class WaitNode {
    var inUsed: bool
    var msgId: int
    var callback: Option<Callback>
    var next: WaitNode?

    constructor ()
      ensures inUsed && msgId == 0 && callback == None && next == null
    {
      inUsed, msgId, callback, next := true, 0, None, null;
    }

    function View(): Slot
      reads this
    {
      Slot(inUsed, msgId, callback)
    }
  }

  // The node just older than the i-th.
  function Before(nodes: seq<WaitNode>, i: nat): WaitNode?
    requires i <= |nodes|
  {
    if i == 0 then null else nodes[i - 1]
  }

  class WaitTable {
    var head: WaitNode?
    var lastId: int
    ghost var nodes: seq<WaitNode>  // oldest first

    ghost predicate Valid()
      reads this, nodes
    {
      && head == Before(nodes, |nodes|)
      && (forall i {:trigger nodes[i].next} :: 0 <= i < |nodes| ==> nodes[i].next == Before(nodes, i))
      && (forall i, j :: 0 <= i < j < |nodes| ==> nodes[i] != nodes[j])
    }

    ghost function Slots(): (s: seq<Slot>)
      reads this, nodes
      ensures |s| == |nodes| && forall i :: 0 <= i < |s| ==> s[i] == nodes[i].View()
    {
      seq(|nodes|, i requires 0 <= i < |nodes| reads this, nodes => nodes[i].View())
    }

    constructor ()
      ensures Valid() && Slots() == [] && lastId == 0
    {
      head, lastId, nodes := null, 0, [];
    }

    // _c_GetRpcWaitForResponse
    method Find(id: int) returns (m: WaitNode?)
      requires Valid()
      ensures var i := FindId(Slots(), |Slots()|, id);
              m == if i < 0 then null else nodes[i]
    {
      m := head;
      ghost var n := |nodes|;
      while m != null
        invariant 0 <= n <= |nodes| && m == Before(nodes, n)
        invariant FindId(Slots(), |nodes|, id) == FindId(Slots(), n, id)
        decreases n
      {
        if m.msgId == id { return; }
        m := m.next;
        n := n - 1;
      }
    }

    method NextId()
      requires Valid()
      modifies this`lastId
      ensures Valid() && Slots() == old(Slots()) && lastId == old(lastId) + 1
    {
      lastId := lastId + 1;
    }

    // _c_createRpcWaitForResponse: a free entry is returned as it is, a new one
    // is put at the front, in use.
    method Create() returns (m: WaitNode)
      requires Valid()
      modifies this
      ensures Valid() && lastId == old(lastId)
      ensures var (s, i) := Allocated(old(Slots()));
              Slots() == s && m == nodes[i] && i < |nodes|
      ensures nodes == old(nodes) || (|nodes| == |old(nodes)| + 1 && fresh(nodes[|old(nodes)|]) && nodes[..|old(nodes)|] == old(nodes))
    {
      var c := head;
      ghost var n := |nodes|;
      while c != null
        invariant 0 <= n <= |nodes| && c == Before(nodes, n)
        invariant FindFree(Slots(), |nodes|) == FindFree(Slots(), n)
        decreases n
      {
        if !c.inUsed { return c; }
        c := c.next;
        n := n - 1;
      }
      m := new WaitNode();
      m.next := head;
      head := m;
      nodes := nodes + [m];
    }

    // _c_rebackRpcWaitRorResponse
    method Reback(m: WaitNode, ghost i: nat)
      requires Valid() && i < |nodes| && m == nodes[i]
      modifies m
      ensures Valid() && Slots() == old(Slots())[i := FREE]
    {
      m.inUsed := false;
      m.callback := None;
      m.msgId := 0;
    }

    method Fill(m: WaitNode, ghost i: nat, id: int, cb: Option<Callback>)
      requires Valid() && i < |nodes| && m == nodes[i]
      modifies m
      ensures Valid() && Slots() == old(Slots())[i := Slot(true, id, cb)]
    {
      m.msgId := id;
      m.callback := cb;
      m.inUsed := true;
    }

    // The bookkeeping of client_invokeRpc; sent is what the sender reports.
    method InvokeRpc(cb: Option<Callback>, sent: bool) returns (id: int)
      requires Valid()
      modifies this, nodes
      ensures Valid() && lastId == id == old(lastId) + 1
      ensures Slots() == Registered(old(Slots()), id, cb, sent)
      ensures old(nodes) <= nodes
    {
      hide Valid, Slots, FindFree;
      NextId();
      id := lastId;
      ghost var (s, i) := Allocated(Slots());
      var wait := Create();
      if cb.Some? {
        Fill(wait, i, id, cb);
      }
      if !sent {
        Reback(wait, i);
      }
    }

    // The two halves of _c_rpcMsgHandle, before and after the callback.
    method BeginResponse(id: int) returns (wait: WaitNode?, ghost i: int)
      requires Valid()
      ensures i == FindId(Slots(), |Slots()|, id)
      ensures wait == if i < 0 then null else nodes[i]
      ensures wait != null ==> wait.callback == Slots()[i].cb
    {
      wait := Find(id);
      i := FindId(Slots(), |Slots()|, id);
    }

    method EndResponse(wait: WaitNode, ghost i: nat)
      requires Valid() && i < |nodes| && wait == nodes[i]
      modifies wait
      ensures Valid() && Slots() == old(Slots())[i := FREE]
    {
      Reback(wait, i);
    }
  }

  // The client: every operation is a step of the runs above.
  class Client {
    const table: WaitTable
    ghost var state: State

    ghost predicate Valid()
      reads this, table, table.nodes
    {
      && table.Valid() && table.Slots() == state.slots && table.lastId == |state.issued|
      && forall k :: 0 <= k < |state.running| ==> state.running[k] < |state.slots|
    }

    constructor ()
      ensures Valid() && state == INIT && fresh(table)
    {
      table := new WaitTable();
      state := INIT;
    }

    // msg_create_msg for any other message.
    method OtherMessage()
      requires Valid()
      modifies this, table
      ensures Valid() && state == Next(old(state), Other)
    {
      hide WaitTable.Slots;
      table.NextId();
      state := Next(state, Other);
    }

    method Request(cb: Option<Callback>, sent: bool) returns (id: int)
      requires Valid()
      modifies this, table, table.nodes
      ensures Valid() && state == Next(old(state), Invoke(cb, sent)) && id == |state.issued|
    {
      hide WaitTable.Valid, WaitTable.Slots, FindId, FindFree;
      id := table.InvokeRpc(cb, sent);
      RegisteredGrows(state.slots, id, cb, sent);
      state := Next(state, Invoke(cb, sent));
    }

    // A response arrives; wait.callback is what is called now.
    method Arrive(id: int) returns (wait: WaitNode?)
      requires Valid()
      modifies this
      ensures Valid() && state == Next(old(state), Response(id))
      ensures wait == null <==> state == old(state)
      ensures wait != null ==>
                && |state.running| == |old(state.running)| + 1
                && wait == table.nodes[state.running[|old(state.running)|]]
                && state.delivered == old(state.delivered) + multiset{(id, wait.callback)}
    {
      hide WaitTable.Valid, FindId;
      ghost var i;
      wait, i := table.BeginResponse(id);
      state := Next(state, Response(id));
    }

    // The callback that started last returned.
    method Done(wait: WaitNode)
      requires Valid() && state.running != []
      requires wait == table.nodes[state.running[|state.running| - 1]]
      modifies this, wait
      ensures Valid() && state == Next(old(state), Return)
    {
      hide WaitTable.Valid, WaitTable.Slots;
      table.EndResponse(wait, state.running[|state.running| - 1]);
      state := Next(state, Return);
    }
  }

  lemma RegisteredGrows(slots: seq<Slot>, id: int, cb: Option<Callback>, sent: bool)
    ensures |Registered(slots, id, cb, sent)| >= |slots|
  {
    hide FindFree;
  }
}
