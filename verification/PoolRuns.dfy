/**
 The object pool of jm_mem.c as a state machine: named shelves of slots, each
 slot an item and whether it is handed out.  Items are any values; the heap
 form is in ObjectPool.
 */
module PoolRuns {
  import opened Wire

  // jm_cache_t without its link; the newest slot comes first.
  datatype Slot<T> = Slot(item: T, used: bool)

  type Pool<T> = map<string, seq<Slot<T>>>

  // spare is the memory the allocator would answer with.
  datatype Op<T> =
    | Init(name: string)
    | Get(name: string, created: bool, spare: T)
    | Back(name: string, item: T)

  function FirstFree<T>(s: seq<Slot<T>>): (k: nat)
    ensures k <= |s| && (k < |s| ==> !s[k].used)
    ensures forall i :: 0 <= i < k ==> s[i].used
  {
    if s == [] || !s[0].used then 0 else 1 + FirstFree(s[1..])
  }

  function FindItem<T(==)>(s: seq<Slot<T>>, item: T): (k: nat)
    ensures k <= |s| && (k < |s| ==> s[k].item == item)
    ensures forall i :: 0 <= i < k ==> s[i].item != item
  {
    if s == [] || s[0].item == item then 0 else 1 + FindItem(s[1..], item)
  }

  // One shelf after a get, and what the caller receives.
  function Taken<T>(s: seq<Slot<T>>, created: bool, spare: T): (r: (seq<Slot<T>>, Option<T>)) {
    var k := FirstFree(s);
    if k < |s| then
      (s[k := Slot(s[k].item, true)], Some(s[k].item))
    else if created then
      ([Slot(spare, true)] + s, Some(spare))
    else
      (s, None)
  }

  // One shelf after an item comes back, and whether it was its own.
  function Returned<T(==)>(s: seq<Slot<T>>, item: T): (r: (seq<Slot<T>>, bool)) {
    var k := FindItem(s, item);
    if k < |s| then (s[k := Slot(s[k].item, false)], true) else (s, false)
  }

  datatype Answer<T> = Done(ok: bool) | Given(item: Option<T>)

  function Next<T(==)>(p: Pool<T>, op: Op<T>): (r: (Pool<T>, Answer<T>)) {
    match op
    case Init(name) =>
      if name in p then (p, Done(false)) else (p[name := []], Done(true))
    case Get(name, created, spare) =>
      if name !in p then
        (p, Given(None))
      else
        (var t := Taken(p[name], created, spare); (p[name := t.0], Given(t.1)))
    case Back(name, item) =>
      if name !in p then
        (p, Done(false))
      else
        (var t := Returned(p[name], item); (p[name := t.0], Done(t.1)))
  }

  function Run<T(==)>(ops: seq<Op<T>>): (p: Pool<T>) {
    if ops == [] then map[] else Next(Run(ops[..|ops| - 1]), ops[|ops| - 1]).0
  }

  ghost function Items<T>(s: seq<Slot<T>>): (h: set<T>) {
    set i | 0 <= i < |s| :: s[i].item
  }

  ghost predicate Somewhere<T>(p: Pool<T>, item: T) {
    exists name :: name in p && item in Items(p[name])
  }

  // A get that has to make a new item.
  predicate Grows<T>(p: Pool<T>, op: Op<T>) {
    op.Get? && op.name in p && op.created && FirstFree(p[op.name]) == |p[op.name]|
  }

  // Allocation answers with memory that is in no shelf.
  ghost predicate Allocates<T>(ops: seq<Op<T>>) {
    forall i {:trigger ops[i]} :: 0 <= i < |ops| && Grows(Run(ops[..i]), ops[i]) ==>
      !Somewhere(Run(ops[..i]), ops[i].spare)
  }

  /** The caller's view: what was handed out and has not come back. **/

  ghost function Held<T>(ops: seq<Op<T>>, name: string): (h: set<T>) {
    if ops == [] then
      {}
    else
      (
        var op := ops[|ops| - 1];
        var before := Held(ops[..|ops| - 1], name);
        var answer := Next(Run(ops[..|ops| - 1]), op).1;
        if op.Get? && op.name == name && answer.item.Some? then before + {answer.item.value}
        else if op.Back? && op.name == name then before - {op.item}
        else before
      )
  }

  // The most items of the name ever out at one time.
  ghost function Peak<T>(ops: seq<Op<T>>, name: string): (n: nat) {
    if ops == [] then
      0
    else
      (var n, h := Peak(ops[..|ops| - 1], name), |Held(ops, name)|; if n < h then h else n)
  }

  /** One shelf **/

  ghost predicate Distinct<T>(s: seq<Slot<T>>) {
    forall i, j :: 0 <= i < j < |s| ==> s[i].item != s[j].item
  }

  ghost function UsedItems<T>(s: seq<Slot<T>>): (u: set<T>) {
    set i | 0 <= i < |s| && s[i].used :: s[i].item
  }

  lemma {:induction false} UsedCount<T>(s: seq<Slot<T>>)
    requires Distinct(s)
    ensures |UsedItems(s)| <= |s|
    ensures FirstFree(s) == |s| ==> |UsedItems(s)| == |s|
  {
    if s == [] {
    } else {
      var t := s[1..];
      UsedCount(t);
      if s[0].used {
        assert UsedItems(s) == UsedItems(t) + {s[0].item} by {
          forall x | x in UsedItems(s)
            ensures x in UsedItems(t) + {s[0].item}
          {
            var i :| 0 <= i < |s| && s[i].used && s[i].item == x;
            assert i > 0 ==> t[i - 1] == s[i];
          }
        }
      } else {
        assert UsedItems(s) <= UsedItems(t) by {
          forall x | x in UsedItems(s)
            ensures x in UsedItems(t)
          {
            var i :| 0 <= i < |s| && s[i].used && s[i].item == x;
            assert t[i - 1] == s[i];
          }
        }
        Smaller(UsedItems(s), UsedItems(t));
      }
    }
  }

  lemma {:induction false} Smaller<T>(a: set<T>, b: set<T>)
    requires a <= b
    ensures |a| <= |b|
  {
    if x :| x in a {
      Smaller(a - {x}, b - {x});
    }
  }

  lemma Flagged<T>(s: seq<Slot<T>>, k: nat, used: bool)
    requires Distinct(s) && k < |s|
    ensures var t := s[k := Slot(s[k].item, used)];
            && Distinct(t) && Items(t) == Items(s)
            && UsedItems(t) == if used then UsedItems(s) + {s[k].item} else UsedItems(s) - {s[k].item}
  {
    var t := s[k := Slot(s[k].item, used)];
    forall x | x in Items(s)
      ensures x in Items(t)
    {
      var i :| 0 <= i < |s| && s[i].item == x;
      assert t[i].item == x;
    }
    forall x | x in UsedItems(s) && x != s[k].item
      ensures x in UsedItems(t)
    {
      var i :| 0 <= i < |s| && s[i].used && s[i].item == x;
      assert t[i] == s[i];
    }
    assert t[k] == Slot(s[k].item, used);
  }

  lemma Prepended<T>(x: T, s: seq<Slot<T>>)
    requires Distinct(s) && x !in Items(s)
    ensures var t := [Slot(x, true)] + s;
            && Distinct(t) && Items(t) == Items(s) + {x} && UsedItems(t) == UsedItems(s) + {x}
  {
    var t := [Slot(x, true)] + s;
    assert t[0] == Slot(x, true);
    forall i | 0 <= i < |s|
      ensures s[i].item in Items(t) && (s[i].used ==> s[i].item in UsedItems(t))
    {
      assert t[i + 1] == s[i];
    }
    forall i | 0 <= i < |t|
      ensures t[i].item in Items(s) + {x} && (t[i].used ==> t[i].item in UsedItems(s) + {x})
    {
      assert i > 0 ==> t[i] == s[i - 1];
    }
  }

  // An item handed out was free before; a shelf only grows when it must.
  lemma TakenShelf<T>(s: seq<Slot<T>>, created: bool, spare: T)
    requires Distinct(s) && (created && FirstFree(s) == |s| ==> spare !in Items(s))
    ensures var t := Taken(s, created, spare);
            && Distinct(t.0)
            && Items(t.0) == (if created && FirstFree(s) == |s| then Items(s) + {spare} else Items(s))
            && (t.1 == None <==> !created && forall i :: 0 <= i < |s| ==> s[i].used)
            && (t.1 == None ==> t.0 == s)
            && (t.1.Some? ==> t.1.value !in UsedItems(s) && UsedItems(t.0) == UsedItems(s) + {t.1.value}
                              && (t.0 == [Slot(spare, true)] + s || |t.0| == |s|))
            && (t.1.Some? ==> t.1.value in Items(t.0) && (t.1.value in Items(s) || (created && FirstFree(s) == |s| && t.1.value == spare)))
            && (|t.0| > |s| ==> |UsedItems(s)| == |s|)
  {
    var k := FirstFree(s);
    UsedCount(s);
    if k < |s| {
      Flagged(s, k, true);
      assert s[k].item !in UsedItems(s);
      assert s[k].item in Items(s);
    } else if created {
      Prepended(spare, s);
    }
    hide UsedItems, Items, Distinct;
  }

  lemma ReturnedShelf<T>(s: seq<Slot<T>>, item: T)
    requires Distinct(s)
    ensures var t := Returned(s, item);
            && Distinct(t.0) && |t.0| == |s|
            && Items(t.0) == Items(s)
            && (t.1 <==> item in Items(s))
            && UsedItems(t.0) == UsedItems(s) - {item}
  {
    var k := FindItem(s, item);
    if k < |s| {
      Flagged(s, k, false);
      assert item in Items(s);
    }
  }

  /** Whole runs **/

  // No item is in two slots, of one shelf or of two.
  ghost predicate Apart<T>(p: Pool<T>) {
    && (forall n :: n in p ==> Distinct(p[n]))
    && (forall n, m :: n in p && m in p && n != m ==> Items(p[n]) !! Items(p[m]))
  }

  // The flags and the shelf sizes against the caller's view.
  ghost predicate Tallies<T>(p: Pool<T>, ops: seq<Op<T>>, n: string) {
    if n in p then
      UsedItems(p[n]) == Held(ops, n) && |p[n]| == Peak(ops, n)
    else
      Held(ops, n) == {} && Peak(ops, n) == 0
  }

  lemma FrontAllocates<T>(ops: seq<Op<T>>)
    requires Allocates(ops) && ops != []
    ensures Allocates(ops[..|ops| - 1])
    ensures var op, p := ops[|ops| - 1], Run(ops[..|ops| - 1]); Grows(p, op) ==> !Somewhere(p, op.spare)
  {
    var front := ops[..|ops| - 1];
    forall i {:trigger front[i]} | 0 <= i < |front| && Grows(Run(front[..i]), front[i])
      ensures !Somewhere(Run(front[..i]), front[i].spare)
    {
      assert front[..i] == ops[..i] && front[i] == ops[i];
    }
    assert ops[|ops| - 1] == ops[|ops| - 1];
  }

  lemma {:induction false} RunTallies<T>(ops: seq<Op<T>>)
    requires Allocates(ops)
    ensures Apart(Run(ops))
    ensures forall n :: Tallies(Run(ops), ops, n)
  {
    if ops == [] {
    } else {
      var front, op := ops[..|ops| - 1], ops[|ops| - 1];
      FrontAllocates(ops);
      RunTallies(front);
      StepApart(Run(front), op);
      forall n
        ensures Tallies(Run(ops), ops, n)
      {
        assert Tallies(Run(front), front, n);
        StepTallies(ops, n);
      }
    }
  }

  lemma StepApart<T>(p: Pool<T>, op: Op<T>)
    requires Apart(p) && (Grows(p, op) ==> !Somewhere(p, op.spare))
    ensures Apart(Next(p, op).0)
  {
    if op.name in p {
      if op.Get? {
        TakenShelf(p[op.name], op.created, op.spare);
        StillApart(p, op.name, Taken(p[op.name], op.created, op.spare).0, if Grows(p, op) then {op.spare} else {});
      } else if op.Back? {
        ReturnedShelf(p[op.name], op.item);
        StillApart(p, op.name, Returned(p[op.name], op.item).0, {});
      }
    }
  }

  lemma StillApart<T>(p: Pool<T>, name: string, s: seq<Slot<T>>, more: set<T>)
    requires Apart(p) && name in p && Distinct(s) && Items(s) <= Items(p[name]) + more
    requires forall x :: x in more ==> !Somewhere(p, x)
    ensures Apart(p[name := s])
  {
    hide Items, Distinct;
    forall n | n in p && n != name
      ensures Items(p[n]) !! Items(s)
    {
      assert forall x :: x in more ==> x !in Items(p[n]);
    }
  }

  lemma StepTallies<T>(ops: seq<Op<T>>, n: string)
    requires ops != []
    requires var front := ops[..|ops| - 1]; var op := ops[|ops| - 1]; var p := Run(front);
             Apart(p) && (Grows(p, op) ==> !Somewhere(p, op.spare)) && Tallies(p, front, n)
    ensures Tallies(Run(ops), ops, n)
  {
    var front, op := ops[..|ops| - 1], ops[|ops| - 1];
    var p := Run(front);
    if n in p {
      UsedCount(p[n]);
      if op.name == n && op.Get? {
        TakenShelf(p[n], op.created, op.spare);
        UsedCount(Taken(p[n], op.created, op.spare).0);
      } else if op.name == n && op.Back? {
        ReturnedShelf(p[n], op.item);
        UsedCount(Returned(p[n], op.item).0);
      }
    }
  }

  /** What the runs promise **/

  // An item handed out is one that nobody holds, under any name, and it sits
  // on the shelf it was asked from and on no other.
  lemma HandOutIsFree<T>(ops: seq<Op<T>>)
    requires Allocates(ops) && ops != [] && ops[|ops| - 1].Get?
    ensures var front, op := ops[..|ops| - 1], ops[|ops| - 1];
            var given := Next(Run(front), op).1.item;
            given.Some? ==>
              && (forall n :: given.value !in Held(front, n))
              && Held(ops, op.name) == Held(front, op.name) + {given.value}
              && (forall n :: n in Run(ops) && given.value in Items(Run(ops)[n]) ==> n == op.name)
  {
    var front, op := ops[..|ops| - 1], ops[|ops| - 1];
    var p := Run(front);
    FrontAllocates(ops);
    RunTallies(front);
    RunTallies(ops);
    if op.name in p {
      var s := p[op.name];
      TakenShelf(s, op.created, op.spare);
      var t := Taken(s, op.created, op.spare);
      assert Next(p, op) == (p[op.name := t.0], Given(t.1)) && Run(ops) == p[op.name := t.0];
      hide Taken, Run, Next, Distinct, Held, Peak;
      if t.1.Some? {
        forall n
          ensures t.1.value !in Held(front, n)
        {
          assert Tallies(p, front, n);
          NotUsedElsewhere(p, n, op.name, t.1.value);
        }
        assert Tallies(p, front, op.name) && Tallies(Run(ops), ops, op.name);
      }
    }
  }

  // An item that is in, or new for, a shelf and not in use there is in use
  // nowhere.
  lemma NotUsedElsewhere<T>(p: Pool<T>, n: string, name: string, x: T)
    requires Apart(p) && name in p && x !in UsedItems(p[name]) && (x in Items(p[name]) || !Somewhere(p, x))
    ensures n in p ==> x !in UsedItems(p[n])
  {
    assert n in p ==> UsedItems(p[n]) <= Items(p[n]);
  }

  // A shelf never holds more than were ever out together, nor fewer.
  lemma NodesAreThePeak<T>(ops: seq<Op<T>>, name: string)
    requires Allocates(ops) && name in Run(ops)
    ensures |Run(ops)[name]| == Peak(ops, name)
    ensures forall i :: 0 <= i <= |ops| ==> |Held(ops[..i], name)| <= |Run(ops)[name]|
    ensures exists i :: 0 <= i <= |ops| && |Held(ops[..i], name)| == |Run(ops)[name]|
  {
    RunTallies(ops);
    assert Tallies(Run(ops), ops, name);
    forall i | 0 <= i <= |ops|
      ensures |Held(ops[..i], name)| <= Peak(ops, name)
    {
      PeakIsAbove(ops, name, i);
    }
    var i := PeakIsReached(ops, name);
  }

  lemma PeakStep<T>(ops: seq<Op<T>>, name: string)
    requires ops != []
    ensures var top, now := Peak(ops[..|ops| - 1], name), |Held(ops, name)|;
            Peak(ops, name) == if top < now then now else top
  {
    hide Held;
  }

  lemma {:induction false} PeakIsAbove<T>(ops: seq<Op<T>>, name: string, i: nat)
    requires i <= |ops|
    ensures |Held(ops[..i], name)| <= Peak(ops, name)
    decreases |ops|
  {
    hide Peak, Held;
    if ops == [] {
      assert Held(ops[..i], name) == {} by {
        NothingHeld(ops[..i], name);
      }
    } else if i == |ops| {
      PeakStep(ops, name);
      assert ops[..i] == ops;
    } else {
      var front := ops[..|ops| - 1];
      PeakStep(ops, name);
      PeakIsAbove(front, name, i);
      assert front[..i] == ops[..i];
    }
  }

  lemma NothingHeld<T>(ops: seq<Op<T>>, name: string)
    requires ops == []
    ensures Held(ops, name) == {} && Peak(ops, name) == 0
  {
  }

  lemma {:induction false} PeakIsReached<T>(ops: seq<Op<T>>, name: string) returns (i: nat)
    ensures i <= |ops| && |Held(ops[..i], name)| == Peak(ops, name)
    decreases |ops|
  {
    hide Peak, Held;
    if ops == [] {
      i := 0;
      NothingHeld(ops[..0], name);
      NothingHeld(ops, name);
    } else {
      var front := ops[..|ops| - 1];
      PeakStep(ops, name);
      i := PeakIsReached(front, name);
      assert front[..i] == ops[..i];
      if Peak(front, name) < |Held(ops, name)| {
        i := |ops|;
        assert ops[..i] == ops;
      }
    }
  }

  /** What the operations answer **/

  function AnswerAt<T(==)>(ops: seq<Op<T>>, i: nat): Answer<T>
    requires i < |ops|
  {
    Next(Run(ops[..i]), ops[i]).1
  }

  // Some get of the name gave the item out.
  ghost predicate Gave<T>(ops: seq<Op<T>>, name: string, item: T) {
    exists i :: 0 <= i < |ops| && ops[i].Get? && ops[i].name == name && AnswerAt(ops, i) == Given(Some(item))
  }

  predicate Initialized<T(==)>(ops: seq<Op<T>>, name: string) {
    exists i :: 0 <= i < |ops| && ops[i] == Init(name)
  }

  // A name has a cache exactly when it was initialized.
  lemma {:induction false} CacheIffInit<T>(ops: seq<Op<T>>, name: string)
    ensures name in Run(ops) <==> Initialized(ops, name)
  {
    if ops == [] {
    } else {
      var front, op := ops[..|ops| - 1], ops[|ops| - 1];
      CacheIffInit(front, name);
      assert Initialized(ops, name) <==> Initialized(front, name) || op == Init(name) by {
        assert ops == front + [op];
        assert ops[|front|] == op;
        assert forall i :: 0 <= i < |front| ==> ops[i] == front[i];
      }
    }
  }

  lemma FrontAnswers<T>(ops: seq<Op<T>>, i: nat)
    requires i < |ops| - 1
    ensures ops[..|ops| - 1][i] == ops[i] && AnswerAt(ops[..|ops| - 1], i) == AnswerAt(ops, i)
  {
    hide Next, Run;
    assert ops[..|ops| - 1][..i] == ops[..i];
  }

  lemma GaveStep<T>(ops: seq<Op<T>>, name: string, item: T)
    requires ops != []
    ensures var front, op := ops[..|ops| - 1], ops[|ops| - 1];
            Gave(ops, name, item) <==>
            Gave(front, name, item)
            || (op.Get? && op.name == name && Next(Run(front), op).1 == Given(Some(item)))
  {
    var n := |ops| - 1;
    var front := ops[..n];
    assert AnswerAt(ops, n) == Next(Run(front), ops[n]).1;
    hide Next, Run, AnswerAt;
    if Gave(front, name, item) {
      var i :| 0 <= i < n && front[i].Get? && front[i].name == name && AnswerAt(front, i) == Given(Some(item));
      FrontAnswers(ops, i);
    }
    if Gave(ops, name, item) {
      var i :| 0 <= i <= n && ops[i].Get? && ops[i].name == name && AnswerAt(ops, i) == Given(Some(item));
      if i < n {
        FrontAnswers(ops, i);
      }
    }
  }

  // A cache holds exactly the items it gave out.
  lemma {:induction false} ItemsAreGiven<T>(ops: seq<Op<T>>, name: string, item: T)
    requires Allocates(ops)
    ensures name in Run(ops) && item in Items(Run(ops)[name]) <==> Gave(ops, name, item)
  {
    if ops == [] {
    } else {
      var front, op := ops[..|ops| - 1], ops[|ops| - 1];
      FrontAllocates(ops);
      ItemsAreGiven(front, name, item);
      GaveStep(ops, name, item);
      RunTallies(front);
      hide Gave, Allocates;
      ItemsStep(Run(front), op, name, item);
    }
  }

  lemma ItemsStep<T>(p: Pool<T>, op: Op<T>, name: string, item: T)
    requires Apart(p) && (Grows(p, op) ==> !Somewhere(p, op.spare))
    ensures var q := Next(p, op).0;
            name in q && item in Items(q[name]) <==>
            || (name in p && item in Items(p[name]))
            || (op.Get? && op.name == name && Next(p, op).1 == Given(Some(item)))
  {
    if op.name == name && name in p {
      if op.Get? {
        TakenShelf(p[name], op.created, op.spare);
      } else if op.Back? {
        ReturnedShelf(p[name], op.item);
      }
      hide Taken, Returned, Distinct;
    }
  }

  // Initializing succeeds exactly for the first call with the name.
  lemma InitAnswers<T>(ops: seq<Op<T>>, name: string)
    ensures Next(Run(ops), Init(name)).1 == Done(!Initialized(ops, name))
  {
    CacheIffInit(ops, name);
  }

  // A get gives an item exactly when the name was initialized and a new item
  // may be made or one of the old ones is back.  It gives a new item only when
  // none is back.
  lemma GetAnswers<T>(ops: seq<Op<T>>, name: string, created: bool, spare: T)
    requires Allocates(ops + [Get(name, created, spare)])
    ensures var a := Next(Run(ops), Get(name, created, spare)).1;
            && a.Given?
            && (a.item.Some? <==>
                Initialized(ops, name) && (created || exists x :: Gave(ops, name, x) && x !in Held(ops, name)))
            && (a.item.Some? ==> if exists x :: Gave(ops, name, x) && x !in Held(ops, name)
                                 then Gave(ops, name, a.item.value) && a.item.value !in Held(ops, name)
                                 else a.item.value == spare)
  {
    var all := ops + [Get(name, created, spare)];
    assert all[..|ops|] == ops && all[|ops|] == Get(name, created, spare);
    FrontAllocates(all);
    RunTallies(ops);
    CacheIffInit(ops, name);
    if name in Run(ops) {
      var s := Run(ops)[name];
      assert Tallies(Run(ops), ops, name);
      forall x
        ensures Gave(ops, name, x) <==> x in Items(s)
      {
        ItemsAreGiven(ops, name, x);
      }
      hide Gave, Held, Run;
      FreeIffBack(s);
    }
  }

  lemma FreeIffBack<T>(s: seq<Slot<T>>)
    requires Distinct(s)
    ensures FirstFree(s) < |s| <==> exists x :: x in Items(s) && x !in UsedItems(s)
    ensures FirstFree(s) < |s| ==> s[FirstFree(s)].item in Items(s) && s[FirstFree(s)].item !in UsedItems(s)
  {
    var k := FirstFree(s);
    if k < |s| {
      assert s[k].item in Items(s) && s[k].item !in UsedItems(s);
    } else {
      forall x | x in Items(s)
        ensures x in UsedItems(s)
      {
        var i :| 0 <= i < |s| && s[i].item == x;
        assert s[i].used;
      }
    }
  }

  // Giving back succeeds exactly for an item that some get of the name gave.
  lemma BackAnswers<T>(ops: seq<Op<T>>, name: string, item: T)
    requires Allocates(ops)
    ensures Next(Run(ops), Back(name, item)).1 == Done(Gave(ops, name, item))
  {
    RunTallies(ops);
    ItemsAreGiven(ops, name, item);
    hide Gave, Run;
    if name in Run(ops) {
      ReturnedShelf(Run(ops)[name], item);
    }
  }
}
