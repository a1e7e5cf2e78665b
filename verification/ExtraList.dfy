/**
 The same maps as linked nodes on the heap: extra_get, extra_put, extra_sput
 and extra_pullAll of jm_msg.c walk and relink them as ExtraLookup says.
 */
module ExtraList {
  import opened Wire
  import opened ExtraMap
  import opened ExtraLookup

  class Cell {
    var key: Key
    var val: Val
    var next: Cell?

    constructor (key: Key, val: Val, next: Cell?)
      ensures this.key == key && this.val == val && this.next == next
    {
      this.key, this.val, this.next := key, val, next;
    }
  }

  // The node behind the i-th, null at the end.
  function After(cells: seq<Cell>, i: int): Cell?
    requires -1 <= i < |cells|
  {
    if i + 1 < |cells| then cells[i + 1] else null
  }

  // header leads through exactly these nodes, each once.
  ghost predicate Chain(header: Cell?, cells: seq<Cell>)
    reads cells
  {
    && header == After(cells, -1)
    && (forall i {:trigger cells[i].next} :: 0 <= i < |cells| ==> cells[i].next == After(cells, i))
    && (forall i, j :: 0 <= i < j < |cells| ==> cells[i] != cells[j])
  }

  ghost function Pairs(cells: seq<Cell>): (s: seq<(Key, Val)>)
    reads cells
    ensures |s| == |cells| && forall i :: 0 <= i < |s| ==> s[i] == (cells[i].key, cells[i].val)
  {
    seq(|cells|, i requires 0 <= i < |cells| reads cells => (cells[i].key, cells[i].val))
  }

  function FromPairs(s: seq<(Key, Val)>): Extra {
    if s == [] then Nil else Node(s[0].0, s[0].1, FromPairs(s[1..]))
  }

  lemma PairsAppend(a: seq<Cell>, b: seq<Cell>)
    ensures Pairs(a + b) == Pairs(a) + Pairs(b)
  {
    assert forall i :: 0 <= i < |a + b| ==> Pairs(a + b)[i] == (Pairs(a) + Pairs(b))[i];
  }

  // The map the nodes make up.
  ghost function AsExtra(cells: seq<Cell>): (m: Extra)
    reads cells
  {
    FromPairs(Pairs(cells))
  }

  lemma {:induction false} FromAt(s: seq<(Key, Val)>, at: nat, key: Key)
    requires at <= |s| && (forall i :: 0 <= i < at ==> s[i].0 != key) && (at < |s| ==> s[at].0 == key)
    ensures From(FromPairs(s), key) == FromPairs(s[at..])
  {
    if at == 0 {
    } else {
      FromAt(s[1..], at - 1, key);
      assert s[1..][at - 1..] == s[at..];
    }
  }

  lemma {:induction false} ChangedAt(s: seq<(Key, Val)>, at: nat, key: Key, val: Val)
    requires at < |s| && (forall i :: 0 <= i < at ==> s[i].0 != key) && s[at].0 == key
    ensures FromPairs(s[at := (key, val)]) == PutLast(FromPairs(s), key, val)
  {
    if at == 0 {
    } else {
      ChangedAt(s[1..], at - 1, key, val);
      assert s[at := (key, val)][1..] == s[1..][at - 1 := (key, val)];
    }
  }

  lemma {:induction false} PairsJoin(s: seq<(Key, Val)>, t: seq<(Key, Val)>)
    ensures FromPairs(s + t) == Join(FromPairs(s), FromPairs(t))
  {
    if s == [] {
      assert s + t == t;
    } else {
      PairsJoin(s[1..], t);
      assert (s + t)[1..] == s[1..] + t;
    }
  }

  // Answers the node with the key; the nodes from there on are cells[at..].
  method Find(header: Cell?, key: Key, ghost cells: seq<Cell>) returns (em: Cell?, ghost at: nat)
    requires Chain(header, cells)
    ensures at <= |cells| && (forall i :: 0 <= i < at ==> cells[i].key != key)
    ensures em == After(cells, at - 1) && (em != null ==> em.key == key)
    ensures From(AsExtra(cells), key) == AsExtra(cells[at..])
    ensures em == null <==> Get(AsExtra(cells), key) == None
    ensures em != null ==> Get(AsExtra(cells), key) == Some(em.val)
  {
    em, at := header, 0;
    while em != null && em.key != key
      invariant at <= |cells| && em == After(cells, at - 1)
      invariant forall i :: 0 <= i < at ==> cells[i].key != key
      decreases |cells| - at
    {
      em, at := em.next, at + 1;
    }
    FromAt(Pairs(cells), at, key);
    assert Pairs(cells)[at..] == Pairs(cells[at..]);
  }

  // A node is changed in place and becomes what the caller holds, so the nodes
  // before it are dropped from the caller's chain; or a new head is added.
  method Put(header: Cell?, key: Key, val: Val, ghost cells: seq<Cell>)
    returns (em: Cell, ghost out: seq<Cell>)
    requires Chain(header, cells)
    modifies cells
    ensures Chain(em, out) && AsExtra(out) == ExtraLookup.Put(old(AsExtra(cells)), key, val)
    ensures forall c :: c in out ==> c in cells || fresh(c)
  {
    var found, at := Find(header, key, cells);
    if found != null {
      em, out := found, cells[at..];
      em.val := val;
      hide Pairs, FromPairs;
      assert Pairs(out) == old(Pairs(out))[0 := (key, val)];
      ChangedAt(old(Pairs(out)), 0, key, val);
    } else {
      em := new Cell(key, val, header);
      out := [em] + cells;
      assert Pairs(out)[1..] == Pairs(cells);
    }
  }

  // The last node of a chain.
  method Last(header: Cell, ghost cells: seq<Cell>) returns (tail: Cell)
    requires Chain(header, cells)
    ensures cells != [] && tail == cells[|cells| - 1]
  {
    tail := header;
    ghost var at := 0;
    while tail.next != null
      invariant 0 <= at < |cells| && tail == cells[at]
      decreases |cells| - at
    {
      tail, at := tail.next, at + 1;
    }
  }

  // Nothing is dropped here; but the caller gets the node, not the chain.
  method PutString(header: Cell?, key: Key, val: Val, ghost cells: seq<Cell>)
    returns (em: Cell, ghost out: seq<Cell>)
    requires Chain(header, cells)
    modifies cells
    ensures Chain(if header == null then em else header, out) && em in out
    ensures AsExtra(out) == PutLast(old(AsExtra(cells)), key, val)
    ensures em.key == key && em.val == val
  {
    var found, at := Find(header, key, cells);
    if found != null {
      em, out := found, cells;
      em.val := val;
      assert Pairs(cells) == old(Pairs(cells))[at := (key, val)];
      ChangedAt(old(Pairs(cells)), at, key, val);
      return;
    }
    em := new Cell(key, val, null);
    out := cells + [em];
    if header != null {
      var tail := Last(header, cells);
      tail.next := em;
    }
    OneChain(if header == null then em else header, cells, em, [em]);
    hide Chain, FromPairs, Join, PutLast;
    assert Pairs(out) == old(Pairs(cells)) + [(key, val)];
    PairsJoin(old(Pairs(cells)), [(key, val)]);
    PutLastIsJoin(old(AsExtra(cells)), key, val);
  }

  lemma OneChain(r: Cell?, a: seq<Cell>, to: Cell?, b: seq<Cell>)
    requires Chain(to, b) && forall c :: c in a ==> c !in b
    requires forall i, j :: 0 <= i < j < |a| ==> a[i] != a[j]
    requires r == if a == [] then to else a[0]
    requires forall i {:trigger a[i].next} :: 0 <= i < |a| ==> a[i].next == if i + 1 < |a| then a[i + 1] else to
    ensures Chain(r, a + b)
  {
    var c := a + b;
    forall i | 0 <= i < |c|
      ensures c[i].next == After(c, i)
    {
      if i < |a| {
        assert c[i] == a[i] && a[i].next == if i + 1 < |a| then a[i + 1] else to;
      } else {
        assert c[i] == b[i - |a|] && b[i - |a|].next == After(b, i - |a|);
      }
    }
    forall i, j | 0 <= i < j < |c|
      ensures c[i] != c[j]
    {
      assert i < |a| <= j ==> a[i] in a && b[j - |a|] in b;
    }
  }

  // The nodes of `from`, now followed by those of `to`; JoinLookup says what a
  // lookup then finds.
  method PullAll(from: Cell?, to: Cell?, ghost a: seq<Cell>, ghost b: seq<Cell>) returns (r: Cell?)
    requires Chain(from, a) && Chain(to, b) && forall c :: c in a ==> c !in b
    modifies a
    ensures Chain(r, a + b) && AsExtra(a + b) == Join(old(AsExtra(a)), old(AsExtra(b)))
  {
    hide FromPairs, Join, Get, Has, Pairs;
    if from == null {
      r := to;
      assert a == [] && a + b == b;
    } else {
      var f := Last(from, a);
      assert f in a && forall i :: 0 <= i < |b| ==> b[i] in b && b[i] != f;
      f.next := to;
      r := from;
    }
    OneChain(r, a, to, b);
    hide Chain;
    assert Pairs(a) == old(Pairs(a)) && Pairs(b) == old(Pairs(b));
    PairsAppend(a, b);
    PairsJoin(old(Pairs(a)), old(Pairs(b)));
  }
}
