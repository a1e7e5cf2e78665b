/**
 The object pool of jm_mem.c on the heap: cache_init, cache_get and cache_back
 step the pool exactly as PoolRuns.Next says.  The name table is a finite map,
 which is what HashMap shows the hash map to be.
 */
module ObjectPool {
  import opened Wire
  import opened PoolRuns

  type Memory = array<byte>

  class Node {
    const item: Memory
    var used: bool
    var next: Node?

    constructor (item: Memory, next: Node?)
      ensures this.item == item && this.next == next && !used
    {
      this.item, this.next, used := item, next, false;
    }
  }

  // The node behind the i-th, null at the end.
  function After(nodes: seq<Node>, i: int): Node?
    requires -1 <= i < |nodes|
  {
    if i + 1 < |nodes| then nodes[i + 1] else null
  }

  class Header {
    const memSize: nat
    var cache: Node?
    ghost var nodes: seq<Node>

    ghost predicate Valid()
      reads this, nodes
    {
      && cache == After(nodes, -1)
      && (forall i {:trigger nodes[i].next} :: 0 <= i < |nodes| ==> nodes[i].next == After(nodes, i))
      && (forall i :: 0 <= i < |nodes| ==> nodes[i].item.Length == memSize)
      && (forall i, j :: 0 <= i < j < |nodes| ==> nodes[i].item != nodes[j].item)
    }

    ghost function Slots(): (s: seq<Slot<Memory>>)
      reads this, nodes
      ensures |s| == |nodes| && forall i :: 0 <= i < |s| ==> s[i] == Slot(nodes[i].item, nodes[i].used)
    {
      seq(|nodes|, i requires 0 <= i < |nodes| reads this, nodes => Slot(nodes[i].item, nodes[i].used))
    }

    twostate lemma Kept()
      requires old(Valid()) && unchanged(this) && forall x :: x in nodes ==> unchanged(x)
      ensures Valid() && Slots() == old(Slots())
    {
      forall i | 0 <= i < |nodes|
        ensures nodes[i].next == After(nodes, i) && Slots()[i] == old(Slots())[i]
      {
        assert old(nodes[i].next == After(nodes, i));
        assert nodes[i] in nodes;
      }
    }

    constructor (memSize: nat)
      ensures Valid() && this.memSize == memSize && Slots() == [] && nodes == []
    {
      this.memSize, cache, nodes := memSize, null, [];
    }

    // _cache_createCacheItem
    method CreateItem() returns (c: Node)
      requires Valid()
      modifies this
      ensures Valid() && fresh(c) && fresh(c.item) && nodes == [c] + old(nodes)
      ensures Slots() == [Slot(c.item, false)] + old(Slots())
      ensures forall i :: 0 <= i < c.item.Length ==> c.item[i] == 0
    {
      var item := new byte[memSize](_ => 0);
      c := new Node(item, cache);
      cache := c;
      nodes := [c] + nodes;
    }

    // All memory of the cache.
    ghost function Blocks(): (b: set<Memory>)
      reads this
    {
      set i | 0 <= i < |nodes| :: nodes[i].item
    }

    ghost function Repr(): (r: set<object>)
      reads this
    {
      var ns: set<object> := set x: Node | x in nodes;
      {this} + ns + Blocks()
    }

    method FirstUnused() returns (c: Node?, ghost at: nat)
      requires Valid()
      ensures at == FirstFree(Slots())
      ensures c == if at < |nodes| then nodes[at] else null
    {
      c, at := cache, 0;
      ghost var s := Slots();
      while c != null && c.used
        invariant at <= |nodes| && c == After(nodes, at as int - 1)
        invariant forall i :: 0 <= i < at ==> s[i].used
        decreases |nodes| - at
      {
        c, at := c.next, at + 1;
      }
      FreeIs(s, at);
    }

    method ItemNode(item: Memory) returns (c: Node?, ghost at: nat)
      requires Valid()
      ensures at == FindItem(Slots(), item)
      ensures c == if at < |nodes| then nodes[at] else null
    {
      c, at := cache, 0;
      ghost var s := Slots();
      while c != null && c.item != item
        invariant at <= |nodes| && c == After(nodes, at as int - 1)
        invariant forall i :: 0 <= i < at ==> s[i].item != item
        decreases |nodes| - at
      {
        c, at := c.next, at + 1;
      }
      ItemIs(s, item, at);
    }

    method SetUsed(c: Node, used: bool, ghost at: nat)
      requires Valid() && at < |nodes| && c == nodes[at]
      modifies c`used
      ensures Valid() && Slots() == old(Slots())[at := Slot(c.item, used)]
    {
      c.used := used;
    }

    method Reuse(c: Node, ghost at: nat) returns (it: Memory)
      requires Valid() && at < |nodes| && c == nodes[at]
      modifies c`used, c.item
      ensures Valid() && it == c.item
      ensures Slots() == old(Slots())[at := Slot(it, true)]
      ensures forall i :: 0 <= i < it.Length ==> it[i] == 0
    {
      it := c.item;
      forall i | 0 <= i < it.Length {
        it[i] := 0;
      }
      SetUsed(c, true, at);
    }

    method Make() returns (it: Memory)
      requires Valid()
      modifies this
      ensures Valid() && fresh(it) && it in Blocks()
      ensures |nodes| > 0 && fresh(nodes[0]) && nodes[0].item == it && nodes == [nodes[0]] + old(nodes)
      ensures Slots() == [Slot(it, true)] + old(Slots())
      ensures it.Length == memSize && forall i :: 0 <= i < it.Length ==> it[i] == 0
    {
      var c := CreateItem();
      assert nodes[0].item == c.item && c.item.Length == memSize;
      ghost var before := old(Slots());
      hide Valid, Slots;
      NewHead(Slot(c.item, false), Slot(c.item, true), before);
      SetUsed(c, true, 0);
      it := c.item;
    }

    // Hands out a free item, zeroed, or a new one if that is allowed.
    method Get(created: bool) returns (it: array?<byte>)
      requires Valid()
      modifies this, nodes, Blocks()
      ensures Valid()
      ensures nodes == old(nodes) || (|nodes| > 0 && fresh(nodes[0]) && fresh(nodes[0].item) && nodes == [nodes[0]] + old(nodes))
      ensures it == null ==> Slots() == old(Slots()) && FirstFree(Slots()) == |Slots()| && !created
      ensures it != null ==> (Slots(), Some(it)) == Taken(old(Slots()), created, it)
      ensures it != null ==> it in Blocks() && if FirstFree(old(Slots())) < |old(nodes)| then it in old(Blocks()) else fresh(it)
      ensures it != null ==> it.Length == memSize && forall i :: 0 <= i < it.Length ==> it[i] == 0
      ensures forall b :: b in old(Blocks()) && b != it ==> b[..] == old(b[..])
    {
      hide Valid, Slots;
      var c, at := FirstUnused();
      if c != null {
        assert c.item in Blocks() && c.item.Length == memSize by {
          Length(at);
        }
        it := Reuse(c, at);
      } else if created {
        it := Make();
      } else {
        it := null;
      }
    }

    lemma Length(at: nat)
      requires Valid() && at < |nodes|
      ensures nodes[at].item in Blocks() && nodes[at].item.Length == memSize
    {
    }

    method Back(item: Memory) returns (ok: bool)
      requires Valid()
      modifies nodes
      ensures Valid() && nodes == old(nodes)
      ensures (Slots(), ok) == Returned(old(Slots()), item)
    {
      var c, at := ItemNode(item);
      if c != null {
        SetUsed(c, false, at);
      }
      ok := c != null;
    }
  }

  // The pool: jm_mem.c keeps one.
  class NamedPool {
    var caches: map<string, Header>

    ghost function Nodes(): (ns: set<Node>)
      reads this, caches.Values
    {
      set name, i | name in caches && 0 <= i < |caches[name].nodes| :: caches[name].nodes[i]
    }

    ghost predicate Separate(a: Header, b: Header)
      reads a`nodes, b`nodes
    {
      && a != b
      && (forall x :: x in a.nodes ==> x !in b.nodes)
      && (forall i, j :: 0 <= i < |a.nodes| && 0 <= j < |b.nodes| ==> a.nodes[i].item != b.nodes[j].item)
    }

    // Each cache is in order, and no two share a header, a node or memory.
    ghost predicate Valid()
      reads this, caches.Values, Nodes()
    {
      && (forall n :: n in caches ==> caches[n].Valid())
      && (forall n, m :: n in caches && m in caches && n != m ==> Separate(caches[n], caches[m]))
    }

    ghost function View(): (p: PoolRuns.Pool<Memory>)
      reads this, caches.Values, Nodes()
    {
      map n | n in caches :: caches[n].Slots()
    }

    constructor ()
      ensures Valid() && View() == map[]
    {
      caches := map[];
    }

    // The pool once an empty cache is put under a new name.
    twostate lemma AddedSeparate(name: string, new h: Header)
      requires old(Valid()) && name !in old(caches) && caches == old(caches)[name := h] && h.nodes == []
      requires forall m :: m in old(caches) ==> old(caches)[m] != h && unchanged(old(caches)[m])
      ensures forall n, m :: n in caches && m in caches && n != m ==> Separate(caches[n], caches[m])
    {
      hide Header.Valid;
      forall n, m | n in caches && m in caches && n != m
        ensures Separate(caches[n], caches[m])
      {
        assert n != name && m != name ==> old(Separate(caches[n], caches[m]));
      }
    }

    twostate lemma AddedSlots(name: string, new h: Header)
      requires old(Valid()) && name !in old(caches) && caches == old(caches)[name := h]
      requires h.Valid() && h.nodes == []
      requires forall m :: m in old(caches) ==>
                 unchanged(old(caches)[m]) && forall x :: x in old(caches)[m].nodes ==> unchanged(x)
      ensures forall m :: m in caches ==> caches[m].Valid()
      ensures View() == old(View())[name := []]
    {
      hide Separate;
      assert h.Slots() == [];
      forall m | m in old(caches)
        ensures caches[m].Valid() && caches[m].Slots() == old(caches[m].Slots())
      {
        assert old(caches[m].Valid());
        caches[m].Kept();
      }
      hide Header.Valid, Header.Slots;
    }

    method Add(name: string, h: Header)
      requires Valid() && name !in caches && h.Valid() && h.nodes == [] && forall m :: m in caches ==> caches[m] != h
      modifies this
      ensures Valid() && View() == old(View())[name := []] && caches == old(caches)[name := h]
    {
      hide Header.Valid, Header.Slots, Separate, View;
      caches := caches[name := h];
      AddedSlots(name, h);
      AddedSeparate(name, h);
    }

    // cache_init
    method Init(name: string, memSize: nat) returns (ok: bool)
      requires Valid()
      modifies this
      ensures Valid() && (View(), Done(ok)) == Next(old(View()), PoolRuns.Init(name))
      ensures ok ==> name in caches && fresh(caches[name]) && caches[name].memSize == memSize
    {
      if name in caches {
        return false;
      }
      var h := new Header(memSize);
      hide Header.Valid, Header.Slots, Separate;
      assert View() == old(View());
      assert name !in View();
      Add(name, h);
      ok := true;
      assert View() == old(View())[name := []];
    }

    ghost function Footprint(name: string): (f: set<object>)
      reads this, caches.Values
    {
      if name in caches then caches[name].Repr() else {}
    }

    lemma Away(name: string, m: string)
      requires Valid() && name in caches && m in caches && m != name
      ensures caches[m] !in Footprint(name) && forall x :: x in caches[m].nodes ==> x !in Footprint(name)
    {
      assert Separate(caches[name], caches[m]);
    }

    // What one cache does, seen from the pool.
    twostate lemma Lifted(name: string)
      requires old(Valid()) && caches == old(caches) && name in caches && caches[name].Valid()
      requires forall m :: m in caches && m != name ==>
                 unchanged(caches[m]) && forall x :: x in caches[m].nodes ==> unchanged(x)
      requires var h := caches[name];
               h.nodes == old(h.nodes)
               || (|h.nodes| > 0 && fresh(h.nodes[0]) && fresh(h.nodes[0].item) && h.nodes == [h.nodes[0]] + old(h.nodes))
      ensures Valid() && View() == old(View())[name := caches[name].Slots()]
    {
      hide Header.Slots, Header.Valid;
      forall m | m in caches && m != name
        ensures caches[m].Valid() && caches[m].Slots() == old(caches[m].Slots())
        ensures Separate(caches[m], caches[name]) && Separate(caches[name], caches[m])
      {
        assert old(Separate(caches[m], caches[name]) && Separate(caches[name], caches[m]));
        assert old(caches[m].Valid());
        caches[m].Kept();
      }
      forall n, m | n in caches && m in caches && n != m
        ensures Separate(caches[n], caches[m])
      {
        assert old(Separate(caches[n], caches[m]));
      }
    }

    method GetFrom(name: string, created: bool) returns (it: array?<byte>, ghost s: seq<Slot<Memory>>)
      requires Valid() && name in caches
      modifies Footprint(name)
      ensures Valid() && name in old(View()) && View() == old(View())[name := s]
      ensures it == null ==> s == old(View())[name] && FirstFree(s) == |s| && !created
      ensures it != null ==> (s, Some(it)) == Taken(old(View())[name], created, it)
      ensures it != null && FirstFree(old(View())[name]) == |old(View())[name]| ==> fresh(it)
      ensures it != null ==> it.Length == caches[name].memSize && forall i :: 0 <= i < it.Length ==> it[i] == 0
    {
      forall m | m in caches && m != name
        ensures caches[m] !in Footprint(name) && forall x :: x in caches[m].nodes ==> x !in Footprint(name)
      {
        Away(name, m);
      }
      assert caches[name].Valid();
      hide Valid, Header.Valid, Header.Slots, FirstFree, Taken;
      it := caches[name].Get(created);
      Lifted(name);
      s := caches[name].Slots();
    }

    // cache_get
    method Get(name: string, created: bool) returns (it: array?<byte>)
      requires Valid()
      modifies Footprint(name)
      ensures Valid()
      ensures it == null ==>
                && View() == old(View())
                && (name in View() ==> !created && FirstFree(View()[name]) == |View()[name]|)
      ensures it != null ==>
                var op: Op<Memory> := PoolRuns.Get(name, created, it);
                && View() == Next(old(View()), op).0 && Next(old(View()), op).1.item == Some(it)
                && (Grows(old(View()), op) ==> fresh(it))
      ensures it != null ==> it.Length == caches[name].memSize && forall i :: 0 <= i < it.Length ==> it[i] == 0
    {
      hide Valid, View, FirstFree, Taken, Next, Header.Repr;
      if name !in caches {
        NoCache(name);
        return null;
      }
      ghost var s;
      it, s := GetFrom(name, created);
      if it == null {
        assert View() == old(View());
      } else {
        NextIsGet(old(View()), name, created, it, s);
      }
    }

    lemma NoCache(name: string)
      requires name !in caches
      ensures name !in View()
    {
    }

    // cache_back
    method Back(name: string, item: Memory) returns (ok: bool)
      requires Valid()
      modifies Footprint(name)
      ensures Valid()
      ensures (View(), Done(ok)) == Next(old(View()), PoolRuns.Back(name, item))
    {
      if name !in caches {
        return false;
      }
      forall m | m in caches && m != name
        ensures caches[m] !in Footprint(name) && forall x :: x in caches[m].nodes ==> x !in Footprint(name)
      {
        Away(name, m);
      }
      assert caches[name].Valid();
      hide Valid, Header.Valid, Header.Slots, Returned;
      ok := caches[name].Back(item);
      Lifted(name);
    }
  }

  lemma NextIsGet<T>(p: Pool<T>, name: string, created: bool, it: T, s: seq<Slot<T>>)
    requires name in p && (s, Some(it)) == Taken(p[name], created, it)
    ensures Next(p, PoolRuns.Get(name, created, it)) == (p[name := s], Given(Some(it)))
  {
  }

  lemma NewHead<T>(x: T, y: T, s: seq<T>)
    ensures ([x] + s)[0 := y] == [y] + s
  {
  }

  lemma {:induction false} FreeIs<T>(s: seq<Slot<T>>, k: nat)
    requires k <= |s| && (forall i :: 0 <= i < k ==> s[i].used) && (k < |s| ==> !s[k].used)
    ensures FirstFree(s) == k
  {
  }

  lemma {:induction false} ItemIs<T>(s: seq<Slot<T>>, item: T, k: nat)
    requires k <= |s| && (forall i :: 0 <= i < k ==> s[i].item != item) && (k < |s| ==> s[k].item == item)
    ensures FindItem(s, item) == k
  {
  }
}
