/**
 The chained hash map of jm_mem.c and its iterator.  The hash function is any
 function; the map's meaning is the finite map m.
 */
module HashMap {
  import opened Wire
  import ByteRing

  class Item<V> {
    const key: string
    var val: V
    var next: Item?<V>

    constructor (key: string, val: V, next: Item?<V>)
      ensures this.key == key && this.val == val && this.next == next
    {
      this.key, this.val, this.next := key, val, next;
    }
  }

  // The item behind the i-th of a chain, null at the end.
  function After<V>(chain: seq<Item<V>>, i: int): Item?<V>
    requires -1 <= i < |chain|
  {
    if i + 1 < |chain| then chain[i + 1] else null
  }

  ghost predicate Linked<V>(chain: seq<Item<V>>)
    reads chain
  {
    forall i {:trigger chain[i].next} :: 0 <= i < |chain| ==> chain[i].next == After(chain, i)
  }

  predicate KeysDistinct<V>(chain: seq<Item<V>>) {
    forall i, j :: 0 <= i < j < |chain| ==> chain[i].key != chain[j].key
  }

  predicate HasKey<V>(chain: seq<Item<V>>, key: string) {
    exists i :: 0 <= i < |chain| && chain[i].key == key
  }

  class Map<V> {
    const cap: nat
    const hash: string -> nat
    const arr: array<Item?<V>>
    var size: nat
    ghost var chains: seq<seq<Item<V>>>
    ghost var m: map<string, V>
    ghost var repr: set<Item<V>>

    function Bucket(key: string): (b: nat)
      requires cap > 0
      ensures b < cap
    {
      hash(key) % cap
    }

    // The bucket of a key is what its hash leaves over whole capacities.
    lemma BucketIs(key: string, k: nat, b: nat)
      requires b < cap && hash(key) == k * cap + b
      ensures Bucket(key) == b
    {
      Remainder(hash(key), k, b, cap);
    }

    static lemma Remainder(h: nat, k: nat, b: nat, c: nat)
      requires b < c && h == k * c + b
      ensures h % c == b
    {
      ByteRing.Rounds(k, b, c);
    }

    // A chain holds only keys of its own bucket, each once, with m's values.
    ghost predicate ChainOk(c: seq<Item<V>>, b: nat, m: map<string, V>)
      requires cap > 0
      reads c
    {
      && Linked(c) && KeysDistinct(c)
      && (forall i :: 0 <= i < |c| ==> Bucket(c[i].key) == b && c[i].key in m && m[c[i].key] == c[i].val)
    }

    ghost predicate InRepr(c: seq<Item<V>>)
      reads this`repr
    {
      forall i :: 0 <= i < |c| ==> c[i] in repr
    }

    ghost predicate BucketOk(b: nat)
      requires cap > 0 && b < |chains| && b < arr.Length
      reads this`chains, this`m, this`repr, chains[b], arr
    {
      ChainOk(chains[b], b, m) && InRepr(chains[b]) && arr[b] == After(chains[b], -1)
    }

    ghost predicate KeyOk(k: string)
      requires cap > 0 && |chains| == cap
      reads this`chains
    {
      HasKey(chains[Bucket(k)], k)
    }

    ghost predicate Valid()
      reads this, arr, repr
    {
      && cap > 0 && arr.Length == |chains| == cap && size == |m|
      && (forall b :: 0 <= b < cap ==> InRepr(chains[b]))
      && (forall b :: 0 <= b < cap ==> BucketOk(b))
      && (forall k :: k in m ==> KeyOk(k))
    }

    constructor (hash: string -> nat, cap: nat)
      ensures Valid() && fresh(arr) && fresh(repr) && m == map[] && this.hash == hash
      ensures this.cap == if cap == 0 then 11 else cap
    {
      var n := if cap == 0 then 11 else cap;
      this.cap, this.hash := n, hash;
      arr := new Item?<V>[n](_ => null);
      size := 0;
      chains := seq(n, _ => []);
      m := map[];
      repr := {};
    }

    // _hashmap_getItem
    method GetItem(key: string, idx: nat) returns (it: Item?<V>, ghost at: nat)
      requires Valid() && idx == Bucket(key)
      ensures it == null <==> key !in m
      ensures it != null ==> at < |chains[idx]| && it == chains[idx][at] && it.key == key
    {
      it := arr[idx];
      at := 0;
      ghost var c := chains[idx];
      assert BucketOk(idx);
      while it != null
        invariant at <= |c| && it == After(c, at as int - 1)
        invariant forall i :: 0 <= i < at ==> c[i].key != key
        decreases |c| - at
      {
        if key == it.key { return; }
        it := it.next;
        at := at + 1;
      }
    }

    method Get(key: string) returns (v: Option<V>)
      requires Valid()
      ensures v == if key in m then Some(m[key]) else None
    {
      var it, at := GetItem(key, Bucket(key));
      if it == null { return None; }
      assert BucketOk(Bucket(key));
      v := Some(it.val);
    }

    method Exist(key: string) returns (found: bool)
      requires Valid()
      ensures found == (key in m)
    {
      var it, at := GetItem(key, Bucket(key));
      found := it != null;
    }

    // m may change at keys of other buckets.
    lemma OtherChain(c: seq<Item<V>>, b: nat, m: map<string, V>, key: string, v: V)
      requires cap > 0 && ChainOk(c, b, m) && Bucket(key) != b
      ensures ChainOk(c, b, m[key := v])
    {
    }

    lemma LongerChain(it: Item<V>, c: seq<Item<V>>, b: nat, m: map<string, V>)
      requires cap > 0 && ChainOk(c, b, m) && Bucket(it.key) == b && it.key !in m && it.next == After(c, -1)
      ensures ChainOk([it] + c, b, m[it.key := it.val])
    {
      var d := [it] + c;
      forall i | 0 <= i < |d|
        ensures d[i].next == After(d, i)
      {
        if i > 0 {
          assert c[i - 1].next == After(c, i - 1);
        }
      }
    }

    lemma KeysStay(c: seq<Item<V>>, it: Item<V>, k: string)
      ensures HasKey([it] + c, k) <==> it.key == k || HasKey(c, k)
    {
      var d := [it] + c;
      if it.key == k {
        assert d[0].key == k;
      } else if HasKey(c, k) {
        var i :| 0 <= i < |c| && c[i].key == k;
        assert d[i + 1].key == k;
      }
    }

    // The chains with `it` in front of its own.
    ghost function Grown(it: Item<V>): (cs: seq<seq<Item<V>>>)
      requires cap > 0 && |chains| == cap
      reads this`chains
      ensures |cs| == cap
    {
      var b := Bucket(it.key);
      chains[b := [it] + chains[b]]
    }

    lemma GrownOk(it: Item<V>)
      requires Valid() && it.key !in m && it.next == arr[Bucket(it.key)]
      ensures forall b :: 0 <= b < cap ==> ChainOk(Grown(it)[b], b, m[it.key := it.val])
      ensures forall k :: k in m || k == it.key ==> HasKey(Grown(it)[Bucket(k)], k)
    {
      forall b | 0 <= b < cap
        ensures ChainOk(Grown(it)[b], b, m[it.key := it.val])
      {
        assert BucketOk(b);
        if b == Bucket(it.key) {
          LongerChain(it, chains[b], b, m);
        } else {
          OtherChain(chains[b], b, m, it.key, it.val);
        }
      }
      forall k | k in m || k == it.key
        ensures HasKey(Grown(it)[Bucket(k)], k)
      {
        KeysStay(chains[Bucket(it.key)], it, k);
        assert k in m ==> KeyOk(k);
      }
    }

    // The bookkeeping, once the heap holds chains cs for the map m2.
    method Settle(n: nat, ghost cs: seq<seq<Item<V>>>, ghost m2: map<string, V>, ghost items: set<Item<V>>)
      requires cap > 0 && arr.Length == |cs| == cap && n == |m2|
      requires forall b :: 0 <= b < cap ==> ChainOk(cs[b], b, m2)
      requires forall b, i :: 0 <= b < cap && 0 <= i < |cs[b]| ==> cs[b][i] in items
      requires forall b :: 0 <= b < cap ==> arr[b] == After(cs[b], -1)
      requires forall k :: k in m2 ==> HasKey(cs[Bucket(k)], k)
      modifies this
      ensures Valid() && m == m2 && repr == items
    {
      hide HasKey, After, Linked, KeysDistinct, ChainOk;
      size, repr, chains, m := n, items, cs, m2;
    }

    // Makes `it` the head of its bucket, once everything is in order for it.
    method Install(it: Item<V>, idx: nat, ghost cs: seq<seq<Item<V>>>)
      requires cap > 0 && arr.Length == |cs| == cap && idx < cap
      requires it.key !in m && size == |m|
      requires forall b :: 0 <= b < cap ==> ChainOk(cs[b], b, m[it.key := it.val])
      requires forall b, i :: 0 <= b < cap && 0 <= i < |cs[b]| ==> cs[b][i] in repr + {it}
      requires forall b :: 0 <= b < cap && b != idx ==> arr[b] == After(cs[b], -1)
      requires After(cs[idx], -1) == it
      requires forall k :: k in m || k == it.key ==> HasKey(cs[Bucket(k)], k)
      modifies this, arr
      ensures Valid() && m == old(m)[it.key := it.val] && repr == old(repr) + {it}
    {
      hide HasKey, After, Linked, KeysDistinct, ChainOk;
      arr[idx] := it;
      Settle(size + 1, cs, m[it.key := it.val], repr + {it});
    }

    // A new item at the head of its chain.
    method PutNew(key: string, v: V, idx: nat)
      requires Valid() && idx == Bucket(key) && key !in m
      modifies this, arr
      ensures Valid() && m == old(m)[key := v] && fresh(repr - old(repr))
    {
      var it := new Item(key, v, arr[idx]);
      GrownOk(it);
      hide ChainOk, HasKey, Linked, KeysDistinct;
      forall b | 0 <= b < cap
        ensures InRepr(chains[b]) && arr[b] == After(chains[b], -1)
      {
        assert BucketOk(b);
      }
      Install(it, idx, Grown(it));
    }

    // A value replaced in place.
    method SetVal(it: Item<V>, v: V, ghost idx: nat, ghost at: nat)
      requires Valid() && idx < cap && at < |chains[idx]| && it == chains[idx][at]
      modifies this`m, it
      ensures Valid() && m == old(m)[it.key := v]
    {
      assert BucketOk(idx);
      it.val := v;
      m := m[it.key := v];
      forall b | 0 <= b < cap
        ensures BucketOk(b)
      {
        assert old(BucketOk(b));
      }
      forall k | k in m
        ensures KeyOk(k)
      {
        assert k != it.key ==> old(KeyOk(k));
      }
    }

    method Put(key: string, v: V)
      requires Valid()
      modifies this, arr, repr
      ensures Valid() && m == old(m)[key := v] && fresh(repr - old(repr))
    {
      var idx := Bucket(key);
      var it, at := GetItem(key, idx);
      if it == null {
        PutNew(key, v, idx);
      } else {
        SetVal(it, v, idx, at);
      }
    }

    // The chain without its at-th item.
    ghost function Cut(c: seq<Item<V>>, at: nat): (d: seq<Item<V>>)
      requires at < |c|
      ensures |d| == |c| - 1 && forall i :: 0 <= i < |d| ==> d[i] == c[if i < at then i else i + 1]
    {
      c[..at] + c[at + 1..]
    }

    lemma CutKeys(c: seq<Item<V>>, at: nat, k: string)
      requires at < |c| && KeysDistinct(c)
      ensures HasKey(Cut(c, at), k) <==> HasKey(c, k) && k != c[at].key
    {
      var d := Cut(c, at);
      if HasKey(c, k) && k != c[at].key {
        var i :| 0 <= i < |c| && c[i].key == k;
        assert d[if i < at then i else i - 1].key == k;
      }
    }

    // The heap once the at-th item of chain idx is unlinked, before the
    // bookkeeping catches up.
    ghost predicate Spliced(idx: nat, at: nat)
      requires idx < |chains| && at < |chains[idx]|
      reads this, arr, repr
    {
      && cap > 0 && arr.Length == |chains| == cap
      && (forall b :: 0 <= b < cap ==> InRepr(chains[b]))
      && Linked(Cut(chains[idx], at)) && arr[idx] == After(Cut(chains[idx], at), -1)
      && (forall b :: 0 <= b < cap && b != idx ==> Linked(chains[b]) && arr[b] == After(chains[b], -1))
    }

    method UnlinkHead(it: Item<V>, idx: nat)
      requires Valid() && idx < cap && chains[idx] != [] && it == chains[idx][0]
      modifies arr, it`next
      ensures Spliced(idx, 0)
    {
      hide HasKey;
      ghost var c := chains[idx];
      assert BucketOk(idx);
      assert forall i :: 0 < i < |c| ==> c[i].key != c[0].key;
      arr[idx] := it.next;
      it.next := null;
      forall b | 0 <= b < cap && b != idx
        ensures Linked(chains[b]) && arr[b] == After(chains[b], -1)
      {
        assert old(BucketOk(b));
      }
      CutLinks(idx, 0);
    }

    method UnlinkAfter(pre: Item<V>, it: Item<V>, idx: nat, ghost at: nat)
      requires Valid() && idx < cap && 0 < at < |chains[idx]|
      requires it == chains[idx][at] && pre == chains[idx][at - 1]
      modifies it`next, pre`next
      ensures Spliced(idx, at)
    {
      hide HasKey;
      ghost var c := chains[idx];
      assert BucketOk(idx);
      pre.next := it.next;
      it.next := null;
      forall b | 0 <= b < cap && b != idx
        ensures Linked(chains[b]) && arr[b] == After(chains[b], -1)
      {
        assert old(BucketOk(b));
      }
      CutLinks(idx, at);
    }

    lemma CutLinks(idx: nat, at: nat)
      requires idx < |chains| && at < |chains[idx]|
      requires forall i {:trigger chains[idx][i].next} ::
                 0 <= i < |chains[idx]| && i != at && i + 1 != at ==> chains[idx][i].next == After(chains[idx], i)
      requires at > 0 ==> chains[idx][at - 1].next == After(chains[idx], at)
      ensures Linked(Cut(chains[idx], at))
    {
      var c := chains[idx];
      var d := Cut(c, at);
      forall i | 0 <= i < |d|
        ensures d[i].next == After(d, i)
      {
        var j := if i < at then i else i + 1;
        assert d[i] == c[j];
        assert j + 1 != at ==> c[j].next == After(c, j);
      }
    }

    lemma ChainLess(idx: nat, at: nat, key: string, b: nat)
      requires cap > 0 && |chains| == cap && idx < cap && at < |chains[idx]| && Spliced(idx, at) && b < cap
      requires key == chains[idx][at].key
      requires KeysDistinct(chains[b])
      requires forall i :: 0 <= i < |chains[b]| ==>
                 && Bucket(chains[b][i].key) == b && chains[b][i].key in m && m[chains[b][i].key] == chains[b][i].val
      requires Bucket(key) == idx
      ensures ChainOk(if b == idx then Cut(chains[idx], at) else chains[b], b, m - {key})
    {
      hide After;
    }

    // The bookkeeping after an item is unlinked.
    method Forget(idx: nat, ghost at: nat, ghost key: string)
      requires cap > 0 && |chains| == cap && idx < cap && at < |chains[idx]| && Spliced(idx, at)
      requires key == chains[idx][at].key && key in m && size == |m|
      requires forall b :: 0 <= b < cap ==> KeysDistinct(chains[b])
      requires forall b, i :: 0 <= b < cap && 0 <= i < |chains[b]| ==>
                 && Bucket(chains[b][i].key) == b && chains[b][i].key in m && m[chains[b][i].key] == chains[b][i].val
      requires forall k :: k in m ==> KeyOk(k)
      modifies this
      ensures Valid() && m == old(m) - {key} && repr == old(repr)
    {
      hide Linked, HasKey, After, KeysDistinct, ChainOk;
      ghost var cs := chains[idx := Cut(chains[idx], at)];
      ghost var m2 := m - {key};
      assert Bucket(key) == idx;
      forall b | 0 <= b < cap
        ensures ChainOk(cs[b], b, m2)
      {
        ChainLess(idx, at, key, b);
      }
      forall b, i | 0 <= b < cap && 0 <= i < |cs[b]|
        ensures cs[b][i] in repr
      {
        assert InRepr(chains[b]);
      }
      forall k | k in m2
        ensures HasKey(cs[Bucket(k)], k)
      {
        assert KeyOk(k);
        CutKeys(chains[idx], at, k);
      }
      Settle(size - 1, cs, m2, repr);
    }

    lemma AllInOrder()
      requires Valid()
      ensures forall b :: 0 <= b < cap ==> KeysDistinct(chains[b])
      ensures forall b, i :: 0 <= b < cap && 0 <= i < |chains[b]| ==>
                && Bucket(chains[b][i].key) == b && chains[b][i].key in m && m[chains[b][i].key] == chains[b][i].val
    {
      hide KeysDistinct, Linked;
      forall b | 0 <= b < cap
        ensures KeysDistinct(chains[b])
        ensures forall i :: 0 <= i < |chains[b]| ==>
                  && Bucket(chains[b][i].key) == b && chains[b][i].key in m && m[chains[b][i].key] == chains[b][i].val
      {
        assert BucketOk(b);
      }
    }

    method Unchain(it: Item<V>, pre: Item?<V>, idx: nat, ghost at: nat)
      requires Valid() && idx < cap && at < |chains[idx]| && it == chains[idx][at]
      requires pre == if at == 0 then null else chains[idx][at - 1]
      modifies this, arr, repr
      ensures Valid() && m == old(m) - {it.key} && repr == old(repr)
    {
      assert InRepr(chains[idx]);
      AllInOrder();
      hide Linked, HasKey, KeysDistinct, After;
      if pre == null {
        UnlinkHead(it, idx);
      } else {
        UnlinkAfter(pre, it, idx, at);
      }
      Forget(idx, at, it.key);
    }

    // The walk for a chain of two or more starts at the head item; the source
    // starts it at the address of the bucket, which is no item.
    method Remove(key: string) returns (ok: bool)
      requires Valid()
      modifies this, arr, repr
      ensures Valid() && ok == (key in old(m)) && m == old(m) - {key} && repr == old(repr)
    {
      var idx := Bucket(key);
      ghost var c := chains[idx];
      assert BucketOk(idx);
      assert key in m ==> KeyOk(key);
      if arr[idx] == null {
        return false;
      }
      if arr[idx].next == null {
        assert c[0].next == After(c, 0);
        if key == arr[idx].key {
          Unchain(arr[idx], null, idx, 0);
          return true;
        }
        return false;
      }
      var it: Item?<V>, pre: Item?<V> := arr[idx], null;
      ghost var at := 0;
      while it != null
        invariant 0 <= at <= |c| && it == After(c, at - 1)
        invariant pre == if at == 0 then null else c[at - 1]
        invariant forall i :: 0 <= i < at ==> c[i].key != key
        decreases |c| - at
      {
        if key == it.key {
          Unchain(it, pre, idx, at);
          return true;
        }
        pre := it;
        it := it.next;
        at := at + 1;
      }
      ok := false;
    }
  }
}
