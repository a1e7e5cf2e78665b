/**
 Iteration over the hash map: hashmap_iteNext of jm_mem.c.  The items come
 in the order of Flat, which holds every binding of the map exactly once; so
 size calls succeed, and every later one answers null.
 */
module HashWalk {
  import opened HashMap
  import opened Wire

  // All items, bucket by bucket, in chain order.
  ghost function Flat<V>(cs: seq<seq<Item<V>>>): (s: seq<Item<V>>) {
    if |cs| == 0 then [] else Flat(cs[..|cs| - 1]) + cs[|cs| - 1]
  }

  lemma {:induction false} FlatAt<V>(cs: seq<seq<Item<V>>>, b: nat, j: nat)
    requires b < |cs| && j < |cs[b]|
    ensures |Flat(cs[..b])| + j < |Flat(cs)| && Flat(cs)[|Flat(cs[..b])| + j] == cs[b][j]
    decreases |cs|
  {
    var front := cs[..|cs| - 1];
    if b == |front| {
    } else {
      FlatAt(front, b, j);
      assert front[..b] == cs[..b];
    }
  }

  lemma {:induction false} FlatGrows<V>(cs: seq<seq<Item<V>>>, b: nat)
    requires b < |cs|
    ensures Flat(cs[..b + 1]) == Flat(cs[..b]) + cs[b]
  {
    assert cs[..b + 1][..b] == cs[..b];
  }

  // Where an item of the flat list comes from.
  lemma {:induction false} FlatFrom<V>(cs: seq<seq<Item<V>>>, i: nat) returns (b: nat, j: nat)
    requires i < |Flat(cs)|
    ensures b < |cs| && j < |cs[b]| && Flat(cs)[i] == cs[b][j] && i == |Flat(cs[..b])| + j
    decreases |cs|
  {
    var front := cs[..|cs| - 1];
    if i < |Flat(front)| {
      b, j := FlatFrom(front, i);
      assert front[..b] == cs[..b];
    } else {
      b, j := |cs| - 1, i - |Flat(front)|;
    }
  }

  lemma {:induction false} FlatShort<V>(cs: seq<seq<Item<V>>>, b: nat)
    requires b <= |cs|
    ensures |Flat(cs[..b])| <= |Flat(cs)|
    decreases |cs| - b
  {
    if b < |cs| {
      FlatGrows(cs, b);
      FlatShort(cs, b + 1);
    } else {
      assert cs[..b] == cs;
    }
  }

  ghost function KeySet<V>(c: seq<Item<V>>): (s: set<string>) {
    set i | 0 <= i < |c| :: c[i].key
  }

  lemma KeySetGrows<V>(c: seq<Item<V>>)
    requires KeysDistinct(c) && c != []
    ensures var k := c[|c| - 1].key;
            KeySet(c) == KeySet(c[..|c| - 1]) + {k} && k !in KeySet(c[..|c| - 1])
  {
    var d := c[..|c| - 1];
    forall x | x in KeySet(c)
      ensures x in KeySet(d) + {c[|c| - 1].key}
    {
      var i :| 0 <= i < |c| && c[i].key == x;
      if i < |d| {
        assert d[i].key == x;
      }
    }
    forall x | x in KeySet(d)
      ensures x in KeySet(c) && x != c[|c| - 1].key
    {
      var i :| 0 <= i < |d| && d[i].key == x;
      assert c[i].key == x;
    }
  }

  lemma {:induction false} KeyCount<V>(c: seq<Item<V>>)
    requires KeysDistinct(c)
    ensures |KeySet(c)| == |c|
  {
    if |c| == 0 {
    } else {
      KeySetGrows(c);
      hide KeySet;
      KeyCount(c[..|c| - 1]);
    }
  }

  lemma FlatDistinct<V>(map0: Map<V>)
    requires map0.Valid()
    ensures KeysDistinct(Flat(map0.chains))
  {
    var cs := map0.chains;
    forall x, y | 0 <= x < y < |Flat(cs)|
      ensures Flat(cs)[x].key != Flat(cs)[y].key
    {
      var b, i := FlatFrom(cs, x);
      var d, j := FlatFrom(cs, y);
      assert map0.BucketOk(b) && map0.BucketOk(d);
    }
  }

  // The flat list is the map: every binding once, nothing else.
  lemma FlatIsMap<V>(map0: Map<V>)
    requires map0.Valid()
    ensures |Flat(map0.chains)| == map0.size == |map0.m|
    ensures KeysDistinct(Flat(map0.chains))
    ensures forall k :: k in map0.m <==> HasKey(Flat(map0.chains), k)
    ensures forall i :: 0 <= i < |Flat(map0.chains)| ==>
              var it := Flat(map0.chains)[i]; it.key in map0.m && it.val == map0.m[it.key]
  {
    var cs: seq<seq<Item<V>>> := map0.chains;
    var flat := Flat(cs);
    forall k | k in map0.m
      ensures HasKey(flat, k)
    {
      var b := map0.Bucket(k);
      assert map0.KeyOk(k);
      var j: int :| 0 <= j < |cs[b]| && cs[b][j].key == k;
      FlatAt(cs, b, j);
      assert flat[|Flat(cs[..b])| + j].key == k;
    }
    forall i | 0 <= i < |flat|
      ensures flat[i].key in map0.m && flat[i].val == map0.m[flat[i].key]
    {
      var b, j := FlatFrom(cs, i);
      assert map0.BucketOk(b);
    }
    FlatDistinct(map0);
    KeyCount(flat);
    assert KeySet(flat) == map0.m.Keys;
  }

  // Where bucket b starts in the flat list.
  ghost function Start<V>(cs: seq<seq<Item<V>>>, b: nat): (n: nat)
    requires b <= |cs|
  {
    |Flat(cs[..b])|
  }

  // The array and the links, in terms of the flat list.
  lemma BucketShape<V>(over: Map<V>, b: nat)
    requires over.Valid() && b < over.cap
    ensures var cs := over.chains; var flat := Flat(cs);
            && Start(cs, b) <= Start(cs, b + 1) <= |flat|
            && over.arr[b] == (if Start(cs, b) < Start(cs, b + 1) then flat[Start(cs, b)] else null)
    ensures var cs := over.chains; var flat := Flat(cs);
            forall i {:trigger flat[i].next} :: Start(cs, b) <= i < Start(cs, b + 1) ==>
              flat[i].next == if i + 1 < Start(cs, b + 1) then flat[i + 1] else null
  {
    var cs: seq<seq<Item<V>>> := over.chains;
    var flat := Flat(cs);
    assert over.BucketOk(b);
    FlatGrows(cs, b);
    FlatShort(cs, b + 1);
    if cs[b] != [] {
      FlatAt(cs, b, 0);
    }
    forall i {:trigger flat[i].next} | Start(cs, b) <= i < Start(cs, b + 1)
      ensures flat[i].next == if i + 1 < Start(cs, b + 1) then flat[i + 1] else null
    {
      var j := i - Start(cs, b);
      FlatAt(cs, b, j);
      assert cs[b][j].next == After(cs[b], j);
      if j + 1 < |cs[b]| {
        FlatAt(cs, b, j + 1);
      }
    }
  }

  lemma Ends<V>(over: Map<V>)
    requires over.Valid()
    ensures |over.chains| == over.cap == over.arr.Length
    ensures Start(over.chains, 0) == 0 && Start(over.chains, over.cap) == |Flat(over.chains)|
  {
    assert over.chains[..0] == [] && over.chains[..over.cap] == over.chains;
  }

  // The first non-empty bucket from i on, or the end of the array.
  method Seek<V>(over: Map<V>, from: nat, ghost done: nat) returns (i: nat)
    requires over.Valid()
    requires done == if from < over.cap then Start(over.chains, from) else |Flat(over.chains)|
    ensures i >= from && done == if i < over.cap then Start(over.chains, i) else |Flat(over.chains)|
    ensures i < over.cap ==> over.arr[i] != null
  {
    Ends(over);
    hide Flat, Start, Map.Valid;
    i := from;
    while i < over.cap && over.arr[i] == null
      invariant from <= i && done == if i < over.cap then Start(over.chains, i) else |Flat(over.chains)|
    {
      BucketShape(over, i);
      i := i + 1;
    }
  }

  // cur is the last of `done` items delivered, and idx its bucket or past the
  // end.
  ghost predicate Placed<V>(cs: seq<seq<Item<V>>>, cur: Item?<V>, idx: int, done: nat) {
    && idx >= -1 && done <= |Flat(cs)|
    && cur == (if done == 0 then null else Flat(cs)[done - 1])
    && (idx == -1 ==> done == 0)
    && (0 <= idx < |cs| ==> Start(cs, idx) < done <= Start(cs, idx + 1))
    && (idx >= |cs| ==> done == |Flat(cs)|)
  }

  // The link of a placed item, and what is delivered when it is null.
  lemma LinkOf<V>(over: Map<V>, cur: Item?<V>, idx: int, done: nat)
    requires over.Valid() && Placed(over.chains, cur, idx, done)
    ensures var cs := over.chains;
            cur != null && cur.next != null ==>
              done < |Flat(cs)| && cur.next == Flat(cs)[done] && Placed(cs, cur.next, idx, done + 1)
    ensures var cs := over.chains;
            cur == null || cur.next == null ==>
              done == if idx + 1 < over.cap then Start(cs, idx + 1) else |Flat(cs)|
  {
    Ends(over);
    var cs: seq<seq<Item<V>>> := over.chains;
    if 0 <= idx < over.cap {
      BucketShape(over, idx);
      assert cur == Flat(cs)[done - 1];
    } else if cur != null {
      var b, j := FlatFrom(cs, done - 1);
      BucketShape(over, b);
      FlatGrows(cs, b);
      assert cur == Flat(cs)[done - 1];
    }
  }

  lemma FirstOf<V>(over: Map<V>, idx: nat, done: nat)
    requires over.Valid() && idx < over.cap && over.arr[idx] != null && done == Start(over.chains, idx)
    ensures done < |Flat(over.chains)| && over.arr[idx] == Flat(over.chains)[done]
    ensures Placed(over.chains, over.arr[idx], idx, done + 1)
  {
    Ends(over);
    BucketShape(over, idx);
  }

  // Scans on from the bucket after idx, once cur has no item behind it.
  method Scan<V>(over: Map<V>, ghost cur: Item?<V>, idx: int, ghost done: nat) returns (i: int, it: Item?<V>)
    requires over.Valid() && Placed(over.chains, cur, idx, done)
    requires done == if idx + 1 < over.cap then Start(over.chains, idx + 1) else |Flat(over.chains)|
    ensures it == if done < |Flat(over.chains)| then Flat(over.chains)[done] else null
    ensures it != null ==> Placed(over.chains, it, i, done + 1)
    ensures it == null ==> Placed(over.chains, cur, i, done)
  {
    i := Seek(over, idx + 1, done);
    Ends(over);
    if i < over.cap {
      FirstOf(over, i, done);
      it := over.arr[i];
    } else {
      it := null;
    }
  }

  class Cursor<V> {
    const over: Map<V>
    var cur: Item?<V>
    var idx: int
    // How many items were delivered.
    ghost var done: nat

    ghost predicate Valid()
      reads this, over, over.arr, over.repr
    {
      over.Valid() && Placed(over.chains, cur, idx, done)
    }

    constructor (over: Map<V>)
      requires over.Valid()
      ensures Valid() && this.over == over && done == 0
    {
      this.over, cur, idx, done := over, null, -1, 0;
    }

    // Each call delivers the next item of the flat list; once all are out,
    // every further call answers null.
    method Next() returns (v: Option<V>)
      requires Valid()
      modifies this
      ensures Valid()
      ensures var flat := Flat(over.chains);
              if old(done) < |flat| then
                done == old(done) + 1 && cur == flat[old(done)] && v == Some(cur.val)
              else
                done == old(done) && v == None
    {
      hide Flat, Start, Placed, Map.Valid;
      LinkOf(over, cur, idx, done);
      if cur == null || cur.next == null {
        var it;
        idx, it := Scan(over, cur, idx, done);
        if it == null {
          return None;
        }
        cur := it;
      } else {
        cur := cur.next;
      }
      done := done + 1;
      v := Some(cur.val);
    }
  }

  ghost function Vals<V>(items: seq<Item<V>>): (vs: seq<V>)
    reads items
    ensures |vs| == |items| && forall i :: 0 <= i < |items| ==> vs[i] == items[i].val
  {
    seq(|items|, i requires 0 <= i < |items| reads items => items[i].val)
  }

  // A cursor over a map whose values, in the order of the walk, are want.
  ghost predicate Walks<V>(c: Cursor<V>, want: seq<V>)
    reads c, c.over, c.over.arr, c.over.repr, Flat(c.over.chains)
  {
    c.Valid() && Vals(Flat(c.over.chains)) == want
  }

  method Step<V>(c: Cursor<V>, ghost want: seq<V>) returns (v: Option<V>)
    requires Walks(c, want)
    modifies c
    ensures Walks(c, want)
    ensures if old(c.done) < |want| then c.done == old(c.done) + 1 && v == Some(want[old(c.done)])
            else c.done == old(c.done) && v == None
  {
    hide Flat, Map.Valid, Placed;
    ghost var cs := c.over.chains;
    v := c.Next();
    forall i | 0 <= i < |Flat(cs)|
      ensures Flat(cs)[i].val == want[i]
    {
      var b, j := FlatFrom(cs, i);
    }
    assert Vals(Flat(cs)) == want;
  }

  // A whole walk: the values of the flat list in order, as many as the map has
  // bindings, and then null.
  method Walk<V>(over: Map<V>) returns (vs: seq<V>)
    requires over.Valid()
    ensures vs == Vals(Flat(over.chains)) && |vs| == over.size
  {
    hide Flat, Map.Valid, Cursor.Valid, HasKey, KeysDistinct, Vals, Walks;
    FlatIsMap(over);
    ghost var want := Vals(Flat(over.chains));
    var c := Begin(over);
    vs := [];
    var v := Step(c, want);
    while v.Some?
      invariant fresh(c) && Walks(c, want)
      invariant c.done == |vs| + (if v.Some? then 1 else 0) <= |want|
      invariant if v.Some? then v.value == want[|vs|] else |vs| == |want|
      invariant vs == want[..|vs|]
      decreases |want| - |vs|
    {
      vs := vs + [v.value];
      v := Step(c, want);
    }
  }

  method Begin<V>(over: Map<V>) returns (c: Cursor<V>)
    requires over.Valid()
    ensures fresh(c) && c.done == 0 && Walks(c, Vals(Flat(over.chains)))
  {
    hide Flat, Map.Valid, Placed;
    c := new Cursor(over);
  }
}
