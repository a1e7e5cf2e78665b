/**
 Looking entries up, putting and joining, on maps as values; extra_get,
 extra_put and extra_pullAll are proved against these in ExtraList.
 */
module ExtraLookup {
  import opened Wire
  import opened ExtraMap

  // The part of the chain that starts at the first node with the key.
  function From(m: Extra, k: Key): Extra {
    if m.Nil? || m.key == k then m else From(m.next, k)
  }

  function Get(m: Extra, k: Key): Option<Val> {
    var f := From(m, k);
    if f.Nil? then None else Some(f.val)
  }

  // The chain the caller holds after storing v under k: a node with the key is
  // changed and becomes the head, otherwise a new head is added.
  function Put(m: Extra, k: Key, v: Val): Extra {
    var f := From(m, k);
    if f.Nil? then Node(k, v, m) else Node(k, v, f.next)
  }

  // The chain after storing v under a string key: changed in place, or added
  // at the end.
  function PutLast(m: Extra, k: Key, v: Val): Extra {
    if m.Nil? then Node(k, v, Nil)
    else if m.key == k then Node(k, v, m.next)
    else Node(m.key, m.val, PutLast(m.next, k, v))
  }

  predicate Has(m: Extra, k: Key) {
    From(m, k).Node?
  }

  predicate Distinct(m: Extra) {
    m.Node? ==> !Has(m.next, m.key) && Distinct(m.next)
  }

  // The chain a followed by the chain b.
  function Join(a: Extra, b: Extra): Extra {
    if a.Nil? then b else Node(a.key, a.val, Join(a.next, b))
  }

  function MirrorOf(v: Option<Val>): Option<Val> {
    if v.None? then None else Some(MirrorVal(v.value))
  }

  lemma {:induction false} GetFromMirrorOnto(m: Extra, acc: Extra, k: Key)
    requires Distinct(m)
    ensures Get(MirrorOnto(m, acc), k) == if Has(m, k) then MirrorOf(Get(m, k)) else Get(acc, k)
  {
    if m.Nil? {
    } else {
      GetFromMirrorOnto(m.next, Node(m.key, MirrorVal(m.val), acc), k);
    }
  }

  // With distinct keys a lookup gives the same answer on the decoded map as on
  // the original, although the decoded map is reversed.
  lemma LookupSurvivesTheWire(m: Extra, k: Key)
    requires Distinct(m)
    ensures Get(Mirror(m), k) == MirrorOf(Get(m, k))
  {
    GetFromMirrorOnto(m, Nil, k);
  }

  lemma {:induction false} MirrorOntoDistinct(m: Extra, acc: Extra)
    requires Distinct(m) && Distinct(acc)
    requires forall k :: Has(m, k) ==> !Has(acc, k)
    ensures Distinct(MirrorOnto(m, acc))
    decreases m
  {
    if m.Nil? {
    } else {
      var acc' := Node(m.key, MirrorVal(m.val), acc);
      assert Has(m, m.key);
      forall k | Has(m.next, k)
        ensures !Has(acc', k)
      {
        assert Has(m, k);
      }
      MirrorOntoDistinct(m.next, acc');
    }
  }

  lemma MirrorKeepsDistinct(m: Extra)
    requires Distinct(m)
    ensures Distinct(Mirror(m))
  {
    MirrorOntoDistinct(m, Nil);
  }

  lemma {:induction false} SuffixOf(m: Extra, k: Key, j: Key)
    requires Distinct(m)
    ensures Distinct(From(m, k))
    ensures From(m, k).Node? ==> From(m, k).key == k
    ensures Has(From(m, k), j) ==> Has(m, j) && Get(From(m, k), j) == Get(m, j)
  {
    if m.Nil? || m.key == k {
    } else {
      SuffixOf(m.next, k, j);
    }
  }

  // Storing a key keeps the keys distinct and makes the new value the one found.
  lemma PutKeepsDistinct(m: Extra, k: Key, v: Val)
    requires Distinct(m)
    ensures Distinct(Put(m, k, v)) && Get(Put(m, k, v), k) == Some(v)
  {
    SuffixOf(m, k, k);
  }

  // Whether the other entries are still found afterwards: exactly when the key
  // is new or belongs to the head.  Otherwise the caller's chain now starts at
  // the changed node and the nodes before it are gone.
  lemma PutLosesNothingIff(m: Extra, k: Key, v: Val)
    requires Distinct(m)
    ensures (forall j :: j != k ==> Get(Put(m, k, v), j) == Get(m, j)) <==> !Has(m, k) || m.key == k
  {
    if Has(m, k) && m.key != k {
      SuffixOf(m, k, m.key);
      SuffixOf(m.next, k, m.key);
      assert From(m, k) == From(m.next, k);
      assert Get(Put(m, k, v), m.key) == None;
    }
  }

  // Adding at the end loses nothing.
  lemma {:induction false} PutLastLookup(m: Extra, k: Key, v: Val, j: Key)
    ensures Get(PutLast(m, k, v), j) == if j == k then Some(v) else Get(m, j)
  {
    if m.Nil? || m.key == k {
    } else {
      PutLastLookup(m.next, k, v, j);
    }
  }

  lemma {:induction false} PutLastIsJoin(m: Extra, k: Key, v: Val)
    requires !Has(m, k)
    ensures PutLast(m, k, v) == Join(m, Node(k, v, Nil))
  {
    if m.Nil? {
    } else {
      PutLastIsJoin(m.next, k, v);
    }
  }

  lemma {:induction false} PutLastDistinct(m: Extra, k: Key, v: Val)
    requires Distinct(m)
    ensures Distinct(PutLast(m, k, v))
  {
    if m.Nil? || m.key == k {
    } else {
      PutLastDistinct(m.next, k, v);
      PutLastLookup(m.next, k, v, m.key);
    }
  }

  lemma {:induction false} JoinLookup(a: Extra, b: Extra, k: Key)
    ensures Get(Join(a, b), k) == if Has(a, k) then Get(a, k) else Get(b, k)
  {
    if a.Nil? {
    } else {
      JoinLookup(a.next, b, k);
    }
  }

  lemma {:induction false} MirrorOntoJoin(m: Extra, acc: Extra)
    ensures MirrorOnto(m, acc) == Join(Mirror(m), acc)
    decreases m
  {
    if m.Nil? {
    } else {
      var one := Node(m.key, MirrorVal(m.val), Nil);
      MirrorOntoJoin(m.next, Node(m.key, MirrorVal(m.val), acc));
      MirrorOntoJoin(m.next, one);
      JoinAssoc(Mirror(m.next), one, acc);
    }
  }

  lemma {:induction false} JoinAssoc(a: Extra, b: Extra, c: Extra)
    ensures Join(Join(a, b), c) == Join(a, Join(b, c))
  {
    if a.Nil? {
    } else {
      JoinAssoc(a.next, b, c);
    }
  }

  /** Node by node **/

  // The i-th node is the first with the key.
  predicate FirstAt(m: Extra, k: Key, i: nat) {
    i < Count(m) && At(m, i).key == k && forall j :: 0 <= j < i ==> At(m, j).key != k
  }

  predicate Nowhere(m: Extra, k: Key) {
    forall j :: 0 <= j < Count(m) ==> At(m, j).key != k
  }

  lemma AtNext(m: Extra, i: nat)
    requires 0 < i < Count(m)
    ensures At(m, i) == At(m.next, i - 1)
  {
  }

  lemma NextFirst(m: Extra, k: Key, i: nat)
    requires m.Node? && m.key != k
    ensures i > 0 && FirstAt(m, k, i) ==> FirstAt(m.next, k, i - 1)
    ensures Nowhere(m, k) ==> Nowhere(m.next, k)
  {
    assert forall j :: 0 <= j < Count(m.next) ==> At(m.next, j) == At(m, j + 1);
  }

  // Each key has a first node, or none at all.
  lemma {:induction false} FirstOrNowhere(m: Extra, k: Key)
    ensures Nowhere(m, k) <==> !exists i: nat :: FirstAt(m, k, i)
  {
    if m.Nil? {
    } else if m.key == k {
      assert At(m, 0) == m;
      assert FirstAt(m, k, 0);
    } else {
      FirstOrNowhere(m.next, k);
      assert At(m, 0) == m;
      assert forall j :: 0 < j < Count(m) ==> At(m, j) == At(m.next, j - 1);
      if i: nat :| FirstAt(m.next, k, i) {
        assert At(m, i + 1) == At(m.next, i);
        assert FirstAt(m, k, i + 1);
      }
    }
  }

  // A lookup finds the first node with the key; putting gives that node the
  // value and drops the nodes before it.
  lemma {:induction false} FoundAt(m: Extra, k: Key, v: Val, i: nat)
    requires FirstAt(m, k, i)
    ensures From(m, k) == At(m, i) && Get(m, k) == Some(At(m, i).val)
    ensures Put(m, k, v) == Node(k, v, At(m, i).next)
  {
    if i == 0 {
    } else {
      assert At(m, 0) == m;
      NextFirst(m, k, i);
      FoundAt(m.next, k, v, i - 1);
    }
  }

  // Without such a node nothing is found, and putting adds one in front.
  lemma {:induction false} NotFound(m: Extra, k: Key, v: Val)
    requires Nowhere(m, k)
    ensures Get(m, k) == None && Put(m, k, v) == Node(k, v, m)
  {
    if m.Nil? {
    } else {
      assert At(m, 0) == m;
      NextFirst(m, k, 0);
      NotFound(m.next, k, v);
    }
  }

  // Putting under a string key changes the value of the first node with the
  // key, or adds a node at the end, and keeps all others in place.
  lemma {:induction false} PutLastAt(m: Extra, k: Key, v: Val, i: nat)
    requires i <= Count(m) && (FirstAt(m, k, i) || (i == Count(m) && Nowhere(m, k)))
    ensures var r := PutLast(m, k, v);
            && Count(r) == (if i < Count(m) then Count(m) else Count(m) + 1)
            && At(r, i).key == k && At(r, i).val == v
            && forall j :: 0 <= j < Count(m) && j != i ==> At(r, j).key == At(m, j).key && At(r, j).val == At(m, j).val
  {
    if m.Nil? {
    } else {
      var r := PutLast(m, k, v);
      assert At(m, 0) == m && At(r, 0) == r;
      if i == 0 {
        assert forall j :: 0 < j < Count(m) ==> At(r, j) == At(r.next, j - 1) && At(m, j) == At(m.next, j - 1);
      } else {
        NextFirst(m, k, i);
        PutLastAt(m.next, k, v, i - 1);
        assert At(r, i) == At(r.next, i - 1);
        assert forall j :: 0 < j < Count(m) ==> At(r, j) == At(r.next, j - 1) && At(m, j) == At(m.next, j - 1);
      }
    }
  }

  // Joining puts the second chain behind the first.
  lemma {:induction false} JoinAt(a: Extra, b: Extra, i: nat)
    requires i < Count(a) + Count(b)
    ensures var r := Join(a, b);
            && Count(r) == Count(a) + Count(b)
            && At(r, i).key == (if i < Count(a) then At(a, i).key else At(b, i - Count(a)).key)
            && At(r, i).val == (if i < Count(a) then At(a, i).val else At(b, i - Count(a)).val)
  {
    if a.Nil? {
    } else if i == 0 {
      JoinCount(a, b);
    } else {
      JoinAt(a.next, b, i - 1);
    }
  }

  lemma {:induction false} JoinCount(a: Extra, b: Extra)
    ensures Count(Join(a, b)) == Count(a) + Count(b)
  {
    if a.Nil? {
    } else {
      JoinCount(a.next, b);
    }
  }
}
