/** The order queries of module AddressSpace are those of the tree: for the items of a tree whose keys
    are the base addresses of the areas, they give the same answers, and insertion and removal keep the
    two in step. */
module AreaIndex {

  import opened Options
  import opened AATree
  import AS = AddressSpace

  /** The items, in key order, are the areas. */
  ghost predicate Indexes<N>(e: seq<Item<N>>, s: AS.Areas) {
    Sorted(e) && forall k :: k in s <==> HasKey(e, k)
  }

  /** bbtree_first */
  lemma FirstIs<N>(e: seq<Item<N>>, s: AS.Areas)
    requires Indexes(e, s)
    ensures AS.First(s) == if e == [] then None else Some(e[0].key)
  {
    if e == [] {
      assert forall k :: k !in s;
    } else {
      var f := AS.First(s);
      assert HasKey(e, e[0].key);
      assert f.Some? && HasKey(e, f.value);
    }
  }

  /** bbtree_next */
  lemma NextIs<N>(e: seq<Item<N>>, s: AS.Areas, i: nat)
    requires Indexes(e, s) && i < |e|
    ensures AS.Next(s, e[i].key) == if i + 1 < |e| then Some(e[i + 1].key) else None
  {
    var n := AS.Next(s, e[i].key);
    if n.Some? { assert HasKey(e, n.value); }
    if i + 1 < |e| { assert HasKey(e, e[i + 1].key); }
  }

  /** bbtree_search_le */
  lemma AtOrBelowIs<N>(t: Tree<N>, s: AS.Areas, k: nat)
    requires Indexes(Elems(t), s)
    ensures AS.AtOrBelow(s, k) == match Search(t, k, -1) case Nothing => None case Hit(x) => Some(x.key)
  {
    hide Sorted, Search, Elems;
    SearchNearest(t, k, -1);
    var e := Elems(t);
    forall x | x in s && x <= k
      ensures exists y :: y in e && y.key == x && Eligible(y, k, -1)
    {
      var i :| 0 <= i < |e| && e[i].key == x;
      assert e[i] in e;
    }
    match Search(t, k, -1)
    case Nothing =>
      assert forall x :: x in s ==> x > k;
    case Hit(y) =>
      assert HasKey(e, y.key);
      assert forall x :: x in s && x <= k ==> x <= y.key;
  }

  lemma HasCons<N>(x: Item<N>, rest: seq<Item<N>>, k: nat)
    ensures HasKey([x] + rest, k) <==> x.key == k || HasKey(rest, k)
  {
    var e := [x] + rest;
    if HasKey(rest, k) {
      var i :| 0 <= i < |rest| && rest[i].key == k;
      assert e[i + 1].key == k;
    }
    if x.key == k { assert e[0].key == k; }
    if HasKey(e, k) && x.key != k {
      var i :| 0 <= i < |e| && e[i].key == k;
      assert rest[i - 1].key == k;
    }
  }

  lemma {:induction false} InsertKeys<N>(e: seq<Item<N>>, x: Item<N>, k: nat)
    ensures HasKey(InsertSeq(e, x), k) <==> HasKey(e, k) || k == x.key
  {
    hide HasKey;
    HasCons(x, e, k);
    if e != [] {
      assert e == [e[0]] + e[1..];
      HasCons(e[0], e[1..], k);
      InsertKeys(e[1..], x, k);
      HasCons(e[0], InsertSeq(e[1..], x), k);
    }
  }

  lemma {:induction false} RemoveKeys<N>(e: seq<Item<N>>, k: nat, q: nat)
    requires Sorted(e)
    ensures HasKey(RemoveSeq(e, k), q) <==> HasKey(e, q) && q != k
  {
    if e != [] {
      assert e == [e[0]] + e[1..];
      HasCons(e[0], e[1..], q);
      if e[0].key != k {
        RemoveKeys(e[1..], k, q);
        HasCons(e[0], RemoveSeq(e[1..], k), q);
      }
    }
  }

  /** bbtree_insert of an area whose base is free. */
  lemma InsertIndexes<N>(e: seq<Item<N>>, s: AS.Areas, x: Item<N>, a: AS.Area)
    requires Indexes(e, s) && x.key !in s
    ensures Indexes(InsertSeq(e, x), s[x.key := a])
  {
    InsertSeqSorted(e, x);
    hide Sorted, HasKey, InsertSeq;
    forall k: nat ensures k in s[x.key := a] <==> HasKey(InsertSeq(e, x), k) { InsertKeys(e, x, k); }
  }

  /** bbtree_remove of an area. */
  lemma RemoveIndexes<N>(e: seq<Item<N>>, s: AS.Areas, k: nat)
    requires Indexes(e, s) && k in s
    ensures Indexes(RemoveSeq(e, k), s - {k})
  {
    RemoveSeqSorted(e, k);
    hide Sorted, HasKey, RemoveSeq;
    forall q: nat ensures q in s - {k} <==> HasKey(RemoveSeq(e, k), q) { RemoveKeys(e, k, q); }
  }
}
