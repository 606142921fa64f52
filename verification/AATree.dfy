/** The shapes an intrusive AA tree goes through, as values.

    A shape records which node sits where, with its key and level; parent links are what module
    BBTree adds when it lays a shape out in memory. The functions below are the effect of
    bbtree_skew, bbtree_split, bbtree_insert_, bbtree_rebalance and bbtree_remove_ on shapes. */
module AATree {

  datatype Item<N> = Item(node: N, key: nat)

  datatype Tree<N> = Leaf | Bin(l: Tree<N>, it: Item<N>, lv: int, r: Tree<N>)

  function Level<N>(t: Tree<N>): int {
    if t.Leaf? then 0 else t.lv
  }

  function Right<N>(t: Tree<N>): Tree<N> {
    if t.Leaf? then Leaf else t.r
  }

  /** The nodes in key order. */
  function Elems<N>(t: Tree<N>): seq<Item<N>> {
    if t.Leaf? then [] else Elems(t.l) + [t.it] + Elems(t.r)
  }

  predicate Sorted<N>(s: seq<Item<N>>) {
    forall i, j :: 0 <= i < j < |s| ==> s[i].key < s[j].key
  }

  /** The level rules: a left child is one level down, a right child at most level with its
      parent, and no two right links in a row stay on one level. */
  predicate AA<N>(t: Tree<N>) {
    t.Bin? ==>
      && AA(t.l) && AA(t.r)
      && t.lv >= 1
      && Level(t.l) == t.lv - 1
      && t.lv - 1 <= Level(t.r) <= t.lv
      && Level(Right(t.r)) < t.lv
  }

  // ----- rotations -----------------------------------------------------------------------

  function Skew<N>(t: Tree<N>): Tree<N> {
    if t.Leaf? || t.l.Leaf? || t.l.lv != t.lv then t
    else Bin(t.l.l, t.l.it, t.l.lv, Bin(t.l.r, t.it, t.lv, t.r))
  }

  function Split<N>(t: Tree<N>): Tree<N> {
    if t.Leaf? || t.r.Leaf? || t.r.r.Leaf? || t.r.r.lv != t.lv then t
    else Bin(Bin(t.l, t.it, t.lv, t.r.l), t.r.it, t.r.lv + 1, t.r.r)
  }

  lemma SkewElems<N>(t: Tree<N>)
    ensures Elems(Skew(t)) == Elems(t)
  {
    if t.Bin? && t.l.Bin? && t.l.lv == t.lv {
      assert Elems(Skew(t)) == Elems(t.l.l) + [t.l.it] + (Elems(t.l.r) + [t.it] + Elems(t.r));
    }
  }

  lemma SplitElems<N>(t: Tree<N>)
    ensures Elems(Split(t)) == Elems(t)
  {
    if t.Bin? && t.r.Bin? && t.r.r.Bin? && t.r.r.lv == t.lv {
      assert Elems(t) == Elems(t.l) + [t.it] + (Elems(t.r.l) + [t.r.it] + Elems(t.r.r));
    }
  }

  // ----- insertion -----------------------------------------------------------------------

  function Insert<N>(t: Tree<N>, x: Item<N>): Tree<N> {
    if t.Leaf? then Bin(Leaf, x, 1, Leaf)
    else if x.key < t.it.key then Split(Skew(Bin(Insert(t.l, x), t.it, t.lv, t.r)))
    else if x.key > t.it.key then Split(Skew(Bin(t.l, t.it, t.lv, Insert(t.r, x))))
    else t
  }

  /** Insertion keeps the level rules; the level grows by at most one, only where the root had a
      right child on its own level, and then both children are one level down. */
  lemma {:induction false} InsertAA<N>(t: Tree<N>, x: Item<N>)
    requires AA(t)
    ensures AA(Insert(t, x))
    ensures Insert(t, x).Bin?
    ensures Level(t) <= Level(Insert(t, x)) <= Level(t) + 1
    ensures Level(Insert(t, x)) == Level(t) + 1 ==>
      && (t.Leaf? || Level(t.r) == t.lv)
      && Level(Insert(t, x).r) == Level(t)
  {
    if t.Bin? {
      if x.key < t.it.key {
        InsertAA(t.l, x);
      } else if x.key > t.it.key {
        InsertAA(t.r, x);
      }
    }
  }

  /** Reference: insertion into a sorted list, a no-op on a key already there. */
  function InsertSeq<N>(s: seq<Item<N>>, x: Item<N>): seq<Item<N>> {
    if s == [] || x.key < s[0].key then [x] + s
    else if x.key == s[0].key then s
    else [s[0]] + InsertSeq(s[1..], x)
  }

  /** Reference: removal of a key from a list. */
  function RemoveSeq<N>(s: seq<Item<N>>, key: nat): seq<Item<N>> {
    if s == [] then []
    else if s[0].key == key then s[1..]
    else [s[0]] + RemoveSeq(s[1..], key)
  }

  lemma {:induction false} InsertSeqLeft<N>(a: seq<Item<N>>, m: Item<N>, b: seq<Item<N>>, x: Item<N>)
    requires x.key < m.key
    ensures InsertSeq(a + [m] + b, x) == InsertSeq(a, x) + [m] + b
    decreases |a|
  {
    var s := a + [m] + b;
    if a == [] {
      assert s[0] == m;
      assert InsertSeq(a, x) == [x];
      assert [x] + s == [x] + [m] + b;
    } else {
      assert s[0] == a[0] && s[1..] == a[1..] + [m] + b;
      InsertSeqLeft(a[1..], m, b, x);
    }
  }

  lemma {:induction false} InsertSeqRight<N>(a: seq<Item<N>>, b: seq<Item<N>>, x: Item<N>)
    requires forall i :: 0 <= i < |a| ==> a[i].key < x.key
    ensures InsertSeq(a + b, x) == a + InsertSeq(b, x)
    decreases |a|
  {
    if a == [] {
      assert a + b == b;
    } else {
      assert (a + b)[0] == a[0] && (a + b)[1..] == a[1..] + b;
      InsertSeqRight(a[1..], b, x);
    }
  }

  lemma {:induction false} RemoveSeqLeft<N>(a: seq<Item<N>>, b: seq<Item<N>>, key: nat)
    requires exists i :: 0 <= i < |a| && a[i].key == key
    ensures RemoveSeq(a + b, key) == RemoveSeq(a, key) + b
    decreases |a|
  {
    assert (a + b)[0] == a[0] && (a + b)[1..] == a[1..] + b;
    if a[0].key != key {
      var i :| 0 <= i < |a| && a[i].key == key;
      assert a[1..][i - 1].key == key;
      RemoveSeqLeft(a[1..], b, key);
    }
  }

  lemma {:induction false} RemoveSeqRight<N>(a: seq<Item<N>>, b: seq<Item<N>>, key: nat)
    requires forall i :: 0 <= i < |a| ==> a[i].key != key
    ensures RemoveSeq(a + b, key) == a + RemoveSeq(b, key)
    decreases |a|
  {
    if a == [] {
      assert a + b == b;
    } else {
      assert (a + b)[0] == a[0] && (a + b)[1..] == a[1..] + b;
      RemoveSeqRight(a[1..], b, key);
    }
  }

  lemma SortedSplit<N>(a: seq<Item<N>>, m: Item<N>, b: seq<Item<N>>)
    requires Sorted(a + [m] + b)
    ensures Sorted(a) && Sorted(b)
    ensures forall i :: 0 <= i < |a| ==> a[i].key < m.key
    ensures forall i :: 0 <= i < |b| ==> m.key < b[i].key
  {
    var s := a + [m] + b;
    assert s[|a|] == m;
    assert forall i :: 0 <= i < |a| ==> a[i] == s[i];
    assert forall i :: 0 <= i < |b| ==> b[i] == s[|a| + 1 + i];
  }

  lemma SortedParts<N>(t: Tree<N>)
    requires t.Bin? && Sorted(Elems(t))
    ensures Sorted(Elems(t.l)) && Sorted(Elems(t.r))
    ensures forall i :: 0 <= i < |Elems(t.l)| ==> Elems(t.l)[i].key < t.it.key
    ensures forall i :: 0 <= i < |Elems(t.r)| ==> t.it.key < Elems(t.r)[i].key
  {
    hide Sorted;
    SortedSplit(Elems(t.l), t.it, Elems(t.r));
  }

  /** In key order, inserting into the tree is inserting into a sorted list. */
  lemma {:induction false} InsertElems<N>(t: Tree<N>, x: Item<N>)
    requires Sorted(Elems(t))
    ensures Elems(Insert(t, x)) == InsertSeq(Elems(t), x)
  {
    if t.Bin? {
      SortedParts(t);
      var a, b := Elems(t.l), Elems(t.r);
      if x.key < t.it.key {
        InsertElems(t.l, x);
        InsertSeqLeft(a, t.it, b, x);
        var t1 := Bin(Insert(t.l, x), t.it, t.lv, t.r);
        SkewElems(t1);
        SplitElems(Skew(t1));
      } else if x.key > t.it.key {
        InsertElems(t.r, x);
        InsertSeqRight(a + [t.it], b, x);
        var t1 := Bin(t.l, t.it, t.lv, Insert(t.r, x));
        SkewElems(t1);
        SplitElems(Skew(t1));
      } else {
        assert a + [t.it] + b == a + ([t.it] + b);
        InsertSeqRight(a, [t.it] + b, x);
      }
    }
  }

  predicate HasKey<N>(s: seq<Item<N>>, key: nat) {
    exists i :: 0 <= i < |s| && s[i].key == key
  }

  /** A duplicate key leaves the tree as it was: the rotations on the way up do nothing. */
  lemma {:induction false} InsertDuplicate<N>(t: Tree<N>, x: Item<N>)
    requires AA(t) && Sorted(Elems(t)) && HasKey(Elems(t), x.key)
    ensures Insert(t, x) == t
  {
    if t.Bin? {
      SortedParts(t);
      var i :| 0 <= i < |Elems(t)| && Elems(t)[i].key == x.key;
      if x.key < t.it.key {
        assert Elems(t.l)[i].key == x.key;
        InsertDuplicate(t.l, x);
      } else if x.key > t.it.key {
        assert Elems(t.r)[i - |Elems(t.l)| - 1].key == x.key;
        InsertDuplicate(t.r, x);
      }
    }
  }

  // ----- removal -------------------------------------------------------------------------

  /** The level of the root drops by one, and a right child left above it comes along. */
  function Lower<N>(t: Tree<N>): Tree<N>
    requires t.Bin?
  {
    Bin(t.l, t.it, t.lv - 1,
        if t.r.Bin? && t.r.lv > t.lv - 1 then Bin(t.r.l, t.r.it, t.lv - 1, t.r.r) else t.r)
  }

  function OnRight<N>(t: Tree<N>, r: Tree<N>): Tree<N> {
    if t.Leaf? then Leaf else Bin(t.l, t.it, t.lv, r)
  }

  function Rebalance<N>(t: Tree<N>): Tree<N>
    requires t.Bin?
  {
    if Level(t.l) < t.lv - 1 || Level(t.r) < t.lv - 1 then
      var t1 := Skew(Lower(t));
      var t2 := OnRight(t1, Skew(t1.r));
      var t3 := OnRight(t2, OnRight(t2.r, Skew(Right(t2.r))));
      var t4 := Split(t3);
      OnRight(t4, Split(t4.r))
    else t
  }

  lemma RebalanceElems<N>(t: Tree<N>)
    requires t.Bin?
    ensures Elems(Rebalance(t)) == Elems(t)
  {
    if Level(t.l) < t.lv - 1 || Level(t.r) < t.lv - 1 {
      var t0 := Lower(t);
      assert Elems(t0.r) == Elems(t.r);
      SkewElems(t0);
      var t1 := Skew(t0);
      SkewElems(t1.r);
      var t2 := OnRight(t1, Skew(t1.r));
      SkewElems(Right(t2.r));
      var t3 := OnRight(t2, OnRight(t2.r, Skew(Right(t2.r))));
      assert Elems(t3.r) == Elems(t2.r);
      SplitElems(t3);
      var t4 := Split(t3);
      SplitElems(t4.r);
    }
  }

  /** The level rules with one child possibly a level too low. */
  predicate Sunk<N>(t: Tree<N>) {
    && t.Bin? && AA(t.l) && AA(t.r)
    && t.lv - 2 <= Level(t.l) <= t.lv - 1
    && t.lv - 2 <= Level(t.r) <= t.lv
    && Level(Right(t.r)) < t.lv
    && (Level(t.l) == t.lv - 1 || Level(t.r) >= t.lv - 1)
    && t.lv >= 1
  }

  /** The right child sank: the left one, now level with the root, is rotated over it. */
  lemma RebalanceRight<N>(t: Tree<N>)
    requires Sunk(t) && Level(t.r) < t.lv - 1
    ensures AA(Rebalance(t)) && Rebalance(t).Bin?
    ensures t.lv - 1 <= Level(Rebalance(t)) <= t.lv
    ensures Level(Right(Rebalance(t))) < t.lv
  {
    var v, l := t.lv - 1, t.l;
    var t1 := Bin(l.l, l.it, v, Bin(l.r, t.it, v, t.r));
    assert Skew(Lower(t)) == t1;
    assert AA(l.l) && AA(l.r);
    if Level(l.r) == v {
      var y := l.r;
      var left, right := Bin(l.l, l.it, v, y.l), Bin(y.r, t.it, v, t.r);
      var t2 := Bin(l.l, l.it, v, Bin(y.l, y.it, v, right));
      assert OnRight(t1, Skew(t1.r)) == t2;
      assert Skew(Right(t2.r)) == t2.r.r;
      assert Split(t2) == Bin(left, y.it, v + 1, right);
      assert AA(y.l) && AA(y.r);
      assert AA(left) && AA(right);
      assert Split(right) == right;
    } else {
      assert AA(t1.r);
      assert Skew(t1.r) == t1.r;
      assert Skew(t.r) == t.r;
      assert Split(t1) == t1 && Split(t1.r) == t1.r;
    }
  }

  /** The left child sank and the right one was below the root: at most one split. */
  lemma RebalanceLeftLow<N>(t: Tree<N>)
    requires Sunk(t) && Level(t.l) < t.lv - 1 && Level(t.r) == t.lv - 1
    ensures AA(Rebalance(t)) && Rebalance(t).Bin?
    ensures t.lv - 1 <= Level(Rebalance(t)) <= t.lv
    ensures Level(Right(Rebalance(t))) < t.lv
  {
    var v, r := t.lv - 1, t.r;
    var t0 := Bin(t.l, t.it, v, r);
    assert AA(r.l) && AA(r.r);
    assert Lower(t) == t0 && Skew(t0) == t0;
    assert Skew(r) == r && Skew(r.r) == r.r;
    assert OnRight(t0, OnRight(r, r.r)) == t0;
    if Level(r.r) == v {
      var left := Bin(t.l, t.it, v, r.l);
      assert Split(t0) == Bin(left, r.it, v + 1, r.r);
      assert Split(r.r) == r.r;
      assert AA(left);
    } else {
      assert Split(t0) == t0;
      assert Split(r) == r;
    }
  }

  /** The last two steps of the high case: the chain behind `low` is unrolled once more, then the
      second and, if there is one, the fourth node of the chain are raised. */
  function Raised<N>(left: Tree<N>, it: Item<N>, lv: int, low: Tree<N>): Tree<N> {
    Bin(left, it, lv, Split(Skew(low)))
  }

  /** With the right child level with the root, rebalancing unrolls its left spine into a chain
      and raises the chain's second node. */
  lemma RebalanceLeftChain<N>(t: Tree<N>)
    requires Sunk(t) && Level(t.l) < t.lv - 1 && Level(t.r) == t.lv
    ensures var v, r, x := t.lv - 1, t.r, t.r.l;
            x.Bin? && Rebalance(t)
                      == Raised(Bin(t.l, t.it, v, x.l), x.it, t.lv, Bin(x.r, r.it, v, r.r))
  {
    var v, r, x := t.lv - 1, t.r, t.r.l;
    var t0 := Bin(t.l, t.it, v, Bin(r.l, r.it, v, r.r));
    assert Lower(t) == t0 && Skew(t0) == t0;
    assert AA(x) && x.Bin? && x.lv == v;
    var low := Bin(x.r, r.it, v, r.r);
    var t2 := Bin(t.l, t.it, v, Bin(x.l, x.it, v, low));
    assert OnRight(t0, Skew(t0.r)) == t2;
    var chain := Skew(low);
    assert chain.Bin? && chain.lv == v;
    assert Split(OnRight(t2, OnRight(t2.r, chain))) == Bin(Bin(t.l, t.it, v, x.l), x.it, t.lv, chain);
  }

  /** The rest of the chain, unrolled and split, is a legal right child. */
  lemma ChainEnd<N>(low: Tree<N>, v: int)
    requires low.Bin? && low.lv == v && v >= 1 && AA(low.l) && AA(low.r)
    requires v - 1 <= Level(low.l) <= v && Level(low.r) == v
    requires Level(Right(low.l)) < v
    ensures AA(Split(Skew(low))) && v <= Level(Split(Skew(low))) <= v + 1
    ensures Level(Right(Split(Skew(low)))) < v + 1
  {
    var y, z := low.l, low.r;
    if Level(y) == v {
      var tail := Bin(y.l, y.it, v, Bin(y.r, low.it, v, z));
      assert Skew(low) == tail;
      assert AA(y.l) && AA(y.r);
      var mid := Bin(y.l, y.it, v, y.r);
      assert Split(tail) == Bin(mid, low.it, v + 1, z);
      assert AA(mid);
    } else {
      assert Skew(low) == low;
      if Level(Right(z)) == v {
        var mid := Bin(y, low.it, v, z.l);
        assert AA(z.l) && AA(z.r);
        assert Split(low) == Bin(mid, z.it, v + 1, z.r);
        assert AA(mid);
      } else {
        assert Split(low) == low;
      }
    }
  }

  /** The left child sank and the right one was level with the root: it comes down, its left spine
      is unrolled by two rotations, and two splits raise every other node of the chain. */
  lemma RebalanceLeftHigh<N>(t: Tree<N>)
    requires Sunk(t) && Level(t.l) < t.lv - 1 && Level(t.r) == t.lv
    ensures AA(Rebalance(t)) && Rebalance(t).Bin?
    ensures Level(Rebalance(t)) == t.lv
  {
    hide Rebalance, Skew, Split;
    RebalanceLeftChain(t);
    var v, r, x := t.lv - 1, t.r, t.r.l;
    assert AA(x) && AA(x.l) && AA(x.r);
    ChainEnd(Bin(x.r, r.it, v, r.r), v);
    assert AA(Bin(t.l, t.it, v, x.l));
  }

  /** Rebalancing restores the level rules; the level drops by at most one, and a right link on the
      root's old level appears only if there was one. */
  lemma RebalanceAA<N>(t: Tree<N>)
    requires Sunk(t)
    ensures AA(Rebalance(t)) && Rebalance(t).Bin?
    ensures t.lv - 1 <= Level(Rebalance(t)) <= t.lv
    ensures Level(Right(Rebalance(t))) == t.lv ==> Level(t.r) == t.lv
  {
    if Level(t.r) < t.lv - 1 {
      RebalanceRight(t);
    } else if Level(t.l) < t.lv - 1 {
      if Level(t.r) == t.lv {
        RebalanceLeftHigh(t);
      } else {
        RebalanceLeftLow(t);
      }
    }
  }

  /** The tree without its least node, and that node. */
  function RemoveMin<N>(t: Tree<N>): (Tree<N>, Item<N>)
    requires t.Bin?
  {
    if t.l.Leaf? then (t.r, t.it)
    else (Rebalance(Bin(RemoveMin(t.l).0, t.it, t.lv, t.r)), RemoveMin(t.l).1)
  }

  /** The same tree with item `y` where item `x` was. */
  function Replace<N(==)>(t: Tree<N>, x: Item<N>, y: Item<N>): Tree<N> {
    if t.Leaf? then Leaf
    else Bin(Replace(t.l, x, y), if t.it == x then y else t.it, t.lv, Replace(t.r, x, y))
  }

  /** The node with key `v` goes away. When it has a right subtree, its successor is unlinked first,
      the path back up is rebalanced, and only then does the successor take the place the node
      has ended up in. */
  function Remove<N(==)>(t: Tree<N>, v: nat): Tree<N> {
    if t.Leaf? then Leaf
    else if v < t.it.key then Rebalance(Bin(Remove(t.l, v), t.it, t.lv, t.r))
    else if v > t.it.key then Rebalance(Bin(t.l, t.it, t.lv, Remove(t.r, v)))
    else if t.r.Leaf? then t.r
    else Replace(Rebalance(Bin(t.l, t.it, t.lv, RemoveMin(t.r).0)), t.it, RemoveMin(t.r).1)
  }

  predicate Shrunk<N>(t: Tree<N>, t': Tree<N>) {
    && AA(t')
    && Level(t) - 1 <= Level(t') <= Level(t)
    && (Level(Right(t')) == Level(t) ==> t'.Leaf? || Level(Right(t)) == Level(t))
  }

  lemma {:induction false} RemoveMinAA<N>(t: Tree<N>)
    requires AA(t) && t.Bin?
    ensures Shrunk(t, RemoveMin(t).0)
  {
    if t.l.Bin? {
      RemoveMinAA(t.l);
      RebalanceAA(Bin(RemoveMin(t.l).0, t.it, t.lv, t.r));
    }
  }

  lemma {:induction false} RemoveMinElems<N>(t: Tree<N>)
    requires t.Bin?
    ensures Elems(t) == [RemoveMin(t).1] + Elems(RemoveMin(t).0)
  {
    if t.l.Bin? {
      RemoveMinElems(t.l);
      RebalanceElems(Bin(RemoveMin(t.l).0, t.it, t.lv, t.r));
    }
  }

  lemma {:induction false} ReplaceAA<N>(t: Tree<N>, x: Item<N>, y: Item<N>)
    ensures Level(Replace(t, x, y)) == Level(t)
    ensures AA(t) ==> AA(Replace(t, x, y))
  {
    if t.Bin? {
      ReplaceAA(t.l, x, y);
      ReplaceAA(t.r, x, y);
      ReplaceAA(Right(t.r), x, y);
    }
  }

  function ReplaceSeq<N(==)>(s: seq<Item<N>>, x: Item<N>, y: Item<N>): seq<Item<N>> {
    seq(|s|, i requires 0 <= i < |s| => if s[i] == x then y else s[i])
  }

  lemma {:induction false} ReplaceElems<N>(t: Tree<N>, x: Item<N>, y: Item<N>)
    ensures Elems(Replace(t, x, y)) == ReplaceSeq(Elems(t), x, y)
  {
    if t.Bin? {
      ReplaceElems(t.l, x, y);
      ReplaceElems(t.r, x, y);
    }
  }

  /** Removal keeps the level rules. */
  lemma {:induction false} RemoveAA<N>(t: Tree<N>, v: nat)
    requires AA(t)
    ensures Shrunk(t, Remove(t, v))
  {
    if t.Bin? {
      if v < t.it.key {
        RemoveAA(t.l, v);
        RebalanceAA(Bin(Remove(t.l, v), t.it, t.lv, t.r));
      } else if v > t.it.key {
        RemoveAA(t.r, v);
        RebalanceAA(Bin(t.l, t.it, t.lv, Remove(t.r, v)));
      } else if t.r.Bin? {
        RemoveMinAA(t.r);
        var t1 := Rebalance(Bin(t.l, t.it, t.lv, RemoveMin(t.r).0));
        RebalanceAA(Bin(t.l, t.it, t.lv, RemoveMin(t.r).0));
        ReplaceAA(t1, t.it, RemoveMin(t.r).1);
        ReplaceAA(Right(t1), t.it, RemoveMin(t.r).1);
      }
    }
  }

  lemma ReplaceMiddle<N>(a: seq<Item<N>>, x: Item<N>, b: seq<Item<N>>, y: Item<N>)
    requires x !in a && x !in b
    ensures ReplaceSeq(a + [x] + b, x, y) == a + [y] + b
  {
  }

  lemma AAParts<N>(t: Tree<N>)
    requires AA(t) && t.Bin?
    ensures AA(t.l) && AA(t.r) && (t.r.Leaf? ==> t.l.Leaf?)
  {
  }

  /** What becomes of the root's own node. */
  lemma RemoveRootIs<N>(t: Tree<N>)
    requires t.Bin?
    ensures t.r.Leaf? ==> Remove(t, t.it.key) == t.r
    ensures t.r.Bin? ==>
              Remove(t, t.it.key)
              == Replace(Rebalance(Bin(t.l, t.it, t.lv, RemoveMin(t.r).0)), t.it, RemoveMin(t.r).1)
  {
    hide Rebalance, RemoveMin, Replace;
  }

  lemma ElemsIs<N>(t: Tree<N>)
    ensures t.Leaf? ==> Elems(t) == []
    ensures t.Bin? ==> Elems(t) == Elems(t.l) + [t.it] + Elems(t.r)
  {
  }

  /** A sorted tree's root item is in neither subtree. */
  lemma RootOnce<N>(t: Tree<N>)
    requires t.Bin? && Sorted(Elems(t))
    ensures t.it !in Elems(t.l) && t.it !in Elems(t.r)
  {
    SortedParts(t);
  }

  lemma RemoveRootElems<N>(t: Tree<N>)
    requires AA(t) && t.Bin? && Sorted(Elems(t))
    ensures Elems(Remove(t, t.it.key)) == Elems(t.l) + Elems(t.r)
  {
    hide Sorted, Rebalance, RemoveMin, ReplaceSeq, AA, Elems, Remove, Replace;
    RemoveRootIs(t);
    RootOnce(t);
    AAParts(t);
    ElemsIs(t.r);
    ElemsIs(t.l);
    if t.r.Bin? {
      var a, m := Elems(t.l), RemoveMin(t.r).1;
      var b := Elems(RemoveMin(t.r).0);
      RemoveMinElems(t.r);
      var t0 := Bin(t.l, t.it, t.lv, RemoveMin(t.r).0);
      ElemsIs(t0);
      RebalanceElems(t0);
      ReplaceElems(Rebalance(t0), t.it, m);
      assert t.it !in b by { assert forall x :: x in b ==> x in [m] + b; }
      ReplaceMiddle(a, t.it, b, m);
      assert a + [m] + b == a + ([m] + b);
    }
  }

  lemma RemoveLeftSeq<N>(t: Tree<N>, v: nat)
    requires t.Bin? && HasKey(Elems(t), v) && v < t.it.key
    requires forall i :: 0 <= i < |Elems(t.r)| ==> t.it.key < Elems(t.r)[i].key
    ensures HasKey(Elems(t.l), v)
    ensures RemoveSeq(Elems(t), v) == RemoveSeq(Elems(t.l), v) + [t.it] + Elems(t.r)
  {
    var a, b := Elems(t.l), [t.it] + Elems(t.r);
    assert Elems(t) == a + b;
    var i :| 0 <= i < |Elems(t)| && Elems(t)[i].key == v;
    assert i < |a| && a[i].key == v;
    RemoveSeqLeft(a, b, v);
    assert RemoveSeq(a, v) + b == RemoveSeq(a, v) + [t.it] + Elems(t.r);
  }

  lemma RemoveRightSeq<N>(t: Tree<N>, v: nat)
    requires t.Bin? && HasKey(Elems(t), v) && v > t.it.key
    requires forall i :: 0 <= i < |Elems(t.l)| ==> Elems(t.l)[i].key < t.it.key
    ensures HasKey(Elems(t.r), v)
    ensures RemoveSeq(Elems(t), v) == Elems(t.l) + [t.it] + RemoveSeq(Elems(t.r), v)
  {
    var a, b := Elems(t.l) + [t.it], Elems(t.r);
    var i :| 0 <= i < |Elems(t)| && Elems(t)[i].key == v;
    assert i >= |a| && b[i - |a|].key == v;
    RemoveSeqRight(a, b, v);
  }

  /** In key order, removal takes out exactly the node with that key. */
  lemma {:induction false} RemoveElems<N>(t: Tree<N>, v: nat)
    requires AA(t) && Sorted(Elems(t)) && HasKey(Elems(t), v)
    ensures Elems(Remove(t, v)) == RemoveSeq(Elems(t), v)
  {
    hide Sorted, Rebalance, HasKey, RemoveSeq;
    HasKeyBin(Elems(t), v);
    SortedParts(t);
    if v < t.it.key {
      RemoveLeftSeq(t, v);
      RemoveElems(t.l, v);
      RebalanceElems(Bin(Remove(t.l, v), t.it, t.lv, t.r));
    } else if v > t.it.key {
      RemoveRightSeq(t, v);
      RemoveElems(t.r, v);
      RebalanceElems(Bin(t.l, t.it, t.lv, Remove(t.r, v)));
    } else {
      var a, b := Elems(t.l), [t.it] + Elems(t.r);
      assert Elems(t) == a + b;
      RemoveSeqRight(a, b, v);
      RemoveHead(b, v);
      assert b[1..] == Elems(t.r);
      RemoveRootElems(t);
    }
  }

  lemma RemoveHead<N>(s: seq<Item<N>>, v: nat)
    requires s != [] && s[0].key == v
    ensures RemoveSeq(s, v) == s[1..]
  {
  }

  lemma HasKeyBin<N>(s: seq<Item<N>>, v: nat)
    requires HasKey(s, v)
    ensures s != []
  {
  }

  // ----- size and depth --------------------------------------------------------------------

  function Depth<N>(t: Tree<N>): nat {
    if t.Leaf? then 0 else 1 + if Depth(t.l) >= Depth(t.r) then Depth(t.l) else Depth(t.r)
  }

  function Pow2(n: nat): nat {
    if n == 0 then 1 else 2 * Pow2(n - 1)
  }

  /** A tree of level k holds at least 2^k - 1 nodes and is at most 2k deep, so its depth is
      logarithmic in its size. */
  lemma {:induction false} LevelBounds<N>(t: Tree<N>)
    requires AA(t)
    ensures Level(t) >= 0
    ensures |Elems(t)| >= Pow2(Level(t)) - 1
    ensures Depth(t) <= 2 * Level(t)
    ensures t.Bin? && Level(t.r) < t.lv ==> Depth(t) <= 2 * Level(t) - 1
  {
    if t.Bin? {
      LevelBounds(t.l);
      LevelBounds(t.r);
      assert Pow2(t.lv) == 2 * Pow2(t.lv - 1);
      assert |Elems(t.r)| >= Pow2(t.lv - 1) - 1 by {
        if Level(t.r) == t.lv {
          assert Pow2(t.lv) >= Pow2(t.lv - 1);
        }
      }
    }
  }

  // ----- search ----------------------------------------------------------------------------

  datatype Found<N> = Nothing | Hit(it: Item<N>)

  /** bbtree_search_: `accept` is 0 for an exact match, negative for the nearest key below,
      positive for the nearest key above. */
  function Search<N>(t: Tree<N>, v: nat, accept: int): Found<N> {
    if t.Leaf? then Nothing
    else if t.it.key == v then Hit(t.it)
    else if t.it.key > v then
      var best := Search(t.l, v, accept);
      if accept <= 0 || (best.Hit? && t.it.key > best.it.key) then best else Hit(t.it)
    else
      var best := Search(t.r, v, accept);
      if accept >= 0 || (best.Hit? && t.it.key < best.it.key) then best else Hit(t.it)
  }

  /** Is `x` an answer the search may give: the key itself, or the right side when allowed. */
  predicate Eligible<N>(x: Item<N>, v: nat, accept: int) {
    x.key == v || (accept < 0 && x.key < v) || (accept > 0 && x.key > v)
  }

  predicate Nearer(k: nat, k': nat, v: nat) {
    if k <= v then k' <= k || k' > v else k <= k' || k' < v
  }

  /** Search answers with the nearest eligible node, and with nothing only when none is eligible. */
  lemma {:induction false} SearchNearest<N>(t: Tree<N>, v: nat, accept: int)
    requires Sorted(Elems(t))
    ensures Search(t, v, accept).Nothing? ==> forall x :: x in Elems(t) ==> !Eligible(x, v, accept)
    ensures Search(t, v, accept).Hit? ==>
      var y := Search(t, v, accept).it;
      && y in Elems(t) && Eligible(y, v, accept)
      && forall x :: x in Elems(t) && Eligible(x, v, accept) ==> Nearer(y.key, x.key, v)
  {
    if t.Bin? {
      SortedParts(t);
      hide Sorted;
      assert forall x :: x in Elems(t) <==> x in Elems(t.l) || x == t.it || x in Elems(t.r);
      if t.it.key > v {
        SearchNearest(t.l, v, accept);
      } else if t.it.key < v {
        SearchNearest(t.r, v, accept);
      }
    }
  }

  // ----- where the removed node ends up before its successor replaces it --------------------------

  /** After rebalancing, the old root is the root or a child of the root. */
  lemma RebalanceRootSpot<N>(t: Tree<N>)
    requires Sunk(t)
    ensures var t' := Rebalance(t);
      t'.Bin? && (t'.it == t.it || (t'.l.Bin? && t'.l.it == t.it) || (t'.r.Bin? && t'.r.it == t.it))
  {
    if Level(t.r) < t.lv - 1 {
      var l := t.l;
      var t1 := Bin(l.l, l.it, t.lv - 1, Bin(l.r, t.it, t.lv - 1, t.r));
      assert Skew(Lower(t)) == t1;
      if Level(l.r) == t.lv - 1 {
        var y := l.r;
        var t2 := Bin(l.l, l.it, t.lv - 1, Bin(y.l, y.it, t.lv - 1, Bin(y.r, t.it, t.lv - 1, t.r)));
        assert OnRight(t1, Skew(t1.r)) == t2;
        assert Skew(Right(t2.r)) == t2.r.r;
      } else {
        assert Skew(t1.r) == t1.r;
        assert Skew(t.r) == t.r;
      }
    } else if Level(t.l) < t.lv - 1 {
      assert Skew(Lower(t)) == Lower(t);
    }
  }

  /** Every key on the left spine is above `v`: the descent for `v` only turns left. */
  predicate Under<N>(t: Tree<N>, v: nat) {
    t.Bin? ==> v < t.it.key && Under(t.l, v)
  }

  lemma {:induction false} SortedUnder<N>(t: Tree<N>, v: nat)
    requires forall i :: 0 <= i < |Elems(t)| ==> v < Elems(t)[i].key
    ensures Under(t, v)
  {
    if t.Bin? {
      assert Elems(t)[|Elems(t.l)|] == t.it;
      assert forall i :: 0 <= i < |Elems(t.l)| ==> Elems(t.l)[i] == Elems(t)[i];
      SortedUnder(t.l, v);
    }
  }

  /** For an absent key: no key is below it, or the greatest one below it has no right subtree. */
  predicate Safe<N>(t: Tree<N>, v: nat) {
    t.Bin? ==>
      if v < t.it.key then Safe(t.l, v)
      else if Under(t.r, v) then t.r.Leaf?
      else Safe(t.r, v)
  }

  // ----- sorted lists under insertion and removal ---------------------------------------------

  lemma {:induction false} InsertSeqSorted<N>(s: seq<Item<N>>, x: Item<N>)
    requires Sorted(s)
    ensures Sorted(InsertSeq(s, x))
    ensures forall y :: y in InsertSeq(s, x) ==> y in s || y == x
    ensures |InsertSeq(s, x)| == |s| + if HasKey(s, x.key) then 0 else 1
    ensures HasKey(s, x.key) ==> InsertSeq(s, x) == s
    decreases |s|
  {
    if s == [] || x.key < s[0].key {
    } else if x.key == s[0].key {
    } else {
      InsertSeqSorted(s[1..], x);
      HasKeyTail(s, x.key);
      var r := InsertSeq(s[1..], x);
      assert s == [s[0]] + s[1..];
      forall i | 0 <= i < |r| ensures s[0].key < r[i].key {
        assert r[i] in r;
      }
    }
  }

  lemma HasKeyTail<N>(s: seq<Item<N>>, v: nat)
    requires s != [] && s[0].key != v
    ensures HasKey(s, v) == HasKey(s[1..], v)
  {
    if HasKey(s, v) {
      var i :| 0 <= i < |s| && s[i].key == v;
      assert s[1..][i - 1].key == v;
    }
    if HasKey(s[1..], v) {
      var i :| 0 <= i < |s[1..]| && s[1..][i].key == v;
      assert s[i + 1].key == v;
    }
  }

  lemma {:induction false} RemoveSeqSorted<N>(s: seq<Item<N>>, v: nat)
    requires Sorted(s)
    ensures Sorted(RemoveSeq(s, v))
    ensures forall y :: y in RemoveSeq(s, v) ==> y in s && y.key != v
    ensures |RemoveSeq(s, v)| == |s| - if HasKey(s, v) then 1 else 0
    decreases |s|
  {
    if s != [] && s[0].key != v {
      RemoveSeqSorted(s[1..], v);
      HasKeyTail(s, v);
      var r := RemoveSeq(s[1..], v);
      forall i | 0 <= i < |r| ensures s[0].key < r[i].key {
        assert r[i] in r;
      }
    }
  }

  // ----- subtrees and their place in key order ---------------------------------------------------

  /** `s` is the subtree of `t` whose least node is number `lo` in key order. */
  predicate Sub<N(==)>(t: Tree<N>, s: Tree<N>, lo: int) {
    || (s == t && lo == 0)
    || (t.Bin? && (Sub(t.l, s, lo) || Sub(t.r, s, lo - |Elems(t.l)| - 1)))
  }

  lemma {:induction false} SubElems<N>(t: Tree<N>, s: Tree<N>, lo: int)
    requires Sub(t, s, lo)
    ensures 0 <= lo && lo + |Elems(s)| <= |Elems(t)|
    ensures Elems(t)[lo..lo + |Elems(s)|] == Elems(s)
  {
    if !(s == t && lo == 0) {
      if Sub(t.l, s, lo) {
        SubElems(t.l, s, lo);
        SliceLeft(Elems(t.l), [t.it] + Elems(t.r), lo, lo + |Elems(s)|);
        assert Elems(t) == Elems(t.l) + ([t.it] + Elems(t.r));
      } else {
        var d := |Elems(t.l)| + 1;
        SubElems(t.r, s, lo - d);
        SliceRight(Elems(t.l) + [t.it], Elems(t.r), lo - d, lo - d + |Elems(s)|);
      }
    }
  }

  lemma SliceLeft<N>(a: seq<N>, b: seq<N>, i: nat, j: nat)
    requires i <= j <= |a|
    ensures (a + b)[i..j] == a[i..j]
  {
  }

  lemma SliceRight<N>(a: seq<N>, b: seq<N>, i: nat, j: nat)
    requires i <= j <= |b|
    ensures (a + b)[|a| + i..|a| + j] == b[i..j]
  {
  }

  /** The subtree rooted at the node that is number `i` in key order. */
  lemma {:induction false} Locate<N>(t: Tree<N>, i: nat) returns (s: Tree<N>, lo: int)
    requires i < |Elems(t)|
    ensures Sub(t, s, lo) && s.Bin? && lo + |Elems(s.l)| == i && s.it == Elems(t)[i]
  {
    if i < |Elems(t.l)| {
      s, lo := Locate(t.l, i);
    } else if i == |Elems(t.l)| {
      s, lo := t, 0;
    } else {
      s, lo := Locate(t.r, i - |Elems(t.l)| - 1);
      lo := lo + |Elems(t.l)| + 1;
    }
  }

  /** The subtree directly above a proper subtree, which hangs on one of its sides. */
  lemma {:induction false} SubParent<N>(t: Tree<N>, s: Tree<N>, lo: int) returns (p: Tree<N>, plo: int)
    requires Sub(t, s, lo) && !(s == t && lo == 0)
    ensures Sub(t, p, plo) && p.Bin?
    ensures (p.l == s && plo == lo) || (p.r == s && lo == plo + |Elems(p.l)| + 1)
  {
    if Sub(t.l, s, lo) {
      if s == t.l && lo == 0 {
        p, plo := t, 0;
      } else {
        p, plo := SubParent(t.l, s, lo);
      }
    } else {
      var d := |Elems(t.l)| + 1;
      if s == t.r && lo == d {
        p, plo := t, 0;
      } else {
        p, plo := SubParent(t.r, s, lo - d);
        plo := plo + d;
      }
    }
  }

  // ----- removing an absent key ----------------------------------------------------------------

  /** The right subtree of the node with key `k`. */
  function RightOf<N>(t: Tree<N>, k: nat): Tree<N> {
    if t.Leaf? then Leaf
    else if k < t.it.key then RightOf(t.l, k)
    else if k > t.it.key then RightOf(t.r, k)
    else t.r
  }

  lemma {:induction false} UnderSearch<N>(t: Tree<N>, v: nat)
    requires Sorted(Elems(t)) && !HasKey(Elems(t), v)
    ensures Under(t, v) <==> Search(t, v, -1).Nothing?
  {
    if t.Bin? {
      SortedParts(t);
      HasKeyParts(t, v);
      hide Sorted, HasKey;
      if v < t.it.key {
        UnderSearch(t.l, v);
      }
    }
  }

  lemma HasKeyJoin<N>(a: seq<Item<N>>, m: Item<N>, b: seq<Item<N>>, v: nat)
    ensures HasKey(a + [m] + b, v) <==> HasKey(a, v) || m.key == v || HasKey(b, v)
  {
    var s := a + [m] + b;
    assert s[|a|] == m;
    assert forall i :: 0 <= i < |a| ==> s[i] == a[i];
    assert forall i :: 0 <= i < |b| ==> s[|a| + 1 + i] == b[i];
  }

  lemma HasKeyParts<N>(t: Tree<N>, v: nat)
    requires t.Bin?
    ensures HasKey(Elems(t), v) <==> HasKey(Elems(t.l), v) || t.it.key == v || HasKey(Elems(t.r), v)
  {
    hide HasKey;
    HasKeyJoin(Elems(t.l), t.it, Elems(t.r), v);
  }

  /** An absent key may be removed safely exactly when a search for the nearest key below finds
      nothing, or finds a node without a right subtree. */
  lemma {:induction false} SafeIff<N>(t: Tree<N>, v: nat)
    requires Sorted(Elems(t)) && !HasKey(Elems(t), v)
    ensures Safe(t, v) <==>
      (Search(t, v, -1).Nothing? || RightOf(t, Search(t, v, -1).it.key).Leaf?)
  {
    if t.Bin? {
      SortedParts(t);
      HasKeyParts(t, v);
      if v < t.it.key {
        SafeIff(t.l, v);
        SearchNearest(t.l, v, -1);
      } else {
        UnderSearch(t.r, v);
        SafeIff(t.r, v);
        SearchNearest(t.r, v, -1);
      }
    }
  }

  /** Such a key need not be safe: two nodes and a key between them. */
  lemma AbsentUnsafe()
    ensures exists t: Tree<nat>, v: nat :: AA(t) && Sorted(Elems(t)) && !HasKey(Elems(t), v) && !Safe(t, v)
  {
    var three := Bin(Leaf, Item(30 as nat, 3), 1, Leaf);
    var t := Bin(Leaf, Item(10 as nat, 1), 1, three);
    assert Elems(three) == [Item(30, 3)];
    assert Elems(t) == [Item(10, 1), Item(30, 3)];
    assert AA(three) && AA(t);
    assert Under(three, 2) && !Safe(t, 2);
    assert !HasKey(Elems(t), 2);
  }
}
