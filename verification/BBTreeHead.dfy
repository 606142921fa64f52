/** The tree head: insertion, removal, search and in-order traversal of an intrusive tree. */
module BBTreeHead {
  import opened AATree
  import opened BBTree

  // ----- traversal -----------------------------------------------------------------------------

  lemma {:induction false} SubLaid(nil: Node, x: Node, t: Shape, s: Shape, lo: int)
    requires Laid(nil, x, t) && Sub(t, s, lo) && s.Bin?
    ensures Laid(nil, s.it.node, s) && s.it.node in Nodes(t) && Nodes(s) <= Nodes(t)
    decreases t
  {
    LaidSide(nil, x, t);
    if !(s == t && lo == 0) {
      Sides(nil, x, t);
      Apart(t);
      if Sub(t.l, s, lo) {
        SubLaid(nil, x.left, t.l, s, lo);
      } else {
        SubLaid(nil, x.right, t.r, s, lo - |Elems(t.l)| - 1);
      }
    }
  }

  /** bbtree_left_: the least node of a non-empty subtree, null for an empty one. */
  method LeftMost(nil: Node, node: Node, ghost t: Shape) returns (y: Node?)
    requires Laid(nil, node, t)
    ensures if t.Leaf? then y == null else y == Elems(t)[0].node
  {
    if node == nil {
      return null;
    }
    hide Nodes, Below, Distinct, Linked;
    var cur := node;
    ghost var s := t;
    while cur.left != nil
      invariant Laid(nil, cur, s) && s.Bin? && Elems(s)[0] == Elems(t)[0]
      decreases s
    {
      Sides(nil, cur, s);
      cur := cur.left;
      s := s.l;
    }
    Sides(nil, cur, s);
    y := cur;
  }

  /** bbtree_right_. */
  method RightMost(nil: Node, node: Node, ghost t: Shape) returns (y: Node?)
    requires Laid(nil, node, t)
    ensures if t.Leaf? then y == null else y == Elems(t)[|Elems(t)| - 1].node
  {
    if node == nil {
      return null;
    }
    hide Nodes, Below, Distinct, Linked;
    var cur := node;
    ghost var s := t;
    while cur.right != nil
      invariant Laid(nil, cur, s) && s.Bin? && Elems(s)[|Elems(s)| - 1] == Elems(t)[|Elems(t)| - 1]
      decreases s
    {
      Sides(nil, cur, s);
      cur := cur.right;
      s := s.r;
    }
    Sides(nil, cur, s);
    y := cur;
  }

  /** A laid-out whole tree: nothing above its root. */
  ghost predicate Whole(nil: Node, root: Node, t: Shape)
    reads nil, root, Nodes(t)
  {
    Laid(nil, root, t) && (t.Bin? ==> root.parent == nil)
  }

  /** `p` is the subtree directly above `s`, and the pointers of its root tell which side `s` is on. */
  ghost predicate Upward(nil: Node, t: Shape, s: Shape, lo: int, p: Shape, plo: int)
    reads Nodes(s), Nodes(p)
  {
    s.Bin? && p.Bin? &&
    if s == t && lo == 0 then s.it.node.parent == nil
    else
      && Sub(t, p, plo) && s.it.node.parent == p.it.node && p.it.node != nil
      && (if p.it.node.right == s.it.node then p.r == s && lo == plo + |Elems(p.l)| + 1
          else p.l == s && plo == lo && p.it.node.left == s.it.node)
  }

  lemma Climb(nil: Node, root: Node, t: Shape, s: Shape, lo: int) returns (p: Shape, plo: int)
    requires Whole(nil, root, t) && Sub(t, s, lo) && s.Bin?
    ensures Upward(nil, t, s, lo, p, plo)
    ensures !(s == t && lo == 0) ==> (p.it.node.left == s.it.node) != (p.it.node.right == s.it.node)
  {
    hide Elems;
    LaidSide(nil, root, t);
    if s == t && lo == 0 {
      p, plo := t, 0;
    } else {
      p, plo := SubParent(t, s, lo);
      SubLaid(nil, root, t, p, plo);
      Sides(nil, p.it.node, p);
      SideRoot(nil, p.it.node.left, p.l);
      SideRoot(nil, p.it.node.right, p.r);
      Apart(p);
    }
  }

  /** The upward half of bbtree_next_: `s` is a subtree that ends with node number `i`. */
  method NextAbove(nil: Node, x: Node, ghost root: Node, ghost t: Shape, ghost s0: Shape, ghost lo0: int, ghost i: nat)
    returns (y: Node?)
    requires Whole(nil, root, t) && Sub(t, s0, lo0) && s0.Bin? && x == s0.it.node && lo0 + |Elems(s0)| == i + 1
    requires i < |Elems(t)|
    ensures if i + 1 < |Elems(t)| then y == Elems(t)[i + 1].node else y == null
  {
    hide Laid, Sub, Elems;
    var cur := x;
    ghost var s, lo := s0, lo0;
    ghost var p, plo := Climb(nil, root, t, s, lo);
    while cur.parent != nil
      invariant Whole(nil, root, t) && Upward(nil, t, s, lo, p, plo)
      invariant Sub(t, s, lo) && cur == s.it.node && lo + |Elems(s)| == i + 1
      decreases |Elems(t)| - |Elems(s)|
    {
      SubElems(t, p, plo);
      ElemsAt(p);
      if cur.parent.right != cur {
        assert Elems(t)[plo..plo + |Elems(p)|][|Elems(s)|] == p.it;
        return cur.parent;
      }
      cur := cur.parent;
      s, lo := p, plo;
      p, plo := Climb(nil, root, t, s, lo);
    }
    return null;
  }

  lemma ElemsAt(t: Shape)
    requires t.Bin?
    ensures |Elems(t)| == |Elems(t.l)| + 1 + |Elems(t.r)| && Elems(t)[|Elems(t.l)|] == t.it
    ensures t.r.Bin? ==> Elems(t.r) != [] && Elems(t)[|Elems(t.l)| + 1] == Elems(t.r)[0]
    ensures t.l.Bin? ==> Elems(t.l) != [] && Elems(t)[|Elems(t.l)| - 1] == Elems(t.l)[|Elems(t.l)| - 1]
    ensures t.r.Leaf? ==> Elems(t.r) == []
    ensures t.l.Leaf? ==> Elems(t.l) == []
  {
  }

  /** bbtree_next_: the node that follows in key order, null after the last one. */
  method Next(nil: Node, x: Node, ghost root: Node, ghost t: Shape, ghost i: nat) returns (y: Node?)
    requires Whole(nil, root, t) && i < |Elems(t)| && x == Elems(t)[i].node
    ensures if i + 1 < |Elems(t)| then y == Elems(t)[i + 1].node else y == null
  {
    hide Sub, Elems, Nodes, Below, Distinct, Placed, Linked;
    ghost var s, lo := Locate(t, i);
    SubElems(t, s, lo);
    SubLaid(nil, root, t, s, lo);
    LaidSide(nil, x, s);
    Sides(nil, x, s);
    SideRoot(nil, x.right, s.r);
    ElemsAt(s);
    if x.right != nil {
      y := LeftMost(nil, x.right, s.r);
      assert Elems(t)[lo..lo + |Elems(s)|][i + 1 - lo] == Elems(s.r)[0];
    } else {
      y := NextAbove(nil, x, root, t, s, lo, i);
    }
  }

  method PreviousAbove(nil: Node, x: Node, ghost root: Node, ghost t: Shape, ghost s0: Shape, ghost i: nat)
    returns (y: Node?)
    requires Whole(nil, root, t) && Sub(t, s0, i) && s0.Bin? && x == s0.it.node && i < |Elems(t)|
    ensures if i > 0 then y == Elems(t)[i - 1].node else y == null
  {
    hide Laid, Sub, Elems;
    var cur := x;
    ghost var s, lo: int := s0, i;
    ghost var p, plo := Climb(nil, root, t, s, lo);
    while cur.parent != nil
      invariant Whole(nil, root, t) && Upward(nil, t, s, lo, p, plo)
      invariant !(s == t && lo == 0) ==> (p.it.node.left == s.it.node) != (p.it.node.right == s.it.node)
      invariant Sub(t, s, lo) && cur == s.it.node && lo == i
      decreases |Elems(t)| - |Elems(s)|
    {
      SubElems(t, p, plo);
      ElemsAt(p);
      if cur.parent.left != cur {
        assert Elems(t)[plo..plo + |Elems(p)|][|Elems(p.l)|] == p.it;
        return cur.parent;
      }
      cur := cur.parent;
      s, lo := p, plo;
      p, plo := Climb(nil, root, t, s, lo);
    }
    return null;
  }

  /** bbtree_previous_: the node that comes before in key order, null before the first one. */
  method Previous(nil: Node, x: Node, ghost root: Node, ghost t: Shape, ghost i: nat) returns (y: Node?)
    requires Whole(nil, root, t) && i < |Elems(t)| && x == Elems(t)[i].node
    ensures if i > 0 then y == Elems(t)[i - 1].node else y == null
  {
    hide Sub, Elems, Nodes, Below, Distinct, Placed, Linked;
    ghost var s, lo := Locate(t, i);
    SubElems(t, s, lo);
    SubLaid(nil, root, t, s, lo);
    LaidSide(nil, x, s);
    Sides(nil, x, s);
    SideRoot(nil, x.left, s.l);
    ElemsAt(s);
    if x.left != nil {
      y := RightMost(nil, x.left, s.l);
      assert Elems(t)[lo..lo + |Elems(s)|][i - 1 - lo] == Elems(s.l)[|Elems(s.l)| - 1];
    } else {
      y := PreviousAbove(nil, x, root, t, s, i);
    }
  }

  // ----- search ----------------------------------------------------------------------------------

  /** bbtree_search_. */
  method SearchAt(nil: Node, root: Node, value: nat, accept: int, ghost t: Shape) returns (y: Node?)
    requires Laid(nil, root, t)
    ensures if Search(t, value, accept).Nothing? then y == null
            else y == Search(t, value, accept).it.node && y.value == Search(t, value, accept).it.key
    decreases t
  {
    hide Nodes, Below, Distinct, Linked;
    if root == nil {
      return null;
    }
    Sides(nil, root, t);
    if root.value == value {
      return root;
    }
    if root.value > value {
      var best := SearchAt(nil, root.left, value, accept, t.l);
      if accept <= 0 || (best != null && root.value > best.value) {
        return best;
      }
      return root;
    } else {
      var best := SearchAt(nil, root.right, value, accept, t.r);
      if accept >= 0 || (best != null && root.value < best.value) {
        return best;
      }
      return root;
    }
  }

  // ----- the head ----------------------------------------------------------------------------------

  lemma {:induction false} MissesIff(t: Shape, v: nat)
    requires Sorted(Elems(t))
    ensures Misses(t, v) <==> !HasKey(Elems(t), v)
  {
    hide Sorted;
    if t.Bin? {
      SortedParts(t);
      MissesIff(t.l, v);
      MissesIff(t.r, v);
      HasKeyParts(t, v);
    }
  }

  lemma NilNowhere(nil: Node, root: Node, t: Shape)
    requires Laid(nil, root, t)
    ensures nil !in Nodes(t)
  {
  }

  class Tree {
    const nil: Node
    var root: Node
    var count: int
    ghost var shape: Shape

    ghost predicate Valid()
      reads this, nil, root, Nodes(shape)
    {
      && Whole(nil, root, shape) && AA(shape) && Sorted(Elems(shape))
      && count == |Elems(shape)|
    }

    /** bbtree_init. */
    constructor ()
      ensures Valid() && Elems(shape) == [] && fresh(nil)
    {
      var n := new Node.Sentinel();
      nil := n;
      root := n;
      count := 0;
      shape := Leaf;
    }

    /** bbtree_insert: 0 and one more node, or -1 and the same tree when the key is taken. */
    method Insert(node: Node) returns (r: int)
      requires Valid() && node !in Nodes(shape) && node != nil
      modifies `root, `count, `shape, nil`parent, node`left, node`right, node`parent, node`level
      modifies Nodes(shape)`left, Nodes(shape)`right, Nodes(shape)`parent, Nodes(shape)`level
      ensures Valid()
      ensures Elems(shape) == InsertSeq(old(Elems(shape)), Item(node, node.value))
      ensures r == if HasKey(old(Elems(shape)), node.value) then -1 else 0
      ensures count == old(count) + (if r == 0 then 1 else 0)
      ensures r == -1 ==> shape == old(shape) && unchanged(node)
    {
      hide Sorted, HasKey, AA, InsertSeq, AATree.Insert, Nodes, Below, Distinct, Placed, Linked, Elems;
      ghost var it := Item(node, node.value);
      MissesIff(shape, node.value);
      InsertElems(shape, it);
      InsertAA(shape, it);
      InsertSeqSorted(Elems(shape), it);
      if HasKey(Elems(shape), node.value) {
        InsertDuplicate(shape, it);
      }
      LaidSide(nil, root, shape);
      var x, ok := InsertAt(nil, root, node, shape);
      LaidSide(nil, x, AATree.Insert(shape, it));
      root := x;
      shape := AATree.Insert(shape, it);
      if ok {
        count := count + 1;
        return 0;
      }
      return -1;
    }

    /** bbtree_remove. A present key goes, with exactly its node. For an absent key the answer is -1
        and the tree stays valid exactly when the key below it, if any, has no right subtree; if it has
        one, the pointers lead round in a circle, so that they follow no shape (see TangledNowhere). */
    method Remove(value: nat) returns (r: int)
      requires Valid()
      modifies `root, `count, `shape, nil`parent
      modifies Nodes(shape)`left, Nodes(shape)`right, Nodes(shape)`parent, Nodes(shape)`level
      ensures HasKey(old(Elems(shape)), value) ==>
        Valid() && r == 0 && Elems(shape) == RemoveSeq(old(Elems(shape)), value) && count == old(count) - 1
      ensures !HasKey(old(Elems(shape)), value) ==>
        && r == -1 && shape == old(shape) && count == old(count) && (Valid() <==> Safe(shape, value))
        && (!Safe(shape, value) ==> nil !in Nodes(shape) && Tangled(root, Nodes(shape)))
    {
      hide Sorted, HasKey, AA, RemoveSeq, AATree.Remove, Nodes, Below, Distinct, Placed, Linked, Elems, RemoveMin,
        Safe, Misses, Under, Tangled;
      ghost var t := shape;
      NilNowhere(nil, root, t);
      MissesIff(t, value);
      RemoveAA(t, value);
      RemoveSeqSorted(Elems(t), value);
      if HasKey(Elems(t), value) {
        HasKeyBin(Elems(t), value);
        LeafElems(t);
        RemoveElems(t, value);
      }
      LaidSide(nil, root, t);
      var x, last, del, ok := RemoveAt(nil, root, value, nil, nil, t);
      if Intact(t, value, false) {
        LaidSide(nil, x, Result(t, value, false));
      }
      root := x;
      if ok {
        count := count - 1;
        shape := AATree.Remove(t, value);
        return 0;
      }
      return -1;
    }

    /** bbtree_each: first, then next until it runs out, visits every node once in key order. */
    method Each() returns (nodes: seq<Node>)
      requires Valid()
      ensures |nodes| == count == |Elems(shape)|
      ensures forall i :: 0 <= i < |nodes| ==> nodes[i] == Elems(shape)[i].node
    {
      hide Laid, AA, Sorted, Elems;
      nodes := [];
      LeafElems(shape);
      assert allocated(Nodes(shape));
      var cur := LeftMost(nil, root, shape);
      while cur != null
        invariant Valid() && |nodes| <= |Elems(shape)|
        invariant forall i :: 0 <= i < |nodes| ==> nodes[i] == Elems(shape)[i].node
        invariant if |nodes| < |Elems(shape)| then cur == Elems(shape)[|nodes|].node else cur == null
        decreases |Elems(shape)| - |nodes|
      {
        assert allocated(Nodes(shape));
        var next := Next(nil, cur, root, shape, |nodes|);
        nodes := nodes + [cur];
        cur := next;
      }
    }

    /** bbtree_search_eq, bbtree_search_le and bbtree_search_ge. */
    method SearchNode(value: nat, accept: int) returns (y: Node?)
      requires Valid()
      ensures y == null ==> forall x :: x in Elems(shape) ==> !Eligible(x, value, accept)
      ensures y != null ==>
        exists it :: it in Elems(shape) && it.node == y && it.key == y.value && Eligible(it, value, accept)
      ensures y != null ==>
        forall x :: x in Elems(shape) && Eligible(x, value, accept) ==> Nearer(y.value, x.key, value)
    {
      hide Laid, AA, Sorted, Elems, Search;
      SearchNearest(shape, value, accept);
      y := SearchAt(nil, root, value, accept, shape);
    }
  }

  lemma LeafElems(t: Shape)
    ensures t.Leaf? <==> Elems(t) == []
  {
  }
}
