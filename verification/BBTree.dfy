/** The intrusive balanced tree in memory: nodes with parent links, rewritten in place.

    A tree in memory is described by a shape (module AATree). `Placed` says the child pointers,
    keys and levels follow the shape; `Linked` says every parent pointer below the root does. */
module BBTree {
  import opened AATree

  class Node {
    var parent: Node
    var left: Node
    var right: Node
    const value: nat
    var level: int

    /** The sentinel every empty link points to. */
    constructor Sentinel()
      ensures IsNil(this)
    {
      parent, left, right := this, this, this;
      value, level := 0, 0;
    }

    constructor (v: nat, nil: Node)
      ensures value == v
    {
      parent, left, right := nil, nil, nil;
      value, level := v, 0;
    }
  }

  type Shape = Tree<Node>

  ghost function Nodes(t: Shape): set<Node> {
    if t.Leaf? then {} else Nodes(t.l) + {t.it.node} + Nodes(t.r)
  }

  ghost function Below(t: Shape): set<Node> {
    if t.Leaf? then {} else Nodes(t.l) + Nodes(t.r)
  }

  ghost predicate Distinct(t: Shape) {
    t.Bin? ==>
      && Distinct(t.l) && Distinct(t.r)
      && t.it.node !in Nodes(t.l) && t.it.node !in Nodes(t.r) && Nodes(t.l) !! Nodes(t.r)
  }

  ghost predicate IsNil(nil: Node)
    reads nil`left, nil`right, nil`level
  {
    nil.left == nil && nil.right == nil && nil.level == 0
  }

  ghost predicate Placed(nil: Node, x: Node, t: Shape)
    reads Nodes(t)`left, Nodes(t)`right, Nodes(t)`level
    decreases t
  {
    if t.Leaf? then x == nil
    else
      && x == t.it.node && x != nil && x.value == t.it.key && x.level == t.lv >= 1
      && Placed(nil, x.left, t.l) && Placed(nil, x.right, t.r)
  }

  ghost predicate Linked(t: Shape)
    reads Below(t)`parent
    decreases t
  {
    t.Bin? ==>
      && (t.l.Bin? ==> t.l.it.node.parent == t.it.node) && Linked(t.l)
      && (t.r.Bin? ==> t.r.it.node.parent == t.it.node) && Linked(t.r)
  }

  ghost predicate Laid(nil: Node, x: Node, t: Shape)
    reads nil, Nodes(t)
  {
    IsNil(nil) && nil !in Nodes(t) && Distinct(t) && Placed(nil, x, t) && Linked(t)
  }

  lemma SkewNodes(t: Shape)
    ensures Nodes(Skew(t)) == Nodes(t)
    ensures Distinct(t) ==> Distinct(Skew(t))
  {
    if Skew(t) != t {
      var l, low := t.l, Bin(t.l.r, t.it, t.lv, t.r);
      assert Skew(t) == Bin(l.l, l.it, l.lv, low);
      assert Nodes(low) == Nodes(l.r) + {t.it.node} + Nodes(t.r);
      assert Nodes(l) == Nodes(l.l) + {l.it.node} + Nodes(l.r);
      if Distinct(t) {
        assert Distinct(l);
        assert Distinct(low);
      }
    }
  }

  lemma SplitNodes(t: Shape)
    ensures Nodes(Split(t)) == Nodes(t)
    ensures Distinct(t) ==> Distinct(Split(t))
  {
    if Split(t) != t {
      var r, low := t.r, Bin(t.l, t.it, t.lv, t.r.l);
      assert Split(t) == Bin(low, r.it, r.lv + 1, r.r);
      assert Nodes(low) == Nodes(t.l) + {t.it.node} + Nodes(r.l);
      assert Nodes(r) == Nodes(r.l) + {r.it.node} + Nodes(r.r);
      if Distinct(t) {
        assert Distinct(r);
        assert Distinct(low);
      }
    }
  }

  /** What distinctness says at the root. */
  lemma Apart(t: Shape)
    requires Distinct(t)
    ensures Below(t) <= Nodes(t)
    ensures t.Bin? ==>
      && Distinct(t.l) && Distinct(t.r)
      && t.it.node !in Nodes(t.l) && t.it.node !in Nodes(t.r) && Nodes(t.l) !! Nodes(t.r)
      && t.it.node !in Below(t)
      && Nodes(t) == Nodes(t.l) + {t.it.node} + Nodes(t.r)
  {
  }

  /** The three subtrees and two nodes a skew moves do not overlap. */
  lemma SkewApart(t: Shape)
    requires Distinct(t) && t.Bin? && t.l.Bin?
    ensures var l, low := t.l, Bin(t.l.r, t.it, t.lv, t.r);
      && t.it.node != l.it.node
      && t.it.node !in Nodes(l.l) && t.it.node !in Nodes(l.r) && t.it.node !in Nodes(t.r)
      && l.it.node !in Nodes(l.l) && l.it.node !in Nodes(l.r) && l.it.node !in Nodes(t.r)
      && Nodes(l.l) !! Nodes(t.r) && Nodes(l.l) !! Nodes(l.r) && Nodes(l.r) !! Nodes(t.r)
      && t.it.node in Nodes(t) && l.it.node in Nodes(t) && Nodes(l.r) <= Nodes(t)
      && Distinct(low) && Nodes(low) <= Nodes(t)
      && Below(l.l) <= Nodes(l.l) && Below(l.r) <= Nodes(l.r) && Below(t.r) <= Nodes(t.r)
      && (l.r.Bin? ==> l.r.it.node !in Below(l.r))
  {
    Apart(t);
    Apart(t.l);
    Apart(t.l.r);
  }

  lemma SplitApart(t: Shape)
    requires Distinct(t) && t.Bin? && t.r.Bin?
    ensures var r, low := t.r, Bin(t.l, t.it, t.lv, t.r.l);
      && t.it.node != r.it.node
      && t.it.node !in Nodes(t.l) && t.it.node !in Nodes(r.l) && t.it.node !in Nodes(r.r)
      && r.it.node !in Nodes(t.l) && r.it.node !in Nodes(r.l) && r.it.node !in Nodes(r.r)
      && Nodes(t.l) !! Nodes(r.l) && Nodes(t.l) !! Nodes(r.r) && Nodes(r.l) !! Nodes(r.r)
      && t.it.node in Nodes(t) && r.it.node in Nodes(t) && Nodes(r.l) <= Nodes(t)
      && Distinct(low) && Nodes(low) <= Nodes(t)
      && Below(t.l) <= Nodes(t.l) && Below(r.l) <= Nodes(r.l) && Below(r.r) <= Nodes(r.r)
      && (r.l.Bin? ==> r.l.it.node !in Below(r.l))
  {
    Apart(t);
    Apart(t.r);
    Apart(t.r.l);
  }

  /** bbtree_skew. */
  method SkewAt(nil: Node, node: Node, ghost t: Shape) returns (x: Node)
    requires Laid(nil, node, t)
    modifies Nodes(t)`left, Nodes(t)`right, Nodes(t)`parent, nil`parent
    ensures Laid(nil, x, Skew(t))
    ensures t.Bin? ==> x.parent == old(node.parent)
  {
    hide Nodes, Below, Distinct, Placed, Linked, SideLaid;
    SkewNodes(t);
    LaidSide(nil, node, t);
    if t.Bin? {
      Sides(nil, node, t);
      LaidSide(nil, node.left, t.l);
    }
    if node == nil || node.left.level != node.level {
      return node;
    }
    ghost var l, low := t.l, Bin(t.l.r, t.it, t.lv, t.r);
    Sides(nil, node.left, l);
    SideRoot(nil, node.left.left, l.l);
    SideRoot(nil, node.left.right, l.r);
    SideRoot(nil, node.right, t.r);
    SkewApart(t);
    var parent := node.parent;
    x := node.left;
    node.left := x.right;
    node.left.parent := node;
    x.right := node;
    node.parent := x;
    x.parent := parent;
    Join(nil, node, low);
    LaidSide(nil, node, low);
    Join(nil, x, Skew(t));
  }

  /** bbtree_split. */
  method SplitAt(nil: Node, node: Node, ghost t: Shape) returns (x: Node)
    requires Laid(nil, node, t)
    modifies Nodes(t)`left, Nodes(t)`right, Nodes(t)`parent, Nodes(t)`level, nil`parent
    ensures Laid(nil, x, Split(t))
    ensures t.Bin? ==> x.parent == old(node.parent)
  {
    hide Nodes, Below, Distinct, Placed, Linked, SideLaid;
    SplitNodes(t);
    LaidSide(nil, node, t);
    if t.Bin? {
      Sides(nil, node, t);
      LaidSide(nil, node.right, t.r);
      if t.r.Bin? {
        Sides(nil, node.right, t.r);
        LaidSide(nil, node.right.right, t.r.r);
      }
    }
    if node == nil || node.right.right.level != node.level {
      return node;
    }
    ghost var r, low := t.r, Bin(t.l, t.it, t.lv, t.r.l);
    SideRoot(nil, node.left, t.l);
    SideRoot(nil, node.right.left, r.l);
    SplitApart(t);
    var parent := node.parent;
    x := node.right;
    node.right := x.left;
    node.right.parent := node;
    x.left := node;
    node.parent := x;
    x.level := x.level + 1;
    x.parent := parent;
    Join(nil, node, low);
    LaidSide(nil, node, low);
    Join(nil, x, Split(t));
  }

  /** A root with one new subtree under it, laid out and linked to it. */
  lemma JoinRight(nil: Node, x: Node, t: Shape, r: Shape)
    requires t.Bin? && x == t.it.node && Nodes(r) == Nodes(t.r)
    requires IsNil(nil) && nil !in Nodes(t) && Distinct(t)
    requires x.value == t.it.key && x.level == t.lv >= 1
    requires Placed(nil, x.left, t.l) && Linked(t.l) && (t.l.Bin? ==> t.l.it.node.parent == x)
    requires Laid(nil, x.right, r) && (r.Bin? ==> r.it.node.parent == x)
    ensures Laid(nil, x, OnRight(t, r))
    ensures Nodes(OnRight(t, r)) == Nodes(t)
  {
    assert Nodes(OnRight(t, r)) == Nodes(t.l) + {x} + Nodes(r);
  }

  /** The right child is skewed and relinked. */
  method SkewRight(nil: Node, x: Node, ghost t: Shape)
    requires Laid(nil, x, t) && t.Bin?
    modifies Nodes(t)`left, Nodes(t)`right, Nodes(t)`parent, nil`parent
    ensures x.parent == old(x.parent)
    ensures Laid(nil, x, OnRight(t, Skew(t.r)))
    ensures Nodes(OnRight(t, Skew(t.r))) == Nodes(t)
  {
    hide Below, Distinct;
    Apart(t);
    SkewNodes(t.r);
    assert Placed(nil, x.right, t.r) && Placed(nil, x.left, t.l) && Linked(t.l);
    Apart(t.l);
    assert allocated(Nodes(t.l));
    var c := SkewAt(nil, x.right, t.r);
    x.right := c;
    assert Placed(nil, x.left, t.l) && Linked(t.l);
    Apart(Skew(t.r));
    assert Laid(nil, c, Skew(t.r));
    JoinRight(nil, x, t, Skew(t.r));
  }

  /** The right child is split and relinked. */
  method SplitRight(nil: Node, x: Node, ghost t: Shape)
    requires Laid(nil, x, t) && t.Bin?
    modifies Nodes(t)`left, Nodes(t)`right, Nodes(t)`parent, Nodes(t)`level, nil`parent
    ensures x.parent == old(x.parent)
    ensures Laid(nil, x, OnRight(t, Split(t.r)))
    ensures Nodes(OnRight(t, Split(t.r))) == Nodes(t)
  {
    hide Below, Distinct;
    Apart(t);
    SplitNodes(t.r);
    assert Placed(nil, x.right, t.r) && Placed(nil, x.left, t.l) && Linked(t.l);
    Apart(t.l);
    assert allocated(Nodes(t.l));
    var c := SplitAt(nil, x.right, t.r);
    x.right := c;
    assert Placed(nil, x.left, t.l) && Linked(t.l);
    Apart(Split(t.r));
    assert Laid(nil, c, Split(t.r));
    JoinRight(nil, x, t, Split(t.r));
  }

  /** The right child of the right child is skewed and relinked. */
  method SkewRightRight(nil: Node, x: Node, ghost t: Shape)
    requires Laid(nil, x, t) && t.Bin? && t.r.Bin?
    modifies Nodes(t)`left, Nodes(t)`right, Nodes(t)`parent, nil`parent
    ensures x.parent == old(x.parent)
    ensures Laid(nil, x, OnRight(t, OnRight(t.r, Skew(t.r.r))))
    ensures Nodes(OnRight(t, OnRight(t.r, Skew(t.r.r)))) == Nodes(t)
  {
    hide Below, Distinct;
    Apart(t);
    Apart(t.l);
    Apart(t.r);
    assert Placed(nil, x.right, t.r) && Placed(nil, x.left, t.l) && Linked(t.l);
    assert allocated(Nodes(t.l));
    SkewRight(nil, x.right, t.r);
    assert Placed(nil, x.left, t.l) && Linked(t.l);
    JoinRight(nil, x, t, OnRight(t.r, Skew(t.r.r)));
  }

  lemma LowerNodes(t: Shape)
    requires t.Bin?
    ensures Nodes(Lower(t)) == Nodes(t)
    ensures Distinct(t) ==> Distinct(Lower(t))
  {
    var r := Lower(t).r;
    assert Nodes(r) == Nodes(t.r) && (Distinct(t.r) ==> Distinct(r)) by {
      if t.r.Bin? {
        assert r.l == t.r.l && r.r == t.r.r && r.it == t.r.it;
      }
    }
    assert Nodes(Lower(t)) == Nodes(t.l) + {t.it.node} + Nodes(r);
  }

  lemma SunkHigh(t: Shape)
    requires Sunk(t) && (Level(t.l) < t.lv - 1 || Level(t.r) < t.lv - 1)
    ensures t.lv >= 2
  {
  }

  /** The level drop that starts bbtree_rebalance. */
  method LowerAt(nil: Node, root: Node, ghost t: Shape)
    requires Laid(nil, root, t) && t.Bin? && t.lv >= 2
    modifies Nodes(t)`level
    ensures Laid(nil, root, Lower(t))
  {
    LowerNodes(t);
    hide Nodes, Below, Distinct;
    Apart(t);
    Apart(t.r);
    assert Placed(nil, root.left, t.l) && Placed(nil, root.right, t.r) && Linked(t.l) && Linked(t.r);
    assert t.r.Bin? ==> Placed(nil, root.right.left, t.r.l) && Placed(nil, root.right.right, t.r.r);
    root.level := root.level - 1;
    if root.right.level > root.level {
      root.right.level := root.level;
    }
    assert Placed(nil, root.left, t.l);
    assert t.r.Bin? ==> Placed(nil, root.right.left, t.r.l) && Placed(nil, root.right.right, t.r.r);
    assert Placed(nil, root.right, Lower(t).r);
    assert Linked(t.r);
    assert Linked(Lower(t).r);
  }

  /** The level drop and the five rotations of bbtree_rebalance. */
  method RotateAll(nil: Node, root: Node, ghost t: Shape) returns (x: Node)
    requires Laid(nil, root, t) && Sunk(t) && (Level(t.l) < t.lv - 1 || Level(t.r) < t.lv - 1)
    modifies Nodes(t)`left, Nodes(t)`right, Nodes(t)`parent, Nodes(t)`level, nil`parent
    ensures Laid(nil, x, Rebalance(t)) && Nodes(Rebalance(t)) == Nodes(t)
    ensures x.parent == old(root.parent)
  {
    hide Nodes, Below, Distinct;
    SunkHigh(t);
    LowerNodes(t);
    LowerAt(nil, root, t);
    ghost var t0 := Lower(t);
    SkewNodes(t0);
    x := SkewAt(nil, root, t0);
    ghost var t1 := Skew(t0);
    SkewRight(nil, x, t1);
    ghost var t2 := OnRight(t1, Skew(t1.r));
    Apart(t2);
    SkewRightRight(nil, x, t2);
    ghost var t3 := OnRight(t2, OnRight(t2.r, Skew(t2.r.r)));
    SplitNodes(t3);
    x := SplitAt(nil, x, t3);
    ghost var t4 := Split(t3);
    SplitRight(nil, x, t4);
  }

  /** A child of `root` is more than one level down: what bbtree_rebalance tests. */
  ghost predicate Sinks(root: Node)
    reads root, root.left, root.right
  {
    root.left.level < root.level - 1 || root.right.level < root.level - 1
  }

  ghost function Touched(root: Node, t: Shape): set<Node>
    reads root, root.left, root.right
  {
    if Sinks(root) then Nodes(t) else {}
  }

  /** bbtree_rebalance. It writes nothing unless a child has sunk. */
  method RebalanceAt(nil: Node, root: Node, ghost t: Shape) returns (x: Node)
    requires Sinks(root) ==> Laid(nil, root, t) && Sunk(t)
    modifies Touched(root, t)`left, Touched(root, t)`right, Touched(root, t)`parent, Touched(root, t)`level, nil`parent
    ensures !old(Sinks(root)) ==> x == root
    ensures old(Laid(nil, root, t)) && Sunk(t) ==>
      Laid(nil, x, Rebalance(t)) && Nodes(Rebalance(t)) == Nodes(t) && x.parent == old(root.parent)
  {
    hide Nodes, Below, Distinct;
    x := root;
    if root.left.level < root.level - 1 || root.right.level < root.level - 1 {
      assert Placed(nil, root.left, t.l) && Placed(nil, root.right, t.r);
      x := RotateAll(nil, root, t);
    } else {
      assert Laid(nil, root, t) && Sunk(t) ==> Placed(nil, root.left, t.l) && Placed(nil, root.right, t.r);
    }
  }

  // ----- insertion ---------------------------------------------------------------------------

  /** The descent for `key` ends on an empty link. */
  predicate Misses(t: Shape, key: nat) {
    t.Bin? ==> if key < t.it.key then Misses(t.l, key) else key > t.it.key && Misses(t.r, key)
  }

  lemma {:induction false} InsertNodes(t: Shape, x: Item<Node>)
    requires Distinct(t) && x.node !in Nodes(t)
    ensures Distinct(Insert(t, x))
    ensures Nodes(Insert(t, x)) == if Misses(t, x.key) then Nodes(t) + {x.node} else Nodes(t)
  {
    hide Skew, Split;
    if t.Bin? && x.key < t.it.key {
      InsertNodes(t.l, x);
      var t1 := Bin(Insert(t.l, x), t.it, t.lv, t.r);
      assert Distinct(t1);
      SkewNodes(t1);
      SplitNodes(Skew(t1));
    } else if t.Bin? && x.key > t.it.key {
      InsertNodes(t.r, x);
      var t1 := Bin(t.l, t.it, t.lv, Insert(t.r, x));
      assert Distinct(t1);
      SkewNodes(t1);
      SplitNodes(Skew(t1));
    }
  }

  /** A root whose subtree on one side is still to be attached. */
  ghost predicate Ready(nil: Node, x: Node, t: Shape)
    reads nil`left, nil`right, nil`level, x`level
  {
    && IsNil(nil) && x != nil && nil !in Nodes(t) && Distinct(t)
    && t.Bin? && x == t.it.node && x.value == t.it.key && x.level == t.lv >= 1
  }

  ghost predicate SideLaid(nil: Node, c: Node, t: Shape)
    reads Nodes(t)`left, Nodes(t)`right, Nodes(t)`level, Below(t)`parent
  {
    Placed(nil, c, t) && Linked(t)
  }

  /** Everything but the left (right) subtree is in place, and that subtree is laid out at `c`. */
  ghost predicate LeftReady(nil: Node, x: Node, c: Node, t: Shape)
    reads nil, x, Nodes(t)
  {
    && Ready(nil, x, t) && SideLaid(nil, c, t.l)
    && SideLaid(nil, x.right, t.r) && (t.r.Bin? ==> t.r.it.node.parent == x)
  }

  ghost predicate RightReady(nil: Node, x: Node, c: Node, t: Shape)
    reads nil, x, Nodes(t)
  {
    && Ready(nil, x, t) && SideLaid(nil, c, t.r)
    && SideLaid(nil, x.left, t.l) && (t.l.Bin? ==> t.l.it.node.parent == x)
  }

  /** `c` becomes the left child, parent link included. */
  method AttachLeft(nil: Node, x: Node, c: Node, ghost t: Shape)
    modifies x`left, c`parent
    ensures x.left == c
    ensures old(LeftReady(nil, x, c, t)) ==> Laid(nil, x, t)
    ensures c != x ==> x.parent == old(x.parent)
  {
    hide Nodes, Below, Distinct, Placed, Linked, SideLaid;
    ghost var ready := LeftReady(nil, x, c, t);
    if ready {
      Apart(t);
      Apart(t.l);
      Apart(t.r);
      SideRoot(nil, c, t.l);
    }
    x.left := c;
    c.parent := x;
    if ready {
      Join(nil, x, t);
    }
  }

  /** `c` becomes the right child, parent link included. */
  method AttachRight(nil: Node, x: Node, c: Node, ghost t: Shape)
    modifies x`right, c`parent
    ensures x.right == c
    ensures old(RightReady(nil, x, c, t)) ==> Laid(nil, x, t)
    ensures c != x ==> x.parent == old(x.parent)
  {
    hide Nodes, Below, Distinct, Placed, Linked, SideLaid;
    ghost var ready := RightReady(nil, x, c, t);
    if ready {
      Apart(t);
      Apart(t.l);
      Apart(t.r);
      SideRoot(nil, c, t.r);
    }
    x.right := c;
    c.parent := x;
    if ready {
      Join(nil, x, t);
    }
  }

  lemma InsertShapes(t: Shape, x: Item<Node>)
    requires Distinct(t) && x.node !in Nodes(t) && t.Bin?
    ensures x.key < t.it.key ==>
      var t1 := Bin(Insert(t.l, x), t.it, t.lv, t.r);
      && Distinct(t1) && t1.it.node !in Nodes(t1.l)
      && Nodes(t1) == (if Misses(t.l, x.key) then Nodes(t) + {x.node} else Nodes(t))
      && Nodes(Skew(t1)) == Nodes(t1)
    ensures x.key > t.it.key ==>
      var t1 := Bin(t.l, t.it, t.lv, Insert(t.r, x));
      && Distinct(t1) && t1.it.node !in Nodes(t1.r)
      && Nodes(t1) == (if Misses(t.r, x.key) then Nodes(t) + {x.node} else Nodes(t))
      && Nodes(Skew(t1)) == Nodes(t1)
  {
    hide Skew, Insert;
    if x.key < t.it.key {
      InsertNodes(t.l, x);
      SkewNodes(Bin(Insert(t.l, x), t.it, t.lv, t.r));
    } else if x.key > t.it.key {
      InsertNodes(t.r, x);
      SkewNodes(Bin(t.l, t.it, t.lv, Insert(t.r, x)));
    }
  }

  lemma LoneNode(nil: Node, node: Node)
    requires IsNil(nil) && node != nil && node.left == nil && node.right == nil && node.level == 1
    ensures Laid(nil, node, Bin(Leaf, Item(node, node.value), 1, Leaf))
  {
    var t: Shape := Bin(Leaf, Item(node, node.value), 1, Leaf);
    assert Nodes(t) == {node};
  }

  /** What holds of the other side, and of the shape to come, before inserting on one side. */
  lemma InsertPlan(nil: Node, root: Node, node: Node, t: Shape)
    requires Laid(nil, root, t) && node !in Nodes(t) && node != nil && t.Bin?
    ensures root == t.it.node && root in Nodes(t) && root !in Nodes(t.l) && root !in Nodes(t.r) && nil !in Nodes(t)
    ensures node !in Nodes(t.l) && node !in Nodes(t.r) && node != root
    ensures Laid(nil, root.left, t.l) && Laid(nil, root.right, t.r)
    ensures SideLaid(nil, root.left, t.l) && (t.l.Bin? ==> t.l.it.node.parent == root && t.l.it.node in Nodes(t.l))
    ensures SideLaid(nil, root.right, t.r) && (t.r.Bin? ==> t.r.it.node.parent == root && t.r.it.node in Nodes(t.r))
    ensures Nodes(t.l) <= Nodes(t) && Nodes(t.r) <= Nodes(t) && Nodes(t.l) !! Nodes(t.r)
    ensures Below(t.l) <= Nodes(t.l) && Below(t.r) <= Nodes(t.r)
    ensures var it := Item(node, node.value);
      && (node.value < t.it.key ==> Ready(nil, root, Bin(Insert(t.l, it), t.it, t.lv, t.r)))
      && (node.value > t.it.key ==> Ready(nil, root, Bin(t.l, t.it, t.lv, Insert(t.r, it))))
      && Nodes(Insert(t.l, it)) <= Nodes(t.l) + {node} && Nodes(Insert(t.r, it)) <= Nodes(t.r) + {node}
  {
    hide Insert, Misses;
    InsertShapes(t, Item(node, node.value));
    InsertNodes(t.l, Item(node, node.value));
    InsertNodes(t.r, Item(node, node.value));
    LaidSide(nil, root, t);
    Apart(t);
    Apart(t.l);
    Apart(t.r);
    Sides(nil, root, t);
    SideRoot(nil, root.left, t.l);
    SideRoot(nil, root.right, t.r);
  }

  /** The descent of bbtree_insert_ into the left subtree, and the link back to its result. */
  method InsertLeft(nil: Node, root: Node, node: Node, ghost t: Shape) returns (ok: bool)
    requires Laid(nil, root, t) && node !in Nodes(t) && node != nil && t.Bin? && node.value < t.it.key
    modifies Nodes(t)`left, Nodes(t)`right, Nodes(t)`parent, Nodes(t)`level, nil`parent
    modifies node`left, node`right, node`parent, node`level
    ensures Laid(nil, root, Bin(Insert(t.l, Item(node, node.value)), t.it, t.lv, t.r))
    ensures ok == Misses(t.l, node.value)
    ensures !ok ==> unchanged(node)
    ensures root.parent == old(root.parent)
    decreases t, 0
  {
    ghost var t1 := Bin(Insert(t.l, Item(node, node.value)), t.it, t.lv, t.r);
    hide Below, Distinct, Placed, Linked, SideLaid, Nodes, Insert, Misses, Laid;
    InsertPlan(nil, root, node, t);
    assert allocated(Nodes(t.r));
    var c;
    c, ok := InsertAt(nil, root.left, node, t.l);
    LaidSide(nil, c, t1.l);
    AttachLeft(nil, root, c, t1);
  }

  method InsertRight(nil: Node, root: Node, node: Node, ghost t: Shape) returns (ok: bool)
    requires Laid(nil, root, t) && node !in Nodes(t) && node != nil && t.Bin? && node.value > t.it.key
    modifies Nodes(t)`left, Nodes(t)`right, Nodes(t)`parent, Nodes(t)`level, nil`parent
    modifies node`left, node`right, node`parent, node`level
    ensures Laid(nil, root, Bin(t.l, t.it, t.lv, Insert(t.r, Item(node, node.value))))
    ensures ok == Misses(t.r, node.value)
    ensures !ok ==> unchanged(node)
    ensures root.parent == old(root.parent)
    decreases t, 0
  {
    ghost var t1 := Bin(t.l, t.it, t.lv, Insert(t.r, Item(node, node.value)));
    hide Below, Distinct, Placed, Linked, SideLaid, Nodes, Insert, Misses, Laid;
    InsertPlan(nil, root, node, t);
    assert allocated(Nodes(t.l));
    var c;
    c, ok := InsertAt(nil, root.right, node, t.r);
    LaidSide(nil, c, t1.r);
    AttachRight(nil, root, c, t1);
  }

  /** bbtree_insert_: returns the new root of the subtree and whether the node went in. */
  method InsertAt(nil: Node, root: Node, node: Node, ghost t: Shape) returns (x: Node, ok: bool)
    requires Laid(nil, root, t) && node !in Nodes(t) && node != nil
    modifies Nodes(t)`left, Nodes(t)`right, Nodes(t)`parent, Nodes(t)`level, nil`parent
    modifies node`left, node`right, node`parent, node`level
    ensures Laid(nil, x, Insert(t, Item(node, node.value)))
    ensures ok == Misses(t, node.value)
    ensures !ok ==> unchanged(node)
    ensures x.parent == if t.Leaf? then nil else old(root.parent)
    decreases t, 1
  {
    hide Below, Distinct, Placed, Linked, Nodes;
    LaidSide(nil, root, t);
    ghost var t1 := t;
    if root == nil {
      node.level := 1;
      node.left := nil;
      node.right := nil;
      node.parent := nil;
      LoneNode(nil, node);
      return node, true;
    }
    InsertShapes(t, Item(node, node.value));
    if node.value < root.value {
      ok := InsertLeft(nil, root, node, t);
      t1 := Bin(Insert(t.l, Item(node, node.value)), t.it, t.lv, t.r);
    } else if node.value > root.value {
      ok := InsertRight(nil, root, node, t);
      t1 := Bin(t.l, t.it, t.lv, Insert(t.r, Item(node, node.value)));
    } else {
      return root, false;
    }
    x := SkewAt(nil, root, t1);
    x := SplitAt(nil, x, Skew(t1));
  }

  // ----- removal -----------------------------------------------------------------------------

  lemma {:induction false} RemoveMinNodes(t: Shape)
    requires t.Bin? && AA(t) && Distinct(t)
    ensures Distinct(RemoveMin(t).0)
    ensures RemoveMin(t).1.node in Nodes(t)
    ensures Nodes(RemoveMin(t).0) == Nodes(t) - {RemoveMin(t).1.node}
  {
    if t.l.Bin? {
      RemoveMinNodes(t.l);
      var t1 := Bin(RemoveMin(t.l).0, t.it, t.lv, t.r);
      assert Nodes(t1) == Nodes(t) - {RemoveMin(t).1.node};
      RebalanceNodes(t1);
    }
  }

  lemma OnRightNodes(t: Shape, r: Shape)
    requires t.Bin? && Nodes(r) == Nodes(t.r)
    ensures Nodes(OnRight(t, r)) == Nodes(t)
    ensures Distinct(t) && Distinct(r) ==> Distinct(OnRight(t, r))
  {
  }

  lemma RebalanceNodes(t: Shape)
    requires t.Bin?
    ensures Nodes(Rebalance(t)) == Nodes(t)
    ensures Distinct(t) ==> Distinct(Rebalance(t))
  {
    if Level(t.l) < t.lv - 1 || Level(t.r) < t.lv - 1 {
      LowerNodes(t);
      var t0 := Lower(t);
      SkewNodes(t0);
      var t1 := Skew(t0);
      SkewNodes(t1.r);
      OnRightNodes(t1, Skew(t1.r));
      var t2 := OnRight(t1, Skew(t1.r));
      SkewNodes(Right(t2.r));
      if t2.r.Bin? {
        OnRightNodes(t2.r, Skew(t2.r.r));
      }
      OnRightNodes(t2, OnRight(t2.r, Skew(Right(t2.r))));
      var t3 := OnRight(t2, OnRight(t2.r, Skew(Right(t2.r))));
      SplitNodes(t3);
      var t4 := Split(t3);
      SplitNodes(t4.r);
      OnRightNodes(t4, Split(t4.r));
    }
  }

  lemma {:induction false} ReplaceAbsent(t: Shape, x: Item<Node>, y: Item<Node>)
    requires x.node !in Nodes(t)
    ensures Replace(t, x, y) == t
  {
    if t.Bin? {
      ReplaceAbsent(t.l, x, y);
      ReplaceAbsent(t.r, x, y);
    }
  }

  lemma Join(nil: Node, x: Node, t: Shape)
    requires Ready(nil, x, t)
    requires SideLaid(nil, x.left, t.l) && (t.l.Bin? ==> t.l.it.node.parent == x)
    requires SideLaid(nil, x.right, t.r) && (t.r.Bin? ==> t.r.it.node.parent == x)
    ensures Laid(nil, x, t)
  {
  }

  /** What a laid-out root says about its two sides. */
  lemma Sides(nil: Node, x: Node, t: Shape)
    requires Laid(nil, x, t) && t.Bin?
    ensures Ready(nil, x, t)
    ensures SideLaid(nil, x.left, t.l) && (t.l.Bin? ==> t.l.it.node.parent == x)
    ensures SideLaid(nil, x.right, t.r) && (t.r.Bin? ==> t.r.it.node.parent == x)
    ensures Laid(nil, x.left, t.l) && Laid(nil, x.right, t.r)
  {
  }

  lemma ReplaceRoot(t: Shape, y: Item<Node>)
    requires Distinct(t) && t.Bin? && y.node !in Nodes(t)
    ensures Replace(t, t.it, y) == Bin(t.l, y, t.lv, t.r)
    ensures Distinct(Bin(t.l, y, t.lv, t.r))
    ensures Nodes(Bin(t.l, y, t.lv, t.r)) == Nodes(t) - {t.it.node} + {y.node}
  {
    ReplaceAbsent(t.l, t.it, y);
    ReplaceAbsent(t.r, t.it, y);
  }

  lemma LaidSide(nil: Node, x: Node, t: Shape)
    requires Laid(nil, x, t)
    ensures SideLaid(nil, x, t) && Below(t) <= Nodes(t)
    ensures x == if t.Leaf? then nil else t.it.node
    ensures t.Bin? ==> x in Nodes(t) && x.value == t.it.key && x.level == t.lv
  {
    Apart(t);
  }

  lemma SideRoot(nil: Node, c: Node, t: Shape)
    requires SideLaid(nil, c, t)
    ensures c == if t.Leaf? then nil else t.it.node
    ensures t.Bin? ==> c in Nodes(t)
  {
  }

  /** Both subtrees of `t` are laid out and waiting for the root `x`. */
  ghost predicate SidesReady(nil: Node, x: Node, left: Node, right: Node, t: Shape)
    reads nil, x, Nodes(t)
  {
    Ready(nil, x, t) && SideLaid(nil, left, t.l) && SideLaid(nil, right, t.r)
  }

  /** The four writes that give `x` its children. */
  method Adopt(nil: Node, x: Node, left: Node, right: Node, ghost t: Shape)
    modifies x`left, x`right, left`parent, right`parent
    ensures x.right == right && (left != x && right != x ==> x.parent == old(x.parent))
    ensures old(SidesReady(nil, x, left, right, t)) ==> Laid(nil, x, t)
  {
    hide Nodes, Below, Distinct, Placed, Linked, SideLaid;
    if SidesReady(nil, x, left, right, t) {
      Apart(t);
      Apart(t.l);
      Apart(t.r);
      SideRoot(nil, left, t.l);
      SideRoot(nil, right, t.r);
    }
    x.left := left;
    x.right := right;
    x.left.parent := x;
    x.right.parent := x;
    if old(SidesReady(nil, x, left, right, t)) {
      Join(nil, x, t);
    }
  }

  lemma Standby(nil: Node, del: Node, last: Node, t: Shape)
    requires Laid(nil, del, t) && t.Bin? && last != nil && (last !in Nodes(t) || last == del)
    ensures var t' := Bin(t.l, Item(last, last.value), t.lv, t.r);
      && nil !in Nodes(t') && Distinct(t') && (last == del ==> t' == t)
      && last !in Nodes(t.l) && last !in Nodes(t.r) && Nodes(t') <= Nodes(t) + {last}
  {
    if last != del {
      ReplaceRoot(t, Item(last, last.value));
    }
  }

  /** del->last takes the place of del->deleted: its level, parent and children. */
  method TakeOver(nil: Node, del: Node, last: Node, ghost t: Shape)
    requires Laid(nil, del, t) && t.Bin? && last != nil
    modifies last`level, last`parent, last`left, last`right, del.left`parent, del.right`parent
    ensures last.level == t.lv && last.right == old(del.right)
    ensures last !in Nodes(t) || last == del ==>
      last.parent == old(del.parent) && Laid(nil, last, Bin(t.l, Item(last, last.value), t.lv, t.r))
  {
    hide Distinct, Nodes, Below, Placed, Linked, SideLaid;
    Sides(nil, del, t);
    SideRoot(nil, del.left, t.l);
    SideRoot(nil, del.right, t.r);
    if last !in Nodes(t) || last == del {
      Standby(nil, del, last, t);
      Apart(t.l);
      Apart(t.r);
    }
    var parent, left, right := del.parent, del.left, del.right;
    last.level := del.level;
    last.parent := parent;
    Adopt(nil, last, left, right, Bin(t.l, Item(last, last.value), t.lv, t.r));
  }

  // ----- pointers that lead round in a circle -------------------------------------------------

  /** Child pointers, left for true and right for false, lead from `x` through `ns` to `y`. */
  ghost predicate Leads(x: Node, path: seq<bool>, y: Node, ns: set<Node>)
    reads ns`left, ns`right
    decreases |path|
  {
    if path == [] then x == y else x in ns && Leads(if path[0] then x.left else x.right, path[1..], y, ns)
  }

  /** From `x` child pointers lead to a node that is below itself. */
  ghost predicate Tangled(x: Node, ns: set<Node>)
    reads ns`left, ns`right
  {
    exists y, path, round :: y in ns && round != [] && Leads(x, path, y, ns) && Leads(y, round, y, ns)
  }

  ghost function Size(t: Shape): nat { if t.Leaf? then 0 else Size(t.l) + 1 + Size(t.r) }

  lemma {:induction false} LeadsDown(nil: Node, x: Node, s: Shape, path: seq<bool>, y: Node, ns: set<Node>)
    returns (u: Shape)
    requires Placed(nil, x, s) && nil !in ns && Leads(x, path, y, ns)
    ensures Placed(nil, y, u) && Size(u) + |path| <= Size(s)
    decreases |path|
  {
    if path == [] {
      u := s;
    } else if path[0] {
      u := LeadsDown(nil, x.left, s.l, path[1..], y, ns);
    } else {
      u := LeadsDown(nil, x.right, s.r, path[1..], y, ns);
    }
  }

  lemma {:induction false} Circular(nil: Node, y: Node, round: seq<bool>, ns: set<Node>, s: Shape)
    requires nil !in ns && round != [] && Leads(y, round, y, ns)
    ensures !Placed(nil, y, s)
    decreases Size(s)
  {
    if Placed(nil, y, s) {
      var u := LeadsDown(nil, y, s, round, y, ns);
      Circular(nil, y, round, ns, u);
    }
  }

  /** No shape at all is laid out at a node from which pointers lead round in a circle. */
  lemma TangledNowhere(nil: Node, x: Node, ns: set<Node>, s: Shape)
    requires nil !in ns && Tangled(x, ns)
    ensures !Placed(nil, x, s)
  {
    var y, path, round :| y in ns && round != [] && Leads(x, path, y, ns) && Leads(y, round, y, ns);
    if Placed(nil, x, s) {
      var u := LeadsDown(nil, x, s, path, y, ns);
      Circular(nil, y, round, ns, u);
    }
  }

  lemma {:induction false} LeadsMore(x: Node, path: seq<bool>, y: Node, ns: set<Node>, ms: set<Node>)
    requires Leads(x, path, y, ns) && ns <= ms
    ensures Leads(x, path, y, ms)
    decreases |path|
  {
    if path != [] {
      LeadsMore(if path[0] then x.left else x.right, path[1..], y, ns, ms);
    }
  }

  /** What is tangled below a child is tangled below its parent. */
  lemma TangledUp(root: Node, c: Node, ns: set<Node>, ms: set<Node>)
    requires Tangled(c, ns) && ns <= ms && root in ms && (root.left == c || root.right == c)
    ensures Tangled(root, ms)
  {
    var y, path, round :| y in ns && round != [] && Leads(c, path, y, ns) && Leads(y, round, y, ns);
    LeadsMore(c, path, y, ns, ms);
    LeadsMore(y, round, y, ns, ms);
    var longer := [root.left == c] + path;
    assert longer[1..] == path;
    assert Leads(root, longer, y, ms);
  }

  /** The node at the end of the left links. */
  ghost function Bottom(t: Shape): Node
    requires t.Bin?
  {
    if t.l.Leaf? then t.it.node else Bottom(t.l)
  }

  lemma {:induction false} BottomIs(t: Shape)
    requires t.Bin?
    ensures Bottom(t) == RemoveMin(t).1.node && Bottom(t) in Nodes(t)
  {
    hide Rebalance;
    if t.l.Bin? { BottomIs(t.l); }
  }

  /** Left links lead from `c` along `t` to its bottom. */
  ghost predicate Spine(c: Node, t: Shape)
    requires t.Bin?
    reads Nodes(t)`left
    decreases t
  {
    c == t.it.node && (t.l.Bin? ==> c != Bottom(t) && Spine(c.left, t.l))
  }

  /** The same, with the left links as they were recorded. */
  ghost predicate SpineIn(links: map<Node, Node>, c: Node, t: Shape)
    requires t.Bin?
    decreases t
  {
    c == t.it.node && (t.l.Bin? ==> c in links && c != Bottom(t) && SpineIn(links, links[c], t.l))
  }

  lemma {:induction false} SpineOf(nil: Node, c: Node, t: Shape, links: map<Node, Node>)
    requires t.Bin? && Placed(nil, c, t) && Distinct(t)
    requires forall n :: n in Nodes(t) ==> n in links && links[n] == n.left
    ensures SpineIn(links, c, t)
    decreases t
  {
    if t.l.Bin? {
      BottomIs(t.l);
      SpineOf(nil, c.left, t.l, links);
    }
  }

  lemma {:induction false} SpineKept(c: Node, t: Shape, links: map<Node, Node>)
    requires t.Bin? && SpineIn(links, c, t)
    requires forall n :: n in Nodes(t) && n != Bottom(t) ==> n in links && links[n] == n.left
    ensures Spine(c, t)
    decreases t
  {
    if t.l.Bin? {
      SpineKept(c.left, t.l, links);
    }
  }

  lemma {:induction false} SpineLeads(c: Node, t: Shape, ns: set<Node>) returns (path: seq<bool>)
    requires t.Bin? && Spine(c, t) && Nodes(t) <= ns
    ensures Leads(c, path, Bottom(t), ns)
    decreases t
  {
    if t.l.Leaf? {
      path := [];
    } else {
      var rest := SpineLeads(c.left, t.l, ns);
      path := [true] + rest;
      assert path[1..] == rest;
    }
  }

  /** The bottom of a subtree that has become its parent is below itself. */
  lemma SpineTangles(last: Node, t: Shape, ns: set<Node>)
    requires t.Bin? && last == Bottom(t) && Spine(last.right, t) && Nodes(t) <= ns && last in ns
    ensures Tangled(last, ns)
  {
    var path := SpineLeads(last.right, t, ns);
    var round := [false] + path;
    assert round[1..] == path;
    assert Leads(last, round, last, ns) && Leads(last, [], last, ns);
  }

  // ----- the swap -------------------------------------------------------------------------------

  /** The node above a subtree, if any: its child pointer may be redirected. */
  ghost function Outer(nil: Node, root: Node): set<Node>
    reads root
  {
    if root.parent == nil then {} else {root.parent}
  }

  ghost predicate Hangs(nil: Node, root: Node, t: Shape)
    reads root, root.parent
  {
    root.parent != nil ==>
      root.parent !in Nodes(t) && (root.parent.left == root || root.parent.right == root)
  }

  /** The node is the root of the shape or of one of its two subtrees. */
  ghost predicate Near(t: Shape, n: Node) {
    t.Bin? && (t.it.node == n || (t.l.Bin? && t.l.it.node == n) || (t.r.Bin? && t.r.it.node == n))
  }

  lemma ReplaceLeft(t: Shape, y: Item<Node>)
    requires Distinct(t) && t.Bin? && t.l.Bin? && y.node !in Nodes(t)
    ensures Replace(t, t.l.it, y) == Bin(Bin(t.l.l, y, t.l.lv, t.l.r), t.it, t.lv, t.r)
    ensures Distinct(Replace(t, t.l.it, y)) && Nodes(Replace(t, t.l.it, y)) == Nodes(t) - {t.l.it.node} + {y.node}
  {
    ReplaceRoot(t.l, y);
    ReplaceAbsent(t.r, t.l.it, y);
  }

  lemma ReplaceRight(t: Shape, y: Item<Node>)
    requires Distinct(t) && t.Bin? && t.r.Bin? && y.node !in Nodes(t)
    ensures Replace(t, t.r.it, y) == Bin(t.l, t.it, t.lv, Bin(t.r.l, y, t.r.lv, t.r.r))
    ensures Distinct(Replace(t, t.r.it, y)) && Nodes(Replace(t, t.r.it, y)) == Nodes(t) - {t.r.it.node} + {y.node}
  {
    ReplaceRoot(t.r, y);
    ReplaceAbsent(t.l, t.r.it, y);
  }

  /** What the swap of a left child amounts to, before and after. */
  lemma SwapLeftShape(nil: Node, root: Node, last: Node, t: Shape)
    requires t.Bin? && t.l.Bin? && Laid(nil, root, t) && last != nil && last !in Nodes(t)
    ensures Laid(nil, t.l.it.node, t.l) && t.l.it.node.parent == root && root.left == t.l.it.node
    ensures SideLaid(nil, root.right, t.r) && (t.r.Bin? ==> t.r.it.node.parent == root)
    ensures t.l.it == Item(t.l.it.node, t.l.it.node.value)
    ensures var y := Item(last, last.value);
      var t' := Bin(Bin(t.l.l, y, t.l.lv, t.l.r), t.it, t.lv, t.r);
      t' == Replace(t, t.l.it, y) && Ready(nil, root, t') && root !in Nodes(t'.l)
  {
    ReplaceLeft(t, Item(last, last.value));
    Sides(nil, root, t);
  }

  lemma SwapRightShape(nil: Node, root: Node, last: Node, t: Shape)
    requires t.Bin? && t.r.Bin? && Laid(nil, root, t) && last != nil && last !in Nodes(t)
    ensures Laid(nil, t.r.it.node, t.r) && t.r.it.node.parent == root && root.right == t.r.it.node
    ensures root.left != t.r.it.node
    ensures SideLaid(nil, root.left, t.l) && (t.l.Bin? ==> t.l.it.node.parent == root)
    ensures t.r.it == Item(t.r.it.node, t.r.it.node.value)
    ensures var y := Item(last, last.value);
      var t' := Bin(t.l, t.it, t.lv, Bin(t.r.l, y, t.r.lv, t.r.r));
      t' == Replace(t, t.r.it, y) && Ready(nil, root, t') && root !in Nodes(t'.r)
  {
    ReplaceRight(t, Item(last, last.value));
    Sides(nil, root, t);
  }

  /** TakeOver and the redirection of the parent's pointer, for a node one level below `root`. */
  method SwapChild(nil: Node, root: Node, del: Node, last: Node, ghost t: Shape)
    requires t.Bin? && Laid(nil, root, t) && last != nil && last !in Nodes(t)
    requires Near(t, del) && del != root
    modifies last`level, last`parent, last`left, last`right
    modifies Nodes(t)`left, Nodes(t)`right, Nodes(t)`parent, nil`parent
    ensures root.parent == old(root.parent)
    ensures Laid(nil, root, Replace(t, Item(del, del.value), Item(last, last.value)))
  {
    hide Distinct, Nodes, Below, Placed, Linked, SideLaid, Replace;
    Apart(t);
    Apart(t.l);
    Apart(t.r);
    assert allocated(Nodes(t.l)) && allocated(Nodes(t.r));
    LaidSide(nil, root, t);
    ghost var onLeft := t.l.Bin? && t.l.it.node == del;
    ghost var side := if onLeft then t.l else t.r;
    if onLeft {
      SwapLeftShape(nil, root, last, t);
    } else {
      SwapRightShape(nil, root, last, t);
    }
    Sides(nil, del, side);
    SideRoot(nil, del.left, side.l);
    SideRoot(nil, del.right, side.r);
    Apart(side);
    var parent := del.parent;
    TakeOver(nil, del, last, side);
    LaidSide(nil, last, Bin(side.l, Item(last, last.value), side.lv, side.r));
    if parent.left == del {
      parent.left := last;
    } else {
      parent.right := last;
    }
    ghost var y := Item(last, last.value);
    if onLeft {
      Join(nil, root, Bin(Bin(t.l.l, y, t.l.lv, t.l.r), t.it, t.lv, t.r));
    } else {
      Join(nil, root, Bin(t.l, t.it, t.lv, Bin(t.r.l, y, t.r.lv, t.r.r)));
    }
  }

  /** The same for a node that is still the root of its subtree: the pointer redirected is outside. */
  method SwapRoot(nil: Node, del: Node, last: Node, ghost t: Shape)
    requires Laid(nil, del, t) && t.Bin? && last != nil && Hangs(nil, del, t) && last !in Outer(nil, del)
    modifies last`level, last`parent, last`left, last`right, Nodes(t)`parent, nil`parent
    modifies Outer(nil, del)`left, Outer(nil, del)`right
    ensures last.level == t.lv
    ensures last !in Nodes(t) || last == del ==>
      last.parent == old(del.parent) && Laid(nil, last, Bin(t.l, Item(last, last.value), t.lv, t.r))
    ensures t.r.Bin? && last == Bottom(t.r) ==> Tangled(last, Nodes(t))
    ensures OneSide(old(del.parent), del)
  {
    hide Distinct, Nodes, Below, Placed, Linked, SideLaid;
    Apart(t);
    LaidSide(nil, del, t);
    Sides(nil, del, t);
    SideRoot(nil, del.left, t.l);
    SideRoot(nil, del.right, t.r);
    if last !in Nodes(t) || last == del {
      Standby(nil, del, last, t);
    }
    assert allocated(Nodes(t.r));
    ghost var right, links := del.right, map n | n in Nodes(t.r) :: n.left;
    if t.r.Bin? {
      SpineOf(nil, right, t.r, links);
      BottomIs(t.r);
    }
    var parent := del.parent;
    TakeOver(nil, del, last, t);
    if parent != nil {
      if parent.left == del {
        parent.left := last;
      } else {
        parent.right := last;
      }
    }
    if t.r.Bin? && last == Bottom(t.r) {
      SpineKept(right, t.r, links);
      SpineTangles(last, t.r, Nodes(t));
    }
  }

  /** Only the child pointer of `p` that led to `c` may have changed. */
  twostate predicate OneSide(p: Node, c: Node)
    reads p
  {
    (old(p.left) == c ==> p.right == old(p.right)) && (old(p.left) != c ==> p.left == old(p.left))
  }

  lemma ReplaceNear(t: Shape, x: Item<Node>, y: Item<Node>)
    requires Distinct(t) && t.Bin? && y.node !in Nodes(t)
    requires t.it == x || (t.l.Bin? && t.l.it == x) || (t.r.Bin? && t.r.it == x)
    ensures Distinct(Replace(t, x, y)) && x.node in Nodes(t)
    ensures Nodes(Replace(t, x, y)) == Nodes(t) - {x.node} + {y.node}
  {
    if t.it == x {
      ReplaceRoot(t, y);
    } else if t.l.Bin? && t.l.it == x {
      ReplaceLeft(t, y);
    } else {
      ReplaceRight(t, y);
    }
  }

  /** Taking the smallest item out of the right subtree leaves a shape ready to be rebalanced. */
  lemma RemoveRootStart(t: Shape)
    requires AA(t) && Distinct(t) && t.Bin? && t.r.Bin?
    ensures var m, t1 := RemoveMin(t.r).1, Bin(t.l, t.it, t.lv, RemoveMin(t.r).0);
      && Sunk(t1) && Distinct(t1) && Nodes(t1) == Nodes(t) - {m.node}
      && m.node in Nodes(t.r) && m.node != t.it.node && m.node in Nodes(t)
  {
    hide RemoveMin;
    RemoveMinNodes(t.r);
    RemoveMinAA(t.r);
  }

  /** Removing the root of a shape that has a right subtree: the shape in between, and the end. */
  lemma RemoveRootShape(t: Shape)
    requires AA(t) && Distinct(t) && t.Bin? && t.r.Bin?
    ensures var m, t1 := RemoveMin(t.r).1, Bin(t.l, t.it, t.lv, RemoveMin(t.r).0);
      && Sunk(t1) && Distinct(t1) && Nodes(t1) == Nodes(t) - {m.node}
      && m.node in Nodes(t.r) && Near(Rebalance(t1), t.it.node)
      && Distinct(Rebalance(t1)) && Nodes(Rebalance(t1)) == Nodes(t1)
      && Distinct(Remove(t, t.it.key)) && Nodes(Remove(t, t.it.key)) == Nodes(t) - {t.it.node}
  {
    hide Rebalance, RemoveMin, Replace, Remove, Nodes, Distinct, Sunk, AA;
    var m, t1 := RemoveMin(t.r).1, Bin(t.l, t.it, t.lv, RemoveMin(t.r).0);
    RemoveRootStart(t);
    RebalanceNodes(t1);
    RebalanceRootSpot(t1);
    ReplaceNear(Rebalance(t1), t.it, m);
    RemoveRootIs(t);
  }

  lemma {:induction false} RemoveNodes(t: Shape, v: nat)
    requires AA(t) && Distinct(t)
    ensures Distinct(Remove(t, v)) && Nodes(Remove(t, v)) <= Nodes(t)
  {
    hide Rebalance, RemoveMin, Replace;
    if t.Bin? {
      if v < t.it.key {
        RemoveNodes(t.l, v);
        RebalanceNodes(Bin(Remove(t.l, v), t.it, t.lv, t.r));
      } else if v > t.it.key {
        RemoveNodes(t.r, v);
        RebalanceNodes(Bin(t.l, t.it, t.lv, Remove(t.r, v)));
      } else if t.r.Bin? {
        RemoveRootShape(t);
      }
    }
  }

  // What one call of bbtree_remove_ leaves behind. `match` says that del->deleted, set by a caller
  // further up, is the node to remove, so that this call looks for its successor.

  function Result(t: Shape, v: nat, match_: bool): Shape {
    if !Misses(t, v) then Remove(t, v)
    else if match_ && t.Bin? then RemoveMin(t).0
    else t
  }

  predicate Intact(t: Shape, v: nat, match_: bool) {
    !Misses(t, v) || match_ || Safe(t, v)
  }

  lemma {:induction false} UnderMisses(t: Shape, v: nat)
    requires Under(t, v)
    ensures Misses(t, v) && Safe(t, v)
  {
    if t.Bin? {
      UnderMisses(t.l, v);
    }
  }

  lemma ResultFacts(t: Shape, v: nat, match_: bool)
    requires AA(t) && Distinct(t) && (match_ ==> Under(t, v))
    ensures Shrunk(t, Result(t, v, match_))
    ensures Distinct(Result(t, v, match_)) && Nodes(Result(t, v, match_)) <= Nodes(t)
  {
    hide Rebalance, RemoveMin, Remove;
    if !Misses(t, v) {
      RemoveAA(t, v);
      RemoveNodes(t, v);
    } else if match_ && t.Bin? {
      RemoveMinAA(t);
      RemoveMinNodes(t);
    }
  }

  predicate Matches(nil: Node, del: Node, v: nat) {
    del != nil && del.value == v
  }

  ghost predicate RemovePre(nil: Node, root: Node, v: nat, del: Node, t: Shape)
    reads nil, root, root.parent, Nodes(t)
  {
    && Laid(nil, root, t) && AA(t) && Sorted(Elems(t)) && del !in Nodes(t)
    && (Matches(nil, del, v) ==> Under(t, v))
    && (t.Bin? ==> Hangs(nil, root, t))
  }

  ghost function Above(nil: Node, root: Node, t: Shape): set<Node>
    reads root
  {
    if t.Leaf? then {} else Outer(nil, root)
  }

  /** What a descent into `t` has found when it comes back. */
  ghost predicate Traced(nil: Node, v: nat, t: Shape, last0: Node, del0: Node, last: Node, del: Node, ok: bool) {
    && ok == (!Misses(t, v) || (Matches(nil, del0, v) && t.Bin?))
    && (if Under(t, v) then del == del0 else del in Nodes(t))
    && (if t.Leaf? then last == last0 else last in Nodes(t))
    && (t.Bin? && (Under(t, v) || Matches(nil, del0, v)) ==> last == RemoveMin(t).1.node)
  }

  lemma TracedIn(nil: Node, v: nat, t: Shape, last0: Node, del0: Node, last: Node, del: Node, ok: bool)
    requires Traced(nil, v, t, last0, del0, last, del, ok)
    ensures t.Bin? ==> last in Nodes(t)
    ensures t.Bin? && Matches(nil, del0, v) ==> last == RemoveMin(t).1.node
  {
  }

  lemma ChildPre(nil: Node, root: Node, v: nat, del: Node, t: Shape)
    requires RemovePre(nil, root, v, del, t) && t.Bin?
    ensures v < t.it.key ==> RemovePre(nil, root.left, v, del, t.l)
    ensures v >= t.it.key ==> RemovePre(nil, root.right, v, root, t.r)
    ensures v == t.it.key ==> Under(t.r, v)
    ensures t.l.Bin? ==> root.left.parent == root
    ensures t.r.Bin? ==> root.right.parent == root
    ensures root != nil && root == t.it.node
  {
    Sides(nil, root, t);
    Apart(t);
    SortedParts(t);
    if v == t.it.key {
      SortedUnder(t.r, v);
    }
  }

  lemma GrownLeft(t: Shape, l: Shape)
    requires t.Bin? && AA(t) && Distinct(t) && Distinct(l) && Nodes(l) <= Nodes(t.l) && Shrunk(t.l, l)
    ensures Distinct(Bin(l, t.it, t.lv, t.r)) && Nodes(Bin(l, t.it, t.lv, t.r)) <= Nodes(t)
    ensures Sunk(Bin(l, t.it, t.lv, t.r))
  {
  }

  lemma GrownRight(t: Shape, r: Shape)
    requires t.Bin? && AA(t) && Distinct(t) && Distinct(r) && Nodes(r) <= Nodes(t.r) && Shrunk(t.r, r)
    ensures Distinct(Bin(t.l, t.it, t.lv, r)) && Nodes(Bin(t.l, t.it, t.lv, r)) <= Nodes(t)
    ensures Sunk(Bin(t.l, t.it, t.lv, r))
  {
  }

  lemma SideLevel(nil: Node, c: Node, t: Shape)
    requires IsNil(nil) && SideLaid(nil, c, t)
    ensures c.level == Level(t)
  {
  }

  /** What holds of the other side, and of the shape to come, before descending on one side. */
  lemma LeftPlan(nil: Node, root: Node, v: nat, del: Node, t: Shape)
    requires RemovePre(nil, root, v, del, t) && t.Bin? && v < t.it.key
    ensures RemovePre(nil, root.left, v, del, t.l)
    ensures t.l.Bin? ==> root.left.parent == root
    ensures var t1 := Bin(Result(t.l, v, Matches(nil, del, v)), t.it, t.lv, t.r);
      Ready(nil, root, t1) && Sunk(t1)
    ensures SideLaid(nil, root.right, t.r) && (t.r.Bin? ==> t.r.it.node.parent == root)
    ensures root.right.level == Level(t.r) && (root.right == nil || root.right in Nodes(t.r))
    ensures root in Nodes(t) && root !in Nodes(t.l) && root !in Nodes(t.r) && nil !in Nodes(t)
    ensures Nodes(t.l) <= Nodes(t) && Nodes(t.r) <= Nodes(t) && Nodes(t.l) !! Nodes(t.r) && Below(t.r) <= Nodes(t.r)
    ensures t.r.Bin? ==> t.r.it.node in Nodes(t.r)
    ensures root.level == t.lv
  {
    hide Result, Under, Misses, Sorted, Elems;
    ChildPre(nil, root, v, del, t);
    Sides(nil, root, t);
    Apart(t);
    Apart(t.r);
    SideRoot(nil, root.right, t.r);
    SideLevel(nil, root.right, t.r);
    ResultFacts(t.l, v, Matches(nil, del, v));
    GrownLeft(t, Result(t.l, v, Matches(nil, del, v)));
  }

  lemma RightPlan(nil: Node, root: Node, v: nat, del: Node, t: Shape)
    requires RemovePre(nil, root, v, del, t) && t.Bin? && v >= t.it.key
    ensures RemovePre(nil, root.right, v, root, t.r)
    ensures t.r.Bin? ==> root.right.parent == root && root.left != root.right
    ensures var t1 := Bin(t.l, t.it, t.lv, Result(t.r, v, Matches(nil, root, v)));
      Ready(nil, root, t1) && Sunk(t1)
    ensures SideLaid(nil, root.left, t.l) && (t.l.Bin? ==> t.l.it.node.parent == root)
    ensures root.left.level == Level(t.l) && (root.left == nil || root.left in Nodes(t.l))
    ensures root in Nodes(t) && root !in Nodes(t.l) && root !in Nodes(t.r) && nil !in Nodes(t)
    ensures Nodes(t.l) <= Nodes(t) && Nodes(t.r) <= Nodes(t) && Nodes(t.l) !! Nodes(t.r) && Below(t.l) <= Nodes(t.l)
    ensures t.l.Bin? ==> t.l.it.node in Nodes(t.l)
    ensures root.level == t.lv
  {
    hide Result, Under, Misses, Sorted, Elems;
    ChildPre(nil, root, v, del, t);
    Sides(nil, root, t);
    Apart(t);
    Apart(t.l);
    SideRoot(nil, root.left, t.l);
    SideRoot(nil, root.right, t.r);
    SideLevel(nil, root.left, t.l);
    ResultFacts(t.r, v, Matches(nil, root, v));
    GrownRight(t, Result(t.r, v, Matches(nil, root, v)));
  }

  /** The descent of bbtree_remove_ into the left subtree, and the link back to its result. */
  method DescendLeft(nil: Node, root: Node, value: nat, del0: Node, ghost t: Shape)
    returns (last: Node, del: Node, ok: bool)
    requires RemovePre(nil, root, value, del0, t) && t.Bin? && value < t.it.key
    modifies Nodes(t)`left, Nodes(t)`right, Nodes(t)`parent, Nodes(t)`level, nil`parent
    ensures root.parent == old(root.parent)
    ensures Traced(nil, value, t.l, root, del0, last, del, ok)
    ensures t.l.Bin? && Under(t.l, value) ==> last.left == nil
    ensures var m := Matches(nil, del0, value);
      if Intact(t.l, value, m) then
        && Laid(nil, root, Bin(Result(t.l, value, m), t.it, t.lv, t.r))
        && Sunk(Bin(Result(t.l, value, m), t.it, t.lv, t.r))
      else
        && Tangled(root, Nodes(t)) && !Placed(nil, root, t)
        && root.level == t.lv && root.left.level == Level(t.l) && root.right.level == Level(t.r)
    decreases t, 0
  {
    hide Distinct, Nodes, Below, Placed, Linked, SideLaid, Sorted, AA, Result, Traced, RemovePre, Intact, Sunk, Matches,
      Tangled;
    ghost var m := Matches(nil, del0, value);
    LeftPlan(nil, root, value, del0, t);
    assert allocated(Nodes(t.l)) && allocated(Nodes(t.r));
    var c;
    c, last, del, ok := RemoveAt(nil, root.left, value, root, del0, t.l);
    TracedIn(nil, value, t.l, root, del0, last, del, ok);
    if Intact(t.l, value, m) {
      LaidSide(nil, c, Result(t.l, value, m));
    }
    AttachLeft(nil, root, c, Bin(Result(t.l, value, m), t.it, t.lv, t.r));
    if !Intact(t.l, value, m) {
      TangledUp(root, c, Nodes(t.l), Nodes(t));
      TangledNowhere(nil, root, Nodes(t), t);
    }
  }

  /** The descent of bbtree_remove_ into the right subtree, and the link back to its result. */
  method DescendRight(nil: Node, root: Node, value: nat, ghost del0: Node, ghost t: Shape)
    returns (last: Node, del: Node, ok: bool)
    requires RemovePre(nil, root, value, del0, t) && t.Bin? && value >= t.it.key
    modifies Nodes(t)`left, Nodes(t)`right, Nodes(t)`parent, Nodes(t)`level, nil`parent
    ensures root.parent == old(root.parent)
    ensures Traced(nil, value, t.r, root, root, last, del, ok)
    ensures t.r.Bin? && Under(t.r, value) ==> last.left == nil
    ensures var m := Matches(nil, root, value);
      if Intact(t.r, value, m) then
        && Laid(nil, root, Bin(t.l, t.it, t.lv, Result(t.r, value, m)))
        && Sunk(Bin(t.l, t.it, t.lv, Result(t.r, value, m)))
      else
        && Tangled(root, Nodes(t)) && !Placed(nil, root, t)
        && root.level == t.lv && root.left.level == Level(t.l) && root.right.level == Level(t.r)
    decreases t, 0
  {
    hide Distinct, Nodes, Below, Placed, Linked, SideLaid, Sorted, AA, Result, Traced, RemovePre, Intact, Sunk, Matches,
      Tangled;
    ghost var m := Matches(nil, root, value);
    RightPlan(nil, root, value, del0, t);
    assert allocated(Nodes(t.l)) && allocated(Nodes(t.r));
    var c;
    c, last, del, ok := RemoveAt(nil, root.right, value, root, root, t.r);
    TracedIn(nil, value, t.r, root, root, last, del, ok);
    if Intact(t.r, value, m) {
      LaidSide(nil, c, Result(t.r, value, m));
    }
    AttachRight(nil, root, c, Bin(t.l, t.it, t.lv, Result(t.r, value, m)));
    if !Intact(t.r, value, m) {
      TangledUp(root, c, Nodes(t.r), Nodes(t));
      TangledNowhere(nil, root, Nodes(t), t);
    }
  }

  /** The swap that ends bbtree_remove_ for the frame whose node is del->deleted. `root` is where
      rebalancing left the subtree, `t` its shape. */
  method SwapOut(nil: Node, root: Node, del: Node, last: Node, ghost t: Shape) returns (x: Node)
    requires Laid(nil, root, t) && Near(t, del) && last != nil && last.left == nil
    requires last !in Nodes(t) || del == root
    requires del == root ==> Hangs(nil, root, t) && last !in Outer(nil, root)
    modifies last`level, last`parent, last`left, last`right
    modifies Nodes(t)`left, Nodes(t)`right, Nodes(t)`parent, nil`parent
    modifies (if del == root then Outer(nil, root) else {})`left, (if del == root then Outer(nil, root) else {})`right
    ensures last !in Nodes(t) ==>
      Laid(nil, x, Replace(t, Item(del, del.value), Item(last, last.value))) && x.parent == old(root.parent)
    ensures del == root ==> x == last && x.level == t.lv && OneSide(old(root.parent), root)
    ensures del == root && t.r.Bin? && last == Bottom(t.r) ==> Tangled(x, Nodes(t))
    ensures del == root == last ==> Laid(nil, root, t) && x.parent == old(root.parent)
  {
    hide Nodes, Below, Distinct, Placed, Linked, SideLaid, Replace;
    LaidSide(nil, root, t);
    // the assertion of bbtree_remove_
    assert last.left == nil && last != nil;
    if root == del {
      if last !in Nodes(t) {
        RootReplaced(t, Item(last, last.value));
      }
      SwapRoot(nil, del, last, t);
      x := last;
    } else {
      SwapChild(nil, root, del, last, t);
      x := root;
    }
  }

  lemma RootReplaced(t: Shape, y: Item<Node>)
    requires t.Bin? && Distinct(t) && y.node !in Nodes(t)
    ensures Replace(t, t.it, y) == Bin(t.l, y, t.lv, t.r)
  {
    ReplaceRoot(t, y);
  }

  /** The subtree as a frame of bbtree_remove_ finds it after its recursive call: either laid out
      with one side possibly sunk, or misplaced below but with the levels of a valid tree. */
  ghost predicate Settling(nil: Node, root: Node, last: Node, del: Node, t: Shape)
    reads nil, root, root.left, root.right, Nodes(t)
  {
    || (Laid(nil, root, t) && Sunk(t))
    || (root != nil && last != root && del != root && !Sinks(root))
  }

  /** The rest of a frame: drop the last node at the bottom, rebalance, and swap at the node to
      remove. */
  method Settle(nil: Node, root: Node, value: nat, last: Node, del: Node, ok0: bool, ghost t: Shape)
    returns (x: Node, ok: bool)
    requires t.Bin? && Settling(nil, root, last, del, t)
    requires Laid(nil, root, t) && Sunk(t) ==> Hangs(nil, root, t)
    requires del == root ==>
      last != nil && last !in Outer(nil, root) && Laid(nil, root, t) && Sunk(t) && last.left == nil
    requires del == root && last in Nodes(t) ==> AA(t)
    modifies Nodes(t)`left, Nodes(t)`right, Nodes(t)`parent, Nodes(t)`level, nil`parent
    modifies last`level, last`parent, last`left, last`right
    modifies Outer(nil, root)`left, Outer(nil, root)`right
    ensures ok == (ok0 || (last == root && Matches(nil, del, value)))
    ensures (last == root && Matches(nil, del, value)) || (del != root && (last !in Nodes(t) || AA(t))) ==>
      last.left == old(last.left)
    ensures old(Laid(nil, root, t)) && Sunk(t) && last == root && Matches(nil, del, value) ==>
      Laid(nil, x, t.r) && (t.r.Bin? ==> x.parent == old(root.parent))
    ensures old(Laid(nil, root, t)) && Sunk(t) && !(last == root && Matches(nil, del, value)) && del != root ==>
      Laid(nil, x, Rebalance(t)) && x.parent == old(root.parent)
    ensures old(Laid(nil, root, t)) && Sunk(t) && !Matches(nil, del, value) && del == root && last in Nodes(t) ==>
      x == last && x.level == t.lv && (last == root ==> Laid(nil, root, t) && x.parent == old(root.parent))
    ensures !Matches(nil, del, value) && del == root && t.r.Bin? && last == Bottom(t.r) ==> Tangled(x, Nodes(t))
    ensures del == root && last !in Nodes(t) ==>
      Laid(nil, x, Replace(Rebalance(t), Item(del, del.value), Item(last, last.value))) && x.parent == old(root.parent)
    ensures !(old(Laid(nil, root, t)) && Sunk(t)) ==>
      && x == root && root.level == old(root.level) && (Placed(nil, root, t) <==> old(Placed(nil, root, t)))
      && (old(Tangled(root, Nodes(t))) ==> Tangled(root, Nodes(t)))
    ensures OneSide(old(root.parent), root)
  {
    hide Nodes, Below, Distinct, Placed, Linked, SideLaid, Replace, Rebalance;
    ok := ok0;
    assert allocated(Nodes(t));
    if Laid(nil, root, t) {
      LaidSide(nil, root, t);
      if AA(t) { NoSinking(nil, root, t); }
    }
    if last == root && del != nil && del.value == value {
      ok := true;
      x := DropLast(nil, root, t);
      return;
    }
    x := RebalanceAt(nil, root, t);
    if root != del {
      return;
    }
    LaidSide(nil, x, Rebalance(t));
    if t.r.Bin? {
      BottomIs(t.r);
      Apart(t);
    }
    if last in Nodes(t) {
      Settled(t);
    } else {
      RebalanceRootSpot(t);
    }
    x := SwapOut(nil, x, del, last, Rebalance(t));
  }

  lemma NoSinking(nil: Node, root: Node, t: Shape)
    requires Laid(nil, root, t) && t.Bin? && AA(t)
    ensures !Sinks(root)
  {
    assert Placed(nil, root.left, t.l) && Placed(nil, root.right, t.r);
  }

  lemma Settled(t: Shape)
    requires AA(t) && t.Bin?
    ensures Rebalance(t) == t && Sunk(t)
  {
  }

  /** At the bottom the last node is unlinked: its right child takes its place. */
  method DropLast(nil: Node, root: Node, ghost t: Shape) returns (x: Node)
    requires Laid(nil, root, t) && t.Bin?
    modifies Nodes(t)`parent, nil`parent
    ensures Laid(nil, x, t.r) && (t.r.Bin? ==> x.parent == old(root.parent))
  {
    hide Nodes, Below, Distinct, Placed, Linked;
    Sides(nil, root, t);
    Apart(t);
    Apart(t.r);
    SideRoot(nil, root.right, t.r);
    root.right.parent := root.parent;
    x := root.right;
  }

  /** How the outcome for a shape follows from the outcome for the side the descent took. */
  lemma LeftOutcome(t: Shape, v: nat, m: bool)
    requires t.Bin? && v < t.it.key && AA(t) && (m ==> Under(t, v))
    ensures Misses(t, v) == Misses(t.l, v) && Under(t, v) == Under(t.l, v) && Intact(t, v, m) == Intact(t.l, v, m)
    ensures m && t.l.Leaf? ==> Result(t, v, m) == t.r && Result(t.l, v, m) == t.l
    ensures RemoveMin(t).1 == if t.l.Leaf? then t.it else RemoveMin(t.l).1
    ensures !(m && t.l.Leaf?) && Intact(t, v, m) ==>
      Result(t, v, m) == Rebalance(Bin(Result(t.l, v, m), t.it, t.lv, t.r))
  {
    hide Rebalance, Remove, Misses, Under;
    LeftTurn(t, v);
    if m {
      UnderMisses(t, v);
    } else if Misses(t, v) {
      Settled(t);
    }
  }

  lemma LeftTurn(t: Shape, v: nat)
    requires t.Bin? && v < t.it.key
    ensures Misses(t, v) == Misses(t.l, v) && Under(t, v) == Under(t.l, v)
    ensures Remove(t, v) == Rebalance(Bin(Remove(t.l, v), t.it, t.lv, t.r))
  {
  }

  lemma RightOutcome(t: Shape, v: nat)
    requires t.Bin? && v >= t.it.key && AA(t) && (v == t.it.key ==> Under(t.r, v))
    ensures !Under(t, v)
    ensures v == t.it.key ==> !Misses(t, v) && Misses(t.r, v) && Intact(t, v, false)
    ensures v > t.it.key ==> Misses(t, v) == Misses(t.r, v)
    ensures v > t.it.key && !Under(t.r, v) ==> Intact(t, v, false) == Intact(t.r, v, false)
    ensures v > t.it.key && Under(t.r, v) ==>
      Misses(t, v) && Intact(t.r, v, false) && (Intact(t, v, false) <==> t.r.Leaf?) && Result(t, v, false) == t
    ensures v > t.it.key && !Under(t.r, v) && Intact(t, v, false) ==>
      Result(t, v, false) == Rebalance(Bin(t.l, t.it, t.lv, Result(t.r, v, false)))
    ensures v == t.it.key && t.r.Leaf? ==> Result(t, v, false) == t.r
    ensures v == t.it.key && t.r.Bin? ==>
      Result(t, v, false) == Replace(Rebalance(Bin(t.l, t.it, t.lv, Result(t.r, v, true))), t.it, RemoveMin(t.r).1)
  {
    hide Rebalance, RemoveMin, Replace;
    if Under(t.r, v) {
      UnderMisses(t.r, v);
    }
    if v > t.it.key && Misses(t, v) {
      Settled(t);
    }
  }

  lemma LeftSettling(nil: Node, root: Node, v: nat, last: Node, del: Node, del0: Node, ok: bool, t: Shape)
    requires t.Bin? && AA(t) && Distinct(t) && root == t.it.node && root != nil && v < t.it.key && del0 !in Nodes(t)
    requires Traced(nil, v, t.l, root, del0, last, del, ok)
    ensures del != root && last in Nodes(t)
    ensures last == root && Matches(nil, del, v) <==> Matches(nil, del0, v) && t.l.Leaf?
    ensures !Intact(t.l, v, Matches(nil, del0, v)) ==> last != root
    ensures t.l.Bin? ==> last != root
    ensures root.level == t.lv && root.left.level == Level(t.l) && root.right.level == Level(t.r) ==> !Sinks(root)
  {
  }

  /** On a descent that only goes left, the node at its end is gone from the subtree, or the subtree is
      as it was. */
  lemma LeftBottom(nil: Node, root: Node, v: nat, last: Node, del: Node, del0: Node, ok: bool, t: Shape)
    requires t.Bin? && AA(t) && Distinct(t) && Under(t, v) && root == t.it.node && root != nil
    requires Traced(nil, v, t.l, root, del0, last, del, ok) && del0 !in Nodes(t)
    ensures var m := Matches(nil, del0, v);
      && Intact(t.l, v, m) && Under(t.l, v) && del == del0
      && (t.l.Bin? && m ==> last !in Nodes(Bin(Result(t.l, v, m), t.it, t.lv, t.r)))
      && (!m || t.l.Leaf? ==> Bin(Result(t.l, v, m), t.it, t.lv, t.r) == t)
      && (t.l.Leaf? ==> last == root)
  {
    hide RemoveMin, Rebalance;
    UnderMisses(t.l, v);
    Apart(t);
    if t.l.Bin? {
      RemoveMinNodes(t.l);
      AAParts(t);
    }
  }

  lemma RootLeft(nil: Node, root: Node, t: Shape)
    requires Laid(nil, root, t) && t.Bin? && t.l.Leaf?
    ensures root.left == nil
  {
    assert Placed(nil, root.left, t.l);
  }

  /** What the frame has found once it has settled. */
  lemma LeftTraced(nil: Node, root: Node, v: nat, last: Node, del: Node, del0: Node, ok0: bool, ok: bool, t: Shape)
    requires t.Bin? && AA(t) && Distinct(t) && root == t.it.node && root != nil && v < t.it.key && del0 !in Nodes(t)
    requires Matches(nil, del0, v) ==> Under(t, v)
    requires Traced(nil, v, t.l, root, del0, last, del, ok0)
    requires ok == (ok0 || (last == root && Matches(nil, del, v)))
    ensures Traced(nil, v, t, root, del0, last, del, ok)
  {
    hide Rebalance, Misses, Under, Intact, Result, RemoveMin, AA, Distinct;
    LeftOutcome(t, v, Matches(nil, del0, v));
    LeftSettling(nil, root, v, last, del, del0, ok0, t);
    Apart(t);
  }

  lemma LeftFacts(nil: Node, root: Node, v: nat, del: Node, t: Shape)
    requires RemovePre(nil, root, v, del, t) && t.Bin? && v < t.it.key
    ensures root != nil && root == t.it.node && root in Nodes(t) && root.level == t.lv
    ensures AA(t) && Distinct(t) && Hangs(nil, root, t) && nil !in Nodes(t) && del !in Nodes(t)
    ensures Matches(nil, del, v) ==> Under(t, v)
    ensures Nodes(Result(t, v, Matches(nil, del, v))) <= Nodes(t)
    ensures Nodes(Bin(Result(t.l, v, Matches(nil, del, v)), t.it, t.lv, t.r)) <= Nodes(t)
  {
    hide Rebalance, RemoveMin, Replace, Result, Sorted, Elems;
    LaidSide(nil, root, t);
    LeftPlan(nil, root, v, del, t);
    ResultFacts(t.l, v, Matches(nil, del, v));
    ResultFacts(t, v, Matches(nil, del, v));
    GrownLeft(t, Result(t.l, v, Matches(nil, del, v)));
  }

  /** One frame of bbtree_remove_ that went left. */
  method RemoveOnLeft(nil: Node, root: Node, value: nat, del0: Node, ghost t: Shape)
    returns (x: Node, last: Node, del: Node, ok: bool)
    requires RemovePre(nil, root, value, del0, t) && t.Bin? && value < t.it.key
    modifies Nodes(t)`left, Nodes(t)`right, Nodes(t)`parent, Nodes(t)`level, nil`parent
    modifies Above(nil, root, t)`left, Above(nil, root, t)`right
    ensures Traced(nil, value, t, root, del0, last, del, ok)
    ensures Under(t, value) ==> last.left == nil
    ensures var m := Matches(nil, del0, value);
      if Intact(t, value, m) then
        Laid(nil, x, Result(t, value, m)) && (Result(t, value, m).Bin? ==> x.parent == old(root.parent))
      else
        x != nil && x.level == Level(t) && !Placed(nil, x, t) && Tangled(x, Nodes(t))
    ensures x == nil || x in Nodes(t)
    ensures OneSide(old(root.parent), root)
    decreases t, 1
  {
    hide Distinct, Nodes, Below, Placed, Linked, SideLaid, Sorted, AA, Result, Intact, Sunk,
      Replace, Rebalance, RemoveMin, Misses, Under, Safe, Traced, RemovePre, Tangled;
    ghost var m := Matches(nil, del0, value);
    ghost var t1 := if Intact(t.l, value, m) then Bin(Result(t.l, value, m), t.it, t.lv, t.r) else t;
    LeftFacts(nil, root, value, del0, t);
    LeftOutcome(t, value, m);
    last, del, ok := DescendLeft(nil, root, value, del0, t);
    ghost var ok0 := ok;
    LeftSettling(nil, root, value, last, del, del0, ok, t);
    if Under(t, value) {
      LeftBottom(nil, root, value, last, del, del0, ok, t);
      if t.l.Leaf? { RootLeft(nil, root, t1); }
    }
    x, ok := Settle(nil, root, value, last, del, ok, t1);
    LeftTraced(nil, root, value, last, del, del0, ok0, ok, t);
    if Intact(t, value, m) {
      LaidSide(nil, x, Result(t, value, m));
    }
  }

  lemma RightSettling(nil: Node, root: Node, v: nat, last: Node, del: Node, ok: bool, t: Shape)
    requires t.Bin? && AA(t) && Distinct(t) && v >= t.it.key
    requires root == t.it.node && root != nil && root.value == t.it.key
    requires v == t.it.key ==> Under(t.r, v)
    requires Traced(nil, v, t.r, root, root, last, del, ok)
    ensures last in Nodes(t) && del in Nodes(t)
    ensures del == root <==> Under(t.r, v)
    ensures last == root <==> t.r.Leaf?
    ensures t.r.Leaf? ==> Under(t.r, v)
    ensures !Intact(t.r, v, Matches(nil, root, v)) ==> last != root && del != root
    ensures v == t.it.key && t.r.Bin? ==>
      var t1 := Bin(t.l, t.it, t.lv, Result(t.r, v, true));
      last == RemoveMin(t.r).1.node && last.value == RemoveMin(t.r).1.key ==>
        last !in Nodes(t1) && Item(last, last.value) == RemoveMin(t.r).1
    ensures v > t.it.key && Under(t.r, v) ==> Bin(t.l, t.it, t.lv, Result(t.r, v, false)) == t
    ensures v == t.it.key && t.r.Leaf? ==> Bin(t.l, t.it, t.lv, Result(t.r, v, true)) == t
    ensures root.level == t.lv && root.left.level == Level(t.l) && root.right.level == Level(t.r) ==> !Sinks(root)
  {
    if Under(t.r, v) {
      UnderMisses(t.r, v);
      if t.r.Bin? {
        RemoveRootShape(t);
      }
    }
  }

  lemma {:induction false} MinValue(nil: Node, x: Node, t: Shape)
    requires Placed(nil, x, t) && t.Bin?
    ensures RemoveMin(t).1.node.value == RemoveMin(t).1.key
    decreases t
  {
    hide Rebalance;
    if t.l.Bin? {
      MinValue(nil, x.left, t.l);
    }
  }

  lemma RightFacts(nil: Node, root: Node, v: nat, del: Node, t: Shape)
    requires RemovePre(nil, root, v, del, t) && t.Bin? && v >= t.it.key
    ensures root != nil && root == t.it.node && root.value == t.it.key && root in Nodes(t)
    ensures AA(t) && Distinct(t) && Hangs(nil, root, t) && !Matches(nil, del, v) && nil !in Nodes(t)
    ensures v == t.it.key ==> Under(t.r, v)
    ensures t.r.Bin? ==> RemoveMin(t.r).1.node.value == RemoveMin(t.r).1.key
    ensures Nodes(Result(t, v, false)) <= Nodes(t)
    ensures Nodes(Bin(t.l, t.it, t.lv, Result(t.r, v, Matches(nil, root, v)))) <= Nodes(t)
  {
    hide Rebalance, RemoveMin, Replace, Result, Sorted, Elems;
    LaidSide(nil, root, t);
    RightPlan(nil, root, v, del, t);
    assert v == t.it.key ==> Under(t.r, v) by {
      assert Matches(nil, root, v) == (v == t.it.key);
    }
    ResultFacts(t.r, v, Matches(nil, root, v));
    ResultFacts(t, v, false);
    GrownRight(t, Result(t.r, v, Matches(nil, root, v)));
    assert Placed(nil, root.right, t.r);
    if t.r.Bin? {
      MinValue(nil, root.right, t.r);
    }
  }

  /** One frame of bbtree_remove_ that went right, recording its node as del->deleted. */
  method RemoveOnRight(nil: Node, root: Node, value: nat, ghost del0: Node, ghost t: Shape)
    returns (x: Node, last: Node, del: Node, ok: bool)
    requires RemovePre(nil, root, value, del0, t) && t.Bin? && value >= t.it.key
    modifies Nodes(t)`left, Nodes(t)`right, Nodes(t)`parent, Nodes(t)`level, nil`parent
    modifies Above(nil, root, t)`left, Above(nil, root, t)`right
    ensures Traced(nil, value, t, root, del0, last, del, ok) && !Under(t, value)
    ensures if Intact(t, value, false) then
        Laid(nil, x, Result(t, value, false)) && (Result(t, value, false).Bin? ==> x.parent == old(root.parent))
      else
        x != nil && x.level == Level(t) && !Placed(nil, x, t) && Tangled(x, Nodes(t))
    ensures x == nil || x in Nodes(t)
    ensures OneSide(old(root.parent), root)
    decreases t, 1
  {
    hide Distinct, Nodes, Below, Placed, Linked, SideLaid, Sorted, AA, Result, Intact, Sunk,
      Replace, Rebalance, RemoveMin, Misses, Under, Safe, RemovePre, Tangled;
    ghost var m := Matches(nil, root, value);
    ghost var t1 := if Intact(t.r, value, m) then Bin(t.l, t.it, t.lv, Result(t.r, value, m)) else t;
    RightFacts(nil, root, value, del0, t);
    RightOutcome(t, value);
    last, del, ok := DescendRight(nil, root, value, del0, t);
    RightSettling(nil, root, value, last, del, ok, t);
    AAParts(t);
    if t.r.Leaf? { RootLeft(nil, root, t1); } else { BottomIs(t.r); }
    x, ok := Settle(nil, root, value, last, del, ok, t1);
    if Intact(t, value, false) {
      LaidSide(nil, x, Result(t, value, false));
    } else if x != root {
      WrongRoot(nil, x, t);
    }
  }

  lemma WrongRoot(nil: Node, x: Node, t: Shape)
    requires t.Bin? && x != t.it.node
    ensures !Placed(nil, x, t)
  {
  }

  /** bbtree_remove_. With the key present the subtree ends as Remove says; below the node to
      remove it loses its least node; with the key absent it is unharmed exactly when Safe. */
  method RemoveAt(nil: Node, root: Node, value: nat, last0: Node, del0: Node, ghost t: Shape)
    returns (x: Node, last: Node, del: Node, ok: bool)
    requires RemovePre(nil, root, value, del0, t)
    modifies Nodes(t)`left, Nodes(t)`right, Nodes(t)`parent, Nodes(t)`level, nil`parent
    modifies Above(nil, root, t)`left, Above(nil, root, t)`right
    ensures Traced(nil, value, t, last0, del0, last, del, ok)
    ensures t.Bin? && Under(t, value) ==> last.left == nil
    ensures var m := Matches(nil, del0, value);
      if Intact(t, value, m) then
        Laid(nil, x, Result(t, value, m)) && (Result(t, value, m).Bin? ==> x.parent == old(root.parent))
      else
        x != nil && x.level == Level(t) && !Placed(nil, x, t) && Tangled(x, Nodes(t))
    ensures x == nil || x in Nodes(t)
    ensures t.Bin? ==> OneSide(old(root.parent), root)
    decreases t, 2
  {
    hide Below, Distinct, Linked, Sorted, Remove, RemoveMin;
    LaidSide(nil, root, t);
    if root == nil {
      return nil, last0, del0, false;
    }
    if value < root.value {
      x, last, del, ok := RemoveOnLeft(nil, root, value, del0, t);
    } else {
      RightFacts(nil, root, value, del0, t);
      x, last, del, ok := RemoveOnRight(nil, root, value, del0, t);
    }
  }
}
