/** The tree of blocks of one file: a hole, or a block with, in an index block, one subtree per entry. */
module BlockTree {

  datatype Tree = Hole | Node(block: nat, kids: seq<Tree>)

  type Disk = map<nat, seq<nat>>

  // ----- the blocks of a tree -----------------------------------------------------------------------

  ghost function Blocks(t: Tree): set<nat> {
    match t
    case Hole => {}
    case Node(b, kids) => {b} + BlocksAll(kids)
  }

  ghost function BlocksAll(ts: seq<Tree>): set<nat> {
    set i, b | 0 <= i < |ts| && b in Blocks(ts[i]) :: b
  }

  /** No block is referenced twice. */
  ghost predicate Distinct(t: Tree) {
    t.Node? ==> t.block !in BlocksAll(t.kids) && DistinctAll(t.kids)
  }

  ghost predicate DistinctAll(ts: seq<Tree>) {
    && (forall i :: 0 <= i < |ts| ==> Distinct(ts[i]))
    && (forall i, j :: 0 <= i < j < |ts| ==> Blocks(ts[i]) !! Blocks(ts[j]))
  }

  /** How many blocks a tree references. */
  ghost function Count(t: Tree): nat {
    match t
    case Hole => 0
    case Node(b, kids) => 1 + CountAll(kids)
  }

  ghost function CountAll(ts: seq<Tree>): nat {
    if ts == [] then 0 else CountAll(ts[..|ts| - 1]) + Count(ts[|ts| - 1])
  }

  lemma {:induction false} CountUpdate(ts: seq<Tree>, i: nat, t: Tree)
    requires i < |ts|
    ensures CountAll(ts[i := t]) == CountAll(ts) - Count(ts[i]) + Count(t)
  {
    var n := |ts| - 1;
    if i == n {
      assert ts[i := t][..n] == ts[..n];
    } else {
      CountUpdate(ts[..n], i, t);
      assert ts[i := t][..n] == ts[..n][i := t];
    }
  }

  /** A tree of depth `d` with `n` entries per index block. */
  predicate Formed(t: Tree, n: nat, d: nat)
    decreases d
  {
    t.Node? ==>
      && t.block != 0
      && if d == 0 then t.kids == [] else |t.kids| == n && forall i :: 0 <= i < n ==> Formed(t.kids[i], n, d - 1)
  }

  // ----- on the disk --------------------------------------------------------------------------------

  /** Entry `b` is the root of tree `t`: 0 for a hole, else a block whose entries are its subtrees. */
  ghost predicate OnDisk(disk: Disk, b: nat, d: nat, t: Tree)
    decreases t
  {
    match t
    case Hole => b == 0
    case Node(block, kids) =>
      b == block && b != 0 && b in disk && (d > 0 ==> OnDiskAll(disk, disk[b], d - 1, kids))
  }

  ghost predicate OnDiskAll(disk: Disk, row: seq<nat>, d: nat, ts: seq<Tree>)
    decreases ts
  {
    |row| == |ts| && forall i :: 0 <= i < |ts| ==> OnDisk(disk, row[i], d, ts[i])
  }

  ghost predicate Agree(a: Disk, b: Disk, s: set<nat>) {
    forall x :: x in s && x in a ==> x in b && b[x] == a[x]
  }

  lemma {:induction false} OnDiskFrame(a: Disk, c: Disk, b: nat, d: nat, t: Tree)
    requires OnDisk(a, b, d, t) && Agree(a, c, Blocks(t))
    ensures OnDisk(c, b, d, t)
    decreases t
  {
    if t.Node? && d > 0 {
      forall i | 0 <= i < |t.kids| ensures OnDisk(c, c[b][i], d - 1, t.kids[i]) {
        KidBlocks(t.kids, i);
        OnDiskFrame(a, c, a[b][i], d - 1, t.kids[i]);
      }
    }
  }

  lemma KidBlocks(ts: seq<Tree>, i: nat)
    requires i < |ts|
    ensures Blocks(ts[i]) <= BlocksAll(ts)
  {
  }

  // ----- who owns what ------------------------------------------------------------------------------

  /** The blocks in use are those of the trees, no block twice, and those of `c`. */
  ghost predicate Owns(used: set<nat>, c: set<nat>, ts: seq<Tree>) {
    used == c + BlocksAll(ts) && c !! BlocksAll(ts) && DistinctAll(ts)
  }

  lemma OwnsSplit(used: set<nat>, c: set<nat>, ts: seq<Tree>, i: nat)
    requires Owns(used, c, ts) && i < |ts|
    ensures var rest := used - Blocks(ts[i]);
      used == rest + Blocks(ts[i]) && rest !! Blocks(ts[i]) && Distinct(ts[i]) && c <= rest
      && forall j :: 0 <= j < |ts| && j != i ==> Blocks(ts[j]) <= rest
  {
    KidBlocks(ts, i);
    forall j | 0 <= j < |ts| && j != i ensures Blocks(ts[j]) <= used - Blocks(ts[i]) {
      KidBlocks(ts, j);
      assert Blocks(ts[j]) !! Blocks(ts[i]) by { if j < i {} else {} }
    }
  }

  lemma OwnsJoin(used: set<nat>, used': set<nat>, c: set<nat>, ts: seq<Tree>, i: nat, t: Tree)
    requires Owns(used, c, ts) && i < |ts| && Distinct(t)
    requires var rest := used - Blocks(ts[i]); used' == rest + Blocks(t) && rest !! Blocks(t)
    ensures Owns(used', c, ts[i := t])
  {
    var rest := used - Blocks(ts[i]);
    var us := ts[i := t];
    OwnsSplit(used, c, ts, i);
    forall b ensures b in used' <==> b in c || b in BlocksAll(us) {
      if b in Blocks(t) { assert b in Blocks(us[i]); }
      if b in BlocksAll(ts) && b !in Blocks(ts[i]) {
        var j :| 0 <= j < |ts| && b in Blocks(ts[j]);
        assert b in Blocks(us[j]);
      }
      if b in BlocksAll(us) {
        var j :| 0 <= j < |us| && b in Blocks(us[j]);
        assert j != i ==> b in Blocks(ts[j]);
      }
    }
    forall b | b in BlocksAll(us) ensures b !in c {
      var j :| 0 <= j < |us| && b in Blocks(us[j]);
      if j != i { KidBlocks(ts, j); }
    }
  }

  // ----- truncation ---------------------------------------------------------------------------------

  /** Logical blocks under a tree of depth `d`: n to the power d. */
  function Span(n: nat, d: nat): nat {
    if d == 0 then 1 else n * Span(n, d - 1)
  }

  /** The first logical block under entry `i` of a table that starts at `offset`. */
  function EntryOffset(n: nat, d: nat, offset: nat, i: nat): nat { offset + i * Span(n, d) }

  /** A block exists exactly where its first logical block is below the block count. */
  ghost predicate Shaped(t: Tree, n: nat, d: nat, count: int, offset: nat)
    decreases d, 0
  {
    && (t.Node? <==> offset < count)
    && (t.Node? && d > 0 ==> |t.kids| == n && ShapedAll(t.kids, n, d - 1, count, offset))
  }

  ghost predicate ShapedAll(ts: seq<Tree>, n: nat, d: nat, count: int, offset: nat)
    decreases d, 1
  {
    forall i :: 0 <= i < |ts| ==> Shaped(ts[i], n, d, count, EntryOffset(n, d, offset, i))
  }

  function Holes(n: nat): seq<Tree> { seq(n, i => Hole) }

  /** The subtrees of a tree, those of a hole being holes. */
  function Kids(t: Tree, n: nat): seq<Tree> {
    match t
    case Hole => Holes(n)
    case Node(_, kids) => kids
  }

  /** What becomes of tree `t` on disk `a` when it is `u` on disk `b`: blocks that survive keep their
      number, data blocks keep their contents, new data blocks are zero. */
  ghost predicate Survives(a: Disk, b: Disk, n: nat, d: nat, t: Tree, u: Tree)
    decreases d, 0
  {
    u.Node? ==>
      && (t.Node? ==> u.block == t.block)
      && if d == 0
         then u.block in b && (if t.Node? then t.block in a ==> b[t.block] == a[t.block] else b[u.block] == Zeros(n))
         else |u.kids| == |Kids(t, n)| && SurvivesAll(a, b, n, d - 1, Kids(t, n), u.kids)
  }

  ghost predicate SurvivesAll(a: Disk, b: Disk, n: nat, d: nat, ts: seq<Tree>, us: seq<Tree>)
    requires |ts| == |us|
    decreases d, 1
  {
    forall i :: 0 <= i < |ts| ==> Survives(a, b, n, d, ts[i], us[i])
  }

  function Zeros(n: nat): seq<nat> { seq(n, i => 0) }

  /** Later changes outside the tree do not matter. */
  lemma {:induction false} SurvivesFrame(a: Disk, b: Disk, c: Disk, n: nat, d: nat, t: Tree, u: Tree)
    requires Survives(a, b, n, d, t, u) && Agree(b, c, Blocks(u))
    ensures Survives(a, c, n, d, t, u)
    decreases d
  {
    if u.Node? && d > 0 {
      forall i | 0 <= i < |u.kids| ensures Survives(a, c, n, d - 1, Kids(t, n)[i], u.kids[i]) {
        KidBlocks(u.kids, i);
        SurvivesFrame(a, b, c, n, d - 1, Kids(t, n)[i], u.kids[i]);
      }
    }
  }

  /** Nor do earlier ones. */
  lemma {:induction false} SurvivesSince(z: Disk, a: Disk, b: Disk, n: nat, d: nat, t: Tree, u: Tree)
    requires Survives(a, b, n, d, t, u) && Agree(z, a, Blocks(t))
    ensures Survives(z, b, n, d, t, u)
    decreases d
  {
    if u.Node? && d > 0 {
      forall i | 0 <= i < |u.kids| ensures Survives(z, b, n, d - 1, Kids(t, n)[i], u.kids[i]) {
        if t.Node? { KidBlocks(t.kids, i); }
        SurvivesSince(z, a, b, n, d - 1, Kids(t, n)[i], u.kids[i]);
      }
    }
  }

  /** How many blocks a truncation has to add. */
  ghost function Need(t: Tree, n: nat, d: nat, count: int, offset: nat): nat
    decreases d, 1
  {
    if offset >= count then 0
    else (if t.Hole? then 1 else 0) + if d == 0 then 0 else NeedFrom(Kids(t, n), n, d - 1, count, offset, 0)
  }

  ghost function NeedFrom(ts: seq<Tree>, n: nat, d: nat, count: int, offset: nat, i: nat): nat
    decreases d, 2, |ts| - i
  {
    if i >= |ts| then 0
    else Need(ts[i], n, d, count, EntryOffset(n, d, offset, i)) + NeedFrom(ts, n, d, count, offset, i + 1)
  }

  lemma {:induction false} NeedNothing(ts: seq<Tree>, n: nat, d: nat, count: int, offset: nat, i: nat)
    requires offset >= count
    ensures NeedFrom(ts, n, d, count, offset, i) == 0
    decreases |ts| - i
  {
    if i < |ts| {
      assert EntryOffset(n, d, offset, i) >= offset;
      NeedNothing(ts, n, d, count, offset, i + 1);
    }
  }

  // ----- what the shape means for logical blocks --------------------------------------------------------

  /** The block that holds logical block `k` of a tree, 0 if none. */
  function LeafAt(t: Tree, n: nat, d: nat, k: nat): nat
    requires Formed(t, n, d) && k < Span(n, d)
    decreases d
  {
    if t.Hole? then 0
    else if d == 0 then t.block
    else
      EntryBound(n, d, k);
      LeafAt(t.kids[k / Span(n, d - 1)], n, d - 1, k % Span(n, d - 1))
  }

  lemma EntryBound(n: nat, d: nat, k: nat)
    requires d > 0 && k < Span(n, d)
    ensures Span(n, d - 1) > 0 && k / Span(n, d - 1) < n && k % Span(n, d - 1) < Span(n, d - 1)
    ensures k == k / Span(n, d - 1) * Span(n, d - 1) + k % Span(n, d - 1)
  {
    var s := Span(n, d - 1);
    PositiveFactor(n, s);
    DivBound(k, n, s);
  }

  lemma PositiveFactor(n: nat, s: nat)
    requires n * s > 0
    ensures s > 0
  {
  }

  lemma DivBound(k: nat, n: nat, s: nat)
    requires s > 0 && k < n * s
    ensures k / s < n && k % s < s && k == k / s * s + k % s
  {
    if k / s >= n {
      MulMono(n, k / s, s);
      assert false;
    }
  }

  lemma MulMono(a: nat, b: nat, s: nat)
    requires a <= b
    ensures a * s <= b * s
  {
  }

  /** A logical block has a leaf if and only if it is below the block count. */
  lemma {:induction false} LeafIff(t: Tree, n: nat, d: nat, count: int, offset: nat, k: nat)
    requires Formed(t, n, d) && Shaped(t, n, d, count, offset) && k < Span(n, d)
    ensures LeafAt(t, n, d, k) != 0 <==> offset + k < count
    decreases d
  {
    hide LeafAt, Span, Formed, Shaped;
    LeafBottom(t, n, d, count, offset, k);
    if t.Node? && d > 0 {
      EntryBound(n, d, k);
      var i := k / Span(n, d - 1);
      KidShaped(t, n, d, count, offset, i);
      LeafIff(t.kids[i], n, d - 1, count, EntryOffset(n, d - 1, offset, i), k % Span(n, d - 1));
    }
  }

  /** At a hole or a data block the answer is in the shape; elsewhere it is the one for a subtree. */
  lemma LeafBottom(t: Tree, n: nat, d: nat, count: int, offset: nat, k: nat)
    requires Formed(t, n, d) && Shaped(t, n, d, count, offset) && k < Span(n, d)
    ensures t.Hole? || d == 0 ==> (LeafAt(t, n, d, k) != 0 <==> offset + k < count)
    ensures t.Node? && d > 0 ==>
      && Span(n, d - 1) > 0 && k / Span(n, d - 1) < |t.kids|
      && Formed(t.kids[k / Span(n, d - 1)], n, d - 1) && k % Span(n, d - 1) < Span(n, d - 1)
      && LeafAt(t, n, d, k) == LeafAt(t.kids[k / Span(n, d - 1)], n, d - 1, k % Span(n, d - 1))
  {
    if t.Node? && d > 0 { EntryBound(n, d, k); }
  }

  lemma KidShaped(t: Tree, n: nat, d: nat, count: int, offset: nat, i: nat)
    requires Formed(t, n, d) && Shaped(t, n, d, count, offset) && t.Node? && d > 0 && i < n
    ensures i < |t.kids| && Formed(t.kids[i], n, d - 1)
    ensures Shaped(t.kids[i], n, d - 1, count, EntryOffset(n, d - 1, offset, i))
  {
  }

  /** A leaf that was there and still is, is the same block. */
  lemma {:induction false} LeafKept(a: Disk, b: Disk, n: nat, d: nat, t: Tree, u: Tree, k: nat)
    requires Formed(t, n, d) && Formed(u, n, d) && k < Span(n, d) && Survives(a, b, n, d, t, u)
    requires LeafAt(t, n, d, k) != 0 && LeafAt(u, n, d, k) != 0
    ensures LeafAt(t, n, d, k) == LeafAt(u, n, d, k)
    decreases d
  {
    if d > 0 {
      EntryBound(n, d, k);
      var i := k / Span(n, d - 1);
      LeafKept(a, b, n, d - 1, t.kids[i], u.kids[i], k % Span(n, d - 1));
    }
  }

  // ----- truncating one entry, and a table of entries ----------------------------------------------------

  /** Entry `e` roots tree `t` of depth `d`; the blocks in use are its own and those of `c`. */
  ghost predicate Entry(disk: Disk, used: set<nat>, c: set<nat>, e: nat, n: nat, d: nat, t: Tree) {
    && OnDisk(disk, e, d, t) && Formed(t, n, d) && Distinct(t)
    && used == c + Blocks(t) && c !! Blocks(t) && 0 in c
  }

  /** ... and it has become tree `u` on disk `b`, cut at `count`, leaving the blocks of `c` alone. */
  ghost predicate Cut(a: Disk, b: Disk, used: set<nat>, c: set<nat>, e: nat, n: nat, d: nat, t: Tree, u: Tree,
                      count: int, offset: nat)
  {
    Entry(b, used, c, e, n, d, u) && Shaped(u, n, d, count, offset) && Survives(a, b, n, d, t, u) && Agree(a, b, c)
  }

  /** A table whose first `i` entries have been truncated: trees `ts` have become `us`. */
  ghost predicate Row(a: Disk, b: Disk, used: set<nat>, c: set<nat>, row: seq<nat>, n: nat, d: nat, ts: seq<Tree>,
                      us: seq<Tree>, count: int, offset: nat, i: nat)
  {
    && |us| == |ts| && i <= |ts| && OnDiskAll(b, row, d, us) && Owns(used, c, us) && 0 in c && Agree(a, b, c)
    && (forall j :: 0 <= j < |us| ==> Formed(us[j], n, d))
    && (forall j :: 0 <= j < i ==>
         Shaped(us[j], n, d, count, EntryOffset(n, d, offset, j)) && Survives(a, b, n, d, ts[j], us[j]))
    && (forall j :: i <= j < |ts| ==> us[j] == ts[j] && Agree(a, b, Blocks(ts[j])))
  }

  lemma RowKid(a: Disk, b: Disk, used: set<nat>, c: set<nat>, row: seq<nat>, n: nat, d: nat, ts: seq<Tree>,
               us: seq<Tree>, count: int, offset: nat, i: nat)
    requires Row(a, b, used, c, row, n, d, ts, us, count, offset, i) && i < |ts|
    ensures |row| == |us| == |ts| && us[i] == ts[i]
    ensures Entry(b, used, used - Blocks(us[i]), row[i], n, d, us[i])
  {
    hide OnDisk, Formed, Distinct, Shaped, Survives, Agree;
    OwnsSplit(used, c, us, i);
  }

  lemma RowTurn(a: Disk, b: Disk, b': Disk, used: set<nat>, used': set<nat>, c: set<nat>, row: seq<nat>, e: nat,
                n: nat, d: nat, ts: seq<Tree>, us: seq<Tree>, u: Tree, count: int, offset: nat, i: nat)
    requires Row(a, b, used, c, row, n, d, ts, us, count, offset, i) && i < |ts|
    requires Cut(b, b', used', used - Blocks(us[i]), e, n, d, us[i], u, count, EntryOffset(n, d, offset, i))
    ensures |row| == |us| == |ts|
    ensures Row(a, b', used', c, row[i := e], n, d, ts, us[i := u], count, offset, i + 1)
    ensures CountAll(us[i := u]) == CountAll(us) - Count(us[i]) + Count(u)
  {
    hide OnDisk, Formed, Distinct, Shaped, Survives, Blocks, Count;
    var rest := used - Blocks(us[i]);
    OwnsSplit(used, c, us, i);
    OwnsJoin(used, used', c, us, i, u);
    CountUpdate(us, i, u);
    var vs := us[i := u];
    forall j | 0 <= j < |us| && j != i ensures OnDisk(b', row[j], d, us[j]) {
      OnDiskFrame(b, b', row[j], d, us[j]);
    }
    forall j | 0 <= j < i ensures Survives(a, b', n, d, ts[j], us[j]) {
      SurvivesFrame(a, b, b', n, d, ts[j], us[j]);
    }
    SurvivesSince(a, b, b', n, d, us[i], u);
    assert Agree(a, b', c);
    forall j | i < j < |ts| ensures Agree(a, b', Blocks(ts[j])) {
      assert Agree(a, b, Blocks(ts[j])) && Blocks(ts[j]) <= rest;
    }
  }

  lemma RowStarts(disk: Disk, used: set<nat>, c: set<nat>, row: seq<nat>, n: nat, d: nat, ts: seq<Tree>, count: int,
                  offset: nat)
    requires OnDiskAll(disk, row, d, ts) && Owns(used, c, ts) && 0 in c
    requires forall j :: 0 <= j < |ts| ==> Formed(ts[j], n, d)
    ensures Row(disk, disk, used, c, row, n, d, ts, ts, count, offset, 0)
  {
  }

  // ----- one index block --------------------------------------------------------------------------------

  lemma {:induction false} CountHoles(ts: seq<Tree>)
    requires forall i :: 0 <= i < |ts| ==> ts[i].Hole?
    ensures CountAll(ts) == 0 && BlocksAll(ts) == {} && DistinctAll(ts)
  {
    if ts != [] { CountHoles(ts[..|ts| - 1]); }
  }

  /** The table of an index block, seen from the block's entry. */
  lemma TableOf(disk: Disk, used: set<nat>, c: set<nat>, e: nat, n: nat, d: nat, t: Tree)
    requires Entry(disk, used, c, e, n, d, t) && t.Node? && d > 0
    ensures e == t.block && e in disk && |t.kids| == n && |disk[e]| == n && e !in c && e in used
    ensures OnDiskAll(disk, disk[e], d - 1, t.kids) && Owns(used, c + {e}, t.kids) && 0 in c + {e}
    ensures forall j :: 0 <= j < n ==> Formed(t.kids[j], n, d - 1)
  {
    assert OnDiskAll(disk, disk[e], d - 1, t.kids);
  }

  /** A fresh index block of zeros is a table of holes. */
  lemma FreshTable(a: Disk, used: set<nat>, c: set<nat>, e: nat, n: nat, d: nat)
    requires used == c + {e} && e !in c && e != 0 && 0 in c && d > 0
    ensures Entry(a[e := Zeros(n)], used, c, e, n, d, Node(e, Holes(n))) && Count(Node(e, Holes(n))) == 1
    ensures Agree(a, a[e := Zeros(n)], c)
  {
    CountHoles(Holes(n));
  }

  /** The truncated table, written back, is the index block of the truncated tree. */
  lemma TableBack(z: Disk, a: Disk, b: Disk, used: set<nat>, c: set<nat>, e: nat, row: seq<nat>, n: nat, d: nat,
                  t: Tree, us: seq<Tree>, count: int, offset: nat)
    requires d > 0 && e != 0 && e !in c && (t.Node? ==> e == t.block) && |Kids(t, n)| == n && e in b
    requires Row(a, b, used, c + {e}, row, n, d - 1, Kids(t, n), us, count, offset, n)
    requires forall i :: 0 <= i < n ==> Agree(z, a, Blocks(Kids(t, n)[i]))
    requires Agree(z, a, c) && 0 in c
    ensures var w := b[e := row];
      && Entry(w, used, c, e, n, d, Node(e, us)) && Agree(z, w, c) && Survives(z, w, n, d, t, Node(e, us))
      && ShapedAll(us, n, d - 1, count, offset)
  {
    hide Formed, Distinct, Shaped, Blocks, Count;
    var w := b[e := row];
    forall i | 0 <= i < n ensures OnDisk(w, row[i], d - 1, us[i]) && Survives(z, w, n, d - 1, Kids(t, n)[i], us[i]) {
      KidBlocks(us, i);
      OnDiskFrame(b, w, row[i], d - 1, us[i]);
      SurvivesFrame(a, b, w, n, d - 1, Kids(t, n)[i], us[i]);
      SurvivesSince(z, a, w, n, d - 1, Kids(t, n)[i], us[i]);
    }
    NodeEntry(w, used, c, e, row, n, d, us);
  }

  lemma NodeEntry(w: Disk, used: set<nat>, c: set<nat>, e: nat, row: seq<nat>, n: nat, d: nat, us: seq<Tree>)
    requires d > 0 && e != 0 && e !in c && 0 in c && |us| == n && |row| == n && e in w && w[e] == row
    requires Owns(used, c + {e}, us) && forall i :: 0 <= i < n ==> OnDisk(w, row[i], d - 1, us[i])
    requires forall i :: 0 <= i < n ==> Formed(us[i], n, d - 1)
    ensures Entry(w, used, c, e, n, d, Node(e, us))
  {
  }

  /** Past the block count every entry of the truncated table is a hole. */
  lemma AllHoles(us: seq<Tree>, n: nat, d: nat, count: int, offset: nat)
    requires ShapedAll(us, n, d, count, offset) && offset >= count
    ensures forall i :: 0 <= i < |us| ==> us[i].Hole?
  {
    forall i | 0 <= i < |us| ensures us[i].Hole? {
      assert EntryOffset(n, d, offset, i) >= offset;
    }
  }

  lemma RowLength(a: Disk, b: Disk, used: set<nat>, c: set<nat>, row: seq<nat>, n: nat, d: nat, ts: seq<Tree>,
                  us: seq<Tree>, count: int, offset: nat, i: nat)
    requires Row(a, b, used, c, row, n, d, ts, us, count, offset, i)
    ensures |row| == |us| == |ts|
  {
  }

  /** One more subtree that adds no more than it needs. */
  lemma NeedTurn(ts: seq<Tree>, us: seq<Tree>, n: nat, d: nat, count: int, offset: nat, i: nat)
    requires i < |ts| && i < |us|
    requires Count(us[i]) <= Count(ts[i]) + Need(ts[i], n, d, count, EntryOffset(n, d, offset, i))
    ensures CountAll(us[..i + 1]) - CountAll(us[..i]) + NeedFrom(ts, n, d, count, offset, i + 1)
         <= CountAll(ts[..i + 1]) - CountAll(ts[..i]) + NeedFrom(ts, n, d, count, offset, i)
  {
    hide Count, Need;
    assert us[..i + 1][..i] == us[..i] && ts[..i + 1][..i] == ts[..i];
  }

  lemma {:induction false} CutNeed(t: Tree, u: Tree, n: nat, d: nat, count: int, offset: nat)
    requires Formed(t, n, d) && Formed(u, n, d) && Shaped(u, n, d, count, offset)
    ensures Count(u) <= Count(t) + Need(t, n, d, count, offset)
    decreases d
  {
    if u.Node? && d > 0 {
      var ts, us := Kids(t, n), u.kids;
      var i := 0;
      while i < n
        invariant 0 <= i <= n
        invariant CountAll(us[..i]) + NeedFrom(ts, n, d - 1, count, offset, i) <=
          CountAll(ts[..i]) + NeedFrom(ts, n, d - 1, count, offset, 0)
      {
        CutNeed(ts[i], us[i], n, d - 1, count, EntryOffset(n, d - 1, offset, i));
        NeedTurn(ts, us, n, d - 1, count, offset, i);
        i := i + 1;
      }
      assert us[..n] == us && ts[..n] == ts;
      if t.Hole? { CountHoles(ts); }
    } else if u.Node? {
      CountHoles([]);
    }
  }

  lemma CutTrees(a: Disk, b: Disk, before: set<nat>, used: set<nat>, c: set<nat>, e': nat, e: nat, n: nat, d: nat,
                 t: Tree, u: Tree, count: int, offset: nat)
    requires Entry(a, before, c, e', n, d, t) && Cut(a, b, used, c, e, n, d, t, u, count, offset)
    ensures Count(u) <= Count(t) + Need(t, n, d, count, offset)
  {
    CutNeed(t, u, n, d, count, offset);
  }

  // ----- one data entry ---------------------------------------------------------------------------------

  lemma LeafNew(a: Disk, c: set<nat>, e: nat, n: nat, count: int, offset: nat)
    requires e !in c && e != 0 && 0 in c && offset < count
    ensures Cut(a, a[e := Zeros(n)], c + {e}, c, e, n, 0, Hole, Node(e, []), count, offset)
    ensures Count(Hole) == 0 && Count(Node(e, [])) == 1
  {
    CountHoles([]);
  }

  lemma LeafEntry(a: Disk, used: set<nat>, c: set<nat>, e: nat, n: nat, t: Tree)
    requires Entry(a, used, c, e, n, 0, t)
    ensures t.Hole? <==> e == 0
    ensures t.Hole? ==> used == c && Count(t) == 0
    ensures t.Node? ==> e == t.block && e in used && e != 0 && used - {e} == c && Count(t) == 1
    ensures 0 in c
  {
    CountHoles([]);
  }

  lemma LeafGone(a: Disk, used: set<nat>, c: set<nat>, e: nat, n: nat, t: Tree, count: int, offset: nat)
    requires Entry(a, used, c, e, n, 0, t) && offset >= count
    ensures Cut(a, a, c, c, 0, n, 0, t, Hole, count, offset) && Count(Hole) == 0
  {
  }

  lemma LeafStays(a: Disk, used: set<nat>, c: set<nat>, e: nat, n: nat, t: Tree, count: int, offset: nat)
    requires Entry(a, used, c, e, n, 0, t) && (t.Node? <==> offset < count)
    ensures Cut(a, a, used, c, e, n, 0, t, t, count, offset)
  {
  }

  lemma HoleEntry(a: Disk, used: set<nat>, c: set<nat>, e: nat, n: nat, d: nat, t: Tree)
    requires Entry(a, used, c, e, n, d, t)
    ensures (t.Hole? <==> e == 0) && (t.Hole? ==> used == c && Count(t) == 0) && 0 in c
  {
  }

  lemma NodeCount(e: nat, kids: seq<Tree>)
    ensures Count(Node(e, kids)) == 1 + CountAll(kids) && Count(Hole) == 0
  {
  }

  /** Opening a hole changes no block of the subtrees (there are none). */
  lemma KidsAgree(z: Disk, a: Disk, c: set<nat>, e: nat, n: nat, d: nat, t: Tree, u: Tree)
    requires d > 0 && u.Node? && |u.kids| == n && u.kids == Kids(t, n) && (if t.Hole? then Agree(z, a, c) else z == a)
    ensures Agree(z, a, c) && forall i :: 0 <= i < n ==> Agree(z, a, Blocks(Kids(t, n)[i]))
  {
  }

  lemma RowUsed(a: Disk, b: Disk, used: set<nat>, c: set<nat>, row: seq<nat>, n: nat, d: nat, ts: seq<Tree>,
                us: seq<Tree>, count: int, offset: nat, i: nat)
    requires Row(a, b, used, c, row, n, d, ts, us, count, offset, i)
    ensures c <= used && |row| == |us| == |ts|
  {
  }

  lemma CutNode(z: Disk, w: Disk, used: set<nat>, c: set<nat>, e: nat, n: nat, d: nat, t: Tree, us: seq<Tree>,
                count: int, offset: nat)
    requires d > 0 && Entry(w, used, c, e, n, d, Node(e, us)) && Survives(z, w, n, d, t, Node(e, us)) && Agree(z, w, c)
    requires ShapedAll(us, n, d - 1, count, offset) && |us| == n && offset < count
    ensures Cut(z, w, used, c, e, n, d, t, Node(e, us), count, offset)
  {
  }

  lemma CutGone(z: Disk, w: Disk, c: set<nat>, n: nat, d: nat, t: Tree, count: int, offset: nat)
    requires Agree(z, w, c) && 0 in c && offset >= count
    ensures Cut(z, w, c, c, 0, n, d, t, Hole, count, offset) && Count(Hole) == 0
  {
  }

  /** An index block past the block count is the only block left of its tree. */
  lemma EmptyTable(w: Disk, used: set<nat>, c: set<nat>, e: nat, n: nat, d: nat, us: seq<Tree>, count: int, offset: nat)
    requires d > 0 && Entry(w, used, c, e, n, d, Node(e, us))
    requires ShapedAll(us, n, d - 1, count, offset) && offset >= count
    ensures used - {e} == c && e in used && CountAll(us) == 0
  {
    AllHoles(us, n, d - 1, count, offset);
    CountHoles(us);
  }

  // ----- the fifteen entries of an inode ------------------------------------------------------------------

  const DIRECT: nat := 12
  const ENTRIES: nat := 15

  function Depth(i: nat): nat { if i < DIRECT then 0 else i - DIRECT + 1 }

  /** The first logical block under entry `i` of an inode. */
  function FileOffset(n: nat, i: nat): nat {
    if i <= DIRECT then i else if i == 13 then DIRECT + n else DIRECT + n + n * n
  }

  /** An inode whose first `i` entries have been truncated: trees `ts` have become `us`. */
  ghost predicate FileAt(a: Disk, b: Disk, used: set<nat>, c: set<nat>, row: seq<nat>, n: nat, ts: seq<Tree>,
                         us: seq<Tree>, count: int, i: nat)
  {
    && |row| == |us| == |ts| == ENTRIES && i <= ENTRIES && Owns(used, c, us) && 0 in c && Agree(a, b, c)
    && (forall j :: 0 <= j < ENTRIES ==> OnDisk(b, row[j], Depth(j), us[j]) && Formed(us[j], n, Depth(j)))
    && (forall j :: 0 <= j < i ==>
         Shaped(us[j], n, Depth(j), count, FileOffset(n, j)) && Survives(a, b, n, Depth(j), ts[j], us[j]))
    && (forall j :: i <= j < ENTRIES ==> us[j] == ts[j] && Agree(a, b, Blocks(ts[j])))
  }

  lemma FileKid(a: Disk, b: Disk, used: set<nat>, c: set<nat>, row: seq<nat>, n: nat, ts: seq<Tree>, us: seq<Tree>,
                count: int, i: nat)
    requires FileAt(a, b, used, c, row, n, ts, us, count, i) && i < ENTRIES
    ensures |row| == |us| == |ts| == ENTRIES && us[i] == ts[i]
    ensures Entry(b, used, used - Blocks(us[i]), row[i], n, Depth(i), us[i])
  {
    hide OnDisk, Formed, Distinct, Shaped, Survives, Agree;
    OwnsSplit(used, c, us, i);
  }

  lemma FileTurn(a: Disk, b: Disk, b': Disk, used: set<nat>, used': set<nat>, c: set<nat>, row: seq<nat>, e: nat,
                 n: nat, ts: seq<Tree>, us: seq<Tree>, u: Tree, count: int, i: nat)
    requires FileAt(a, b, used, c, row, n, ts, us, count, i) && i < ENTRIES
    requires Cut(b, b', used', used - Blocks(us[i]), e, n, Depth(i), us[i], u, count, FileOffset(n, i))
    ensures |row| == |us| == |ts| == ENTRIES
    ensures FileAt(a, b', used', c, row[i := e], n, ts, us[i := u], count, i + 1)
    ensures CountAll(us[i := u]) == CountAll(us) - Count(us[i]) + Count(u)
  {
    hide OnDisk, Formed, Distinct, Shaped, Survives, Blocks, Count, Depth, FileOffset;
    var rest := used - Blocks(us[i]);
    OwnsSplit(used, c, us, i);
    OwnsJoin(used, used', c, us, i, u);
    CountUpdate(us, i, u);
    forall j | 0 <= j < |us| && j != i ensures OnDisk(b', row[j], Depth(j), us[j]) {
      OnDiskFrame(b, b', row[j], Depth(j), us[j]);
    }
    forall j | 0 <= j < i ensures Survives(a, b', n, Depth(j), ts[j], us[j]) {
      SurvivesFrame(a, b, b', n, Depth(j), ts[j], us[j]);
    }
    SurvivesSince(a, b, b', n, Depth(i), us[i], u);
    forall j | i < j < |ts| ensures Agree(a, b', Blocks(ts[j])) {
      assert Agree(a, b, Blocks(ts[j])) && Blocks(ts[j]) <= rest;
    }
  }

  /** A block of some trees is a block of one of them. */
  lemma BlockOf(ts: seq<Tree>, b: nat) returns (i: nat)
    requires b in BlocksAll(ts)
    ensures i < |ts| && b in Blocks(ts[i])
  {
    i :| 0 <= i < |ts| && b in Blocks(ts[i]);
  }

  lemma BlockIn(ts: seq<Tree>, b: nat, i: nat)
    requires i < |ts| && b in Blocks(ts[i])
    ensures b in BlocksAll(ts)
  {
  }

  lemma BlocksFront(ts: seq<Tree>, m: nat)
    requires m <= |ts|
    ensures BlocksAll(ts) == BlocksAll(ts[..m]) + BlocksAll(ts[m..])
  {
    hide Blocks, BlocksAll;
    var front, back := ts[..m], ts[m..];
    forall b | b in BlocksAll(ts) ensures b in BlocksAll(front) || b in BlocksAll(back) {
      var i := BlockOf(ts, b);
      if i < m { BlockIn(front, b, i); } else { BlockIn(back, b, i - m); }
    }
    forall b | b in BlocksAll(front) ensures b in BlocksAll(ts) {
      var i := BlockOf(front, b);
      BlockIn(ts, b, i);
    }
    forall b | b in BlocksAll(back) ensures b in BlocksAll(ts) {
      var i := BlockOf(back, b);
      BlockIn(ts, b, m + i);
    }
  }

  lemma DistinctFront(ts: seq<Tree>, m: nat)
    requires m <= |ts| && DistinctAll(ts)
    ensures BlocksAll(ts[..m]) !! BlocksAll(ts[m..]) && DistinctAll(ts[..m]) && DistinctAll(ts[m..])
  {
    hide Blocks, BlocksAll, Distinct;
    var front, back := ts[..m], ts[m..];
    forall b | b in BlocksAll(front) ensures b !in BlocksAll(back) {
      var i := BlockOf(front, b);
      forall j | 0 <= j < |back| ensures b !in Blocks(back[j]) { assert Blocks(ts[i]) !! Blocks(ts[m + j]); }
      NoBlock(back, b);
    }
  }

  lemma NoBlock(ts: seq<Tree>, b: nat)
    requires forall j :: 0 <= j < |ts| ==> b !in Blocks(ts[j])
    ensures b !in BlocksAll(ts)
  {
    hide Blocks;
  }

  lemma OwnsFront(used: set<nat>, c: set<nat>, ts: seq<Tree>, m: nat)
    requires m <= |ts| && DistinctAll(ts)
    ensures BlocksAll(ts) == BlocksAll(ts[..m]) + BlocksAll(ts[m..]) && BlocksAll(ts[..m]) !! BlocksAll(ts[m..])
    ensures Owns(used, c, ts) ==> Owns(used, c + BlocksAll(ts[m..]), ts[..m])
    ensures DistinctAll(ts[m..])
  {
    hide BlocksAll, DistinctAll;
    BlocksFront(ts, m);
    DistinctFront(ts, m);
  }

  lemma OwnsBack(used: set<nat>, c: set<nat>, front: seq<Tree>, back: seq<Tree>)
    requires Owns(used, c + BlocksAll(back), front) && DistinctAll(back) && c !! BlocksAll(back)
    ensures Owns(used, c, front + back)
  {
    var ts, m := front + back, |front|;
    forall i | 0 <= i < |front| ensures Blocks(front[i]) !! BlocksAll(back) { KidBlocks(front, i); }
    forall j | 0 <= j < |back| ensures Blocks(back[j]) <= BlocksAll(back) { KidBlocks(back, j); }
    assert DistinctAll(ts);
    OwnsFront(used, c, ts, m);
    assert ts[..m] == front && ts[m..] == back;
  }

  /** The direct entries of an inode, as a table of their own. */
  lemma DirectRow(disk: Disk, used: set<nat>, c: set<nat>, row: seq<nat>, n: nat, ts: seq<Tree>, count: int)
    requires FileAt(disk, disk, used, c, row, n, ts, ts, count, 0)
    ensures var rest := c + BlocksAll(ts[DIRECT..]);
      Row(disk, disk, used, rest, row[..DIRECT], n, 0, ts[..DIRECT], ts[..DIRECT], count, 0, 0)
  {
    OwnsFront(used, c, ts, DIRECT);
  }

  lemma DirectDone(a: Disk, b: Disk, used: set<nat>, used': set<nat>, c: set<nat>, row: seq<nat>, direct: seq<nat>,
                   n: nat, ts: seq<Tree>, us: seq<Tree>, count: int)
    requires FileAt(a, a, used, c, row, n, ts, ts, count, 0)
    requires Row(a, b, used', c + BlocksAll(ts[DIRECT..]), direct, n, 0, ts[..DIRECT], us, count, 0, DIRECT)
    ensures FileAt(a, b, used', c, direct + row[DIRECT..], n, ts, us + ts[DIRECT..], count, DIRECT)
    ensures CountAll(us + ts[DIRECT..]) - CountAll(us) == CountAll(ts) - CountAll(ts[..DIRECT])
  {
    DirectFile(a, b, used, used', c, row, direct, n, ts, us, count);
    hide Row, FileAt, CountAll;
    CountConcat(us, ts[DIRECT..]);
    CountConcat(ts[..DIRECT], ts[DIRECT..]);
    assert ts[..DIRECT] + ts[DIRECT..] == ts;
  }

  lemma DirectFile(a: Disk, b: Disk, used: set<nat>, used': set<nat>, c: set<nat>, row: seq<nat>, direct: seq<nat>,
                   n: nat, ts: seq<Tree>, us: seq<Tree>, count: int)
    requires FileAt(a, a, used, c, row, n, ts, ts, count, 0)
    requires Row(a, b, used', c + BlocksAll(ts[DIRECT..]), direct, n, 0, ts[..DIRECT], us, count, 0, DIRECT)
    ensures FileAt(a, b, used', c, direct + row[DIRECT..], n, ts, us + ts[DIRECT..], count, DIRECT)
  {
    hide Formed, Distinct, Shaped, Survives, Blocks, Count;
    var back := ts[DIRECT..];
    OwnsFront(used, c, ts, DIRECT);
    assert DistinctAll(back);
    OwnsBack(used', c, us, back);
    forall j | DIRECT <= j < ENTRIES ensures Agree(a, b, Blocks(ts[j])) && OnDisk(b, row[j], Depth(j), ts[j]) {
      KidBlocks(back, j - DIRECT);
      OnDiskFrame(a, b, row[j], Depth(j), ts[j]);
    }
    forall j | 0 <= j < DIRECT ensures EntryOffset(n, 0, 0, j) == FileOffset(n, j) {}
  }

  lemma {:induction false} CountConcat(s: seq<Tree>, t: seq<Tree>)
    ensures CountAll(s + t) == CountAll(s) + CountAll(t)
  {
    if t == [] {
      assert s + t == s;
    } else {
      var n := |t| - 1;
      CountConcat(s, t[..n]);
      assert (s + t)[..|s| + n] == s + t[..n];
    }
  }

  /** The entry of an inode that covers logical block `k`. */
  function EntryOf(n: nat, k: nat): nat {
    if k < DIRECT then k else if k < DIRECT + n then 12 else if k < DIRECT + n + n * n then 13 else 14
  }

  /** How many logical blocks an inode can address. */
  function Capacity(n: nat): nat { DIRECT + n + n * n + n * (n * n) }

  lemma EntryCovers(n: nat, k: nat)
    requires k < Capacity(n)
    ensures var i := EntryOf(n, k); i < ENTRIES && FileOffset(n, i) <= k && k - FileOffset(n, i) < Span(n, Depth(i))
  {
    assert Span(n, 1) == n * Span(n, 0) == n;
    assert Span(n, 2) == n * Span(n, 1) == n * n;
    assert Span(n, 3) == n * Span(n, 2) == n * (n * n);
  }

  /** The block that holds logical block `k` of a file, 0 if none. */
  function FileBlock(ts: seq<Tree>, n: nat, k: nat): nat
    requires |ts| == ENTRIES && k < Capacity(n) && forall j :: 0 <= j < ENTRIES ==> Formed(ts[j], n, Depth(j))
  {
    EntryCovers(n, k);
    var i := EntryOf(n, k);
    LeafAt(ts[i], n, Depth(i), k - FileOffset(n, i))
  }

  lemma SmallCapacity(n: nat)
    ensures DIRECT + n + n * n <= Capacity(n)
  {
  }

  /** After a truncation: a logical block has a data block if and only if it is below the block count,
      one that had a data block and still has keeps it, and no block is referenced twice. */
  lemma TruncatedFile(a: Disk, b: Disk, used: set<nat>, c: set<nat>, row: seq<nat>, n: nat, ts: seq<Tree>,
                      us: seq<Tree>, count: int, k: nat)
    requires FileAt(a, b, used, c, row, n, ts, us, count, ENTRIES) && k < Capacity(n)
    requires forall j :: 0 <= j < ENTRIES ==> Formed(ts[j], n, Depth(j))
    ensures FileBlock(us, n, k) != 0 <==> k < count
    ensures FileBlock(ts, n, k) != 0 && k < count ==> FileBlock(us, n, k) == FileBlock(ts, n, k)
    ensures DistinctAll(us) && c !! BlocksAll(us)
  {
    hide Survives, Shaped, OnDisk, Blocks;
    EntryCovers(n, k);
    var i := EntryOf(n, k);
    var o := FileOffset(n, i);
    LeafIff(us[i], n, Depth(i), count, o, k - o);
    if FileBlock(ts, n, k) != 0 && k < count { LeafKept(a, b, n, Depth(i), ts[i], us[i], k - o); }
  }

  lemma FileLength(disk: Disk, used: set<nat>, c: set<nat>, row: seq<nat>, n: nat, ts: seq<Tree>, count: int)
    requires FileAt(disk, disk, used, c, row, n, ts, ts, count, 0)
    ensures |row| == |ts| == ENTRIES
  {
  }

  lemma FileForms(disk: Disk, used: set<nat>, c: set<nat>, row: seq<nat>, n: nat, ts: seq<Tree>, count: int)
    requires FileAt(disk, disk, used, c, row, n, ts, ts, count, 0)
    ensures |ts| == ENTRIES && forall j :: 0 <= j < DIRECT ==> Formed(ts[j], n, 0)
  {
    forall j | 0 <= j < DIRECT ensures Formed(ts[j], n, 0) { assert Formed(ts[j], n, Depth(j)); }
  }

  /** The direct entries add no more blocks than they need. */
  lemma DirectNeed(a: Disk, b: Disk, used: set<nat>, c: set<nat>, row: seq<nat>, n: nat, ts: seq<Tree>, us: seq<Tree>,
                   count: int)
    requires Row(a, b, used, c, row, n, 0, ts, us, count, 0, |ts|) && forall j :: 0 <= j < |ts| ==> Formed(ts[j], n, 0)
    ensures CountAll(us) <= CountAll(ts) + NeedFrom(ts, n, 0, count, 0, 0)
  {
    var i := 0;
    while i < |ts|
      invariant 0 <= i <= |ts|
      invariant
        CountAll(us[..i]) + NeedFrom(ts, n, 0, count, 0, i) <= CountAll(ts[..i]) + NeedFrom(ts, n, 0, count, 0, 0)
    {
      CutNeed(ts[i], us[i], n, 0, count, EntryOffset(n, 0, 0, i));
      assert us[..i + 1][..i] == us[..i] && ts[..i + 1][..i] == ts[..i];
      i := i + 1;
    }
    assert us[..|ts|] == us && ts[..|ts|] == ts;
  }

  lemma SpanOne(n: nat)
    ensures Span(n, 1) == n
  {
    assert Span(n, 1) == n * Span(n, 0);
  }

  lemma LeafStep(t: Tree, n: nat, d: nat, k: nat)
    requires Formed(t, n, d) && k < Span(n, d) && d > 0
    ensures Span(n, d - 1) > 0 && k / Span(n, d - 1) < n && k % Span(n, d - 1) < Span(n, d - 1)
    ensures LeafAt(t, n, d, k) ==
      if t.Hole? then 0 else LeafAt(t.kids[k / Span(n, d - 1)], n, d - 1, k % Span(n, d - 1))
  {
    EntryBound(n, d, k);
  }

  // ----- freeing a whole tree -----------------------------------------------------------------------------

  /** The first `i` trees have been freed. */
  function Emptied(ts: seq<Tree>, i: nat): seq<Tree> {
    seq(|ts|, j requires 0 <= j < |ts| => if j < i then Hole else ts[j])
  }

  /** One more tree is freed. */
  lemma EmptiedTurn(used: set<nat>, c: set<nat>, ts: seq<Tree>, i: nat)
    requires i < |ts| && Owns(used, c, Emptied(ts, i))
    ensures Owns(used - Blocks(ts[i]), c, Emptied(ts, i + 1))
    ensures CountAll(Emptied(ts, i + 1)) == CountAll(Emptied(ts, i)) - Count(ts[i])
    ensures var rest := used - Blocks(ts[i]);
      used == rest + Blocks(ts[i]) && rest !! Blocks(ts[i]) && Distinct(ts[i]) && c <= rest
  {
    var us := Emptied(ts, i);
    assert us[i] == ts[i] && us[i := Hole] == Emptied(ts, i + 1);
    OwnsSplit(used, c, us, i);
    OwnsJoin(used, used - Blocks(us[i]), c, us, i, Hole);
    CountUpdate(us, i, Hole);
  }

  lemma EmptiedEnds(used: set<nat>, c: set<nat>, ts: seq<Tree>)
    requires Owns(used, c, Emptied(ts, |ts|))
    ensures used == c && CountAll(Emptied(ts, |ts|)) == 0
  {
    CountHoles(Emptied(ts, |ts|));
  }

  lemma EmptiedStarts(ts: seq<Tree>)
    ensures Emptied(ts, 0) == ts
  {
  }
}
