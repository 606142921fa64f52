/** Finding the block of a logical block, and adding it where it is missing. */
module BlockLookup {

  import opened BlockTree

  // ----- adding one logical block -----------------------------------------------------------------------

  /** In `u` every logical block but `k` is where it is in `t`. */
  ghost predicate Added(t: Tree, u: Tree, n: nat, d: nat, k: nat) {
    && Formed(t, n, d) && Formed(u, n, d) && k < Span(n, d)
    && forall j: nat :: j < Span(n, d) && j != k ==> LeafAt(u, n, d, j) == LeafAt(t, n, d, j)
  }

  lemma AddedSame(t: Tree, n: nat, d: nat, k: nat)
    requires Formed(t, n, d) && k < Span(n, d)
    ensures Added(t, t, n, d, k)
  {
  }

  /** What is added under one entry of an index block is added under the block. */
  lemma AddedUp(t: Tree, n: nat, d: nat, k: nat, v: Tree)
    requires d > 0 && t.Node? && Formed(t, n, d) && k < Span(n, d)
    requires Span(n, d - 1) > 0 && k / Span(n, d - 1) < n
    requires Added(t.kids[k / Span(n, d - 1)], v, n, d - 1, k % Span(n, d - 1))
    ensures var u := Node(t.block, t.kids[k / Span(n, d - 1) := v]);
      Added(t, u, n, d, k) && LeafAt(u, n, d, k) == LeafAt(v, n, d - 1, k % Span(n, d - 1))
  {
    var s := Span(n, d - 1);
    var i := k / s;
    var u := Node(t.block, t.kids[i := v]);
    FormedWith(t, n, d, i, v);
    hide LeafAt, Formed, Span;
    LeafStep(u, n, d, k);
    forall j: nat | j < Span(n, d) && j != k ensures LeafAt(u, n, d, j) == LeafAt(t, n, d, j) {
      if j / s == i { SameDigits(j, k, s); }
      AddedAt(t, n, d, i, k % s, v, j);
    }
  }

  lemma AddedAt(t: Tree, n: nat, d: nat, i: nat, r: nat, v: Tree, j: nat)
    requires d > 0 && t.Node? && Formed(t, n, d) && i < n && Added(t.kids[i], v, n, d - 1, r) && j < Span(n, d)
    requires Span(n, d - 1) > 0 && (j / Span(n, d - 1) == i ==> j % Span(n, d - 1) != r)
    requires Formed(Node(t.block, t.kids[i := v]), n, d)
    ensures LeafAt(Node(t.block, t.kids[i := v]), n, d, j) == LeafAt(t, n, d, j)
  {
    hide LeafAt, Span;
    LeafStep(t, n, d, j);
    LeafStep(Node(t.block, t.kids[i := v]), n, d, j);
  }

  lemma FormedWith(t: Tree, n: nat, d: nat, i: nat, v: Tree)
    requires d > 0 && t.Node? && Formed(t, n, d) && i < n && Formed(v, n, d - 1)
    ensures Formed(Node(t.block, t.kids[i := v]), n, d)
  {
  }

  lemma SameDigits(j: nat, k: nat, s: nat)
    requires s > 0 && j / s == k / s && j != k
    ensures j % s != k % s
  {
    assert j == j / s * s + j % s && k == k / s * s + k % s;
  }

  // ----- one entry of an index block changes ------------------------------------------------------------

  /** The tree under entry `i` of the index block at `e` has become `v`, rooted at `x`. */
  lemma KidPlanted(a: Disk, w: Disk, used: set<nat>, used': set<nat>, c: set<nat>, e: nat, n: nat, d: nat, t: Tree,
                   i: nat, x: nat, v: Tree)
    requires d > 0 && Entry(a, used, c, e, n, d, t) && t.Node? && i < n && |t.kids| == n && e in a && |a[e]| == n
    requires Entry(w, used', used - Blocks(t.kids[i]), x, n, d - 1, v)
    requires e in w && w[e] == a[e][i := x] && Agree(a, w, used - Blocks(t.kids[i]) - {e})
    ensures Entry(w, used', c, e, n, d, Node(e, t.kids[i := v])) && Agree(a, w, c)
  {
    hide OnDisk, Formed, Distinct, Blocks;
    TableOf(a, used, c, e, n, d, t);
    OwnsSplit(used, c + {e}, t.kids, i);
    OwnsJoin(used, used', c + {e}, t.kids, i, v);
    forall j | 0 <= j < n && j != i ensures OnDisk(w, w[e][j], d - 1, t.kids[j]) {
      KidBlocks(t.kids, j);
      OnDiskFrame(a, w, a[e][j], d - 1, t.kids[j]);
    }
    NodeEntry(w, used', c, e, w[e], n, d, t.kids[i := v]);
  }

  lemma KidEntry(a: Disk, used: set<nat>, c: set<nat>, e: nat, n: nat, d: nat, t: Tree, i: nat)
    requires d > 0 && Entry(a, used, c, e, n, d, t) && t.Node? && i < n
    ensures e == t.block && e in a && |t.kids| == n && |a[e]| == n && e in used && e !in c
    ensures Entry(a, used, used - Blocks(t.kids[i]), a[e][i], n, d - 1, t.kids[i]) && e in used - Blocks(t.kids[i])
  {
    hide OnDisk, Formed, Distinct, Blocks;
    TableOf(a, used, c, e, n, d, t);
    OwnsSplit(used, c + {e}, t.kids, i);
  }

  /** A data block taken for a hole. */
  lemma LeafTaken(w: Disk, c: set<nat>, b: nat, n: nat)
    requires 0 in c && b !in c && b in w
    ensures Entry(w, c + {b}, c, b, n, 0, Node(b, []))
    ensures Formed(Hole, n, 0) && Span(n, 0) == 1 && Added(Hole, Node(b, []), n, 0, 0)
    ensures LeafAt(Node(b, []), n, 0, 0) == b
  {
    CountHoles([]);
  }

  /** An index block taken for a hole, if it holds zeros. */
  lemma IndexTaken(w: Disk, c: set<nat>, b: nat, n: nat, d: nat)
    requires 0 in c && b !in c && d > 0 && b in w && w[b] == Zeros(n)
    ensures Entry(w, c + {b}, c, b, n, d, Node(b, Holes(n)))
  {
    FreshTable(w, c + {b}, c, b, n, d);
    assert w[b := Zeros(n)] == w;
  }

  lemma {:induction false} HolesFound(b: nat, n: nat, d: nat, k: nat)
    requires b != 0 && d > 0 && k < Span(n, d)
    ensures Formed(Node(b, Holes(n)), n, d) && LeafAt(Node(b, Holes(n)), n, d, k) == 0
  {
    EntryBound(n, d, k);
  }

  lemma HoleAdded(u: Tree, b: nat, n: nat, d: nat, k: nat)
    requires b != 0 && d > 0 && Added(Node(b, Holes(n)), u, n, d, k)
    ensures Added(Hole, u, n, d, k)
  {
    hide LeafAt, Formed;
    assert Formed(Hole, n, d) by { HoleFormed(n, d, k); }
    forall j: nat | j < Span(n, d) && j != k ensures LeafAt(u, n, d, j) == LeafAt(Hole, n, d, j) {
      HolesFound(b, n, d, j);
      HoleFormed(n, d, j);
    }
  }

  lemma HoleFormed(n: nat, d: nat, k: nat)
    requires k < Span(n, d)
    ensures Formed(Hole, n, d) && LeafAt(Hole, n, d, k) == 0
  {
  }

  lemma HoleTaken(w: Disk, c: set<nat>, n: nat, d: nat)
    requires 0 in c
    ensures Entry(w, c, c, 0, n, d, Hole)
  {
  }

  /** What an entry says about the tree under it. */
  lemma EntryIs(a: Disk, used: set<nat>, c: set<nat>, e: nat, n: nat, d: nat, t: Tree, k: nat)
    requires Entry(a, used, c, e, n, d, t) && k < Span(n, d)
    ensures Formed(t, n, d) && (t.Hole? <==> e == 0) && 0 in c && (t.Hole? ==> used == c)
    ensures LeafAt(t, n, d, k) == 0 <==> Missing(t, n, d, k) > 0
    ensures t.Hole? ==> LeafAt(t, n, d, k) == 0
    ensures d == 0 ==> LeafAt(t, n, d, k) == e
  {
    MissingIff(t, n, d, k);
  }

  lemma EntryHole(a: Disk, used: set<nat>, c: set<nat>, e: nat, n: nat, d: nat, t: Tree)
    requires Entry(a, used, c, e, n, d, t)
    ensures (t.Hole? <==> e == 0) && 0 in c && (t.Hole? ==> used == c)
  {
  }

  /** Where a tree with an index block has logical block `k`. */
  lemma KidIs(t: Tree, n: nat, d: nat, k: nat)
    requires Formed(t, n, d) && t.Node? && d > 0 && k < Span(n, d)
    ensures var s := Span(n, d - 1);
      && s > 0 && k / s < n && k % s < s && |t.kids| == n && Formed(t.kids[k / s], n, d - 1)
      && LeafAt(t, n, d, k) == LeafAt(t.kids[k / s], n, d - 1, k % s)
      && Missing(t, n, d, k) == Missing(t.kids[k / s], n, d - 1, k % s)
  {
    EntryBound(n, d, k);
  }

  lemma {:induction false} MissingMost(t: Tree, n: nat, d: nat, k: nat)
    requires Formed(t, n, d) && k < Span(n, d)
    ensures Missing(t, n, d, k) <= if t.Hole? then d + 1 else d
    decreases d
  {
    if t.Node? && d > 0 {
      EntryBound(n, d, k);
      MissingMost(t.kids[k / Span(n, d - 1)], n, d - 1, k % Span(n, d - 1));
    }
  }

  lemma HoleMissing(n: nat, d: nat, k: nat)
    requires k < Span(n, d)
    ensures Formed(Hole, n, d) && Missing(Hole, n, d, k) == d + 1 && LeafAt(Hole, n, d, k) == 0
  {
  }

  lemma HolesMissing(b: nat, n: nat, d: nat, k: nat)
    requires b != 0 && d > 0 && k < Span(n, d)
    ensures Formed(Node(b, Holes(n)), n, d) && Missing(Node(b, Holes(n)), n, d, k) == d
    ensures LeafAt(Node(b, Holes(n)), n, d, k) == 0
  {
    EntryBound(n, d, k);
  }

  lemma EntryFrame(a: Disk, w: Disk, used: set<nat>, c: set<nat>, e: nat, n: nat, d: nat, t: Tree)
    requires Entry(a, used, c, e, n, d, t) && Agree(a, w, Blocks(t))
    ensures Entry(w, used, c, e, n, d, t)
  {
    OnDiskFrame(a, w, e, d, t);
  }

  /** How many blocks have to be taken to add logical block `k`. */
  function Missing(t: Tree, n: nat, d: nat, k: nat): nat
    requires Formed(t, n, d) && k < Span(n, d)
    decreases d
  {
    if t.Hole? then d + 1
    else if d == 0 then 0
    else
      EntryBound(n, d, k);
      Missing(t.kids[k / Span(n, d - 1)], n, d - 1, k % Span(n, d - 1))
  }

  lemma {:induction false} MissingIff(t: Tree, n: nat, d: nat, k: nat)
    requires Formed(t, n, d) && k < Span(n, d)
    ensures LeafAt(t, n, d, k) == 0 <==> Missing(t, n, d, k) > 0
    decreases d
  {
    if t.Node? && d > 0 {
      EntryBound(n, d, k);
      MissingIff(t.kids[k / Span(n, d - 1)], n, d - 1, k % Span(n, d - 1));
    }
  }

  // ----- the entries of an inode ------------------------------------------------------------------------

  /** The inode's entries root the trees `ts`; the blocks in use are theirs and those of `c`. */
  ghost predicate File(disk: Disk, used: set<nat>, c: set<nat>, row: seq<nat>, n: nat, ts: seq<Tree>) {
    && |row| == |ts| == ENTRIES && Owns(used, c, ts) && 0 in c
    && forall j :: 0 <= j < ENTRIES ==> OnDisk(disk, row[j], Depth(j), ts[j]) && Formed(ts[j], n, Depth(j))
  }

  lemma FileEntry(disk: Disk, used: set<nat>, c: set<nat>, row: seq<nat>, n: nat, ts: seq<Tree>, i: nat)
    requires File(disk, used, c, row, n, ts) && i < ENTRIES
    ensures |row| == |ts| == ENTRIES && Entry(disk, used, used - Blocks(ts[i]), row[i], n, Depth(i), ts[i])
  {
    hide OnDisk, Formed, Distinct;
    OwnsSplit(used, c, ts, i);
  }

  lemma FilePlanted(a: Disk, w: Disk, used: set<nat>, used': set<nat>, c: set<nat>, row: seq<nat>, n: nat,
                    ts: seq<Tree>, i: nat, x: nat, v: Tree)
    requires File(a, used, c, row, n, ts) && i < ENTRIES
    requires Entry(w, used', used - Blocks(ts[i]), x, n, Depth(i), v) && Agree(a, w, used - Blocks(ts[i]))
    ensures File(w, used', c, row[i := x], n, ts[i := v]) && Agree(a, w, c)
  {
    hide OnDisk, Formed, Distinct, Blocks, Depth;
    OwnsSplit(used, c, ts, i);
    OwnsJoin(used, used', c, ts, i, v);
    forall j | 0 <= j < ENTRIES && j != i ensures OnDisk(w, row[j], Depth(j), ts[j]) {
      OnDiskFrame(a, w, row[j], Depth(j), ts[j]);
    }
  }

  /** In `us` every logical block but `k` is where it is in `ts`. */
  ghost predicate FileAdded(ts: seq<Tree>, us: seq<Tree>, n: nat, k: nat) {
    && |ts| == |us| == ENTRIES && k < Capacity(n)
    && (forall j :: 0 <= j < ENTRIES ==> Formed(ts[j], n, Depth(j)) && Formed(us[j], n, Depth(j)))
    && forall j: nat :: j < Capacity(n) && j != k ==> FileBlock(us, n, j) == FileBlock(ts, n, j)
  }

  lemma FileAddedAt(ts: seq<Tree>, n: nat, k: nat, v: Tree)
    requires |ts| == ENTRIES && k < Capacity(n) && forall j :: 0 <= j < ENTRIES ==> Formed(ts[j], n, Depth(j))
    requires var i := EntryOf(n, k); k >= FileOffset(n, i) && Added(ts[i], v, n, Depth(i), k - FileOffset(n, i))
    ensures var i := EntryOf(n, k);
      FileAdded(ts, ts[i := v], n, k) && FileBlock(ts[i := v], n, k) == LeafAt(v, n, Depth(i), k - FileOffset(n, i))
  {
    hide LeafAt, Formed, Span, Depth, FileOffset, EntryOf, Capacity;
    var i := EntryOf(n, k);
    EntryCovers(n, k);
    forall j: nat | j < Capacity(n) && j != k ensures FileBlock(ts[i := v], n, j) == FileBlock(ts, n, j) {
      EntryCovers(n, j);
    }
  }

  /** The file on disk `a` has become trees `us` on disk `w`: it has logical block `k` at `lba`, the others where
      they were, and no block of `c` has changed. */
  ghost predicate Fetched(a: Disk, w: Disk, used: set<nat>, c: set<nat>, row: seq<nat>, n: nat, ts: seq<Tree>,
                          us: seq<Tree>, k: nat, lba: nat)
  {
    File(w, used, c, row, n, us) && FileAdded(ts, us, n, k) && lba == FileBlock(us, n, k) && Agree(a, w, c)
  }

  lemma FileGot(a: Disk, w: Disk, used: set<nat>, used': set<nat>, c: set<nat>, row: seq<nat>, n: nat, ts: seq<Tree>,
                k: nat, x: nat, v: Tree)
    requires File(a, used, c, row, n, ts) && k < Capacity(n) && EntryOf(n, k) < ENTRIES
    requires var i := EntryOf(n, k); var rest := used - Blocks(ts[i]);
      && Entry(w, used', rest, x, n, Depth(i), v) && Agree(a, w, rest)
      && k >= FileOffset(n, i) && Added(ts[i], v, n, Depth(i), k - FileOffset(n, i))
    ensures var i := EntryOf(n, k);
      && |row| == |ts| == ENTRIES
      && Fetched(a, w, used', c, row[i := x], n, ts, ts[i := v], k, LeafAt(v, n, Depth(i), k - FileOffset(n, i)))
  {
    hide OnDisk, Formed, LeafAt, Depth, FileOffset, EntryOf, Capacity, Added, Entry, Agree;
    var i := EntryOf(n, k);
    FilePlanted(a, w, used, used', c, row, n, ts, i, x, v);
    FileAddedAt(ts, n, k, v);
  }

  /** How many blocks have to be taken to add logical block `k` of a file. */
  function FileMissing(ts: seq<Tree>, n: nat, k: nat): nat
    requires |ts| == ENTRIES && k < Capacity(n) && forall j :: 0 <= j < ENTRIES ==> Formed(ts[j], n, Depth(j))
  {
    EntryCovers(n, k);
    var i := EntryOf(n, k);
    Missing(ts[i], n, Depth(i), k - FileOffset(n, i))
  }

  /** Below the triple indirect tree: which entry, at what depth, and what is there. */
  lemma FileStep(disk: Disk, used: set<nat>, c: set<nat>, row: seq<nat>, n: nat, ts: seq<Tree>, k: nat)
    requires File(disk, used, c, row, n, ts) && k < DIRECT + n + n * n
    ensures k < Capacity(n) && |row| == |ts| == ENTRIES
    ensures forall j :: 0 <= j < ENTRIES ==> Formed(ts[j], n, Depth(j))
    ensures var i := EntryOf(n, k); var o := k - FileOffset(n, i);
      && i < 14 && o >= 0 && o < Span(n, Depth(i)) && i == (if k < DIRECT then k else if k < DIRECT + n then 12 else 13)
      && o == (if k < DIRECT then 0 else if k < DIRECT + n then k - DIRECT else k - (DIRECT + n))
      && Entry(disk, used, used - Blocks(ts[i]), row[i], n, Depth(i), ts[i])
      && FileBlock(ts, n, k) == LeafAt(ts[i], n, Depth(i), o) && FileMissing(ts, n, k) == Missing(ts[i], n, Depth(i), o)
  {
    hide OnDisk, Formed, LeafAt, Entry, Span, Missing;
    SmallCapacity(n);
    EntryCovers(n, k);
    FileEntry(disk, used, c, row, n, ts, EntryOf(n, k));
  }

  // ----- an index block with old entries ----------------------------------------------------------------

  /** If the block taken for a missing index block holds an entry, no tree is laid out from there: that
      entry names a block the file does not own, or owns already. */
  lemma StaleNoTree(w: Disk, used: set<nat>, c: set<nat>, b: nat, n: nat, d: nat, u: Tree, j: nat)
    requires used == c + {b} && b != 0 && d > 0 && b in w && j < |w[b]| && w[b][j] != 0
    ensures !Entry(w, used, c, b, n, d, u)
  {
    if Entry(w, used, c, b, n, d, u) {
      TableOf(w, used, c, b, n, d, u);
      var s := w[b][j];
      assert OnDisk(w, s, d - 1, u.kids[j]);
      assert s in Blocks(u.kids[j]);
      KidBlocks(u.kids, j);
    }
  }

  /** A block taken for an index block lays out a tree if and only if it holds zeros. */
  lemma IndexRightIff(w: Disk, c: set<nat>, b: nat, n: nat, d: nat)
    requires 0 in c && b !in c && d > 0 && b in w && |w[b]| == n
    ensures (exists u :: Entry(w, c + {b}, c, b, n, d, u)) <==> w[b] == Zeros(n)
  {
    hide Entry;
    if w[b] == Zeros(n) {
      IndexTaken(w, c, b, n, d);
    } else {
      var j :| 0 <= j < n && w[b][j] != 0;
      forall u ensures !Entry(w, c + {b}, c, b, n, d, u) { StaleNoTree(w, c + {b}, c, b, n, d, u, j); }
    }
  }

  /** One that names an old block. */
  lemma OldIndex()
    ensures forall u :: !Entry(map[1 := [7, 0]], {0, 1}, {0}, 1, 2, 1, u)
  {
    hide Entry;
    var w: Disk := map[1 := [7, 0]];
    forall u ensures !Entry(w, {0, 1}, {0}, 1, 2, 1, u) { StaleNoTree(w, {0, 1}, {0}, 1, 2, 1, u, 0); }
  }

  // ----- triple indirection -----------------------------------------------------------------------------

  /** Block: the block found, 0 for none. Stale: an index block was taken that holds old entries, and the
      code goes on with those. Wild: it divides by zero or reads past the end of an index block. */
  datatype Got = Block(lba: nat) | Stale(index: nat) | Wild

  /** What a lookup that may take blocks comes to: the block, or an index block taken that holds old entries. */
  ghost predicate Looked(a: Disk, w: Disk, used: set<nat>, used': set<nat>, c: set<nat>, row: seq<nat>, n: nat,
                         ts: seq<Tree>, us: seq<Tree>, k: nat, free: int, r: Got)
    requires |ts| == ENTRIES && k < Capacity(n) && forall j :: 0 <= j < ENTRIES ==> Formed(ts[j], n, Depth(j))
  {
    match r
    case Block(lba) => Fetched(a, w, used', c, row, n, ts, us, k, lba) && (lba == 0 <==> FileMissing(ts, n, k) > free)
    case Stale(b) => FileMissing(ts, n, k) > 1 && b !in used && b in used' && b in w && w[b] != Zeros(n)
    case Wild => false
  }

  lemma FirstLooked(a: Disk, w: Disk, used: set<nat>, used': set<nat>, c: set<nat>, row: seq<nat>, n: nat,
                    ts: seq<Tree>, us: seq<Tree>, k: nat, free: int, lba: nat)
    requires |ts| == ENTRIES && k < Capacity(n) && forall j :: 0 <= j < ENTRIES ==> Formed(ts[j], n, Depth(j))
    requires Fetched(a, w, used', c, row, n, ts, us, k, lba) && (lba == 0 <==> FileMissing(ts, n, k) > free)
    ensures Looked(a, w, used, used', c, row, n, ts, us, k, free, Block(lba))
  {
  }

  /** ext2_get_block_direct, without allocation. */
  function Direct(disk: Disk, e: nat, no: nat): Got {
    if e == 0 then Block(0) else if e !in disk || no >= |disk[e]| then Wild else Block(disk[e][no])
  }

  /** ext2_get_block_indirect, without allocation: at depth 1 it passes the ratio and the number to itself in
      the wrong order. */
  function Indirect(disk: Disk, e: nat, ratio: nat, no: nat, depth: nat): Got
    decreases depth
  {
    if e == 0 then Block(0)
    else if ratio == 0 || e !in disk || no / ratio >= |disk[e]| then Wild
    else if depth == 0 then Direct(disk, disk[e][no / ratio], no % ratio)
    else Indirect(disk, disk[e][no / ratio], no % ratio, ratio, depth - 1)
  }

  /** The logical block with these three digits. */
  function Number(n: nat, a: nat, b: nat, c: nat): (k: nat)
    requires a < n && b < n && c < n
    ensures k < Span(n, 3)
  {
    DigitsBound(n, a, b, c);
    a * Span(n, 2) + (b * Span(n, 1) + c)
  }

  /** The logical block found instead of `k`: its first digit is the middle one of `k`, the other two come
      from dividing the wrong way round. */
  function Stray(n: nat, k: nat): (s: nat)
    requires 0 < n && 2 <= k % n && k < n * n
    ensures s < Span(n, 3)
  {
    StrayDigits(n, k);
    Number(n, k / n, n / (k % n), n % (k % n))
  }

  lemma StrayDigits(n: nat, k: nat)
    requires n > 0 && k < n * n
    ensures k / n < n
    ensures 2 <= k % n ==> n / (k % n) < n && n % (k % n) < n
  {
    DivBound(k, n, n);
    if 2 <= k % n { HalfBelow(n, k % n); }
  }

  lemma HalfBelow(n: nat, m: nat)
    requires 2 <= m <= n
    ensures n / m < n && n % m < n
  {
    var q := n / m;
    assert n == q * m + n % m;
    if q > 0 { MulMono(2, m, q); }
  }

  lemma DigitsBound(n: nat, a: nat, b: nat, c: nat)
    requires a < n && b < n && c < n
    ensures b * Span(n, 1) + c < Span(n, 2) && a * Span(n, 2) + (b * Span(n, 1) + c) < Span(n, 3)
  {
    SpanOne(n);
    OneMore(b, n, n, c);
    OneMore(a, n, Span(n, 2), b * Span(n, 1) + c);
  }

  lemma OneMore(a: nat, n: nat, s: nat, x: nat)
    requires a < n && x < s
    ensures a * s + x < n * s
  {
    MulMono(a + 1, n, s);
  }

  /** What the walk of the code finds in a tree laid out on the disk. */
  ghost predicate Strays(t: Tree, n: nat, k: nat, r: Got)
    requires Formed(t, n, 3) && k < Span(n, 3)
  {
    if t.Hole? then r == Block(0)
    else if k >= n * n then r == Wild
    else
      StrayDigits(n, k);
      if t.kids[k / n].Hole? then r == Block(0)
      else if k % n < 2 then r == Wild
      else r == Block(LeafAt(t, n, 3, Stray(n, k)))
  }

  /** Below the triple indirect entry the code finds another block of the file, or the end of the file, or it
      divides by zero or reads past the end of an index block: exactly when which. */
  lemma TripleWalks(disk: Disk, e: nat, t: Tree, n: nat, k: nat)
    requires OnDisk(disk, e, 3, t) && Formed(t, n, 3) && k < Span(n, 3)
    ensures Strays(t, n, k, Indirect(disk, e, n, k, 1))
  {
    hide Span, LeafAt, Formed, OnDisk, Stray;
    HoleLaid(disk, e, 3, t);
    if t.Node? {
      KidsLaid(disk, e, t, n, 3);
      EntryBound(n, 3, k);
      if k < n * n {
        StrayDigits(n, k);
        var kid := t.kids[k / n];
        HoleLaid(disk, disk[e][k / n], 2, kid);
        if kid.Node? { KidWalks(disk, disk[e][k / n], kid, t, n, k); }
      } else {
        DivAbove(k, n);
      }
    }
  }

  lemma HoleLaid(disk: Disk, e: nat, d: nat, t: Tree)
    requires OnDisk(disk, e, d, t)
    ensures e == 0 <==> t.Hole?
  {
  }

  lemma DivAbove(k: nat, n: nat)
    requires n > 0 && k >= n * n
    ensures k / n >= n
  {
    if k / n < n { SmallNumber(k, n); }
  }

  lemma KidWalks(disk: Disk, e: nat, kid: Tree, t: Tree, n: nat, k: nat)
    requires t.Node? && Formed(t, n, 3) && k < n * n && n > 0 && k / n < n && kid == t.kids[k / n] && kid.Node?
    requires OnDisk(disk, e, 2, kid) && Formed(kid, n, 2)
    ensures Indirect(disk, e, k % n, n, 0) ==
      if k % n < 2 then Wild else Block(LeafAt(t, n, 3, Stray(n, k)))
  {
    hide LeafAt, Number, Formed, Direct;
    StrayDigits(n, k);
    KidsLaid(disk, e, kid, n, 2);
    if k % n >= 2 {
      var b, c := n / (k % n), n % (k % n);
      LeafPath(t, n, k / n, b, c);
      LowWalks(disk, e, kid, n, b, c);
    }
  }

  lemma KidsLaid(disk: Disk, e: nat, t: Tree, n: nat, d: nat)
    requires OnDisk(disk, e, d, t) && Formed(t, n, d) && t.Node? && d > 0
    ensures e != 0 && e in disk && |disk[e]| == |t.kids| == n
    ensures forall i :: 0 <= i < n ==> OnDisk(disk, disk[e][i], d - 1, t.kids[i]) && Formed(t.kids[i], n, d - 1)
  {
    assert OnDiskAll(disk, disk[e], d - 1, t.kids);
  }

  /** The block two digits lead to. */
  function LowLeaf(t: Tree, n: nat, b: nat, c: nat): nat
    requires Formed(t, n, 2) && t.Node? && b < n && c < n
  {
    if t.kids[b].Hole? || t.kids[b].kids[c].Hole? then 0 else t.kids[b].kids[c].block
  }

  lemma LowWalks(disk: Disk, e: nat, kid: Tree, n: nat, b: nat, c: nat)
    requires OnDisk(disk, e, 2, kid) && Formed(kid, n, 2) && kid.Node? && b < n && c < n
    ensures |disk[e]| == n && Direct(disk, disk[e][b], c) == Block(LowLeaf(kid, n, b, c))
  {
    KidsLaid(disk, e, kid, n, 2);
    if kid.kids[b].Node? { KidsLaid(disk, disk[e][b], kid.kids[b], n, 1); }
  }

  /** The block at three digits. */
  lemma LeafPath(t: Tree, n: nat, a: nat, b: nat, c: nat)
    requires Formed(t, n, 3) && a < n && b < n && c < n && t.Node? && t.kids[a].Node?
    ensures LeafAt(t, n, 3, Number(n, a, b, c)) == LowLeaf(t.kids[a], n, b, c)
  {
    hide LeafAt;
    DigitsBound(n, a, b, c);
    SpanOne(n);
    var x := b * Span(n, 1) + c;
    LeafStep(t, n, 3, a * Span(n, 2) + x);
    Digit(a, Span(n, 2), x);
    LeafStep(t.kids[a], n, 2, x);
    Digit(b, Span(n, 1), c);
    var low := t.kids[a].kids[b];
    LeafStep(low, n, 1, c);
    if low.Node? { LeafOne(low.kids[c], n, c); }
  }

  lemma LeafOne(t: Tree, n: nat, c: nat)
    requires Formed(t, n, 0)
    ensures Span(n, 0) == 1 && c / 1 == c && c % 1 == 0
    ensures LeafAt(t, n, 0, 0) == if t.Hole? then 0 else t.block
  {
  }

  lemma Digit(a: nat, s: nat, x: nat)
    requires x < s
    ensures (a * s + x) / s == a && (a * s + x) % s == x
  {
    var k := a * s + x;
    var q := k / s;
    assert k == q * s + k % s;
    if q < a { MulMono(q + 1, a, s); }
    if a < q { MulMono(a + 1, q, s); }
  }

  /** A tree with one path. */
  function Path(n: nat, i: nat, b: nat, t: Tree): Tree
    requires i < n
  {
    Node(b, Holes(n)[i := t])
  }

  lemma PathLaid(disk: Disk, n: nat, d: nat, i: nat, b: nat, e: nat, t: Tree, k: nat)
    requires d > 0 && i < n && b != 0 && b in disk && disk[b] == Zeros(n)[i := e]
    requires OnDisk(disk, e, d - 1, t) && Formed(t, n, d - 1)
    requires k < Span(n, d) && Span(n, d - 1) > 0 && i == k / Span(n, d - 1) && k % Span(n, d - 1) < Span(n, d - 1)
    ensures var p := Path(n, i, b, t);
      OnDisk(disk, b, d, p) && Formed(p, n, d) && LeafAt(p, n, d, k) == LeafAt(t, n, d - 1, k % Span(n, d - 1))
  {
    var p := Path(n, i, b, t);
    forall j | 0 <= j < n ensures OnDisk(disk, disk[b][j], d - 1, p.kids[j]) {}
    assert OnDiskAll(disk, disk[b], d - 1, p.kids);
  }

  /** No logical block of the triple indirect tree is found in every file. */
  lemma TripleNever(n: nat, k: nat)
    requires k < Span(n, 3)
    ensures exists disk, t ::
      OnDisk(disk, 1, 3, t) && Formed(t, n, 3) && Indirect(disk, 1, n, k, 1) != Block(LeafAt(t, n, 3, k))
  {
    var disk, t := OnePath(n, k);
  }

  /** It is not found in the file that has it and no other. */
  lemma OnePath(n: nat, k: nat) returns (disk: Disk, t: Tree)
    requires k < Span(n, 3)
    ensures OnDisk(disk, 1, 3, t) && Formed(t, n, 3) && LeafAt(t, n, 3, k) == 4
    ensures Indirect(disk, 1, n, k, 1) != Block(4)
  {
    hide OnDisk, Formed, LeafAt, Indirect, Span;
    EntryBound(n, 3, k);
    var i, r := k / Span(n, 2), k % Span(n, 2);
    EntryBound(n, 2, r);
    SpanOne(n);
    var j, l := r / n, r % n;
    disk := map[1 := Zeros(n)[i := 2], 2 := Zeros(n)[j := 3], 3 := Zeros(n)[l := 4], 4 := Zeros(n)];
    Bottom(disk, n, l);
    var low := Path(n, l, 3, Node(4, []));
    PathLaid(disk, n, 2, j, 2, 3, low, r);
    var mid := Path(n, j, 2, low);
    PathLaid(disk, n, 3, i, 1, 2, mid, k);
    t := Path(n, i, 1, mid);
    SpanTwo(n);
    NotFound(disk, n, k, i, j, l);
  }

  lemma Bottom(disk: Disk, n: nat, l: nat)
    requires l < n && 3 in disk && 4 in disk && disk[3] == Zeros(n)[l := 4]
    ensures var p := Path(n, l, 3, Node(4, []));
      OnDisk(disk, 3, 1, p) && Formed(p, n, 1) && l < Span(n, 1) && LeafAt(p, n, 1, l) == 4
  {
    SpanOne(n);
    assert Span(n, 0) == 1;
    PathLaid(disk, n, 1, l, 3, 4, Node(4, []), l);
  }

  lemma SpanTwo(n: nat)
    ensures Span(n, 2) == n * n
  {
    SpanOne(n);
  }

  lemma SpanThree(n: nat)
    ensures Span(n, 3) == n * n * n
  {
    SpanTwo(n);
    assert n * (n * n) == n * n * n;
  }

  lemma NotFound(disk: Disk, n: nat, k: nat, i: nat, j: nat, l: nat)
    requires n > 0 && i < n && j < n && l < n && i == k / (n * n) && j == k % (n * n) / n && l == k % (n * n) % n
    requires disk == map[1 := Zeros(n)[i := 2], 2 := Zeros(n)[j := 3], 3 := Zeros(n)[l := 4], 4 := Zeros(n)]
    ensures Indirect(disk, 1, n, k, 1) != Block(4)
  {
    if k / n < n {
      SmallNumber(k, n);
    }
  }

  lemma SmallNumber(k: nat, n: nat)
    requires n > 0 && k / n < n
    ensures k < n * n && k / (n * n) == 0 && k % (n * n) == k
  {
    var q := k / n;
    assert k < n * n by {
      MulMono(q, n - 1, n);
      assert k == q * n + k % n && (n - 1) * n == n * n - n;
    }
    BelowDivisor(k, n * n);
  }

  lemma BelowDivisor(k: nat, s: nat)
    requires k < s
    ensures k / s == 0 && k % s == k
  {
  }
}
