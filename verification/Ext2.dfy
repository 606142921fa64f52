/** ext2: the block bitmaps of the groups, and growing or shrinking the block tree of a file.

    A block is a table of 32-bit entries; data blocks are seen the same way. */
module Ext2 {

  import opened Bits
  import opened BlockLookup
  import opened BlockTree
  import opened Machine
  import opened Sums

  /** The number of the block of bit `x` of group `i`. */
  function BlockNo(i: nat, per: nat, x: nat): nat { i * per + x }

  /** Block `i * per + x` is bit `x` of group `i`. */
  lemma Locate(i: nat, x: nat, per: nat)
    requires x < per
    ensures (i * per + x) / per == i && (i * per + x) % per == x
  {
    var b := i * per + x;
    DivBound(b, i + 1, per);
    var q := b / per;
    assert b == q * per + b % per;
    if q < i {
      MulMono(q + 1, i, per);
      assert false;
    }
  }

  lemma Below(i: nat, x: nat, per: nat, groups: nat)
    requires x < per && i < groups
    ensures i * per + x < groups * per
  {
    MulMono(i + 1, groups, per);
  }

  /** Bit `b % per` of the bitmap of group `b / per`. */
  ghost predicate InUse(maps: seq<seq<bv8>>, per: nat, b: nat) {
    && per > 0 && b / per < |maps| && b % per < 8 * |maps[b / per]|
    && BitAt(maps[b / per], b % per)
  }

  /** A bitmap of `size` bytes for `per` blocks: the bits past the last block are set. */
  ghost predicate MapOk(s: seq<bv8>, size: nat, per: nat) {
    |s| == size && per <= 8 * size && forall x :: per <= x < 8 * size ==> BitAt(s, x)
  }

  /** Setting or clearing one bit of a bitmap. */
  lemma FlipMap(s: seq<bv8>, size: nat, per: nat, x: nat, v: bool)
    requires MapOk(s, size, per) && x < per
    ensures var m := WithBit(s, x, v);
      && MapOk(m, size, per)
      && (Clear(m, 8 * size) == Clear(s, 8 * size) + (if v then -1 else 1) <==> BitAt(s, x) != v)
      && forall y :: 0 <= y < 8 * size ==> (BitAt(m, y) <==> if y == x then v else BitAt(s, y))
  {
    hide BitAt, WithBit;
    var m := WithBit(s, x, v);
    SameLength(s, x, v);
    forall y | 0 <= y < 8 * |s| ensures BitAt(m, y) <==> if y == x then v else BitAt(s, y) { WithBitAt(s, x, v, y); }
    if BitAt(s, x) == v { ClearSame(s, m, 8 * size); }
    else if v { ClearFlip(s, m, x, 8 * size); }
    else { ClearFlip(m, s, x, 8 * size); }
  }

  lemma FlipUse(maps: seq<seq<bv8>>, m: seq<bv8>, size: nat, per: nat, i: nat, x: nat, v: bool, b: nat)
    requires i < |maps| && MapOk(maps[i], size, per) && MapOk(m, size, per) && x < per
    requires forall y :: 0 <= y < 8 * size ==> (BitAt(m, y) <==> if y == x then v else BitAt(maps[i], y))
    ensures InUse(maps[i := m], per, b) <==> if b == i * per + x then v else InUse(maps, per, b)
  {
    hide BitAt;
    var q, r := b / per, b % per;
    Rejoin(b, per, q, r);
    if b == i * per + x {
      Locate(i, x, per);
    } else {
      assert q != i || r != x;
    }
  }

  lemma FlipUses(maps: seq<seq<bv8>>, m: seq<bv8>, size: nat, per: nat, i: nat, x: nat, v: bool)
    requires i < |maps| && MapOk(maps[i], size, per) && MapOk(m, size, per) && x < per
    requires forall y :: 0 <= y < 8 * size ==> (BitAt(m, y) <==> if y == x then v else BitAt(maps[i], y))
    ensures forall b: nat :: InUse(maps[i := m], per, b) <==> if b == i * per + x then v else InUse(maps, per, b)
  {
    hide InUse, BitAt, MapOk;
    forall b: nat ensures InUse(maps[i := m], per, b) <==> if b == i * per + x then v else InUse(maps, per, b) {
      FlipUse(maps, m, size, per, i, x, v, b);
    }
  }

  lemma Rejoin(b: nat, per: nat, q: nat, r: nat)
    requires per > 0 && q == b / per && r == b % per
    ensures b == q * per + r && r < per
  {
  }

  predicate DiskOk(disk: Disk, total: nat, n: nat) {
    forall b :: 0 <= b < total ==> b in disk && |disk[b]| == n
  }

  // ----- sizes -----------------------------------------------------------------------------------

  /** Logical block numbers fit an int for blocks of up to 4 KiB, and for no larger power of two. */
  lemma CapacityFits(n: nat)
    ensures n <= 1024 ==> Capacity(n) <= INT_MAX
    ensures n >= 2048 ==> Capacity(n) > INT_MAX
  {
    if n <= 1024 {
      MulMono(n, 1024, n);
      MulMono(n * n, 1024 * 1024, n);
      assert n * (n * n) == n * n * n;
    }
    if n >= 2048 {
      MulMono(2048, n, n);
      assert n * n >= 2048 * 2048;
      MulMono(2048, n, n * n);
    }
  }

  /** The blocks a file of `size` bytes has. */
  function BlocksFor(size: nat, bs: nat): nat
    requires bs > 0
  {
    (size + bs - 1) / bs
  }

  /** What the code computes: for a block size that is a power of two the mask clears the bits below a
      block, and, being 32 bits wide, those from bit 32 on. */
  function MaskedCount(size: nat, bs: nat): nat
    requires bs > 0
  {
    (size + bs - 1) % WORD / bs
  }

  /** That many blocks hold the file, and one less does not. */
  lemma CountHolds(size: nat, bs: nat)
    requires bs > 0
    ensures size <= BlocksFor(size, bs) * bs < size + bs
  {
    Rejoin(size + bs - 1, bs, BlocksFor(size, bs), (size + bs - 1) % bs);
  }

  lemma CountRightIff(size: nat, bs: nat)
    requires bs > 0 && WORD % bs == 0
    ensures MaskedCount(size, bs) == BlocksFor(size, bs) <==> size + bs - 1 < WORD
  {
    var x := size + bs - 1;
    if x >= WORD {
      Rejoin(WORD, bs, WORD / bs, 0);
      assert WORD / bs >= 1;
      assert x % WORD <= x - WORD;
      Fewer(x % WORD, x, bs);
    }
  }

  /** No other count does both. */
  lemma CountExact(size: nat, bs: nat, n: nat)
    requires bs > 0
    ensures size <= n * bs < size + bs <==> n == BlocksFor(size, bs)
  {
    CountHolds(size, bs);
    var m := BlocksFor(size, bs);
    if n < m { MulMono(n + 1, m, bs); }
    if m < n { MulMono(m + 1, n, bs); }
  }

  lemma Fewer(y: nat, x: nat, bs: nat)
    requires bs > 0 && y + bs <= x
    ensures y / bs < x / bs
  {
    Rejoin(y, bs, y / bs, y % bs);
    Rejoin(x, bs, x / bs, x % bs);
    if x / bs <= y / bs { MulMono(x / bs, y / bs, bs); }
  }

  /** Truncating to one byte past 4 GiB leaves one block. */
  lemma CountWrong()
    ensures MaskedCount(0x1_0000_0001, 4096) == 1 && BlocksFor(0x1_0000_0001, 4096) == 0x10_0001
  {
  }

  /** The part of an inode that names its blocks. */
  class Inode {
    var block: seq<nat>
    /** The 32-bit size on disk, the 32-bit block count on disk, and the 64-bit size in memory. */
    var size: nat
    var blocks: int
    var length: nat

    constructor ()
      ensures block == seq(ENTRIES, i => 0) && size == 0 && blocks == 0 && length == 0
    {
      block, size, blocks, length := seq(ENTRIES, i => 0), 0, 0, 0;
    }
  }

  /** Blocks a truncation of a file to `count` blocks has to add. */
  ghost function FileNeed(ts: seq<Tree>, n: nat, count: int): nat
    requires |ts| == ENTRIES
  {
    NeedFrom(ts[..DIRECT], n, 0, count, 0, 0)
    + Need(ts[12], n, 1, count, DIRECT)
    + Need(ts[13], n, 2, count, DIRECT + n)
    + Need(ts[14], n, 3, count, DIRECT + n + n * n)
  }

  class Volume {
    const blockSize: nat
    const perGroup: nat
    const groups: nat
    var freeCount: seq<int>
    var maps: seq<seq<bv8>>
    var disk: Disk
    ghost var used: set<nat>

    /** Entries in an index block. */
    function Entries(): nat { blockSize / 4 }

    ghost predicate Valid()
      reads this
    {
      && 0 < perGroup < 0x1_0000 && perGroup % 8 == 0 && perGroup <= 8 * blockSize
      && |freeCount| == groups && |maps| == groups
      && (forall i :: 0 <= i < groups ==> MapOk(maps[i], blockSize, perGroup))
      && (forall i :: 0 <= i < groups ==> freeCount[i] == Clear(maps[i], 8 * blockSize))
      && (forall b: nat :: b in used <==> InUse(maps, perGroup, b)) && 0 in used
      && DiskOk(disk, Size(), Entries())
    }

    /** A formatted volume: one group, with every block but the first free. */
    constructor (blockSize: nat)
      requires 0 < blockSize < 0x2000
      ensures Valid() && this.blockSize == blockSize && groups == 1 && perGroup == 8 * blockSize
      ensures used == {0} && Free() == 8 * blockSize - 1
    {
      hide BitAt, WithBit;
      FormattedMap(blockSize);
      this.blockSize, perGroup, groups := blockSize, 8 * blockSize, 1;
      freeCount := [8 * blockSize - 1];
      maps := [WithBit(seq(blockSize, i => 0), 0, true)];
      disk := Blank(8 * blockSize, blockSize / 4);
      used := {0};
      new;
      assert maps == [maps[0]];
      Formatted(maps[0], 8 * blockSize);
      assert Sum([]) == 0 && freeCount[..0] == [];
    }

    /** The free blocks of all groups. */
    ghost function Free(): int
      reads `freeCount
    {
      Sum(freeCount)
    }

    /** The scan of ext2_alloc_block over the bits of a byte that is not full. */
    method FindBit(byte: bv8) returns (k: nat)
      requires byte != 0xFF
      ensures k < 8 && !Bit(byte, k) && forall j :: 0 <= j < k ==> Bit(byte, j)
    {
      hide Mask, Bit;
      WholeByte(byte);
      k := 0;
      while byte & Mask(k) != 0
        invariant k < 8 && forall j :: 0 <= j < k ==> Bit(byte, j)
        decreases 8 - k
      {
        BitIs(byte, k);
        k := k + 1;
      }
      BitIs(byte, k);
    }

    method FlipByte(s: seq<bv8>, j: nat, k: nat, v: bool) returns (m: seq<bv8>)
      requires j < |s| && k < 8
      ensures m == WithBit(s, 8 * j + k, v)
    {
      ByteAt(s, j, k, v);
      m := s[j := if v then s[j] | Mask(k) else s[j] & !Mask(k)];
    }

    /** Sets or clears the bit of block `i * perGroup + 8 * j + k` and counts it. That leaves the volume
        right if and only if the bit changed, and is not that of block 0. */
    method PutBlock(i: nat, j: nat, k: nat, v: bool)
      requires Valid() && i < groups && j < blockSize && k < 8 && 8 * j + k < perGroup
      modifies `freeCount, `maps, `used
      ensures var b := BlockNo(i, perGroup, 8 * j + k);
        && used == (if v then old(used) + {b} else old(used) - {b})
        && (Valid() <==> (b in old(used) <==> !v) && (v || b != 0))
      ensures Free() == old(Free()) + if v then -1 else 1
    {
      hide BitAt, Clear, Sum, Bit, Mask, InUse, MapOk, WithBit, DiskOk;
      ghost var b, x := BlockNo(i, perGroup, 8 * j + k), 8 * j + k;
      MapSize(maps[i], blockSize, perGroup);
      FlipMap(maps[i], blockSize, perGroup, x, v);
      var m := FlipByte(maps[i], j, k, v);
      FlipUses(maps, m, blockSize, perGroup, i, x, v);
      UseIs(maps, blockSize, perGroup, i, x);
      SumUpdate(freeCount, i, freeCount[i] + if v then -1 else 1);
      assert b in used <==> BitAt(maps[i], x);
      MapSize(m, blockSize, perGroup);
      maps := maps[i := m];
      freeCount := freeCount[i := freeCount[i] + if v then -1 else 1];
      used := if v then used + {b} else used - {b};
      assert freeCount[i] == Clear(maps[i], 8 * blockSize) <==> (b in old(used) <==> !v);
    }

    /** ext2_alloc_block */
    method AllocBlock() returns (b: nat)
      requires Valid()
      modifies `freeCount, `maps, `used
      ensures Valid()
      ensures b == 0 <==> old(Free()) == 0
      ensures b == 0 ==> Free() == old(Free()) && used == old(used)
      ensures b != 0 ==> b !in old(used) && used == old(used) + {b} && Free() == old(Free()) - 1 && b in disk
      // it is the lowest free block
      ensures b != 0 ==> forall x: nat :: x < b ==> x in old(used)
    {
      hide BitAt, Clear, Sum, Bit, Mask, InUse, MapOk;
      SumZero(freeCount);
      var i := 0;
      while i < groups && freeCount[i] == 0
        invariant 0 <= i <= groups
        invariant forall j :: 0 <= j < i ==> freeCount[j] == 0
      {
        i := i + 1;
      }
      if i >= groups {
        return 0;
      }
      MapSize(maps[i], blockSize, perGroup);
      var bitmap := maps[i];
      var j := 0;
      while j < blockSize && bitmap[j] == 0xFF
        invariant 0 <= j <= blockSize && bitmap == maps[i] && |bitmap| == blockSize
        invariant forall q :: 0 <= q < j ==> bitmap[q] == 0xFF
      {
        j := j + 1;
      }
      if j >= blockSize {
        FullMap(bitmap, blockSize);
        assert false;
      }
      var k := FindBit(bitmap[j]);
      FreeBit(bitmap, blockSize, perGroup, j, k);
      Below(i, 8 * j + k, perGroup, groups);
      UseIs(maps, blockSize, perGroup, i, 8 * j + k);
      LowestHere(i, j, k);
      PutBlock(i, j, k, true);
      return i * perGroup + j * 8 + k;
    }

    lemma LowestHere(i: nat, j: nat, k: nat)
      requires Valid() && i < groups && (forall g :: 0 <= g < i ==> freeCount[g] == 0) && SetTo(maps[i], j, k)
      requires 8 * j + k < perGroup
      ensures forall x: nat :: x < BlockNo(i, perGroup, 8 * j + k) ==> x in used
    {
      hide BitAt, Clear, Bit, InUse, SetTo, DiskOk, BlockNo;
      MapSize(maps[i], blockSize, perGroup);
      assert FullTo(maps, blockSize, i);
      forall x: nat | x < BlockNo(i, perGroup, 8 * j + k) ensures x in used {
        UsedBelow(maps, blockSize, perGroup, i, j, k, x);
      }
    }

    /** Blocks of the volume. */
    function Size(): nat { groups * perGroup }

    /** ext2_release_block. A block outside the volume is refused; any other is counted as free, which is
        right if and only if it was in use, and is not block 0. */
    method ReleaseBlock(block: nat) returns (r: int)
      requires Valid()
      modifies `freeCount, `maps, `used
      ensures block >= Size() ==> Valid() && r == -1 && used == old(used) && Free() == old(Free())
      ensures block < Size() ==> r == 0 && used == old(used) - {block} && Free() == old(Free()) + 1
      ensures block < Size() ==> (Valid() <==> block in old(used) && block != 0)
    {
      hide BitAt, Clear, Sum, InUse, MapOk, DiskOk, BlockNo, Size;
      Beyond(block);
      var i, j, k := Digits(block, perGroup);
      if i >= groups || j >= blockSize {
        return -1;
      }
      MapSize(maps[i], blockSize, perGroup);
      PutBlock(i, j, k, false);
      return 0;
    }

    lemma FreeCount()
      requires Valid()
      ensures Free() >= 0
    {
      hide Clear;
      SumZero(freeCount);
    }

    lemma UsedInside(block: nat)
      requires Valid() && block in used
      ensures block < Size() && block in disk && |disk[block]| == Entries()
    {
      UsedHere(maps, perGroup, block);
      Beyond(block);
    }

    /** A new block, zeroed: ext2_alloc_block, then memset through the mapping. */
    method NewBlock() returns (b: nat)
      requires Valid() && Free() > 0
      modifies `freeCount, `maps, `used, `disk
      ensures Valid() && b != 0 && b !in old(used) && used == old(used) + {b} && Free() == old(Free()) - 1
      ensures disk == old(disk)[b := Zeros(Entries())]
    {
      hide BitAt, Clear, Sum, InUse, MapOk, Size;
      b := AllocBlock();
      disk := disk[b := Zeros(Entries())];
    }

    /** One turn of ext2_truncate_direct: an entry that roots a data block or nothing. */
    method TruncateEntry(entry: nat, count: int, offset: nat, ghost t: Tree, ghost c: set<nat>)
      returns (e: nat, ghost u: Tree)
      requires Valid() && Entry(disk, used, c, entry, Entries(), 0, t)
      requires Free() >= Need(t, Entries(), 0, count, offset)
      modifies `freeCount, `maps, `used, `disk
      ensures Valid() && Cut(old(disk), disk, used, c, e, Entries(), 0, t, u, count, offset)
      ensures Free() == old(Free()) + Count(t) - Count(u)
    {
      hide Valid, Free, Entry, Cut, Count, Size;
      e, u := entry, t;
      ghost var n := Entries();
      LeafEntry(disk, used, c, entry, n, t);
      if entry == 0 && offset < count {
        e := NewBlock();
        u := Node(e, []);
        LeafNew(old(disk), c, e, n, count, offset);
      } else if entry != 0 && offset >= count {
        UsedInside(entry);
        var _ := ReleaseBlock(entry);
        LeafGone(disk, old(used), c, entry, n, t, count, offset);
        e, u := 0, Hole;
      } else {
        LeafStays(disk, used, c, entry, n, t, count, offset);
      }
    }

    /** ext2_truncate_direct on a table of `len` entries. */
    method TruncateDirect(table: seq<nat>, len: nat, count: int, offset: nat, ghost ts: seq<Tree>, ghost c: set<nat>)
      returns (row: seq<nat>, ghost us: seq<Tree>)
      requires Valid() && len == |table|
      requires Row(disk, disk, used, c, table, Entries(), 0, ts, ts, count, offset, 0)
      requires Free() >= NeedFrom(ts, Entries(), 0, count, offset, 0)
      modifies `freeCount, `maps, `used, `disk
      ensures Valid() && Row(old(disk), disk, used, c, row, Entries(), 0, ts, us, count, offset, |ts|)
      ensures Free() == old(Free()) + CountAll(ts) - CountAll(us)
    {
      hide Valid, Free, Row, Cut, Entry, Count, CountAll, Need, Blocks;
      row, us := table, ts;
      var n := Entries();
      RowLength(disk, disk, used, c, row, n, 0, ts, us, count, offset, 0);
      for i := 0 to len
        invariant Valid() && |row| == len && |us| == len == |ts|
        invariant Row(old(disk), disk, used, c, row, n, 0, ts, us, count, offset, i)
        invariant Free() == old(Free()) + CountAll(ts) - CountAll(us) && Free() >= NeedFrom(ts, n, 0, count, offset, i)
      {
        ghost var was, before := disk, used;
        RowKid(old(disk), disk, used, c, row, n, 0, ts, us, count, offset, i);
        var e; ghost var u;
        e, u := TruncateEntry(row[i], count, EntryOffset(n, 0, offset, i), us[i], used - Blocks(us[i]));
        RowTurn(old(disk), was, disk, before, used, c, row, e, n, 0, ts, us, u, count, offset, i);
        CutTrees(was, disk, before, used, before - Blocks(us[i]), row[i], e, n, 0, us[i], u, count,
                 EntryOffset(n, 0, offset, i));
        row, us := row[i := e], us[i := u];
      }
    }

    /** math_power */
    static method Power(val: nat, exp: nat) returns (res: nat)
      requires exp >= 1
      ensures res == Span(val, exp)
    {
      res := val;
      assert Span(val, 1) == val * Span(val, 0);
      var left := exp - 1;
      while left > 0
        invariant 0 <= left < exp && res == Span(val, exp - left)
      {
        res := res * val;
        left := left - 1;
      }
    }

    /** The loop of ext2_truncate_indirect over a table of index blocks of depth `d`. */
    method TruncateTables(table: seq<nat>, count: int, offset: nat, d: nat, ghost ts: seq<Tree>, ghost c: set<nat>)
      returns (row: seq<nat>, ghost us: seq<Tree>)
      requires Valid() && d >= 1 && |table| == Entries()
      requires Row(disk, disk, used, c, table, Entries(), d, ts, ts, count, offset, 0)
      requires Free() >= NeedFrom(ts, Entries(), d, count, offset, 0)
      modifies `freeCount, `maps, `used, `disk
      ensures Valid() && Row(old(disk), disk, used, c, row, Entries(), d, ts, us, count, offset, |ts|)
      ensures Free() == old(Free()) + CountAll(ts) - CountAll(us)
      decreases d, 1
    {
      hide Valid, Free, Row, Cut, Entry, Count, CountAll, Need, Blocks, Span;
      row, us := table, ts;
      var n := Entries();
      RowLength(disk, disk, used, c, row, n, d, ts, us, count, offset, 0);
      var subCount := Power(n, d);
      for i := 0 to n
        invariant Valid() && |row| == n && |us| == n == |ts|
        invariant Row(old(disk), disk, used, c, row, n, d, ts, us, count, offset, i)
        invariant Free() == old(Free()) + CountAll(ts) - CountAll(us) && Free() >= NeedFrom(ts, n, d, count, offset, i)
      {
        ghost var was, before := disk, used;
        RowKid(old(disk), disk, used, c, row, n, d, ts, us, count, offset, i);
        var e; ghost var u;
        e, u := TruncateIndirect(row[i], count, offset + i * subCount, d, us[i], used - Blocks(us[i]));
        RowTurn(old(disk), was, disk, before, used, c, row, e, n, d, ts, us, u, count, offset, i);
        CutTrees(was, disk, before, used, before - Blocks(us[i]), row[i], e, n, d, us[i], u, count,
                 EntryOffset(n, d, offset, i));
        row, us := row[i := e], us[i := u];
      }
    }

    /** ext2_truncate_indirect: `depth` levels of index blocks above the data. */
    method TruncateIndirect(entry: nat, count: int, offset: nat, depth: nat, ghost t: Tree, ghost c: set<nat>)
      returns (block: nat, ghost u: Tree)
      requires Valid() && depth >= 1 && Entry(disk, used, c, entry, Entries(), depth, t)
      requires Free() >= Need(t, Entries(), depth, count, offset)
      modifies `freeCount, `maps, `used, `disk
      ensures Valid() && Cut(old(disk), disk, used, c, block, Entries(), depth, t, u, count, offset)
      ensures Free() == old(Free()) + Count(t) - Count(u)
      decreases depth, 0
    {
      hide Valid, Free, Row, Cut, Entry, Count, CountAll, Blocks, NeedFrom, Size;
      var n := Entries();
      block, u := entry, t;
      HoleEntry(disk, used, c, entry, n, depth, t);
      if block == 0 && offset < count {
        block := NewBlock();
        FreshTable(old(disk), used, c, block, n, depth);
        u := Node(block, Holes(n));
      }
      if block != 0 {
        ghost var kids := u.kids;
        TableOf(disk, used, c, block, n, depth, u);
        assert kids == Kids(t, n);
        KidsAgree(old(disk), disk, c, block, n, depth, t, u);
        RowStarts(disk, used, c + {block}, disk[block], n, depth - 1, kids, count, offset);
        if offset >= count { NeedNothing(kids, n, depth - 1, count, offset, 0); }
        NodeCount(block, kids);
        var row; ghost var us;
        ghost var start := disk;
        if depth - 1 == 0 {
          row, us := TruncateDirect(disk[block], n, count, offset, kids, c + {block});
        } else {
          row, us := TruncateTables(disk[block], count, offset, depth - 1, kids, c + {block});
        }
        RowUsed(start, disk, used, c + {block}, row, n, depth - 1, kids, us, count, offset, n);
        UsedInside(block);
        TableBack(old(disk), start, disk, used, c, block, row, n, depth, t, us, count, offset);
        WriteBack(block, row);
        u := Node(block, us);
        NodeCount(block, us);
        if offset < count {
          CutNode(old(disk), disk, used, c, block, n, depth, t, us, count, offset);
        } else {
          EmptyTable(disk, used, c, block, n, depth, us, count, offset);
        }
      }
      if offset >= count { CutGone(old(disk), disk, c, n, depth, t, count, offset); }
      if block != 0 && offset >= count {
        UsedInside(block);
        var _ := ReleaseBlock(block);
        block, u := 0, Hole;
      }
    }

    /** The mapped table reaches the disk. */
    method WriteBack(block: nat, row: seq<nat>)
      requires Valid() && |row| == Entries()
      modifies `disk
      ensures Valid() && disk == old(disk)[block := row]
    {
      disk := disk[block := row];
    }

    /** One of the last three lines of ext2_truncate that go down from the inode. */
    method TruncateTop(row: seq<nat>, i: nat, count: int, offset: nat, depth: nat, ghost start: Disk,
                       ghost ts: seq<Tree>, ghost us: seq<Tree>, ghost c: set<nat>)
      returns (e: nat, ghost u: Tree)
      requires Valid() && DIRECT <= i < ENTRIES && depth == Depth(i) && offset == FileOffset(Entries(), i)
      requires |row| == |us| == |ts| == ENTRIES && FileAt(start, disk, used, c, row, Entries(), ts, us, count, i)
      requires Free() >= Need(ts[i], Entries(), depth, count, offset)
      modifies `freeCount, `maps, `used, `disk
      ensures Valid() && FileAt(start, disk, used, c, row[i := e], Entries(), ts, us[i := u], count, i + 1)
      ensures Free() == old(Free()) + CountAll(us) - CountAll(us[i := u])
      ensures Free() >= old(Free()) - Need(ts[i], Entries(), depth, count, offset)
    {
      hide Valid, Free, FileAt, Cut, Entry, Count, CountAll, Need, Blocks;
      ghost var n, rest := Entries(), used - Blocks(us[i]);
      FileKid(start, disk, used, c, row, n, ts, us, count, i);
      e, u := TruncateIndirect(row[i], count, offset, depth, us[i], rest);
      CutTrees(old(disk), disk, old(used), used, rest, row[i], e, n, depth, us[i], u, count, offset);
      FileTurn(start, old(disk), disk, old(used), used, c, row, e, n, ts, us, u, count, i);
    }

    /** ext2_truncate: the tree is that of the block count computed, which is the number of blocks of the
        file if and only if its size, rounded up, stays below 4 GiB. */
    method Truncate(ino: Inode, size: nat, ghost ts: seq<Tree>, ghost c: set<nat>) returns (ghost us: seq<Tree>)
      requires Valid() && 0 < blockSize && WORD % blockSize == 0 && |ts| == ENTRIES
      requires Capacity(Entries()) <= INT_MAX
      requires FileAt(disk, disk, used, c, ino.block, Entries(), ts, ts, BlockCount(size), 0)
      requires Free() >= FileNeed(ts, Entries(), BlockCount(size))
      modifies this, ino
      ensures Valid() && ino.length == size && ino.blocks == BlockCount(size)
      ensures ino.size == size <==> size < WORD
      ensures ino.blocks == BlocksFor(size, blockSize) <==> size + blockSize - 1 < WORD
      ensures size <= ino.blocks * blockSize < size + blockSize <==> size + blockSize - 1 < WORD
      ensures FileAt(old(disk), disk, used, c, ino.block, Entries(), ts, us, BlockCount(size), ENTRIES)
      ensures Free() == old(Free()) + CountAll(ts) - CountAll(us)
    {
      hide Valid, Free, FileAt, CountAll, Need, NeedFrom, BlockCount, Entries;
      ghost var start := disk;
      var count, n := BlockCount(size), Entries();
      CountHere(size);
      FileLength(disk, used, c, ino.block, n, ts, count);
      var row, e; ghost var u;
      row, us := TruncateFirst(ino.block, count, ts, c);
      e, u := TruncateTop(row, 12, count, 12, 1, start, ts, us, c);
      row, us := row[12 := e], us[12 := u];
      e, u := TruncateTop(row, 13, count, 12 + n, 2, start, ts, us, c);
      row, us := row[13 := e], us[13 := u];
      e, u := TruncateTop(row, 14, count, 12 + n + n * n, 3, start, ts, us, c);
      row, us := row[14 := e], us[14 := u];
      ino.block := row;
      ino.size := size % WORD;
      ino.blocks := count;
      ino.length := size;
    }

    /** The first call of ext2_truncate: the direct entries. */
    method TruncateFirst(block: seq<nat>, count: int, ghost ts: seq<Tree>, ghost c: set<nat>)
      returns (row: seq<nat>, ghost us: seq<Tree>)
      requires Valid() && |block| == |ts| == ENTRIES
      requires FileAt(disk, disk, used, c, block, Entries(), ts, ts, count, 0)
      requires Free() >= NeedFrom(ts[..DIRECT], Entries(), 0, count, 0, 0)
      modifies `freeCount, `maps, `used, `disk
      ensures Valid() && |row| == |us| == ENTRIES
      ensures FileAt(old(disk), disk, used, c, row, Entries(), ts, us, count, DIRECT)
      ensures Free() == old(Free()) + CountAll(ts) - CountAll(us)
      ensures Free() >= old(Free()) - NeedFrom(ts[..DIRECT], Entries(), 0, count, 0, 0)
    {
      hide Valid, Free, FileAt, Row, CountAll, Need, NeedFrom, Blocks, BlocksAll;
      var n := Entries();
      ghost var rest := c + BlocksAll(ts[DIRECT..]);
      DirectRow(disk, used, c, block, n, ts, count);
      FileForms(disk, used, c, block, n, ts, count);
      var direct; ghost var ds;
      direct, ds := TruncateDirect(block[..DIRECT], DIRECT, count, 0, ts[..DIRECT], rest);
      DirectDone(old(disk), disk, old(used), used, c, block, direct, n, ts, ds, count);
      DirectNeed(old(disk), disk, used, rest, direct, n, ts[..DIRECT], ds, count);
      RowLength(old(disk), disk, used, rest, direct, n, 0, ts[..DIRECT], ds, count, 0, DIRECT);
      row, us := direct + block[DIRECT..], ds + ts[DIRECT..];
    }

    /** ext2_free_blocks_indirect and ext2_free_blocks_direct: the tree under a block, then the block. */
    method FreeTree(block: nat, d: nat, ghost t: Tree, ghost c: set<nat>) returns (ret: int)
      requires Valid() && block != 0 && Entry(disk, used, c, block, Entries(), d, t)
      modifies `freeCount, `maps, `used
      ensures Valid() && ret == 0 && used == c && Free() == old(Free()) + Count(t)
      decreases d, 1
    {
      hide Valid, Free, Entry, Count, CountAll, Size;
      ret := 0;
      var n := Entries();
      HoleEntry(disk, used, c, block, n, d, t);
      if d == 0 {
        LeafEntry(disk, used, c, block, n, t);
      } else {
        TableOf(disk, used, c, block, n, d, t);
        NodeCount(block, t.kids);
        ret := FreeRow(disk[block], d - 1, t.kids, c + {block});
        assert used - {block} == c && block in used;
      }
      UsedInside(block);
      var r := ReleaseBlock(block);
      ret := if r == 0 then ret else -1;
    }

    /** Their loops over a table. */
    method FreeRow(row: seq<nat>, d: nat, ghost ts: seq<Tree>, ghost c: set<nat>) returns (ret: int)
      requires Valid() && OnDiskAll(disk, row, d, ts) && Owns(used, c, ts) && 0 in c
      requires forall j :: 0 <= j < |ts| ==> Formed(ts[j], Entries(), d)
      modifies `freeCount, `maps, `used
      ensures Valid() && ret == 0 && used == c && Free() == old(Free()) + CountAll(ts)
      decreases d, 3
    {
      hide Valid, Free, OnDisk, Owns, Count, CountAll, Formed, Blocks, Distinct;
      ret := 0;
      EmptiedStarts(ts);
      for i := 0 to |row|
        invariant Valid() && ret == 0 && Owns(used, c, Emptied(ts, i))
        invariant Free() == old(Free()) + CountAll(ts) - CountAll(Emptied(ts, i))
      {
        EmptiedTurn(used, c, ts, i);
        var r := FreeEntry(row[i], d, ts[i], used - Blocks(ts[i]));
        ret := if r == 0 then ret else -1;
      }
      EmptiedEnds(used, c, ts);
    }

    method FreeEntry(entry: nat, d: nat, ghost t: Tree, ghost c: set<nat>) returns (ret: int)
      requires Valid() && OnDisk(disk, entry, d, t) && Formed(t, Entries(), d) && Distinct(t)
      requires used == c + Blocks(t) && c !! Blocks(t) && 0 in c
      modifies `freeCount, `maps, `used
      ensures Valid() && ret == 0 && used == c && Free() == old(Free()) + Count(t)
      decreases d, 2
    {
      hide Valid, Free, OnDisk, Count, Formed, Blocks, Distinct;
      HoleEntry(disk, used, c, entry, Entries(), d, t);
      if entry == 0 {
        return 0;
      }
      ret := FreeTree(entry, d, t, c);
    }

    /** ext2_free_blocks: every block of the file is released, and no other. */
    method FreeBlocks(row: seq<nat>, ghost ts: seq<Tree>, ghost c: set<nat>) returns (ret: int)
      requires Valid() && |row| == |ts| == ENTRIES && Owns(used, c, ts) && 0 in c
      requires forall j :: 0 <= j < ENTRIES ==>
        OnDisk(disk, row[j], Depth(j), ts[j]) && Formed(ts[j], Entries(), Depth(j))
      modifies `freeCount, `maps, `used
      ensures Valid() && ret == 0 && used == c && Free() == old(Free()) + CountAll(ts)
    {
      hide Valid, Free, OnDisk, Owns, Count, CountAll, Formed, Blocks, Distinct;
      ret := 0;
      EmptiedStarts(ts);
      for i := 0 to ENTRIES
        invariant Valid() && ret == 0 && Owns(used, c, Emptied(ts, i))
        invariant Free() == old(Free()) + CountAll(ts) - CountAll(Emptied(ts, i))
      {
        EmptiedTurn(used, c, ts, i);
        var r := FreeEntry(row[i], Depth(i), ts[i], used - Blocks(ts[i]));
        ret := if r == 0 then ret else -1;
      }
      EmptiedEnds(used, c, ts);
    }

    /** An entry that is missing is given a block, which keeps whatever it held. */
    method TakeBlock(ghost c: set<nat>, ghost d: nat) returns (b: nat, stale: bool, ghost v: Tree)
      requires Valid() && used == c && 0 in c
      modifies `freeCount, `maps, `used
      ensures Valid() && (b == 0 <==> old(Free()) == 0) && Free() == old(Free()) - (if b == 0 then 0 else 1)
      ensures used == (if b == 0 then c else c + {b}) && (b != 0 ==> b !in c && b in disk)
      ensures stale <==> b != 0 && disk[b] != Zeros(Entries())
      ensures v == if b == 0 then Hole else if d == 0 then Node(b, []) else Node(b, Holes(Entries()))
      ensures d == 0 || !stale ==> Entry(disk, used, c, b, Entries(), d, v)
    {
      hide Valid, Entry;
      b := AllocBlock();
      stale := b != 0 && disk[b] != Zeros(Entries());
      v := if b == 0 then Hole else if d == 0 then Node(b, []) else Node(b, Holes(Entries()));
      if b == 0 { HoleTaken(disk, c, Entries(), d); }
      else if d == 0 { LeafTaken(disk, c, b, Entries()); }
      else if !stale { IndexTaken(disk, c, b, Entries(), d); }
    }

    /** ext2_get_block_direct */
    method GetDirect(block: nat, no: nat, alloc: bool, ghost t: Tree, ghost c: set<nat>)
      returns (lba: nat, ghost u: Tree)
      requires Valid() && no < Span(Entries(), 1) && Entry(disk, used, c, block, Entries(), 1, t)
      modifies `freeCount, `maps, `used, `disk
      ensures Valid() && Entry(disk, used, c, block, Entries(), 1, u) && Agree(old(disk), disk, c)
      ensures Added(t, u, Entries(), 1, no) && lba == LeafAt(u, Entries(), 1, no)
      ensures lba == 0 <==> Missing(t, Entries(), 1, no) > 0 && (!alloc || block == 0 || old(Free()) == 0)
      ensures !alloc || Missing(t, Entries(), 1, no) == 0 ==> u == t && disk == old(disk) && used == old(used)
    {
      hide Valid, Entry, Added, LeafAt, Missing, Formed;
      ghost var n := Entries();
      SpanOne(n);
      EntryIs(disk, used, c, block, n, 1, t, no);
      AddedSame(t, n, 1, no);
      lba, u := 0, t;
      if block == 0 {
        return;
      }
      KidEntry(disk, used, c, block, n, 1, t, no);
      KidIs(t, n, 1, no);
      EntryIs(disk, used, used - Blocks(t.kids[no]), disk[block][no], n, 0, t.kids[no], 0);
      lba := disk[block][no];
      if lba == 0 && alloc {
        ghost var was := disk;
        ghost var stale, v;
        lba, stale, v := TakeBlock(used, 0);
        WriteBack(block, disk[block][no := lba]);
        if lba != 0 {
          LeafTaken(disk, old(used), lba, n);
          KidPlanted(was, disk, old(used), used, c, block, n, 1, t, no, lba, v);
          AddedUp(t, n, 1, no, v);
          u := Node(block, t.kids[no := v]);
        } else {
          assert was[block][no := 0] == was[block] && disk == was;
        }
      }
    }

    /** ext2_get_block_indirect at depth 0. If an index block has to be taken it is not cleared: should it
        hold old entries, no tree is laid out there any more (StaleNoTree), and the model stops. */
    method GetIndirect(block: nat, no: nat, alloc: bool, ghost t: Tree, ghost c: set<nat>)
      returns (r: Got, ghost u: Tree)
      requires Valid() && no < Span(Entries(), 2) && Entry(disk, used, c, block, Entries(), 2, t)
      modifies `freeCount, `maps, `used, `disk
      ensures Valid() && !r.Wild?
      ensures r.Block? ==>
        && Entry(disk, used, c, block, Entries(), 2, u) && Agree(old(disk), disk, c)
        && Added(t, u, Entries(), 2, no) && r.lba == LeafAt(u, Entries(), 2, no)
        && (r.lba == 0 <==> Missing(t, Entries(), 2, no) > (if !alloc || block == 0 then 0 else old(Free())))
      ensures !alloc || Missing(t, Entries(), 2, no) == 0 ==>
        r.Block? && u == t && disk == old(disk) && used == old(used)
      ensures r.Stale? ==>
        && Missing(t, Entries(), 2, no) == 2 && used == old(used) + {r.index} && r.index !in old(used)
        && r.index in disk && disk[r.index] != Zeros(Entries())
    {
      hide Valid, Entry, Added, LeafAt, Missing, Formed, Span, Entries;
      var n := Entries();
      EntryIs(disk, used, c, block, n, 2, t, no);
      AddedSame(t, n, 2, no);
      u := t;
      if block == 0 {
        HoleMissing(n, 2, no);
        return Block(0), t;
      }
      SpanOne(n);
      KidIs(t, n, 2, no);
      var ip, ix := no / n, no % n;
      KidEntry(disk, used, c, block, n, 2, t, ip);
      ghost var kid, rest := t.kids[ip], used - Blocks(t.kids[ip]);
      EntryIs(disk, used, rest, disk[block][ip], n, 1, kid, ix);
      MissingMost(kid, n, 1, ix);
      FreeCount();
      var blkno := disk[block][ip];
      ghost var was, v := disk, kid;
      if blkno == 0 && alloc {
        HoleMissing(n, 1, ix);
        var stale;
        blkno, stale, v := TakeBlock(used, 1);
        WriteBack(block, disk[block][ip := blkno]);
        if stale {
          return Stale(blkno), t;
        }
        if blkno != 0 { HolesMissing(blkno, n, 1, ix); }
        EntryFrame(was, disk, used, rest, blkno, n, 1, v);
      }
      ghost var mid := disk;
      var lba; ghost var w;
      lba, w := GetDirect(blkno, ix, alloc, v, rest);
      assert disk[block] == was[block][ip := blkno];
      KidPlanted(was, disk, old(used), used, c, block, n, 2, t, ip, blkno, w);
      if kid.Hole? && v.Node? { HoleAdded(w, blkno, n, 1, ix); }
      AddedUp(t, n, 2, no, w);
      return Block(lba), Node(block, t.kids[ip := w]);
    }
    /** The start of a lookup below entry `i` of the inode: a missing block is taken for it, if asked. */
    method OpenEntry(ino: Inode, i: nat, alloc: bool, ghost c: set<nat>, ghost t: Tree)
      returns (e: nat, stale: bool, ghost v: Tree)
      requires Valid() && i < |ino.block| && Entry(disk, used, c, ino.block[i], Entries(), Depth(i), t)
      modifies `freeCount, `maps, `used, ino`block
      ensures Valid() && ino.block == old(ino.block)[i := e] && (old(ino.block)[i] != 0 ==> e == old(ino.block)[i])
      ensures e == 0 <==> old(ino.block)[i] == 0 && (!alloc || old(Free()) == 0)
      ensures Free() == old(Free()) - if e == old(ino.block)[i] then 0 else 1
      ensures e == old(ino.block)[i] ==> v == t && used == old(used) && !stale && ino.block == old(ino.block)
      ensures e != old(ino.block)[i] ==>
        && t == Hole && used == old(used) + {e} && e !in old(used) && e in disk
        && v == (if Depth(i) == 0 then Node(e, []) else Node(e, Holes(Entries())))
        && (stale <==> disk[e] != Zeros(Entries()))
      ensures Depth(i) == 0 || !stale ==> Entry(disk, used, c, e, Entries(), Depth(i), v)
    {
      hide Valid, Entry, Depth;
      e, stale, v := ino.block[i], false, t;
      EntryHole(disk, used, c, e, Entries(), Depth(i), t);
      if alloc && e == 0 {
        e, stale, v := TakeBlock(used, Depth(i));
        ino.block := ino.block[i := e];
      }
    }

    /** ext2_get_block for the twelve direct entries. */
    method GetFirst(ino: Inode, blk: nat, alloc: bool, ghost ts: seq<Tree>, ghost c: set<nat>)
      returns (lba: nat, ghost us: seq<Tree>)
      requires Valid() && blk < DIRECT && File(disk, used, c, ino.block, Entries(), ts)
      modifies `freeCount, `maps, `used, ino`block
      ensures Valid() && Fetched(disk, disk, used, c, ino.block, Entries(), ts, us, blk, lba)
      ensures blk < Capacity(Entries()) && (forall j :: 0 <= j < ENTRIES ==> Formed(ts[j], Entries(), Depth(j)))
      ensures lba == 0 <==> FileMissing(ts, Entries(), blk) > if alloc then old(Free()) else 0
      ensures !alloc || FileMissing(ts, Entries(), blk) == 0 ==>
        us == ts && ino.block == old(ino.block) && used == old(used)
    {
      hide Valid, Entry, File, Formed, LeafAt, Missing, FileMissing, FileBlock, Fetched, Added, FileOffset;
      ghost var n := Entries();
      FreeCount();
      FileStep(disk, used, c, ino.block, n, ts, blk);
      ghost var rest, row := used - Blocks(ts[blk]), ino.block;
      EntryIs(disk, used, rest, ino.block[blk], n, 0, ts[blk], 0);
      MissingMost(ts[blk], n, 0, 0);
      AddedSame(ts[blk], n, 0, 0);
      var stale; ghost var v;
      lba, stale, v := OpenEntry(ino, blk, alloc, rest, ts[blk]);
      EntryIs(disk, used, rest, lba, n, 0, v, 0);
      if v != ts[blk] { LeafTaken(disk, rest, lba, n); }
      FileGot(disk, disk, old(used), used, c, row, n, ts, blk, lba, v);
      us := ts[blk := v];
    }
    /** ext2_get_block for the single indirect entry. */
    method GetSingle(ino: Inode, blk: nat, alloc: bool, ghost ts: seq<Tree>, ghost c: set<nat>)
      returns (r: Got, ghost us: seq<Tree>)
      requires Valid() && DIRECT <= blk < DIRECT + Entries() && File(disk, used, c, ino.block, Entries(), ts)
      modifies `freeCount, `maps, `used, `disk, ino`block
      ensures |ts| == ENTRIES && blk < Capacity(Entries())
      ensures forall j :: 0 <= j < ENTRIES ==> Formed(ts[j], Entries(), Depth(j))
      ensures Valid() && Looked(old(disk), disk, old(used), used, c, ino.block, Entries(), ts, us, blk,
                                if alloc then old(Free()) else 0, r)
      ensures !alloc || FileMissing(ts, Entries(), blk) == 0 ==>
        r.Block? && us == ts && ino.block == old(ino.block) && used == old(used) && disk == old(disk)
    {
      hide Valid, Entry, File, Formed, LeafAt, Missing, FileMissing, FileBlock, Fetched, Added, FileOffset;
      ghost var n, no := Entries(), blk - DIRECT;
      FreeCount();
      FileStep(disk, used, c, ino.block, n, ts, blk);
      ghost var t, rest, row := ts[12], used - Blocks(ts[12]), ino.block;
      EntryIs(disk, used, rest, ino.block[12], n, 1, t, no);
      MissingMost(t, n, 1, no);
      if t.Hole? { HoleMissing(n, 1, no); }
      var e, stale; ghost var v;
      e, stale, v := OpenEntry(ino, 12, alloc, rest, t);
      if stale {
        return Stale(e), ts;
      }
      if v != t { HolesMissing(e, n, 1, no); }
      var lba; ghost var u;
      lba, u := GetDirect(e, blk - DIRECT, alloc, v, rest);
      if v != t { HoleAdded(u, e, n, 1, no); }
      FileGot(old(disk), disk, old(used), used, c, row, n, ts, blk, e, u);
      return Block(lba), ts[12 := u];
    }

    /** ext2_get_block for the double indirect entry. */
    method GetDouble(ino: Inode, blk: nat, alloc: bool, ghost ts: seq<Tree>, ghost c: set<nat>)
      returns (r: Got, ghost us: seq<Tree>)
      requires Valid() && DIRECT + Entries() <= blk < DIRECT + Entries() + Entries() * Entries()
      requires File(disk, used, c, ino.block, Entries(), ts)
      modifies `freeCount, `maps, `used, `disk, ino`block
      ensures |ts| == ENTRIES && blk < Capacity(Entries())
      ensures forall j :: 0 <= j < ENTRIES ==> Formed(ts[j], Entries(), Depth(j))
      ensures Valid() && Looked(old(disk), disk, old(used), used, c, ino.block, Entries(), ts, us, blk,
                                if alloc then old(Free()) else 0, r)
      ensures !alloc || FileMissing(ts, Entries(), blk) == 0 ==>
        r.Block? && us == ts && ino.block == old(ino.block) && used == old(used) && disk == old(disk)
    {
      hide Valid, Entry, File, Formed, LeafAt, Missing, FileMissing, FileBlock, Fetched, Added, FileOffset, Span;
      ghost var n, no := Entries(), blk - (DIRECT + Entries());
      FreeCount();
      FileStep(disk, used, c, ino.block, n, ts, blk);
      ghost var t, rest, row := ts[13], used - Blocks(ts[13]), ino.block;
      EntryIs(disk, used, rest, ino.block[13], n, 2, t, no);
      MissingMost(t, n, 2, no);
      if t.Hole? { HoleMissing(n, 2, no); }
      var e, stale; ghost var v;
      e, stale, v := OpenEntry(ino, 13, alloc, rest, t);
      if stale {
        return Stale(e), ts;
      }
      if v != t { HolesMissing(e, n, 2, no); }
      ghost var u;
      r, u := GetIndirect(e, blk - (DIRECT + Entries()), alloc, v, rest);
      if r.Stale? {
        return r, ts;
      }
      if v != t { HoleAdded(u, e, n, 2, no); }
      FileGot(old(disk), disk, old(used), used, c, row, n, ts, blk, e, u);
      us := ts[13 := u];
    }

    /** ext2_get_block for the triple indirect entry. With allocation an entry that is there is replaced by a
        new block, so that its tree is lost; one that is missing stays missing. */
    method GetTriple(ino: Inode, no: nat, alloc: bool) returns (r: Got)
      requires Valid() && |ino.block| == ENTRIES
      modifies `freeCount, `maps, `used, ino`block
      ensures Valid() && (!alloc || old(ino.block)[14] == 0 ==> ino.block == old(ino.block) && used == old(used))
      ensures !alloc ==> r == Indirect(disk, ino.block[14], Entries(), no, 1)
      ensures old(ino.block)[14] == 0 ==> r == Block(0)
      ensures alloc && old(ino.block)[14] != 0 ==>
        && |ino.block| == ENTRIES && ino.block == old(ino.block)[14 := ino.block[14]]
        && (ino.block[14] == 0 <==> old(Free()) == 0) && (ino.block[14] == 0 || ino.block[14] !in old(used))
        && r == if ino.block[14] == 0 then Block(0) else Wild
    {
      hide Valid;
      if alloc && ino.block[14] != 0 {
        var b := AllocBlock();
        ino.block := ino.block[14 := b];
        return if b == 0 then Block(0) else Wild;
      }
      r := Indirect(disk, ino.block[14], Entries(), no, 1);
    }

    /** ext2_get_block */
    method GetBlock(ino: Inode, blk: nat, alloc: bool, ghost ts: seq<Tree>, ghost c: set<nat>)
      returns (r: Got, ghost us: seq<Tree>)
      requires Valid() && Capacity(Entries()) <= INT_MAX && File(disk, used, c, ino.block, Entries(), ts)
      modifies `freeCount, `maps, `used, `disk, ino`block
      ensures Valid() && |ts| == ENTRIES && forall j :: 0 <= j < ENTRIES ==> Formed(ts[j], Entries(), Depth(j))
      // up to double indirection the block is found, or added
      ensures blk < DIRECT + Entries() + Entries() * Entries() ==>
        && blk < Capacity(Entries())
        && Looked(old(disk), disk, old(used), used, c, ino.block, Entries(), ts, us, blk,
                  if alloc then old(Free()) else 0, r)
        && (!alloc || FileMissing(ts, Entries(), blk) == 0 ==>
              r.Block? && us == ts && ino.block == old(ino.block) && used == old(used) && disk == old(disk))
      // past it another block is found, or none, or worse (see TripleNever); or the entry is lost
      ensures var first := DIRECT + Entries() + Entries() * Entries(); first <= blk < Capacity(Entries()) ==>
        && |ino.block| == ENTRIES && disk == old(disk) && blk - first < Span(Entries(), 3)
        && (!alloc ==> Strays(ts[14], Entries(), blk - first, r))
        && (!alloc || ts[14].Hole? ==> ino.block == old(ino.block) && used == old(used))
        && (alloc && ts[14].Hole? ==> r == Block(0))
        && (alloc && ts[14].Node? ==>
              && ino.block == old(ino.block)[14 := ino.block[14]] && (ino.block[14] == 0 <==> old(Free()) == 0)
              && (ino.block[14] == 0 || ino.block[14] !in old(used))
              && r == if ino.block[14] == 0 then Block(0) else Wild)
      ensures blk >= Capacity(Entries()) ==>
        r == Block(0) && ino.block == old(ino.block) && used == old(used) && disk == old(disk)
    {
      hide Valid, Formed, Looked, Indirect, FileMissing, OnDisk, Owns;
      us := ts;
      var n := Entries();
      if blk < 12 {
        var lba;
        lba, us := GetFirst(ino, blk, alloc, ts, c);
        r := Block(lba);
        FirstLooked(old(disk), disk, old(used), used, c, ino.block, n, ts, us, blk,
                    if alloc then old(Free()) else 0, lba);
      } else if blk < 12 + n {
        r, us := GetSingle(ino, blk, alloc, ts, c);
      } else if blk - (12 + n) < n * n {
        r, us := GetDouble(ino, blk, alloc, ts, c);
      } else if blk - (12 + n + n * n) < n * n * n {
        TripleHere(ino.block, ts, c, blk - (12 + n + n * n));
        r := GetTriple(ino, blk - (12 + n + n * n), alloc);
      } else {
        r := Block(0);
      }
    }
    /** What the walk below the triple indirect entry finds. */
    lemma TripleHere(row: seq<nat>, ts: seq<Tree>, c: set<nat>, k: nat)
      requires blockSize > 0 && File(disk, used, c, row, Entries(), ts)
      requires k < Entries() * Entries() * Entries()
      ensures |row| == |ts| == ENTRIES && Formed(ts[14], Entries(), 3) && k < Span(Entries(), 3)
      ensures Strays(ts[14], Entries(), k, Indirect(disk, row[14], Entries(), k, 1))
      ensures row[14] == 0 <==> ts[14].Hole?
    {
      hide Strays, Indirect;
      var n := Entries();
      SpanThree(n);
      assert OnDisk(disk, row[14], Depth(14), ts[14]) && Formed(ts[14], n, Depth(14));
      TripleWalks(disk, row[14], ts[14], n, k);
    }

    /** The block count of a size: rounded up to whole blocks with a 32-bit mask. */
    function BlockCount(size: nat): nat
      requires blockSize > 0
    {
      MaskedCount(size, blockSize)
    }

    lemma CountHere(size: nat)
      requires blockSize > 0 && WORD % blockSize == 0
      ensures BlockCount(size) == BlocksFor(size, blockSize) <==> size + blockSize - 1 < WORD
      ensures size <= BlockCount(size) * blockSize < size + blockSize <==> size + blockSize - 1 < WORD
    {
      CountRightIff(size, blockSize);
      CountExact(size, blockSize, BlockCount(size));
    }

    lemma Beyond(block: nat)
      requires Valid()
      ensures block >= Size() <==> block / perGroup >= groups
    {
      GroupBeyond(block, perGroup, groups);
    }
  }

  function Blank(total: nat, n: nat): (disk: Disk)
    ensures DiskOk(disk, total, n)
  {
    if total == 0 then map[] else Blank(total - 1, n)[total - 1 := Zeros(n)]
  }

  lemma FormattedMap(size: nat)
    requires size > 0
    ensures var m := WithBit(seq(size, i => 0), 0, true);
      && |m| == size && BitAt(m, 0) && (forall x :: 1 <= x < 8 * size ==> !BitAt(m, x))
      && Clear(m, 8 * size) == 8 * size - 1
  {
    var zeros: seq<bv8> := seq(size, i => 0);
    SameLength(zeros, 0, true);
    forall x | 0 <= x < 8 * size ensures !BitAt(zeros, x) {}
    var m := WithBit(zeros, 0, true);
    hide BitAt, WithBit;
    forall x | 0 <= x < 8 * size ensures BitAt(m, x) <==> x == 0 { WithBitAt(zeros, 0, true, x); }
    ClearRange(m, 1, 8 * size, 8 * size);
  }

  lemma Formatted(m: seq<bv8>, per: nat)
    requires per > 0 && per == 8 * |m| && BitAt(m, 0) && forall x :: 1 <= x < per ==> !BitAt(m, x)
    ensures forall b: nat :: b == 0 <==> InUse([m], per, b)
  {
    hide BitAt, InUse;
    forall b: nat ensures b == 0 <==> InUse([m], per, b) {
      if b < per { OneGroup(m, per, b); } else { NoGroup(m, per, b); }
    }
  }

  lemma OneGroup(m: seq<bv8>, per: nat, b: nat)
    requires b < per == 8 * |m|
    ensures InUse([m], per, b) <==> BitAt(m, b)
  {
    hide BitAt;
    Locate(0, b, per);
  }

  lemma NoGroup(m: seq<bv8>, per: nat, b: nat)
    requires 0 < per <= b
    ensures !InUse([m], per, b)
  {
    hide BitAt;
    GroupBeyond(b, per, 1);
  }

  lemma MapSize(s: seq<bv8>, size: nat, per: nat)
    requires MapOk(s, size, per)
    ensures |s| == size && per <= 8 * size
  {
  }

  lemma UseIs(maps: seq<seq<bv8>>, size: nat, per: nat, i: nat, x: nat)
    requires i < |maps| && MapOk(maps[i], size, per) && x < per
    ensures InUse(maps, per, i * per + x) <==> BitAt(maps[i], x)
  {
    Locate(i, x, per);
  }

  lemma ByteAt(s: seq<bv8>, j: nat, k: nat, v: bool)
    requires j < |s| && k < 8
    ensures WithBit(s, 8 * j + k, v) == s[j := if v then s[j] | Mask(k) else s[j] & !Mask(k)]
  {
    assert (8 * j + k) / 8 == j && (8 * j + k) % 8 == k;
  }

  /** A clear bit stands for a block of the group. */
  lemma FreeBit(s: seq<bv8>, size: nat, per: nat, j: nat, k: nat)
    requires MapOk(s, size, per) && j < |s| && k < 8 && !Bit(s[j], k)
    ensures 8 * j + k < per && !BitAt(s, 8 * j + k)
  {
    assert (8 * j + k) / 8 == j && (8 * j + k) % 8 == k;
    assert !BitAt(s, 8 * j + k);
  }

  /** The groups below `i` have no free block. */
  ghost predicate FullTo(maps: seq<seq<bv8>>, size: nat, i: nat) {
    i <= |maps| && forall g :: 0 <= g < i ==> |maps[g]| == size && Clear(maps[g], 8 * size) == 0
  }

  /** The bits below bit `k` of byte `j` are set. */
  predicate SetTo(s: seq<bv8>, j: nat, k: nat) {
    && j < |s| && k < 8
    && (forall q :: 0 <= q < j ==> s[q] == 0xFF) && forall q :: 0 <= q < k ==> Bit(s[j], q)
  }

  /** What lies below the first clear bit of the first group with one is in use. */
  lemma UsedBelow(maps: seq<seq<bv8>>, size: nat, per: nat, i: nat, j: nat, k: nat, x: nat)
    requires i < |maps| && 0 < per <= 8 * size && |maps[i]| == size && FullTo(maps, size, i) && SetTo(maps[i], j, k)
    requires 8 * j + k < per && x < BlockNo(i, per, 8 * j + k)
    ensures InUse(maps, per, x)
  {
    hide BitAt, Clear, SetTo, FullTo;
    FirstDigit(x, per, i, 8 * j + k);
    if x / per < i { FullBit(maps, size, i, x / per, x % per); } else { SetBelow(maps[i], j, k, x % per); }
  }

  lemma FullBit(maps: seq<seq<bv8>>, size: nat, i: nat, g: nat, y: nat)
    requires FullTo(maps, size, i) && g < i && y < 8 * size
    ensures |maps[g]| == size && BitAt(maps[g], y)
  {
    hide BitAt;
    ClearNone(maps[g], 8 * size);
  }

  lemma FirstDigit(x: nat, per: nat, i: nat, y: nat)
    requires x < i * per + y && y < per
    ensures x % per < per && (x / per < i || (x / per == i && x % per < y))
  {
    Rejoin(x, per, x / per, x % per);
    if x / per > i { MulMono(i + 1, x / per, per); }
  }

  lemma SetBelow(s: seq<bv8>, j: nat, k: nat, y: nat)
    requires SetTo(s, j, k) && y < 8 * j + k
    ensures BitAt(s, y)
  {
    hide Bit;
    WholeByte(0xFF);
    if y / 8 < j { assert s[y / 8] == 0xFF; }
  }

  /** Group, byte and bit of a block; the assertion of ext2_release_block holds as groups are whole bytes. */
  method Digits(b: nat, per: nat) returns (i: nat, j: nat, k: nat)
    requires per > 0 && per % 8 == 0
    ensures i == b / per && 8 * j + k == b % per && k < 8 && BlockNo(i, per, 8 * j + k) == b
  {
    i := b / per;
    Rejoin(b, per, i, b % per);
    var x := b - i * per;
    j := x / 8;
    k := b % 8;
    var w := per / 8;
    assert i * (8 * w) == i * per;
    Regroup(i, w);
    ModEight(b, i * w, x);
  }

  lemma Regroup(i: nat, w: nat)
    ensures i * (8 * w) == 8 * (i * w)
  {
  }

  lemma ModEight(b: nat, m: nat, x: nat)
    requires b == 8 * m + x
    ensures b % 8 == x % 8
  {
  }

  lemma UsedHere(maps: seq<seq<bv8>>, per: nat, b: nat)
    requires InUse(maps, per, b)
    ensures per > 0 && b / per < |maps|
  {
    hide BitAt;
  }

  lemma GroupBeyond(b: nat, per: nat, groups: nat)
    requires per > 0
    ensures b >= groups * per <==> b / per >= groups
  {
    Rejoin(b, per, b / per, b % per);
    if b / per >= groups { MulMono(groups, b / per, per); } else { MulMono(b / per + 1, groups, per); }
  }

  lemma BitIs(byte: bv8, k: nat)
    requires k < 8
    ensures byte & Mask(k) != 0 <==> Bit(byte, k)
  {
  }

  /** A bitmap of full bytes has no clear bit. */
  lemma FullMap(s: seq<bv8>, size: nat)
    requires |s| == size && forall q :: 0 <= q < size ==> s[q] == 0xFF
    ensures Clear(s, 8 * size) == 0
  {
    WholeByte(0xFF);
    ClearNone(s, 8 * size);
  }
}
