/** The boundary-tag heap arena: chunk headers in memory, a doubly linked list of free chunks.

    Headers are a map from address to header. Stale headers (inside merged chunks) and the link
    fields of allocated chunks hold whatever the memory holds. The size of the chunk before is kept
    in a field of 31 bits. */
module Arena {

  import opened Machine
  import opened Sums

  const HEADER: nat := 8
  const MIN_CHUNK: nat := 16
  const POISON: nat := 0xAAAA_AAAA
  /** The sizes that the field for the size of the chunk before can hold are those below this. */
  const BACK: nat := 0x8000_0000

  datatype Hdr = Hdr(size: nat, prsz: nat, isfree: bool, prev: nat, next: nat)

  type Memory = map<nat, Hdr>

  // ----- the invariant ---------------------------------------------------------------------------

  /** Chunks start at `lo`, each starts where another ends, none overlap, the last ends at `hi`. */
  predicate Tiled(m: Memory, chunks: set<nat>, lo: nat, hi: nat) {
    lo in chunks && Inside(m, chunks, lo, hi) && Adjacent(m, chunks, hi) && Ordered(m, chunks)
  }

  predicate Inside(m: Memory, chunks: set<nat>, lo: nat, hi: nat) {
    forall t :: t in chunks ==> t in m && lo <= t && m[t].size >= MIN_CHUNK && t + m[t].size <= hi
  }

  predicate Adjacent(m: Memory, chunks: set<nat>, hi: nat)
    requires forall t :: t in chunks ==> t in m
  {
    forall t :: t in chunks && t + m[t].size < hi ==> t + m[t].size in chunks
  }

  predicate Ordered(m: Memory, chunks: set<nat>)
    requires forall t :: t in chunks ==> t in m
  {
    forall t, u :: t in chunks && u in chunks && t < u ==> t + m[t].size <= u
  }

  /** What the field for the size of the chunk before holds of a size. */
  function Back(size: nat): nat { size % BACK }

  /** The chunk after `t` records the size of `t`, as far as the field goes. */
  predicate BackSize(m: Memory, chunks: set<nat>, t: nat)
    requires t in m
  {
    var d := t + m[t].size;
    d in chunks && d in m ==> m[d].prsz == Back(m[t].size)
  }

  predicate BackSizes(m: Memory, chunks: set<nat>, lo: nat)
    requires forall t :: t in chunks ==> t in m
  {
    (lo in chunks ==> m[lo].prsz == 0) && forall t :: t in chunks ==> BackSize(m, chunks, t)
  }

  predicate NoFreePair(m: Memory, chunks: set<nat>)
    requires forall t :: t in chunks ==> t in m
  {
    forall t :: t in chunks && m[t].isfree && t + m[t].size in chunks ==> !m[t + m[t].size].isfree
  }

  function Nth(list: seq<nat>, i: int): nat { if 0 <= i < |list| then list[i] else 0 }

  predicate LinkAt(m: Memory, list: seq<nat>, i: int)
    requires 0 <= i < |list|
  {
    list[i] in m && list[i] != 0 && m[list[i]].prev == Nth(list, i - 1) && m[list[i]].next == Nth(list, i + 1)
  }

  /** The free list is a proper doubly linked list over `list`. */
  predicate Linked(m: Memory, list: seq<nat>, free: nat) {
    && free == Nth(list, 0)
    && (forall i :: 0 <= i < |list| ==> LinkAt(m, list, i))
    && (forall i, j :: 0 <= i < j < |list| ==> list[i] != list[j])
  }

  /** From `i` on, past the elements that are not smaller than `size`. */
  function Past(m: Memory, list: seq<nat>, size: nat, i: nat): (r: nat)
    ensures i <= |list| ==> i <= r <= |list|
    decreases |list| - i
  {
    if i < |list| && list[i] in m && m[list[i]].size >= size then Past(m, list, size, i + 1) else i
  }

  /** Where a chunk of `size` bytes enters the free list. */
  function Place(m: Memory, list: seq<nat>, size: nat): (r: nat)
    ensures r <= |list|
  {
    if list == [] || (list[0] in m && m[list[0]].size >= size) then 0 else Past(m, list, size, 1)
  }

  lemma LinkedIn(m: Memory, list: seq<nat>, free: nat)
    requires Linked(m, list, free)
    ensures forall t :: t in list ==> t in m
  {
    forall t | t in list ensures t in m {
      var i :| 0 <= i < |list| && list[i] == t;
      assert LinkAt(m, list, i);
    }
  }

  /** Index `i` is the head of a list that starts no smaller, or else where the chunks behind the head first
      get smaller than `size`. */
  predicate Placed(m: Memory, list: seq<nat>, size: nat, i: nat)
    requires forall t :: t in list ==> t in m
  {
    && i <= |list| && (i == 0 <==> list == [] || m[list[0]].size >= size)
    && (forall j :: 1 <= j < i ==> m[list[j]].size >= size)
    && (0 < i < |list| ==> m[list[i]].size < size)
  }

  lemma PlaceIs(m: Memory, list: seq<nat>, size: nat)
    requires forall t :: t in list ==> t in m
    ensures Placed(m, list, size, Place(m, list, size))
  {
    if Place(m, list, size) != 0 { PastIs(m, list, size, 1); }
  }

  lemma {:induction false} PastIs(m: Memory, list: seq<nat>, size: nat, i: nat)
    requires 1 <= i <= |list| && forall t :: t in list ==> t in m
    ensures var k := Past(m, list, size, i);
      && i <= k <= |list| && (forall j :: i <= j < k ==> m[list[j]].size >= size)
      && (k < |list| ==> m[list[k]].size < size)
    decreases |list| - i
  {
    if i < |list| && m[list[i]].size >= size { PastIs(m, list, size, i + 1); }
  }

  /** The first of the list with at least `n` bytes. */
  ghost predicate FirstOf(m: Memory, list: seq<nat>, n: nat, c: nat) {
    exists i :: 0 <= i < |list| && list[i] == c && c in m && m[c].size >= n && TooSmall(m, list[..i], n)
  }

  predicate TooSmall(m: Memory, list: seq<nat>, n: nat) {
    forall j :: 0 <= j < |list| ==> list[j] in m && m[list[j]].size < n
  }

  ghost predicate ListExact(m: Memory, chunks: set<nat>, list: seq<nat>)
    requires forall t :: t in chunks ==> t in m
  {
    forall t :: t in list <==> t in chunks && m[t].isfree
  }

  /** The allocated chunks and their sizes. */
  function Live(m: Memory, chunks: set<nat>): map<nat, nat>
    requires forall t :: t in chunks ==> t in m
  {
    map t | t in chunks && !m[t].isfree :: m[t].size
  }

  ghost predicate Inv(m: Memory, free: nat, used: int, chunks: set<nat>, list: seq<nat>, lo: nat, hi: nat) {
    && 0 < lo && Tiled(m, chunks, lo, hi) && BackSizes(m, chunks, lo) && NoFreePair(m, chunks)
    && Linked(m, list, free) && ListExact(m, chunks, list)
    && used == Total(Live(m, chunks))
  }

  // ----- what the invariant means -----------------------------------------------------------------

  predicate Within(t: nat, size: nat, a: nat) { t <= a < t + size }

  /** Every byte of the arena lies in a chunk. */
  lemma {:induction false} Covered(m: Memory, chunks: set<nat>, lo: nat, hi: nat, t: nat, a: nat) returns (c: nat)
    requires Tiled(m, chunks, lo, hi) && t in chunks && t <= a < hi
    ensures c in chunks && Within(c, m[c].size, a)
    decreases a - t
  {
    if a < t + m[t].size {
      c := t;
    } else {
      c := Covered(m, chunks, lo, hi, t + m[t].size, a);
    }
  }

  /** [a, a + n) lies in the arena and meets no allocated chunk. */
  ghost predicate Gap(live: map<nat, nat>, lo: nat, hi: nat, a: nat, n: nat) {
    lo <= a && a + n <= hi && forall t :: t in live ==> t + live[t] <= a || a + n <= t
  }

  ghost predicate HasGap(live: map<nat, nat>, lo: nat, hi: nat, n: nat) {
    exists a :: Gap(live, lo, hi, a, n)
  }

  /** Free chunks are the maximal gaps: room for `n` bytes anywhere is room in one free chunk. */
  lemma GapInChunk(m: Memory, chunks: set<nat>, lo: nat, hi: nat, a: nat, n: nat) returns (c: nat)
    requires Tiled(m, chunks, lo, hi) && NoFreePair(m, chunks)
    requires n > 0 && Gap(Live(m, chunks), lo, hi, a, n)
    ensures c in chunks && m[c].isfree && c <= a && a + n <= c + m[c].size
  {
    c := Covered(m, chunks, lo, hi, lo, a);
    var live, next := Live(m, chunks), c + m[c].size;
    assert c in live <==> !m[c].isfree;
    assert next in live <==> next in chunks && !m[next].isfree;
  }

  lemma ChunkIsGap(m: Memory, chunks: set<nat>, lo: nat, hi: nat, c: nat, n: nat)
    requires Tiled(m, chunks, lo, hi) && c in chunks && m[c].isfree && n <= m[c].size
    ensures Gap(Live(m, chunks), lo, hi, c, n)
  {
  }

  lemma AllFree(m: Memory, chunks: set<nat>)
    requires (forall t :: t in chunks ==> t in m) && Live(m, chunks) == map[]
    ensures forall t :: t in chunks ==> m[t].isfree
  {
    var live := Live(m, chunks);
    assert forall t :: t in chunks ==> (t in live <==> !m[t].isfree);
  }

  lemma Differ(list: seq<nat>)
    requires |list| >= 2 && forall i, j :: 0 <= i < j < |list| ==> list[i] != list[j]
    ensures list[0] != list[1]
  {
  }

  lemma Single(list: seq<nat>, lo: nat)
    requires (forall i, j :: 0 <= i < j < |list| ==> list[i] != list[j]) && forall t :: t in list <==> t == lo
    ensures list == [lo]
  {
    assert lo in list && forall i :: 0 <= i < |list| ==> list[i] in list;
    if |list| >= 2 {
      Differ(list);
      assert false;
    }
  }

  /** With nothing allocated the arena is its single initial chunk. */
  lemma EmptyIsWhole(m: Memory, free: nat, used: int, chunks: set<nat>, list: seq<nat>, lo: nat, hi: nat)
    requires Inv(m, free, used, chunks, list, lo, hi) && Live(m, chunks) == map[]
    ensures chunks == {lo} && m[lo].size == hi - lo && list == [lo] && free == lo && used == 0
  {
    AllFree(m, chunks);
    PairTaken(m, chunks, lo);
    AfterIn(m, chunks, lo, hi, lo);
    assert forall t :: t in chunks ==> t == lo;
    Single(list, lo);
  }

  /** The memory of allocated chunks, and stale headers, may be overwritten freely. */
  lemma DataIsFree(m: Memory, w: Memory, free: nat, used: int, chunks: set<nat>, list: seq<nat>, lo: nat, hi: nat)
    requires Inv(m, free, used, chunks, list, lo, hi) && SameChunks(m, w, chunks)
    requires forall t :: t in chunks ==> w[t].isfree == m[t].isfree && (m[t].isfree ==> w[t] == m[t])
    ensures Inv(w, free, used, chunks, list, lo, hi) && Live(w, chunks) == Live(m, chunks)
  {
    hide Tiled, BackSizes, Linked;
    TiledIn(m, chunks, lo, hi);
    SameTiles(m, w, chunks, lo, hi);
    assert Live(w, chunks) == Live(m, chunks);
    assert Linked(w, list, free) by { SameLinks(m, w, list, free); }
  }

  lemma SameLinks(m: Memory, w: Memory, list: seq<nat>, free: nat)
    requires Linked(m, list, free)
    requires forall t :: t in list ==> t in m && t in w && w[t].prev == m[t].prev && w[t].next == m[t].next
    ensures Linked(w, list, free)
  {
    forall i | 0 <= i < |list| ensures LinkAt(w, list, i) { assert LinkAt(m, list, i); }
  }

  /** The chunks have the same sizes and back sizes in both memories. */
  predicate SameChunks(m: Memory, w: Memory, chunks: set<nat>)
    requires forall t :: t in chunks ==> t in m
  {
    forall t :: t in chunks ==> t in w && w[t].size == m[t].size && w[t].prsz == m[t].prsz
  }

  lemma SameTiling(m: Memory, w: Memory, chunks: set<nat>, lo: nat, hi: nat)
    requires Tiled(m, chunks, lo, hi) && SameChunks(m, w, chunks)
    ensures Tiled(w, chunks, lo, hi)
  {
  }

  lemma SameBack(m: Memory, w: Memory, chunks: set<nat>, t: nat)
    requires (forall c :: c in chunks ==> c in m) && SameChunks(m, w, chunks)
    requires t in chunks && BackSize(m, chunks, t)
    ensures BackSize(w, chunks, t)
  {
  }

  lemma SameTiles(m: Memory, w: Memory, chunks: set<nat>, lo: nat, hi: nat)
    requires Tiled(m, chunks, lo, hi) && BackSizes(m, chunks, lo) && SameChunks(m, w, chunks)
    ensures Tiled(w, chunks, lo, hi) && BackSizes(w, chunks, lo)
  {
    hide Tiled, BackSize;
    TiledIn(m, chunks, lo, hi);
    SameTiling(m, w, chunks, lo, hi);
    forall t | t in chunks ensures BackSize(w, chunks, t) { SameBack(m, w, chunks, t); }
  }

  // ----- the steps, on values --------------------------------------------------------------------

  /** `w` is `m` up to links, with chunk `c` marked free or not. */
  predicate Relinked(m: Memory, w: Memory, c: nat, isfree: bool) {
    && w.Keys == m.Keys
    && forall k :: k in m ==>
         && w[k].size == m[k].size && w[k].prsz == m[k].prsz
         && w[k].isfree == if k == c then isfree else m[k].isfree
  }

  lemma Taken(m: Memory, w: Memory, free: nat, free': nat, used: int, chunks: set<nat>, list: seq<nat>,
              list': seq<nat>, lo: nat, hi: nat, c: nat)
    requires Inv(m, free, used, chunks, list, lo, hi) && c in list
    requires Relinked(m, w, c, false) && Linked(w, list', free')
    requires forall t :: t in list' <==> t in list && t != c
    ensures c in chunks && m[c].isfree
    ensures Inv(w, free', used + m[c].size, chunks, list', lo, hi)
    ensures Live(w, chunks) == Live(m, chunks)[c := m[c].size]
  {
    hide Linked, Tiled, BackSizes, Live, Total;
    TiledIn(m, chunks, lo, hi);
    SameTiles(m, w, chunks, lo, hi);
    LiveMarked(m, w, chunks, c, false);
    TotalAdd(Live(m, chunks), c, m[c].size);
  }

  lemma LiveMarked(m: Memory, w: Memory, chunks: set<nat>, c: nat, isfree: bool)
    requires (forall t :: t in chunks ==> t in m) && c in chunks && Relinked(m, w, c, isfree) && m[c].isfree != isfree
    ensures isfree ==>
      c in Live(m, chunks) && Live(m, chunks)[c] == m[c].size && Live(w, chunks) == Live(m, chunks) - {c}
    ensures !isfree ==> c !in Live(m, chunks) && Live(w, chunks) == Live(m, chunks)[c := m[c].size]
  {
  }

  lemma TiledIn(m: Memory, chunks: set<nat>, lo: nat, hi: nat)
    requires Tiled(m, chunks, lo, hi)
    ensures lo in chunks && forall t :: t in chunks ==> t in m
  {
  }

  /** The chunks on both sides of `c` are allocated. */
  predicate Alone(m: Memory, chunks: set<nat>, c: nat)
    requires forall t :: t in chunks ==> t in m
    requires c in chunks
  {
    && (c + m[c].size in chunks ==> !m[c + m[c].size].isfree)
    && (forall t :: t in chunks && t + m[t].size == c ==> !m[t].isfree)
  }

  lemma Given(m: Memory, w: Memory, free: nat, free': nat, used: int, chunks: set<nat>, list: seq<nat>,
              list': seq<nat>, lo: nat, hi: nat, c: nat)
    requires Inv(m, free, used, chunks, list, lo, hi) && c in chunks && !m[c].isfree && Alone(m, chunks, c)
    requires Relinked(m, w, c, true) && Linked(w, list', free')
    requires forall t :: t in list' <==> t in list || t == c
    ensures Inv(w, free', used - m[c].size, chunks, list', lo, hi)
    ensures Live(w, chunks) == Live(m, chunks) - {c}
  {
    hide Linked, Tiled, BackSizes, NoFreePair, Alone, Live, Total;
    TiledIn(m, chunks, lo, hi);
    SameTiles(m, w, chunks, lo, hi);
    GivenPairs(m, w, chunks, lo, hi, c);
    LiveMarked(m, w, chunks, c, true);
    TotalRemove(Live(m, chunks), c);
  }

  lemma GivenPairs(m: Memory, w: Memory, chunks: set<nat>, lo: nat, hi: nat, c: nat)
    requires Tiled(m, chunks, lo, hi) && NoFreePair(m, chunks) && c in chunks && Alone(m, chunks, c)
    requires Relinked(m, w, c, true)
    ensures NoFreePair(w, chunks)
  {
    hide BackSizes;
    forall t | t in chunks && w[t].isfree && t + w[t].size in chunks ensures !w[t + w[t].size].isfree {
      assert t + m[t].size != t;
    }
  }

  function Resized(h: Hdr, size: nat): Hdr { Hdr(size, h.prsz, h.isfree, h.prev, h.next) }

  function WithBack(h: Hdr, prsz: nat): Hdr { Hdr(h.size, prsz, h.isfree, h.prev, h.next) }

  /** Chunk `c` is given `size`, and the chunk after it, if any, is told. */
  function SetSize(m: Memory, hi: nat, c: nat, size: nat): Memory
    requires c in m && (c + size < hi ==> c + size in m)
  {
    var w := m[c := Resized(m[c], size)];
    if c + size < hi then w[c + size := WithBack(w[c + size], Back(size))] else w
  }

  /** Only one chunk ends at a given address. */
  lemma EndsOnce(m: Memory, chunks: set<nat>, lo: nat, hi: nat, p: nat, q: nat)
    requires Tiled(m, chunks, lo, hi) && p in chunks && q in chunks && p + m[p].size == q + m[q].size
    ensures p == q
  {
  }

  /** `d` is the chunk after `c`. */
  predicate Follows(m: Memory, chunks: set<nat>, c: nat, d: nat) {
    c in chunks && d in chunks && c in m && d in m && d == c + m[c].size
  }

  lemma AfterIn(m: Memory, chunks: set<nat>, lo: nat, hi: nat, c: nat)
    requires Tiled(m, chunks, lo, hi) && c in chunks
    ensures c in m && m[c].size >= MIN_CHUNK && lo <= c && c + m[c].size <= hi
    ensures c + m[c].size < hi <==> c + m[c].size in chunks
    ensures c + m[c].size in chunks ==> c + m[c].size in m && Follows(m, chunks, c, c + m[c].size)
  {
  }

  /** What SetSize changes. */
  predicate Sized(m: Memory, w: Memory, hi: nat, c: nat, size: nat) {
    && w.Keys == m.Keys
    && forall k :: k in m ==> w[k] == Hdr(
         if k == c then size else m[k].size,
         if k == c + size && k < hi then Back(size) else m[k].prsz,
         m[k].isfree, m[k].prev, m[k].next)
  }

  lemma SetSizeIs(m: Memory, hi: nat, c: nat, size: nat)
    requires c in m && size > 0 && (c + size < hi ==> c + size in m)
    ensures Sized(m, SetSize(m, hi, c, size), hi, c, size)
  {
  }

  lemma MergedTiled(m: Memory, w: Memory, chunks: set<nat>, lo: nat, hi: nat, c: nat, d: nat)
    requires Tiled(m, chunks, lo, hi) && Follows(m, chunks, c, d) && Sized(m, w, hi, c, m[c].size + m[d].size)
    ensures Tiled(w, chunks - {d}, lo, hi)
  {
    hide Adjacent, Ordered;
    MergedAdjacent(m, w, chunks, lo, hi, c, d);
    MergedOrdered(m, w, chunks, lo, hi, c, d);
  }

  lemma MergedAdjacent(m: Memory, w: Memory, chunks: set<nat>, lo: nat, hi: nat, c: nat, d: nat)
    requires Tiled(m, chunks, lo, hi) && Follows(m, chunks, c, d) && Sized(m, w, hi, c, m[c].size + m[d].size)
    ensures Adjacent(w, chunks - {d}, hi)
  {
    hide Tiled;
    TiledIn(m, chunks, lo, hi);
    forall t | t in chunks - {d} && t + w[t].size < hi ensures t + w[t].size in chunks - {d} {
      AfterIn(m, chunks, lo, hi, t);
      AfterIn(m, chunks, lo, hi, d);
      if t != c && t + m[t].size == d { EndsOnce(m, chunks, lo, hi, t, c); }
    }
  }

  lemma MergedOrdered(m: Memory, w: Memory, chunks: set<nat>, lo: nat, hi: nat, c: nat, d: nat)
    requires Tiled(m, chunks, lo, hi) && Follows(m, chunks, c, d) && Sized(m, w, hi, c, m[c].size + m[d].size)
    ensures (forall t :: t in chunks - {d} ==> t in w) && Ordered(w, chunks - {d})
  {
    hide Adjacent;
    forall t, u | t in chunks - {d} && u in chunks - {d} && t < u ensures t + w[t].size <= u {
      assert t + m[t].size <= u;
      if t == c { assert d < u; }
    }
  }

  lemma MergedBack(m: Memory, w: Memory, chunks: set<nat>, lo: nat, hi: nat, c: nat, d: nat, t: nat)
    requires Tiled(m, chunks, lo, hi) && Follows(m, chunks, c, d) && Sized(m, w, hi, c, m[c].size + m[d].size)
    requires t in chunks - {d} && t in m && BackSize(m, chunks, t)
    ensures BackSize(w, chunks - {d}, t)
  {
    hide Tiled;
    AfterIn(m, chunks, lo, hi, d);
    AfterIn(m, chunks, lo, hi, t);
    if t + m[t].size == d + m[d].size { EndsOnce(m, chunks, lo, hi, t, d); }
  }

  lemma MergedPairs(m: Memory, w: Memory, chunks: set<nat>, lo: nat, hi: nat, c: nat, d: nat)
    requires Tiled(m, chunks, lo, hi) && Follows(m, chunks, c, d) && Sized(m, w, hi, c, m[c].size + m[d].size)
    requires !m[c].isfree && !m[d].isfree && NoFreePair(m, chunks)
    ensures NoFreePair(w, chunks - {d})
  {
    TiledIn(m, chunks, lo, hi);
    hide Tiled;
  }

  lemma MergedLive(m: Memory, w: Memory, chunks: set<nat>, hi: nat, c: nat, d: nat)
    requires (forall t :: t in chunks ==> t in m) && Follows(m, chunks, c, d) && c != d
    requires Sized(m, w, hi, c, m[c].size + m[d].size) && !m[c].isfree && !m[d].isfree
    ensures Live(w, chunks - {d}) == (Live(m, chunks) - {d})[c := m[c].size + m[d].size]
  {
  }

  lemma TotalMerge(m: map<nat, nat>, c: nat, d: nat)
    requires c in m && d in m && c != d
    ensures Total((m - {d})[c := m[c] + m[d]]) == Total(m)
  {
    TotalRemove(m, d);
    TotalRemove(m - {d}, c);
    TotalPut(m - {d}, c, m[c] + m[d]);
  }

  /** arena_collapse on two allocated neighbours. */
  lemma Merged(m: Memory, free: nat, used: int, chunks: set<nat>, list: seq<nat>, lo: nat, hi: nat, c: nat, d: nat)
    requires Inv(m, free, used, chunks, list, lo, hi) && Follows(m, chunks, c, d) && !m[c].isfree && !m[d].isfree
    ensures d + m[d].size < hi ==> d + m[d].size in m
    ensures var size := m[c].size + m[d].size; var w := SetSize(m, hi, c, size);
      && Inv(w, free, used, chunks - {d}, list, lo, hi)
      && Live(w, chunks - {d}) == (Live(m, chunks) - {d})[c := size]
  {
    hide Tiled, BackSize, Linked, NoFreePair, SetSize, Live, Total;
    AfterIn(m, chunks, lo, hi, c);
    AfterIn(m, chunks, lo, hi, d);
    TiledIn(m, chunks, lo, hi);
    var size := m[c].size + m[d].size;
    var w := SetSize(m, hi, c, size);
    SetSizeIs(m, hi, c, size);
    MergedTiled(m, w, chunks, lo, hi, c, d);
    forall t | t in chunks - {d} ensures BackSize(w, chunks - {d}, t) {
      MergedBack(m, w, chunks, lo, hi, c, d, t);
    }
    MergedPairs(m, w, chunks, lo, hi, c, d);
    SameLinks(m, w, list, free);
    MergedLive(m, w, chunks, hi, c, d);
    LiveIs(m, chunks, c);
    LiveIs(m, chunks, d);
    TotalMerge(Live(m, chunks), c, d);
  }

  lemma LiveIs(m: Memory, chunks: set<nat>, c: nat)
    requires (forall t :: t in chunks ==> t in m) && c in chunks && !m[c].isfree
    ensures c in Live(m, chunks) && Live(m, chunks)[c] == m[c].size
  {
  }

  /** `w` is `m` with chunk `c` cut after `n` bytes; the rest gets a header marked allocated. */
  predicate Cut(m: Memory, w: Memory, hi: nat, c: nat, n: nat)
    requires c in m && n <= m[c].size
  {
    var d, end := c + n, c + m[c].size;
    && w.Keys == m.Keys + {d}
    && w[d].size == m[c].size - n && w[d].prsz == Back(n) && !w[d].isfree
    && forall k :: k in m && k != d ==> w[k] == Hdr(
         if k == c then n else m[k].size,
         if k == end && k < hi then Back(m[c].size - n) else m[k].prsz,
         m[k].isfree, m[k].prev, m[k].next)
  }

  /** A chunk with room to be cut after `n` bytes. */
  predicate Roomy(m: Memory, chunks: set<nat>, c: nat, n: nat) {
    c in chunks && c in m && !m[c].isfree && MIN_CHUNK <= n && n + MIN_CHUNK <= m[c].size
  }

  lemma CutTiled(m: Memory, w: Memory, chunks: set<nat>, lo: nat, hi: nat, c: nat, n: nat)
    requires Tiled(m, chunks, lo, hi) && Roomy(m, chunks, c, n) && Cut(m, w, hi, c, n)
    ensures c + n !in chunks && Tiled(w, chunks + {c + n}, lo, hi)
  {
    hide Adjacent, Ordered;
    CutInside(m, w, chunks, lo, hi, c, n);
    CutAdjacent(m, w, chunks, lo, hi, c, n);
    CutOrdered(m, w, chunks, lo, hi, c, n);
  }

  lemma CutInside(m: Memory, w: Memory, chunks: set<nat>, lo: nat, hi: nat, c: nat, n: nat)
    requires Tiled(m, chunks, lo, hi) && Roomy(m, chunks, c, n) && Cut(m, w, hi, c, n)
    ensures c + n !in chunks && Inside(w, chunks + {c + n}, lo, hi)
  {
    hide Adjacent;
  }

  lemma CutAdjacent(m: Memory, w: Memory, chunks: set<nat>, lo: nat, hi: nat, c: nat, n: nat)
    requires Tiled(m, chunks, lo, hi) && Roomy(m, chunks, c, n) && Cut(m, w, hi, c, n)
    requires c + n !in chunks && forall t :: t in chunks + {c + n} ==> t in w
    ensures Adjacent(w, chunks + {c + n}, hi)
  {
    hide Tiled, Cut;
    var all := chunks + {c + n};
    forall t | t in all ensures t + w[t].size < hi ==> t + w[t].size in all {
      CutNext(m, w, chunks, lo, hi, c, n, t);
    }
  }

  lemma CutNext(m: Memory, w: Memory, chunks: set<nat>, lo: nat, hi: nat, c: nat, n: nat, t: nat)
    requires Tiled(m, chunks, lo, hi) && Roomy(m, chunks, c, n) && Cut(m, w, hi, c, n) && (t in chunks || t == c + n)
    ensures t in w && (t + w[t].size < hi ==> t + w[t].size in chunks || t + w[t].size == c + n)
  {
    hide Tiled, Cut, Follows;
    TiledIn(m, chunks, lo, hi);
    CutSize(m, w, hi, c, n, t);
    AfterIn(m, chunks, lo, hi, if t == c + n then c else t);
  }

  lemma CutSize(m: Memory, w: Memory, hi: nat, c: nat, n: nat, t: nat)
    requires c in m && n <= m[c].size && Cut(m, w, hi, c, n) && (t in m || t == c + n)
    ensures t in w && w[t].size == if t == c + n then m[c].size - n else if t == c then n else m[t].size
  {
  }

  lemma CutOrdered(m: Memory, w: Memory, chunks: set<nat>, lo: nat, hi: nat, c: nat, n: nat)
    requires Tiled(m, chunks, lo, hi) && Roomy(m, chunks, c, n) && Cut(m, w, hi, c, n)
    requires c + n !in chunks && forall t :: t in chunks + {c + n} ==> t in w
    ensures Ordered(w, chunks + {c + n})
  {
    hide Adjacent;
    var d := c + n;
    forall t, u | t in chunks + {d} && u in chunks + {d} && t < u ensures t + w[t].size <= u {
      if t != d && u != d { assert t + m[t].size <= u; }
      else if u == d && t != c { assert t + m[t].size <= c; }
      else if t == d { assert c + m[c].size <= u; }
    }
  }

  lemma CutBack(m: Memory, w: Memory, chunks: set<nat>, lo: nat, hi: nat, c: nat, n: nat, t: nat)
    requires Tiled(m, chunks, lo, hi) && Roomy(m, chunks, c, n) && Cut(m, w, hi, c, n) && c + n !in chunks
    requires t in chunks && t in m && BackSize(m, chunks, t)
    ensures BackSize(w, chunks + {c + n}, t)
  {
    hide Tiled;
    AfterIn(m, chunks, lo, hi, c);
    AfterIn(m, chunks, lo, hi, t);
    assert t + m[t].size != c + n by { NoneEndsIn(m, chunks, lo, hi, c, n, t); }
    if t + m[t].size == c + m[c].size { EndsOnce(m, chunks, lo, hi, t, c); }
  }

  lemma NoneEndsIn(m: Memory, chunks: set<nat>, lo: nat, hi: nat, c: nat, n: nat, t: nat)
    requires Tiled(m, chunks, lo, hi) && c in chunks && t in chunks && 0 < n < m[c].size
    ensures t + m[t].size != c + n
  {
    hide Adjacent;
  }

  lemma CutPairs(m: Memory, w: Memory, chunks: set<nat>, lo: nat, hi: nat, c: nat, n: nat)
    requires Tiled(m, chunks, lo, hi) && Roomy(m, chunks, c, n) && Cut(m, w, hi, c, n) && c + n !in chunks
    requires NoFreePair(m, chunks)
    ensures NoFreePair(w, chunks + {c + n})
  {
    TiledIn(m, chunks, lo, hi);
    forall t | t in chunks && m[t].isfree && t + m[t].size == c + n ensures false {
      if t > c {} else {}
    }
    hide Tiled;
  }

  lemma CutLive(m: Memory, w: Memory, chunks: set<nat>, hi: nat, c: nat, n: nat)
    requires (forall t :: t in chunks ==> t in m) && Roomy(m, chunks, c, n) && Cut(m, w, hi, c, n) && c + n !in chunks
    ensures Live(w, chunks + {c + n}) == Live(m, chunks)[c := n][c + n := m[c].size - n]
  {
  }

  lemma TotalCut(m: map<nat, nat>, c: nat, d: nat, n: nat)
    requires c in m && d !in m && n <= m[c]
    ensures Total(m[c := n][d := m[c] - n]) == Total(m)
  {
    TotalRemove(m, c);
    TotalPut(m, c, n);
    TotalAdd(m[c := n], d, m[c] - n);
  }

  lemma Cuts(m: Memory, w: Memory, free: nat, used: int, chunks: set<nat>, list: seq<nat>, lo: nat, hi: nat, c: nat,
             n: nat)
    requires Inv(m, free, used, chunks, list, lo, hi) && Roomy(m, chunks, c, n) && Cut(m, w, hi, c, n)
    ensures Inv(w, free, used, chunks + {c + n}, list, lo, hi)
    ensures Live(w, chunks + {c + n}) == Live(m, chunks)[c := n][c + n := m[c].size - n]
    ensures c + n !in chunks
  {
    hide Tiled, BackSize, Linked, NoFreePair, Live, Total;
    var d := c + n;
    TiledIn(m, chunks, lo, hi);
    CutTiled(m, w, chunks, lo, hi, c, n);
    TiledIn(w, chunks + {d}, lo, hi);
    AfterIn(m, chunks, lo, hi, c);
    forall t | t in chunks + {d} ensures BackSize(w, chunks + {d}, t) {
      if t == d { CutRestBack(m, w, chunks, lo, hi, c, n); } else { CutBack(m, w, chunks, lo, hi, c, n, t); }
    }
    CutPairs(m, w, chunks, lo, hi, c, n);
    SameLinks(m, w, list, free);
    CutLive(m, w, chunks, hi, c, n);
    LiveIs(m, chunks, c);
    LiveKeys(m, chunks);
    TotalCut(Live(m, chunks), c, d, n);
  }

  lemma CutRestBack(m: Memory, w: Memory, chunks: set<nat>, lo: nat, hi: nat, c: nat, n: nat)
    requires Tiled(m, chunks, lo, hi) && Roomy(m, chunks, c, n) && Cut(m, w, hi, c, n)
    ensures BackSize(w, chunks + {c + n}, c + n)
  {
    hide Tiled;
    AfterIn(m, chunks, lo, hi, c);
  }

  lemma LiveIn(m: Memory, chunks: set<nat>, c: nat)
    requires (forall t :: t in chunks ==> t in m) && c in Live(m, chunks)
    ensures c in chunks && !m[c].isfree && Live(m, chunks)[c] == m[c].size
  {
  }

  lemma LiveKeys(m: Memory, chunks: set<nat>)
    requires forall t :: t in chunks ==> t in m
    ensures Live(m, chunks).Keys <= chunks
  {
  }

  // ----- the free list -----------------------------------------------------------------------------

  function Marked(h: Hdr, isfree: bool, prev: nat, next: nat): Hdr { Hdr(h.size, h.prsz, isfree, prev, next) }

  lemma MarkedKeeps(h: Hdr, isfree: bool)
    ensures var g := Marked(h, isfree, h.prev, h.next); g.size == h.size && g.prev == h.prev && g.next == h.next
  {
  }

  /** The writes of arena_freelist_rm. */
  function UnlinkMem(m: Memory, c: nat): Memory
    requires c in m && (m[c].prev != 0 ==> m[c].prev in m) && (m[c].next != 0 ==> m[c].next in m)
  {
    var m1 := m[c := Marked(m[c], false, m[c].prev, m[c].next)];
    var prev, next := m1[c].prev, m1[c].next;
    var m2 := if next != 0 then m1[next := Marked(m1[next], m1[next].isfree, prev, m1[next].next)] else m1;
    var m3 := if prev != 0 then m2[prev := Marked(m2[prev], m2[prev].isfree, m2[prev].prev, next)] else m2;
    m3[c := Marked(m3[c], m3[c].isfree, POISON, POISON)]
  }

  /** Taking the element at `i` out of a linked list. */
  lemma Unlinks(m: Memory, list: seq<nat>, free: nat, i: nat)
    requires Linked(m, list, free) && i < |list|
    ensures var c := list[i];
      && c in m && (m[c].prev != 0 ==> m[c].prev in m) && (m[c].next != 0 ==> m[c].next in m)
      && Relinked(m, UnlinkMem(m, c), c, false)
      && Linked(UnlinkMem(m, c), list[..i] + list[i + 1..], if m[c].prev == 0 then m[c].next else free)
    ensures forall t :: t in list[..i] + list[i + 1..] <==> t in list && t != list[i]
  {
    hide Linked, LinkAt, Nth;
    Neighbours(m, list, free, i);
    Head(m, list, free);
    Bypasses(m, UnlinkMem(m, list[i]), list, free, i);
  }

  lemma Bypasses(m: Memory, w: Memory, list: seq<nat>, free: nat, i: nat)
    requires Linked(m, list, free) && i < |list| && w.Keys == m.Keys
    requires forall k :: k in m && k != list[i] && k != 0 ==>
      && w[k].prev == (if k == Nth(list, i + 1) then Nth(list, i - 1) else m[k].prev)
      && w[k].next == (if k == Nth(list, i - 1) then Nth(list, i + 1) else m[k].next)
    ensures Linked(w, list[..i] + list[i + 1..], if i == 0 then Nth(list, 1) else free)
    ensures forall t :: t in list[..i] + list[i + 1..] <==> t in list && t != list[i]
  {
    var rest := list[..i] + list[i + 1..];
    assert forall j :: Nth(rest, j) == Nth(list, if j < i then j else j + 1);
    forall j | 0 <= j < |rest| ensures LinkAt(w, rest, j) {
      var k := if j < i then j else j + 1;
      assert LinkAt(m, list, k) && list[k] != list[i] && rest[j] == list[k];
      assert k == i - 1 || list[k] != Nth(list, i - 1);
      assert k == i + 1 || list[k] != Nth(list, i + 1);
    }
    forall t | t in list && t != list[i] ensures t in rest {
      var j :| 0 <= j < |list| && list[j] == t;
      assert rest[if j < i then j else j - 1] == t;
    }
  }

  /** The writes of arena_freelist_add between `cur` (0: at the head) and `next` (0: at the end). */
  function LinkMem(m: Memory, c: nat, cur: nat, next: nat): Memory
    requires c in m && (cur != 0 ==> cur in m) && (next != 0 ==> next in m)
  {
    var m1 := if next != 0 then m[next := Marked(m[next], m[next].isfree, c, m[next].next)] else m;
    var m2 := m1[c := Marked(m1[c], true, cur, next)];
    if cur != 0 then m2[cur := Marked(m2[cur], m2[cur].isfree, m2[cur].prev, c)] else m2
  }

  /** Putting `c` into a linked list at position `i`. */
  lemma Links(m: Memory, list: seq<nat>, free: nat, i: nat, c: nat)
    requires Linked(m, list, free) && i <= |list| && c in m && c != 0 && c !in list
    ensures var cur, next := Nth(list, i - 1), Nth(list, i);
      && (cur != 0 ==> cur in m) && (next != 0 ==> next in m) && (cur == 0 <==> i == 0)
      && Relinked(m, LinkMem(m, c, cur, next), c, true)
      && Linked(LinkMem(m, c, cur, next), list[..i] + [c] + list[i..], if i == 0 then c else free)
    ensures forall t :: t in list[..i] + [c] + list[i..] <==> t in list || t == c
  {
    hide Linked, LinkAt, Nth;
    Head(m, list, free);
    if i > 0 { Neighbours(m, list, free, i - 1); }
    if i < |list| { Neighbours(m, list, free, i); }
    NthEnd(list);
    Inserts(m, LinkMem(m, c, Nth(list, i - 1), Nth(list, i)), list, free, i, c);
  }

  lemma NthEnd(list: seq<nat>)
    ensures Nth(list, |list|) == 0
  {
  }

  lemma Inserts(m: Memory, w: Memory, list: seq<nat>, free: nat, i: nat, c: nat)
    requires Linked(m, list, free) && i <= |list| && c in m && c != 0 && c !in list && w.Keys == m.Keys
    requires w[c].prev == Nth(list, i - 1) && w[c].next == Nth(list, i)
    requires forall k :: k in m && k != c && k != 0 ==>
      && w[k].prev == (if k == Nth(list, i) then c else m[k].prev)
      && w[k].next == (if k == Nth(list, i - 1) then c else m[k].next)
    ensures Linked(w, list[..i] + [c] + list[i..], if i == 0 then c else free)
    ensures forall t :: t in list[..i] + [c] + list[i..] <==> t in list || t == c
  {
    var all := list[..i] + [c] + list[i..];
    forall j: int ensures Nth(all, j) == if j < i then Nth(list, j) else if j == i then c else Nth(list, j - 1) {
      if 0 <= j < i { assert all[j] == list[j]; } else if i < j < |all| { assert all[j] == list[j - 1]; }
    }
    forall j | 0 <= j < |all| ensures LinkAt(w, all, j) {
      if j != i {
        var k := if j < i then j else j - 1;
        assert LinkAt(m, list, k) && all[j] == list[k] && list[k] in list;
        assert k == i - 1 || list[k] != Nth(list, i - 1);
        assert k == i || list[k] != Nth(list, i);
      }
    }
    forall t | t in list || t == c ensures t in all {
      if t == c { assert all[i] == c; } else {
        var j :| 0 <= j < |list| && list[j] == t;
        assert all[if j < i then j else j + 1] == t;
      }
    }
  }

  lemma Head(m: Memory, list: seq<nat>, free: nat)
    requires Linked(m, list, free)
    ensures free == Nth(list, 0) && Nth(list, -1) == 0
    ensures if free == 0 then list == [] else |list| > 0 && free in m && free == list[0] && free in list
  {
    if list != [] { assert LinkAt(m, list, 0); }
  }

  lemma Neighbours(m: Memory, list: seq<nat>, free: nat, i: nat)
    requires Linked(m, list, free) && i < |list|
    ensures list[i] in m && m[list[i]].prev == Nth(list, i - 1) && m[list[i]].next == Nth(list, i + 1)
    ensures list[i] != 0 && list[i] != Nth(list, i - 1) && list[i] != Nth(list, i + 1) && list[i] in list
    ensures Nth(list, i - 1) == 0 <==> i == 0
    ensures Nth(list, i + 1) == 0 <==> i + 1 == |list|
    ensures i > 0 ==> Nth(list, i - 1) == list[i - 1] && list[i - 1] in m && list[i - 1] in list
    ensures i + 1 < |list| ==> Nth(list, i + 1) == list[i + 1] && list[i + 1] in m && list[i + 1] in list
    ensures Nth(list, i) == list[i]
    ensures Nth(list, i - 1) != Nth(list, i + 1) || |list| == 1
  {
    assert LinkAt(m, list, i);
    if i > 0 { assert LinkAt(m, list, i - 1); }
    if i + 1 < |list| { assert LinkAt(m, list, i + 1); }
  }

  lemma PairTaken(m: Memory, chunks: set<nat>, c: nat)
    requires (forall t :: t in chunks ==> t in m) && NoFreePair(m, chunks) && c in chunks && m[c].isfree
    ensures c + m[c].size in chunks ==> !m[c + m[c].size].isfree
    ensures forall t :: t in chunks && t + m[t].size == c ==> !m[t].isfree
  {
  }

  /** Every chunk but the first has one before it. */
  lemma Before(m: Memory, chunks: set<nat>, lo: nat, hi: nat, c: nat) returns (p: nat)
    requires Tiled(m, chunks, lo, hi) && c in chunks && c != lo
    ensures Follows(m, chunks, p, c)
  {
    p := Covered(m, chunks, lo, hi, lo, c - 1);
  }

  /** The chunk before `c`, if any, has a size that the field for it holds. */
  predicate BackFits(m: Memory, chunks: set<nat>, c: nat)
    requires forall t :: t in chunks ==> t in m
  {
    forall t :: t in chunks && t + m[t].size == c ==> m[t].size < BACK
  }

  lemma BackIs(m: Memory, chunks: set<nat>, lo: nat, hi: nat, c: nat, p: nat)
    requires Tiled(m, chunks, lo, hi) && BackSizes(m, chunks, lo) && Follows(m, chunks, p, c)
    ensures m[c].prsz == Back(m[p].size)
    ensures c != lo && p < c && forall t :: t in chunks && t + m[t].size == c ==> t == p
  {
    hide Adjacent;
    assert BackSize(m, chunks, p);
  }

  /** The size recorded leads back to the chunk before, if and only if that size is below 2 GiB. */
  lemma BackRightIff(m: Memory, chunks: set<nat>, lo: nat, hi: nat, c: nat)
    requires Tiled(m, chunks, lo, hi) && BackSizes(m, chunks, lo) && c in chunks && c != lo
    ensures m[c].prsz <= c && Follows(m, chunks, c - m[c].prsz, c) <==> BackFits(m, chunks, c)
  {
    hide Tiled, BackSizes;
    TiledIn(m, chunks, lo, hi);
    var p := Before(m, chunks, lo, hi, c);
    BackIs(m, chunks, lo, hi, c, p);
  }

  /** In every state of an arena, the chunk before any chunk has a size that the field holds. */
  ghost predicate AlwaysFits(lo: nat, hi: nat) {
    forall m: Memory, free, used, chunks: set<nat>, list, c ::
      Inv(m, free, used, chunks, list, lo, hi) && c in chunks ==> BackFits(m, chunks, c)
  }

  /** The sizes recorded are right in every state of an arena, if and only if the arena has no room
      for a chunk of 2 GiB and another one behind it. */
  lemma AlwaysFitsIff(lo: nat, hi: nat)
    requires 0 < lo && lo + MIN_CHUNK <= hi
    ensures AlwaysFits(lo, hi) <==> hi - lo < BACK + MIN_CHUNK
  {
    if hi - lo < BACK + MIN_CHUNK {
      forall m: Memory, free, used, chunks: set<nat>, list, c |
        Inv(m, free, used, chunks, list, lo, hi) && c in chunks
        ensures BackFits(m, chunks, c)
      {
        ShortFits(m, chunks, lo, hi, c);
      }
    } else {
      var m, chunks := LostBack(lo, hi);
      assert !BackFits(m, chunks, lo + BACK);
    }
  }

  lemma ShortFits(m: Memory, chunks: set<nat>, lo: nat, hi: nat, c: nat)
    requires Tiled(m, chunks, lo, hi) && c in chunks && hi - lo < BACK + MIN_CHUNK
    ensures BackFits(m, chunks, c)
  {
    hide Adjacent, Ordered;
  }

  /** Two allocated chunks, the first of 2 GiB: the second records no size at all before it. */
  lemma LostBack(lo: nat, hi: nat) returns (m: Memory, chunks: set<nat>)
    requires 0 < lo && hi - lo >= BACK + MIN_CHUNK
    ensures (forall t :: t in chunks ==> t in m) && Inv(m, 0, Total(Live(m, chunks)), chunks, [], lo, hi)
    ensures lo in chunks && m[lo].size == BACK && lo + BACK in chunks && m[lo + BACK].prsz == 0
  {
    var d := lo + BACK;
    m := map[lo := Hdr(BACK, 0, false, 0, 0), d := Hdr(hi - d, 0, false, 0, 0)];
    chunks := {lo, d};
    TwoTiles(m, lo, hi, d);
    hide Tiled;
  }

  lemma TwoTiles(m: Memory, lo: nat, hi: nat, d: nat)
    requires m.Keys == {lo, d} && lo + m[lo].size == d && d + m[d].size == hi
    requires m[lo].size >= MIN_CHUNK && m[d].size >= MIN_CHUNK
    ensures Tiled(m, {lo, d}, lo, hi)
  {
  }

  lemma FollowsIn(m: Memory, chunks: set<nat>, c: nat, d: nat)
    requires Follows(m, chunks, c, d)
    ensures c in chunks && d in chunks && c in m && d in m && d == c + m[c].size
  {
  }

  lemma NotLive(m: Memory, chunks: set<nat>, c: nat)
    requires (forall t :: t in chunks ==> t in m) && c in chunks && m[c].isfree
    ensures c !in Live(m, chunks)
  {
  }

  lemma CutAlone(m: Memory, w: Memory, chunks: set<nat>, lo: nat, hi: nat, c: nat, n: nat)
    requires Tiled(m, chunks, lo, hi) && Roomy(m, chunks, c, n) && Cut(m, w, hi, c, n)
    requires Tiled(w, chunks + {c + n}, lo, hi)
    requires c + m[c].size in chunks && c + m[c].size in m ==> !m[c + m[c].size].isfree
    ensures Alone(w, chunks + {c + n}, c + n) && !w[c + n].isfree
  {
    var d, all := c + n, chunks + {c + n};
    TiledIn(w, all, lo, hi);
    AfterIn(w, all, lo, hi, d);
    AfterIn(m, chunks, lo, hi, c);
    forall t | t in all && t + w[t].size == d ensures t == c { EndsOnce(w, all, lo, hi, t, c); }
    hide Tiled;
  }

  /** In a tiled arena the back size of the next chunk is right already. */
  lemma NoCut(m: Memory, chunks: set<nat>, lo: nat, hi: nat, c: nat)
    requires Tiled(m, chunks, lo, hi) && BackSizes(m, chunks, lo) && c in chunks
    ensures c + m[c].size < hi ==> c + m[c].size in m
    ensures SetSize(m[c := WithBack(m[c], 0)], hi, c, m[c].size) == m[c := WithBack(m[c], 0)]
  {
    hide Tiled;
    AfterIn(m, chunks, lo, hi, c);
    assert BackSize(m, chunks, c);
  }

  lemma BackLost(m: Memory, chunks: set<nat>, c: nat)
    requires (forall t :: t in chunks ==> t in m) && c in chunks
    ensures Live(m[c := WithBack(m[c], 0)], chunks) == Live(m, chunks)
    ensures m[c].prsz == 0 ==> m[c := WithBack(m[c], 0)] == m
  {
  }

  lemma RelinkedIn(m: Memory, w: Memory, chunks: set<nat>, c: nat)
    requires (forall t :: t in chunks ==> t in m) && c in chunks && Relinked(m, w, c, true)
    ensures (forall t :: t in chunks ==> t in w) && w[c].isfree && w[c].prsz == m[c].prsz
  {
  }

  /** A back size that is cleared is wrong, unless it was 0. */
  lemma NoBack(m: Memory, w: Memory, chunks: set<nat>, lo: nat, hi: nat, c: nat)
    requires Tiled(m, chunks, lo, hi) && BackSizes(m, chunks, lo) && c in chunks && m[c].prsz != 0
    requires w.Keys == m.Keys && w[c].prsz == 0 && forall k :: k in m ==> w[k].size == m[k].size
    ensures !BackSizes(w, chunks, lo)
  {
    hide Tiled;
    TiledIn(m, chunks, lo, hi);
    var p := Before(m, chunks, lo, hi, c);
    BackIs(m, chunks, lo, hi, c, p);
    assert !BackSize(w, chunks, p);
  }

  lemma ClearedKeeps(m: Memory, w: Memory, w': Memory, c: nat)
    requires c in m && w == m[c := WithBack(m[c], 0)] && Relinked(w, w', c, true)
    ensures w'.Keys == m.Keys && w'[c].prsz == 0 && forall k :: k in m ==> w'[k].size == m[k].size
  {
  }

  /** What free_r relies on: `prsz` back from `c` starts the chunk before it, or `c` is the first. */
  lemma BackLeads(m: Memory, chunks: set<nat>, lo: nat, hi: nat, c: nat)
    requires Tiled(m, chunks, lo, hi) && BackSizes(m, chunks, lo) && c in chunks && BackFits(m, chunks, c)
    ensures m[c].prsz <= c && c - m[c].prsz in chunks && (m[c].prsz == 0 <==> c == lo)
    ensures c != lo ==> Follows(m, chunks, c - m[c].prsz, c)
    ensures forall t :: t in chunks && t + m[t].size == c ==> c != lo && t == c - m[c].prsz
  {
    hide Adjacent;
    if c != lo {
      BackRightIff(m, chunks, lo, hi, c);
    }
  }

  lemma FirstIff(m: Memory, chunks: set<nat>, lo: nat, hi: nat, c: nat)
    requires Tiled(m, chunks, lo, hi) && BackSizes(m, chunks, lo) && c in chunks
    ensures BackFits(m, chunks, c) ==> (m[c].prsz == 0 <==> c == lo)
  {
    if BackFits(m, chunks, c) { BackLeads(m, chunks, lo, hi, c); }
  }

  lemma StillAlone(m: Memory, w: Memory, chunks: set<nat>, c: nat)
    requires (forall t :: t in chunks ==> t in m) && c in chunks && Relinked(m, w, c, false)
    requires c + m[c].size in chunks ==> !m[c + m[c].size].isfree
    requires forall t :: t in chunks && t + m[t].size == c ==> !m[t].isfree
    ensures (forall t :: t in chunks ==> t in w) && Alone(w, chunks, c) && w[c].size == m[c].size
    ensures c in Live(w, chunks)
  {
  }

  lemma ListedSizes(m: Memory, chunks: set<nat>, list: seq<nat>, lo: nat, hi: nat)
    requires Tiled(m, chunks, lo, hi) && ListExact(m, chunks, list)
    ensures forall t :: t in list ==> t in m && m[t].size >= MIN_CHUNK
  {
  }

  lemma LiveHas(m: Memory, chunks: set<nat>, c: nat)
    requires (forall t :: t in chunks ==> t in m) && c in chunks
    ensures c in Live(m, chunks) <==> !m[c].isfree
  {
  }

  lemma RestUnlisted(w: Memory, chunks: set<nat>, list: seq<nat>, d: nat)
    requires (forall t :: t in chunks ==> t in w) && ListExact(w, chunks, list) && d in chunks && !w[d].isfree
    ensures d !in list && forall t :: t in list ==> t in w
  {
  }

  lemma SameRelink(cut: Memory, w: Memory, m: Memory, d: nat)
    requires d in cut && d in w && w == cut[d := Marked(cut[d], false, w[d].prev, w[d].next)]
    requires Relinked(cut, m, d, true)
    ensures Relinked(w, m, d, true)
  {
  }

  lemma BlocksAfter(live: map<nat, nat>, c: nat, d: nat, n: nat, rest: nat)
    requires c != d && d !in live
    ensures live[c := n][d := rest] - {d} == live[c := n]
  {
  }

  lemma SameSizes(m: Memory, w: Memory, x: nat, c: nat, d: nat)
    requires Relinked(m, w, x, false) && c in m && d in m && (x == c || x == d) && c != d
    requires !m[if x == c then d else c].isfree
    ensures w.Keys == m.Keys && w[c].size == m[c].size && w[d].size == m[d].size && !w[c].isfree && !w[d].isfree
  {
  }

  lemma AbsorbFlags(m: Memory, taken: Memory, w: Memory, hi: nat, c: nat, d: nat, x: nat)
    requires Relinked(m, taken, x, false) && c in m && d in m
    requires c in taken && d in taken && Sized(taken, w, hi, c, taken[c].size + taken[d].size)
    ensures w.Keys == m.Keys
    ensures forall k :: k in m ==>
      && w[k].isfree == (m[k].isfree && k != x)
      && w[k].size == if k == c then m[c].size + m[d].size else m[k].size
  {
  }

  lemma InvTiled(m: Memory, free: nat, used: int, chunks: set<nat>, list: seq<nat>, lo: nat, hi: nat)
    requires Inv(m, free, used, chunks, list, lo, hi)
    ensures Tiled(m, chunks, lo, hi) && forall t :: t in chunks ==> t in m
    ensures forall t :: t in list <==> t in chunks && m[t].isfree
  {
  }

  lemma BlocksMerged(live: map<nat, nat>, c: nat, d: nat, x: nat, size: nat, sum: nat)
    requires c != d && (x == c || x == d)
    ensures (live[x := size] - {d})[c := sum] - {c} == live - {c} - {d}
  {
  }

  lemma StillFollows(m: Memory, w: Memory, chunks: set<nat>, c: nat, d: nat)
    requires Follows(m, chunks, c, d) && w.Keys == m.Keys && w[c].size == m[c].size
    ensures Follows(w, chunks, c, d)
  {
  }

  // ----- the arena -------------------------------------------------------------------------------

  function Max(a: nat, b: nat): nat { if a >= b then a else b }

  /** ALIGN_UP(MAX(len + HEAP_HEADER, HEAP_MIN_CHUNK), HEAP_ALIGN) in 32-bit arithmetic. */
  function Rounded(len: nat): nat {
    (Max((len + HEADER) % WORD, MIN_CHUNK) + 7) % WORD / 8 * 8
  }

  /** The rounded size leaves room for the header and the request, unless the sum wraps. */
  lemma RoundedExact(len: nat)
    requires len < WORD
    ensures len + 15 < WORD <==> Rounded(len) >= len + HEADER
    ensures len + 15 < WORD ==> Rounded(len) >= MIN_CHUNK && Rounded(len) % 8 == 0 && Rounded(len) < Max(len, 8) + 16
    ensures Rounded(len) == 0 <==> WORD - 15 <= len < WORD - 8
    ensures Rounded(len) != 0 ==> Rounded(len) >= MIN_CHUNK
  {
  }

  /** The largest requests round to the smallest chunk, or to none at all. */
  lemma RoundedWraps()
    ensures Rounded(WORD - 1) == MIN_CHUNK && Rounded(WORD - 9) == 0
  {
  }

  datatype Alloc = Block(p: nat) | EINVAL | ENOMEM

  /** The scan over the free list decides whether there is a gap. */
  lemma GapIff(m: Memory, chunks: set<nat>, list: seq<nat>, lo: nat, hi: nat, cur: nat, n: nat)
    requires Tiled(m, chunks, lo, hi) && NoFreePair(m, chunks) && ListExact(m, chunks, list) && n > 0
    requires cur != 0 ==> cur in list && m[cur].size >= n
    requires cur == 0 ==> forall t :: t in list ==> m[t].size < n
    ensures HasGap(Live(m, chunks), lo, hi, n) <==> cur != 0
    ensures cur != 0 ==> Gap(Live(m, chunks), lo, hi, cur, m[cur].size) && cur in chunks && m[cur].isfree
  {
    hide Tiled, NoFreePair, Live;
    TiledIn(m, chunks, lo, hi);
    if cur != 0 {
      ChunkIsGap(m, chunks, lo, hi, cur, m[cur].size);
      GapWithin(Live(m, chunks), lo, hi, cur, m[cur].size, n);
      assert Gap(Live(m, chunks), lo, hi, cur, n);
    } else if HasGap(Live(m, chunks), lo, hi, n) {
      var a :| Gap(Live(m, chunks), lo, hi, a, n);
      var c := GapInChunk(m, chunks, lo, hi, a, n);
    }
  }

  lemma GapWithin(live: map<nat, nat>, lo: nat, hi: nat, a: nat, size: nat, n: nat)
    requires Gap(live, lo, hi, a, size) && n <= size
    ensures Gap(live, lo, hi, a, n)
  {
  }

  class Heap {
    const address: nat
    const length: nat
    const maxChunk: nat
    var mem: Memory
    var free: nat
    var used: int
    ghost var chunks: set<nat>
    ghost var list: seq<nat>

    ghost predicate Valid()
      reads this
    {
      Inv(mem, free, used, chunks, list, address, address + length)
    }

    /** The allocated chunks and their sizes. */
    ghost function Blocks(): map<nat, nat>
      reads this
      requires Valid()
    {
      Live(mem, chunks)
    }

    /** arena_freelist_rm */
    method FreelistRm(c: nat, ghost i: nat)
      requires Linked(mem, list, free) && i < |list| && list[i] == c
      modifies `mem, `free, `used, `list
      ensures Linked(mem, list, free) && Relinked(old(mem), mem, c, false)
      ensures forall t :: t in list <==> t in old(list) && t != c
      ensures c in old(mem) && used == old(used) + old(mem)[c].size
    {
      hide Linked, LinkAt, Nth, Relinked, Marked;
      Head(mem, list, free);
      Neighbours(mem, list, free, i);
      Unlinks(mem, list, free, i);
      mem := mem[c := Marked(mem[c], false, mem[c].prev, mem[c].next)];
      used := used + mem[c].size;
      MarkedKeeps(old(mem)[c], false);
      var prev, next := mem[c].prev, mem[c].next;
      if next != 0 {
        mem := mem[next := Marked(mem[next], mem[next].isfree, prev, mem[next].next)];
      }
      if prev != 0 {
        mem := mem[prev := Marked(mem[prev], mem[prev].isfree, mem[prev].prev, next)];
      } else {
        free := next;
      }
      mem := mem[c := Marked(mem[c], mem[c].isfree, POISON, POISON)];
      list := list[..i] + list[i + 1..];
    }

    /** The scan of arena_freelist_add: from the head past every element followed by one that is
        not smaller than `size`. */
    method FindPlace(size: nat) returns (cur: nat)
      requires Linked(mem, list, free) && free != 0
      ensures var i := Past(mem, list, size, 1); 0 < i <= |list| && cur == list[i - 1]
    {
      hide Linked, LinkAt, Nth;
      ghost var i := 1;
      cur := free;
      Head(mem, list, free);
      Neighbours(mem, list, free, 0);
      while mem[cur].next != 0 && mem[mem[cur].next].size >= size
        invariant 1 <= i <= |list| && cur == list[i - 1] && cur in mem && mem[cur].next == Nth(list, i)
        invariant mem[cur].next != 0 <==> i < |list|
        invariant i < |list| ==> Nth(list, i) == list[i] && list[i] in mem
        invariant Past(mem, list, size, 1) == Past(mem, list, size, i)
        decreases |list| - i
      {
        Neighbours(mem, list, free, i);
        cur := mem[cur].next;
        i := i + 1;
      }
    }

    /** arena_freelist_add: in front of a list that starts no smaller, else where the scan ends. */
    method FreelistAdd(c: nat)
      requires Linked(mem, list, free) && c in mem && c != 0 && c !in list
      modifies `mem, `free, `used, `list
      ensures Linked(mem, list, free) && Relinked(old(mem), mem, c, true)
      ensures forall t :: t in old(list) ==> t in old(mem)
      ensures var i := Place(old(mem), old(list), old(mem[c].size));
        Placed(old(mem), old(list), old(mem[c].size), i) && list == old(list)[..i] + [c] + old(list)[i..]
      ensures forall t :: t in list <==> t in old(list) || t == c
      ensures used == old(used) - old(mem[c].size)
    {
      hide Linked, LinkAt, Nth, Relinked, Marked, Past, Placed;
      LinkedIn(mem, list, free);
      PlaceIs(mem, list, mem[c].size);
      ghost var i := Place(mem, list, mem[c].size);
      ghost var m, l := mem, list;
      Head(m, l, free);
      used := used - mem[c].size;
      if free == 0 {
        free := c;
        mem := mem[c := Marked(mem[c], true, 0, 0)];
      } else if mem[free].size >= mem[c].size {
        var cur := free;
        free := c;
        mem := mem[c := Marked(mem[c], true, 0, cur)];
        mem := mem[cur := Marked(mem[cur], mem[cur].isfree, c, mem[cur].next)];
        assert mem == m[cur := Marked(m[cur], m[cur].isfree, c, m[cur].next)][c := Marked(m[c], true, 0, cur)];
      } else {
        var cur := FindPlace(mem[c].size);
        Neighbours(m, l, free, i - 1);
        var next := mem[cur].next;
        if next != 0 {
          mem := mem[next := Marked(mem[next], mem[next].isfree, c, mem[next].next)];
        }
        mem := mem[c := Marked(mem[c], true, cur, next)];
        mem := mem[cur := Marked(mem[cur], mem[cur].isfree, mem[cur].prev, c)];
      }
      Links(m, l, old(free), i, c);
      list := list[..i] + [c] + list[i..];
    }

    /** arena_split_chunk: the rest of `c` after `n` bytes becomes a chunk; the fields of its header
        that are not written hold `stale`, or what they held if that header is the one of `c`. */
    method SplitChunk(c: nat, n: nat, stale: Hdr) returns (split: nat)
      requires c in mem && n + MIN_CHUNK <= mem[c].size
      requires c + mem[c].size < address + length ==> c + mem[c].size in mem
      modifies `mem
      ensures split == c + n && split in mem
      ensures n > 0 ==>
        Cut(old(mem), mem[split := Marked(mem[split], false, stale.prev, stale.next)], address + length, c, n)
      ensures n == 0 ==>
        mem == SetSize(old(mem)[c := WithBack(old(mem)[c], 0)], address + length, c, old(mem[c].size))
    {
      var sum := mem[c].size;
      var next := c + sum;
      mem := mem[c := Resized(mem[c], n)];
      split := c + n;
      var there := if n == 0 then mem[c] else stale;
      mem := mem[split := Hdr(sum - n, Back(n), there.isfree, there.prev, there.next)];
      if next < address + length {
        mem := mem[next := WithBack(mem[next], Back(sum - n))];
      }
    }

    /** arena_collapse */
    method Collapse(c: nat, d: nat)
      requires c in mem && d in mem
      requires var end := c + mem[c].size + mem[d].size; end < address + length ==> end in mem
      modifies `mem
      ensures mem == SetSize(old(mem), address + length, c, old(mem[c].size + mem[d].size))
    {
      mem := mem[c := Resized(mem[c], mem[c].size + mem[d].size)];
      var next := c + mem[c].size;
      if next < address + length {
        mem := mem[next := WithBack(mem[next], Back(mem[c].size))];
      }
    }

    /** Takes a free chunk out of the list. */
    method Take(c: nat)
      requires Valid() && c in list
      modifies `mem, `free, `used, `list
      ensures Valid() && c in chunks && Relinked(old(mem), mem, c, false) && old(mem)[c].isfree
      ensures Blocks() == old(Blocks())[c := mem[c].size] && c !in old(Blocks())
    {
      hide Tiled, BackSizes, NoFreePair, Linked, Live, Total;
      TiledIn(mem, chunks, address, address + length);
      ghost var i :| 0 <= i < |list| && list[i] == c;
      FreelistRm(c, i);
      Taken(old(mem), mem, old(free), free, old(used), chunks, old(list), list, address, address + length, c);
      LiveMarked(old(mem), mem, chunks, c, false);
    }

    /** Lists an allocated chunk whose neighbours are allocated. */
    method Give(c: nat)
      requires Valid() && c in Blocks() && Alone(mem, chunks, c)
      modifies `mem, `free, `used, `list
      ensures Valid() && Blocks() == old(Blocks()) - {c}
    {
      hide Tiled, BackSizes, NoFreePair, Linked, Live, Total, Alone;
      TiledIn(mem, chunks, address, address + length);
      LiveIn(mem, chunks, c);
      AfterIn(mem, chunks, address, address + length, c);
      FreelistAdd(c);
      Given(old(mem), mem, old(free), free, old(used), chunks, old(list), list, address, address + length, c);
    }

    /** setup_arena */
    constructor (address: nat, length: nat, maxChunk: nat, stale: Hdr)
      requires MIN_CHUNK <= address && MIN_CHUNK <= length && address + length < WORD
      ensures Valid() && Blocks() == map[]
      ensures this.address == address && this.length == length && this.maxChunk == maxChunk
    {
      this.address, this.length, this.maxChunk := address, length, maxChunk;
      mem := map[address := Hdr(length, 0, stale.isfree, 0, 0)];
      free, used, chunks, list := 0, 0, {address}, [];
      new;
      FreelistAdd(address);
      used := 0;
      assert Live(mem, chunks) == map[];
    }

    /** The chunk after `c`, if any, is allocated. */
    ghost predicate NextTaken(c: nat)
      reads this
    {
      c in mem && (c + mem[c].size in chunks && c + mem[c].size in mem ==> !mem[c + mem[c].size].isfree)
    }

    /** The chunk before `c`, if any, is allocated. */
    ghost predicate PrevTaken(c: nat)
      reads this
    {
      forall t :: t in chunks && t in mem && t + mem[t].size == c ==> !mem[t].isfree
    }

    /** An allocated chunk and the allocated one behind it become one. */
    method Fuse(c: nat, d: nat)
      requires Valid() && Follows(mem, chunks, c, d) && !mem[c].isfree && !mem[d].isfree
      modifies `mem, `chunks
      ensures Valid() && chunks == old(chunks) - {d}
      ensures Sized(old(mem), mem, address + length, c, old(mem[c].size + mem[d].size))
      ensures Blocks() == (old(Blocks()) - {d})[c := old(mem[c].size + mem[d].size)]
    {
      hide Tiled, BackSizes, NoFreePair, Linked, Live, Total, Follows, Sized, SetSize, Inv;
      FollowsIn(mem, chunks, c, d);
      InvTiled(mem, free, used, chunks, list, address, address + length);
      AfterIn(mem, chunks, address, address + length, c);
      Merged(mem, free, used, chunks, list, address, address + length, c, d);
      SetSizeIs(mem, address + length, c, mem[c].size + mem[d].size);
      Collapse(c, d);
      chunks := chunks - {d};
    }

    /** Two neighbours, one of them free: it is taken, and they are collapsed. */
    method Absorb(c: nat, d: nat, x: nat)
      requires Valid() && Follows(mem, chunks, c, d) && (x == c || x == d)
      requires mem[x].isfree && !mem[if x == c then d else c].isfree
      modifies `mem, `free, `used, `list, `chunks
      ensures Valid() && chunks == old(chunks) - {d} && c in Blocks() && mem.Keys == old(mem.Keys)
      ensures Blocks() - {c} == old(Blocks()) - {c} - {d}
      ensures forall k :: k in old(mem) ==>
        && mem[k].isfree == (old(mem)[k].isfree && k != x)
        && mem[k].size == if k == c then old(mem[c].size + mem[d].size) else old(mem)[k].size
    {
      hide Tiled, BackSizes, NoFreePair, Linked, Live, Total, Follows, Relinked, Sized, Inv;
      FollowsIn(mem, chunks, c, d);
      InvTiled(mem, free, used, chunks, list, address, address + length);
      AfterIn(mem, chunks, address, address + length, c);
      Take(x);
      ghost var taken, live := mem, Live(old(mem), chunks);
      SameSizes(old(mem), taken, x, c, d);
      StillFollows(old(mem), taken, chunks, c, d);
      Fuse(c, d);
      AbsorbFlags(old(mem), taken, mem, address + length, c, d, x);
      BlocksMerged(live, c, d, x, taken[x].size, taken[c].size + taken[d].size);
    }

    /** The first half of the merging in free_r: a free chunk after `c` is absorbed. */
    method MergeNext(c: nat)
      requires Valid() && c in Blocks()
      modifies `mem, `free, `used, `list, `chunks
      ensures Valid() && c in Blocks() && Blocks() - {c} == old(Blocks()) - {c} && NextTaken(c)
      ensures old(BackFits(mem, chunks, c)) ==> BackFits(mem, chunks, c)
    {
      hide Tiled, BackSizes, NoFreePair, Linked, Live, Total, Follows;
      ghost var lo, hi := address, address + length;
      TiledIn(mem, chunks, lo, hi);
      LiveIn(mem, chunks, c);
      AfterIn(mem, chunks, lo, hi, c);
      var next := c + mem[c].size;
      if next < address + length && mem[next].isfree {
        PairTaken(mem, chunks, next);
        NotLive(mem, chunks, next);
        Absorb(c, next, next);
      }
    }

    /** The second half: `c` is absorbed by a free chunk before it. */
    method MergePrev(c: nat) returns (d: nat)
      requires Valid() && c in Blocks() && NextTaken(c) && BackFits(mem, chunks, c)
      modifies `mem, `free, `used, `list, `chunks
      ensures Valid() && d in Blocks() && Blocks() - {d} == old(Blocks()) - {c} && NextTaken(d) && PrevTaken(d)
    {
      hide Tiled, BackSizes, NoFreePair, Linked, Live, Total, Follows;
      ghost var lo, hi := address, address + length;
      TiledIn(mem, chunks, lo, hi);
      LiveIn(mem, chunks, c);
      BackLeads(mem, chunks, lo, hi, c);
      d := c;
      var prev := c - mem[c].prsz;
      if prev != c && mem[prev].isfree {
        FollowsIn(mem, chunks, prev, c);
        AfterIn(mem, chunks, lo, hi, prev);
        PairTaken(mem, chunks, prev);
        NotLive(mem, chunks, prev);
        Absorb(prev, c, prev);
        d := prev;
      }
    }

    /** free_r, for a chunk whose back size leads to the chunk before it (see BackRightIff). */
    method Free(p: nat)
      requires Valid() && HEADER <= p && p - HEADER in Blocks() && BackFits(mem, chunks, p - HEADER)
      modifies this
      ensures Valid() && Blocks() == old(Blocks()) - {p - HEADER}
    {
      hide Tiled, BackSizes, NoFreePair, Linked, Live, Total;
      var c := p - HEADER;
      MergeNext(c);
      var d := MergePrev(c);
      TiledIn(mem, chunks, address, address + length);
      LiveIn(mem, chunks, d);
      Give(d);
    }

    /** The scan of malloc_r: the first listed chunk of at least `n` bytes, or 0. */
    method FirstFit(n: nat) returns (cur: nat)
      requires Linked(mem, list, free)
      ensures cur != 0 ==> cur in list && cur in mem && mem[cur].size >= n && FirstOf(mem, list, n, cur)
      ensures cur == 0 ==> forall t :: t in list ==> t in mem && mem[t].size < n
    {
      hide Linked, LinkAt, Nth;
      cur := free;
      ghost var i := 0;
      Head(mem, list, free);
      NthEnd(list);
      while cur != 0
        invariant 0 <= i <= |list| && cur == Nth(list, i) && (cur == 0 <==> i == |list|)
        invariant forall j :: 0 <= j < i ==> list[j] in mem && mem[list[j]].size < n
        decreases |list| - i
      {
        Neighbours(mem, list, free, i);
        if mem[cur].size >= n {
          assert TooSmall(mem, list[..i], n);
          return;
        }
        cur := mem[cur].next;
        i := i + 1;
      }
    }

    /** The split of malloc_r: what `c` has beyond `n` bytes becomes a free chunk. */
    method Carve(c: nat, n: nat, stale: Hdr)
      requires Valid() && Roomy(mem, chunks, c, n) && NextTaken(c)
      modifies this
      ensures Valid() && Blocks() == old(Blocks())[c := n]
    {
      hide Tiled, BackSizes, NoFreePair, Linked, Live, Total, Follows, Alone, Cut, Relinked;
      ghost var lo, hi := address, address + length;
      ghost var m, t := mem, chunks;
      TiledIn(m, t, lo, hi);
      AfterIn(m, t, lo, hi, c);
      var split := SplitChunk(c, n, stale);
      ghost var w := mem[split := Marked(mem[split], false, stale.prev, stale.next)];
      Cuts(m, w, free, used, t, list, lo, hi, c, n);
      CutAlone(m, w, t, lo, hi, c, n);
      TiledIn(w, t + {split}, lo, hi);
      RestUnlisted(w, t + {split}, list, split);
      LiveKeys(m, t);
      SameLinks(w, mem, list, free);
      chunks := chunks + {split};
      ghost var cut, oldList, oldFree, oldUsed := mem, list, free, used;
      FreelistAdd(split);
      SameRelink(cut, w, mem, split);
      Given(w, mem, oldFree, free, oldUsed, chunks, oldList, list, lo, hi, split);
      BlocksAfter(Live(m, t), c, split, n, m[c].size - n);
    }

    /** The split of malloc_r after no bytes at all: `c`, just taken, is listed again, and its back size
        is lost. */
    method CarveNothing(c: nat, stale: Hdr)
      requires Valid() && c in Blocks() && Alone(mem, chunks, c)
      modifies `mem, `free, `used, `list
      ensures (forall t :: t in chunks ==> t in mem) && c in chunks && mem[c].isfree && c in list
      ensures Live(mem, chunks) == old(Blocks()) - {c}
      ensures c in old(mem) && (Valid() <==> old(mem)[c].prsz == 0)
    {
      hide Tiled, BackSizes, NoFreePair, Linked, Live, Total, Alone, Relinked, SetSize;
      ghost var lo, hi := address, address + length;
      ghost var m := mem;
      TiledIn(m, chunks, lo, hi);
      LiveIn(m, chunks, c);
      AfterIn(m, chunks, lo, hi, c);
      NoCut(m, chunks, lo, hi, c);
      RestUnlisted(m, chunks, list, c);
      var split := SplitChunk(c, 0, stale);
      ghost var w := mem;
      SameLinks(m, w, list, free);
      BackLost(m, chunks, c);
      FreelistAdd(split);
      LiveMarked(w, mem, chunks, c, true);
      RelinkedIn(w, mem, chunks, c);
      if m[c].prsz == 0 {
        Given(m, mem, old(free), free, old(used), chunks, old(list), list, lo, hi, c);
      } else {
        ClearedKeeps(m, w, mem, c);
        NoBack(m, mem, chunks, lo, hi, c);
      }
    }

    /** malloc_r. The request is rounded up. One whose size wraps can round to no bytes at all (see
        RoundedExact): then a free chunk is returned and stays free, and only then. */
    method Malloc(len: nat, stale: Hdr) returns (r: Alloc)
      requires Valid() && len < WORD
      modifies this
      ensures r == EINVAL <==> Rounded(len) > maxChunk
      ensures r == ENOMEM <==>
        Rounded(len) <= maxChunk && !HasGap(old(Blocks()), address, address + length, Max(Rounded(len), 1))
      ensures !r.Block? ==> Valid() && Blocks() == old(Blocks())
      // the chunk returned is an allocated one, if and only if the size did not round to nothing
      ensures (forall t :: t in chunks ==> t in mem)
      ensures r.Block? ==>
        && r.p >= HEADER && r.p - HEADER in chunks
        && (r.p - HEADER in Live(mem, chunks) <==> Rounded(len) > 0)
        && FirstOf(old(mem), old(list), Rounded(len), r.p - HEADER)
      ensures r.Block? && Rounded(len) > 0 ==>
        && Valid() && Gap(old(Blocks()), address, address + length, r.p - HEADER, Blocks()[r.p - HEADER])
        && Rounded(len) <= Blocks()[r.p - HEADER] < Rounded(len) + MIN_CHUNK
        && Blocks() == old(Blocks())[r.p - HEADER := Blocks()[r.p - HEADER]]
      ensures r.Block? && Rounded(len) == 0 ==>
        && Live(mem, chunks) == old(Blocks()) && r.p - HEADER in list
        && r.p - HEADER in old(mem) && (Valid() <==> old(mem)[r.p - HEADER].prsz == 0)
        && (old(BackFits(mem, chunks, r.p - HEADER)) ==> (Valid() <==> r.p - HEADER == address))
    {
      hide Tiled, BackSizes, NoFreePair, Linked, Live, Total, Follows, HasGap, Gap, BackFits, FirstOf;
      ghost var lo, hi := address, address + length;
      RoundedExact(len);
      TiledIn(mem, chunks, lo, hi);
      var n := Rounded(len);
      if n > maxChunk {
        return EINVAL;
      }
      var cur := FirstFit(n);
      ListedSizes(mem, chunks, list, lo, hi);
      GapIff(mem, chunks, list, lo, hi, cur, Max(n, 1));
      if cur == 0 {
        return ENOMEM;
      }
      PairTaken(mem, chunks, cur);
      GapWithin(Live(mem, chunks), lo, hi, cur, mem[cur].size, n);
      ghost var m := mem;
      FirstIff(m, chunks, lo, hi, cur);
      Take(cur);
      StillAlone(m, mem, chunks, cur);
      LiveIn(mem, chunks, cur);
      if mem[cur].size >= n + MIN_CHUNK {
        if n == 0 {
          CarveNothing(cur, stale);
        } else {
          Carve(cur, n, stale);
        }
      }
      if n > 0 {
        TiledIn(mem, chunks, lo, hi);
        LiveIn(mem, chunks, cur);
      }
      LiveHas(mem, chunks, cur);
      return Block(cur + HEADER);
    }
  }
}
