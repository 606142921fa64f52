/** Copy-on-write anonymous memory shared by a family of address spaces.

    Addresses are page numbers. The MMU is an abstract page map per space: one map keyed by
    (space, page). `vma` gives, for every page covered by an area, what that area says about it;
    how areas are stored, split and found is module AddressSpace. */
module CopyOnWrite {

  import opened Machine
  import opened Protection

  /** The contents of a page. */
  datatype Page = Page(bytes: seq<bv8>)
  type Space = nat
  type Frame = nat

  datatype Key = Key(space: Space, page: nat)

  datatype Vma = Vma(cow: bool, rights: Rights)
  datatype Entry = Entry(frame: Frame, rights: Rights)

  /** Everything the paging code reads and writes for one family of spaces (those created from
      one another by `vmsp_clone`, so sharing one table of shared frames). */
  datatype State = State(
    vma: map<Key, Vma>,
    pt: map<Key, Entry>,
    share: map<Frame, int>,
    frames: map<Frame, Page>,      // frames handed out by page_new and not yet released
    pSize: map<Space, int>,
    sSize: map<Space, int>)

  function ZeroPage(): (p: Page)
    ensures |p.bytes| == PAGE_SIZE && forall i :: 0 <= i < PAGE_SIZE ==> p.bytes[i] == 0
  {
    Page(seq(PAGE_SIZE, i => 0))
  }

  // ----- the invariant -------------------------------------------------------------------

  /** How many pages of the whole family are mapped to frame `f`. */
  ghost function MapCount(pt: map<Key, Entry>, f: Frame): nat {
    |set k | k in pt && pt[k].frame == f|
  }

  /** How many pages of space `s` are mapped to listed (shared) or unlisted (private) frames. */
  ghost function PageCount(pt: map<Key, Entry>, share: set<Frame>, s: Space, shared: bool): nat {
    |set k | k in pt && k.space == s && (pt[k].frame in share) == shared|
  }

  /** Only covered pages of known spaces are mapped, and only to frames that are out. */
  ghost predicate Placed(st: State) {
    && st.pt.Keys <= st.vma.Keys
    && st.share.Keys <= st.frames.Keys
    && st.pSize.Keys == st.sSize.Keys
    && (forall k :: k in st.vma ==> k.space in st.pSize)
    && (forall k :: k in st.pt ==> st.pt[k].frame in st.frames)
    && (forall f :: f in st.frames ==> |st.frames[f].bytes| == PAGE_SIZE)
  }

  /** A listed frame's count is its number of mappings; an unlisted frame has exactly one.
      So every frame that is out is mapped, and is released with its last mapping. */
  ghost predicate CountsExact(st: State) {
    && (forall f :: f in st.share ==> st.share[f] >= 1)
    && (forall f :: f in st.frames ==> MapCount(st.pt, f) == if f in st.share then st.share[f] else 1)
  }

  /** What the entry of a page grants. A shared page can be read and executed exactly as its area can, and
      never written. A private one can be written exactly when its area can, read if its area can be, and
      read or executed only if the area lets it (or, read, because it was written). */
  predicate Grants(area: Rights, shared: bool, entry: Rights) {
    if shared then entry.rd == area.rd && entry.ex == area.ex && !entry.wr
    else
      && entry.wr == area.wr && (area.rd ==> entry.rd)
      && (entry.rd ==> area.rd || area.wr) && (entry.ex ==> area.ex)
  }

  /** Every entry grants what its area lets it; only pages of copy-on-write areas are shared. */
  ghost predicate RightsAgree(st: State)
    requires Placed(st)
  {
    forall k :: k in st.pt ==>
      && Grants(st.vma[k].rights, st.pt[k].frame in st.share, st.pt[k].rights)
      && (st.pt[k].frame in st.share ==> st.vma[k].cow)
  }

  /** p_size and s_size count the private and the shared pages of each space. */
  ghost predicate SizesExact(st: State)
    requires st.pSize.Keys == st.sSize.Keys
  {
    forall s :: s in st.pSize ==>
      && st.pSize[s] == PageCount(st.pt, st.share.Keys, s, false)
      && st.sSize[s] == PageCount(st.pt, st.share.Keys, s, true)
  }

  ghost predicate Inv(st: State) {
    Placed(st) && CountsExact(st) && RightsAgree(st) && SizesExact(st)
  }

  // ----- what a program sees -------------------------------------------------------------

  /** The bytes each covered page reads as: an unmapped page faults in as zeros. */
  ghost function View(st: State): map<Key, Page>
    requires Placed(st)
  {
    map k | k in st.vma :: if k in st.pt then st.frames[st.pt[k].frame] else ZeroPage()
  }

  // ----- page_shared ---------------------------------------------------------------------

  /** page_shared(share, page, count) on a non-null table: the new table and the returned flag. */
  function PageShared(share: map<Frame, int>, page: Frame, count: int): (r: (map<Frame, int>, bool))
    requires page in share || count >= 0
  {
    if page !in share then
      if count == 0 then (share, true) else (share[page := count], false)
    else if share[page] + count <= 0 then (share - {page}, true)
    else (share[page := share[page] + count], false)
  }

  // ----- the steps, one page at a time ---------------------------------------------------

  predicate Covered(st: State, k: Key) {
    k in st.vma && k.space in st.pSize && k.space in st.sSize
  }

  /** vma_resolve with `missing`: map a fresh zeroed frame. */
  function FaultMissing(st: State, k: Key, f: Frame): State
    requires Covered(st, k)
  {
    State(st.vma,
          st.pt[k := Entry(f, st.vma[k].rights.MaskRW())],
          st.share,
          st.frames[f := ZeroPage()],
          st.pSize[k.space := st.pSize[k.space] + 1],
          st.sSize)
  }

  /** vma_resolve on a present page in a copy-on-write area: give the writer its own copy. */
  function FaultWrite(st: State, k: Key, f: Frame): State
    requires Covered(st, k) && k in st.pt && st.pt[k].frame in st.share && st.pt[k].frame in st.frames
  {
    var prev := st.pt[k].frame;
    var frames := st.frames[f := st.frames[prev]];
    State(st.vma,
          st.pt[k := Entry(f, Rights(true, true, false))],
          PageShared(st.share, prev, -1).0,
          if PageShared(st.share, prev, -1).1 then frames - {prev} else frames,
          st.pSize[k.space := st.pSize[k.space] + 1],
          st.sSize[k.space := st.sSize[k.space] - 1])
  }

  /** vma_unmap on one page: the area is gone and a mapped frame loses this mapping. */
  function DropPage(st: State, k: Key): State
    requires Covered(st, k)
  {
    var vma := st.vma - {k};
    if k !in st.pt then State(vma, st.pt, st.share, st.frames, st.pSize, st.sSize)
    else
      var f := st.pt[k].frame;
      if PageShared(st.share, f, 0).1 then
        State(vma, st.pt - {k}, st.share, st.frames - {f},
              st.pSize[k.space := st.pSize[k.space] - 1], st.sSize)
      else
        State(vma, st.pt - {k}, PageShared(st.share, f, -1).0,
              if PageShared(st.share, f, -1).1 then st.frames - {f} else st.frames,
              st.pSize, st.sSize[k.space := st.sSize[k.space] - 1])
  }

  /** vma_clone on one page of an area: page `k` of the parent becomes page `c` of the child. */
  function ClonePage(st: State, k: Key, c: Key): State
    requires Covered(st, k) && c.space in st.pSize && c.space in st.sSize
  {
    var vma := st.vma[c := st.vma[k]];
    if !st.vma[k].cow || k !in st.pt then State(vma, st.pt, st.share, st.frames, st.pSize, st.sSize)
    else
      var f := st.pt[k].frame;
      var e := Entry(f, st.vma[k].rights.MaskRX());
      if PageShared(st.share, f, 0).1 then
        var sSize := st.sSize[c.space := st.sSize[c.space] + 1];
        State(vma, st.pt[c := e][k := e], PageShared(st.share, f, 2).0, st.frames,
              st.pSize[k.space := st.pSize[k.space] - 1], sSize[k.space := sSize[k.space] + 1])
      else
        State(vma, st.pt[c := e], PageShared(st.share, f, 1).0, st.frames,
              st.pSize, st.sSize[c.space := st.sSize[c.space] + 1])
  }

  /** vma_protect_anon on one page of an area. */
  function ProtectPage(st: State, k: Key, r: Rights): State
    requires k in st.vma
  {
    var vma := st.vma[k := Vma(st.vma[k].cow, r)];
    if k !in st.pt then State(vma, st.pt, st.share, st.frames, st.pSize, st.sSize)
    else
      var f := st.pt[k].frame;
      var r' := if st.vma[k].cow && !PageShared(st.share, f, 0).1 then r.MaskRX() else r;
      State(vma, st.pt[k := Entry(f, r')], st.share, st.frames, st.pSize, st.sSize)
  }

  /** vma_create on one page. */
  function MapPage(st: State, k: Key, v: Vma): State {
    State(st.vma[k := v], st.pt, st.share, st.frames, st.pSize, st.sSize)
  }

  // ----- how the numbers of mappings move ----------------------------------------------------

  function Bit(b: bool): int { if b then 1 else 0 }

  ghost predicate Maps(pt: map<Key, Entry>, k: Key, f: Frame) {
    k in pt && pt[k].frame == f
  }

  ghost predicate Counted(pt: map<Key, Entry>, share: set<Frame>, k: Key, s: Space, shared: bool) {
    k in pt && k.space == s && (pt[k].frame in share) == shared
  }

  lemma MapCountDrop(pt: map<Key, Entry>, k: Key, f: Frame)
    ensures MapCount(pt - {k}, f) == MapCount(pt, f) - Bit(Maps(pt, k, f))
  {
    var before := set q | q in pt && pt[q].frame == f;
    var pt' := pt - {k};
    var after := set q | q in pt' && pt'[q].frame == f;
    assert after == before - {k};
  }

  lemma MapCountPut(pt: map<Key, Entry>, k: Key, e: Entry, f: Frame)
    ensures MapCount(pt[k := e], f) == MapCount(pt, f) - Bit(Maps(pt, k, f)) + Bit(e.frame == f)
  {
    hide MapCount;
    MapCountDrop(pt, k, f);
    MapCountDrop(pt[k := e], k, f);
    assert pt[k := e] - {k} == pt - {k};
  }

  /** A frame mapped by one page only is mapped by no other. */
  lemma OnlyMapper(pt: map<Key, Entry>, f: Frame, k: Key)
    requires Maps(pt, k, f) && MapCount(pt, f) == 1
    ensures forall q :: Maps(pt, q, f) ==> q == k
  {
    var s := set q | q in pt && pt[q].frame == f;
    assert |s - {k}| == 0;
    assert forall q :: Maps(pt, q, f) && q != k ==> q in s - {k};
  }

  lemma NoMapper(pt: map<Key, Entry>, f: Frame)
    requires forall q :: !Maps(pt, q, f)
    ensures MapCount(pt, f) == 0
  {
    var s := set q | q in pt && pt[q].frame == f;
    assert forall q :: q in s ==> Maps(pt, q, f);
    assert s == {};
  }

  lemma PageCountDrop(pt: map<Key, Entry>, share: set<Frame>, k: Key, s: Space, shared: bool)
    ensures PageCount(pt - {k}, share, s, shared)
         == PageCount(pt, share, s, shared) - Bit(Counted(pt, share, k, s, shared))
  {
    var before := set q | q in pt && q.space == s && (pt[q].frame in share) == shared;
    var pt' := pt - {k};
    var after := set q | q in pt' && q.space == s && (pt'[q].frame in share) == shared;
    assert after == before - {k};
  }

  lemma PageCountPut(pt: map<Key, Entry>, share: set<Frame>, k: Key, e: Entry, s: Space, shared: bool)
    ensures PageCount(pt[k := e], share, s, shared)
         == PageCount(pt, share, s, shared) - Bit(Counted(pt, share, k, s, shared))
            + Bit(k.space == s && (e.frame in share) == shared)
  {
    hide PageCount;
    PageCountDrop(pt, share, k, s, shared);
    PageCountDrop(pt[k := e], share, k, s, shared);
    assert pt[k := e] - {k} == pt - {k};
  }

  /** Two lists of shared frames that agree on every mapped frame count the same pages. */
  lemma PageCountList(pt: map<Key, Entry>, share: set<Frame>, share': set<Frame>, s: Space, shared: bool)
    requires forall k :: k in pt ==> (pt[k].frame in share <==> pt[k].frame in share')
    ensures PageCount(pt, share, s, shared) == PageCount(pt, share', s, shared)
  {
    var before := set q | q in pt && q.space == s && (pt[q].frame in share) == shared;
    var after := set q | q in pt && q.space == s && (pt[q].frame in share') == shared;
    assert after == before;
  }

  // ----- a fault on a missing page -------------------------------------------------------------

  lemma FaultMissingCounts(st: State, k: Key, f: Frame)
    requires Placed(st) && CountsExact(st) && Covered(st, k) && k !in st.pt && f !in st.frames
    ensures CountsExact(FaultMissing(st, k, f))
  {
    hide MapCount;
    var st' := FaultMissing(st, k, f);
    NoMapper(st.pt, f);
    forall g | g in st'.frames ensures MapCount(st'.pt, g) == if g in st'.share then st'.share[g] else 1 {
      MapCountPut(st.pt, k, st'.pt[k], g);
    }
  }

  lemma FaultMissingSizes(st: State, k: Key, f: Frame)
    requires st.pSize.Keys == st.sSize.Keys && SizesExact(st)
    requires Covered(st, k) && k !in st.pt && f !in st.share
    ensures SizesExact(FaultMissing(st, k, f))
  {
    hide PageCount;
    var st' := FaultMissing(st, k, f);
    forall s | s in st'.pSize
      ensures st'.pSize[s] == PageCount(st'.pt, st'.share.Keys, s, false)
      ensures st'.sSize[s] == PageCount(st'.pt, st'.share.Keys, s, true)
    {
      PageCountPut(st.pt, st.share.Keys, k, st'.pt[k], s, false);
      PageCountPut(st.pt, st.share.Keys, k, st'.pt[k], s, true);
    }
  }

  lemma FaultMissingPlaced(st: State, k: Key, f: Frame)
    requires Placed(st) && Covered(st, k) && k !in st.pt && f !in st.frames
    ensures Placed(FaultMissing(st, k, f)) && (RightsAgree(st) ==> RightsAgree(FaultMissing(st, k, f)))
  {
  }

  lemma FaultMissingView(st: State, k: Key, f: Frame)
    requires Placed(st) && Covered(st, k) && k !in st.pt && f !in st.frames && Placed(FaultMissing(st, k, f))
    ensures View(FaultMissing(st, k, f)) == View(st)
  {
  }

  /** A first touch gives the page a frame of its own and changes no byte any program sees. */
  lemma FaultMissingSound(st: State, k: Key, f: Frame)
    requires Inv(st) && Covered(st, k) && k !in st.pt && f !in st.frames
    ensures Inv(FaultMissing(st, k, f))
    ensures View(FaultMissing(st, k, f)) == View(st)
    ensures var r := FaultMissing(st, k, f).pt[k].rights;
      r.rd == st.vma[k].rights.rd && r.wr == st.vma[k].rights.wr && !r.ex
  {
    assert f !in st.share;
    hide Placed, CountsExact, RightsAgree, SizesExact, View;
    FaultMissingPlaced(st, k, f);
    FaultMissingView(st, k, f);
    FaultMissingCounts(st, k, f);
    FaultMissingSizes(st, k, f);
  }

  // ----- a write to a shared page --------------------------------------------------------------

  /** A write fault the hardware can raise: the page is present and not writable. */
  ghost predicate WriteFaults(st: State, k: Key, f: Frame) {
    && Covered(st, k) && k in st.pt
    && st.pt[k].frame in st.share && st.pt[k].frame in st.frames && f !in st.frames
  }

  /** A mapped frame with count one has no other mapping. */
  lemma LastMapping(st: State, k: Key)
    requires Placed(st) && CountsExact(st) && k in st.pt
    ensures (st.pt[k].frame in st.share ==> st.share[st.pt[k].frame] == 1)
       <==> forall q :: Maps(st.pt, q, st.pt[k].frame) ==> q == k
  {
    hide MapCount;
    var f := st.pt[k].frame;
    if f in st.share ==> st.share[f] == 1 {
      OnlyMapper(st.pt, f, k);
    } else if forall q :: Maps(st.pt, q, f) ==> q == k {
      MapCountDrop(st.pt, k, f);
      assert forall q :: !Maps(st.pt - {k}, q, f) by {
        assert forall q :: Maps(st.pt - {k}, q, f) ==> Maps(st.pt, q, f) && q != k;
      }
      NoMapper(st.pt - {k}, f);
    }
  }

  lemma FaultWriteCounts(st: State, k: Key, f: Frame)
    requires Placed(st) && CountsExact(st) && WriteFaults(st, k, f)
    ensures CountsExact(FaultWrite(st, k, f))
  {
    hide MapCount;
    var st' := FaultWrite(st, k, f);
    NoMapper(st.pt, f);
    forall g | g in st'.frames ensures MapCount(st'.pt, g) == if g in st'.share then st'.share[g] else 1 {
      MapCountPut(st.pt, k, st'.pt[k], g);
    }
  }

  lemma FaultWriteSizes(st: State, k: Key, f: Frame)
    requires Placed(st) && SizesExact(st) && WriteFaults(st, k, f)
    requires st.share[st.pt[k].frame] <= 1 ==> forall q :: Maps(st.pt, q, st.pt[k].frame) ==> q == k
    ensures SizesExact(FaultWrite(st, k, f))
  {
    hide PageCount;
    var st' := FaultWrite(st, k, f);
    var prev := st.pt[k].frame;
    forall q | q in st'.pt ensures st'.pt[q].frame in st.share <==> st'.pt[q].frame in st'.share {
      assert q != k && st.pt[q].frame == prev ==> Maps(st.pt, q, prev);
    }
    forall s | s in st'.pSize
      ensures st'.pSize[s] == PageCount(st'.pt, st'.share.Keys, s, false)
      ensures st'.sSize[s] == PageCount(st'.pt, st'.share.Keys, s, true)
    {
      PageCountPut(st.pt, st.share.Keys, k, st'.pt[k], s, false);
      PageCountPut(st.pt, st.share.Keys, k, st'.pt[k], s, true);
      PageCountList(st'.pt, st.share.Keys, st'.share.Keys, s, false);
      PageCountList(st'.pt, st.share.Keys, st'.share.Keys, s, true);
    }
  }

  lemma FaultWritePlaced(st: State, k: Key, f: Frame)
    requires Placed(st) && RightsAgree(st) && WriteFaults(st, k, f) && st.vma[k].rights.wr
    requires st.share[st.pt[k].frame] <= 1 ==> forall q :: Maps(st.pt, q, st.pt[k].frame) ==> q == k
    ensures Placed(FaultWrite(st, k, f)) && RightsAgree(FaultWrite(st, k, f))
    ensures View(FaultWrite(st, k, f)) == View(st)
  {
    var st' := FaultWrite(st, k, f);
    forall q | q in st'.pt
      ensures st'.pt[q].frame in st'.frames
      ensures st'.frames[st'.pt[q].frame] == st.frames[st.pt[q].frame]
    {
      FaultWriteFrame(st, k, f, q);
    }
    assert Placed(st');
    WriteView(st, st');
  }

  /** After a write fault every page is mapped to a frame with the bytes it had. */
  lemma FaultWriteFrame(st: State, k: Key, f: Frame, q: Key)
    requires Placed(st) && WriteFaults(st, k, f) && q in FaultWrite(st, k, f).pt
    requires st.share[st.pt[k].frame] <= 1 ==> forall x :: Maps(st.pt, x, st.pt[k].frame) ==> x == k
    ensures var st' := FaultWrite(st, k, f);
      && q in st.pt && st.pt[q].frame in st.frames && st'.pt[q].frame in st'.frames
      && st'.frames[st'.pt[q].frame] == st.frames[st.pt[q].frame]
  {
    var prev := st.pt[k].frame;
    assert q != k && st.pt[q].frame == prev ==> Maps(st.pt, q, prev);
  }

  lemma WriteView(st: State, st': State)
    requires Placed(st) && Placed(st') && st'.vma == st.vma && st'.pt.Keys == st.pt.Keys
    requires forall q :: q in st'.pt ==> st'.frames[st'.pt[q].frame] == st.frames[st.pt[q].frame]
    ensures View(st') == View(st)
  {
  }

  /** Copy-on-write gives the writer a frame of its own; nobody's bytes change, and the frame it
      left goes back to the allocator exactly when this was its last mapping. */
  lemma FaultWriteSound(st: State, k: Key, f: Frame)
    requires Inv(st) && WriteFaults(st, k, f) && st.vma[k].rights.wr
    ensures Inv(FaultWrite(st, k, f))
    ensures View(FaultWrite(st, k, f)) == View(st)
    ensures st.pt[k].frame !in FaultWrite(st, k, f).frames <==> forall q :: Maps(st.pt, q, st.pt[k].frame) ==> q == k
    ensures var r := FaultWrite(st, k, f).pt[k].rights; r.rd && r.wr && !r.ex
  {
    assert st.share[st.pt[k].frame] >= 1;
    hide CountsExact, SizesExact, RightsAgree, Placed, View;
    LastMapping(st, k);
    FaultWriteCounts(st, k, f);
    FaultWriteSizes(st, k, f);
    FaultWritePlaced(st, k, f);
  }

  // ----- unmapping a page ------------------------------------------------------------------------

  lemma DropPageCounts(st: State, k: Key)
    requires Placed(st) && CountsExact(st) && Covered(st, k)
    ensures CountsExact(DropPage(st, k))
  {
    hide MapCount;
    var st' := DropPage(st, k);
    if k in st.pt {
      forall g | g in st'.frames ensures MapCount(st'.pt, g) == if g in st'.share then st'.share[g] else 1 {
        MapCountDrop(st.pt, k, g);
      }
    }
  }

  lemma DropPageSizes(st: State, k: Key)
    requires Placed(st) && SizesExact(st) && Covered(st, k) && k in st.pt
    requires st.pt[k].frame in st.share ==> st.share[st.pt[k].frame] >= 1
    requires (st.pt[k].frame in st.share ==> st.share[st.pt[k].frame] == 1)
      ==> forall q :: Maps(st.pt, q, st.pt[k].frame) ==> q == k
    ensures SizesExact(DropPage(st, k))
  {
    hide PageCount;
    var st' := DropPage(st, k);
    var f := st.pt[k].frame;
    forall q | q in st'.pt ensures st'.pt[q].frame in st.share <==> st'.pt[q].frame in st'.share {
      assert st.pt[q].frame == f ==> Maps(st.pt, q, f);
    }
    forall s | s in st'.pSize
      ensures st'.pSize[s] == PageCount(st'.pt, st'.share.Keys, s, false)
      ensures st'.sSize[s] == PageCount(st'.pt, st'.share.Keys, s, true)
    {
      PageCountDrop(st.pt, st.share.Keys, k, s, false);
      PageCountDrop(st.pt, st.share.Keys, k, s, true);
      PageCountList(st'.pt, st.share.Keys, st'.share.Keys, s, false);
      PageCountList(st'.pt, st.share.Keys, st'.share.Keys, s, true);
    }
  }

  lemma DropPagePlaced(st: State, k: Key)
    requires Placed(st) && RightsAgree(st) && Covered(st, k) && k in st.pt
    requires st.pt[k].frame in st.share ==> st.share[st.pt[k].frame] >= 1
    requires (st.pt[k].frame in st.share ==> st.share[st.pt[k].frame] == 1)
      ==> forall q :: Maps(st.pt, q, st.pt[k].frame) ==> q == k
    ensures Placed(DropPage(st, k)) && RightsAgree(DropPage(st, k))
    ensures View(DropPage(st, k)) == View(st) - {k}
  {
    hide RightsAgree, View;
    var st' := DropPage(st, k);
    forall q | q in st'.pt
      ensures st'.pt[q].frame in st'.frames
      ensures st'.frames[st'.pt[q].frame] == st.frames[st.pt[q].frame]
    {
      assert st.pt[q].frame == st.pt[k].frame ==> Maps(st.pt, q, st.pt[k].frame);
    }
    DropRights(st, k);
    DropView(st, k);
  }

  lemma DropRights(st: State, k: Key)
    requires Placed(st) && RightsAgree(st) && Covered(st, k) && k in st.pt && Placed(DropPage(st, k))
    requires st.pt[k].frame in st.share ==> st.share[st.pt[k].frame] >= 1
    requires (st.pt[k].frame in st.share ==> st.share[st.pt[k].frame] == 1)
      ==> forall q :: Maps(st.pt, q, st.pt[k].frame) ==> q == k
    ensures RightsAgree(DropPage(st, k))
  {
    var st' := DropPage(st, k);
    forall q | q in st'.pt
      ensures Grants(st'.vma[q].rights, st'.pt[q].frame in st'.share, st'.pt[q].rights)
      ensures st'.pt[q].frame in st'.share ==> st'.vma[q].cow
    {
      assert st.pt[q].frame == st.pt[k].frame ==> Maps(st.pt, q, st.pt[k].frame);
    }
  }

  lemma DropView(st: State, k: Key)
    requires Placed(st) && Covered(st, k) && k in st.pt && Placed(DropPage(st, k))
    requires forall q :: q in DropPage(st, k).pt ==>
      DropPage(st, k).frames[DropPage(st, k).pt[q].frame] == st.frames[st.pt[q].frame]
    ensures View(DropPage(st, k)) == View(st) - {k}
  {
  }

  lemma DropUnmappedSound(st: State, k: Key)
    requires Inv(st) && Covered(st, k) && k !in st.pt
    ensures Inv(DropPage(st, k))
    ensures DropPage(st, k).vma == st.vma - {k}
    ensures View(DropPage(st, k)) == View(st) - {k}
  {
    hide MapCount, PageCount;
  }

  lemma DropMappedSound(st: State, k: Key)
    requires Inv(st) && Covered(st, k) && k in st.pt
    ensures Inv(DropPage(st, k))
    ensures DropPage(st, k).vma == st.vma - {k}
    ensures View(DropPage(st, k)) == View(st) - {k}
    ensures st.pt[k].frame !in DropPage(st, k).frames <==> forall q :: Maps(st.pt, q, st.pt[k].frame) ==> q == k
  {
    hide CountsExact, RightsAgree, Placed, View, SizesExact, Maps;
    MappedFacts(st, k);
    LastMapping(st, k);
    DropPageSizes(st, k);
    DropPageCounts(st, k);
    DropPagePlaced(st, k);
    DropReleases(st, k);
  }

  lemma MappedFacts(st: State, k: Key)
    requires Placed(st) && CountsExact(st) && k in st.pt
    ensures st.pt[k].frame in st.frames && (st.pt[k].frame in st.share ==> st.share[st.pt[k].frame] >= 1)
  {
  }

  lemma DropReleases(st: State, k: Key)
    requires Covered(st, k) && k in st.pt && st.pt[k].frame in st.frames
    requires st.pt[k].frame in st.share ==> st.share[st.pt[k].frame] >= 1
    ensures DropPage(st, k).vma == st.vma - {k}
    ensures var f := st.pt[k].frame; f !in DropPage(st, k).frames <==> (f in st.share ==> st.share[f] == 1)
  {
  }

  /** Unmapping a page removes it from its own space only, and gives its frame back to the
      allocator exactly when no other page maps it. */
  lemma DropPageSound(st: State, k: Key)
    requires Inv(st) && Covered(st, k)
    ensures Inv(DropPage(st, k))
    ensures DropPage(st, k).vma == st.vma - {k}
    ensures View(DropPage(st, k)) == View(st) - {k}
    ensures k in st.pt ==>
      (st.pt[k].frame !in DropPage(st, k).frames <==> forall q :: Maps(st.pt, q, st.pt[k].frame) ==> q == k)
  {
    hide CountsExact, RightsAgree, Placed, View, SizesExact, Maps, DropPage;
    if k in st.pt {
      DropMappedSound(st, k);
    } else {
      DropUnmappedSound(st, k);
    }
  }

  // ----- cloning a page ----------------------------------------------------------------------------

  /** Page `k` can be cloned to the not yet covered page `c` of another space. */
  ghost predicate Clonable(st: State, k: Key, c: Key) {
    Covered(st, k) && c !in st.vma && c.space in st.pSize && c.space in st.sSize
  }

  lemma CloneUnmappedSound(st: State, k: Key, c: Key)
    requires Inv(st) && Clonable(st, k, c) && (k !in st.pt || !st.vma[k].cow)
    ensures Inv(ClonePage(st, k, c))
    ensures View(ClonePage(st, k, c)) == View(st)[c := if st.vma[k].cow then View(st)[k] else ZeroPage()]
  {
    hide MapCount, PageCount;
  }

  lemma CloneSharedCounts(st: State, k: Key, c: Key)
    requires Placed(st) && CountsExact(st) && Clonable(st, k, c)
    requires k in st.pt && st.vma[k].cow && st.pt[k].frame in st.share
    ensures CountsExact(ClonePage(st, k, c))
  {
    hide MapCount;
    var st' := ClonePage(st, k, c);
    forall g | g in st'.frames ensures MapCount(st'.pt, g) == if g in st'.share then st'.share[g] else 1 {
      MapCountPut(st.pt, c, st'.pt[c], g);
    }
  }

  lemma CloneSharedSizes(st: State, k: Key, c: Key)
    requires Placed(st) && SizesExact(st) && Clonable(st, k, c)
    requires k in st.pt && st.vma[k].cow && st.pt[k].frame in st.share && st.share[st.pt[k].frame] >= 1
    ensures SizesExact(ClonePage(st, k, c))
  {
    hide PageCount;
    var st' := ClonePage(st, k, c);
    assert st'.share.Keys == st.share.Keys;
    forall s | s in st'.pSize
      ensures st'.pSize[s] == PageCount(st'.pt, st'.share.Keys, s, false)
      ensures st'.sSize[s] == PageCount(st'.pt, st'.share.Keys, s, true)
    {
      PageCountPut(st.pt, st.share.Keys, c, st'.pt[c], s, false);
      PageCountPut(st.pt, st.share.Keys, c, st'.pt[c], s, true);
    }
  }

  lemma ClonePrivateCounts(st: State, k: Key, c: Key)
    requires Placed(st) && CountsExact(st) && Clonable(st, k, c)
    requires k in st.pt && st.vma[k].cow && st.pt[k].frame !in st.share
    ensures CountsExact(ClonePage(st, k, c))
  {
    hide MapCount;
    var st' := ClonePage(st, k, c);
    forall g | g in st'.frames ensures MapCount(st'.pt, g) == if g in st'.share then st'.share[g] else 1 {
      MapCountPut(st.pt, c, st'.pt[c], g);
      MapCountPut(st.pt[c := st'.pt[c]], k, st'.pt[k], g);
    }
  }

  lemma ClonePrivateSizes(st: State, k: Key, c: Key)
    requires Placed(st) && SizesExact(st) && Clonable(st, k, c)
    requires k in st.pt && st.vma[k].cow && st.pt[k].frame !in st.share
    requires forall q :: Maps(st.pt, q, st.pt[k].frame) ==> q == k
    ensures SizesExact(ClonePage(st, k, c))
  {
    hide PageCount;
    var st' := ClonePage(st, k, c);
    var e := st'.pt[k];
    var rest := st.pt - {k};
    assert st'.pt == rest[c := e][k := e];
    assert st'.share.Keys == st.share.Keys + {e.frame};
    assert forall q :: q in rest ==> (rest[q].frame == e.frame ==> Maps(st.pt, q, e.frame));
    forall s | s in st'.pSize
      ensures st'.pSize[s] == PageCount(st'.pt, st'.share.Keys, s, false)
      ensures st'.sSize[s] == PageCount(st'.pt, st'.share.Keys, s, true)
    {
      forall b: bool
        ensures PageCount(st'.pt, st'.share.Keys, s, b)
             == PageCount(st.pt, st.share.Keys, s, b) - Bit(k.space == s && !b)
                + Bit(c.space == s && b) + Bit(k.space == s && b)
      {
        PageCountDrop(st.pt, st.share.Keys, k, s, b);
        PageCountList(rest, st.share.Keys, st'.share.Keys, s, b);
        PageCountPut(rest, st'.share.Keys, c, e, s, b);
        PageCountPut(rest[c := e], st'.share.Keys, k, e, s, b);
      }
    }
  }

  lemma CloneMappedEntries(st: State, k: Key, c: Key)
    requires Placed(st) && RightsAgree(st) && Clonable(st, k, c) && k in st.pt && st.vma[k].cow
    ensures var pt, area := ClonePage(st, k, c).pt, st.vma[k].rights;
      && k in pt && c in pt && pt[k].frame == pt[c].frame == st.pt[k].frame
      && pt[k].rights.rd == pt[c].rights.rd == area.rd && pt[k].rights.ex == pt[c].rights.ex == area.ex
      && !pt[k].rights.wr && !pt[c].rights.wr
  {
  }

  lemma CloneMappedPlaced(st: State, k: Key, c: Key)
    requires Placed(st) && RightsAgree(st) && Clonable(st, k, c) && k in st.pt && st.vma[k].cow
    requires st.pt[k].frame in st.share ==> st.share[st.pt[k].frame] >= 1
    requires st.pt[k].frame !in st.share ==> forall q :: Maps(st.pt, q, st.pt[k].frame) ==> q == k
    ensures Placed(ClonePage(st, k, c)) && RightsAgree(ClonePage(st, k, c))
    ensures View(ClonePage(st, k, c)) == View(st)[c := View(st)[k]]
  {
    hide RightsAgree, View;
    CloneMappedRights(st, k, c);
    CloneMappedView(st, k, c);
  }

  lemma CloneMappedRights(st: State, k: Key, c: Key)
    requires Placed(st) && RightsAgree(st) && Clonable(st, k, c) && k in st.pt && st.vma[k].cow
    requires st.pt[k].frame in st.share ==> st.share[st.pt[k].frame] >= 1
    requires st.pt[k].frame !in st.share ==> forall q :: Maps(st.pt, q, st.pt[k].frame) ==> q == k
    requires Placed(ClonePage(st, k, c))
    ensures RightsAgree(ClonePage(st, k, c))
  {
    var st' := ClonePage(st, k, c);
    forall q | q in st'.pt
      ensures Grants(st'.vma[q].rights, st'.pt[q].frame in st'.share, st'.pt[q].rights)
      ensures st'.pt[q].frame in st'.share ==> st'.vma[q].cow
    {
      assert q in st.pt && st.pt[q].frame == st.pt[k].frame ==> Maps(st.pt, q, st.pt[k].frame);
    }
  }

  lemma CloneMappedView(st: State, k: Key, c: Key)
    requires Placed(st) && Clonable(st, k, c) && k in st.pt && st.vma[k].cow
    requires st.pt[k].frame in st.share ==> st.share[st.pt[k].frame] >= 1
    requires Placed(ClonePage(st, k, c))
    ensures View(ClonePage(st, k, c)) == View(st)[c := View(st)[k]]
  {
  }

  lemma CloneMappedSound(st: State, k: Key, c: Key)
    requires Inv(st) && Clonable(st, k, c) && k in st.pt && st.vma[k].cow
    ensures Inv(ClonePage(st, k, c))
    ensures View(ClonePage(st, k, c)) == View(st)[c := View(st)[k]]
  {
    assert st.pt[k].frame in st.share ==> st.share[st.pt[k].frame] >= 1;
    hide CountsExact, RightsAgree, Placed, View, SizesExact;
    LastMapping(st, k);
    if st.pt[k].frame in st.share {
      CloneSharedCounts(st, k, c);
      CloneSharedSizes(st, k, c);
    } else {
      ClonePrivateCounts(st, k, c);
      ClonePrivateSizes(st, k, c);
    }
    CloneMappedPlaced(st, k, c);
  }

  /** The child reads what its parent reads on a copy-on-write page, and zeros elsewhere. */
  lemma ClonePageSound(st: State, k: Key, c: Key)
    requires Inv(st) && Clonable(st, k, c)
    ensures Inv(ClonePage(st, k, c))
    ensures View(ClonePage(st, k, c)) == View(st)[c := if st.vma[k].cow then View(st)[k] else ZeroPage()]
    // both pages of a copy can be read and executed as the area can, and not written
    ensures k in st.pt && st.vma[k].cow ==>
      var pt, area := ClonePage(st, k, c).pt, st.vma[k].rights;
      && k in pt && c in pt && pt[k].frame == pt[c].frame == st.pt[k].frame
      && pt[k].rights.rd == pt[c].rights.rd == area.rd && pt[k].rights.ex == pt[c].rights.ex == area.ex
      && !pt[k].rights.wr && !pt[c].rights.wr
  {
    hide CountsExact, RightsAgree, SizesExact, View, ClonePage;
    if k in st.pt && st.vma[k].cow {
      CloneMappedSound(st, k, c);
      CloneMappedEntries(st, k, c);
    } else {
      CloneUnmappedSound(st, k, c);
    }
  }

  // ----- protecting, covering and storing ------------------------------------------------------------

  lemma ProtectPageCounts(st: State, k: Key, r: Rights)
    requires Placed(st) && CountsExact(st) && SizesExact(st) && k in st.pt
    ensures CountsExact(ProtectPage(st, k, r)) && SizesExact(ProtectPage(st, k, r))
  {
    hide MapCount, PageCount;
    var st' := ProtectPage(st, k, r);
    forall g ensures MapCount(st'.pt, g) == MapCount(st.pt, g) {
      MapCountPut(st.pt, k, st'.pt[k], g);
    }
    forall s, b ensures PageCount(st'.pt, st.share.Keys, s, b) == PageCount(st.pt, st.share.Keys, s, b) {
      PageCountPut(st.pt, st.share.Keys, k, st'.pt[k], s, b);
    }
  }

  lemma ProtectPagePlaced(st: State, k: Key, r: Rights)
    requires Placed(st) && RightsAgree(st) && k in st.pt && k in st.vma && st.vma[k].cow
    requires st.pt[k].frame in st.share ==> st.share[st.pt[k].frame] >= 1
    ensures Placed(ProtectPage(st, k, r)) && RightsAgree(ProtectPage(st, k, r))
    ensures View(ProtectPage(st, k, r)) == View(st)
  {
    hide RightsAgree, View, Placed;
    ProtectPlaced(st, k, r);
    ProtectRights(st, k, r);
    ProtectView(st, k, r);
  }

  lemma ProtectPlaced(st: State, k: Key, r: Rights)
    requires Placed(st) && k in st.pt && k in st.vma
    requires st.pt[k].frame in st.share ==> st.share[st.pt[k].frame] >= 1
    ensures Placed(ProtectPage(st, k, r))
  {
  }

  lemma ProtectRights(st: State, k: Key, r: Rights)
    requires Placed(st) && RightsAgree(st) && k in st.pt && st.vma[k].cow && Placed(ProtectPage(st, k, r))
    requires st.pt[k].frame in st.share ==> st.share[st.pt[k].frame] >= 1
    ensures RightsAgree(ProtectPage(st, k, r))
  {
  }

  lemma ProtectView(st: State, k: Key, r: Rights)
    requires Placed(st) && k in st.pt && k in st.vma && Placed(ProtectPage(st, k, r))
    requires st.pt[k].frame in st.share ==> st.share[st.pt[k].frame] >= 1
    ensures View(ProtectPage(st, k, r)) == View(st)
  {
  }

  /** Changing rights never makes a shared page writable and changes no byte. */
  lemma ProtectPageSound(st: State, k: Key, r: Rights)
    requires Inv(st) && k in st.vma && st.vma[k].cow
    ensures Inv(ProtectPage(st, k, r))
    ensures View(ProtectPage(st, k, r)) == View(st)
    ensures ProtectPage(st, k, r).vma[k] == Vma(true, r)
    ensures k in st.pt ==>
      var e := ProtectPage(st, k, r).pt[k].rights;
      e.rd == r.rd && e.ex == r.ex && e.wr == (r.wr && st.pt[k].frame !in st.share)
  {
    hide MapCount, PageCount;
    if k in st.pt {
      assert st.pt[k].frame in st.share ==> st.share[st.pt[k].frame] >= 1;
      hide CountsExact, SizesExact, View, Placed, RightsAgree;
      ProtectPageCounts(st, k, r);
      ProtectPagePlaced(st, k, r);
    }
  }

  lemma MapPageSound(st: State, k: Key, v: Vma)
    requires Inv(st) && k !in st.vma && k.space in st.pSize
    ensures Inv(MapPage(st, k, v))
    ensures View(MapPage(st, k, v)) == View(st)[k := ZeroPage()]
  {
    hide MapCount, PageCount;
  }

  /** The store instruction on a mapped page. */
  function PutByte(st: State, k: Key, off: nat, b: bv8): State
    requires k in st.pt && st.pt[k].frame in st.frames && off < |st.frames[st.pt[k].frame].bytes|
  {
    var f := st.pt[k].frame;
    State(st.vma, st.pt, st.share, st.frames[f := Page(st.frames[f].bytes[off := b])], st.pSize, st.sSize)
  }

  /** A writable page is the only mapping of its frame, in its own space or any other. */
  lemma WritableIsSole(st: State, k: Key)
    requires Inv(st) && k in st.pt && st.pt[k].rights.wr
    ensures forall q :: Maps(st.pt, q, st.pt[k].frame) ==> q == k
  {
    hide MapCount;
    LastMapping(st, k);
  }

  lemma PutByteView(st: State, k: Key, off: nat, b: bv8)
    requires Placed(st) && k in st.pt && off < PAGE_SIZE
    requires forall q :: Maps(st.pt, q, st.pt[k].frame) ==> q == k
    ensures Placed(PutByte(st, k, off, b))
    ensures View(PutByte(st, k, off, b)) == View(st)[k := Page(View(st)[k].bytes[off := b])]
  {
    var st' := PutByte(st, k, off, b);
    forall q | q in st.pt && q != k ensures st'.frames[st.pt[q].frame] == st.frames[st.pt[q].frame] {
      assert st.pt[q].frame == st.pt[k].frame ==> Maps(st.pt, q, st.pt[k].frame);
    }
  }

  /** A store the hardware allows is seen at that page and nowhere else. */
  lemma PutByteSound(st: State, k: Key, off: nat, b: bv8)
    requires Inv(st) && k in st.pt && st.pt[k].rights.wr && off < PAGE_SIZE
    ensures Inv(PutByte(st, k, off, b))
    ensures View(PutByte(st, k, off, b)) == View(st)[k := Page(View(st)[k].bytes[off := b])]
  {
    hide MapCount, PageCount, View, Maps;
    WritableIsSole(st, k);
    PutByteView(st, k, off, b);
  }
}
