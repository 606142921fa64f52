/** The page-fault, unmap, protect and fork code for anonymous areas, as it updates the shared
    state in place, proved against the steps of modules CopyOnWrite and ForkIsolation. */
module AnonymousPaging {
  import opened Machine
  import opened Protection
  import opened CopyOnWrite
  import opened ForkIsolation

  datatype Range = Range(base: nat, n: nat)

  class Family {
    var vma: map<Key, Vma>
    var pt: map<Key, Entry>
    var share: map<Frame, int>
    var frames: map<Frame, Page>
    var pSize: map<Space, int>
    var sSize: map<Space, int>

    ghost function St(): State
      reads this
    {
      State(vma, pt, share, frames, pSize, sSize)
    }

    constructor ()
      ensures St() == EMPTY
    {
      vma, pt, share, frames, pSize, sSize := map[], map[], map[], map[], map[], map[];
    }

    /** page_shared: add `count` to a frame's entry; true when unlisted on a query or when the
        entry goes away. */
    method ShareAdd(page: Frame, count: int) returns (last: bool)
      requires page in share || count >= 0
      modifies this`share
      ensures share == PageShared(old(share), page, count).0
      ensures last == PageShared(old(share), page, count).1
      ensures count == 0 && (page in old(share) ==> old(share)[page] > 0) ==> share == old(share)
    {
      last := false;
      if page !in share {
        if count == 0 {
          return true;
        }
        share := share[page := count];
      } else {
        var c := share[page] + count;
        share := share[page := c];
        assert c == old(share)[page] ==> share == old(share);
        if c <= 0 {
          share := share - {page};
          last := true;
          assert share == old(share) - {page};
        }
      }
    }

    /** vmsp_resolve and vma_resolve on an anonymous area. `page` is what page_new returns; the
        fault reason tells whether the page was absent or present but not writable. */
    method Resolve(k: Key, missing: bool, write: bool, page: Frame) returns (ok: bool)
      requires Inv(St()) && page !in frames
      requires missing <==> k !in pt
      requires !missing && write ==> !pt[k].rights.wr
      modifies this
      ensures Inv(St()) && View(St()) == old(View(St()))
      ensures ok <==> k in old(vma) && (write ==> old(vma)[k].rights.wr)
      ensures ok && missing ==> St() == FaultMissing(old(St()), k, page)
      ensures ok && !missing && write ==>
        && old(pt)[k].frame in old(share) && old(pt)[k].frame in old(frames)
        && St() == FaultWrite(old(St()), k, page)
      ensures !ok || (!missing && !write) ==> St() == old(St())
    {
      hide CountsExact, SizesExact, RightsAgree, Placed, View;
      ghost var st := St();
      if k !in vma {
        return false;
      }
      if write && !vma[k].rights.wr {
        return false;
      }
      CoveredKey(st, k);
      if missing {
        // vma_fetch_blank zeroes the frame, vma_resolve_blank maps it
        FaultMissingSound(st, k, page);
        frames := frames[page := ZeroPage()];
        pSize := pSize[k.space := pSize[k.space] + 1];
        pt := pt[k := Entry(page, vma[k].rights.MaskRW())];
      }
      if !missing && write {
        ReadOnlyIsShared(st, k);
        CowArea(st, k);
        if vma[k].cow {
          FaultWriteSound(st, k, page);
          var prev := pt[k].frame;
          frames := frames[page := frames[prev]];
          var last := ShareAdd(prev, -1);
          if last {
            frames := frames - {prev};
          }
          sSize := sSize[k.space := sSize[k.space] - 1];
          pSize := pSize[k.space := pSize[k.space] + 1];
          pt := pt[k := Entry(page, Rights(true, true, false))];
        }
      }
      return true;
    }

    /** One turn of that loop: a page that is not mapped yet gets a zeroed frame. */
    method ResolveFresh(k: Key, page: Frame)
      requires Inv(St()) && k in vma && k !in pt && page !in frames
      modifies this
      ensures Inv(St()) && View(St()) == old(View(St())) && vma == old(vma)
      ensures pt.Keys == old(pt.Keys) + {k} && frames.Keys == old(frames.Keys) + {page}
    {
      hide Inv, View, Placed;
      Entered(St());
      var ok := Resolve(k, true, false, page);
    }

    /** The loop of vma_create that maps a fresh area at once, with the frames `pages`. */
    method ResolveAll(s: Space, base: nat, n: nat, pages: seq<Frame>)
      requires Inv(St()) && RangeKeys(s, base, n) <= vma.Keys && RangeKeys(s, base, n) !! pt.Keys && |pages| == n
      requires Different(pages) && Unused(pages, 0, frames.Keys)
      modifies this
      ensures Inv(St()) && View(St()) == old(View(St())) && vma == old(vma)
      ensures pt.Keys == old(pt.Keys) + RangeKeys(s, base, n)
    {
      hide Inv, View, RangeKeys, Placed, Different, Unused;
      Entered(St());
      RangeNone(s, base);
      ghost var before := pt.Keys;
      var i := 0;
      while i < n
        invariant 0 <= i <= n && Inv(St()) && Placed(St()) && View(St()) == old(View(St())) && vma == old(vma)
        invariant pt.Keys == before + RangeKeys(s, base, i) && Unused(pages, i, frames.Keys)
      {
        RangeEnd(s, base, i, n);
        UnusedNext(pages, i, frames.Keys);
        Longer(before, RangeKeys(s, base, i), Key(s, base + i));
        ResolveFresh(Key(s, base + i), pages[i]);
        Entered(St());
        i := i + 1;
      }
    }

    /** vma_create of an anonymous area: its pages read as zeros, whether they are mapped at once or on
        first use. */
    method CreateArea(s: Space, base: nat, n: nat, v: Vma, resolve: bool, pages: seq<Frame>)
      requires Inv(St()) && Legal(St(), Op.Map(s, base, n, v)) && |pages| == n
      requires Different(pages) && Unused(pages, 0, frames.Keys)
      modifies this
      ensures Inv(St()) && vma == MapRange(old(St()), s, base, n, v).vma
      ensures Placed(MapRange(old(St()), s, base, n, v)) && View(St()) == View(MapRange(old(St()), s, base, n, v))
      ensures pt.Keys == old(pt.Keys) + if resolve then RangeKeys(s, base, n) else {}
    {
      hide Inv, View, RangeKeys, MapRange;
      Entered(St());
      MapRangeKeeps(St(), s, base, n, v);
      Create(s, base, n, v);
      Entered(St());
      if resolve {
        ResolveAll(s, base, n, pages);
      }
    }

    /** The part of vma_create that enters the pages of a fresh area. */
    method Create(s: Space, base: nat, n: nat, v: Vma)
      requires Inv(St()) && Legal(St(), Op.Map(s, base, n, v))
      modifies this`vma
      ensures Inv(St()) && St() == MapRange(old(St()), s, base, n, v)
    {
      hide Inv, RangeKeys;
      MapRangeSound(St(), s, base, n, v);
      var address: nat, length: nat := base, n;
      while length > 0
        invariant MapRange(St(), s, address, length, v) == MapRange(old(St()), s, base, n, v)
      {
        vma := vma[Key(s, address) := v];
        length := length - 1;
        address := address + 1;
      }
    }

    /** vma_unmap_blank. */
    method UnmapPage(k: Key)
      requires Inv(St()) && k in vma
      modifies this
      ensures Inv(St()) && old(Covered(St(), k)) && St() == DropPage(old(St()), k)
      ensures vma == old(vma) - {k}
    {
      hide CountsExact, SizesExact, RightsAgree, Placed, View;
      ghost var st := St();
      CoveredKey(st, k);
      DropPageSound(st, k);
      vma := vma - {k};
      if k in pt {
        var pg := pt[k].frame;
        pt := pt - {k};
        ListedPositive(st, pg);
        var private := ShareAdd(pg, 0);
        if private {
          pSize := pSize[k.space := pSize[k.space] - 1];
          frames := frames - {pg};
        } else {
          sSize := sSize[k.space := sSize[k.space] - 1];
          var last := ShareAdd(pg, -1);
          if last {
            frames := frames - {pg};
          }
        }
      }
    }

    /** vma_unmap: every page of an area, in order. */
    method Unmap(s: Space, base: nat, n: nat)
      requires Inv(St()) && RangeKeys(s, base, n) <= vma.Keys
      modifies this
      ensures Inv(St()) && St() == DropRange(old(St()), s, base, n)
    {
      hide Inv, Covered, DropPage, RangeKeys;
      var address: nat, length: nat := base, n;
      while length > 0
        invariant Inv(St()) && RangeKeys(s, address, length) <= vma.Keys
        invariant DropRange(St(), s, address, length) == DropRange(old(St()), s, base, n)
      {
        RangeSplit(s, address, length);
        UnmapPage(Key(s, address));
        length := length - 1;
        address := address + 1;
      }
    }

    /** vma_protect_anon on one page, given the area's new rights. */
    method ProtectOne(k: Key, r: Rights)
      requires Inv(St()) && k in vma && vma[k].cow
      modifies this
      ensures Inv(St()) && St() == ProtectPage(old(St()), k, r)
    {
      hide CountsExact, SizesExact, RightsAgree, Placed, View;
      ghost var st := St();
      ProtectPageSound(st, k, r);
      var cow := vma[k].cow;
      vma := vma[k := Vma(cow, r)];
      if k in pt {
        var pg := pt[k].frame;
        ListedPositive(st, pg);
        var private := ShareAdd(pg, 0);
        if private {
          pt := pt[k := Entry(pg, r)];
        } else {
          pt := pt[k := Entry(pg, r.MaskRX())];
        }
      }
    }

    /** vma_protect_anon: every page of an area, in order. */
    method Protect(s: Space, base: nat, n: nat, r: Rights)
      requires Inv(St()) && Legal(St(), Op.Protect(s, base, n, r))
      modifies this
      ensures Inv(St()) && St() == ProtectRange(old(St()), s, base, n, r)
    {
      hide Inv, RangeKeys;
      var address: nat, length: nat := base, n;
      while length > 0
        invariant Inv(St()) && Legal(St(), Op.Protect(s, address, length, r))
        invariant ProtectRange(St(), s, address, length, r) == ProtectRange(old(St()), s, base, n, r)
      {
        RangeSplit(s, address, length);
        ProtectOne(Key(s, address), r);
        length := length - 1;
        address := address + 1;
      }
    }

    /** vma_clone on one page of an area of `parent`. */
    method CloneOne(k: Key, c: Key)
      requires Inv(St()) && Clonable(St(), k, c)
      modifies this
      ensures Inv(St()) && St() == ClonePage(old(St()), k, c)
      ensures k in old(pt) && vma[k].cow ==>
        && k in pt && c in pt && pt[k].frame == pt[c].frame == old(pt)[k].frame
        && pt[k].rights.rd == pt[c].rights.rd == vma[k].rights.rd
        && pt[k].rights.ex == pt[c].rights.ex == vma[k].rights.ex && !pt[k].rights.wr && !pt[c].rights.wr
    {
      hide CountsExact, SizesExact, RightsAgree, Placed, View;
      ghost var st := St();
      ClonePageSound(st, k, c);
      var area := vma[k];
      vma := vma[c := area];
      if area.cow && k in pt {
        var page := pt[k].frame;
        ListedPositive(st, page);
        var private := ShareAdd(page, 0);
        pt := pt[c := Entry(page, area.rights.MaskRX())];
        sSize := sSize[c.space := sSize[c.space] + 1];
        if private {
          pt := pt[k := Entry(page, area.rights.MaskRX())];
          sSize := sSize[k.space := sSize[k.space] + 1];
          pSize := pSize[k.space := pSize[k.space] - 1];
          var _ := ShareAdd(page, 2);
        } else {
          var _ := ShareAdd(page, 1);
        }
      }
    }

    /** vma_clone: every page of one area; `rest` are the pages of the areas still to come. */
    method CloneArea(parent: Space, child: Space, base: nat, n: nat, ghost rest: seq<nat>)
      requires Inv(St()) && ToCopy(St(), parent, child, Span(base, n) + rest)
      modifies this
      ensures Inv(St()) && ToCopy(St(), parent, child, rest)
      ensures ClonePages(St(), parent, child, rest) == ClonePages(old(St()), parent, child, Span(base, n) + rest)
    {
      hide Inv, ClonePages, ClonePage, Clonable, ToCopy;
      var address: nat, length: nat := base, n;
      while length > 0
        invariant Inv(St()) && ToCopy(St(), parent, child, Span(address, length) + rest)
        invariant ClonePages(St(), parent, child, Span(address, length) + rest)
               == ClonePages(old(St()), parent, child, Span(base, n) + rest)
      {
        ghost var todo := Span(address, length) + rest;
        assert todo[0] == address && todo[1..] == Span(address + 1, length - 1) + rest;
        CloneMore(St(), parent, child, todo);
        CloneOne(Key(parent, address), Key(child, address));
        length := length - 1;
        address := address + 1;
      }
      assert Span(address, 0) + rest == rest;
    }

    /** vmsp_build, as far as the paging code goes. */
    method Enter(s: Space)
      modifies `pSize, `sSize
      ensures St() == AddSpace(old(St()), s)
    {
      pSize, sSize := pSize[s := 0], sSize[s := 0];
    }

    /** vmsp_clone: a new space, then vma_clone on each area of the parent in address order. */
    method CloneSpace(parent: Space, child: Space, areas: seq<Range>)
      requires Inv(St()) && Legal(St(), Op.Clone(parent, child, PagesOf(areas)))
      modifies this
      ensures Inv(St()) && St() == Step(old(St()), Op.Clone(parent, child, PagesOf(areas)))
    {
      hide Inv, ToCopy, Span;
      CloneStart(St(), parent, child, PagesOf(areas));
      Enter(child);
      var i := 0;
      assert areas[0..] == areas;
      while i < |areas|
        invariant 0 <= i <= |areas|
        invariant Inv(St()) && ToCopy(St(), parent, child, PagesOf(areas[i..]))
        invariant ClonePages(St(), parent, child, PagesOf(areas[i..]))
               == Step(old(St()), Op.Clone(parent, child, PagesOf(areas)))
      {
        assert areas[i..][1..] == areas[i + 1..];
        CloneArea(parent, child, areas[i].base, areas[i].n, PagesOf(areas[i + 1..]));
        i := i + 1;
      }
      assert areas[i..] == [];
    }
  }

  function Span(base: nat, n: nat): seq<nat>
    decreases n
  {
    if n == 0 then [] else [base] + Span(base + 1, n - 1)
  }

  /** The pages of a list of areas, in the order two nested loops visit them. */
  function PagesOf(areas: seq<Range>): seq<nat> {
    if areas == [] then [] else Span(areas[0].base, areas[0].n) + PagesOf(areas[1..])
  }

  lemma CloneStart(st: State, parent: Space, child: Space, pages: seq<nat>)
    requires Inv(st) && Legal(st, Op.Clone(parent, child, pages))
    ensures Inv(AddSpace(st, child)) && ToCopy(AddSpace(st, child), parent, child, pages)
  {
    hide CountsExact, SizesExact, RightsAgree, Placed, View;
    AddSpaceSound(st, child);
    NoPages(st, child);
  }

  lemma CloneMore(st: State, parent: Space, child: Space, pages: seq<nat>)
    requires Inv(st) && pages != [] && ToCopy(st, parent, child, pages)
    ensures Clonable(st, Key(parent, pages[0]), Key(child, pages[0]))
    ensures ToCopy(ClonePage(st, Key(parent, pages[0]), Key(child, pages[0])), parent, child, pages[1..])
    ensures ClonePages(st, parent, child, pages)
         == ClonePages(ClonePage(st, Key(parent, pages[0]), Key(child, pages[0])), parent, child, pages[1..])
  {
    hide CountsExact, SizesExact, RightsAgree, Placed, View, ClonePage, Covered;
    ClonePageCopied(st, parent, child, pages[0]);
    assert forall p :: p in pages[1..] ==> p in pages && p != pages[0];
  }

  lemma CowArea(st: State, k: Key)
    requires Inv(st) && k in st.pt && st.pt[k].frame in st.share
    ensures k in st.vma && st.vma[k].cow
  {
    hide CountsExact, SizesExact;
  }

  lemma ListedPositive(st: State, f: Frame)
    requires Inv(st)
    ensures f in st.share ==> st.share[f] >= 1
  {
  }

  lemma Entered(st: State)
    requires Inv(st)
    ensures Placed(st) && st.pt.Keys <= st.vma.Keys
  {
  }

  /** Frames that page_new has handed out one by one. */
  predicate Different(pages: seq<Frame>) {
    forall i, j :: 0 <= i < j < |pages| ==> pages[i] != pages[j]
  }

  predicate Unused(pages: seq<Frame>, i: nat, frames: set<Frame>) {
    forall j :: i <= j < |pages| ==> pages[j] !in frames
  }

  lemma UnusedNext(pages: seq<Frame>, i: nat, frames: set<Frame>)
    requires Different(pages) && i < |pages| && Unused(pages, i, frames)
    ensures pages[i] !in frames && Unused(pages, i + 1, frames + {pages[i]})
  {
  }

  lemma Longer(a: set<Key>, b: set<Key>, k: Key)
    ensures a + b + {k} == a + (b + {k})
  {
  }

  lemma RangeNone(s: Space, base: nat)
    ensures RangeKeys(s, base, 0) == {}
  {
  }

  lemma RangeEnd(s: Space, base: nat, i: nat, n: nat)
    requires i < n
    ensures RangeKeys(s, base, i + 1) == RangeKeys(s, base, i) + {Key(s, base + i)}
    ensures Key(s, base + i) in RangeKeys(s, base, n) && Key(s, base + i) !in RangeKeys(s, base, i)
  {
    assert Key(s, base + i) in RangeKeys(s, base, i + 1);
  }

  lemma {:induction false} MapRangeKeeps(st: State, s: Space, base: nat, n: nat, v: Vma)
    ensures MapRange(st, s, base, n, v).pt == st.pt && MapRange(st, s, base, n, v).frames == st.frames
    ensures RangeKeys(s, base, n) <= MapRange(st, s, base, n, v).vma.Keys
    ensures st.vma.Keys <= MapRange(st, s, base, n, v).vma.Keys
    decreases n
  {
    RangeSplit(s, base, n);
    if n > 0 { MapRangeKeeps(MapPage(st, Key(s, base), v), s, base + 1, n - 1, v); }
  }
}
