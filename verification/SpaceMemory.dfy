/** The areas of a space together with the pages they cover: the operations of module AddressSpace on
    byte ranges, and those of module AnonymousPaging on the pages of those ranges, keep the two views of
    anonymous memory in step and the ownership of frames exact. */
module SpaceMemory {

  import opened Machine
  import opened Protection
  import opened CopyOnWrite
  import opened ForkIsolation
  import opened AnonymousPaging
  import AS = AddressSpace

  // ----- both views of a space -------------------------------------------------------------------

  /** Page `p` lies in an anonymous area with rights `r`. */
  ghost predicate AnonPage(s: AS.Areas, p: nat, r: Rights) {
    exists m :: AS.Maps(s, p * PAGE_SIZE, m) && m.ops.Anon? && m.rights == r
  }

  /** The paging code knows the pages of the anonymous areas, with their rights, and no others. */
  ghost predicate Coupled(s: AS.Areas, vma: map<Key, Vma>, id: Space) {
    && (forall p: nat, r :: AnonPage(s, p, r) <==> Key(id, p) in vma && vma[Key(id, p)] == Vma(true, r))
    && (forall p: nat :: Key(id, p) in vma ==> vma[Key(id, p)].cow)
  }

  ghost predicate InStep(v: AS.Vmsp, fam: Family, id: Space)
    reads v, fam
  {
    v.Valid() && v.SizeExact() && Inv(fam.St()) && Coupled(v.areas, fam.vma, id)
  }

  /** Whole pages of an aligned range. */
  lemma InRange(base: nat, length: nat, p: nat)
    requires AS.Aligned(base) && AS.Aligned(length)
    ensures base <= p * PAGE_SIZE < base + length <==> base / PAGE_SIZE <= p < base / PAGE_SIZE + length / PAGE_SIZE
  {
  }

  lemma KeyInRange(id: Space, base: nat, length: nat, p: nat)
    requires AS.Aligned(base) && AS.Aligned(length)
    ensures Key(id, p) in RangeKeys(id, base / PAGE_SIZE, length / PAGE_SIZE) <==> base <= p * PAGE_SIZE < base + length
  {
    InRange(base, length, p);
  }

  /** A range that adjacent areas of one kind cover is mapped throughout, to that kind. */
  lemma {:induction false} ReachesAll(s: AS.Areas, b: nat, limit: nat, ops: AS.Ops, obj: nat, a: nat)
    requires AS.Reaches(s, b, limit, ops, obj) && b <= a && (a < limit || a < b + s[b].len)
    ensures exists m :: AS.Maps(s, a, m) && m.ops == ops
    decreases a - b
  {
    if a < b + s[b].len {
      assert AS.Covers(b, s[b], a);
      assert AS.Maps(s, a, AS.MappingAt(b, s[b], a));
    } else {
      ReachesAll(s, b + s[b].len, limit, ops, obj, a);
    }
  }

  /** A request that cuts right from an anonymous area covers anonymous pages only. */
  lemma RangeAnon(s: AS.Areas, vma: map<Key, Vma>, id: Space, b: nat, base: nat, length: nat)
    requires Coupled(s, vma, id) && b in s && AS.Covers(b, s[b], base) && s[b].ops.Anon? && s[b].len > 0
    requires AS.Aligned(base) && AS.Aligned(length) && base < WORD && length < WORD
    requires AS.Vmsp.CutsRight(s, b, base, length)
    ensures RangeKeys(id, base / PAGE_SIZE, length / PAGE_SIZE) <= vma.Keys
  {
    forall k | k in RangeKeys(id, base / PAGE_SIZE, length / PAGE_SIZE) ensures k in vma {
      var p := k.page;
      KeyInRange(id, base, length, p);
      var m := RangeMaps(s, b, base, length, p);
      assert AnonPage(s, p, m.rights);
    }
  }

  /** An address has one mapping. */
  lemma MapsOnce(s: AS.Areas, a: int, m: AS.Mapping, n: AS.Mapping)
    requires AS.Disjoint(s) && AS.Maps(s, a, m) && AS.Maps(s, a, n)
    ensures m == n
  {
  }

  /** One that cuts right from an area of another kind covers no anonymous page. */
  lemma RangeOther(s: AS.Areas, vma: map<Key, Vma>, id: Space, b: nat, base: nat, length: nat)
    requires Coupled(s, vma, id) && AS.Disjoint(s)
    requires b in s && AS.Covers(b, s[b], base) && !s[b].ops.Anon? && s[b].len > 0
    requires AS.Aligned(base) && AS.Aligned(length) && base < WORD && length < WORD
    requires AS.Vmsp.CutsRight(s, b, base, length)
    ensures RangeKeys(id, base / PAGE_SIZE, length / PAGE_SIZE) !! vma.Keys
  {
    hide AS.Disjoint;
    forall k | k in RangeKeys(id, base / PAGE_SIZE, length / PAGE_SIZE) ensures k !in vma {
      var p := k.page;
      KeyInRange(id, base, length, p);
      var m := RangeMaps(s, b, base, length, p);
      hide AS.Maps;
      forall n | AS.Maps(s, p * PAGE_SIZE, n) ensures !n.ops.Anon? { MapsOnce(s, p * PAGE_SIZE, m, n); }
      assert k in vma ==> AnonPage(s, p, vma[k].rights);
    }
  }

  /** Every page of the range is mapped as its first area is. */
  lemma RangeMaps(s: AS.Areas, b: nat, base: nat, length: nat, p: nat) returns (m: AS.Mapping)
    requires b in s && AS.Covers(b, s[b], base) && s[b].len > 0 && base < WORD && length < WORD
    requires AS.Vmsp.CutsRight(s, b, base, length) && base <= p * PAGE_SIZE < base + length
    ensures AS.Maps(s, p * PAGE_SIZE, m) && m.ops == s[b].ops
  {
    var a := p * PAGE_SIZE;
    if AS.Vmsp.Whole(s, b, base, length) {
      m := AS.MappingAt(b, s[b], a);
      assert AS.Covers(b, s[b], a);
    } else {
      ReachesAll(s, b, base + length, s[b].ops, s[b].obj, a);
      m :| AS.Maps(s, a, m) && m.ops == s[b].ops;
    }
  }

  lemma CoupledUnmap(s: AS.Areas, t: AS.Areas, vma: map<Key, Vma>, id: Space, base: nat, length: nat)
    requires Coupled(s, vma, id) && AS.Unmapped(s, t, base, base + length)
    requires AS.Aligned(base) && AS.Aligned(length)
    ensures Coupled(t, vma - RangeKeys(id, base / PAGE_SIZE, length / PAGE_SIZE), id)
  {
    hide RangeKeys, AS.Maps;
    var cut := RangeKeys(id, base / PAGE_SIZE, length / PAGE_SIZE);
    forall p: nat, r ensures AnonPage(t, p, r) <==> AnonPage(s, p, r) && Key(id, p) !in cut {
      KeyInRange(id, base, length, p);
    }
  }

  lemma CoupledMap(s: AS.Areas, t: AS.Areas, vma: map<Key, Vma>, id: Space, base: nat, area: AS.Area)
    requires Coupled(s, vma, id) && AS.Adds(s, t, base, area) && area.ops.Anon?
    requires AS.Aligned(base) && AS.Aligned(area.len)
    ensures var added := RangeKeys(id, base / PAGE_SIZE, area.len / PAGE_SIZE);
      && added !! vma.Keys
      && Coupled(t, vma + (map k | k in added :: Vma(true, area.rights)), id)
  {
    hide RangeKeys, AS.Maps;
    var added := RangeKeys(id, base / PAGE_SIZE, area.len / PAGE_SIZE);
    forall p: nat ensures Key(id, p) in added <==> AS.Covers(base, area, p * PAGE_SIZE) {
      KeyInRange(id, base, area.len, p);
    }
    forall p: nat, r ensures
      AnonPage(t, p, r) <==> if Key(id, p) in added then r == area.rights else AnonPage(s, p, r)
    {
      var a := p * PAGE_SIZE;
      if Key(id, p) in added && r == area.rights {
        assert AS.Maps(t, a, AS.MappingAt(base, area, a));
      }
    }
    forall k | k in added ensures k !in vma {
      RangeKeyIs(id, base / PAGE_SIZE, area.len / PAGE_SIZE, k);
      assert k in vma ==> AnonPage(s, k.page, vma[k].rights);
    }
  }

  lemma RangeKeyIs(id: Space, base: nat, n: nat, k: Key)
    requires k in RangeKeys(id, base, n)
    ensures k == Key(id, k.page)
  {
  }

  /** What new rights on a range do to one address. */
  lemma ProtectsAt(s: AS.Areas, t: AS.Areas, from: nat, to: nat, f: Rights, a: nat, m: AS.Mapping)
    requires AS.Protected(s, t, from, to, f)
    ensures !(from <= a < to) ==> (AS.Maps(t, a, m) <==> AS.Maps(s, a, m))
    ensures from <= a < to && AS.Maps(t, a, m) && m.ops.Anon? ==>
      m.rights == f && exists n :: AS.Maps(s, a, n) && n.ops.Anon?
    ensures from <= a < to && AS.Maps(s, a, m) ==> AS.Maps(t, a, AS.Remap(m, f))
  {
    hide AS.Maps, AS.Remapped;
    AnonRemapped(s, a, m, f);
    RemappedIs(s, a, m, f);
  }

  lemma AnonRemapped(s: AS.Areas, a: nat, m: AS.Mapping, f: Rights)
    ensures AS.Remapped(s, a, m, f) && m.ops.Anon? ==> m.rights == f && exists n :: AS.Maps(s, a, n) && n.ops.Anon?
  {
    hide AS.Maps;
  }

  lemma RemappedIs(s: AS.Areas, a: nat, m: AS.Mapping, f: Rights)
    ensures AS.Maps(s, a, m) ==> AS.Remapped(s, a, AS.Remap(m, f), f)
  {
    hide AS.Maps;
    AS.RemapRegrants(m, AS.Remap(m, f), f);
  }

  /** What they do to one page. */
  lemma ProtectsPage(s: AS.Areas, t: AS.Areas, from: nat, to: nat, f: Rights, p: nat, r: Rights)
    requires AS.Protected(s, t, from, to, f)
    ensures !(from <= p * PAGE_SIZE < to) ==> (AnonPage(t, p, r) <==> AnonPage(s, p, r))
    ensures from <= p * PAGE_SIZE < to ==> (AnonPage(t, p, r) ==> r == f && exists q :: AnonPage(s, p, q))
    ensures from <= p * PAGE_SIZE < to ==> (AnonPage(s, p, r) ==> AnonPage(t, p, f))
  {
    hide AS.Maps, AS.Protected;
    var a := p * PAGE_SIZE;
    if AnonPage(t, p, r) {
      var m :| AS.Maps(t, a, m) && m.ops.Anon? && m.rights == r;
      ProtectsAt(s, t, from, to, f, a, m);
      if from <= a < to {
        var n :| AS.Maps(s, a, n) && n.ops.Anon?;
        assert AnonPage(s, p, n.rights);
      }
    }
    if AnonPage(s, p, r) {
      var n :| AS.Maps(s, a, n) && n.ops.Anon? && n.rights == r;
      ProtectsAt(s, t, from, to, f, a, n);
    }
  }

  lemma CoupledProtect(s: AS.Areas, t: AS.Areas, vma: map<Key, Vma>, id: Space, base: nat, length: nat, f: Rights)
    requires Coupled(s, vma, id) && AS.Protected(s, t, base, base + length, f)
    requires AS.Aligned(base) && AS.Aligned(length)
    requires RangeKeys(id, base / PAGE_SIZE, length / PAGE_SIZE) <= vma.Keys
    ensures var cut := RangeKeys(id, base / PAGE_SIZE, length / PAGE_SIZE);
      Coupled(t, map k | k in vma :: if k in cut then Vma(vma[k].cow, f) else vma[k], id)
  {
    hide RangeKeys, AnonPage, AS.Protected;
    var cut := RangeKeys(id, base / PAGE_SIZE, length / PAGE_SIZE);
    forall p: nat, r ensures AnonPage(t, p, r) <==> if Key(id, p) in cut then r == f else AnonPage(s, p, r) {
      KeyInRange(id, base, length, p);
      ProtectsPage(s, t, base, base + length, f, p, r);
      if Key(id, p) in cut {
        ProtectsPage(s, t, base, base + length, f, p, vma[Key(id, p)].rights);
      }
    }
  }

  /** In a range without anonymous pages there are none afterwards. */
  lemma CoupledOther(s: AS.Areas, t: AS.Areas, vma: map<Key, Vma>, id: Space, base: nat, length: nat, f: Rights)
    requires Coupled(s, vma, id) && AS.Protected(s, t, base, base + length, f)
    requires AS.Aligned(base) && AS.Aligned(length)
    requires RangeKeys(id, base / PAGE_SIZE, length / PAGE_SIZE) !! vma.Keys
    ensures Coupled(t, vma, id)
  {
    hide RangeKeys, AnonPage, AS.Protected;
    forall p: nat, r ensures AnonPage(t, p, r) <==> AnonPage(s, p, r) {
      KeyInRange(id, base, length, p);
      ProtectsPage(s, t, base, base + length, f, p, r);
      ghost var cut := RangeKeys(id, base / PAGE_SIZE, length / PAGE_SIZE);
      assert Key(id, p) in cut ==> Key(id, p) !in vma;
    }
  }

  // ----- what a program may do where ---------------------------------------------------------------

  /** Address `a` lies in anonymous memory that may be written, or that may be read. */
  ghost predicate Allows(s: AS.Areas, a: nat, write: bool) {
    exists m :: AS.Maps(s, a, m) && m.ops.Anon? && if write then m.rights.wr else m.rights.rd
  }

  lemma GainsAllows(s: AS.Areas, t: AS.Areas, base: nat, length: nat, offset: int, f: Rights)
    requires AS.Gains(s, t, base, length, AS.Anon, 0, offset, f)
    ensures forall a: nat :: base <= a < base + length ==>
      (Allows(t, a, true) <==> f.wr && !f.ex) && (Allows(t, a, false) <==> f.rd)
  {
    hide AS.Maps;
    forall a: nat | base <= a < base + length
      ensures (Allows(t, a, true) <==> f.wr && !f.ex) && (Allows(t, a, false) <==> f.rd)
    {
      assert AS.Maps(t, a, AS.Mapping(AS.Anon, 0, 0, Rights(f.rd, f.wr && !f.ex, f.ex)));
    }
  }

  /** Areas hold whole pages, so the page decides. */
  lemma AllowsPage(s: AS.Areas, vma: map<Key, Vma>, id: Space, a: nat, write: bool)
    requires Coupled(s, vma, id) && AS.AllAligned(s)
    ensures var k := Key(id, a / PAGE_SIZE);
      Allows(s, a, write) <==> k in vma && if write then vma[k].rights.wr else vma[k].rights.rd
  {
    var p := a / PAGE_SIZE;
    if Allows(s, a, write) {
      var m :| AS.Maps(s, a, m) && m.ops.Anon? && if write then m.rights.wr else m.rights.rd;
      var b :| b in s && AS.Covers(b, s[b], a) && m == AS.MappingAt(b, s[b], a);
      PageOfArea(b, s[b], a);
      assert AS.Maps(s, p * PAGE_SIZE, AS.MappingAt(b, s[b], p * PAGE_SIZE));
      assert AnonPage(s, p, m.rights);
    }
    if Key(id, p) in vma {
      assert AnonPage(s, p, vma[Key(id, p)].rights);
      var m :| AS.Maps(s, p * PAGE_SIZE, m) && m.ops.Anon? && m.rights == vma[Key(id, p)].rights;
      var b :| b in s && AS.Covers(b, s[b], p * PAGE_SIZE) && m == AS.MappingAt(b, s[b], p * PAGE_SIZE);
      PageOfArea(b, s[b], a);
      assert AS.Maps(s, a, AS.MappingAt(b, s[b], a));
    }
  }

  lemma PageOfArea(b: nat, v: AS.Area, a: nat)
    requires AS.Aligned(b) && AS.Aligned(v.len)
    ensures AS.Covers(b, v, a) <==> AS.Covers(b, v, a / PAGE_SIZE * PAGE_SIZE)
  {
  }

  // ----- the operations --------------------------------------------------------------------------

  /** The request names an area, whole or as the start of a range it accepts. */
  ghost predicate Taken(s: AS.Areas, b: nat, base: nat, length: nat)
    requires b in s
  {
    AS.Vmsp.Whole(s, b, base, length) || AS.Vmsp.Accepts(s, b, base, length)
  }

  /** A range that is taken can be cut right. */
  ghost predicate Proper(s: AS.Areas, base: nat, length: nat) {
    forall b :: b in s && AS.Covers(b, s[b], base) && Taken(s, b, base, length) ==>
      AS.Vmsp.CutsRight(s, b, base, length)
  }

  ghost predicate SomeTakes(s: AS.Areas, base: nat, length: nat) {
    exists b :: b in s && AS.Covers(b, s[b], base) && Taken(s, b, base, length)
  }

  /** vmsp_unmap with the page work of vma_unmap on anonymous areas, which goes through the range in order. */
  method Unmap(v: AS.Vmsp, fam: Family, id: Space, base: nat, length: nat) returns (r: AS.Outcome)
    requires InStep(v, fam, id) && base < WORD && length < WORD && AS.Aligned(base) && AS.Aligned(length)
    requires Proper(v.areas, base, length)
    modifies v, fam
    ensures InStep(v, fam, id) && r == if old(SomeTakes(v.areas, base, length)) then AS.Done(0) else AS.Invalid
    ensures r == AS.Invalid ==> v.areas == old(v.areas) && fam.St() == old(fam.St())
    // exactly the range is gone from the areas, and exactly its pages from the page tables
    ensures r == AS.Done(0) ==>
      && AS.Unmapped(old(v.areas), v.areas, base, base + length)
      && View(fam.St()) == old(View(fam.St())) - RangeKeys(id, base / PAGE_SIZE, length / PAGE_SIZE)
  {
    hide Inv, View, RangeKeys, AS.Unmapped, AS.Vmsp.CutsRight, Coupled, AS.Disjoint, AS.PageTotal, AS.AllAligned;
    ghost var s := v.areas;
    AreasFull(v);
    Entered(fam.St());
    var found := v.FindArea(base);
    if found.None? {
      NoneTakes(s, base, length);
      r := v.Unmap(base, length);
      return;
    }
    var b := found.value;
    AS.CoveredAt(s, b, base);
    OneTakes(s, b, base, length);
    var anon := v.areas[b].ops.Anon?;
    r := v.Unmap(base, length);
    if r == AS.Invalid {
      return;
    }
    CoupledUnmap(s, v.areas, fam.vma, id, base, length);
    if anon {
      RangeAnon(s, fam.vma, id, b, base, length);
      DropRangeSound(fam.St(), id, base / PAGE_SIZE, length / PAGE_SIZE);
      fam.Unmap(id, base / PAGE_SIZE, length / PAGE_SIZE);
    } else {
      RangeOther(s, fam.vma, id, b, base, length);
      NothingDropped(fam.St(), RangeKeys(id, base / PAGE_SIZE, length / PAGE_SIZE));
    }
  }

  /** The area found is the only one that can take the request. */
  lemma OneTakes(s: AS.Areas, b: nat, base: nat, length: nat)
    requires AS.Disjoint(s) && b in s && AS.Covers(b, s[b], base)
    ensures SomeTakes(s, base, length) <==> Taken(s, b, base, length)
    ensures SomeTakesRights(s, base, length) <==> AS.Vmsp.TakesRights(s, b, base, length)
  {
    hide AS.Disjoint, Taken, AS.Vmsp.TakesRights;
    AS.OneCovers(s, b, base);
  }

  lemma NothingDropped(st: State, cut: set<Key>)
    requires Placed(st) && cut !! st.vma.Keys
    ensures st.vma - cut == st.vma && View(st) - cut == View(st)
  {
  }

  /** vmsp_protect with the page work of the anonymous areas. */
  method Protect(v: AS.Vmsp, fam: Family, id: Space, base: nat, length: nat, f: Rights) returns (r: AS.Outcome)
    requires InStep(v, fam, id) && base < WORD && length < WORD && AS.Aligned(base) && AS.Aligned(length)
    requires Proper(v.areas, base, length)
    modifies v, fam
    ensures InStep(v, fam, id) && (r.Done? <==> old(SomeTakesRights(v.areas, base, length))) && !r.Panic?
    ensures r.Done? ==> r == AS.Done(if old(AS.SomeRefuses(v.areas, base, base + length, f)) then -1 else 0)
    ensures r == AS.Invalid ==> v.areas == old(v.areas) && fam.St() == old(fam.St())
    ensures r.Done? ==> AS.Protected(old(v.areas), v.areas, base, base + length, f)
    // nobody's bytes change
    ensures View(fam.St()) == old(View(fam.St()))
  {
    hide Inv, View, RangeKeys, AS.Protected, AS.Vmsp.CutsRight, Coupled, AS.Disjoint, AS.PageTotal, AS.AllAligned,
      AS.SomeRefuses;
    ghost var s := v.areas;
    AreasFull(v);
    Entered(fam.St());
    var found := v.FindArea(base);
    if found.None? {
      NoneTakes(s, base, length);
      r := v.Protect(base, length, f);
      return;
    }
    var b := found.value;
    AS.CoveredAt(s, b, base);
    OneTakes(s, b, base, length);
    var anon := v.areas[b].ops.Anon?;
    r := v.Protect(base, length, f);
    if r == AS.Invalid {
      return;
    }
    if anon {
      RangeAnon(s, fam.vma, id, b, base, length);
      CoupledProtect(s, v.areas, fam.vma, id, base, length, f);
      RangeCow(s, fam.vma, id, base / PAGE_SIZE, length / PAGE_SIZE);
      ProtectRangeSound(fam.St(), id, base / PAGE_SIZE, length / PAGE_SIZE, f);
      fam.Protect(id, base / PAGE_SIZE, length / PAGE_SIZE, f);
    } else {
      RangeOther(s, fam.vma, id, b, base, length);
      CoupledOther(s, v.areas, fam.vma, id, base, length, f);
    }
  }

  ghost predicate SomeTakesRights(s: AS.Areas, base: nat, length: nat) {
    exists b :: b in s && AS.Covers(b, s[b], base) && AS.Vmsp.TakesRights(s, b, base, length)
  }

  lemma NoneTakes(s: AS.Areas, base: nat, length: nat)
    requires !AS.Covered(s, base)
    ensures !SomeTakes(s, base, length) && !SomeTakesRights(s, base, length)
  {
  }

  lemma RangeCow(s: AS.Areas, vma: map<Key, Vma>, id: Space, base: nat, n: nat)
    requires Coupled(s, vma, id) && RangeKeys(id, base, n) <= vma.Keys
    ensures forall k :: k in RangeKeys(id, base, n) ==> vma[k].cow
  {
    hide RangeKeys;
    forall k | k in RangeKeys(id, base, n) ensures vma[k].cow { RangeKeyIs(id, base, n, k); }
  }

  /** The slot the request gets, if it gets one, is sound. */
  ghost predicate SoundSlot(v: AS.Vmsp, address: nat, length: nat, offset: nat, fixed: bool)
    reads v
  {
    forall b :: !AS.BadRequest(length, offset) && length <= v.maxSize
      && AS.ChooseSpec(v.areas, v.lower, v.upper, address, length, fixed, AS.Mapped(b))
      ==> AS.Sound(v.areas, v.lower, v.upper, address, length)
  }

  /** vmsp_map of anonymous memory, mapped at once or on first use. */
  method Map(v: AS.Vmsp, fam: Family, id: Space, address: nat, length: nat, offset: nat, fixed: bool, f: Rights,
             resolve: bool, pages: seq<Frame>)
    returns (r: AS.MapResult)
    requires InStep(v, fam, id) && id in fam.pSize && address < WORD
    requires AS.Aligned(v.lower) && AS.Aligned(address)
    requires SoundSlot(v, address, length, offset, fixed)
    requires |pages| == length / PAGE_SIZE && Different(pages) && Unused(pages, 0, fam.frames.Keys)
    modifies v, fam
    ensures InStep(v, fam, id)
    ensures AS.BadRequest(length, offset) ==> r == AS.Refused(AS.EINVAL)
    ensures !AS.BadRequest(length, offset) && length > v.maxSize ==> r == AS.Refused(AS.E2BIG)
    ensures !AS.BadRequest(length, offset) && length <= v.maxSize ==>
      AS.ChooseSpec(old(v.areas), v.lower, v.upper, address, length, fixed, r)
    ensures !r.Mapped? ==> v.areas == old(v.areas) && fam.St() == old(fam.St())
    ensures r.Mapped? ==> AS.Adds(old(v.areas), v.areas, r.base, AS.NewArea(length, AS.Anon, 0, offset, f))
    // the range is anonymous memory with the rights asked for, save that what may run is not writable
    ensures r.Mapped? ==> AS.Gains(old(v.areas), v.areas, r.base, length, AS.Anon, 0, offset, f)
    ensures r.Mapped? ==> forall a: nat :: r.base <= a < r.base + length ==>
      && (Allows(v.areas, a, true) <==> f.wr && !f.ex)
      && (Allows(v.areas, a, false) <==> f.rd)
    // the new pages read as zeros, every other page of every space as before
    ensures r.Mapped? ==>
      View(fam.St())
      == old(View(fam.St())) + (map k | k in RangeKeys(id, r.base / PAGE_SIZE, length / PAGE_SIZE) :: ZeroPage())
  {
    hide Inv, View, RangeKeys, AS.Adds, Coupled, AS.Disjoint, AS.PageTotal, AS.AllAligned, AS.Sound, AS.ChooseSpec,
      MapRange, AS.Gains, Allows;
    ghost var s := v.areas;
    Entered(fam.St());
    r := v.Map(address, length, AS.Anon, 0, offset, fixed, f);
    if !r.Mapped? {
      return;
    }
    GainsAllows(s, v.areas, r.base, length, offset, f);
    var area := AS.NewArea(length, AS.Anon, 0, offset, f);
    CoupledMap(s, v.areas, fam.vma, id, r.base, area);
    MapRangeSound(fam.St(), id, r.base / PAGE_SIZE, length / PAGE_SIZE, Vma(true, area.rights));
    fam.CreateArea(id, r.base / PAGE_SIZE, length / PAGE_SIZE, Vma(true, area.rights), resolve, pages);
  }

  lemma AreasFull(v: AS.Vmsp)
    requires v.Valid()
    ensures forall b :: b in v.areas ==> v.areas[b].len > 0
  {
  }
}
