/** Physical pages: zones of at most 4 * PAGE_SIZE pages, each with a bitmap made on first use.

    Zones hold page numbers; callers get and give back 32-bit addresses. A zone's bitmap is a value
    the methods replace; the bit operations on it are those of module Bits, run on a scratch array. */
module PageZones {

  import opened Bits
  import opened Machine
  import opened Sums

  const ZONE_PAGES: nat := 4 * PAGE_SIZE
  /** The pages a 32-bit address can name. */
  const FRAMES: nat := 0x10_0000

  datatype Bitmap = NoMap | Map(bytes: seq<bv8>)

  datatype Zone = Zone(offset: nat, reserved: nat, available: nat, free: int, bits: Bitmap) {
    /** Bits in the bitmap. */
    function Count(): nat { AlignUp(reserved + available) }

    predicate Holds(p: int) { offset + reserved <= p < offset + reserved + available }
  }

  /** The bitmap covers the zone; the bits that stand for no page of the zone are set; the free
      count is the number of clear bits. */
  ghost predicate ZoneOk(z: Zone) {
    && z.reserved < 8 && 0 < z.available && z.reserved + z.available <= ZONE_PAGES
    && match z.bits
       case NoMap => z.free == z.available
       case Map(s) => MapOk(z, s) && z.free == Clear(s, z.Count())
  }

  ghost predicate MapOk(z: Zone, s: seq<bv8>) {
    && 8 * |s| == z.Count()
    && forall x :: 0 <= x < 8 * |s| && !(z.reserved <= x < z.reserved + z.available) ==> BitAt(s, x)
  }

  /** Page `p` of zone `z` has been handed out. */
  ghost predicate Out(z: Zone, p: int) {
    z.Holds(p) && z.bits.Map? && 0 <= p - z.offset < 8 * |z.bits.bytes| && BitAt(z.bits.bytes, p - z.offset)
  }

  ghost predicate AnyOut(zones: seq<Zone>, p: int) {
    exists i :: 0 <= i < |zones| && Out(zones[i], p)
  }

  ghost predicate Held(zones: seq<Zone>, p: int) {
    exists i :: 0 <= i < |zones| && zones[i].Holds(p)
  }

  ghost predicate OutBelow(z: Zone, p: int) {
    z.Holds(p) && forall q :: z.Holds(q) && q < p ==> Out(z, q)
  }

  predicate NoneFree(zones: seq<Zone>, i: nat) {
    forall j :: 0 <= j < i && j < |zones| ==> zones[j].free == 0
  }

  /** Every page below `p` of its zone is out, and every zone before has none left. */
  ghost predicate Lowest(zones: seq<Zone>, p: int) {
    exists i :: 0 <= i < |zones| && OutBelow(zones[i], p) && NoneFree(zones, i)
  }

  ghost predicate Apart(zones: seq<Zone>) {
    forall i, j, p :: 0 <= i < j < |zones| && zones[i].Holds(p) ==> !zones[j].Holds(p)
  }

  ghost predicate Bounded(zones: seq<Zone>, upper: nat) {
    forall p :: Held(zones, p) ==> p < upper
  }

  ghost function Frees(zones: seq<Zone>): seq<int> {
    seq(|zones|, i requires 0 <= i < |zones| => zones[i].free)
  }

  ghost function FreeSum(zones: seq<Zone>): int { Sum(Frees(zones)) }

  lemma FreeSumUpdate(zones: seq<Zone>, i: nat, z: Zone)
    requires i < |zones|
    ensures FreeSum(zones[i := z]) == FreeSum(zones) - zones[i].free + z.free
  {
    SumUpdate(Frees(zones), i, z.free);
    assert Frees(zones[i := z]) == Frees(zones)[i := z.free];
  }

  lemma FreeSumAppend(zones: seq<Zone>, z: Zone)
    ensures FreeSum(zones + [z]) == FreeSum(zones) + z.free
  {
    SumAppend(Frees(zones), z.free);
    assert Frees(zones + [z]) == Frees(zones) + [z.free];
  }

  lemma FreeSumZero(zones: seq<Zone>)
    requires forall i :: 0 <= i < |zones| ==> zones[i].free >= 0
    ensures FreeSum(zones) >= 0 && (FreeSum(zones) == 0 <==> forall i :: 0 <= i < |zones| ==> zones[i].free == 0)
  {
    SumZero(Frees(zones));
    assert forall i :: 0 <= i < |zones| ==> Frees(zones)[i] == zones[i].free;
  }

  // ----- one zone --------------------------------------------------------------------------------

  method Filled(s: seq<bv8>, start: nat, count: int, v: bool) returns (t: seq<bv8>)
    requires start + count <= 8 * |s|
    ensures Ranged(s, t, start, start + count, v)
  {
    var a := new bv8[|s|](i requires 0 <= i < |s| => s[i]);
    assert a[..] == s;
    BitsFill(a, start, count, v);
    t := a[..];
  }

  method FirstClear(s: seq<bv8>, n: nat) returns (idx: nat)
    requires n == 8 * |s| && exists x :: 0 <= x < n && !BitAt(s, x)
    ensures idx < n && !BitAt(s, idx) && forall y :: 0 <= y < idx ==> BitAt(s, y)
  {
    hide BitAt;
    var a := new bv8[|s|](i requires 0 <= i < |s| => s[i]);
    assert a[..] == s && n / 8 * 8 == n;
    ghost var x :| 0 <= x < n && !BitAt(s, x);
    var r := BitsFirstClear(a, n);
    assert !BitAt(a[..], x);
    idx := r;
  }

  /** The bitmap a zone gets on first use: all set, then its available part cleared. */
  method FreshMap(z: Zone) returns (s: seq<bv8>)
    requires ZoneOk(z) && z.bits.NoMap?
    ensures MapOk(z, s) && Clear(s, z.Count()) == z.available
    ensures forall x :: z.reserved <= x < z.reserved + z.available ==> !BitAt(s, x)
  {
    hide AlignUp, BitAt;
    AlignUpIs(z.reserved + z.available);
    var ones := seq(z.Count() / 8, i => 0xFF as bv8);
    AllOnes(ones);
    s := Filled(ones, z.reserved, z.available, false);
    ClearRange(s, z.reserved, z.reserved + z.available, z.Count());
  }

  lemma AllOnes(s: seq<bv8>)
    requires forall i :: 0 <= i < |s| ==> s[i] == 0xFF
    ensures forall x :: 0 <= x < 8 * |s| ==> BitAt(s, x)
  {
    WholeByte(0xFF);
  }

  /** The part of page_new that works on one zone with a free page. */
  method TakePage(z: Zone) returns (w: Zone, p: nat)
    requires ZoneOk(z) && z.free != 0
    ensures ZoneOk(w) && w.free == z.free - 1 && w.bits.Map?
    ensures w.offset == z.offset && w.reserved == z.reserved && w.available == z.available
    ensures z.Holds(p) && !Out(z, p) && forall q :: Out(w, q) <==> Out(z, q) || q == p
    ensures forall q :: z.Holds(q) && q < p ==> Out(z, q)
  {
    hide AlignUp, BitAt;
    var s;
    if z.bits.NoMap? {
      s := FreshMap(z);
    } else {
      s := z.bits.bytes;
    }
    AlignUpIs(z.reserved + z.available);
    ClearNone(s, z.Count());
    var idx := FirstClear(s, z.Count());
    var t := Filled(s, idx, 1, true);
    ClearFlip(s, t, idx, z.Count());
    w := Zone(z.offset, z.reserved, z.available, z.free - 1, Map(t));
    p := z.offset + idx;
  }

  datatype Release = Released | Unknown | Panic

  /** The part of page_release that works on the zone that holds `p`: two assertions, then the bit is
      cleared. On a page that is not out, the second assertion fails only on a byte boundary. */
  method PutPage(z: Zone, p: nat) returns (r: Release, w: Zone)
    requires ZoneOk(z) && z.Holds(p)
    ensures r.Panic? ==> w == z
    ensures Out(z, p) ==> r.Released?
    ensures !Out(z, p) ==> (r.Panic? <==> z.bits.NoMap? || (p - z.offset) % 8 == 0)
    ensures !r.Unknown?
    ensures r.Released? ==>
      && w.free == z.free + 1 && w.offset == z.offset && w.reserved == z.reserved && w.available == z.available
      && (ZoneOk(w) <==> Out(z, p)) && forall q :: Out(w, q) <==> Out(z, q) && q != p
  {
    hide AlignUp, BitAt;
    if z.bits.NoMap? {
      return Panic, z;
    }
    var s, idx := z.bits.bytes, p - z.offset;
    AlignUpIs(z.reserved + z.available);
    var a := new bv8[|s|](i requires 0 <= i < |s| => s[i]);
    assert a[..] == s;
    var test := BitsTest(a, idx, 1);
    ghost var u := a[..];
    TestOne(s, u, idx);
    if !test {
      return Panic, z;
    }
    BitsFill(a, idx, 1, false);
    var t := a[..];
    ClearedOnce(s, u, t, idx);
    ZoneAfter(z, s, t, p);
    w := Zone(z.offset, z.reserved, z.available, z.free + 1, Map(t));
    r := Released;
  }

  /** A zone with one bit cleared and one more free page: right if and only if the page was out. */
  lemma ZoneAfter(z: Zone, s: seq<bv8>, t: seq<bv8>, p: nat)
    requires ZoneOk(z) && z.Holds(p) && z.bits == Map(s) && |t| == |s|
    requires forall y :: 0 <= y < 8 * |s| ==> (BitAt(t, y) <==> BitAt(s, y) && y != p - z.offset)
    ensures var w := Zone(z.offset, z.reserved, z.available, z.free + 1, Map(t));
      (ZoneOk(w) <==> Out(z, p)) && forall q :: Out(w, q) <==> Out(z, q) && q != p
  {
    hide AlignUp, BitAt;
    AlignUpIs(z.reserved + z.available);
    var x := p - z.offset;
    if BitAt(s, x) { ClearFlip(t, s, x, z.Count()); } else { ClearSame(s, t, z.Count()); }
  }

  lemma ClearedOnce(s: seq<bv8>, u: seq<bv8>, t: seq<bv8>, x: nat)
    requires x < 8 * |s| && Ranged(s, u, x, Min(x + 1, AlignUp(x)), false) && Ranged(u, t, x, x + 1, false)
    ensures |t| == |s| && forall y :: 0 <= y < 8 * |s| ==> (BitAt(t, y) <==> BitAt(s, y) && y != x)
  {
    hide BitAt;
  }

  /** A freed page one bit off a byte boundary: releasing it again is not caught, and the zone then
      counts one free page more than it has. */
  lemma ReleasedTwice()
    ensures var z, w := Zone(0, 0, 8, 8, Map([0])), Zone(0, 0, 8, 9, Map([0]));
      && ZoneOk(z) && z.Holds(1) && !Out(z, 1) && (1 - z.offset) % 8 != 0 && z.bits.Map?
      && w.free == z.free + 1 && w.bits == z.bits && !ZoneOk(w)
  {
    var s: seq<bv8> := [0];
    WholeByte(0);
    forall y | 0 <= y < 8 ensures !BitAt(s, y) { assert y / 8 == 0 && y % 8 == y; }
    hide BitAt, Bit;
    ClearRange(s, 0, 8, 8);
  }

  // ----- addresses -------------------------------------------------------------------------------

  /** The address of a page, as a 32-bit product. */
  function Address(p: nat): nat { p * PAGE_SIZE % WORD }

  lemma {:induction false} AddressIs(p: nat, k: nat)
    requires p < FRAMES
    ensures Address(p + k * FRAMES) == p * PAGE_SIZE
  {
    if k > 0 {
      AddressIs(p, k - 1);
      assert (p + k * FRAMES) * PAGE_SIZE == (p + (k - 1) * FRAMES) * PAGE_SIZE + WORD;
    }
  }

  /** An address names the page it was made from, if and only if that page lies below 4 GiB. */
  lemma NamedIff(p: nat)
    ensures Address(p) / PAGE_SIZE == p % FRAMES
    ensures Address(p) / PAGE_SIZE == p <==> p < FRAMES
  {
    AddressIs(p % FRAMES, p / FRAMES);
    assert p == p % FRAMES + p / FRAMES * FRAMES;
  }

  /** Two pages have one address, if and only if they lie a multiple of 4 GiB apart. */
  lemma SameAddress(p: nat, q: nat)
    ensures Address(p) == Address(q) <==> p % FRAMES == q % FRAMES
  {
    AddressIs(p % FRAMES, p / FRAMES);
    AddressIs(q % FRAMES, q / FRAMES);
    assert p == p % FRAMES + p / FRAMES * FRAMES && q == q % FRAMES + q / FRAMES * FRAMES;
  }

  /** A page of memory 4 GiB above the first page handed to the allocator has that page's address. */
  lemma HighRange()
    ensures FirstPage(0x1_0040_0000) == FRAMES + 0x400 && PageCount(0x1_0040_0000, PAGE_SIZE) == 1
    ensures Address(FRAMES + 0x400) == Address(0x400) == 0x40_0000
  {
    AddressIs(0x400, 1);
    AddressIs(0x400, 0);
  }

  // ----- all zones -------------------------------------------------------------------------------

  datatype Page = NoPage | Some(address: nat)

  /** Up to here page numbers fit a 32-bit long. */
  const PAGE_LIMIT: nat := 0x800_0000_0000

  /** The whole pages within [base, base + length) start here ... */
  function FirstPage(base: nat): nat { (base + PAGE_SIZE - 1) / PAGE_SIZE }

  /** ... and are this many, as page_range computes it (a range that ends before its first page
      boundary gives -1). */
  function PageCount(base: nat, length: nat): int {
    (length - (FirstPage(base) * PAGE_SIZE - base)) / PAGE_SIZE
  }

  /** Page `p` lies within the range. */
  predicate Within(base: nat, length: nat, p: int) {
    base <= p * PAGE_SIZE && (p + 1) * PAGE_SIZE <= base + length
  }

  /** The pages counted are those within the range; the count is negative exactly if the range ends before
      its first page boundary. */
  lemma CountsWhole(base: nat, length: nat, p: int)
    ensures FirstPage(base) <= p < FirstPage(base) + PageCount(base, length) <==> Within(base, length, p)
    ensures PageCount(base, length) >= 0 <==> FirstPage(base) * PAGE_SIZE <= base + length
    ensures base <= FirstPage(base) * PAGE_SIZE < base + PAGE_SIZE && (length > 0 ==> PageCount(base, length) >= -1)
  {
  }

  /** A one-byte range just above a page boundary counts as one page less than none. */
  lemma ShortRange()
    ensures PageCount(1, 1) == -1
  {
  }

  class Pages {
    var zones: seq<Zone>
    var amount: int
    var freePages: int
    var upper: nat
    ghost var out: set<nat>

    ghost predicate Valid()
      reads this
    {
      && (forall i :: 0 <= i < |zones| ==> ZoneOk(zones[i]))
      && Apart(zones)
      && (forall p: nat :: p in out <==> AnyOut(zones, p))
      && freePages == FreeSum(zones)
      && freePages + |out| == amount
      && Bounded(zones, upper)
    }

    /** page_new, once it has come to a zone with a free page. */
    method TakeAt(i: nat) returns (p: nat)
      requires Valid() && i < |zones| && zones[i].free != 0
      modifies this
      ensures Valid() && amount == old(amount) && |zones| == old(|zones|) && upper == old(upper)
      ensures Held(old(zones), p) && p !in old(out) && out == old(out) + {p}
      ensures old(zones)[i].Holds(p) && forall q :: old(zones)[i].Holds(q) && q < p ==> Out(old(zones)[i], q)
      ensures forall q :: Held(zones, q) <==> Held(old(zones), q)
    {
      hide BitAt, FreeSum, Clear, Out, AnyOut, Apart, ZoneOk, Held, Bounded;
      var w;
      w, p := TakePage(zones[i]);
      FreeSumUpdate(zones, i, w);
      SameHeld(zones, i, w);
      TakenOut(zones, i, w, p);
      OutHere(zones, i, p);
      SameBound(zones, zones[i := w], upper);
      zones := zones[i := w];
      freePages := freePages - 1;
      out := out + {p};
    }

    /** page_new: NoPage stands for the endless loop after its error message. Page `p` is taken, and
        the address returned names it if and only if it lies below 4 GiB. */
    method PageNew() returns (r: Page, ghost p: nat)
      requires Valid()
      modifies this
      ensures Valid() && amount == old(amount) && |zones| == old(|zones|) && upper == old(upper)
      ensures r.NoPage? <==> old(freePages) == 0
      ensures r.NoPage? ==> out == old(out)
      ensures r.Some? ==> Held(old(zones), p) && p !in old(out) && out == old(out) + {p} && p < upper
      // it is the lowest free page of the first zone that has one
      ensures r.Some? ==> Lowest(old(zones), p)
      ensures r.Some? ==> r.address == Address(p) && (r.address / PAGE_SIZE == p <==> p < FRAMES)
      // no page that is out has this address, if no memory lies above 4 GiB
      ensures r.Some? && upper <= FRAMES ==> forall q :: q in old(out) ==> Address(q) != r.address
      ensures forall q :: Held(zones, q) <==> Held(old(zones), q)
    {
      hide FreeSum, AnyOut, Apart, ZoneOk, Held, Bounded, Address, Out;
      AllFree(zones);
      p := 0;
      var i := 0;
      while i < |zones|
        invariant 0 <= i <= |zones| && Valid() && zones == old(zones) && out == old(out) && freePages == old(freePages)
        invariant amount == old(amount) && upper == old(upper)
        invariant forall j :: 0 <= j < i ==> zones[j].free == 0
      {
        if zones[i].free != 0 {
          FreshAddress(zones, out, upper);
          var page := TakeAt(i);
          p := page;
          NamedIff(p);
          assert Lowest(old(zones), p) by { assert OutBelow(old(zones)[i], p) && NoneFree(old(zones), i); }
          return Some(Address(page)), p;
        }
        i := i + 1;
      }
      return NoPage, p;
    }

    /** page_release, once it has come to the zone that holds the page. */
    method PutAt(i: nat, p: nat) returns (r: Release)
      requires Valid() && i < |zones| && zones[i].Holds(p)
      modifies this
      ensures p in old(out) ==> r.Released? && Valid() && out == old(out) - {p}
      ensures !r.Unknown? && Held(old(zones), p)
      ensures r.Panic? ==> Valid() && out == old(out)
      ensures forall j :: 0 <= j < |old(zones)| && old(zones)[j].Holds(p) && p !in old(out) ==>
        (r.Panic? <==> old(zones)[j].bits.NoMap? || (p - old(zones)[j].offset) % 8 == 0)
      ensures r.Released? ==> (Valid() <==> p in old(out))
      ensures amount == old(amount) && upper == old(upper) && forall q :: Held(zones, q) <==> Held(old(zones), q)
    {
      hide BitAt, FreeSum, Clear, Out, AnyOut, Apart, ZoneOk, Held, Bounded;
      var w;
      r, w := PutPage(zones[i], p);
      OutHere(zones, i, p);
      if r.Panic? {
        return;
      }
      FreeSumUpdate(zones, i, w);
      SameHeld(zones, i, w);
      if p in out { PutBack(zones, i, w, p); }
      SameBound(zones, zones[i := w], upper);
      zones := zones[i := w];
      freePages := freePages + 1;
      out := out - {p};
    }

    /** page_release, of the page an address names. */
    method PageRelease(address: nat) returns (r: Release)
      requires Valid() && address < WORD
      modifies this
      ensures var p := address / PAGE_SIZE;
        && (p in old(out) ==> r.Released? && Valid() && out == old(out) - {p})
        && (r.Unknown? <==> !Held(old(zones), p))
        && (!r.Released? ==> Valid() && out == old(out))
        // a page that is held but not out is caught by an assertion in exactly these cases
        && (forall i :: 0 <= i < |old(zones)| && old(zones)[i].Holds(p) && p !in old(out) ==>
              (r.Panic? <==> old(zones)[i].bits.NoMap? || (p - old(zones)[i].offset) % 8 == 0))
        && (r.Released? ==> (Valid() <==> p in old(out)))
      ensures amount == old(amount) && upper == old(upper) && forall q :: Held(zones, q) <==> Held(old(zones), q)
    {
      hide FreeSum, AnyOut, Apart, ZoneOk, Held, Bounded;
      var p := address / PAGE_SIZE;
      var i := 0;
      while i < |zones|
        invariant 0 <= i <= |zones| && Valid() && zones == old(zones) && out == old(out)
        invariant amount == old(amount) && upper == old(upper)
        invariant forall j :: 0 <= j < i ==> !zones[j].Holds(p)
      {
        if !(p < zones[i].offset + zones[i].reserved || p >= zones[i].offset + zones[i].reserved + zones[i].available) {
          r := PutAt(i, p);
          return;
        }
        i := i + 1;
      }
      NotHeld(zones, p);
      return Unknown;
    }

    constructor ()
      ensures Valid() && zones == [] && amount == 0 && out == {} && upper == 0
    {
      zones, amount, freePages, upper, out := [], 0, 0, 0, {};
    }

    /** page_range: the whole pages of a memory range, cut into zones. The counters stay right exactly
        when the range reaches its first page boundary and none of its pages is held already. */
    method PageRange(base: nat, length: nat)
      requires Valid() && length > 0 && base + length <= PAGE_LIMIT
      modifies this
      ensures amount == old(amount) + PageCount(base, length) && out == old(out)
      ensures var end := FirstPage(base) + PageCount(base, length);
        upper == if old(upper) < end then end else old(upper)
      ensures forall p :: Held(zones, p) <==>
        Held(old(zones), p) || Within(base, length, p)
      ensures Valid() <==>
        && FirstPage(base) * PAGE_SIZE <= base + length
        && forall p :: Within(base, length, p) ==> !Held(old(zones), p)
    {
      hide BitAt, FreeSum, Clear, Out, AnyOut, Apart, ZoneOk, Held, AlignUp;
      forall p ensures Within(base, length, p) <==>
        FirstPage(base) <= p < FirstPage(base) + PageCount(base, length)
      {
        CountsWhole(base, length, p);
      }
      CountsWhole(base, length, 0);
      hide Within;
      ghost var first, total, zs := FirstPage(base), PageCount(base, length), zones;
      var start, count := FirstPage(base), PageCount(base, length);
      if upper < start + count {
        upper := start + count;
      }
      amount := amount + count;
      freePages := freePages + count;
      while count > 0
        invariant (total >= 0 ==> 0 <= count <= total) && (total < 0 ==> count == total)
        invariant count > 0 ==> start == first + total - count
        invariant amount == old(amount) + total && freePages == old(freePages) + total && out == old(out)
        invariant upper == if old(upper) < first + total then first + total else old(upper)
        invariant forall i :: 0 <= i < |zones| ==> ZoneOk(zones[i])
        invariant |zs| <= |zones| && zones[..|zs|] == zs && FreeSum(zones) == FreeSum(zs) + total - count
        invariant Apart(zones) <==> forall p :: first <= p < first + total - count ==> !Held(zs, p)
        invariant forall p :: AnyOut(zones, p) <==> AnyOut(zs, p)
        invariant forall p :: Held(zones, p) <==> Held(zs, p) || first <= p < first + total - count
      {
        var i, j, pgs := start / 8, start % 8, count;
        if pgs + j > ZONE_PAGES {
          pgs := ZONE_PAGES - j;
        }
        var z := Zone(i * 8, j, pgs, pgs, NoMap);
        NewZone(zones, z, start);
        zones := zones + [z];
        count := count - pgs;
        start := z.offset + z.Count();
      }
    }
  }

  lemma NotHeld(zones: seq<Zone>, p: int)
    requires forall i :: 0 <= i < |zones| ==> !zones[i].Holds(p)
    ensures !Held(zones, p) && !AnyOut(zones, p)
  {
  }

  lemma OutHeld(zones: seq<Zone>, q: int)
    requires AnyOut(zones, q)
    ensures Held(zones, q)
  {
    var i :| 0 <= i < |zones| && Out(zones[i], q);
    assert zones[i].Holds(q);
  }

  lemma SameBound(zones: seq<Zone>, t: seq<Zone>, upper: nat)
    requires forall p :: Held(t, p) <==> Held(zones, p)
    ensures Bounded(zones, upper) ==> Bounded(t, upper)
  {
  }

  /** Below 4 GiB pages that are not out have addresses that are not out. */
  lemma FreshAddress(zones: seq<Zone>, out: set<nat>, upper: nat)
    requires Bounded(zones, upper) && forall q: nat :: q in out ==> AnyOut(zones, q)
    ensures forall p: nat :: Held(zones, p) ==> p < upper
    ensures upper <= FRAMES ==>
      forall p: nat, q: nat :: Held(zones, p) && p !in out && q in out ==> Address(q) != Address(p)
  {
    hide Address, Held, AnyOut;
    if upper <= FRAMES {
      forall p: nat, q: nat | Held(zones, p) && p !in out && q in out ensures Address(q) != Address(p) {
        OutHeld(zones, q);
        SameAddress(p, q);
      }
    }
  }

  /** A new zone; a zone of full size ends on a byte boundary. */
  lemma NewZone(zones: seq<Zone>, z: Zone, start: nat)
    requires z.offset == start / 8 * 8 && z.reserved == start % 8 && z.bits.NoMap?
    requires z.free == z.available && 0 < z.available && z.reserved + z.available <= ZONE_PAGES
    ensures ZoneOk(z) && FreeSum(zones + [z]) == FreeSum(zones) + z.available
    ensures Apart(zones + [z]) <==> Apart(zones) && forall p :: start <= p < start + z.available ==> !Held(zones, p)
    ensures forall p :: AnyOut(zones + [z], p) <==> AnyOut(zones, p)
    ensures forall p :: Held(zones + [z], p) <==> Held(zones, p) || start <= p < start + z.available
    ensures z.reserved + z.available == ZONE_PAGES ==> z.offset + z.Count() == start + z.available
  {
    var t := zones + [z];
    FreeSumAppend(zones, z);
    forall p ensures Held(t, p) <==> Held(zones, p) || start <= p < start + z.available {
      if Held(zones, p) {
        var i :| 0 <= i < |zones| && zones[i].Holds(p);
        assert t[i].Holds(p);
      }
      if start <= p < start + z.available { assert t[|zones|].Holds(p); }
    }
    forall p ensures AnyOut(t, p) <==> AnyOut(zones, p) {
      if AnyOut(zones, p) {
        var i :| 0 <= i < |zones| && Out(zones[i], p);
        assert Out(t[i], p);
      }
    }
    NewApart(zones, z);
  }

  lemma NewApart(zones: seq<Zone>, z: Zone)
    ensures Apart(zones + [z]) <==> Apart(zones) && forall p :: z.Holds(p) ==> !Held(zones, p)
  {
    var t := zones + [z];
    if Apart(zones) && forall p :: z.Holds(p) ==> !Held(zones, p) {
      forall i, j, p | 0 <= i < j < |t| && t[i].Holds(p) ensures !t[j].Holds(p) {
        if j == |zones| { assert Held(zones, p); }
      }
    }
    if Apart(t) {
      forall i, j, p | 0 <= i < j < |zones| && zones[i].Holds(p) ensures !zones[j].Holds(p) {
        assert t[i].Holds(p) && t[j] == zones[j];
      }
      forall p | z.Holds(p) ensures !Held(zones, p) {
        forall i | 0 <= i < |zones| ensures !zones[i].Holds(p) { assert t[i] == zones[i] && t[|zones|] == z; }
      }
    }
  }

  lemma AllFree(zones: seq<Zone>)
    requires forall i :: 0 <= i < |zones| ==> ZoneOk(zones[i])
    ensures FreeSum(zones) == 0 <==> forall i :: 0 <= i < |zones| ==> zones[i].free == 0
  {
    FreeSumZero(zones);
  }

  /** A zone that still holds the same pages changes nothing about which pages are held. */
  lemma SameHeld(zones: seq<Zone>, i: nat, w: Zone)
    requires i < |zones| && w.offset == zones[i].offset && w.reserved == zones[i].reserved
    requires w.available == zones[i].available
    ensures forall p :: Held(zones[i := w], p) <==> Held(zones, p)
    ensures Apart(zones) ==> Apart(zones[i := w])
  {
    var t := zones[i := w];
    assert forall j, p :: 0 <= j < |zones| ==> t[j].Holds(p) == zones[j].Holds(p);
  }

  lemma OutHere(zones: seq<Zone>, i: nat, p: nat)
    requires i < |zones| && Apart(zones) && zones[i].Holds(p)
    ensures AnyOut(zones, p) <==> Out(zones[i], p)
    ensures Held(zones, p) && forall j :: 0 <= j < |zones| && zones[j].Holds(p) ==> j == i
  {
  }

  lemma TakenOut(zones: seq<Zone>, i: nat, w: Zone, p: nat)
    requires i < |zones| && Apart(zones) && zones[i].Holds(p) && !Out(zones[i], p)
    requires forall q :: Out(w, q) <==> Out(zones[i], q) || q == p
    ensures !AnyOut(zones, p) && forall q :: AnyOut(zones[i := w], q) <==> AnyOut(zones, q) || q == p
  {
    var t := zones[i := w];
    hide Out;
    OutHere(zones, i, p);
    forall q ensures AnyOut(t, q) <==> AnyOut(zones, q) || q == p {
      if AnyOut(zones, q) {
        var j :| 0 <= j < |zones| && Out(zones[j], q);
        assert Out(t[j], q);
      }
      if q == p { assert Out(t[i], q); }
    }
  }

  lemma PutBack(zones: seq<Zone>, i: nat, w: Zone, p: nat)
    requires i < |zones| && Apart(zones) && zones[i].Holds(p) && w.Holds(p)
    requires forall q :: Out(w, q) <==> Out(zones[i], q) && q != p
    ensures forall q :: AnyOut(zones[i := w], q) <==> AnyOut(zones, q) && q != p
  {
    var t := zones[i := w];
    OutHere(zones, i, p);
    hide Out;
    forall q ensures AnyOut(t, q) <==> AnyOut(zones, q) && q != p {
      if AnyOut(zones, q) && q != p {
        var j :| 0 <= j < |zones| && Out(zones[j], q);
        assert Out(t[j], q);
      }
      if AnyOut(t, q) {
        var j :| 0 <= j < |zones| && Out(t[j], q);
        assert Out(zones[j], q);
        OutHolds(zones[j], q);
      }
    }
  }

  lemma OutHolds(z: Zone, q: int)
    requires Out(z, q)
    ensures z.Holds(q)
  {
  }
}
