/** Forking a space, areas and pages together: what parent and child map, and what they read from then on. */
module SpaceFork {

  import opened Machine
  import opened Options
  import opened Protection
  import opened CopyOnWrite
  import opened ForkIsolation
  import opened AnonymousPaging
  import opened SpaceMemory
  import AS = AddressSpace

  // ----- the pages of a space, area by area ------------------------------------------------------

  /** The areas from `cur` on. */
  ghost function From(s: AS.Areas, cur: Option<nat>): set<nat> {
    if cur.None? then {} else set x | x in s && x >= cur.value
  }

  lemma FromNext(s: AS.Areas, b: nat)
    requires b in s
    ensures From(s, AS.Next(s, b)) == From(s, Some(b)) - {b} && b in From(s, Some(b))
  {
  }

  /** The anonymous areas from `cur` on, in address order, as ranges of pages. */
  ghost function Ranges(s: AS.Areas, cur: Option<nat>): seq<Range>
    requires cur.Some? ==> cur.value in s
    decreases |From(s, cur)|
  {
    if cur.None? then []
    else
      var b := cur.value;
      FromNext(s, b);
      var rest := Ranges(s, AS.Next(s, b));
      if s[b].ops.Anon? then [Range(b / PAGE_SIZE, s[b].len / PAGE_SIZE)] + rest else rest
  }

  ghost function Pages(s: AS.Areas, cur: Option<nat>): seq<nat>
    requires cur.Some? ==> cur.value in s
  {
    PagesOf(Ranges(s, cur))
  }

  lemma PagesMore(s: AS.Areas, b: nat)
    requires b in s
    ensures Pages(s, Some(b))
         == (if s[b].ops.Anon? then Span(b / PAGE_SIZE, s[b].len / PAGE_SIZE) else []) + Pages(s, AS.Next(s, b))
  {
    var rest := Ranges(s, AS.Next(s, b));
    if s[b].ops.Anon? {
      var all := [Range(b / PAGE_SIZE, s[b].len / PAGE_SIZE)] + rest;
      assert all[1..] == rest && Ranges(s, Some(b)) == all;
    } else {
      assert [] + PagesOf(rest) == PagesOf(rest);
    }
  }

  predicate Rising(pages: seq<nat>) {
    forall i, j :: 0 <= i < j < |pages| ==> pages[i] < pages[j]
  }

  lemma {:induction false} SpanIs(base: nat, n: nat)
    ensures |Span(base, n)| == n && forall i :: 0 <= i < n ==> Span(base, n)[i] == base + i
    decreases n
  {
    if n > 0 { SpanIs(base + 1, n - 1); }
  }

  lemma Joined(a: seq<nat>, b: seq<nat>, x: nat)
    requires Rising(a) && Rising(b) && (forall p :: p in a ==> p < x) && forall p :: p in b ==> x <= p
    ensures Rising(a + b)
  {
    var c := a + b;
    forall i, j | 0 <= i < j < |c| ensures c[i] < c[j] {
      if i < |a| && j >= |a| { assert a[i] in a && b[j - |a|] in b; }
    }
  }

  /** Page `p` lies in an anonymous area from `cur` on. */
  ghost predicate Listed(s: AS.Areas, cur: Option<nat>, p: nat) {
    exists b :: b in From(s, cur) && s[b].ops.Anon? && AS.Covers(b, s[b], p * PAGE_SIZE)
  }

  lemma ListedMore(s: AS.Areas, b: nat, p: nat)
    requires b in s
    ensures Listed(s, Some(b), p) <==>
      (s[b].ops.Anon? && AS.Covers(b, s[b], p * PAGE_SIZE)) || Listed(s, AS.Next(s, b), p)
  {
    hide From;
    FromNext(s, b);
  }

  /** The pages visited are those of the anonymous areas, each once, in order. */
  lemma {:induction false} PagesExact(s: AS.Areas, cur: Option<nat>)
    requires (cur.Some? ==> cur.value in s) && AS.Disjoint(s) && AS.AllAligned(s)
    ensures forall p: nat :: p in Pages(s, cur) <==> Listed(s, cur, p)
    ensures Rising(Pages(s, cur))
    decreases |From(s, cur)|
  {
    if cur.Some? {
      var b := cur.value;
      FromNext(s, b);
      var next := AS.Next(s, b);
      PagesExact(s, next);
      PagesTurn(s, b);
    }
  }

  lemma PagesTurn(s: AS.Areas, b: nat)
    requires b in s && AS.Disjoint(s) && AS.AllAligned(s)
    requires forall p: nat :: p in Pages(s, AS.Next(s, b)) <==> Listed(s, AS.Next(s, b), p)
    requires Rising(Pages(s, AS.Next(s, b)))
    ensures forall p: nat :: p in Pages(s, Some(b)) <==> Listed(s, Some(b), p)
    ensures Rising(Pages(s, Some(b)))
  {
    hide Pages, Listed, From, AS.Next;
    var next := AS.Next(s, b);
    var base, n := b / PAGE_SIZE, s[b].len / PAGE_SIZE;
    PagesMore(s, b);
    SpanIs(base, n);
    var span := if s[b].ops.Anon? then Span(base, n) else [];
    forall p: nat ensures p in span <==> s[b].ops.Anon? && AS.Covers(b, s[b], p * PAGE_SIZE) {
      InRange(b, s[b].len, p);
      if s[b].ops.Anon? && base <= p < base + n { assert span[p - base] == p; }
    }
    forall p: nat ensures p in Pages(s, Some(b)) <==> Listed(s, Some(b), p) { ListedMore(s, b, p); }
    forall p: nat | p in Pages(s, next) ensures base + n <= p { LaterPage(s, b, p); }
    Joined(span, Pages(s, next), base + n);
  }

  lemma LaterPage(s: AS.Areas, b: nat, p: nat)
    requires b in s && AS.Disjoint(s) && AS.AllAligned(s) && Listed(s, AS.Next(s, b), p)
    ensures b / PAGE_SIZE + s[b].len / PAGE_SIZE <= p
  {
    var c :| c in From(s, AS.Next(s, b)) && s[c].ops.Anon? && AS.Covers(c, s[c], p * PAGE_SIZE);
    FromNext(s, b);
    assert b + s[b].len <= c;
    InRange(b, s[b].len, p);
  }

  // ----- the fork --------------------------------------------------------------------------------

  /** The pages visited are the ones the paging code knows of the space. */
  lemma PagesKnown(s: AS.Areas, vma: map<Key, Vma>, id: Space, p: nat)
    requires Coupled(s, vma, id) && AS.Disjoint(s) && AS.AllAligned(s)
    ensures p in Pages(s, AS.First(s)) <==> Key(id, p) in vma
  {
    hide Pages;
    PagesExact(s, AS.First(s));
    if p in Pages(s, AS.First(s)) {
      var b :| b in From(s, AS.First(s)) && s[b].ops.Anon? && AS.Covers(b, s[b], p * PAGE_SIZE);
      assert AS.Maps(s, p * PAGE_SIZE, AS.MappingAt(b, s[b], p * PAGE_SIZE));
      assert AnonPage(s, p, s[b].rights);
    }
    if Key(id, p) in vma {
      assert AnonPage(s, p, vma[Key(id, p)].rights);
      var m :| AS.Maps(s, p * PAGE_SIZE, m) && m.ops.Anon?;
      var b :| b in s && AS.Covers(b, s[b], p * PAGE_SIZE) && m == AS.MappingAt(b, s[b], p * PAGE_SIZE);
      assert b in From(s, AS.First(s));
      assert Listed(s, AS.First(s), p);
    }
  }

  lemma ForkLegal(s: AS.Areas, st: State, id: Space, child: Space)
    requires Inv(st) && Coupled(s, st.vma, id) && AS.Disjoint(s) && AS.AllAligned(s)
    requires id in st.pSize && child !in st.pSize
    ensures Legal(st, Clone(id, child, Pages(s, AS.First(s))))
  {
    hide Pages, CountsExact, SizesExact, RightsAgree, Coupled;
    PagesExact(s, AS.First(s));
    forall p: nat ensures p in Pages(s, AS.First(s)) <==> Key(id, p) in st.vma { PagesKnown(s, st.vma, id, p); }
  }

  /** What a fork does to the pages: the child has those of the parent, with its bytes. */
  lemma ForkView(st: State, id: Space, child: Space, pages: seq<nat>)
    requires Inv(st) && Legal(st, Clone(id, child, pages))
    requires forall p :: Key(id, p) in st.vma ==> st.vma[Key(id, p)].cow
    ensures var st' := Step(st, Clone(id, child, pages));
      Inv(st') && st'.vma == st.vma + Moved(st.vma, id, child) && View(st') == View(st) + Moved(View(st), id, child)
  {
    hide CountsExact, SizesExact, RightsAgree, Placed, View, Moved, Step;
    ViewKeys(st);
    StepRefines(st, Clone(id, child, pages));
    var m := Abs(st);
    MovedAt(Inherited(m), id, child);
    MovedAt(View(st), id, child);
    assert Moved(Inherited(m), id, child) == Moved(View(st), id, child);
  }

  lemma CopyAnon(s: AS.Areas, p: nat, r: Rights)
    ensures AnonPage(AS.Copies(s), p, r) <==> AnonPage(s, p, r)
  {
    var t, a := AS.Copies(s), p * PAGE_SIZE;
    if AnonPage(s, p, r) {
      var m :| AS.Maps(s, a, m) && m.ops.Anon? && m.rights == r;
      var b :| b in s && AS.Covers(b, s[b], a) && m == AS.MappingAt(b, s[b], a);
      assert b in t && AS.Maps(t, a, AS.MappingAt(b, t[b], a));
    }
    if AnonPage(t, p, r) {
      var m :| AS.Maps(t, a, m) && m.ops.Anon? && m.rights == r;
      var b :| b in t && AS.Covers(b, t[b], a) && m == AS.MappingAt(b, t[b], a);
      assert b in s && AS.Maps(s, a, AS.MappingAt(b, s[b], a));
    }
  }

  /** Both spaces stay in step with the pages. */
  lemma ForkCoupled(s: AS.Areas, vma: map<Key, Vma>, id: Space, child: Space)
    requires Coupled(s, vma, id) && id != child && forall p :: Key(child, p) !in vma
    ensures Coupled(s, vma + Moved(vma, id, child), id)
    ensures Coupled(AS.Copies(s), vma + Moved(vma, id, child), child)
  {
    hide Moved, AnonPage, AS.Copies;
    MovedAt(vma, id, child);
    forall p: nat, r ensures AnonPage(AS.Copies(s), p, r) <==> AnonPage(s, p, r) { CopyAnon(s, p, r); }
  }

  /** The byte a program of space `id` sees at address `a`, if the page there is anonymous memory. */
  ghost function ByteAt(st: State, id: Space, a: nat): Option<bv8>
    requires Inv(st)
  {
    var k := Key(id, a / PAGE_SIZE);
    if k in st.vma then
      PageWhole(st, k);
      Some(View(st)[k].bytes[a % PAGE_SIZE])
    else None
  }

  lemma PageWhole(st: State, k: Key)
    requires Inv(st) && k in st.vma
    ensures k in View(st) && |View(st)[k].bytes| == PAGE_SIZE
  {
    hide CountsExact, SizesExact, RightsAgree;
    if k in st.pt { FrameKnown(st, k); }
  }

  lemma ForkBytes(st: State, st': State, id: Space, child: Space, s: Space, a: nat)
    requires Inv(st) && Inv(st') && id != child && forall p :: Key(child, p) !in st.vma
    requires st'.vma == st.vma + Moved(st.vma, id, child) && View(st') == View(st) + Moved(View(st), id, child)
    ensures ByteAt(st', s, a) == ByteAt(st, if s == child then id else s, a)
  {
    hide Inv, View, Moved, Placed;
    InvPlaced(st);
    InvPlaced(st');
    ViewKeys(st);
    MovedAt(st.vma, id, child);
    MovedAt(View(st), id, child);
    var k := Key(if s == child then id else s, a / PAGE_SIZE);
    if k in st.vma { PageWhole(st, k); }
  }

  /** The copies of the areas before `cur`. */
  ghost function Done(s: AS.Areas, cur: Option<nat>): AS.Areas {
    map b | b in s && b !in From(s, cur) :: AS.Copy(s[b])
  }

  lemma DoneMore(s: AS.Areas, b: nat)
    requires b in s
    ensures b !in Done(s, Some(b)) && Done(s, AS.Next(s, b)) == Done(s, Some(b))[b := AS.Copy(s[b])]
  {
    hide AS.Next;
    FromNext(s, b);
  }

  lemma DoneFirst(s: AS.Areas)
    ensures Done(s, AS.First(s)) == map[] && Done(s, None) == AS.Copies(s)
  {
  }

  lemma CopiesShaped(s: AS.Areas, lower: nat, upper: nat)
    requires AS.Disjoint(s) && AS.Shaped(s, lower, upper) && AS.AllAligned(s)
    ensures AS.Disjoint(AS.Copies(s)) && AS.Shaped(AS.Copies(s), lower, upper) && AS.AllAligned(AS.Copies(s))
  {
  }

  lemma NoneLeft(st: State, id: Space, child: Space, s: AS.Areas)
    ensures ClonePages(st, id, child, Pages(s, None)) == st
  {
  }

  /** What the loops of vmsp_clone come to. */
  lemma Forked(s: AS.Areas, st: State, id: Space, child: Space, pages: seq<nat>)
    requires Inv(st) && Coupled(s, st.vma, id) && Legal(st, Clone(id, child, pages)) && AS.AllAligned(s)
    ensures var st' := Step(st, Clone(id, child, pages));
      && Inv(st') && st'.vma == st.vma + Moved(st.vma, id, child)
      && Coupled(s, st'.vma, id) && Coupled(AS.Copies(s), st'.vma, child)
      && (forall x, a: nat :: ByteAt(st', x, a) == ByteAt(st, if x == child then id else x, a))
      && forall a: nat :: Allows(s, a, false) ==> Readable(st', id, a) && Readable(st', child, a)
  {
    assert forall p :: Key(id, p) in st.vma ==> st.vma[Key(id, p)].cow;
    hide Inv, Coupled, Step, ByteAt, AS.Copies, Moved, View, Placed, Allows, Readable, AS.AllAligned;
    InvPlaced(st);
    NoPages(st, child);
    var st' := Step(st, Clone(id, child, pages));
    ForkView(st, id, child, pages);
    ForkCoupled(s, st.vma, id, child);
    forall x, a: nat ensures ByteAt(st', x, a) == ByteAt(st, if x == child then id else x, a) {
      ForkBytes(st, st', id, child, x, a);
    }
    forall a: nat | Allows(s, a, false) ensures Readable(st', id, a) && Readable(st', child, a) {
      ForkReadable(s, st, st', id, child, a);
    }
  }

  lemma ForkReadable(s: AS.Areas, st: State, st': State, id: Space, child: Space, a: nat)
    requires Coupled(s, st.vma, id) && AS.AllAligned(s) && Inv(st') && id != child
    requires st'.vma == st.vma + Moved(st.vma, id, child) && Allows(s, a, false)
    ensures Readable(st', id, a) && Readable(st', child, a)
  {
    hide CountsExact, SizesExact, Coupled, Allows, Moved;
    AllowsPage(s, st.vma, id, a, false);
    MovedAt(st.vma, id, child);
  }

  /** One turn of the loop of vmsp_clone: vma_clone on the area at `b`, pages first. */
  method CloneNext(fam: Family, id: Space, child: Space, c: AS.Vmsp, b: nat, v: AS.Area, ghost s: AS.Areas)
    requires b in s && s[b] == v && AS.Disjoint(s) && AS.AllAligned(s)
    requires Inv(fam.St()) && ToCopy(fam.St(), id, child, Pages(s, Some(b)))
    requires c.areas == Done(s, Some(b)) && c.vSize == AS.PageTotal(c.areas)
    modifies fam, c
    ensures Inv(fam.St()) && ToCopy(fam.St(), id, child, Pages(s, AS.Next(s, b)))
    ensures ClonePages(fam.St(), id, child, Pages(s, AS.Next(s, b)))
         == old(ClonePages(fam.St(), id, child, Pages(s, Some(b))))
    ensures c.areas == Done(s, AS.Next(s, b)) && c.vSize == AS.PageTotal(c.areas)
  {
    hide Inv, ToCopy, ClonePages, Pages, AS.PageTotal, Done, AS.Next, Span;
    PagesMore(s, b);
    DoneMore(s, b);
    ghost var rest := Pages(s, AS.Next(s, b));
    if v.ops.Anon? {
      fam.CloneArea(id, child, b / PAGE_SIZE, v.len / PAGE_SIZE, rest);
    } else {
      assert [] + rest == rest;
    }
    AS.PageTotalPut(c.areas, b, AS.Copy(v));
    assert c.areas - {b} == c.areas;
    c.CopyIn(b, v);
  }

  /** vmsp_clone. It stops on an assertion for the space of the kernel, or if the new space has other
      bounds. Else the child has a copy of every area, and reads every anonymous byte its parent does. */
  method Fork(v: AS.Vmsp, fam: Family, id: Space, child: Space, lower: nat, upper: nat, maxSize: nat)
    returns (r: Option<AS.Vmsp>)
    requires InStep(v, fam, id) && id in fam.pSize && child !in fam.pSize
    requires 0 < lower <= upper < WORD && lower + maxSize < WORD
    modifies fam
    ensures Inv(fam.St()) && (r.None? <==> v.kernel || lower != v.lower || upper != v.upper)
    ensures r.None? ==> fam.St() == old(fam.St())
    ensures r.Some? ==>
      && fresh(r.value) && r.value.areas == AS.Copies(v.areas)
      && r.value.lower == lower && r.value.upper == upper && r.value.maxSize == maxSize && !r.value.kernel
      && InStep(v, fam, id) && InStep(r.value, fam, child)
      && fam.vma == old(fam.vma) + Moved(old(fam.vma), id, child)
      && (forall a: nat :: Allows(v.areas, a, false) ==> Readable(fam.St(), id, a) && Readable(fam.St(), child, a))
      && forall s, a: nat :: ByteAt(fam.St(), s, a) == old(ByteAt(fam.St(), if s == child then id else s, a))
  {
    hide Inv, Pages, ToCopy, ClonePages, Coupled, AS.PageTotal, AS.Disjoint, AS.Shaped, AS.AllAligned, Done, AS.Next,
      AS.First, ByteAt, View, Legal, AS.Copies, Allows, Readable, Moved;
    if v.kernel || lower != v.lower || upper != v.upper {
      return None;
    }
    ghost var s, st := v.areas, fam.St();
    ghost var pages := Pages(s, AS.First(s));
    ForkLegal(s, st, id, child);
    CloneStart(st, id, child, pages);
    DoneFirst(s);
    var c := new AS.Vmsp(lower, upper, maxSize, false);
    fam.Enter(child);
    var cur := AS.First(v.areas);
    while cur.Some?
      invariant (cur.Some? ==> cur.value in s) && fresh(c) && v.areas == s
      invariant Inv(fam.St()) && ToCopy(fam.St(), id, child, Pages(s, cur))
      invariant ClonePages(fam.St(), id, child, Pages(s, cur)) == Step(st, Clone(id, child, pages))
      invariant c.areas == Done(s, cur) && c.vSize == AS.PageTotal(c.areas)
      decreases |From(s, cur)|
    {
      FromNext(s, cur.value);
      CloneNext(fam, id, child, c, cur.value, v.areas[cur.value], s);
      cur := AS.Next(v.areas, cur.value);
    }
    NoneLeft(fam.St(), id, child, s);
    CopiesShaped(s, lower, upper);
    Forked(s, st, id, child, pages);
    r := Some(c);
  }

  // ----- loads and stores ------------------------------------------------------------------------

  /** States that show the same bytes. */
  lemma SameBytes(st: State, st': State, s: Space, a: nat)
    requires Inv(st) && Inv(st') && st'.vma == st.vma && View(st') == View(st)
    ensures ByteAt(st', s, a) == ByteAt(st, s, a)
  {
    hide Inv, View;
  }

  /** A load at `a` finds, or faults in, an entry that lets it read. */
  ghost predicate Readable(st: State, id: Space, a: nat) {
    var k := Key(id, a / PAGE_SIZE);
    k in st.vma && if k in st.pt then st.pt[k].rights.rd else st.vma[k].rights.rd
  }

  /** Memory that may be read can be, whether its page is missing, private or shared; memory that may be
      neither read nor written cannot. */
  lemma ReadableWhere(s: AS.Areas, st: State, id: Space, a: nat)
    requires Inv(st) && Coupled(s, st.vma, id) && AS.AllAligned(s)
    ensures Allows(s, a, false) ==> Readable(st, id, a)
    ensures Readable(st, id, a) ==> Allows(s, a, false) || Allows(s, a, true)
  {
    hide CountsExact, SizesExact, Allows, Coupled;
    AllowsPage(s, st.vma, id, a, false);
    AllowsPage(s, st.vma, id, a, true);
  }

  /** A load by a program of space `id`, with the fault it may take; `page` is what page_new returns. */
  method Load(v: AS.Vmsp, fam: Family, id: Space, a: nat, page: Frame) returns (r: Option<bv8>)
    requires InStep(v, fam, id) && page !in fam.frames
    modifies fam
    ensures InStep(v, fam, id) && fam.vma == old(fam.vma)
    ensures r == old(if Readable(fam.St(), id, a) then ByteAt(fam.St(), id, a) else None)
    ensures r.Some? <==> old(Readable(fam.St(), id, a))
    ensures Allows(v.areas, a, false) ==> r.Some?
    ensures r.Some? ==> Allows(v.areas, a, false) || Allows(v.areas, a, true)
    ensures forall s, x: nat :: ByteAt(fam.St(), s, x) == old(ByteAt(fam.St(), s, x))
    // a page mapped to be read takes no fault
    ensures old(var k := Key(id, a / PAGE_SIZE); k in fam.pt && fam.pt[k].rights.rd) ==> fam.St() == old(fam.St())
  {
    hide Inv, View, Coupled, AS.PageTotal, AS.AllAligned, ByteAt, Allows, Placed;
    var k := Key(id, a / PAGE_SIZE);
    ghost var st := fam.St();
    ReadableWhere(v.areas, st, id, a);
    ByteIs(st, id, a);
    if k !in fam.pt || !fam.pt[k].rights.rd {
      var ok := fam.Resolve(k, k !in fam.pt, false, page);
      if !ok {
        return None;
      }
    }
    InvPlaced(fam.St());
    FrameKnown(fam.St(), k);
    forall s, x: nat ensures ByteAt(fam.St(), s, x) == ByteAt(st, s, x) { SameBytes(st, fam.St(), s, x); }
    if !fam.pt[k].rights.rd {
      return None;
    }
    r := Some(fam.frames[fam.pt[k].frame].bytes[a % PAGE_SIZE]);
  }

  lemma ByteIs(st: State, id: Space, a: nat)
    requires Inv(st)
    ensures var k := Key(id, a / PAGE_SIZE);
      if k in st.vma then
        k in View(st) && |View(st)[k].bytes| == PAGE_SIZE && ByteAt(st, id, a) == Some(View(st)[k].bytes[a % PAGE_SIZE])
      else ByteAt(st, id, a) == None
    ensures st.pt.Keys <= st.vma.Keys && Placed(st)
  {
    hide CountsExact, SizesExact, RightsAgree, View;
    if Key(id, a / PAGE_SIZE) in st.vma { PageWhole(st, Key(id, a / PAGE_SIZE)); }
  }

  /** The faults a store takes leave a page the program may write, or the store is refused. */
  method OpenPage(fam: Family, k: Key, page: Frame) returns (ok: bool)
    requires Inv(fam.St()) && page !in fam.frames
    modifies fam
    ensures Inv(fam.St()) && fam.vma == old(fam.vma) && View(fam.St()) == old(View(fam.St()))
    ensures ok <==> k in fam.vma && fam.vma[k].rights.wr
    ensures ok ==> k in fam.pt && fam.pt[k].rights.wr
    ensures !ok ==> fam.St() == old(fam.St())
  {
    hide Inv, View, Placed;
    ghost var st := fam.St();
    WriterIs(st, k);
    if k !in fam.pt {
      ok := fam.Resolve(k, true, true, page);
    } else if !fam.pt[k].rights.wr {
      ok := fam.Resolve(k, false, true, page);
    } else {
      ok := true;
    }
  }

  lemma WriterIs(st: State, k: Key)
    requires Inv(st)
    ensures Placed(st) && (k in st.pt ==> k in st.vma && (st.pt[k].rights.wr ==> st.vma[k].rights.wr))
  {
    hide CountsExact, SizesExact;
  }

  /** A store by a program of space `id`. Where it is allowed it changes the byte at that address in that
      space; no other byte of any space changes, whoever shares the page. */
  method Store(v: AS.Vmsp, fam: Family, id: Space, a: nat, b: bv8, page: Frame) returns (ok: bool)
    requires InStep(v, fam, id) && page !in fam.frames
    modifies fam
    ensures InStep(v, fam, id) && fam.vma == old(fam.vma) && (ok <==> Allows(v.areas, a, true))
    ensures forall s, x: nat ::
      ByteAt(fam.St(), s, x) == if ok && s == id && x == a then Some(b) else old(ByteAt(fam.St(), s, x))
  {
    hide Inv, View, Coupled, AS.PageTotal, AS.AllAligned, ByteAt, Allows, Placed;
    var k, off := Key(id, a / PAGE_SIZE), a % PAGE_SIZE;
    ghost var st := fam.St();
    AllowsPage(v.areas, fam.vma, id, a, true);
    ok := OpenPage(fam, k, page);
    if !ok {
      return;
    }
    ghost var mid := fam.St();
    InvPlaced(mid);
    ViewKeys(mid);
    FrameKnown(mid, k);
    PutByteSound(mid, k, off, b);
    var f := fam.pt[k].frame;
    fam.frames := fam.frames[f := Page(fam.frames[f].bytes[off := b])];
    forall s, x: nat ensures ByteAt(fam.St(), s, x) == if s == id && x == a then Some(b) else ByteAt(st, s, x) {
      PutBytes(st, fam.St(), k, off, b, s, x);
    }
  }

  lemma PutBytes(st: State, st': State, k: Key, off: nat, b: bv8, s: Space, x: nat)
    requires Inv(st) && Inv(st') && st'.vma == st.vma && k in st.vma && k in View(st) && off < |View(st)[k].bytes|
    requires off < PAGE_SIZE && View(st') == View(st)[k := Page(View(st)[k].bytes[off := b])]
    ensures ByteAt(st', s, x)
         == if Key(s, x / PAGE_SIZE) == k && x % PAGE_SIZE == off then Some(b) else ByteAt(st, s, x)
  {
    hide Inv, View, ByteAt;
    ByteIs(st, s, x);
    ByteIs(st', s, x);
  }
}
