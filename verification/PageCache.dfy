/** The page cache of one file over its device, in synchronous mode, against a flat byte string.

    The device reads zeros past the end of the file and grows with zeros. Reading a page from the
    device succeeds; writing one back may fail. The device offset of a page is a 32-bit product, so
    the flat file is shown as far as that product is exact. */
module PageCache {

  import opened Machine

  type Bytes = seq<bv8>

  /** A page's worth of bytes from `off` on: zeros past the end. */
  function At(f: Bytes, off: nat): Bytes {
    seq(PAGE_SIZE, i requires 0 <= i < PAGE_SIZE => if off + i < |f| then f[off + i] else 0)
  }

  /** The contents of page `p` of a file. */
  function PageOf(f: Bytes, p: nat): Bytes { At(f, p * PAGE_SIZE) }

  // ----- where a page lies on the device ---------------------------------------------------------------------

  /** The offset of a page on the device, as a 32-bit product. */
  function DevOff(p: nat): nat { p * PAGE_SIZE % WORD }

  predicate Low(p: nat) { p * PAGE_SIZE < WORD }

  lemma LowOff(p: nat)
    requires Low(p)
    ensures DevOff(p) == p * PAGE_SIZE
  {
  }

  lemma HighOff(p: nat)
    ensures DevOff(p) <= p * PAGE_SIZE && (!Low(p) ==> DevOff(p) + PAGE_SIZE <= p * PAGE_SIZE)
  {
    var q, k := p % 0x10_0000, p / 0x10_0000;
    assert p * PAGE_SIZE == q * PAGE_SIZE + k * WORD && q * PAGE_SIZE < WORD;
    ModIs(q * PAGE_SIZE, k);
  }

  lemma {:induction false} ModIs(r: nat, k: nat)
    requires r < WORD
    ensures (r + k * WORD) % WORD == r
  {
    if k > 0 {
      ModIs(r, k - 1);
      assert r + k * WORD == r + (k - 1) * WORD + WORD;
    }
  }

  /** A byte of a page lies at its own offset, reduced to 32 bits. */
  lemma ByteOff(p: nat, mo: nat)
    requires mo < PAGE_SIZE
    ensures DevOff(p) + mo == (p * PAGE_SIZE + mo) % WORD
  {
    var q, k := p % 0x10_0000, p / 0x10_0000;
    assert p * PAGE_SIZE == q * PAGE_SIZE + k * WORD && q * PAGE_SIZE + mo < WORD;
    ModIs(q * PAGE_SIZE, k);
    ModIs(q * PAGE_SIZE + mo, k);
  }

  /** Page `p` is read from its own place on every device, if and only if it lies below 4 GiB. */
  lemma FilledRightIff(p: nat)
    ensures (forall dev: Bytes :: p * PAGE_SIZE < |dev| ==> At(dev, DevOff(p)) == PageOf(dev, p)) <==> Low(p)
  {
    if Low(p) {
      LowOff(p);
    } else {
      HighOff(p);
      var n := p * PAGE_SIZE;
      var dev: Bytes := seq(n + 1, i requires 0 <= i < n + 1 => if i < n then 0 else 1);
      assert At(dev, DevOff(p))[0] == 0 && PageOf(dev, p)[0] == 1;
    }
  }

  /** What a write-back of page `p` leaves on the device. */
  function Written(dev: Bytes, p: nat, data: Bytes): Bytes
    requires DevOff(p) < |dev| && |data| == PAGE_SIZE
  {
    Overlay(dev, DevOff(p), data[..Span(DevOff(p), |dev|)])
  }

  /** The device as it was, or with page `p` written back. */
  predicate MaybeWritten(dev: Bytes, dev': Bytes, p: nat, data: Bytes) {
    dev' == dev || (DevOff(p) < |dev| && |data| == PAGE_SIZE && dev' == Written(dev, p, data))
  }

  /** The device with page `p` written back. */
  predicate Saved(dev: Bytes, dev': Bytes, p: nat, data: Bytes) {
    DevOff(p) < |dev| && |data| == PAGE_SIZE && dev' == Written(dev, p, data)
  }

  /** It is written to its own place on every device, if and only if it lies below 4 GiB. */
  lemma WrittenRightIff(p: nat)
    ensures (forall dev: Bytes, data: Bytes :: p * PAGE_SIZE < |dev| && |data| == PAGE_SIZE ==>
               && DevOff(p) < |dev|
               && Written(dev, p, data) == Overlay(dev, p * PAGE_SIZE, data[..Span(p * PAGE_SIZE, |dev|)]))
            <==> Low(p)
  {
    HighOff(p);
    if Low(p) {
      LowOff(p);
    } else {
      var dev: Bytes := seq(p * PAGE_SIZE + 1, i => 0);
      var data: Bytes := seq(PAGE_SIZE, i => 1);
      assert Overlay(dev, p * PAGE_SIZE, data[..Span(p * PAGE_SIZE, |dev|)])[p * PAGE_SIZE] == 1;
      assert Written(dev, p, data)[p * PAGE_SIZE] == 0;
    }
  }

  /** The first page past 4 GiB is read from, and written to, the start of the device. */
  lemma HighPage(dev: Bytes, data: Bytes)
    requires |dev| > WORD && |data| == PAGE_SIZE
    ensures At(dev, DevOff(0x10_0000)) == PageOf(dev, 0)
    ensures Written(dev, 0x10_0000, data) == data + dev[PAGE_SIZE..]
  {
    ByteOff(0x10_0000, 0);
    assert DevOff(0x10_0000) == 0;
    assert data[..PAGE_SIZE] == data;
  }

  datatype Page = Page(data: Bytes, ready: bool, dirty: bool, rcu: int)

  // ----- the invariant ----------------------------------------------------------------------------------

  type Pages = map<nat, Page>

  /** A page that was read is whole; one that was not is held and clean. Dirty pages lie in the file. */
  predicate Formed(pages: Pages, n: nat) {
    forall p :: p in pages ==>
      && (if pages[p].ready then |pages[p].data| == PAGE_SIZE else !pages[p].dirty && pages[p].rcu > 0)
      && (pages[p].dirty ==> p * PAGE_SIZE < n)
  }

  /** The pages that may be evicted are the clean ones nobody holds. */
  ghost predicate LruExact(pages: Pages, lru: seq<nat>) {
    && (forall i, j :: 0 <= i < j < |lru| ==> lru[i] != lru[j])
    && (forall p :: p in lru <==> p in pages && pages[p].rcu == 0 && !pages[p].dirty)
  }

  /** The reference counts are the outstanding fetches. */
  ghost predicate RefsExact(pages: Pages, refs: multiset<nat>, owed: set<nat>) {
    && (forall p :: p in pages ==> pages[p].rcu == refs[p])
    && (forall p :: p in refs ==> p in pages)
    && (forall p :: p in owed ==> p in refs && pages[p].ready && 0 <= p)
  }

  /** What every operation keeps, wherever its page lies on the device. */
  ghost predicate Inv(pages: Pages, lru: seq<nat>, n: nat, refs: multiset<nat>, owed: set<nat>) {
    Formed(pages, n) && LruExact(pages, lru) && RefsExact(pages, refs, owed)
  }

  /** Cached pages show the file. */
  predicate Shows(pages: Pages, f: Bytes) {
    forall p :: p in pages && pages[p].ready ==> pages[p].data == PageOf(f, p)
  }

  /** Pages with changes the device may not have: dirty ones, and those changed by a holder. */
  predicate Ahead(pages: Pages, owed: set<nat>, p: nat) {
    p in pages && (pages[p].dirty || p in owed)
  }

  /** Everywhere else the device has the file; and what it does not have, it can be given. */
  ghost predicate Synced(pages: Pages, owed: set<nat>, dev: Bytes, f: Bytes) {
    && (forall p: nat :: !Ahead(pages, owed, p) ==> PageOf(dev, p) == PageOf(f, p))
    && (forall p: nat :: Ahead(pages, owed, p) ==> Low(p))
  }

  /** The cache shows the flat file. */
  ghost predicate Flat(pages: Pages, owed: set<nat>, dev: Bytes, f: Bytes) {
    Shows(pages, f) && Synced(pages, owed, dev, f)
  }

  /** No changes are pending, and every page holds what lies at its device offset. */
  ghost predicate Settled(pages: Pages, owed: set<nat>, dev: Bytes) {
    owed == {} && forall p :: p in pages ==> !pages[p].dirty && (pages[p].ready ==> pages[p].data == At(dev, DevOff(p)))
  }

  // ----- pieces of a file -----------------------------------------------------------------------------------

  /** `f` with `b` written at `off`. */
  function Overlay(f: Bytes, off: nat, b: Bytes): Bytes
    requires off + |b| <= |f|
  {
    f[..off] + b + f[off + |b|..]
  }

  /** `f` grown with zeros to at least `n` bytes. */
  function Grown(f: Bytes, n: nat): Bytes {
    if n <= |f| then f else f + seq(n - |f|, i => 0)
  }

  /** How much of a page at `off` lies within a file of `n` bytes. */
  function Span(off: nat, n: nat): (r: nat)
    requires off < n
    ensures r <= PAGE_SIZE && off + r <= n
  {
    if off + PAGE_SIZE > n then n - off else PAGE_SIZE
  }

  lemma GrownPages(f: Bytes, n: nat, p: nat)
    ensures PageOf(Grown(f, n), p) == PageOf(f, p)
  {
  }

  /** Writing within a page changes that page and no other. */
  lemma OverlayPages(f: Bytes, p: nat, mo: nat, b: Bytes, q: nat)
    requires mo + |b| <= PAGE_SIZE && p * PAGE_SIZE + mo + |b| <= |f|
    ensures PageOf(Overlay(f, p * PAGE_SIZE + mo, b), q) ==
      if q == p then PageOf(f, p)[..mo] + b + PageOf(f, p)[mo + |b|..] else PageOf(f, q)
  {
    var g := Overlay(f, p * PAGE_SIZE + mo, b);
    assert |g| == |f|;
    if q == p {
      var want := PageOf(f, p)[..mo] + b + PageOf(f, p)[mo + |b|..];
      assert |want| == PAGE_SIZE;
      forall i | 0 <= i < PAGE_SIZE ensures PageOf(g, p)[i] == want[i] {}
      assert PageOf(g, p) == want;
    } else {
      forall i | 0 <= i < PAGE_SIZE ensures PageOf(g, q)[i] == PageOf(f, q)[i] { Apart(p, q, i, mo, |b|); }
      assert PageOf(g, q) == PageOf(f, q);
    }
  }

  lemma Apart(p: nat, q: nat, i: nat, mo: nat, n: nat)
    requires p != q && i < PAGE_SIZE && mo + n <= PAGE_SIZE
    ensures q * PAGE_SIZE + i < p * PAGE_SIZE + mo || q * PAGE_SIZE + i >= p * PAGE_SIZE + mo + n
  {
  }

  // ----- the steps, on values --------------------------------------------------------------------------------

  function WithRcu(g: Page, n: int): Page { Page(g.data, g.ready, g.dirty, n) }

  function WithDirty(g: Page, d: bool): Page { Page(g.data, g.ready, d, g.rcu) }

  /** Changing a reference count shows and owes nothing new. */
  lemma Counts(pages: Pages, owed: set<nat>, dev: Bytes, f: Bytes, p: nat, n: int)
    requires p in pages
    ensures Flat(pages, owed, dev, f) ==> Flat(pages[p := WithRcu(pages[p], n)], owed, dev, f)
    ensures Settled(pages, owed, dev) ==> Settled(pages[p := WithRcu(pages[p], n)], owed, dev)
  {
    hide PageOf, At;
    var w := pages[p := WithRcu(pages[p], n)];
    forall q: nat ensures Ahead(pages, owed, q) <==> Ahead(w, owed, q) {}
  }

  /** One more reference to a cached page, which leaves the eviction list. */
  lemma Holds(pages: Pages, lru: seq<nat>, lru': seq<nat>, n: nat, refs: multiset<nat>, owed: set<nat>, p: nat)
    requires Inv(pages, lru, n, refs, owed) && p in pages
    requires forall i, j :: 0 <= i < j < |lru'| ==> lru'[i] != lru'[j]
    requires forall x :: x in lru' <==> x in lru && x != p
    ensures Inv(pages[p := WithRcu(pages[p], pages[p].rcu + 1)], lru', n, refs + multiset{p}, owed)
  {
  }

  /** A page entering the cache, not read yet. */
  lemma Enters(pages: Pages, lru: seq<nat>, dev: Bytes, f: Bytes, n: nat, refs: multiset<nat>, owed: set<nat>, p: nat)
    requires Inv(pages, lru, n, refs, owed) && p !in pages
    ensures Inv(pages[p := Page([], false, false, 1)], lru, n, refs + multiset{p}, owed)
    ensures Flat(pages, owed, dev, f) ==> Flat(pages[p := Page([], false, false, 1)], owed, dev, f)
    ensures Settled(pages, owed, dev) ==> Settled(pages[p := Page([], false, false, 1)], owed, dev)
  {
    hide PageOf, At;
    assert p !in refs && p !in owed;
    var w := pages[p := Page([], false, false, 1)];
    forall q: nat ensures Ahead(pages, owed, q) <==> Ahead(w, owed, q) {}
  }

  /** The page is read from its device offset: the file is still shown, if and only if what lies there
      is what lies at the page's own place. */
  lemma Fills(pages: Pages, lru: seq<nat>, dev: Bytes, f: Bytes, n: nat, refs: multiset<nat>, owed: set<nat>, p: nat)
    requires Inv(pages, lru, n, refs, owed) && p in pages && !pages[p].ready
    ensures var w := pages[p := Page(At(dev, DevOff(p)), true, pages[p].dirty, pages[p].rcu)];
      && Inv(w, lru, n, refs, owed)
      && (Flat(pages, owed, dev, f) ==> (Flat(w, owed, dev, f) <==> At(dev, DevOff(p)) == PageOf(dev, p)))
      && (Settled(pages, owed, dev) ==> Settled(w, owed, dev))
  {
    var w := pages[p := Page(At(dev, DevOff(p)), true, pages[p].dirty, pages[p].rcu)];
    assert |At(dev, DevOff(p))| == PAGE_SIZE;
    hide At, PageOf, DevOff;
    assert !Ahead(pages, owed, p);
    forall q: nat ensures Ahead(pages, owed, q) <==> Ahead(w, owed, q) {}
    assert w[p].ready && w[p].data == At(dev, DevOff(p));
  }

  /** One reference less, not the last. */
  lemma Drops(pages: Pages, lru: seq<nat>, n: nat, refs: multiset<nat>, owed: set<nat>, p: nat)
    requires Inv(pages, lru, n, refs, owed) && p in pages && pages[p].rcu > 1
    ensures Inv(pages[p := WithRcu(pages[p], pages[p].rcu - 1)], lru, n, refs - multiset{p}, owed)
  {
  }

  /** The last reference to a dirty page. */
  lemma LastDirty(pages: Pages, lru: seq<nat>, n: nat, refs: multiset<nat>, owed: set<nat>, p: nat)
    requires Inv(pages, lru, n, refs, owed) && p in pages && pages[p].rcu == 1 && pages[p].dirty && p !in owed
    ensures Inv(pages[p := WithRcu(pages[p], 0)], lru, n, refs - multiset{p}, owed)
  {
  }

  /** The last reference to a clean page, which joins the eviction list. */
  lemma LastClean(pages: Pages, lru: seq<nat>, n: nat, refs: multiset<nat>, owed: set<nat>, p: nat)
    requires Inv(pages, lru, n, refs, owed) && p in pages && pages[p].rcu == 1 && !pages[p].dirty && p !in owed
    requires pages[p].ready
    ensures Inv(pages[p := WithRcu(pages[p], 0)], [p] + lru, n, refs - multiset{p}, owed)
  {
    assert p !in lru;
  }

  /** A dirty page nobody holds is written back and joins the eviction list. */
  lemma Cleans(pages: Pages, lru: seq<nat>, dev: Bytes, f: Bytes, refs: multiset<nat>, owed: set<nat>, p: nat)
    requires Inv(pages, lru, |dev|, refs, owed) && |dev| == |f|
    requires p in pages && pages[p].rcu == 0 && pages[p].dirty
    ensures DevOff(p) < |dev| && |pages[p].data| == PAGE_SIZE && |Written(dev, p, pages[p].data)| == |dev|
    ensures Inv(pages[p := WithDirty(pages[p], false)], [p] + lru, |dev|, refs, owed)
    ensures Flat(pages, owed, dev, f) ==>
      Flat(pages[p := WithDirty(pages[p], false)], owed, Written(dev, p, pages[p].data), f)
  {
    HighOff(p);
    assert p * PAGE_SIZE < |dev|;
    assert p !in refs && p !in owed && p !in lru;
    if Flat(pages, owed, dev, f) { CleansFlat(pages, owed, dev, f, p); }
    hide PageOf, At, Flat;
  }

  lemma CleansFlat(pages: Pages, owed: set<nat>, dev: Bytes, f: Bytes, p: nat)
    requires Flat(pages, owed, dev, f) && |dev| == |f| && p in pages && pages[p].dirty && pages[p].ready
    requires p !in owed && p * PAGE_SIZE < |f| && |pages[p].data| == PAGE_SIZE && DevOff(p) < |dev|
    ensures Flat(pages[p := WithDirty(pages[p], false)], owed, Written(dev, p, pages[p].data), f)
  {
    assert Ahead(pages, owed, p);
    LowOff(p);
    var b := pages[p].data[..Span(p * PAGE_SIZE, |dev|)];
    WritesBack(dev, f, p, b);
    var dev' := Written(dev, p, pages[p].data);
    forall q: nat | q != p ensures PageOf(dev', q) == PageOf(dev, q) { OverlayPages(dev, p, 0, b, q); }
    hide PageOf, At, Written;
    var w := pages[p := WithDirty(pages[p], false)];
    forall q: nat ensures Ahead(w, owed, q) <==> q != p && Ahead(pages, owed, q) {}
  }

  lemma WritesBack(dev: Bytes, f: Bytes, p: nat, b: Bytes)
    requires |dev| == |f| && p * PAGE_SIZE < |f| && b == PageOf(f, p)[..Span(p * PAGE_SIZE, |f|)]
    ensures PageOf(Overlay(dev, p * PAGE_SIZE, b), p) == PageOf(f, p)
  {
    var d := Overlay(dev, p * PAGE_SIZE, b);
    forall i | 0 <= i < PAGE_SIZE ensures PageOf(d, p)[i] == PageOf(f, p)[i] {
      if i < |b| { assert d[p * PAGE_SIZE + i] == b[i]; }
    }
  }

  /** A page's data with `b` written at `mo`. */
  function Poked(g: Page, mo: nat, b: Bytes): Page
    requires mo + |b| <= |g.data|
  {
    Page(g.data[..mo] + b + g.data[mo + |b|..], true, g.dirty, g.rcu)
  }

  /** A holder writes to a page, within the file. */
  lemma Pokes(pages: Pages, lru: seq<nat>, dev: Bytes, f: Bytes, refs: multiset<nat>, owed: set<nat>, p: nat,
              mo: nat, b: Bytes)
    requires Inv(pages, lru, |f|, refs, owed) && p in pages && pages[p].ready && p in refs
    requires mo + |b| <= PAGE_SIZE && p * PAGE_SIZE + mo + |b| <= |f|
    ensures |pages[p].data| == PAGE_SIZE
    ensures Inv(pages[p := Poked(pages[p], mo, b)], lru, |f|, refs, owed + {p})
    ensures Flat(pages, owed, dev, f) && Low(p) ==>
      Flat(pages[p := Poked(pages[p], mo, b)], owed + {p}, dev, Overlay(f, p * PAGE_SIZE + mo, b))
  {
    if Flat(pages, owed, dev, f) && Low(p) { PokesFlat(pages, owed, dev, f, p, mo, b); }
    hide Flat, PageOf;
  }

  lemma PokesFlat(pages: Pages, owed: set<nat>, dev: Bytes, f: Bytes, p: nat, mo: nat, b: Bytes)
    requires Flat(pages, owed, dev, f) && Low(p) && p in pages && pages[p].ready && |pages[p].data| == PAGE_SIZE
    requires mo + |b| <= PAGE_SIZE && p * PAGE_SIZE + mo + |b| <= |f|
    ensures Flat(pages[p := Poked(pages[p], mo, b)], owed + {p}, dev, Overlay(f, p * PAGE_SIZE + mo, b))
  {
    var g := Overlay(f, p * PAGE_SIZE + mo, b);
    forall q: nat ensures q != p ==> PageOf(g, q) == PageOf(f, q) { OverlayPages(f, p, mo, b, q); }
    OverlayPages(f, p, mo, b, p);
    hide PageOf, Overlay, At;
    var w := pages[p := Poked(pages[p], mo, b)];
    forall q: nat ensures Ahead(w, owed + {p}, q) <==> q == p || Ahead(pages, owed, q) {}
  }

  /** A held page is marked dirty. */
  lemma Marks(pages: Pages, lru: seq<nat>, dev: Bytes, f: Bytes, refs: multiset<nat>, owed: set<nat>, p: nat)
    requires Inv(pages, lru, |f|, refs, owed) && p in pages && pages[p].ready && p in refs && p * PAGE_SIZE < |f|
    ensures Inv(pages[p := WithDirty(pages[p], true)], lru, |f|, refs, owed - {p})
    ensures Flat(pages, owed, dev, f) && Low(p) ==>
      Flat(pages[p := WithDirty(pages[p], true)], owed - {p}, dev, f)
  {
    hide PageOf, At;
    var w := pages[p := WithDirty(pages[p], true)];
    forall q: nat ensures Ahead(w, owed - {p}, q) <==> q == p || Ahead(pages, owed, q) {}
  }

  /** The oldest page of the eviction list leaves the cache. */
  lemma Evicts(pages: Pages, lru: seq<nat>, dev: Bytes, f: Bytes, n: nat, refs: multiset<nat>, owed: set<nat>)
    requires Inv(pages, lru, n, refs, owed) && lru != []
    ensures var p := lru[|lru| - 1];
      && p in pages && pages[p].rcu == 0 && !pages[p].dirty && p !in owed
      && Inv(pages - {p}, lru[..|lru| - 1], n, refs, owed)
      && (Flat(pages, owed, dev, f) ==> Flat(pages - {p}, owed, dev, f))
      && (Settled(pages, owed, dev) ==> Settled(pages - {p}, owed, dev))
  {
    hide PageOf, At;
    var p := lru[|lru| - 1];
    assert p in lru;
    assert p !in refs && p !in owed;
    forall x ensures x in lru[..|lru| - 1] <==> x in lru && x != p {
      if x in lru && x != p {
        var i :| 0 <= i < |lru| && lru[i] == x;
        assert lru[..|lru| - 1][i] == x;
      }
    }
    forall q: nat ensures Ahead(pages - {p}, owed, q) <==> Ahead(pages, owed, q) {}
  }

  /** The file grows with zeros. */
  lemma Grows(pages: Pages, lru: seq<nat>, dev: Bytes, f: Bytes, refs: multiset<nat>, owed: set<nat>, n: nat)
    requires Inv(pages, lru, |f|, refs, owed) && |dev| == |f|
    ensures |Grown(dev, n)| == |Grown(f, n)| >= n
    ensures Inv(pages, lru, |Grown(f, n)|, refs, owed)
    ensures Flat(pages, owed, dev, f) ==> Flat(pages, owed, Grown(dev, n), Grown(f, n))
  {
    forall p: nat ensures PageOf(Grown(f, n), p) == PageOf(f, p) && PageOf(Grown(dev, n), p) == PageOf(dev, p) {
      GrownPages(f, n, p);
      GrownPages(dev, n, p);
    }
    assert |Grown(dev, n)| == |Grown(f, n)| >= |f|;
    hide PageOf, At, Grown;
  }

  lemma GrowsStill(pages: Pages, owed: set<nat>, dev: Bytes, n: nat)
    ensures Settled(pages, owed, dev) ==> Settled(pages, owed, Grown(dev, n))
  {
    forall p | p in pages ensures At(Grown(dev, n), DevOff(p)) == At(dev, DevOff(p)) {}
  }

  /** The bytes of [off, off + n), each from its offset reduced to 32 bits. */
  function Wrapped(dev: Bytes, off: nat, n: nat): Bytes
    requires off + n <= |dev|
  {
    seq(n, i requires 0 <= i < n => dev[(off + i) % WORD])
  }

  /** Those are the bytes of the file on every device, if and only if the range ends within 4 GiB. */
  lemma WrappedRightIff(off: nat, n: nat)
    requires n > 0
    ensures (forall dev: Bytes :: off + n <= |dev| ==> Wrapped(dev, off, n) == dev[off..off + n]) <==> off + n <= WORD
  {
    if off + n <= WORD {
      forall dev: Bytes | off + n <= |dev| ensures Wrapped(dev, off, n) == dev[off..off + n] {}
    } else {
      var end := off + n;
      var dev: Bytes := seq(end, i requires 0 <= i < end => if i < end - 1 then 0 else 1);
      assert Wrapped(dev, off, n)[n - 1] == 0 && dev[off..end][n - 1] == 1;
    }
  }

  // ----- what a write leaves on the device -------------------------------------------------------------------

  /** Where byte `j` from `off` on lies on the device: its offset reduced to 32 bits. */
  function Lands(off: nat, j: nat): nat { (off + j) % WORD }

  /** One of the `n` bytes from `off` on goes to `i`. */
  ghost predicate Hit(off: nat, n: nat, i: nat) {
    exists j :: 0 <= j < n && Lands(off, j) == i
  }

  /** `b` is written at `off`, each byte to its offset reduced to 32 bits; nothing else changes. */
  ghost predicate Scattered(dev: Bytes, dev': Bytes, off: nat, b: Bytes) {
    && |dev'| == |dev|
    && (forall j :: 0 <= j < |b| ==> Lands(off, j) < |dev| && dev'[Lands(off, j)] == b[j])
    && (forall i :: 0 <= i < |dev| && !Hit(off, |b|, i) ==> dev'[i] == dev[i])
  }

  /** That is a write to the file on every device, if and only if the range ends within 4 GiB. */
  lemma ScatteredRightIff(off: nat, n: nat)
    requires 0 < n <= WORD
    ensures (forall dev: Bytes, dev': Bytes, b: Bytes ::
               |b| == n && off + n <= |dev| && Scattered(dev, dev', off, b) ==> dev' == Overlay(dev, off, b))
            <==> off + n <= WORD
  {
    if off + n <= WORD {
      forall dev: Bytes, dev': Bytes, b: Bytes | |b| == n && off + n <= |dev| && Scattered(dev, dev', off, b)
        ensures dev' == Overlay(dev, off, b)
      {
        ScatteredLow(dev, dev', off, b);
      }
    } else {
      var dev: Bytes, b: Bytes := seq(off + n, i => 0), seq(n, i => 1);
      var dev': Bytes := seq(off + n, i requires 0 <= i < off + n => if Hit(off, n, i) then 1 else 0);
      forall j | 0 <= j < n ensures Lands(off, j) < |dev| && dev'[Lands(off, j)] == b[j] {
        assert Hit(off, n, Lands(off, j));
      }
      assert Scattered(dev, dev', off, b);
      forall j | 0 <= j < n ensures Lands(off, j) != off + n - 1 {}
      assert !Hit(off, n, off + n - 1);
      assert Overlay(dev, off, b)[off + n - 1] == 1;
    }
  }

  lemma ScatteredLow(dev: Bytes, dev': Bytes, off: nat, b: Bytes)
    requires off + |b| <= |dev| && off + |b| <= WORD && Scattered(dev, dev', off, b)
    ensures dev' == Overlay(dev, off, b)
  {
    var w := Overlay(dev, off, b);
    forall i | 0 <= i < |dev| ensures dev'[i] == w[i] {
      if off <= i < off + |b| { assert Lands(off, i - off) == i; } else { assert !Hit(off, |b|, i); }
    }
  }

  /** Wherever the range lies, reading it back gives what was written. */
  lemma ReadBack(dev: Bytes, dev': Bytes, off: nat, b: Bytes)
    requires Scattered(dev, dev', off, b) && off + |b| <= |dev|
    ensures Wrapped(dev', off, |b|) == b
  {
    forall j | 0 <= j < |b| ensures Wrapped(dev', off, |b|)[j] == b[j] { assert Lands(off, j) < |dev|; }
  }

  lemma ScatteredNone(dev: Bytes, off: nat)
    ensures Scattered(dev, dev, off, [])
  {
  }

  /** Offsets less than 4 GiB apart are not reduced to the same one. */
  lemma ReducedApart(a: nat, b: nat)
    requires a < b < a + WORD
    ensures a % WORD != b % WORD
  {
    var k, r := a / WORD, a % WORD + (b - a);
    if r < WORD { ModIs(r, k); } else { ModIs(r - WORD, k + 1); }
    assert b == r + k * WORD;
  }

  lemma ScatteredMore(dev: Bytes, mid: Bytes, dev': Bytes, off: nat, b: Bytes, done: nat, cap: nat)
    requires done + cap <= |b| <= WORD
    requires Scattered(dev, mid, off, b[..done]) && Scattered(mid, dev', off + done, b[done..done + cap])
    ensures Scattered(dev, dev', off, b[..done + cap])
  {
    var n, c, next := done + cap, b[done..done + cap], off + done;
    forall k | 0 <= k < cap ensures Lands(next, k) == Lands(off, done + k) {
      assert next + k == off + (done + k);
    }
    forall j | 0 <= j < n ensures Lands(off, j) < |dev| && dev'[Lands(off, j)] == b[j] {
      if j >= done {
        assert Lands(next, j - done) == Lands(off, j) && c[j - done] == b[j];
      } else {
        assert b[..done][j] == b[j] && mid[Lands(off, j)] == b[j];
        forall k | 0 <= k < cap ensures Lands(next, k) != Lands(off, j) { ReducedApart(off + j, next + k); }
        assert !Hit(next, cap, Lands(off, j));
      }
    }
    forall i | 0 <= i < |dev| && !Hit(off, n, i) ensures dev'[i] == dev[i] {
      forall j | 0 <= j < n ensures Lands(off, j) != i {}
      assert !Hit(off, done, i);
      assert !Hit(next, cap, i);
    }
  }

  /** Every page but `p` is as it was. */
  predicate Others(pages: Pages, pages': Pages, p: nat) {
    && (forall q :: q in pages && q != p ==> q in pages' && pages'[q] == pages[q])
    && (forall q :: q in pages' && q != p ==> q in pages)
  }

  lemma OthersOn(a: Pages, b: Pages, c: Pages, p: nat)
    requires Others(a, b, p) && p in c && c == b[p := c[p]]
    ensures Others(a, c, p)
  {
  }

  /** No cached page but `p` itself lies where page `p` does on the device. */
  predicate Unshared(pages: Pages, p: nat) {
    forall q :: q in pages && q != p ==> DevOff(q) != DevOff(p)
  }

  /** A write-back of a page changed at `mo` in a settled cache: the bytes reach their reduced offsets, and
      the cache is settled again. */
  lemma Settles(pages: Pages, pages': Pages, dev: Bytes, p: nat, mo: nat, b: Bytes)
    requires Settled(pages, {}, dev) && Unshared(pages, p) && Others(pages, pages', p) && p in pages'
    requires b != [] && mo + |b| <= PAGE_SIZE && p * PAGE_SIZE + mo + |b| <= |dev|
    requires var d := At(dev, DevOff(p)); pages'[p].data == d[..mo] + b + d[mo + |b|..] && !pages'[p].dirty
    ensures DevOff(p) < |dev| && |pages'[p].data| == PAGE_SIZE
    ensures var dev' := Written(dev, p, pages'[p].data);
      Settled(pages', {}, dev') && Scattered(dev, dev', p * PAGE_SIZE + mo, b)
  {
    HighOff(p);
    var data := pages'[p].data;
    var dev' := Written(dev, p, data);
    LandsAt(dev, p, mo, b, data);
    forall q | q in pages && q != p ensures At(dev', DevOff(q)) == At(dev, DevOff(q)) {
      LandsApart(dev, p, q, data);
    }
    hide At, Written, DevOff, Scattered;
  }

  /** Page `p` holds bytes of the range. */
  predicate Touched(off: nat, n: nat, p: nat) {
    n > 0 && off / PAGE_SIZE <= p && p * PAGE_SIZE < off + n
  }

  /** Nobody else holds a page of the range, and the device takes each. */
  ghost predicate Undisturbed(refs: multiset<nat>, fails: nat -> bool, off: nat, n: nat) {
    forall p: nat :: Touched(off, n, p) ==> p !in refs && !fails(p)
  }

  /** List `l'` is `l` without `p`, in the order of `l`. */
  predicate Unlisted(l: seq<nat>, l': seq<nat>, p: nat) {
    && (p !in l ==> l' == l)
    && (forall i :: 0 <= i < |l| && l[i] == p ==> l' == l[..i] + l[i + 1..])
  }

  /** Page `p` is the last to be evicted; the others go in the order they would have. */
  predicate Newest(l: seq<nat>, l': seq<nat>, p: nat) {
    l' != [] && l'[0] == p && Unlisted(l, l'[1..], p)
  }

  lemma NewestFirst(l: seq<nat>, l': seq<nat>, p: nat)
    requires Unlisted(l, l', p)
    ensures Newest(l, [p] + l', p)
  {
    assert ([p] + l')[1..] == l';
  }

  /** No cached page shares its place on the device with another one of the range. */
  ghost predicate Unaliased(pages: Pages, off: nat, n: nat) {
    forall p: nat :: Touched(off, n, p) ==> Unshared(pages, p)
  }

  /** That stays so while the pages of the range enter one by one. */
  lemma UnaliasedOn(pages: Pages, pages': Pages, o: nat, n: nat, cap: nat)
    requires Unaliased(pages, o, n) && cap <= n <= INT_MAX && Others(pages, pages', o / PAGE_SIZE)
    ensures Unaliased(pages', o + cap, n - cap)
  {
    hide DevOff;
    var p := o / PAGE_SIZE;
    forall x: nat | Touched(o + cap, n - cap, x) ensures Unshared(pages', x) {
      assert Touched(o, n, x) && Unshared(pages, x);
      if p < x { OwnOff(p, x); }
    }
  }

  lemma UnsharedHere(pages: Pages, o: nat, n: nat)
    requires Unaliased(pages, o, n) && n > 0
    ensures Unshared(pages, o / PAGE_SIZE)
  {
    hide Unshared;
    assert Touched(o, n, o / PAGE_SIZE);
  }

  /** After the range was gone through: each of its pages is cached, and has something to write exactly
      if it was changed, or was so before, and is held by somebody or is not taken by the device. */
  ghost predicate Swept(pages: Pages, pages': Pages, refs: multiset<nat>, fails: nat -> bool, off: nat, n: nat,
                        change: bool) {
    && (forall p: nat :: Touched(off, n, p) ==> p in pages' && (pages'[p].dirty <==>
          (change || (p in pages && pages[p].dirty)) && (p in refs || fails(p))))
    && (forall p: nat :: !Touched(off, n, p) ==>
          (p in pages' <==> p in pages) && (p in pages ==> pages'[p] == pages[p]))
  }

  lemma SweptNone(pages: Pages, refs: multiset<nat>, fails: nat -> bool, off: nat, change: bool)
    ensures Swept(pages, pages, refs, fails, off, 0, change)
  {
  }

  /** One more page is gone through. */
  lemma SweptMore(a: Pages, b: Pages, c: Pages, refs: multiset<nat>, fails: nat -> bool, off: nat, n: nat, cap: nat,
                  change: bool)
    requires Swept(a, b, refs, fails, off, n, change) && 0 < cap && (n > 0 ==> (off + n) % PAGE_SIZE == 0)
    requires (off + n) % PAGE_SIZE + cap <= PAGE_SIZE
    requires var p := (off + n) / PAGE_SIZE;
      Others(b, c, p) && p in c && (c[p].dirty <==>
        (change || (p in b && b[p].dirty)) && (p in refs || fails(p)))
    ensures Swept(a, c, refs, fails, off, n + cap, change)
  {
    var p := (off + n) / PAGE_SIZE;
    forall q: nat ensures Touched(off, n + cap, q) <==> q == p || Touched(off, n, q) { TouchedMore(off, n, cap, q); }
    assert !Touched(off, n, p) by { TouchedMore(off, n, cap, p); }
    hide Touched;
  }

  lemma TouchedMore(off: nat, n: nat, cap: nat, q: nat)
    requires 0 < cap && (n > 0 ==> (off + n) % PAGE_SIZE == 0) && (off + n) % PAGE_SIZE + cap <= PAGE_SIZE
    ensures Touched(off, n + cap, q) <==> q == (off + n) / PAGE_SIZE || Touched(off, n, q)
    ensures !Touched(off, n, (off + n) / PAGE_SIZE)
  {
  }

  /** A clean cache after a change means that nobody and nothing came in between. */
  lemma SweptClean(pages: Pages, pages': Pages, owed: set<nat>, dev: Bytes, refs: multiset<nat>, fails: nat -> bool,
                   off: nat, n: nat)
    requires Swept(pages, pages', refs, fails, off, n, true) && Settled(pages', owed, dev)
    ensures Undisturbed(refs, fails, off, n)
  {
    hide Touched, At, DevOff;
  }

  lemma LandsApart(dev: Bytes, p: nat, q: nat, data: Bytes)
    requires DevOff(p) < |dev| && |data| == PAGE_SIZE && DevOff(q) != DevOff(p)
    ensures At(Written(dev, p, data), DevOff(q)) == At(dev, DevOff(q))
  {
    var a, c := p % 0x10_0000, q % 0x10_0000;
    DevOffIs(p);
    DevOffIs(q);
    OverlayPages(dev, a, 0, data[..Span(DevOff(p), |dev|)], c);
  }

  lemma DevOffIs(p: nat)
    ensures DevOff(p) == p % 0x10_0000 * PAGE_SIZE
  {
    var q, k := p % 0x10_0000, p / 0x10_0000;
    assert p * PAGE_SIZE == q * PAGE_SIZE + k * WORD && q * PAGE_SIZE < WORD;
    ModIs(q * PAGE_SIZE, k);
  }

  /** Pages less than 4 GiB apart do not share a place on the device. */
  lemma OwnOff(p: nat, q: nat)
    requires p < q < p + 0x10_0000
    ensures DevOff(p) != DevOff(q)
  {
    ReducedApart(p * PAGE_SIZE, q * PAGE_SIZE);
  }

  lemma LandsAt(dev: Bytes, p: nat, mo: nat, b: Bytes, data: Bytes)
    requires b != [] && mo + |b| <= PAGE_SIZE && p * PAGE_SIZE + mo + |b| <= |dev| && DevOff(p) < |dev|
    requires var d := At(dev, DevOff(p)); data == d[..mo] + b + d[mo + |b|..]
    ensures At(Written(dev, p, data), DevOff(p)) == data
    ensures Scattered(dev, Written(dev, p, data), p * PAGE_SIZE + mo, b)
  {
    hide DevOff, Written, At, Lands, Scattered;
    HighOff(p);
    var off, at := p * PAGE_SIZE + mo, DevOff(p) + mo;
    forall j | 0 <= j < |b| ensures Lands(off, j) == at + j { LandsIs(p, mo, j); }
    PartWritten(dev, p, mo, b, data);
    PutTogether(dev, Written(dev, p, data), off, at, b);
  }

  lemma LandsIs(p: nat, mo: nat, j: nat)
    requires mo + j < PAGE_SIZE
    ensures Lands(p * PAGE_SIZE + mo, j) == DevOff(p) + mo + j
  {
    hide DevOff;
    ByteOff(p, mo + j);
    assert p * PAGE_SIZE + mo + j == p * PAGE_SIZE + (mo + j);
  }

  /** Bytes written side by side are scattered, if that is where they land. */
  lemma PutTogether(dev: Bytes, dev': Bytes, off: nat, at: nat, b: Bytes)
    requires at + |b| <= |dev| == |dev'| && forall j :: 0 <= j < |b| ==> Lands(off, j) == at + j
    requires forall i :: 0 <= i < |dev| ==> dev'[i] == if at <= i < at + |b| then b[i - at] else dev[i]
    ensures Scattered(dev, dev', off, b)
  {
    hide Lands;
    forall i: nat | at <= i < at + |b| ensures Hit(off, |b|, i) { assert Lands(off, i - at) == i; }
  }

  /** Of the page written back, only the part that was changed changes the device. */
  lemma PartWritten(dev: Bytes, p: nat, mo: nat, b: Bytes, data: Bytes)
    requires mo + |b| <= PAGE_SIZE && DevOff(p) + mo + |b| <= |dev| && DevOff(p) < |dev|
    requires var d := At(dev, DevOff(p)); data == d[..mo] + b + d[mo + |b|..]
    ensures |data| == PAGE_SIZE && |Written(dev, p, data)| == |dev| && At(Written(dev, p, data), DevOff(p)) == data
    ensures var at := DevOff(p) + mo; forall i :: 0 <= i < |dev| ==>
      Written(dev, p, data)[i] == if at <= i < at + |b| then b[i - at] else dev[i]
  {
    var at, w := DevOff(p), Written(dev, p, data);
    var part := data[..Span(at, |dev|)];
    forall i | 0 <= i < |dev| ensures w[i] == if at + mo <= i < at + mo + |b| then b[i - at - mo] else dev[i] {
      if at <= i < at + |part| { assert w[i] == part[i - at]; }
    }
  }

  // ----- the cache -----------------------------------------------------------------------------------------

  const LIMIT: nat := INT_MAX * PAGE_SIZE

  class BlockFile {
    var pages: Pages
    var lru: seq<nat>
    var dev: Bytes
    /** What the file should read as, the outstanding fetches, and the pages changed under one. */
    ghost var content: Bytes
    ghost var refs: multiset<nat>
    ghost var owed: set<nat>

    ghost predicate Valid()
      reads this
    {
      Inv(pages, lru, |content|, refs, owed) && |dev| == |content| <= LIMIT
    }

    /** The cache shows the flat file. */
    ghost predicate Right()
      reads this
    {
      Flat(pages, owed, dev, content)
    }

    /** It shows the device, as far as the device offsets are right, and has nothing to write. */
    ghost predicate Still()
      reads this
    {
      Settled(pages, owed, dev)
    }

    constructor (disk: Bytes)
      requires |disk| <= LIMIT
      ensures Valid() && Right() && Still()
      ensures content == disk && refs == multiset{} && owed == {} && pages == map[]
    {
      pages, lru, dev, content, refs, owed := map[], [], disk, disk, multiset{}, {};
    }

    /** ll_contains and ll_remove on the eviction list. */
    method Unlist(p: nat)
      requires forall i, j :: 0 <= i < j < |lru| ==> lru[i] != lru[j]
      modifies `lru
      ensures forall i, j :: 0 <= i < j < |lru| ==> lru[i] != lru[j]
      ensures forall x :: x in lru <==> x in old(lru) && x != p
      ensures Unlisted(old(lru), lru, p)
    {
      var i := 0;
      while i < |lru| && lru[i] != p
        invariant 0 <= i <= |lru| && lru == old(lru)
        invariant forall j :: 0 <= j < i ==> lru[j] != p
      {
        i := i + 1;
      }
      if i < |lru| {
        lru := lru[..i] + lru[i + 1..];
        assert old(lru) == lru[..i] + [p] + lru[i..];
      }
    }

    /** block_get */
    method Get(p: nat, create: bool) returns (found: bool)
      requires Valid()
      modifies `pages, `lru, `refs
      ensures Valid() && (old(Right()) ==> Right()) && (old(Still()) ==> Still())
      ensures found == (p in old(pages) || create)
      ensures refs == if found then old(refs) + multiset{p} else old(refs)
      ensures found ==> pages == old(pages)[p := if p in old(pages) then WithRcu(old(pages)[p], old(pages)[p].rcu + 1)
                                            else Page([], false, false, 1)]
      ensures !found ==> pages == old(pages) && lru == old(lru)
      ensures found ==> Unlisted(old(lru), lru, p)
    {
      hide Formed, RefsExact, Flat, Settled;
      ghost var l := lru;
      if p !in pages {
        if !create {
          return false;
        }
        Enters(pages, lru, dev, content, |content|, refs, owed, p);
        pages := pages[p := Page([], false, false, 1)];
      } else {
        Unlist(p);
        Holds(pages, l, lru, |content|, refs, owed, p);
        Counts(pages, owed, dev, content, p, pages[p].rcu + 1);
        pages := pages[p := WithRcu(pages[p], pages[p].rcu + 1)];
      }
      refs := refs + multiset{p};
      return true;
    }

    /** block_fill, in synchronous mode and without device errors. */
    method Fill(p: nat)
      requires Valid() && p in pages
      modifies `pages
      ensures Valid() && p in pages && pages == old(pages)[p := pages[p]] && pages[p].ready
      ensures pages[p].rcu == old(pages[p].rcu) && pages[p].dirty == old(pages[p].dirty)
      ensures pages[p].data == if old(pages[p].ready) then old(pages[p].data) else At(dev, DevOff(p))
      ensures old(Right()) ==> (Right() <==> old(pages[p].ready) || At(dev, DevOff(p)) == PageOf(dev, p))
      ensures old(Still()) ==> Still()
    {
      hide Inv, Flat, Settled, PageOf, At, DevOff;
      if pages[p].ready {
        return;
      }
      Fills(pages, lru, dev, content, |content|, refs, owed, p);
      pages := pages[p := Page(At(dev, DevOff(p)), true, pages[p].dirty, pages[p].rcu)];
    }

    /** block_writeback, in synchronous mode; `fails` says what the device makes of the write. */
    method Writeback(p: nat, fails: bool) returns (ok: bool)
      requires p in pages && p * PAGE_SIZE < |dev| && |pages[p].data| == PAGE_SIZE
      modifies `pages, `dev
      ensures DevOff(p) < |old(dev)| && (ok <==> !fails)
      ensures ok ==> dev == Written(old(dev), p, old(pages[p].data))
      ensures ok ==> pages == old(pages)[p := WithDirty(old(pages)[p], false)]
      ensures !ok ==> dev == old(dev) && pages == old(pages)
    {
      HighOff(p);
      var off, len := DevOff(p), PAGE_SIZE;
      if off + len > |dev| {
        len := |dev| - off;
      }
      if fails {
        return false;
      }
      dev := Overlay(dev, off, pages[p].data[..len]);
      pages := pages[p := WithDirty(pages[p], false)];
      return true;
    }

    /** block_rel: one reference less; the last one syncs the page and lists it for eviction. */
    method Rel(p: nat, fails: bool)
      requires Valid() && p in pages && p in refs && pages[p].ready && (pages[p].rcu == 1 ==> p !in owed)
      modifies `pages, `lru, `dev, `refs
      ensures Valid() && (old(Right()) ==> Right())
      ensures refs == old(refs) - multiset{p} && |dev| == old(|dev|)
      ensures p in pages && pages == old(pages)[p := pages[p]]
      ensures pages[p].ready && pages[p].rcu == old(pages[p].rcu) - 1 && pages[p].data == old(pages[p].data)
      ensures pages[p].dirty ==> old(pages[p].dirty)
      ensures old(Still()) ==> Still() && dev == old(dev)
      ensures MaybeWritten(old(dev), dev, p, old(pages[p].data))
      ensures old(pages[p].rcu) != 1 || !old(pages[p].dirty) ==>
        dev == old(dev) && pages[p].dirty == old(pages[p].dirty)
      // the last reference to a changed page writes it, if the device takes it
      ensures old(pages[p].rcu) == 1 && old(pages[p].dirty) && !fails ==>
        Saved(old(dev), dev, p, old(pages[p].data)) && !pages[p].dirty
      ensures old(pages[p].dirty) && fails ==> dev == old(dev) && pages[p].dirty
      ensures lru == if old(pages[p].rcu) == 1 && !pages[p].dirty then [p] + old(lru) else old(lru)
    {
      hide Inv, Flat, PageOf, At, Overlay, Written, DevOff;
      RefIs(pages, lru, |content|, refs, owed, p);
      StillClean(pages, owed, dev, p);
      hide Settled;
      ghost var rcu := pages[p].rcu;
      if rcu > 1 { Drops(pages, lru, |content|, refs, owed, p); }
      else if pages[p].dirty { LastDirty(pages, lru, |content|, refs, owed, p); }
      else { LastClean(pages, lru, |content|, refs, owed, p); }
      Counts(pages, owed, dev, content, p, pages[p].rcu - 1);
      pages := pages[p := WithRcu(pages[p], pages[p].rcu - 1)];
      refs := refs - multiset{p};
      if pages[p].rcu != 0 {
        return;
      }
      if pages[p].dirty {
        Cleans(pages, lru, dev, content, refs, owed, p);
        DirtyIn(pages, lru, |content|, refs, owed, p);
        var ok := Writeback(p, fails);
      }
      if !pages[p].dirty {
        lru := [p] + lru;
      }
    }

    /** block_scavenge: up to `max` pages leave, oldest first. Each was clean and unreferenced. */
    method Scavenge(max: int)
      requires Valid()
      modifies `pages, `lru
      ensures Valid() && (old(Right()) ==> Right()) && (old(Still()) ==> Still()) && lru <= old(lru)
      ensures |old(lru)| - |lru| == if max <= 0 then 0 else if max <= |old(lru)| then max else |old(lru)|
      ensures forall p :: p in old(pages) && p !in pages ==>
        old(pages)[p].rcu == 0 && !old(pages)[p].dirty && p !in owed
      ensures forall p :: p in pages ==> p in old(pages) && pages[p] == old(pages)[p]
    {
      hide Inv, Flat, Settled;
      var left := max;
      while left > 0
        invariant Valid() && (old(Right()) ==> Right()) && (old(Still()) ==> Still()) && lru <= old(lru)
        invariant left <= max && (max > 0 ==> left >= 0) && (max > 0 ==> |old(lru)| - |lru| == max - left)
        invariant max <= 0 ==> lru == old(lru)
        invariant forall p :: p in old(pages) && p !in pages ==>
          old(pages)[p].rcu == 0 && !old(pages)[p].dirty && p !in owed
        invariant forall p :: p in pages ==> p in old(pages) && pages[p] == old(pages)[p]
      {
        if lru == [] {
          break;
        }
        Evicts(pages, lru, dev, content, |content|, refs, owed);
        var p := lru[|lru| - 1];
        lru := lru[..|lru| - 1];
        pages := pages - {p};
        left := left - 1;
      }
    }

    /** block_fetch of page `p`; the file is within the offsets it accepts. A cache that shows the file
        goes on to do so, if and only if the page was there or is read from its own place. */
    method Fetch(p: nat, blocking: bool) returns (found: bool)
      requires Valid() && p < INT_MAX
      modifies `pages, `lru, `refs
      ensures Valid() && found == (p in old(pages) || blocking)
      ensures refs == if found then old(refs) + multiset{p} else old(refs)
      ensures found ==> p in pages && pages[p].ready && |pages[p].data| == PAGE_SIZE
      ensures found ==> (pages[p].dirty <==> p in old(pages) && old(pages)[p].dirty) && Unlisted(old(lru), lru, p)
      ensures !found ==> lru == old(lru)
      ensures Others(old(pages), pages, p)
      ensures old(Right()) ==>
        (Right() <==> !found || (p in old(pages) && old(pages)[p].ready) || At(dev, DevOff(p)) == PageOf(dev, p))
      ensures found && Right() ==> pages[p].data == PageOf(content, p)
      ensures old(Still()) ==> Still() && (found ==> pages[p].data == At(dev, DevOff(p)))
    {
      hide Inv, Flat, Settled, PageOf, At, DevOff, Unlisted;
      found := Get(p, blocking);
      if !found {
        return;
      }
      Fill(p);
      ReadyIs(pages, lru, dev, content, |content|, refs, owed, p);
    }

    /** The page is fetched again and said to have changed, or not. */
    method Mark(p: nat, dirty: bool)
      requires Valid() && p in refs && p in pages && pages[p].ready && (dirty ==> p * PAGE_SIZE < |content|)
      modifies `pages, `lru, `refs, `owed
      ensures Valid() && (old(Right()) && (dirty ==> Low(p)) ==> Right()) && (old(Still()) && !dirty ==> Still())
      ensures refs == old(refs) + multiset{p} && owed == if dirty then old(owed) - {p} else old(owed)
      ensures p in pages && pages[p].ready && pages[p].data == old(pages[p].data) && pages[p].rcu == refs[p] > 1
      ensures pages == old(pages)[p := pages[p]] && (pages[p].dirty <==> dirty || old(pages[p].dirty))
      ensures lru == old(lru)
    {
      hide Inv, Flat, Settled, PageOf;
      HeldUnlisted(pages, lru, |content|, refs, owed, p);
      var found := Get(p, false);
      RefIs(pages, lru, |content|, refs, owed, p);
      if dirty {
        Marks(pages, lru, dev, content, refs, owed, p);
        pages := pages[p := WithDirty(pages[p], true)];
        owed := owed - {p};
      }
    }

    /** block_release of page `p`, fetched before. Whoever changed the page says so at the latest with
        the last release. */
    method Release(p: nat, dirty: bool, fails: bool)
      requires Valid() && p in refs && p in pages && pages[p].ready
      requires (dirty ==> p * PAGE_SIZE < |content|) && (p in owed && refs[p] == 1 ==> dirty)
      modifies `pages, `lru, `dev, `refs, `owed
      ensures Valid() && refs == old(refs) - multiset{p} && |dev| == old(|dev|)
      ensures owed == if dirty then old(owed) - {p} else old(owed)
      ensures old(Right()) && (dirty ==> Low(p)) ==> Right()
      ensures old(Still()) && !dirty ==> Still() && dev == old(dev)
      // at most the page itself is written, at its device offset
      ensures MaybeWritten(old(dev), dev, p, old(pages[p].data))
      ensures p in pages && pages == old(pages)[p := pages[p]] && pages[p].data == old(pages[p].data)
      // a changed page is written with the last reference to it, if the device takes it
      ensures pages[p].dirty <==> (dirty || old(pages[p].dirty)) && (old(refs[p]) != 1 || fails)
      ensures if (dirty || old(pages[p].dirty)) && !pages[p].dirty then Saved(old(dev), dev, p, old(pages[p].data))
              else dev == old(dev)
      ensures lru == if old(refs[p]) == 1 && !pages[p].dirty then [p] + old(lru) else old(lru)
    {
      hide Valid, Right, Still, MaybeWritten, Saved;
      Mark(p, dirty);
      OneLess(old(refs), p);
      Rel(p, fails);
      Rel(p, fails);
    }

    /** A holder of page `p` writes to its memory. */
    method Poke(p: nat, mo: nat, b: Bytes)
      requires Valid() && p in refs && p in pages && pages[p].ready
      requires mo + |b| <= PAGE_SIZE && p * PAGE_SIZE + mo + |b| <= |content|
      modifies `pages, `content, `owed
      ensures Valid() && content == Overlay(old(content), p * PAGE_SIZE + mo, b) && owed == old(owed) + {p}
      ensures pages == old(pages)[p := pages[p]] && pages[p].ready && |content| == |old(content)|
      ensures var d := old(pages[p].data); |d| == PAGE_SIZE && pages[p].data == d[..mo] + b + d[mo + |b|..]
      ensures old(Right()) && Low(p) ==> Right()
    {
      hide Inv, Flat, PageOf, At;
      Pokes(pages, lru, dev, content, refs, owed, p, mo, b);
      OverlaySize(content, p * PAGE_SIZE + mo, b);
      pages := pages[p := Poked(pages[p], mo, b)];
      content := Overlay(content, p * PAGE_SIZE + mo, b);
      owed := owed + {p};
    }

    /** One turn of block_read: part of one page. */
    method ReadPart(p: nat, mo: nat, cap: nat, fails: bool) returns (part: Bytes)
      requires Valid() && mo < PAGE_SIZE && mo + cap <= PAGE_SIZE && 0 < cap && p * PAGE_SIZE + mo + cap <= |content|
      modifies `pages, `lru, `dev, `refs, `owed
      ensures Valid() && refs == old(refs) && owed == old(owed) && |dev| == old(|dev|) && |part| == cap
      ensures old(Right()) && Low(p) ==> Right() && part == content[p * PAGE_SIZE + mo..p * PAGE_SIZE + mo + cap]
      ensures old(Still()) ==> Still() && dev == old(dev) && part == Wrapped(dev, p * PAGE_SIZE + mo, cap)
      ensures p in pages && Others(old(pages), pages, p)
      ensures pages[p].dirty <==> p in old(pages) && old(pages)[p].dirty && (p in old(refs) || fails)
      ensures if p !in old(refs) && !pages[p].dirty then Newest(old(lru), lru, p) else Unlisted(old(lru), lru, p)
    {
      hide Inv, Flat, Settled, PageOf, At, DevOff, Wrapped, Unlisted, Newest, Others, MaybeWritten, Saved;
      OwedHeld(pages, lru, |content|, refs, owed, p);
      if Low(p) { OwnPlace(dev, p); }
      var found := Fetch(p, true);
      PagePart(content, p, mo, cap);
      WrappedPart(dev, p, mo, cap);
      part := pages[p].data[mo..mo + cap];
      assert p in refs;
      NewestFirst(old(lru), lru, p);
      NoLastOwed(pages, lru, |content|, refs, old(refs), owed, p);
      ghost var was := pages;
      Release(p, false, fails);
      OthersOn(old(pages), was, pages, p);
      assert refs == old(refs);
    }

    /** block_read. A range that ends within 4 GiB reads as what the flat file holds, up to its end; past
        the end it is an error. With nothing pending, every byte is that of its offset reduced to 32 bits. */
    method Read(off: nat, len: nat, fails: nat -> bool) returns (ok: bool, buf: Bytes)
      requires Valid()
      modifies `pages, `lru, `dev, `refs, `owed
      ensures Valid() && refs == old(refs) && owed == old(owed) && |dev| == old(|dev|)
      ensures ok <==> off <= |content|
      ensures ok ==> |buf| == Min(len, |content| - off)
      ensures old(Right()) && ok && off + |buf| <= WORD ==> Right() && buf == content[off..off + |buf|]
      ensures old(Still()) && ok ==> Still() && dev == old(dev) && buf == Wrapped(dev, off, |buf|)
      ensures ok ==> Swept(old(pages), pages, refs, fails, off, |buf|, false)
    {
      hide Inv, Flat, Settled, Wrapped, Swept, Others;
      buf := [];
      if off > |dev| {
        return false, buf;
      }
      var o, left := off, len;
      WrappedNone(dev, off);
      SweptNone(pages, refs, fails, off, false);
      while left > 0
        invariant Valid() && refs == old(refs) && owed == old(owed) && |dev| == old(|dev|)
        invariant off <= o <= |content| && o + left == off + len && |buf| == o - off
        invariant old(Right()) && o <= WORD ==> Right() && buf == content[off..o]
        invariant old(Still()) ==> Still() && dev == old(dev) && buf == Wrapped(dev, off, o - off)
        invariant Swept(old(pages), pages, refs, fails, off, o - off, false)
        invariant o == off || o == |content| || left == 0 || o % PAGE_SIZE == 0
        decreases left
      {
        ghost var was := pages;
        var p, mo := o / PAGE_SIZE, o % PAGE_SIZE;
        var cap := Min(left, Min(PAGE_SIZE - mo, |dev| - o));
        if cap == 0 {
          break;
        }
        LowBefore(p, mo, cap);
        var part := ReadPart(p, mo, cap, fails(p));
        SweptMore(old(pages), was, pages, refs, fails, off, o - off, cap, false);
        PageDone(o, cap, left, |content|);
        WrappedMore(dev, off, o - off, cap);
        SliceMore(content, off, o, cap);
        buf := buf + part;
        left := left - cap;
        o := o + cap;
      }
      return true, buf;
    }

    /** vfs_truncate to a larger size, which the driver may refuse. */
    method Grow(n: nat, refused: bool) returns (ok: bool)
      requires Valid() && |dev| < n <= LIMIT
      modifies `dev, `content
      ensures Valid() && content == if ok then Grown(old(content), n) else old(content)
      ensures (ok <==> !refused) && (ok ==> |content| == n)
      ensures old(Right()) ==> Right()
      ensures dev == if ok then Grown(old(dev), n) else old(dev)
      ensures old(Still()) ==> Still()
    {
      hide Inv, Flat, Settled;
      if refused {
        return false;
      }
      Grows(pages, lru, dev, content, refs, owed, n);
      GrowsStill(pages, owed, dev, n);
      dev := Grown(dev, n);
      content := Grown(content, n);
      return true;
    }

    /** One turn of block_write: part of one page. */
    method WritePart(p: nat, mo: nat, b: Bytes, fails: bool)
      requires Valid() && mo < PAGE_SIZE && mo + |b| <= PAGE_SIZE && b != [] && p * PAGE_SIZE + mo + |b| <= |content|
      modifies this
      ensures Valid() && refs == old(refs) && |dev| == old(|dev|)
      ensures content == Overlay(old(content), p * PAGE_SIZE + mo, b) && |content| == |old(content)|
      ensures old(Right()) && Low(p) ==> Right()
      ensures p in pages && Others(old(pages), pages, p)
      ensures pages[p].dirty <==> p in old(refs) || fails
      ensures if !pages[p].dirty then Newest(old(lru), lru, p) else Unlisted(old(lru), lru, p)
      ensures old(Still()) && old(Unshared(pages, p)) && !pages[p].dirty ==>
        Still() && Scattered(old(dev), dev, p * PAGE_SIZE + mo, b)
    {
      hide Inv, Flat, Settled, PageOf, At, DevOff, Overlay, Unshared, Scattered, Unlisted, Newest;
      if Low(p) { OwnPlace(dev, p); }
      var found := Fetch(p, true);
      assert p in refs;
      NewestFirst(old(lru), lru, p);
      Poke(p, mo, b);
      Release(p, true, fails);
      assert refs == old(refs);
      if old(Still()) && old(Unshared(pages, p)) && !pages[p].dirty {
        NoneOwed(old(pages), old(owed), old(dev));
        Settles(old(pages), pages, old(dev), p, mo, b);
      }
    }

    /** The loop of block_write, on a file that holds the range. */
    method WriteRange(off: nat, buf: Bytes, fails: nat -> bool) returns (r: nat)
      requires Valid() && off + |buf| <= |content| && |buf| <= INT_MAX
      modifies this
      ensures Valid() && refs == old(refs) && r == |buf| && content == Overlay(old(content), off, buf)
      ensures old(Right()) && off + |buf| <= WORD ==> Right()
      ensures Swept(old(pages), pages, refs, fails, off, |buf|, true)
      ensures old(Still()) && old(Unaliased(pages, off, |buf|)) ==>
        && (Still() <==> Undisturbed(refs, fails, off, |buf|))
        && (Still() ==> Scattered(old(dev), dev, off, buf))
    {
      hide Inv, Flat, Overlay, Settled, Unaliased, Unshared, Scattered, Others, Swept, Undisturbed, Unlisted, Newest,
        Low, Right;
      ghost var f, d := content, dev;
      ghost var alone := Still() && Unaliased(pages, off, |buf|) && Undisturbed(refs, fails, off, |buf|);
      var o, done := off, 0;
      SweptNone(pages, refs, fails, off, true);
      OverlayNone(f, off);
      ScatteredNone(d, off);
      while done < |buf|
        invariant Valid() && refs == old(refs) && |content| == |f|
        invariant 0 <= done <= |buf| && o == off + done && content == Overlay(f, off, buf[..done])
        invariant old(Right()) && off + |buf| <= WORD ==> Right()
        invariant alone ==> Still() && Unaliased(pages, o, |buf| - done) && Scattered(d, dev, off, buf[..done])
        invariant Swept(old(pages), pages, refs, fails, off, done, true)
        invariant done == 0 || done == |buf| || o % PAGE_SIZE == 0
        decreases |buf| - done
      {
        ghost var was, mid := pages, dev;
        var p, mo := o / PAGE_SIZE, o % PAGE_SIZE;
        var cap := Min(|buf| - done, Min(PAGE_SIZE - mo, |dev| - o));
        LowBefore(p, mo, cap);
        if alone {
          UnsharedHere(pages, o, |buf| - done);
          UndisturbedHere(refs, fails, off, |buf|, done);
        }
        WritePart(p, mo, buf[done..done + cap], fails(p));
        OverlayMore(f, off, buf, done, cap);
        SweptMore(old(pages), was, pages, refs, fails, off, done, cap, true);
        PageDone(o, cap, |buf| - done, |dev|);
        if alone {
          UnaliasedOn(was, pages, o, |buf| - done, cap);
          ScatteredMore(d, mid, dev, off, buf, done, cap);
        }
        done := done + cap;
        o := o + cap;
      }
      if Still() { SweptClean(old(pages), pages, owed, dev, refs, fails, off, |buf|); }
      assert buf[..done] == buf;
      return done;
    }

    /** block_write. The flat file grows with zeros if it has to, then holds the bytes written; the cache
        shows it if the range ends within 4 GiB. */
    method Write(off: nat, buf: Bytes, fails: nat -> bool, refused: bool) returns (r: int)
      requires Valid() && off + |buf| <= LIMIT && |buf| <= INT_MAX
      modifies this
      ensures Valid() && refs == old(refs)
      ensures r == if |old(content)| < off + |buf| && refused then -1 else |buf|
      ensures r == -1 ==>
        content == old(content) && dev == old(dev) && pages == old(pages) && (old(Right()) ==> Right())
      ensures r != -1 ==> content == Overlay(Grown(old(content), off + |buf|), off, buf)
      ensures old(Right()) && off + |buf| <= WORD ==> Right()
      // the pages of the range are left to write exactly if others hold them or the device fails
      ensures r != -1 ==> Swept(old(pages), pages, refs, fails, off, |buf|, true)
      // with nothing pending before, nothing is after, if and only if none was held and no write fails; then
      // every byte reaches its offset reduced to 32 bits, and no other changes
      ensures r != -1 && old(Still()) && old(Unaliased(pages, off, |buf|)) ==>
        && (Still() <==> Undisturbed(refs, fails, off, |buf|))
        && (Still() ==> Scattered(Grown(old(dev), off + |buf|), dev, off, buf))
    {
      hide Inv, Flat, Overlay, Settled, Unaliased, Scattered, Swept, Undisturbed;
      if |dev| < off + |buf| {
        var ok := Grow(off + |buf|, refused);
        if !ok {
          return -1;
        }
      }
      r := WriteRange(off, buf, fails);
    }
  }

  function Min(a: nat, b: nat): nat { if a <= b then a else b }

  /** A turn of the loops ends the page, or the range, or the file. */
  lemma PageDone(o: nat, cap: nat, left: nat, n: nat)
    requires o <= n && cap == Min(left, Min(PAGE_SIZE - o % PAGE_SIZE, n - o))
    ensures (o + cap) % PAGE_SIZE == 0 || cap == left || o + cap == n
  {
  }

  lemma UndisturbedHere(refs: multiset<nat>, fails: nat -> bool, off: nat, n: nat, done: nat)
    requires Undisturbed(refs, fails, off, n) && done < n
    ensures var p := (off + done) / PAGE_SIZE; p !in refs && !fails(p)
  {
    assert Touched(off, n, (off + done) / PAGE_SIZE);
  }

  lemma HeldUnlisted(pages: Pages, lru: seq<nat>, n: nat, refs: multiset<nat>, owed: set<nat>, p: nat)
    requires Inv(pages, lru, n, refs, owed) && p in refs
    ensures p !in lru
  {
  }

  lemma OwedHeld(pages: Pages, lru: seq<nat>, n: nat, refs: multiset<nat>, owed: set<nat>, p: nat)
    requires Inv(pages, lru, n, refs, owed)
    ensures p in owed ==> p in refs
  {
  }

  lemma OwnPlace(dev: Bytes, p: nat)
    requires Low(p)
    ensures At(dev, DevOff(p)) == PageOf(dev, p)
  {
    LowOff(p);
  }

  lemma LowBefore(p: nat, mo: nat, cap: nat)
    requires cap > 0 && mo + cap <= PAGE_SIZE
    ensures p * PAGE_SIZE + mo + cap <= WORD ==> Low(p)
  {
  }

  lemma StillClean(pages: Pages, owed: set<nat>, dev: Bytes, p: nat)
    requires p in pages
    ensures Settled(pages, owed, dev) ==> !pages[p].dirty
  {
  }

  lemma NoneOwed(pages: Pages, owed: set<nat>, dev: Bytes)
    requires Settled(pages, owed, dev)
    ensures owed == {}
  {
  }

  lemma DirtyIn(pages: Pages, lru: seq<nat>, n: nat, refs: multiset<nat>, owed: set<nat>, p: nat)
    requires Inv(pages, lru, n, refs, owed) && p in pages && pages[p].dirty
    ensures p * PAGE_SIZE < n && |pages[p].data| == PAGE_SIZE
  {
  }

  lemma OverlayNone(f: Bytes, off: nat)
    requires off <= |f|
    ensures Overlay(f, off, []) == f
  {
  }

  lemma OverlayMore(f: Bytes, off: nat, b: Bytes, done: nat, cap: nat)
    requires off + |b| <= |f| && done + cap <= |b|
    ensures |Overlay(f, off, b[..done])| == |f|
    ensures Overlay(Overlay(f, off, b[..done]), off + done, b[done..done + cap]) == Overlay(f, off, b[..done + cap])
  {
  }

  lemma SliceMore(f: Bytes, off: nat, o: nat, cap: nat)
    requires off <= o && o + cap <= |f|
    ensures f[off..o] + f[o..o + cap] == f[off..o + cap]
  {
  }

  lemma WrappedNone(dev: Bytes, off: nat)
    requires off <= |dev|
    ensures Wrapped(dev, off, 0) == []
  {
  }

  lemma WrappedMore(dev: Bytes, off: nat, n: nat, cap: nat)
    requires off + n + cap <= |dev|
    ensures Wrapped(dev, off, n) + Wrapped(dev, off + n, cap) == Wrapped(dev, off, n + cap)
  {
    var u, w := Wrapped(dev, off + n, cap), Wrapped(dev, off, n + cap);
    forall i | 0 <= i < cap ensures u[i] == w[n + i] { assert off + n + i == off + (n + i); }
  }

  /** The part of a page that a read copies. */
  lemma WrappedPart(dev: Bytes, p: nat, mo: nat, cap: nat)
    requires mo + cap <= PAGE_SIZE && p * PAGE_SIZE + mo + cap <= |dev|
    ensures |At(dev, DevOff(p))| == PAGE_SIZE
    ensures At(dev, DevOff(p))[mo..mo + cap] == Wrapped(dev, p * PAGE_SIZE + mo, cap)
  {
    HighOff(p);
    var u, w := At(dev, DevOff(p))[mo..mo + cap], Wrapped(dev, p * PAGE_SIZE + mo, cap);
    forall i | 0 <= i < cap ensures u[i] == w[i] {
      ByteOff(p, mo + i);
      assert p * PAGE_SIZE + (mo + i) == p * PAGE_SIZE + mo + i;
    }
  }

  lemma PagePart(f: Bytes, p: nat, mo: nat, cap: nat)
    requires mo + cap <= PAGE_SIZE && p * PAGE_SIZE + mo + cap <= |f|
    ensures |PageOf(f, p)| == PAGE_SIZE && PageOf(f, p)[mo..mo + cap] == f[p * PAGE_SIZE + mo..p * PAGE_SIZE + mo + cap]
  {
  }

  /** A page changed by an earlier holder is still held by that holder. */
  lemma NoLastOwed(pages: Pages, lru: seq<nat>, n: nat, refs: multiset<nat>, before: multiset<nat>,
                   owed: set<nat>, p: nat)
    requires Inv(pages, lru, n, refs, owed) && refs == before + multiset{p}
    requires p in owed ==> p in before
    ensures p in owed ==> refs[p] > 1
  {
  }

  lemma RefIs(pages: Pages, lru: seq<nat>, n: nat, refs: multiset<nat>, owed: set<nat>, p: nat)
    requires Inv(pages, lru, n, refs, owed) && p in pages
    ensures pages[p].rcu == refs[p] && (p in owed ==> pages[p].rcu > 0)
    ensures pages[p].ready ==> |pages[p].data| == PAGE_SIZE
  {
  }

  lemma ReadyIs(pages: Pages, lru: seq<nat>, dev: Bytes, f: Bytes, n: nat, refs: multiset<nat>, owed: set<nat>, p: nat)
    requires Inv(pages, lru, n, refs, owed) && p in pages && pages[p].ready
    ensures |pages[p].data| == PAGE_SIZE
    ensures Flat(pages, owed, dev, f) ==> pages[p].data == PageOf(f, p)
    ensures Settled(pages, owed, dev) ==> pages[p].data == At(dev, DevOff(p))
  {
  }

  lemma OneLess(refs: multiset<nat>, p: nat)
    ensures refs + multiset{p} - multiset{p} == refs
  {
  }

  lemma OverlaySize(f: Bytes, off: nat, b: Bytes)
    requires off + |b| <= |f|
    ensures |Overlay(f, off, b)| == |f|
  {
  }
}
