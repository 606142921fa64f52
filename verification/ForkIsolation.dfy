/** Copy-on-write memory behaves as if every fork copied its parent's pages at once.

    The reference machine below has no frames, no sharing and no page table: each covered page
    of each space simply holds its own bytes. Every run of the paging code refines it. */
module ForkIsolation {
  import opened Machine
  import opened Protection
  import opened CopyOnWrite

  /** The reference machine. */
  datatype Memory = Memory(vma: map<Key, Vma>, bytes: map<Key, Page>)

  ghost function Abs(st: State): Memory
    requires Placed(st)
  {
    Memory(st.vma, View(st))
  }

  datatype Op =
    | Create(space: Space)
    | Map(s: Space, base: nat, n: nat, v: Vma)
    | Unmap(s: Space, base: nat, n: nat)
    | Protect(s: Space, base: nat, n: nat, r: Rights)
    | Clone(parent: Space, child: Space, pages: seq<nat>)  // the parent's pages, in visiting order
    | Read(k: Key, fresh_: Frame)
    | Write(k: Key, off: nat, b: bv8, fresh_: Frame)

  function RangeKeys(s: Space, base: nat, n: nat): set<Key> {
    set p | base <= p < base + n :: Key(s, p)
  }

  // ----- the reference steps -----------------------------------------------------------------

  /** What a fork puts in a copied page: its bytes if the area is copy-on-write, else zeros. */
  function Inherited(m: Memory): map<Key, Page> {
    map k | k in m.vma && k in m.bytes :: if m.vma[k].cow then m.bytes[k] else ZeroPage()
  }

  /** The entries of `parent`, under the same page numbers in `child`. */
  function Moved<T>(m: map<Key, T>, parent: Space, child: Space): map<Key, T> {
    map k | k in m && k.space == parent :: Key(child, k.page) := m[k]
  }

  ghost function RefStep(m: Memory, op: Op): Memory {
    match op
    case Create(s) => m
    case Map(s, base, n, v) =>
      Memory(m.vma + (map k | k in RangeKeys(s, base, n) :: v),
             m.bytes + (map k | k in RangeKeys(s, base, n) :: ZeroPage()))
    case Unmap(s, base, n) =>
      Memory(m.vma - RangeKeys(s, base, n), m.bytes - RangeKeys(s, base, n))
    case Protect(s, base, n, r) =>
      Memory(map k | k in m.vma :: if k in RangeKeys(s, base, n) then Vma(m.vma[k].cow, r) else m.vma[k], m.bytes)
    case Clone(parent, child, _) =>
      Memory(m.vma + Moved(m.vma, parent, child), m.bytes + Moved(Inherited(m), parent, child))
    case Read(k, _) => m
    case Write(k, off, b, _) =>
      if k in m.vma && k in m.bytes && m.vma[k].rights.wr && off < |m.bytes[k].bytes|
      then Memory(m.vma, m.bytes[k := Page(m.bytes[k].bytes[off := b])])
      else m
  }

  // ----- the steps of the paging code ----------------------------------------------------------

  function AddSpace(st: State, s: Space): State {
    State(st.vma, st.pt, st.share, st.frames, st.pSize[s := 0], st.sSize[s := 0])
  }

  function MapRange(st: State, s: Space, base: nat, n: nat, v: Vma): State
    decreases n
  {
    if n == 0 then st else MapRange(MapPage(st, Key(s, base), v), s, base + 1, n - 1, v)
  }

  function DropRange(st: State, s: Space, base: nat, n: nat): State
    decreases n
  {
    if n == 0 || !Covered(st, Key(s, base)) then st
    else DropRange(DropPage(st, Key(s, base)), s, base + 1, n - 1)
  }

  function ProtectRange(st: State, s: Space, base: nat, n: nat, r: Rights): State
    decreases n
  {
    if n == 0 || Key(s, base) !in st.vma then st
    else ProtectRange(ProtectPage(st, Key(s, base), r), s, base + 1, n - 1, r)
  }

  function ClonePages(st: State, parent: Space, child: Space, pages: seq<nat>): State
    decreases |pages|
  {
    if pages == [] || !Covered(st, Key(parent, pages[0])) || child !in st.pSize || child !in st.sSize then st
    else ClonePages(ClonePage(st, Key(parent, pages[0]), Key(child, pages[0])), parent, child, pages[1..])
  }

  /** The fault a load takes, if any. */
  function Load(st: State, k: Key, f: Frame): State {
    if Covered(st, k) && k !in st.pt then FaultMissing(st, k, f) else st
  }

  /** The fault a store takes, if any: none, a missing page, or a page it may not write. */
  function Open(st: State, k: Key, f: Frame): State {
    if !Covered(st, k) then st
    else if k !in st.pt then FaultMissing(st, k, f)
    else if !st.pt[k].rights.wr && st.pt[k].frame in st.share && st.pt[k].frame in st.frames then FaultWrite(st, k, f)
    else st
  }

  function Store(st: State, k: Key, off: nat, b: bv8, f: Frame): State {
    if !Covered(st, k) || !st.vma[k].rights.wr then st
    else
      var st' := Open(st, k, f);
      if k in st'.pt && st'.pt[k].frame in st'.frames && off < |st'.frames[st'.pt[k].frame].bytes|
      then PutByte(st', k, off, b) else st'
  }

  function Step(st: State, op: Op): State {
    match op
    case Create(s) => AddSpace(st, s)
    case Map(s, base, n, v) => MapRange(st, s, base, n, v)
    case Unmap(s, base, n) => DropRange(st, s, base, n)
    case Protect(s, base, n, r) => ProtectRange(st, s, base, n, r)
    case Clone(parent, child, pages) => ClonePages(AddSpace(st, child), parent, child, pages)
    case Read(k, f) => Load(st, k, f)
    case Write(k, off, b, f) => Store(st, k, off, b, f)
  }

  /** What the callers guarantee: areas are free when created and whole when removed or protected,
      only copy-on-write areas are protected, a clone visits each page of its parent once, and
      page_new hands out a frame that is not out (module PageZones). */
  ghost predicate Legal(st: State, op: Op) {
    match op
    case Create(s) => s !in st.pSize && s !in st.sSize
    case Map(s, base, n, v) => s in st.pSize && RangeKeys(s, base, n) !! st.vma.Keys
    case Unmap(s, base, n) => RangeKeys(s, base, n) <= st.vma.Keys
    case Protect(s, base, n, r) =>
      RangeKeys(s, base, n) <= st.vma.Keys && forall k :: k in RangeKeys(s, base, n) ==> st.vma[k].cow
    case Clone(parent, child, pages) =>
      && parent in st.pSize && child !in st.pSize && child !in st.sSize
      && (forall i, j :: 0 <= i < j < |pages| ==> pages[i] != pages[j])
      && (forall p :: p in pages <==> Key(parent, p) in st.vma)
    case Read(k, f) => f !in st.frames
    case Write(k, off, b, f) => f !in st.frames && off < PAGE_SIZE
  }

  // ----- every step refines its reference step -----------------------------------------------

  lemma EmptySpaceCount(pt: map<Key, Entry>, share: set<Frame>, s: Space, shared: bool)
    requires forall k :: k in pt ==> k.space != s
    ensures PageCount(pt, share, s, shared) == 0
  {
    assert (set k | k in pt && k.space == s && (pt[k].frame in share) == shared) == {};
  }

  lemma AddSpaceSound(st: State, s: Space)
    requires Inv(st) && s !in st.pSize && s !in st.sSize
    ensures Inv(AddSpace(st, s)) && Abs(AddSpace(st, s)) == Abs(st)
  {
    hide PageCount, MapCount;
    EmptySpaceCount(st.pt, st.share.Keys, s, false);
    EmptySpaceCount(st.pt, st.share.Keys, s, true);
    hide CountsExact, RightsAgree;
  }

  lemma RangeSplit(s: Space, base: nat, n: nat)
    ensures n == 0 ==> RangeKeys(s, base, n) == {}
    ensures n > 0 ==>
      && Key(s, base) in RangeKeys(s, base, n) && Key(s, base) !in RangeKeys(s, base + 1, n - 1)
      && RangeKeys(s, base, n) == {Key(s, base)} + RangeKeys(s, base + 1, n - 1)
  {
    assert n > 0 ==> Key(s, base) in RangeKeys(s, base, n);
  }

  lemma DropKeys<T>(m: map<Key, T>, k: Key, rest: set<Key>)
    ensures m - {k} - rest == m - ({k} + rest)
  {
  }

  lemma PutKeys<T>(m: map<Key, T>, k: Key, rest: set<Key>, x: T)
    ensures m[k := x] + (map q | q in rest :: x) == m + (map q | q in {k} + rest :: x)
  {
  }

  lemma CoveredKey(st: State, k: Key)
    requires Placed(st) && k in st.vma
    ensures Covered(st, k)
  {
  }

  lemma {:induction false} MapRangeSound(st: State, s: Space, base: nat, n: nat, v: Vma)
    requires Inv(st) && s in st.pSize && RangeKeys(s, base, n) !! st.vma.Keys
    ensures Inv(MapRange(st, s, base, n, v))
    ensures MapRange(st, s, base, n, v).vma == st.vma + (map k | k in RangeKeys(s, base, n) :: v)
    ensures View(MapRange(st, s, base, n, v)) == View(st) + (map k | k in RangeKeys(s, base, n) :: ZeroPage())
    decreases n
  {
    hide CountsExact, SizesExact, RightsAgree, Placed, View, RangeKeys;
    RangeSplit(s, base, n);
    if n > 0 {
      var k := Key(s, base);
      MapPageSound(st, k, v);
      MapRangeSound(MapPage(st, k, v), s, base + 1, n - 1, v);
      PutKeys(st.vma, k, RangeKeys(s, base + 1, n - 1), v);
      PutKeys(View(st), k, RangeKeys(s, base + 1, n - 1), ZeroPage());
    }
  }

  lemma {:induction false} DropRangeSound(st: State, s: Space, base: nat, n: nat)
    requires Inv(st) && RangeKeys(s, base, n) <= st.vma.Keys
    ensures Inv(DropRange(st, s, base, n))
    ensures DropRange(st, s, base, n).vma == st.vma - RangeKeys(s, base, n)
    ensures View(DropRange(st, s, base, n)) == View(st) - RangeKeys(s, base, n)
    decreases n
  {
    hide CountsExact, SizesExact, RightsAgree, View, DropPage, Placed, Covered, RangeKeys;
    RangeSplit(s, base, n);
    if n > 0 {
      var k := Key(s, base);
      CoveredKey(st, k);
      DropPageSound(st, k);
      DropRangeSound(DropPage(st, k), s, base + 1, n - 1);
      DropKeys(st.vma, k, RangeKeys(s, base + 1, n - 1));
      DropKeys(View(st), k, RangeKeys(s, base + 1, n - 1));
    }
  }

  lemma {:induction false} ProtectRangeSound(st: State, s: Space, base: nat, n: nat, r: Rights)
    requires Inv(st) && RangeKeys(s, base, n) <= st.vma.Keys
    requires forall k :: k in RangeKeys(s, base, n) ==> st.vma[k].cow
    ensures Inv(ProtectRange(st, s, base, n, r))
    ensures ProtectRange(st, s, base, n, r).vma
         == map k | k in st.vma :: if k in RangeKeys(s, base, n) then Vma(st.vma[k].cow, r) else st.vma[k]
    ensures View(ProtectRange(st, s, base, n, r)) == View(st)
    decreases n
  {
    hide CountsExact, SizesExact, RightsAgree, Placed, View, RangeKeys;
    RangeSplit(s, base, n);
    if n > 0 {
      ProtectPageSound(st, Key(s, base), r);
      ProtectRangeSound(ProtectPage(st, Key(s, base), r), s, base + 1, n - 1, r);
    }
  }

  /** `st'` is `st` with the pages `pages` of `parent` copied to `child`. */
  ghost predicate Copied(st: State, st': State, parent: Space, child: Space, pages: seq<nat>)
    requires Placed(st) && Placed(st')
    requires forall p :: p in pages ==> Key(parent, p) in st.vma
  {
    && (forall k :: k in st'.vma <==> k in st.vma || (k.space == child && k.page in pages))
    && (forall k :: k in st.vma ==> st'.vma[k] == st.vma[k] && View(st')[k] == View(st)[k])
    && (forall p :: p in pages ==>
         && st'.vma[Key(child, p)] == st.vma[Key(parent, p)]
         && View(st')[Key(child, p)] == if st.vma[Key(parent, p)].cow then View(st)[Key(parent, p)] else ZeroPage())
  }

  ghost predicate ToCopy(st: State, parent: Space, child: Space, pages: seq<nat>) {
    && child in st.pSize && child in st.sSize && parent != child
    && (forall i, j :: 0 <= i < j < |pages| ==> pages[i] != pages[j])
    && (forall p :: p in pages ==> Key(parent, p) in st.vma && Key(child, p) !in st.vma)
  }

  lemma ClonePageCopied(st: State, parent: Space, child: Space, p: nat)
    requires Inv(st) && ToCopy(st, parent, child, [p])
    ensures Covered(st, Key(parent, p))
    ensures Inv(ClonePage(st, Key(parent, p), Key(child, p)))
    ensures Copied(st, ClonePage(st, Key(parent, p), Key(child, p)), parent, child, [p])
    ensures ClonePage(st, Key(parent, p), Key(child, p)).pSize.Keys == st.pSize.Keys
    ensures ClonePage(st, Key(parent, p), Key(child, p)).sSize.Keys == st.sSize.Keys
  {
    hide CountsExact, SizesExact, RightsAgree, Placed, View;
    assert p in [p];
    CoveredKey(st, Key(parent, p));
    ClonePageSound(st, Key(parent, p), Key(child, p));
    ViewKeys(st);
    ViewKeys(ClonePage(st, Key(parent, p), Key(child, p)));
  }

  lemma ViewKeys(st: State)
    requires Placed(st)
    ensures View(st).Keys == st.vma.Keys
  {
  }

  lemma CopiedTrans(st: State, mid: State, st': State, parent: Space, child: Space, pages: seq<nat>)
    requires Placed(st) && Placed(mid) && Placed(st') && pages != []
    requires ToCopy(st, parent, child, pages)
    requires Copied(st, mid, parent, child, [pages[0]])
    requires forall p :: p in pages[1..] ==> Key(parent, p) in mid.vma
    requires Copied(mid, st', parent, child, pages[1..])
    ensures Copied(st, st', parent, child, pages)
  {
    hide Placed, View;
    ViewKeys(st);
    ViewKeys(mid);
    ViewKeys(st');
    assert forall p :: p in pages <==> p == pages[0] || p in pages[1..];
  }

  lemma {:induction false} ClonePagesSound(st: State, parent: Space, child: Space, pages: seq<nat>)
    requires Inv(st) && ToCopy(st, parent, child, pages)
    ensures Inv(ClonePages(st, parent, child, pages))
    ensures Copied(st, ClonePages(st, parent, child, pages), parent, child, pages)
    decreases |pages|
  {
    hide CountsExact, SizesExact, RightsAgree, Placed, View, ClonePage, Covered;
    if pages == [] {
      ViewKeys(st);
    } else {
      ClonePageCopied(st, parent, child, pages[0]);
      var mid := ClonePage(st, Key(parent, pages[0]), Key(child, pages[0]));
      assert forall p :: p in pages[1..] ==> p in pages && p != pages[0];
      ClonePagesSound(mid, parent, child, pages[1..]);
      CopiedTrans(st, mid, ClonePages(mid, parent, child, pages[1..]), parent, child, pages);
    }
  }

  lemma MovedAt<T>(m: map<Key, T>, parent: Space, child: Space)
    ensures forall q :: q in Moved(m, parent, child) <==> q.space == child && Key(parent, q.page) in m
    ensures forall q :: q in Moved(m, parent, child) ==> Moved(m, parent, child)[q] == m[Key(parent, q.page)]
  {
    forall q: Key | q.space == child && Key(parent, q.page) in m ensures q in Moved(m, parent, child) {
      assert q == Key(child, Key(parent, q.page).page);
    }
  }

  /** Two maps agreeing on every key are one map. */
  lemma SumIs<T>(m: map<Key, T>, add: map<Key, T>, whole: map<Key, T>)
    requires forall k :: k in whole <==> k in m || k in add
    requires forall k :: k in add ==> whole[k] == add[k]
    requires forall k :: k in m && k !in add ==> whole[k] == m[k]
    ensures whole == m + add
  {
  }

  lemma CopiedIsClone(st: State, st': State, parent: Space, child: Space, pages: seq<nat>)
    requires Placed(st) && Placed(st')
    requires forall p :: p in pages <==> Key(parent, p) in st.vma
    requires Copied(st, st', parent, child, pages)
    ensures Abs(st') == RefStep(Abs(st), Clone(parent, child, pages))
  {
    hide Placed, View, Moved;
    ViewKeys(st);
    ViewKeys(st');
    var m := Abs(st);
    MovedAt(m.vma, parent, child);
    MovedAt(Inherited(m), parent, child);
    SumIs(st.vma, Moved(m.vma, parent, child), st'.vma);
    SumIs(View(st), Moved(Inherited(m), parent, child), View(st'));
  }

  lemma LoadSound(st: State, k: Key, f: Frame)
    requires Inv(st) && f !in st.frames
    ensures Inv(Load(st, k, f)) && Abs(Load(st, k, f)) == Abs(st)
    ensures k in st.vma ==> k in Load(st, k, f).pt
  {
    hide CountsExact, SizesExact, RightsAgree, Placed, View;
    if k in st.vma { CoveredKey(st, k); }
    if Covered(st, k) && k !in st.pt {
      FaultMissingSound(st, k, f);
    }
  }

  /** A present page of a writable area that may not be written is a shared one. */
  lemma ReadOnlyIsShared(st: State, k: Key)
    requires Inv(st) && k in st.pt && st.vma[k].rights.wr && !st.pt[k].rights.wr
    ensures st.pt[k].frame in st.share && st.pt[k].frame in st.frames
  {
    hide CountsExact, SizesExact;
  }

  /** Whatever fault a permitted store takes, the page ends writable and no byte has changed. */
  lemma OpenSound(st: State, k: Key, f: Frame)
    requires Inv(st) && f !in st.frames && Covered(st, k) && st.vma[k].rights.wr
    ensures Inv(Open(st, k, f)) && Abs(Open(st, k, f)) == Abs(st)
    ensures k in Open(st, k, f).pt && Open(st, k, f).pt[k].rights.wr
  {
    hide CountsExact, SizesExact, RightsAgree, Placed, View;
    if k !in st.pt {
      FaultMissingSound(st, k, f);
    } else if !st.pt[k].rights.wr {
      ReadOnlyIsShared(st, k);
      FaultWriteSound(st, k, f);
    }
  }

  lemma FrameKnown(st: State, k: Key)
    requires Placed(st) && k in st.pt
    ensures k in st.vma && st.pt[k].frame in st.frames && |st.frames[st.pt[k].frame].bytes| == PAGE_SIZE
    ensures View(st)[k] == st.frames[st.pt[k].frame]
  {
  }

  lemma StoreSound(st: State, k: Key, off: nat, b: bv8, f: Frame)
    requires Inv(st) && f !in st.frames && off < PAGE_SIZE
    ensures Inv(Store(st, k, off, b, f))
    ensures Abs(Store(st, k, off, b, f)) == RefStep(Abs(st), Write(k, off, b, f))
  {
    hide CountsExact, SizesExact, RightsAgree, Placed, View, Open;
    ViewKeys(st);
    if k in st.vma && st.vma[k].rights.wr {
      CoveredKey(st, k);
      OpenSound(st, k, f);
      var st' := Open(st, k, f);
      FrameKnown(st', k);
      PutByteSound(st', k, off, b);
    }
  }

  lemma NoPages(st: State, s: Space)
    requires Placed(st) && s !in st.pSize
    ensures forall p :: Key(s, p) !in st.vma
  {
    assert forall k :: k in st.vma ==> k.space != s;
  }

  lemma CloneSound(st: State, parent: Space, child: Space, pages: seq<nat>)
    requires Inv(st) && Legal(st, Clone(parent, child, pages))
    ensures Inv(Step(st, Clone(parent, child, pages)))
    ensures Abs(Step(st, Clone(parent, child, pages))) == RefStep(Abs(st), Clone(parent, child, pages))
  {
    hide CountsExact, SizesExact, RightsAgree, Placed, View, Copied, ClonePages;
    AddSpaceSound(st, child);
    NoPages(st, child);
    var st1 := AddSpace(st, child);
    ClonePagesSound(st1, parent, child, pages);
    CopiedIsClone(st1, ClonePages(st1, parent, child, pages), parent, child, pages);
  }

  /** One step of the paging code keeps the invariant and does what the reference machine does. */
  lemma StepRefines(st: State, op: Op)
    requires Inv(st) && Legal(st, op)
    ensures Inv(Step(st, op))
    ensures Abs(Step(st, op)) == RefStep(Abs(st), op)
    ensures op.Read? && op.k in st.vma ==> op.k in Step(st, op).pt
  {
    hide CountsExact, SizesExact, RightsAgree, Placed, View, RangeKeys;
    match op {
      case Create(s) => AddSpaceSound(st, s);
      case Map(s, base, n, v) => MapRangeSound(st, s, base, n, v);
      case Unmap(s, base, n) => DropRangeSound(st, s, base, n);
      case Protect(s, base, n, r) => ProtectRangeSound(st, s, base, n, r);
      case Clone(parent, child, pages) => CloneSound(st, parent, child, pages);
      case Read(k, f) => LoadSound(st, k, f);
      case Write(k, off, b, f) => StoreSound(st, k, off, b, f);
    }
  }

  // ----- whole runs ------------------------------------------------------------------------------

  function Run(st: State, ops: seq<Op>): State
    decreases |ops|
  {
    if ops == [] then st else Run(Step(st, ops[0]), ops[1..])
  }

  ghost function RefRun(m: Memory, ops: seq<Op>): Memory
    decreases |ops|
  {
    if ops == [] then m else RefRun(RefStep(m, ops[0]), ops[1..])
  }

  ghost predicate LegalRun(st: State, ops: seq<Op>)
    decreases |ops|
  {
    ops == [] || (Legal(st, ops[0]) && LegalRun(Step(st, ops[0]), ops[1..]))
  }

  /** Every run of maps, faults, writes, protects, clones and unmaps keeps the share counts,
      the size counters and the set of released frames exact, and shows every space exactly the
      bytes of the machine in which a fork copies at once. */
  lemma {:induction false} RunRefines(st: State, ops: seq<Op>)
    requires Inv(st) && LegalRun(st, ops)
    ensures Inv(Run(st, ops))
    ensures Abs(Run(st, ops)) == RefRun(Abs(st), ops)
    decreases |ops|
  {
    hide Inv, Legal, Step, RefStep, Placed, View, Abs;
    if ops != [] {
      InvPlaced(st);
      StepRefines(st, ops[0]);
      InvPlaced(Step(st, ops[0]));
      RunRefines(Step(st, ops[0]), ops[1..]);
    }
    InvPlaced(Run(st, ops));
    InvPlaced(st);
  }

  lemma InvPlaced(st: State)
    requires Inv(st)
    ensures Placed(st)
  {
  }

  const EMPTY: State := State(map[], map[], map[], map[], map[], map[])

  /** A family starts with nothing mapped, so the run theorem applies to every run from there. */
  lemma StartSound()
    ensures Inv(EMPTY)
  {
  }

  // ----- isolation and teardown --------------------------------------------------------------------

  predicate ActsOn(op: Op, s: Space) {
    match op
    case Create(_) => false
    case Map(t, _, _, _) => t == s
    case Unmap(t, _, _) => t == s
    case Protect(_, _, _, _) => false
    case Clone(_, child, _) => child == s
    case Read(_, _) => false
    case Write(k, _, _, _) => k.space == s
  }

  ghost predicate SameIn(m: Memory, m': Memory, s: Space) {
    forall p :: Key(s, p) in m.bytes ==> Key(s, p) in m'.bytes && m'.bytes[Key(s, p)] == m.bytes[Key(s, p)]
  }

  lemma {:induction false} RefRunFrame(m: Memory, ops: seq<Op>, s: Space)
    requires forall op :: op in ops ==> !ActsOn(op, s)
    ensures SameIn(m, RefRun(m, ops), s)
    decreases |ops|
  {
    if ops != [] {
      assert ops[0] in ops;
      RefRunFrame(RefStep(m, ops[0]), ops[1..], s);
    }
  }

  /** Isolation in every run: a page of a space in which nobody maps, unmaps or writes keeps its
      bytes, whatever the rest of the family does, forks of that space included. */
  lemma SpaceIsolated(st: State, ops: seq<Op>, s: Space, p: nat)
    requires Inv(st) && LegalRun(st, ops)
    requires forall op :: op in ops ==> !ActsOn(op, s)
    requires Key(s, p) in st.vma
    ensures Key(s, p) in Run(st, ops).vma && Inv(Run(st, ops))
    ensures View(Run(st, ops))[Key(s, p)] == View(st)[Key(s, p)]
  {
    hide CountsExact, SizesExact, RightsAgree, Placed, View, LegalRun, Run, RefRun;
    ViewKeys(st);
    RunRefines(st, ops);
    RefRunFrame(Abs(st), ops, s);
    ViewKeys(Run(st, ops));
    assert Key(s, p) in Abs(st).bytes;
  }

  /** Fork isolation. After a fork, and after any further run of the family in which nobody maps,
      unmaps or writes in the child, every copy-on-write page of the child still reads the bytes
      its parent had at the fork, however the parent and other descendants wrote, protected,
      forked and unmapped meanwhile. */
  lemma ForkIsolated(st: State, parent: Space, child: Space, pages: seq<nat>, ops: seq<Op>, p: nat)
    requires Inv(st) && Legal(st, Clone(parent, child, pages))
    requires LegalRun(Step(st, Clone(parent, child, pages)), ops)
    requires forall op :: op in ops ==> !ActsOn(op, child)
    requires p in pages && st.vma[Key(parent, p)].cow
    ensures var st' := Run(Step(st, Clone(parent, child, pages)), ops);
      Inv(st') && Key(child, p) in st'.vma && View(st')[Key(child, p)] == View(st)[Key(parent, p)]
  {
    hide CountsExact, SizesExact, RightsAgree, Placed, View, Moved, LegalRun, Step, Run, RefRun;
    var fork := Clone(parent, child, pages);
    ViewKeys(st);
    StepRefines(st, fork);
    ViewKeys(Step(st, fork));
    MovedAt(st.vma, parent, child);
    MovedAt(Inherited(Abs(st)), parent, child);
    SpaceIsolated(Step(st, fork), ops, child, p);
  }

  /** Once every area of the family is unmapped the table of shared frames is empty (the assertion
      in vmsp_close) and every frame has gone back to the allocator. */
  lemma TeardownComplete(st: State)
    requires Inv(st) && st.vma == map[]
    ensures st.share == map[] && st.frames == map[]
    ensures forall s :: s in st.pSize ==> st.pSize[s] == 0 && st.sSize[s] == 0
  {
    hide MapCount, PageCount;
    assert st.pt == map[];
    forall f | f in st.frames ensures false {
      NoMapper(st.pt, f);
    }
    forall s | s in st.pSize ensures st.pSize[s] == 0 && st.sSize[s] == 0 {
      EmptySpaceCount(st.pt, st.share.Keys, s, false);
      EmptySpaceCount(st.pt, st.share.Keys, s, true);
    }
  }
}
