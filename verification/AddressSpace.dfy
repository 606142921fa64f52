/** The areas of one address space: choosing a slot, and cutting ranges out of areas.

    The tree of areas is a map from an area's base address to the area; module AreaIndex shows that the
    order queries on it are those of the balanced tree. Addresses are bytes. */
module AddressSpace {

  import opened Machine
  import opened Options
  import opened Protection
  import opened Sums

  /** size_t addition on the 32-bit target. */
  function Add(a: nat, b: nat): nat { (a + b) % WORD }

  predicate Aligned(a: nat) { a % PAGE_SIZE == 0 }

  const NO_RIGHTS := Rights(false, false, false)

  /** The operation tables an area can have. */
  datatype Ops = Anon | Stack | Heap | Pipe | Phys | FileCopy | File | Dlib {
    /** Has a split (and a protect) operation. */
    predicate Divisible() { Anon? || FileCopy? || File? || Dlib? }

    /** The kinds that are unmapped whole and keep their rights. */
    predicate Single() { Stack? || Heap? || Pipe? || Phys? }

    /** The kinds that show an object. */
    predicate Backed() { FileCopy? || File? || Dlib? }
  }

  datatype Area = Area(len: nat, ops: Ops, obj: nat, off: int, rights: Rights)

  type Areas = map<nat, Area>

  /** What an address is mapped to. */
  datatype Mapping = Mapping(ops: Ops, obj: nat, off: int, rights: Rights)

  predicate Covers(b: nat, v: Area, a: int) {
    b <= a < b + v.len
  }

  function MappingAt(b: nat, v: Area, a: int): Mapping {
    Mapping(v.ops, v.obj, if v.ops.Anon? then 0 else v.off + (a - b), v.rights)
  }

  /** Address `a` is mapped to `m`. */
  ghost predicate Maps(s: Areas, a: int, m: Mapping) {
    exists b :: b in s && Covers(b, s[b], a) && m == MappingAt(b, s[b], a)
  }

  predicate Disjoint(s: Areas) {
    forall b, c :: b in s && c in s && b < c ==> b + s[b].len <= c
  }

  predicate Shaped(s: Areas, lower: nat, upper: nat) {
    forall b :: b in s ==> s[b].len > 0 && lower <= b && b + s[b].len <= upper
  }

  // ----- order queries on the keys -----------------------------------------------------------

  predicate AtLeast(s: set<nat>, m: nat) { forall x :: x in s ==> m <= x }

  predicate AtMost(s: set<nat>, m: nat) { forall x :: x in s ==> x <= m }

  lemma {:induction false} HasLeast(s: set<nat>)
    requires s != {}
    ensures exists m :: m in s && AtLeast(s, m)
  {
    var k :| k in s;
    if s - {k} == {} {
      assert s == {k};
      assert AtLeast(s, k);
    } else {
      HasLeast(s - {k});
      var m :| m in s - {k} && AtLeast(s - {k}, m);
      assert s == s - {k} + {k};
      assert AtLeast(s, if k < m then k else m);
    }
  }

  function Least(s: set<nat>): (m: nat)
    requires s != {}
    ensures m in s && forall x :: x in s ==> m <= x
  {
    HasLeast(s);
    var m :| m in s && AtLeast(s, m);
    m
  }

  lemma {:induction false} HasGreatest(s: set<nat>)
    requires s != {}
    ensures exists m :: m in s && AtMost(s, m)
  {
    var k :| k in s;
    if s - {k} == {} {
      assert s == {k};
      assert AtMost(s, k);
    } else {
      HasGreatest(s - {k});
      var m :| m in s - {k} && AtMost(s - {k}, m);
      assert s == s - {k} + {k};
      assert AtMost(s, if k > m then k else m);
    }
  }

  function Greatest(s: set<nat>): (m: nat)
    requires s != {}
    ensures m in s && forall x :: x in s ==> x <= m
  {
    HasGreatest(s);
    var m :| m in s && AtMost(s, m);
    m
  }

  /** bbtree_first */
  function First(s: Areas): (r: Option<nat>)
    ensures r.None? ==> s.Keys == {}
    ensures r.Some? ==> r.value in s && forall x :: x in s ==> r.value <= x
  {
    if s.Keys == {} then None else Some(Least(s.Keys))
  }

  /** bbtree_next */
  function Next(s: Areas, k: nat): (r: Option<nat>)
    ensures r.None? ==> forall x :: x in s ==> x <= k
    ensures r.Some? ==> r.value in s && r.value > k && forall x :: x in s && x > k ==> r.value <= x
  {
    var above := set x | x in s && x > k;
    if above == {} then
      assert forall x :: x in s && x > k ==> x in above;
      None
    else
      assert forall x :: x in s && x > k ==> x in above;
      Some(Least(above))
  }

  /** bbtree_search_le */
  function AtOrBelow(s: Areas, k: nat): (r: Option<nat>)
    ensures r.None? ==> forall x :: x in s ==> x > k
    ensures r.Some? ==> r.value in s && r.value <= k && forall x :: x in s && x <= k ==> x <= r.value
  {
    var below := set x | x in s && x <= k;
    if below == {} then
      assert forall x :: x in s && x <= k ==> x in below;
      None
    else
      assert forall x :: x in s && x <= k ==> x in below;
      Some(Greatest(below))
  }

  // ----- slots -----------------------------------------------------------------------------------

  /** The range [a, a + n) lies within bounds and meets no area. */
  ghost predicate Free(s: Areas, lower: nat, upper: nat, a: nat, n: nat) {
    lower <= a && a + n <= upper && forall b :: b in s ==> a + n <= b || b + s[b].len <= a
  }

  ghost predicate HasRoom(s: Areas, lower: nat, upper: nat, n: nat) {
    exists a :: Free(s, lower, upper, a, n)
  }

  ghost predicate LowestFree(s: Areas, lower: nat, upper: nat, n: nat, r: nat) {
    Free(s, lower, upper, r, n) && forall a :: Free(s, lower, upper, a, n) ==> r <= a
  }

  /** Area `k` is the first that leaves fewer than `n` bytes below the upper bound. */
  predicate FirstTooHigh(s: Areas, upper: nat, n: nat, k: nat) {
    && k in s && k + s[k].len + n > upper
    && forall j :: j in s && j < k ==> j + s[j].len + n <= upper
  }

  predicate Covered(s: Areas, a: nat) {
    exists b :: b in s && Covers(b, s[b], a)
  }

  /** Nothing free lies below `x`. */
  ghost predicate NoneBelow(s: Areas, lower: nat, upper: nat, n: nat, x: nat) {
    forall a: nat :: Free(s, lower, upper, a, n) ==> a >= x
  }

  /** The areas below `k` leave `n` bytes below the upper bound. */
  predicate LeaveRoom(s: Areas, upper: nat, n: nat, k: nat) {
    forall j :: j in s && j < k ==> j + s[j].len + n <= upper
  }

  /** What the search for a slot answers: the lowest free one if there is any. If there is none it
      fails, except in two cases: an empty space that is too small, and a wrapping sum for the first
      area that is too high (then that area's end is the answer). */
  ghost predicate SlotSpec(s: Areas, lower: nat, upper: nat, n: nat, r: nat) {
    if HasRoom(s, lower, upper, n) then LowestFree(s, lower, upper, n, r)
    else if s == map[] then r == lower
    else exists k: nat ::
      FirstTooHigh(s, upper, n, k) && r == if k + s[k].len + n < WORD then 0 else k + s[k].len
  }

  lemma SlotFirst(s: Areas, lower: nat, upper: nat, n: nat)
    requires Shaped(s, lower, upper) && n > 0
    requires First(s).Some? ==> lower + n <= First(s).value
    ensures SlotSpec(s, lower, upper, n, lower)
  {
    assert s != map[] ==> First(s).Some? && First(s).value in s;
    assert lower + n <= upper ==> Free(s, lower, upper, lower, n);
  }

  lemma SlotStart(s: Areas, lower: nat, upper: nat, n: nat, first: nat)
    requires Disjoint(s) && Shaped(s, lower, upper) && First(s) == Some(first) && lower + n > first
    requires 0 < n < WORD && upper < WORD
    ensures Searching(s, lower, upper, n, first) && first <= upper
  {
  }

  /** Area `vma` is too high: no area after it can be followed by a free slot. */
  lemma SlotFull(s: Areas, lower: nat, upper: nat, n: nat, vma: nat)
    requires vma in s && NoneBelow(s, lower, upper, n, vma + s[vma].len) && LeaveRoom(s, upper, n, vma)
    requires vma + s[vma].len + n > upper
    ensures SlotSpec(s, lower, upper, n, if vma + s[vma].len + n < WORD then 0 else vma + s[vma].len)
  {
    assert FirstTooHigh(s, upper, n, vma);
    assert !HasRoom(s, lower, upper, n);
  }

  /** The gap behind `vma` is large enough. */
  lemma SlotGap(s: Areas, lower: nat, upper: nat, n: nat, vma: nat, next: Option<nat>)
    requires Disjoint(s) && Shaped(s, lower, upper) && vma in s && next == Next(s, vma)
    requires NoneBelow(s, lower, upper, n, vma + s[vma].len)
    requires vma + s[vma].len + n <= upper && (next.Some? ==> vma + s[vma].len + n <= next.value)
    ensures SlotSpec(s, lower, upper, n, vma + s[vma].len)
  {
    var a := vma + s[vma].len;
    forall b | b in s ensures a + n <= b || b + s[b].len <= a {
      if b > vma { assert next.Some? && next.value <= b; }
    }
    assert Free(s, lower, upper, a, n);
  }

  /** The gap behind `vma` is too small. */
  lemma SlotOn(s: Areas, lower: nat, upper: nat, n: nat, vma: nat, next: nat)
    requires Disjoint(s) && Shaped(s, lower, upper) && n > 0
    requires vma in s && Next(s, vma) == Some(next) && vma + s[vma].len + n > next
    requires NoneBelow(s, lower, upper, n, vma + s[vma].len) && LeaveRoom(s, upper, n, vma)
    requires vma + s[vma].len + n <= upper
    ensures NoneBelow(s, lower, upper, n, next + s[next].len) && LeaveRoom(s, upper, n, next)
  {
  }

  /** The search has come to area `vma`. */
  ghost predicate Searching(s: Areas, lower: nat, upper: nat, n: nat, vma: nat) {
    && Disjoint(s) && Shaped(s, lower, upper) && 0 < n < WORD && upper < WORD && vma in s
    && NoneBelow(s, lower, upper, n, vma + s[vma].len) && LeaveRoom(s, upper, n, vma)
  }

  /** One turn of the search: it fails, it finds the gap behind `vma`, or it goes on. */
  lemma SlotTurn(s: Areas, lower: nat, upper: nat, n: nat, vma: nat)
    requires Searching(s, lower, upper, n, vma)
    ensures vma in s && EndsAt(s, vma + s[vma].len)
    ensures var end, next := vma + s[vma].len, Next(s, vma);
      if Add(end, n) > upper then SlotSpec(s, lower, upper, n, 0)
      else if next.None? || Add(end, n) <= next.value then SlotSpec(s, lower, upper, n, end)
      else vma < next.value <= upper && Searching(s, lower, upper, n, next.value)
  {
    hide SlotSpec, NoneBelow, LeaveRoom;
    var end, next := vma + s[vma].len, Next(s, vma);
    assert Add(end, n) == if end + n < WORD then end + n else end + n - WORD;
    if end + n > upper {
      SlotFull(s, lower, upper, n, vma);
    } else if next.None? || end + n <= next.value {
      SlotGap(s, lower, upper, n, vma, next);
    } else {
      SlotOn(s, lower, upper, n, vma, next.value);
    }
  }

  /** vmsp_find_slot: first fit, in 32-bit arithmetic; 0 stands for ENOMEM. */
  method FindSlot(s: Areas, lower: nat, upper: nat, length: nat) returns (r: nat)
    requires Disjoint(s) && Shaped(s, lower, upper)
    requires 0 < lower <= upper < WORD && 0 < length && lower + length < WORD
    ensures SlotSpec(s, lower, upper, length, r)
    ensures r == 0 || r == lower || EndsAt(s, r)
  {
    hide SlotSpec, NoneBelow, LeaveRoom, EndsAt, Searching;
    var first := First(s);
    if first.None? || Add(lower, length) <= first.value {
      SlotFirst(s, lower, upper, length);
      return lower;
    }
    SlotStart(s, lower, upper, length, first.value);
    var vma := first.value;
    while true
      invariant Searching(s, lower, upper, length, vma) && vma <= upper
      decreases upper - vma
    {
      SlotTurn(s, lower, upper, length, vma);
      var end := vma + s[vma].len;
      if Add(end, length) > upper {
        return 0;
      }
      var next := Next(s, vma);
      if next.None? || Add(end, length) <= next.value {
        return end;
      }
      vma := next.value;
    }
  }

  /** The hints the code takes. */
  predicate HintTaken(s: Areas, lower: nat, upper: nat, a: nat, n: nat) {
    && lower <= a && Add(a, n) <= upper && !Covered(s, a)
    && forall c :: c in s && c > a ==> Add(a, n) <= c
  }

  /** A hint whose end does not wrap is taken if and only if its range is free; one whose end wraps
      never is free. */
  lemma HintExact(s: Areas, lower: nat, upper: nat, a: nat, n: nat)
    requires Disjoint(s) && Shaped(s, lower, upper) && upper < WORD && a < WORD && 0 < n < WORD
    ensures a + n < WORD ==> (HintTaken(s, lower, upper, a, n) <==> Free(s, lower, upper, a, n))
    ensures a + n >= WORD ==> !Free(s, lower, upper, a, n)
  {
    if Free(s, lower, upper, a, n) {
      assert Add(a, n) == a + n;
      forall c | c in s ensures !Covers(c, s[c], a) {}
    }
  }

  /** vmsp_slot_address: the hint if it is usable, else 0. The answer is right exactly when the end
      of the range does not wrap, or wraps to above the space, or the hint is below the space, or the
      hint itself is taken. */
  method SlotAddress(s: Areas, lower: nat, upper: nat, address: nat, length: nat) returns (r: nat)
    requires Disjoint(s) && Shaped(s, lower, upper)
    requires 0 < lower <= upper < WORD && address < WORD && 0 < length < WORD
    ensures r == if HintTaken(s, lower, upper, address, length) then address else 0
    ensures (r == address <==> address == 0 || Free(s, lower, upper, address, length)) <==>
      (address + length < WORD || Add(address, length) > upper || address < lower || Covered(s, address))
  {
    if address < lower || Add(address, length) > upper {
      return 0;
    }
    var below := AtOrBelow(s, address);
    var next;
    if below.None? {
      next := First(s);
    } else {
      if below.value + s[below.value].len > address {
        assert Covers(below.value, s[below.value], address);
        assert !Free(s, lower, upper, address, length);
        return 0;
      }
      next := Next(s, below.value);
    }
    assert !Covered(s, address);
    if next.Some? && Add(address, length) > next.value {
      assert !Free(s, lower, upper, address, length);
      return 0;
    }
    return address;
  }

  /** The hint 0xFFFFF000 for two pages wraps: an empty user space accepts it, far above its bound. */
  lemma HintBeyondSpace()
    ensures var lower, upper, hint, n := 0x400000, 0xC000_0000, 0xFFFF_F000, 0x2000;
      && !Free(map[], lower, upper, hint, n)
      && !(hint + n < WORD || Add(hint, n) > upper || hint < lower || Covered(map[], hint))
  {
  }

  /** A kernel space filled to its last page: a request for 128 MiB has no room, yet the search returns
      the end of the area, because the sum it compares with the bound wraps. */
  lemma SlotBeyondSpace()
    ensures var lower, upper, n, base := 0xC000_0000, 0xFF00_0000, 0x0800_0000, 0xC000_0000;
      var s := map[base := Area(0x3EFF_F000, Heap, 0, 0, NO_RIGHTS)];
      && Disjoint(s) && Shaped(s, lower, upper) && !HasRoom(s, lower, upper, n)
      && FirstTooHigh(s, upper, n, base) && base + s[base].len + n >= WORD
  {
    var lower, upper, n, base := 0xC000_0000, 0xFF00_0000, 0x0800_0000, 0xC000_0000;
    var s := map[base := Area(0x3EFF_F000, Heap, 0, 0, NO_RIGHTS)];
    forall a: nat ensures !Free(s, lower, upper, a, n) { assert base in s; }
  }

  // ----- cutting areas ---------------------------------------------------------------------------

  /** The part of `v` from offset `n` on, as the split operations fill it in. */
  function Second(v: Area, n: nat): Area
    requires n <= v.len
  {
    Area(v.len - n, v.ops, v.obj, if v.ops.Anon? then 0 else v.off + n, v.rights)
  }

  function Shortened(v: Area, n: nat): Area {
    Area(n, v.ops, v.obj, v.off, v.rights)
  }

  function SplitAt(s: Areas, b: nat, at: nat): Areas
    requires b in s && b <= at < b + s[b].len
  {
    if at == b then s else s[b := Shortened(s[b], at - b)][at := Second(s[b], at - b)]
  }

  /** Areas agree on every address. */
  ghost predicate SameMaps(s: Areas, t: Areas) {
    forall a: int, m :: Maps(s, a, m) <==> Maps(t, a, m)
  }

  /** What a split leaves where. */
  lemma SplitIs(s: Areas, b: nat, at: nat)
    requires b in s && b <= at < b + s[b].len
    ensures var t := SplitAt(s, b, at);
      && t.Keys == s.Keys + {at} && b in t && at in t && b + t[b].len <= b + s[b].len
      && at + t[at].len == b + s[b].len && t[at].len > 0 && t[b].len > 0
      && t[at].ops == s[b].ops && t[at].rights == s[b].rights
      && (b != at ==> b + t[b].len == at)
      && forall c :: c in s && c != b && c != at ==> c in t && t[c] == s[c]
  {
  }

  /** The areas a split starts from do not overlap with the point it splits at. */
  lemma NotInside(s: Areas, b: nat, at: nat, c: nat)
    requires b in s && b <= at < b + s[b].len && Disjoint(s) && c in s && c != b
    ensures c != at && (c < b ==> c + s[c].len <= b) && (c > b ==> c >= b + s[b].len)
  {
  }

  lemma SplitShape(s: Areas, lower: nat, upper: nat, b: nat, at: nat)
    requires b in s && b <= at < b + s[b].len && Disjoint(s) && Shaped(s, lower, upper)
    ensures Disjoint(SplitAt(s, b, at)) && Shaped(SplitAt(s, b, at), lower, upper)
  {
    var t := SplitAt(s, b, at);
    SplitIs(s, b, at);
    hide SplitAt;
    forall c | c in s && c != b ensures c != at { NotInside(s, b, at, c); }
  }

  lemma SplitMaps(s: Areas, b: nat, at: nat)
    requires b in s && b <= at < b + s[b].len && Disjoint(s) && (at != b ==> at !in s)
    ensures SameMaps(s, SplitAt(s, b, at))
  {
    hide Disjoint;
    var t := SplitAt(s, b, at);
    forall a: int, m ensures Maps(s, a, m) <==> Maps(t, a, m) {
      if Maps(s, a, m) {
        var c :| c in s && Covers(c, s[c], a) && m == MappingAt(c, s[c], a);
        var d := if c == b && a >= at then at else c;
        assert d in t && Covers(d, t[d], a) && m == MappingAt(d, t[d], a);
      }
      if Maps(t, a, m) {
        var c :| c in t && Covers(c, t[c], a) && m == MappingAt(c, t[c], a);
        var d := if c == at then b else c;
        assert d in s && Covers(d, s[d], a) && m == MappingAt(d, s[d], a);
      }
    }
  }

  /** Areas of the same kind and object, each starting where the one before ends, reach `limit`. */
  ghost predicate Reaches(s: Areas, b: nat, limit: nat, ops: Ops, obj: nat)
    decreases limit - b
  {
    && b in s && s[b].ops == ops && s[b].obj == obj && s[b].len > 0
    && (limit <= b + s[b].len || Reaches(s, b + s[b].len, limit, ops, obj))
  }

  lemma ReachesOn(s: Areas, b: nat, limit: nat, ops: Ops, obj: nat)
    requires Reaches(s, b, limit, ops, obj)
    ensures b in s && (b + s[b].len < limit ==> b + s[b].len in s)
  {
  }

  ghost predicate EndsAt(s: Areas, a: nat) {
    exists b :: b in s && b + s[b].len == a
  }

  /** When a range starting in area `b` and ending at `limit` is cut correctly: it ends inside its
      first area, or it ends where an area ends and the next area, if any, starts right there. */
  ghost predicate Clean(s: Areas, b: nat, limit: nat)
    requires b in s
  {
    || limit < b + s[b].len
    || (EndsAt(s, limit) && (limit in s || forall c :: c in s ==> c < limit))
  }

  lemma CleanSplit(s: Areas, b: nat, at: nat, limit: nat)
    requires b in s && b <= at < b + s[b].len && Disjoint(s) && at <= limit
    requires forall c :: c in s ==> s[c].len > 0
    ensures Clean(s, b, limit) <==> Clean(SplitAt(s, b, at), at, limit)
  {
    hide SplitAt, Disjoint;
    var t := SplitAt(s, b, at);
    SplitIs(s, b, at);
    forall c | c in s && c != b ensures c != at && (c < b ==> c + s[c].len <= b) { NotInside(s, b, at, c); }
    if at != b && limit >= b + s[b].len {
      if EndsAt(s, limit) {
        var c :| c in s && c + s[c].len == limit;
        var d := if c == b then at else c;
        assert d in t && d + t[d].len == limit;
      }
      if EndsAt(t, limit) {
        var c :| c in t && c + t[c].len == limit;
        var d := if c == at then b else c;
        assert d in s && d + s[d].len == limit;
      }
      assert limit in s <==> limit in t;
      if forall c :: c in t ==> c < limit {
        forall c | c in s ensures c < limit { assert c in t; }
      }
    }
  }

  lemma ReachesSplit(s: Areas, b: nat, at: nat, limit: nat, ops: Ops, obj: nat)
    requires b in s && b <= at < b + s[b].len && Disjoint(s) && at <= limit
    requires forall c :: c in s ==> s[c].len > 0
    requires Reaches(s, b, limit, ops, obj)
    ensures Reaches(SplitAt(s, b, at), at, limit, ops, obj)
  {
    if limit > b + s[b].len {
      ReachesAbove(s, SplitAt(s, b, at), b + s[b].len, limit, ops, obj);
    }
  }

  /** Reaching depends only on the areas from `from` on. */
  lemma {:induction false} ReachesAbove(s: Areas, t: Areas, from: nat, limit: nat, ops: Ops, obj: nat)
    requires forall c :: c in s && c >= from ==> c in t && s[c] == t[c]
    requires Reaches(s, from, limit, ops, obj)
    ensures Reaches(t, from, limit, ops, obj)
    decreases limit - from
  {
    if limit > from + s[from].len {
      ReachesAbove(s, t, from + s[from].len, limit, ops, obj);
    }
  }

  // ----- what a cut does to the areas -----------------------------------------------------------

  /** vma_check_limit, past its assertion: the area at `cur` is cut at `limit` if it goes on past
      it, and the rest is filed at the address the code computes (unless that key is taken). */
  function Trim(s: Areas, cur: nat, base: nat, limit: nat): Areas
    requires cur in s && cur <= limit
  {
    var n := limit - cur;
    if n < s[cur].len then
      var t := s[cur := Shortened(s[cur], n)];
      if base + n in t then t else t[base + n := Second(s[cur], n)]
    else s
  }

  ghost predicate NoCover(s: Areas, w: nat) {
    forall b :: b in s ==> !Covers(b, s[b], w)
  }

  /** A cut that starts from a later area loses the last address of that area. */
  lemma TrimLoses(s: Areas, cur: nat, base: nat, limit: nat)
    requires cur in s && base < cur < limit < cur + s[cur].len && Disjoint(s)
    ensures NoCover(Trim(s, cur, base, limit), cur + s[cur].len - 1)
  {
  }

  /** ... and later steps never map that address again. */
  lemma TrimStaysLost(s: Areas, cur: nat, base: nat, limit: nat, w: nat)
    requires cur in s && base < cur <= limit <= w && NoCover(s, w)
    ensures NoCover(Trim(s, cur, base, limit), w)
  {
    assert !Covers(cur, s[cur], w);
  }

  /** The areas of `s` without those starting in [from, to). */
  function Without(s: Areas, from: nat, to: nat): Areas {
    map b | b in s && !(from <= b < to) :: s[b]
  }

  /** `t` is `s` with exactly the addresses of [from, to) unmapped. */
  ghost predicate Unmapped(s: Areas, t: Areas, from: nat, to: nat) {
    forall a: int, m :: Maps(t, a, m) <==> Maps(s, a, m) && !(from <= a < to)
  }

  lemma WithoutUnmaps(s: Areas, from: nat, to: nat)
    requires Disjoint(s) && from in s && from <= to && (from < to ==> EndsAt(s, to))
    requires forall c :: c in s ==> s[c].len > 0
    ensures Unmapped(s, Without(s, from, to), from, to)
  {
    hide Disjoint;
    var t := Without(s, from, to);
    if from < to {
      forall b | b in s ensures (b < from ==> b + s[b].len <= from) && (from <= b < to ==> b + s[b].len <= to) {
        NoStraddle(s, from, to, b);
      }
      forall a: int, m ensures Maps(t, a, m) <==> Maps(s, a, m) && !(from <= a < to) {
        if Maps(t, a, m) {
          var b :| b in t && Covers(b, t[b], a) && m == MappingAt(b, t[b], a);
          assert b in s && Covers(b, s[b], a) && m == MappingAt(b, s[b], a);
        }
        if Maps(s, a, m) && !(from <= a < to) {
          var b :| b in s && Covers(b, s[b], a) && m == MappingAt(b, s[b], a);
          assert b in t && Covers(b, t[b], a) && m == MappingAt(b, t[b], a);
        }
      }
    } else {
      assert t == s;
    }
  }

  /** No area goes across the ends of a range between an area's start and an area's end. */
  lemma NoStraddle(s: Areas, from: nat, to: nat, b: nat)
    requires Disjoint(s) && from in s && EndsAt(s, to) && b in s
    ensures (b < from ==> b + s[b].len <= from) && (from <= b < to ==> b + s[b].len <= to)
  {
    var e :| e in s && e + s[e].len == to;
    assert b < e ==> b + s[b].len <= e;
  }

  /** Cutting off the front of an area and removing it. */
  lemma FrontUnmaps(s: Areas, lower: nat, upper: nat, b: nat, at: nat)
    requires Disjoint(s) && Shaped(s, lower, upper) && b in s && b < at < b + s[b].len
    ensures Unmapped(s, SplitAt(s, b, at) - {b}, b, at)
  {
    hide Disjoint, Shaped, Unmapped, SameMaps, Without, Maps;
    var t := SplitAt(s, b, at);
    SplitShape(s, lower, upper, b, at);
    FrontOnly(s, b, at, lower, upper);
    SplitMaps(s, b, at);
    WithoutUnmaps(t, b, at);
    UnmappedFrom(s, t, t - {b}, b, at);
  }

  lemma FrontOnly(s: Areas, b: nat, at: nat, lower: nat, upper: nat)
    requires Disjoint(s) && Shaped(s, lower, upper) && b in s && b < at < b + s[b].len
    ensures at !in s
    ensures var t := SplitAt(s, b, at); Without(t, b, at) == t - {b} && EndsAt(t, at)
    ensures var t := SplitAt(s, b, at); forall c :: c in t ==> t[c].len > 0
  {
    var t := SplitAt(s, b, at);
    assert b in t && b + t[b].len == at;
  }

  lemma UnmappedFrom(s: Areas, t: Areas, u: Areas, from: nat, to: nat)
    requires SameMaps(s, t) && Unmapped(t, u, from, to)
    ensures Unmapped(s, u, from, to)
  {
  }

  // ----- page totals ------------------------------------------------------------------------------

  predicate AllAligned(s: Areas) {
    forall b :: b in s ==> Aligned(b) && Aligned(s[b].len)
  }

  /** The pages of every area. */
  ghost function PageCounts(s: Areas): map<nat, nat> {
    map b | b in s :: s[b].len / PAGE_SIZE
  }

  /** The number of pages covered by the areas. */
  ghost function PageTotal(s: Areas): nat { Total(PageCounts(s)) }

  lemma PageTotalRemove(s: Areas, k: nat)
    requires k in s
    ensures PageTotal(s) == s[k].len / PAGE_SIZE + PageTotal(s - {k})
  {
    TotalRemove(PageCounts(s), k);
    assert PageCounts(s - {k}) == PageCounts(s) - {k};
  }

  lemma PageTotalPut(s: Areas, k: nat, v: Area)
    ensures PageTotal(s[k := v]) == v.len / PAGE_SIZE + PageTotal(s - {k})
  {
    var t := s[k := v];
    PageTotalRemove(t, k);
    assert t - {k} == s - {k};
  }

  /** An aligned length cut at an aligned point: two aligned parts, with as many pages together. */
  lemma AlignedParts(len: nat, n: nat)
    requires n <= len && Aligned(len) && Aligned(n)
    ensures Aligned(len - n) && n / PAGE_SIZE + (len - n) / PAGE_SIZE == len / PAGE_SIZE
  {
  }

  lemma AlignedSplit(s: Areas, b: nat, at: nat)
    requires b in s && b <= at < b + s[b].len && AllAligned(s) && Aligned(at)
    ensures AllAligned(SplitAt(s, b, at)) && Aligned(at - b) && Aligned(s[b].len)
  {
    AlignedParts(at, b);
    AlignedParts(s[b].len, at - b);
    hide Aligned;
  }

  lemma PageTotalSplit(s: Areas, b: nat, at: nat)
    requires b in s && b <= at < b + s[b].len && (at != b ==> at !in s)
    requires AllAligned(s) && Aligned(at)
    ensures AllAligned(SplitAt(s, b, at)) && PageTotal(SplitAt(s, b, at)) == PageTotal(s)
  {
    hide PageTotal, AllAligned, Aligned;
    AlignedSplit(s, b, at);
    if at != b {
      var t := s[b := Shortened(s[b], at - b)];
      PageTotalPut(s, b, Shortened(s[b], at - b));
      PageTotalPut(t, at, Second(s[b], at - b));
      assert t - {at} == t;
      PageTotalRemove(s, b);
      AlignedParts(s[b].len, at - b);
    }
  }

  // ----- walking a range ------------------------------------------------------------------------------

  /** How far a walk over [base, limit) is: still along the original areas, at the rest of a first
      area that was cut, or past a wrong cut that lost address `w`. */
  datatype Phase = Chain | Tail | Broken(w: nat)

  /** `cur` is where a walk from `base` over adjacent areas of `s` can stand. */
  ghost predicate Along(s: Areas, base: nat, limit: nat, cur: nat) {
    && base in s && cur in s && base <= cur && base <= limit
    && (cur < limit ==> Reaches(s, cur, limit, s[base].ops, s[base].obj))
    && (base < cur ==> base + s[base].len <= limit && EndsAt(s, if cur <= limit then cur else limit))
    && (cur > limit ==> limit !in s)
  }

  lemma AlongIn(s: Areas, base: nat, limit: nat, cur: nat)
    requires Along(s, base, limit, cur)
    ensures base in s && cur in s && base <= cur && base <= limit
  {
  }

  predicate IsNext(s: Areas, cur: nat, n: nat) {
    n in s && n > cur && forall x :: x in s && x > cur ==> n <= x
  }

  lemma AlongNext(s: Areas, base: nat, limit: nat, cur: nat, n: nat)
    requires Disjoint(s) && Along(s, base, limit, cur) && cur < limit && cur + s[cur].len <= limit
    requires IsNext(s, cur, n) && forall c :: c in s ==> s[c].len > 0
    ensures Along(s, base, limit, n)
  {
    assert cur in s && cur + s[cur].len == cur + s[cur].len;
    assert EndsAt(s, cur + s[cur].len);
    if cur + s[cur].len < limit {
      assert Reaches(s, cur + s[cur].len, limit, s[base].ops, s[base].obj);
      assert n == cur + s[cur].len;
    }
    if base < cur {} else { assert base + s[base].len <= limit; }
  }

  lemma AlongLast(s: Areas, base: nat, limit: nat, cur: nat)
    requires Disjoint(s) && Along(s, base, limit, cur) && cur < limit && cur + s[cur].len <= limit
    requires forall c :: c in s ==> c <= cur && s[c].len > 0
    ensures EndsAt(s, limit) && base + s[base].len <= limit && Clean(s, base, limit)
    ensures Without(s, base, limit) == Without(s, base, cur) - {cur}
  {
    hide Reaches, Without, Disjoint;
    ReachesOn(s, cur, limit, s[base].ops, s[base].obj);
    assert cur in s && cur + s[cur].len == limit;
    WithoutLast(s, base, limit, cur);
  }

  lemma WithoutLast(s: Areas, base: nat, limit: nat, cur: nat)
    requires cur in s && base <= cur < limit && forall c :: c in s ==> c <= cur
    ensures Without(s, base, limit) == Without(s, base, cur) - {cur}
  {
  }

  /** Standing at the limit, or beyond it. */
  lemma AlongStop(s: Areas, base: nat, limit: nat, cur: nat)
    requires Disjoint(s) && Along(s, base, limit, cur) && cur >= limit
    requires forall c :: c in s ==> s[c].len > 0
    ensures Clean(s, base, limit) <==> cur == limit
    ensures cur == limit && base < limit ==> EndsAt(s, limit)
  {
  }

  /** An area that goes on past the limit and is not the first one: no correct cut. */
  lemma AlongPast(s: Areas, base: nat, limit: nat, cur: nat)
    requires Disjoint(s) && Along(s, base, limit, cur) && base < cur < limit < cur + s[cur].len
    requires forall c :: c in s ==> s[c].len > 0
    ensures !Clean(s, base, limit)
  {
  }

  /** The parts of the walk that do not depend on what is done to each area. */
  ghost predicate Lost(s: Areas, t: Areas, base: nat, limit: nat, cur: nat, w: nat)
  {
    && base in s && base < cur && limit <= w && NoCover(t, w) && Covered(s, w)
    && !Clean(s, base, limit)
  }

  lemma BecomesLost(s: Areas, t: Areas, base: nat, limit: nat, cur: nat)
    requires Disjoint(s) && Along(s, base, limit, cur) && base < cur < limit < cur + s[cur].len
    requires forall c :: c in s ==> s[c].len > 0
    requires Disjoint(t) && cur in t && t[cur].len == s[cur].len
    ensures Lost(s, Trim(t, cur, base, limit), base, limit, cur, cur + s[cur].len - 1)
  {
    hide Disjoint, Trim, Along, Clean, Covered;
    AlongIn(s, base, limit, cur);
    var w := cur + s[cur].len - 1;
    TrimLoses(t, cur, base, limit);
    AlongPast(s, base, limit, cur);
    CoveredAt(s, cur, w);
  }

  lemma CoveredAt(s: Areas, b: nat, a: nat)
    requires b in s && Covers(b, s[b], a)
    ensures Covered(s, a)
  {
  }

  // ----- removing a range --------------------------------------------------------------------------

  ghost predicate UnmapStep(s: Areas, t: Areas, base: nat, limit: nat, cur: nat, phase: Phase) {
    && base in s && cur in t
    && match phase
       case Chain => Along(s, base, limit, cur) && t == Without(s, base, cur)
       case Tail => base < limit < base + s[base].len && cur == limit && t == SplitAt(s, base, limit) - {base}
       case Broken(w) => Lost(s, t, base, limit, cur, w)
  }

  /** The outcome of removing [base, limit): exactly the range is unmapped, if and only if the cut
      was clean. */
  ghost predicate UnmapEnd(s: Areas, t: Areas, base: nat, limit: nat, panic: bool)
    requires base in s
  {
    !panic && Unmapped(s, t, base, limit) <==> Clean(s, base, limit)
  }

  lemma LostEnd(s: Areas, t: Areas, base: nat, limit: nat, cur: nat, w: nat)
    requires Lost(s, t, base, limit, cur, w)
    ensures !Unmapped(s, t, base, limit)
  {
    var b :| b in s && Covers(b, s[b], w);
    assert Maps(s, w, MappingAt(b, s[b], w));
    assert !Maps(t, w, MappingAt(b, s[b], w));
  }

  lemma UnmapStops(s: Areas, t: Areas, lower: nat, upper: nat, base: nat, limit: nat, cur: nat, phase: Phase)
    requires Disjoint(s) && Shaped(s, lower, upper) && UnmapStep(s, t, base, limit, cur, phase) && limit <= cur
    ensures UnmapEnd(s, t, base, limit, limit < cur)
  {
    hide Along, Clean, Lost, Disjoint, Unmapped, EndsAt, SplitAt;
    match phase
    case Chain =>
      AlongStop(s, base, limit, cur);
      if cur == limit {
        AlongIn(s, base, limit, cur);
        WithoutUnmaps(s, base, limit);
      }
    case Tail =>
      FrontUnmaps(s, lower, upper, base, limit);
      CleanInside(s, base, limit);
    case Broken(w) =>
      LostEnd(s, t, base, limit, cur, w);
      LostUnclean(s, t, base, limit, cur, w);
  }

  lemma CleanInside(s: Areas, base: nat, limit: nat)
    requires base in s && limit < base + s[base].len
    ensures Clean(s, base, limit)
  {
  }

  lemma LostUnclean(s: Areas, t: Areas, base: nat, limit: nat, cur: nat, w: nat)
    requires Lost(s, t, base, limit, cur, w)
    ensures base in s && base < cur && limit <= w && NoCover(t, w) && !Clean(s, base, limit)
  {
  }

  /** The area at `base` was cut in two at `limit`. */
  ghost predicate CutOnce(t: Areas, cur: nat, base: nat, limit: nat)
  {
    && cur == base && base in t && base < limit < base + t[base].len && limit !in t
    && Trim(t, cur, base, limit) == SplitAt(t, base, limit)
  }

  /** One turn of the loop that removes areas. */
  lemma UnmapTurn(s: Areas, t: Areas, lower: nat, upper: nat, base: nat, limit: nat, cur: nat, phase: Phase)
    returns (after: Phase)
    requires Disjoint(s) && Shaped(s, lower, upper) && UnmapStep(s, t, base, limit, cur, phase) && cur < limit
    ensures var u := Trim(t, cur, base, limit); var next := Next(u, cur);
      && cur in u
      && (next.Some? ==> UnmapStep(s, u - {cur}, base, limit, next.value, after))
      && (next.None? ==> UnmapEnd(s, u - {cur}, base, limit, false))
    ensures after.Broken? ==> !Clean(s, base, limit)
    ensures !after.Broken? ==> !phase.Broken? && (Trim(t, cur, base, limit) == t || CutOnce(t, cur, base, limit))
  {
    hide Trim, Along, Clean, Lost, Disjoint, Shaped, CutOnce;
    match phase
    case Chain => after := ChainTurn(s, t, lower, upper, base, limit, cur);
    case Tail =>
      assert false;
    case Broken(w) =>
      after := phase;
      BrokenTurn(s, t, base, limit, cur, w);
      LostUnclean(s, t, base, limit, cur, w);
  }

  lemma BrokenTurn(s: Areas, t: Areas, base: nat, limit: nat, cur: nat, w: nat)
    requires Lost(s, t, base, limit, cur, w) && cur in t && cur < limit
    ensures cur in Trim(t, cur, base, limit)
    ensures var u := Trim(t, cur, base, limit); var next := Next(u, cur);
      && (next.Some? ==> Lost(s, u - {cur}, base, limit, next.value, w))
      && (next.None? ==> UnmapEnd(s, u - {cur}, base, limit, false))
  {
    hide Clean, Covered, Unmapped;
    var u := Trim(t, cur, base, limit);
    TrimStaysLost(t, cur, base, limit, w);
    assert NoCover(u - {cur}, w);
    assert Lost(s, u - {cur}, base, limit, cur, w);
    LostEnd(s, u - {cur}, base, limit, cur, w);
  }

  lemma ChainTurn(s: Areas, t: Areas, lower: nat, upper: nat, base: nat, limit: nat, cur: nat) returns (after: Phase)
    requires Disjoint(s) && Shaped(s, lower, upper) && Along(s, base, limit, cur) && cur < limit
    requires t == Without(s, base, cur)
    ensures var u := Trim(t, cur, base, limit); var next := Next(u, cur);
      && cur in u
      && (next.Some? ==> UnmapStep(s, u - {cur}, base, limit, next.value, after))
      && (next.None? ==> UnmapEnd(s, u - {cur}, base, limit, false))
    ensures after.Broken? ==> !Clean(s, base, limit)
    ensures !after.Broken? ==> Trim(t, cur, base, limit) == t || CutOnce(t, cur, base, limit)
  {
    hide Along, Clean, Lost, Disjoint, Unmapped, EndsAt, SplitAt;
    AlongIn(s, base, limit, cur);
    var u := Trim(t, cur, base, limit);
    var next := Next(u, cur);
    if cur + s[cur].len <= limit {
      after := Chain;
      assert u == t;
      if next.Some? {
        assert forall x :: x in s && x > cur ==> x in u;
        assert IsNext(s, cur, next.value);
        AlongNext(s, base, limit, cur, next.value);
        assert Without(s, base, next.value) == u - {cur};
      } else {
        assert forall x :: x in s && x > cur ==> x in u;
        AlongLast(s, base, limit, cur);
        WithoutUnmaps(s, base, limit);
      }
    } else if cur == base {
      after := Tail;
      assert t == s;
      CutFirst(s, base, limit);
    } else {
      after := Broken(cur + s[cur].len - 1);
      DisjointWithout(s, base, cur);
      BecomesLost(s, t, base, limit, cur);
      LostMinus(s, u, base, limit, cur, after.w);
      LostEnd(s, u - {cur}, base, limit, cur, after.w);
      LostUnclean(s, u - {cur}, base, limit, cur, after.w);
    }
  }

  lemma DisjointWithout(s: Areas, from: nat, to: nat)
    requires Disjoint(s)
    ensures Disjoint(Without(s, from, to))
  {
  }

  lemma LostMinus(s: Areas, u: Areas, base: nat, limit: nat, cur: nat, w: nat)
    requires Lost(s, u, base, limit, cur, w)
    ensures forall c :: c >= cur ==> Lost(s, u - {cur}, base, limit, c, w)
  {
  }

  /** The first area goes on past the limit: the cut is the right one. */
  lemma CutFirst(s: Areas, base: nat, limit: nat)
    requires Disjoint(s) && base in s && base < limit < base + s[base].len
    ensures Trim(s, base, base, limit) == SplitAt(s, base, limit)
    ensures Next(SplitAt(s, base, limit), base) == Some(limit) && CutOnce(s, base, base, limit)
  {
    var u := SplitAt(s, base, limit);
    assert limit !in s;
    assert forall c :: c in u && c > base ==> c >= limit;
    assert limit in u;
  }

  /** Two adjacent areas: a range that ends inside the second is cut wrongly, and one that ends with
      the second while a third lies further up stops on the assertion. */
  lemma UncleanRanges()
    ensures
      var v := Area(0x2000, Anon, 0, 0, RW);
      var s := map[0x400000 := v, 0x402000 := v, 0x408000 := v];
      && Disjoint(s) && Shaped(s, 0x400000, 0xC000_0000)
      && Reaches(s, 0x400000, 0x403000, Anon, 0) && !Clean(s, 0x400000, 0x403000)
      && Reaches(s, 0x400000, 0x404000, Anon, 0) && !Clean(s, 0x400000, 0x404000)
      && Clean(s, 0x400000, 0x401000) && Clean(s, 0x400000, 0x402000)
  {
    var v := Area(0x2000, Anon, 0, 0, RW);
    var s := map[0x400000 := v, 0x402000 := v, 0x408000 := v];
    assert Reaches(s, 0x402000, 0x403000, Anon, 0);
    assert Reaches(s, 0x402000, 0x404000, Anon, 0);
    assert 0x408000 in s;
    assert 0x400000 in s && 0x400000 + s[0x400000].len == 0x402000;
  }

  // ----- changing the rights of a range ------------------------------------------------------------

  const RD := Rights(true, false, false)
  const RW := Rights(true, true, false)
  const RX := Rights(true, false, true)

  /** A library area takes rights once, and only these three. */
  predicate Refuses(ops: Ops, r: Rights, f: Rights) {
    ops.Dlib? && (r != NO_RIGHTS || (f != RX && f != RW && f != RD))
  }

  function NewRights(ops: Ops, r: Rights, f: Rights): Rights {
    if Refuses(ops, r, f) then r
    else if ops.File? || ops.FileCopy? then Rights(f.rd, f.wr, false)
    else f
  }

  function Reprotect(v: Area, f: Rights): Area {
    Area(v.len, v.ops, v.obj, v.off, NewRights(v.ops, v.rights, f))
  }

  function Remap(m: Mapping, f: Rights): Mapping {
    Mapping(m.ops, m.obj, m.off, NewRights(m.ops, m.rights, f))
  }

  /** Mapping `m` is `n` under new rights, kind by kind: anonymous memory takes them all, files all but
      execution, and a library, once it has any, keeps its own; till then it takes reading, alone or with
      one of the other two, and nothing else. */
  predicate Regranted(n: Mapping, m: Mapping, f: Rights) {
    var held := n.rights.rd || n.rights.wr || n.rights.ex;
    var kept := n.ops.Dlib? && (held || !f.rd || (f.wr && f.ex));
    && m.ops == n.ops && m.obj == n.obj && m.off == n.off
    && (m.rights.rd <==> if kept then n.rights.rd else f.rd)
    && (m.rights.wr <==> if kept then n.rights.wr else f.wr)
    && (m.rights.ex <==> if kept then n.rights.ex else f.ex && !n.ops.File? && !n.ops.FileCopy?)
  }

  lemma RemapRegrants(n: Mapping, m: Mapping, f: Rights)
    ensures m == Remap(n, f) <==> Regranted(n, m, f)
  {
    assert m.rights == Rights(m.rights.rd, m.rights.wr, m.rights.ex);
    assert n.rights == Rights(n.rights.rd, n.rights.wr, n.rights.ex);
  }

  function Redone(s: Areas, from: nat, to: nat, f: Rights): Areas {
    map b | b in s :: if from <= b < to then Reprotect(s[b], f) else s[b]
  }

  /** `t` is `s` with the new rights on exactly the addresses of [from, to). */
  ghost predicate Protected(s: Areas, t: Areas, from: nat, to: nat, f: Rights) {
    forall a: int, m :: Maps(t, a, m) <==>
      if from <= a < to then Remapped(s, a, m, f) else Maps(s, a, m)
  }

  /** Mapping `m` is what the address has, with new rights. */
  ghost predicate Remapped(s: Areas, a: int, m: Mapping, f: Rights) {
    exists n :: Maps(s, a, n) && Regranted(n, m, f)
  }

  /** Some area with an address in [from, to) refuses the new rights. */
  ghost predicate SomeRefuses(s: Areas, from: nat, to: nat, f: Rights) {
    from < to && exists b :: b in s && b < to && from < b + s[b].len && Refuses(s[b].ops, s[b].rights, f)
  }

  lemma RedoneProtects(s: Areas, from: nat, to: nat, f: Rights)
    requires Disjoint(s) && from in s && from <= to && (from < to ==> EndsAt(s, to))
    requires forall c :: c in s ==> s[c].len > 0
    ensures Protected(s, Redone(s, from, to, f), from, to, f)
  {
    forall b | b in s ensures (from <= b < to ==> b + s[b].len <= to) && (b < from ==> b + s[b].len <= from) {
      if from < to { var e :| e in s && e + s[e].len == to; }
    }
    hide Disjoint, EndsAt, Redone, Maps, Remapped;
    forall a: int, m ensures Maps(Redone(s, from, to, f), a, m) <==>
      if from <= a < to then Remapped(s, a, m, f) else Maps(s, a, m)
    {
      RedoneAt(s, from, to, f, a, m);
    }
  }

  lemma RedoneAt(s: Areas, from: nat, to: nat, f: Rights, a: int, m: Mapping)
    requires forall b :: b in s ==> (from <= b < to ==> b + s[b].len <= to) && (b < from ==> b + s[b].len <= from)
    ensures Maps(Redone(s, from, to, f), a, m) <==>
      if from <= a < to then Remapped(s, a, m, f) else Maps(s, a, m)
  {
    hide NewRights, Regranted;
    var t := Redone(s, from, to, f);
    if Maps(t, a, m) {
      var b :| b in t && Covers(b, t[b], a) && m == MappingAt(b, t[b], a);
      assert Maps(s, a, MappingAt(b, s[b], a));
      RemapRegrants(MappingAt(b, s[b], a), m, f);
    }
    if n :| Maps(s, a, n) && (if from <= a < to then Regranted(n, m, f) else m == n) {
      RemapRegrants(n, m, f);
      var b :| b in s && Covers(b, s[b], a) && n == MappingAt(b, s[b], a);
      assert b in t && Covers(b, t[b], a) && m == MappingAt(b, t[b], a);
    }
  }

  ghost predicate ProtectStep(s: Areas, t: Areas, base: nat, limit: nat, f: Rights, cur: nat, phase: Phase) {
    && base in s && cur in t
    && match phase
       case Chain => Along(s, base, limit, cur) && t == Redone(s, base, cur, f)
       case Tail => base < limit < base + s[base].len && cur == limit
                    && t == Redone(SplitAt(s, base, limit), base, limit, f)
       case Broken(w) => Lost(s, t, base, limit, cur, w)
  }

  ghost predicate ProtectEnd(s: Areas, t: Areas, base: nat, limit: nat, f: Rights, panic: bool)
    requires base in s
  {
    !panic && Protected(s, t, base, limit, f) <==> Clean(s, base, limit)
  }

  lemma LostProtect(s: Areas, t: Areas, base: nat, limit: nat, f: Rights, cur: nat, w: nat)
    requires Lost(s, t, base, limit, cur, w)
    ensures !Protected(s, t, base, limit, f)
  {
    var b :| b in s && Covers(b, s[b], w);
    assert Maps(s, w, MappingAt(b, s[b], w));
    assert !Maps(t, w, MappingAt(b, s[b], w));
  }

  lemma ProtectedFrom(s: Areas, t: Areas, u: Areas, from: nat, to: nat, f: Rights)
    requires SameMaps(s, t) && Protected(t, u, from, to, f)
    ensures Protected(s, u, from, to, f)
  {
    forall a: int, m ensures Maps(u, a, m) <==>
      if from <= a < to then Remapped(s, a, m, f) else Maps(s, a, m)
    {
      if from <= a < to {
        assert Remapped(t, a, m, f) <==> Remapped(s, a, m, f);
      }
    }
  }

  lemma FrontProtects(s: Areas, lower: nat, upper: nat, b: nat, at: nat, f: Rights)
    requires Disjoint(s) && Shaped(s, lower, upper) && b in s && b < at < b + s[b].len
    ensures Protected(s, Redone(SplitAt(s, b, at), b, at, f), b, at, f)
  {
    hide Disjoint, Shaped, Protected, SameMaps, Redone, Without, Maps;
    var t := SplitAt(s, b, at);
    SplitShape(s, lower, upper, b, at);
    FrontOnly(s, b, at, lower, upper);
    SplitMaps(s, b, at);
    RedoneProtects(t, b, at, f);
    ProtectedFrom(s, t, Redone(t, b, at, f), b, at, f);
  }

  lemma ProtectStops(s: Areas, t: Areas, lower: nat, upper: nat, base: nat, limit: nat, f: Rights, cur: nat,
                     phase: Phase)
    requires Disjoint(s) && Shaped(s, lower, upper) && ProtectStep(s, t, base, limit, f, cur, phase) && limit <= cur
    ensures ProtectEnd(s, t, base, limit, f, limit < cur)
  {
    hide Along, Clean, Lost, Disjoint, Protected, EndsAt, SplitAt, Redone;
    match phase
    case Chain =>
      AlongStop(s, base, limit, cur);
      if cur == limit {
        AlongIn(s, base, limit, cur);
        RedoneProtects(s, base, limit, f);
      }
    case Tail =>
      FrontProtects(s, lower, upper, base, limit, f);
      CleanInside(s, base, limit);
    case Broken(w) =>
      LostProtect(s, t, base, limit, f, cur, w);
      LostUnclean(s, t, base, limit, cur, w);
  }

  /** One turn of the loop that changes rights. */
  lemma ProtectTurn(s: Areas, t: Areas, lower: nat, upper: nat, base: nat, limit: nat, f: Rights, cur: nat,
                    phase: Phase) returns (after: Phase)
    requires Disjoint(s) && Shaped(s, lower, upper) && ProtectStep(s, t, base, limit, f, cur, phase) && cur < limit
    ensures cur in Trim(t, cur, base, limit)
    ensures var u := Trim(t, cur, base, limit); var v := u[cur := Reprotect(u[cur], f)]; var next := Next(v, cur);
      && (next.Some? ==> ProtectStep(s, v, base, limit, f, next.value, after))
      && (next.None? ==> ProtectEnd(s, v, base, limit, f, false))
    ensures after.Broken? ==> !Clean(s, base, limit)
    ensures !after.Broken? ==> phase.Chain? && (Trim(t, cur, base, limit) == t || CutOnce(t, cur, base, limit))
  {
    hide Trim, Along, Clean, Lost, Disjoint, Shaped, CutOnce, Redone;
    match phase
    case Chain => after := ChainProtect(s, t, lower, upper, base, limit, f, cur);
    case Tail =>
      assert false;
    case Broken(w) =>
      after := phase;
      BrokenProtect(s, t, base, limit, f, cur, w);
      LostUnclean(s, t, base, limit, cur, w);
  }

  lemma BrokenProtect(s: Areas, t: Areas, base: nat, limit: nat, f: Rights, cur: nat, w: nat)
    requires Lost(s, t, base, limit, cur, w) && cur in t && cur < limit
    ensures cur in Trim(t, cur, base, limit)
    ensures var u := Trim(t, cur, base, limit); var v := u[cur := Reprotect(u[cur], f)]; var next := Next(v, cur);
      && (next.Some? ==> Lost(s, v, base, limit, next.value, w))
      && (next.None? ==> ProtectEnd(s, v, base, limit, f, false))
  {
    hide Clean, Covered, Protected;
    var u := Trim(t, cur, base, limit);
    TrimStaysLost(t, cur, base, limit, w);
    var v := u[cur := Reprotect(u[cur], f)];
    LostRights(s, u, base, limit, f, cur, Next(v, cur), w);
    LostProtect(s, v, base, limit, f, cur, w);
  }

  lemma LostRights(s: Areas, u: Areas, base: nat, limit: nat, f: Rights, cur: nat, next: Option<nat>, w: nat)
    requires Lost(s, u, base, limit, cur, w) && cur in u && (next.Some? ==> next.value > cur)
    ensures var v := u[cur := Reprotect(u[cur], f)];
      Lost(s, v, base, limit, cur, w) && (next.Some? ==> Lost(s, v, base, limit, next.value, w))
  {
    var v := u[cur := Reprotect(u[cur], f)];
    forall b | b in v ensures !Covers(b, v[b], w) { assert !Covers(b, u[b], w); }
  }

  lemma ChainProtect(s: Areas, t: Areas, lower: nat, upper: nat, base: nat, limit: nat, f: Rights, cur: nat)
    returns (after: Phase)
    requires Disjoint(s) && Shaped(s, lower, upper) && Along(s, base, limit, cur) && cur < limit
    requires t == Redone(s, base, cur, f)
    ensures cur in Trim(t, cur, base, limit)
    ensures var u := Trim(t, cur, base, limit); var v := u[cur := Reprotect(u[cur], f)]; var next := Next(v, cur);
      && (next.Some? ==> ProtectStep(s, v, base, limit, f, next.value, after))
      && (next.None? ==> ProtectEnd(s, v, base, limit, f, false))
    ensures after.Broken? ==> !Clean(s, base, limit)
    ensures !after.Broken? ==> Trim(t, cur, base, limit) == t || CutOnce(t, cur, base, limit)
  {
    hide Along, Clean, Lost, Disjoint, Protected, EndsAt, SplitAt, Reprotect, Redone, Without;
    AlongIn(s, base, limit, cur);
    SameLengths(s, base, cur, f);
    var u := Trim(t, cur, base, limit);
    var v := u[cur := Reprotect(u[cur], f)];
    var next := Next(v, cur);
    if cur + s[cur].len <= limit {
      after := Chain;
      assert u == t && v.Keys == s.Keys;
      assert forall x :: x in s ==> x in v;
      if next.Some? {
        AlongNext(s, base, limit, cur, next.value);
        RedoneStep(s, base, cur, next.value, f);
      } else {
        AlongLast(s, base, limit, cur);
        RedoneProtects(s, base, limit, f);
        RedoneStep(s, base, cur, limit, f);
      }
    } else if cur == base {
      after := Tail;
      CutFirst(s, base, limit);
      RedoneFirst(s, base, limit, f);
    } else {
      after := Broken(cur + s[cur].len - 1);
      BecomesLost(s, t, base, limit, cur);
      LostRights(s, u, base, limit, f, cur, next, after.w);
      LostProtect(s, v, base, limit, f, cur, after.w);
      LostUnclean(s, v, base, limit, cur, after.w);
    }
  }

  lemma RedoneStep(s: Areas, base: nat, cur: nat, n: nat, f: Rights)
    requires cur in s && base <= cur < n && forall x :: x in s ==> x <= cur || x >= n
    ensures cur in Redone(s, base, cur, f)
    ensures var t := Redone(s, base, cur, f); Redone(s, base, n, f) == t[cur := Reprotect(t[cur], f)]
  {
  }

  lemma SameLengths(s: Areas, from: nat, to: nat, f: Rights)
    requires Disjoint(s)
    ensures Redone(s, from, to, f).Keys == s.Keys && Disjoint(Redone(s, from, to, f))
    ensures from >= to ==> Redone(s, from, to, f) == s
    ensures forall b :: b in s ==> Redone(s, from, to, f)[b].len == s[b].len
  {
  }

  /** Which areas refuse, one area further. */
  lemma RefusesTurn(s: Areas, base: nat, cur: nat, n: nat, f: Rights)
    requires Disjoint(s) && base in s && cur in s && s[cur].len > 0 && base <= cur < n
    requires forall x :: x in s ==> x <= cur || x >= n
    ensures SomeRefuses(s, base, n, f) <==> SomeRefuses(s, base, cur, f) || Refuses(s[cur].ops, s[cur].rights, f)
  {
    if SomeRefuses(s, base, cur, f) {
      var b :| b in s && b < cur && base < b + s[b].len && Refuses(s[b].ops, s[b].rights, f);
      assert b < n;
    }
  }

  /** ... in the terms of the loop. */
  lemma ProtectRefuses(s: Areas, t: Areas, lower: nat, upper: nat, base: nat, limit: nat, f: Rights, cur: nat)
    requires ProtectStep(s, t, base, limit, f, cur, Chain) && cur < limit && Disjoint(s) && Shaped(s, lower, upper)
    requires Trim(t, cur, base, limit) == t || CutOnce(t, cur, base, limit)
    ensures cur in Trim(t, cur, base, limit)
    ensures var u := Trim(t, cur, base, limit); var next := Next(u[cur := Reprotect(u[cur], f)], cur);
      SomeRefuses(s, base, if next.Some? then next.value else limit, f) <==>
        SomeRefuses(s, base, cur, f) || Refuses(u[cur].ops, u[cur].rights, f)
  {
    hide Along, SomeRefuses, CutOnce, EndsAt, Clean;
    AlongIn(s, base, limit, cur);
    var u := Trim(t, cur, base, limit);
    var v := u[cur := Reprotect(u[cur], f)];
    var next := Next(v, cur);
    if CutOnce(t, cur, base, limit) {
      CutIsFirst(t, cur, base, limit);
      assert t == s;
      CutFirst(s, base, limit);
      RedoneFirst(s, base, limit, f);
    }
    assert forall x :: x in s && x > cur ==> x in v;
    RefusesTurn(s, base, cur, if next.Some? then next.value else limit, f);
  }

  lemma CutIsFirst(t: Areas, cur: nat, base: nat, limit: nat)
    requires CutOnce(t, cur, base, limit)
    ensures cur == base && base in t && base < limit < base + t[base].len
  {
  }

  lemma RedoneFirst(s: Areas, base: nat, limit: nat, f: Rights)
    requires Disjoint(s) && base in s && base < limit < base + s[base].len
    ensures base in SplitAt(s, base, limit)
    ensures var u := SplitAt(s, base, limit); var v := u[base := Reprotect(u[base], f)];
      v == Redone(u, base, limit, f) && Next(v, base) == Some(limit)
  {
    var u := SplitAt(s, base, limit);
    var v := u[base := Reprotect(u[base], f)];
    assert forall c :: c in v && c > base ==> c >= limit;
    assert limit in v;
  }

  lemma UnmapStarts(s: Areas, base: nat, limit: nat)
    requires base in s && base <= limit && Reaches(s, base, limit, s[base].ops, s[base].obj)
    ensures UnmapStep(s, s, base, limit, base, Chain)
  {
  }

  /** Shape and page count of areas that no wrong cut has touched. */
  ghost predicate Tidy(t: Areas, vSize: int, lower: nat, upper: nat, exact: bool) {
    Disjoint(t) && Shaped(t, lower, upper) && (exact ==> AllAligned(t) && vSize == PageTotal(t))
  }

  lemma TidyTrim(t: Areas, vSize: int, lower: nat, upper: nat, exact: bool, cur: nat, base: nat, limit: nat)
    requires cur in t && cur <= limit && Tidy(t, vSize, lower, upper, exact) && (exact ==> Aligned(limit))
    requires Trim(t, cur, base, limit) == t || CutOnce(t, cur, base, limit)
    ensures Tidy(Trim(t, cur, base, limit), vSize, lower, upper, exact)
  {
    hide Trim, Disjoint, Shaped, AllAligned, PageTotal, SplitAt;
    if CutOnce(t, cur, base, limit) {
      SplitShape(t, lower, upper, base, limit);
      if exact { PageTotalSplit(t, base, limit); }
    }
  }

  lemma TidyTurn(t: Areas, vSize: int, lower: nat, upper: nat, exact: bool, cur: nat, base: nat, limit: nat)
    requires cur in t && cur <= limit && Tidy(t, vSize, lower, upper, exact) && (exact ==> Aligned(limit))
    requires Trim(t, cur, base, limit) == t || CutOnce(t, cur, base, limit)
    ensures var u := Trim(t, cur, base, limit);
      cur in u && Tidy(u - {cur}, vSize - u[cur].len / PAGE_SIZE, lower, upper, exact)
  {
    hide PageTotal, SplitAt;
    var u := Trim(t, cur, base, limit);
    TidyTrim(t, vSize, lower, upper, exact, cur, base, limit);
    PageTotalRemove(u, cur);
  }

  lemma ProtectStarts(s: Areas, base: nat, limit: nat, f: Rights)
    requires base in s && base <= limit && Reaches(s, base, limit, s[base].ops, s[base].obj)
    ensures ProtectStep(s, s, base, limit, f, base, Chain)
  {
    assert Redone(s, base, base, f) == s;
  }

  lemma NoneRefuse(s: Areas, base: nat, f: Rights)
    requires base in s && Disjoint(s)
    ensures !SomeRefuses(s, base, base, f)
  {
  }

  lemma TidyRights(t: Areas, vSize: int, lower: nat, upper: nat, exact: bool, cur: nat, f: Rights)
    requires cur in t && Tidy(t, vSize, lower, upper, exact)
    ensures Tidy(t[cur := Reprotect(t[cur], f)], vSize, lower, upper, exact)
  {
    PageTotalPut(t, cur, Reprotect(t[cur], f));
    PageTotalRemove(t, cur);
  }

  lemma OneCovers(s: Areas, b: nat, a: int)
    requires b in s && Covers(b, s[b], a) && Disjoint(s)
    ensures forall c :: c in s && Covers(c, s[c], a) ==> c == b
  {
  }

  lemma WholeUnmaps(s: Areas, b: nat)
    requires b in s && Disjoint(s) && forall c :: c in s ==> s[c].len > 0
    ensures Unmapped(s, s - {b}, b, b + s[b].len)
  {
    assert EndsAt(s, b + s[b].len);
    WithoutUnmaps(s, b, b + s[b].len);
    assert Without(s, b, b + s[b].len) == s - {b};
  }

  /** After the boundary at `base` is in place the walk may start. */
  lemma SplitReady(s: Areas, lower: nat, upper: nat, b: nat, base: nat, length: nat)
    requires Disjoint(s) && Shaped(s, lower, upper) && b in s && Covers(b, s[b], base)
    ensures var t := SplitAt(s, b, base);
      && Disjoint(t) && Shaped(t, lower, upper) && base in t && SameMaps(s, t)
      && (Reaches(s, b, base + length, s[b].ops, s[b].obj) ==>
          Reaches(t, base, base + length, t[base].ops, t[base].obj))
      && (Clean(s, b, base + length) <==> Clean(t, base, base + length))
    ensures base != b ==> base !in s
  {
    SplitShape(s, lower, upper, b, base);
    SplitMaps(s, b, base);
    CleanSplit(s, b, base, base + length);
    if Reaches(s, b, base + length, s[b].ops, s[b].obj) {
      ReachesSplit(s, b, base, base + length, s[b].ops, s[b].obj);
    }
  }

  /** The end of a range that starts in an area, as the code computes it. */
  lemma EndSum(s: Areas, lower: nat, upper: nat, base: nat, length: nat)
    requires Shaped(s, lower, upper) && base in s && upper < WORD && length < WORD
    ensures base + length < WORD ==> Add(base, length) == base + length
    ensures base + length >= WORD ==> Add(base, length) < base && s[base].len != length
  {
  }

  /** A range whose end wraps is let through if its area is divisible; any other, if it is covered. */
  lemma EndAccepts(s: Areas, lower: nat, upper: nat, b: nat, base: nat, length: nat)
    requires Shaped(s, lower, upper) && b in s && Covers(b, s[b], base) && upper < WORD && length < WORD
    ensures base + length < WORD ==>
      (Vmsp.Accepts(s, b, base, length) <==>
       s[b].ops.Divisible() && Reaches(s, b, base + length, s[b].ops, s[b].obj))
    ensures base + length >= WORD ==> (Vmsp.Accepts(s, b, base, length) <==> s[b].ops.Divisible())
  {
  }

  /** Asking to unmap all but a page of the address space from one anonymous area on: the range is let
      through although the areas do not cover it. */
  lemma WrappedRange()
    ensures
      var s, base, n := map[0x400000 := Area(0x2000, Anon, 0, 0, RW)], 0x400000, 0xFFFF_F000;
      && Disjoint(s) && Shaped(s, 0x400000, 0xC000_0000) && base + n >= WORD
      && Vmsp.Accepts(s, base, base, n) && !Vmsp.CutsRight(s, base, base, n)
      && !Reaches(s, base, base + n, Anon, 0)
  {
    var s := map[0x400000 := Area(0x2000, Anon, 0, 0, RW)];
    assert 0x402000 !in s;
    assert !Reaches(s, 0x402000, 0x1_003F_F000, Anon, 0);
  }

  lemma UnmapFrom(s: Areas, u: Areas, b: nat, base: nat, limit: nat)
    requires b in s && Covers(b, s[b], base) && SameMaps(s, SplitAt(s, b, base))
    ensures Unmapped(SplitAt(s, b, base), u, base, limit) <==> Unmapped(s, u, base, limit)
  {
  }

  lemma ProtectFrom(s: Areas, u: Areas, b: nat, base: nat, limit: nat, f: Rights)
    requires b in s && Covers(b, s[b], base) && SameMaps(s, SplitAt(s, b, base))
    ensures Protected(SplitAt(s, b, base), u, base, limit, f) <==> Protected(s, u, base, limit, f)
  {
    hide Maps, SplitAt;
    var t := SplitAt(s, b, base);
    if Protected(t, u, base, limit, f) { ProtectedFrom(s, t, u, base, limit, f); }
    if Protected(s, u, base, limit, f) { ProtectedFrom(t, s, u, base, limit, f); }
  }

  lemma RefusesSplit(s: Areas, b: nat, base: nat, limit: nat, f: Rights)
    requires b in s && Covers(b, s[b], base) && Disjoint(s)
    ensures SomeRefuses(SplitAt(s, b, base), base, limit, f) <==> SomeRefuses(s, base, limit, f)
  {
    hide Refuses, SplitAt, Disjoint;
    var t := SplitAt(s, b, base);
    SplitIs(s, b, base);
    forall c | c in s && c != b ensures c != base { NotInside(s, b, base, c); }
    if SomeRefuses(s, base, limit, f) {
      var c :| c in s && c < limit && base < c + s[c].len && Refuses(s[c].ops, s[c].rights, f);
      var d := if c == b then base else c;
      assert d in t && Refuses(t[d].ops, t[d].rights, f);
    }
    if SomeRefuses(t, base, limit, f) {
      var c :| c in t && c < limit && base < c + t[c].len && Refuses(t[c].ops, t[c].rights, f);
      var d := if c == base then b else c;
      assert d in s && Refuses(s[d].ops, s[d].rights, f);
    }
  }

  predicate BadRequest(length: nat, offset: nat) {
    length == 0 || length % PAGE_SIZE != 0 || offset % PAGE_SIZE != 0
  }

  /** Which slot a request gets, and how it fails. */
  ghost predicate ChooseSpec(s: Areas, lower: nat, upper: nat, address: nat, length: nat, fixed: bool, r: MapResult) {
    if address != 0 && HintTaken(s, lower, upper, address, length) then r == Mapped(address)
    else if address != 0 && fixed then r == Refused(ERANGE)
    else exists b :: SlotSpec(s, lower, upper, length, b) && r == if b == 0 then Refused(ENOMEM) else Mapped(b)
  }

  /** Whether the slot a request gets is free: the end of the hint does not wrap, or there is room. */
  ghost predicate Sound(s: Areas, lower: nat, upper: nat, address: nat, length: nat) {
    if address != 0 && HintTaken(s, lower, upper, address, length) then address + length < WORD
    else HasRoom(s, lower, upper, length)
  }

  /** The assertions of vma_create: some areas are the kernel's only, some need an object. */
  predicate Permits(kernel: bool, ops: Ops, obj: nat) {
    && (ops.Pipe? || ops.Phys? ==> kernel)
    && (ops.FileCopy? || ops.File? || ops.Dlib? ==> obj != 0)
  }

  /** vma_create, as far as areas go. */
  function NewArea(length: nat, ops: Ops, obj: nat, offset: int, f: Rights): (v: Area)
    ensures v.len == length && v.ops == ops
  {
    match ops
    case Anon => Area(length, ops, 0, 0, Rights(f.rd, f.wr && !f.ex, f.ex))
    case Stack => Area(length, ops, obj, 0, RW)
    case Heap => Area(length, ops, 0, 0, RW)
    case Pipe => Area(length, ops, obj, 0, RW)
    case Phys => Area(length, ops, 0, offset, Rights(f.rd, f.wr, false))
    case FileCopy => Area(length, ops, obj, offset, Rights(f.rd, f.wr, false))
    case File => Area(length, ops, obj, offset, Rights(f.rd, f.wr, false))
    case Dlib => Area(length, ops, obj, offset, NO_RIGHTS)
  }

  lemma ChosenFree(s: Areas, lower: nat, upper: nat, address: nat, length: nat, fixed: bool, r: MapResult)
    requires Disjoint(s) && Shaped(s, lower, upper) && upper < WORD && address < WORD && 0 < length < WORD
    requires ChooseSpec(s, lower, upper, address, length, fixed, r) && r.Mapped?
    ensures Free(s, lower, upper, r.base, length) <==> Sound(s, lower, upper, address, length)
  {
    hide HintTaken, Free;
    HintExact(s, lower, upper, address, length);
  }

  /** An area put where its range is not free: it is out of bounds, overlaps, or is not entered. */
  lemma AddsWrong(s: Areas, lower: nat, upper: nat, b: nat, v: Area)
    requires Disjoint(s) && Shaped(s, lower, upper) && v.len > 0 && !Free(s, lower, upper, b, v.len)
    ensures var t := if b in s then s else s[b := v];
      !(Disjoint(t) && Shaped(t, lower, upper) && Adds(s, t, b, v))
  {
    if b in s {
      assert Covers(b, s[b], b) && Covers(b, v, b);
      assert Maps(s, b, MappingAt(b, s[b], b));
    } else {
      var t := s[b := v];
      assert t[b] == v;
      if lower <= b && b + v.len <= upper {
        var c :| c in s && !(b + v.len <= c || c + s[c].len <= b);
        assert t[c] == s[c];
      }
    }
  }

  lemma AddsArea(s: Areas, lower: nat, upper: nat, b: nat, v: Area)
    requires Disjoint(s) && Shaped(s, lower, upper) && v.len > 0 && Free(s, lower, upper, b, v.len)
    ensures b !in s && Disjoint(s[b := v]) && Shaped(s[b := v], lower, upper) && Adds(s, s[b := v], b, v)
  {
    var t := s[b := v];
    assert b !in s;
    AddsMaps(s, b, v);
  }

  lemma AddsMaps(s: Areas, b: nat, v: Area)
    requires b !in s && forall c :: c in s ==> b + v.len <= c || c + s[c].len <= b
    ensures Adds(s, s[b := v], b, v)
  {
    var t := s[b := v];
    forall a: int, m
      ensures Maps(t, a, m) <==> if Covers(b, v, a) then m == MappingAt(b, v, a) else Maps(s, a, m)
    {
      if Maps(t, a, m) {
        var c :| c in t && Covers(c, t[c], a) && m == MappingAt(c, t[c], a);
        if c != b { assert c in s && Covers(c, s[c], a) && m == MappingAt(c, s[c], a); }
      }
      if !Covers(b, v, a) && Maps(s, a, m) {
        var c :| c in s && Covers(c, s[c], a) && m == MappingAt(c, s[c], a);
        assert c in t && Covers(c, t[c], a) && m == MappingAt(c, t[c], a);
      }
      if Covers(b, v, a) && m == MappingAt(b, v, a) {
        assert b in t && Covers(b, t[b], a) && m == MappingAt(b, t[b], a);
      }
    }
  }

  lemma AlignedSlot(s: Areas, b: nat, v: Area)
    requires AllAligned(s) && Aligned(v.len) && b !in s
    ensures AllAligned(s[b := v]) <==> Aligned(b)
    ensures PageTotal(s[b := v]) == PageTotal(s) + v.len / PAGE_SIZE
  {
    PageTotalPut(s, b, v);
    assert s - {b} == s;
    assert s[b := v][b] == v;
  }

  /** Where an area ends is aligned. */
  lemma AlignedEnd(s: Areas, b: nat)
    requires AllAligned(s) && EndsAt(s, b)
    ensures Aligned(b)
  {
    var c :| c in s && c + s[c].len == b;
    assert Aligned(c) && Aligned(s[c].len);
  }

  /** `t` is `s` with the area `v` put at `b`, where nothing was mapped. */
  ghost predicate Adds(s: Areas, t: Areas, b: nat, v: Area) {
    && (forall a: int, m :: Maps(t, a, m) <==> if Covers(b, v, a) then m == MappingAt(b, v, a) else Maps(s, a, m))
    && (forall a: int, m :: Covers(b, v, a) ==> !Maps(s, a, m))
  }

  /** What an address of a new area is mapped to, `at` bytes from its start, kind by kind: the object and
      the place in it, and each right of those asked for. */
  predicate Granted(m: Mapping, ops: Ops, obj: nat, offset: int, at: int, f: Rights) {
    var owned := ops.Stack? || ops.Heap? || ops.Pipe?;
    && m.ops == ops
    && m.obj == (if ops.Backed() || ops.Stack? || ops.Pipe? then obj else 0)
    && m.off == (if ops.Anon? then 0 else if ops.Backed() || ops.Phys? then offset + at else at)
    && (m.rights.rd <==> owned || (f.rd && !ops.Dlib?))
    && (m.rights.wr <==> owned || (f.wr && !ops.Dlib? && !(ops.Anon? && f.ex)))
    && (m.rights.ex <==> ops.Anon? && f.ex)
  }

  /** `t` maps what `s` does, and on the range, where `s` maps nothing, what was asked for. */
  ghost predicate Gains(s: Areas, t: Areas, base: nat, length: nat, ops: Ops, obj: nat, offset: int, f: Rights) {
    && (forall a: int, m :: Maps(t, a, m) <==>
          if base <= a < base + length then Granted(m, ops, obj, offset, a - base, f) else Maps(s, a, m))
    && (forall a: int, m :: base <= a < base + length ==> !Maps(s, a, m))
  }

  /** vma_create grants each kind of area what is asked for it. */
  lemma CreateGrants(s: Areas, t: Areas, base: nat, length: nat, ops: Ops, obj: nat, offset: int, f: Rights)
    requires Adds(s, t, base, NewArea(length, ops, obj, offset, f))
    ensures Gains(s, t, base, length, ops, obj, offset, f)
  {
    hide Maps;
    var v := NewArea(length, ops, obj, offset, f);
    forall a: int, m ensures Maps(t, a, m) <==>
      if base <= a < base + length then Granted(m, ops, obj, offset, a - base, f) else Maps(s, a, m)
    {
      GrantedOne(m, base, length, ops, obj, offset, a, f);
    }
  }

  lemma GrantedOne(m: Mapping, b: nat, length: nat, ops: Ops, obj: nat, offset: int, a: int, f: Rights)
    ensures m == MappingAt(b, NewArea(length, ops, obj, offset, f), a) <==> Granted(m, ops, obj, offset, a - b, f)
  {
    assert m.rights == Rights(m.rights.rd, m.rights.wr, m.rights.ex);
  }

  // ----- copying areas ------------------------------------------------------------------------------

  /** vma_clone, as far as areas go: kinds without a clone operation lose their object and offset. */
  function Copy(v: Area): Area {
    if v.ops.FileCopy? || v.ops.File? || v.ops.Dlib? then v else Area(v.len, v.ops, 0, 0, v.rights)
  }

  function Copies(s: Areas): Areas { map b | b in s :: Copy(s[b]) }

  /** The copy of the area maps what the area does. */
  predicate Carried(v: Area) {
    v.ops.FileCopy? || v.ops.File? || v.ops.Dlib? || (v.obj == 0 && (v.ops.Anon? || v.off == 0))
  }

  lemma CopyMapsIff(b: nat, v: Area, a: int)
    ensures MappingAt(b, Copy(v), a) == MappingAt(b, v, a) <==> Carried(v)
  {
  }

  lemma CopyMaps(s: Areas, a: int, m: Mapping)
    requires forall b :: b in s ==> Carried(s[b])
    ensures Maps(s, a, m) <==> Maps(Copies(s), a, m)
  {
    hide Carried, MappingAt;
    var t := Copies(s);
    if Maps(s, a, m) {
      var b :| b in s && Covers(b, s[b], a) && m == MappingAt(b, s[b], a);
      CopyMapsIff(b, s[b], a);
      assert b in t && Covers(b, t[b], a);
    }
    if Maps(t, a, m) {
      var b :| b in t && Covers(b, t[b], a) && m == MappingAt(b, t[b], a);
      CopyMapsIff(b, s[b], a);
      assert b in s && Covers(b, s[b], a);
    }
  }

  /** The copies map every address to what the areas do, if and only if each is carried over: a stack that
      names its task, or an area of physical memory at an offset, is not. */
  lemma CopiesMapIff(s: Areas, lower: nat, upper: nat)
    requires Disjoint(s) && Shaped(s, lower, upper)
    ensures SameMaps(s, Copies(s)) <==> forall b :: b in s ==> Carried(s[b])
  {
    hide Carried, MappingAt;
    if forall b :: b in s ==> Carried(s[b]) {
      forall a: int, m ensures Maps(s, a, m) <==> Maps(Copies(s), a, m) { CopyMaps(s, a, m); }
    } else {
      var b :| b in s && !Carried(s[b]);
      CopyMapsIff(b, s[b], b);
      OneCovers(s, b, b);
      assert Maps(s, b, MappingAt(b, s[b], b));
      assert !Maps(Copies(s), b, MappingAt(b, s[b], b));
    }
  }

  /** A stack that names its task. */
  lemma StackCopied()
    ensures var s: Areas := map[PAGE_SIZE := Area(PAGE_SIZE, Stack, 1, 0, RW)]; !SameMaps(s, Copies(s))
  {
    var s: Areas := map[PAGE_SIZE := Area(PAGE_SIZE, Stack, 1, 0, RW)];
    CopiesMapIff(s, PAGE_SIZE, 2 * PAGE_SIZE);
    assert PAGE_SIZE in s && !Carried(s[PAGE_SIZE]);
  }

  // ----- the address space --------------------------------------------------------------------------

  /** Stopped: an assertion of vma_create failed. */
  datatype MapResult = Mapped(base: nat) | Refused(errno: Errno) | Stopped
  datatype Errno = EINVAL | E2BIG | ERANGE | ENOMEM
  datatype Outcome = Done(ret: int) | Invalid | Panic
  datatype Limit = Go | Stop | Failed

  class Vmsp {
    const lower: nat
    const upper: nat
    const maxSize: nat
    /** This is the space of the kernel. */
    const kernel: bool
    var areas: Areas
    var vSize: int

    ghost predicate Valid()
      reads this
    {
      && 0 < lower <= upper < WORD && lower + maxSize < WORD
      && Disjoint(areas) && Shaped(areas, lower, upper)
    }

    /** v_size counts the pages of the areas. */
    ghost predicate SizeExact()
      reads this
    {
      AllAligned(areas) && vSize == PageTotal(areas)
    }

    constructor (lower: nat, upper: nat, maxSize: nat, kernel: bool)
      requires 0 < lower <= upper < WORD && lower + maxSize < WORD
      ensures Valid() && SizeExact() && areas == map[]
      ensures this.lower == lower && this.upper == upper && this.maxSize == maxSize && this.kernel == kernel
    {
      this.lower, this.upper, this.maxSize, this.kernel := lower, upper, maxSize, kernel;
      areas := map[];
      vSize := 0;
    }

    /** vmsp_find_area */
    method FindArea(address: nat) returns (r: Option<nat>)
      requires Valid()
      ensures r.Some? ==> r.value in areas && Covers(r.value, areas[r.value], address)
      ensures r.None? ==> !Covered(areas, address)
    {
      if address < lower || address >= upper {
        return None;
      }
      var vma := AtOrBelow(areas, address);
      if vma.None? || vma.value + areas[vma.value].len <= address {
        return None;
      }
      return vma;
    }

    /** vma_check_range: the whole range must lie in adjacent areas of one divisible kind and one
        object, as far as the 32-bit end of the range; if so, an area boundary is put at `base`. */
    method CheckRange(vma: nat, base: nat, length: nat) returns (r: Option<nat>)
      requires Valid() && vma in areas && Covers(vma, areas[vma], base) && length < WORD
      modifies `areas
      ensures r.Some? <==> old(Accepts(areas, vma, base, length))
      ensures areas == if r.Some? then SplitAt(old(areas), vma, base) else old(areas)
      ensures r.Some? ==> r.value == base
    {
      var v := areas[vma];
      if !v.ops.Divisible() {
        return None;
      }
      var limit := vma + v.len;
      var nx := vma;
      while Add(base, length) > limit
        invariant nx in areas && limit == nx + areas[nx].len && limit <= upper
        invariant areas[nx].ops == v.ops && areas[nx].obj == v.obj
        invariant Reaches(areas, vma, Add(base, length), v.ops, v.obj) <==>
          Reaches(areas, nx, Add(base, length), v.ops, v.obj)
        decreases upper - limit
      {
        var next := Next(areas, nx);
        if next.None? || next.value != limit || areas[next.value].ops != v.ops || areas[next.value].obj != v.obj {
          return None;
        }
        nx := next.value;
        limit := nx + areas[nx].len;
      }
      areas := SplitAt(areas, vma, base);
      return Some(base);
    }

    /** vma_check_limit, in 32-bit arithmetic. */
    method CheckLimit(cur: nat, base: nat, length: nat) returns (r: Limit)
      requires cur in areas && base <= cur
      modifies `areas
      ensures var limit := Add(base, length);
        && r == (if cur > limit then Failed else if cur == limit then Stop else Go)
        && areas == if r.Go? then Trim(old(areas), cur, base, limit) else old(areas)
    {
      var limit := Add(base, length);
      if limit < cur {
        return Failed;
      }
      var n := limit - cur;
      if n == 0 {
        return Stop;
      }
      if n < areas[cur].len {
        var v := areas[cur];
        var sec := Add(base, n);
        areas := areas[cur := Shortened(v, n)];
        if sec !in areas {
          areas := areas[sec := Second(v, n)];
        }
      }
      return Go;
    }

    /** vma_unmap, as far as areas go. */
    method Drop(cur: nat)
      requires cur in areas
      modifies this
      ensures areas == old(areas) - {cur} && vSize == old(vSize) - old(areas[cur].len) / PAGE_SIZE
    {
      vSize := vSize - areas[cur].len / PAGE_SIZE;
      areas := areas - {cur};
    }

    /** The loop of vmsp_unmap, from an area that starts at `base`. A range whose end wraps stops on
        the assertion before anything is removed. */
    method UnmapRange(base: nat, length: nat) returns (panic: bool)
      requires Valid() && base in areas && length < WORD
      requires base + length < WORD ==> Reaches(areas, base, base + length, areas[base].ops, areas[base].obj)
      modifies this
      ensures base + length >= WORD ==> panic && areas == old(areas) && vSize == old(vSize)
      ensures base + length < WORD ==> UnmapEnd(old(areas), areas, base, base + length, panic)
      ensures base + length < WORD && old(Clean(areas, base, base + length)) ==>
        Valid() && (old(SizeExact()) && Aligned(base + length) ==> SizeExact())
    {
      hide Along, Clean, Lost, Disjoint, Shaped, Unmapped, EndsAt, SplitAt, Trim, Without, Reaches, PageTotal,
        UnmapStep, CutOnce, AllAligned, Add;
      ghost var s := areas;
      ghost var wraps := base + length >= WORD;
      ghost var exact := SizeExact() && Aligned(base + length);
      ghost var phase := Chain;
      var cur := base;
      EndSum(s, lower, upper, base, length);
      if !wraps { UnmapStarts(s, base, base + length); }
      while true
        invariant cur in areas && base <= cur
        invariant wraps ==> cur == base && areas == s && vSize == old(vSize)
        invariant !wraps ==> UnmapStep(s, areas, base, base + length, cur, phase)
        invariant !wraps && phase.Broken? ==> !Clean(s, base, base + length)
        invariant !wraps && !phase.Broken? ==> Tidy(areas, vSize, lower, upper, exact)
        decreases base + length - cur
      {
        ghost var t, v := areas, vSize;
        var l := CheckLimit(cur, base, length);
        if l.Failed? {
          if !wraps { UnmapStops(s, areas, lower, upper, base, base + length, cur, phase); }
          return true;
        }
        if l.Stop? {
          UnmapStops(s, areas, lower, upper, base, base + length, cur, phase);
          return false;
        }
        phase := UnmapTurn(s, t, lower, upper, base, base + length, cur, phase);
        if !phase.Broken? {
          TidyTurn(t, v, lower, upper, exact, cur, base, base + length);
        }
        var next := Next(areas, cur);
        Drop(cur);
        if next.None? {
          return false;
        }
        cur := next.value;
      }
    }

    /** The protect operation of an area. */
    method ProtectArea(cur: nat, f: Rights) returns (ret: int)
      requires cur in areas
      modifies `areas
      ensures areas == old(areas)[cur := Reprotect(old(areas[cur]), f)]
      ensures ret == if old(Refuses(areas[cur].ops, areas[cur].rights, f)) then -1 else 0
    {
      var v := areas[cur];
      if v.ops.Dlib? && v.rights != NO_RIGHTS {
        return -1;
      }
      if v.ops.Dlib? && f != RX && f != RW && f != RD {
        return -1;
      }
      if v.ops.File? || v.ops.FileCopy? {
        areas := areas[cur := Area(v.len, v.ops, v.obj, v.off, Rights(f.rd, f.wr, false))];
      } else {
        areas := areas[cur := Area(v.len, v.ops, v.obj, v.off, f)];
      }
      return 0;
    }

    /** The loop of vmsp_protect, from an area that starts at `base`; the end of the range as in
        UnmapRange. */
    method ProtectRange(base: nat, length: nat, f: Rights) returns (r: Outcome)
      requires Valid() && base in areas && length < WORD
      requires base + length < WORD ==> Reaches(areas, base, base + length, areas[base].ops, areas[base].obj)
      modifies `areas
      ensures !r.Invalid?
      ensures base + length >= WORD ==> r.Panic? && areas == old(areas)
      ensures base + length < WORD ==> ProtectEnd(old(areas), areas, base, base + length, f, r.Panic?)
      ensures base + length < WORD && old(Clean(areas, base, base + length)) ==>
        && Valid() && r == Done(if old(SomeRefuses(areas, base, base + length, f)) then -1 else 0)
        && (old(SizeExact()) && Aligned(base + length) ==> SizeExact())
    {
      hide Along, Clean, Lost, Disjoint, Shaped, Protected, EndsAt, SplitAt, Trim, Without, Reaches, PageTotal,
        ProtectStep, CutOnce, AllAligned, Redone, Refuses, NewRights, SomeRefuses, Add;
      ghost var s := areas;
      ghost var wraps := base + length >= WORD;
      ghost var exact := SizeExact() && Aligned(base + length);
      ghost var phase := Chain;
      var ret := 0;
      var cur := base;
      EndSum(s, lower, upper, base, length);
      if !wraps { ProtectStarts(s, base, base + length, f); }
      NoneRefuse(s, base, f);
      while true
        invariant cur in areas && base <= cur
        invariant wraps ==> cur == base && areas == s
        invariant !wraps ==> ProtectStep(s, areas, base, base + length, f, cur, phase)
        invariant !wraps && phase.Broken? ==> !Clean(s, base, base + length)
        invariant !wraps && !phase.Broken? ==>
          && Tidy(areas, vSize, lower, upper, exact)
          && ret == if SomeRefuses(s, base, cur, f) then -1 else 0
        decreases base + length - cur
      {
        ghost var t, before := areas, phase;
        var l := CheckLimit(cur, base, length);
        if l.Failed? {
          if !wraps { ProtectStops(s, areas, lower, upper, base, base + length, f, cur, phase); }
          return Panic;
        }
        if l.Stop? {
          ProtectStops(s, areas, lower, upper, base, base + length, f, cur, phase);
          return Done(ret);
        }
        phase := ProtectTurn(s, t, lower, upper, base, base + length, f, cur, phase);
        if !phase.Broken? {
          TidyTrim(t, vSize, lower, upper, exact, cur, base, base + length);
          TidyRights(areas, vSize, lower, upper, exact, cur, f);
          ProtectRefuses(s, t, lower, upper, base, base + length, f, cur);
        }
        var one := ProtectArea(cur, f);
        ret := if one != 0 then -1 else ret;
        var next := Next(areas, cur);
        if next.None? {
          return Done(ret);
        }
        cur := next.value;
      }
    }

    /** Whether removing [base, base + length) from the area at `vma` does exactly that. */
    static ghost predicate CutsRight(s: Areas, vma: nat, base: nat, length: nat)
      requires vma in s
    {
      || Whole(s, vma, base, length)
      || (base + length < WORD && Accepts(s, vma, base, length) && Clean(s, vma, base + length))
    }

    static ghost predicate Whole(s: Areas, vma: nat, base: nat, length: nat)
      requires vma in s
    {
      vma == base && s[vma].len == length
    }

    /** What vma_check_range lets through; a range whose end wraps always is. */
    static ghost predicate Accepts(s: Areas, vma: nat, base: nat, length: nat)
      requires vma in s
    {
      !s[vma].ops.Single() && Reaches(s, vma, Add(base, length), s[vma].ops, s[vma].obj)
    }

    /** The slot vmsp_map chooses: the hint if it is taken, else what the search finds. */
    method Choose(address: nat, length: nat, fixed: bool) returns (r: MapResult)
      requires Valid() && address < WORD && 0 < length <= maxSize
      ensures ChooseSpec(areas, lower, upper, address, length, fixed, r)
      ensures r.Mapped? ==> r.base == address || r.base == lower || EndsAt(areas, r.base)
    {
      hide Free, HintTaken, SlotSpec, Covered, Disjoint, Shaped, EndsAt;
      var base := 0;
      if address != 0 {
        base := SlotAddress(areas, lower, upper, address, length);
        if base == 0 && fixed {
          return Refused(ERANGE);
        }
      }
      if base == 0 {
        base := FindSlot(areas, lower, upper, length);
      }
      if base == 0 {
        return Refused(ENOMEM);
      }
      return Mapped(base);
    }

    /** vmsp_map: checks the request, chooses a slot, creates the area. */
    method Map(address: nat, length: nat, ops: Ops, obj: nat, offset: nat, fixed: bool, f: Rights)
      returns (r: MapResult)
      requires Valid() && address < WORD
      modifies this
      ensures !r.Mapped? ==> areas == old(areas) && vSize == old(vSize)
      ensures BadRequest(length, offset) ==> r == Refused(EINVAL)
      ensures !BadRequest(length, offset) && length > maxSize ==> r == Refused(E2BIG)
      // a slot is chosen first; then what is asked for must be permitted
      ensures !BadRequest(length, offset) && length <= maxSize ==> exists slot ::
        && ChooseSpec(old(areas), lower, upper, address, length, fixed, slot)
        && r == if slot.Mapped? && (((ops.Pipe? || ops.Phys?) && !kernel) || (ops.Backed() && obj == 0)) then Stopped
                else slot
      // the new area is well placed, if and only if the slot is sound
      ensures r.Mapped? ==>
        && (Valid() && Adds(old(areas), areas, r.base, NewArea(length, ops, obj, offset, f)) <==>
            Sound(old(areas), lower, upper, address, length))
        && (Sound(old(areas), lower, upper, address, length) ==>
            Gains(old(areas), areas, r.base, length, ops, obj, offset, f))
        && (Sound(old(areas), lower, upper, address, length) && old(SizeExact()) ==>
            (SizeExact() <==> Aligned(r.base)) && (Aligned(lower) && Aligned(address) ==> Aligned(r.base)))
    {
      hide ChooseSpec, Sound, Adds, Disjoint, Shaped, EndsAt, PageTotal, AllAligned, NewArea, Free, Gains;
      if length == 0 || length % PAGE_SIZE != 0 || offset % PAGE_SIZE != 0 {
        return Refused(EINVAL);
      } else if length > maxSize {
        return Refused(E2BIG);
      }
      var slot := Choose(address, length, fixed);
      if slot.Mapped? && !Permits(kernel, ops, obj) {
        return Stopped;
      }
      r := slot;
      if !r.Mapped? {
        return;
      }
      var v := NewArea(length, ops, obj, offset, f);
      ChosenFree(areas, lower, upper, address, length, fixed, r);
      if Free(areas, lower, upper, r.base, length) {
        AddsArea(areas, lower, upper, r.base, v);
        CreateGrants(areas, areas[r.base := v], r.base, length, ops, obj, offset, f);
        if SizeExact() { AlignedSlot(areas, r.base, v); }
        if SizeExact() && EndsAt(areas, r.base) { AlignedEnd(areas, r.base); }
      } else {
        AddsWrong(areas, lower, upper, r.base, v);
      }
      if r.base !in areas {
        areas := areas[r.base := v];
      }
      vSize := vSize + length / PAGE_SIZE;
    }

    /** The end of vma_clone: the copy of area `v` enters at `b`. */
    method CopyIn(b: nat, v: Area)
      requires b !in areas
      modifies this
      ensures areas == old(areas)[b := Copy(v)] && vSize == old(vSize) + v.len / PAGE_SIZE
    {
      areas := areas[b := Copy(v)];
      vSize := vSize + v.len / PAGE_SIZE;
    }

    /** vmsp_unmap when the range is one whole area. */
    method UnmapWhole(vma: nat)
      requires Valid() && vma in areas
      modifies this
      ensures Valid() && Unmapped(old(areas), areas, vma, vma + old(areas[vma].len))
      ensures old(SizeExact()) ==> SizeExact()
    {
      hide PageTotal, Unmapped;
      WholeUnmaps(areas, vma);
      PageTotalRemove(areas, vma);
      Drop(vma);
    }

    /** vmsp_unmap when it is not. */
    method UnmapPart(vma: nat, base: nat, length: nat) returns (r: Outcome)
      requires Valid() && vma in areas && Covers(vma, areas[vma], base) && !Whole(areas, vma, base, length)
      requires length < WORD
      modifies this
      ensures r == Invalid <==> !old(Accepts(areas, vma, base, length))
      ensures r == Invalid ==> areas == old(areas) && vSize == old(vSize)
      ensures base + length >= WORD && old(areas[vma].ops.Divisible()) ==>
        r == Panic && Valid() && SameMaps(old(areas), areas)
      ensures r == Done(0) && Unmapped(old(areas), areas, base, base + length) <==>
        CutsRight(old(areas), vma, base, length)
      ensures CutsRight(old(areas), vma, base, length) ==>
        Valid() && (old(SizeExact()) && Aligned(base) && Aligned(length) ==> SizeExact())
    {
      hide Clean, Disjoint, Shaped, Reaches, Unmapped, SplitAt, PageTotal, AllAligned, SameMaps, EndsAt, Add, Accepts;
      ghost var s := areas;
      EndAccepts(s, lower, upper, vma, base, length);
      var cur := CheckRange(vma, base, length);
      if cur.None? {
        return Invalid;
      }
      SplitReady(s, lower, upper, vma, base, length);
      if old(SizeExact()) && Aligned(base) { PageTotalSplit(s, vma, base); }
      var panic := UnmapRange(base, length);
      UnmapFrom(s, areas, vma, base, base + length);
      return if panic then Panic else Done(0);
    }

    /** vmsp_unmap */
    method Unmap(base: nat, length: nat) returns (r: Outcome)
      requires Valid() && length < WORD
      modifies this
      // refused requests change nothing
      ensures r == Invalid ==> areas == old(areas) && vSize == old(vSize)
      ensures !Covered(old(areas), base) ==> r == Invalid
      // exactly the range is unmapped, if and only if the range can be cut right
      ensures forall vma :: vma in old(areas) && Covers(vma, old(areas)[vma], base) ==>
        && (r == Invalid <==> !Whole(old(areas), vma, base, length) && !Accepts(old(areas), vma, base, length))
        && (base + length >= WORD && old(areas)[vma].ops.Divisible() ==>
            r == Panic && Valid() && SameMaps(old(areas), areas))
        && (r == Done(0) && Unmapped(old(areas), areas, base, base + length) <==>
            CutsRight(old(areas), vma, base, length))
        && (CutsRight(old(areas), vma, base, length) ==> Valid())
        && (CutsRight(old(areas), vma, base, length) && old(SizeExact()) && Aligned(base) && Aligned(length) ==>
            SizeExact())
    {
      hide Clean, Disjoint, Shaped, Reaches, Unmapped, PageTotal, AllAligned, EndsAt, Accepts;
      var found := FindArea(base);
      if found.None? {
        return Invalid;
      }
      var vma := found.value;
      OneCovers(areas, vma, base);
      CoveredAt(areas, vma, base);
      if vma == base && areas[vma].len == length {
        EndSum(areas, lower, upper, base, length);
        UnmapWhole(vma);
        return Done(0);
      }
      r := UnmapPart(vma, base, length);
    }

    /** vmsp_protect when the range is one whole area. */
    method ProtectWhole(vma: nat, f: Rights) returns (r: Outcome)
      requires Valid() && vma in areas
      modifies `areas
      ensures Valid() && Protected(old(areas), areas, vma, vma + old(areas[vma].len), f)
      ensures r == Done(if old(SomeRefuses(areas, vma, vma + areas[vma].len, f)) then -1 else 0)
      ensures old(SizeExact()) ==> SizeExact()
    {
      hide PageTotal, Protected, SomeRefuses, Refuses, NewRights, Redone;
      var end := vma + areas[vma].len;
      assert EndsAt(areas, end);
      RedoneProtects(areas, vma, end, f);
      SameLengths(areas, vma, vma, f);
      RedoneStep(areas, vma, vma, end, f);
      RefusesTurn(areas, vma, vma, end, f);
      NoneRefuse(areas, vma, f);
      TidyRights(areas, vSize, lower, upper, SizeExact(), vma, f);
      var ret := ProtectArea(vma, f);
      return Done(ret);
    }

    /** vmsp_protect when it is not. */
    method ProtectPart(vma: nat, base: nat, length: nat, f: Rights) returns (r: Outcome)
      requires Valid() && vma in areas && Covers(vma, areas[vma], base) && !Whole(areas, vma, base, length)
      requires length < WORD
      modifies `areas
      ensures r == Invalid <==> !old(Accepts(areas, vma, base, length))
      ensures r == Invalid ==> areas == old(areas)
      ensures base + length >= WORD && old(areas[vma].ops.Divisible()) ==>
        r == Panic && Valid() && SameMaps(old(areas), areas)
      ensures r.Done? && Protected(old(areas), areas, base, base + length, f) <==>
        CutsRight(old(areas), vma, base, length)
      ensures CutsRight(old(areas), vma, base, length) ==>
        && Valid() && r == Done(if old(SomeRefuses(areas, base, base + length, f)) then -1 else 0)
        && (old(SizeExact()) && Aligned(base) && Aligned(length) ==> SizeExact())
    {
      hide Clean, Disjoint, Shaped, Reaches, Protected, SplitAt, PageTotal, AllAligned, SameMaps, EndsAt, SomeRefuses,
        Add, Accepts;
      ghost var s := areas;
      EndAccepts(s, lower, upper, vma, base, length);
      var cur := CheckRange(vma, base, length);
      if cur.None? {
        return Invalid;
      }
      SplitReady(s, lower, upper, vma, base, length);
      if old(SizeExact()) && Aligned(base) { PageTotalSplit(s, vma, base); }
      RefusesSplit(s, vma, base, base + length, f);
      r := ProtectRange(base, length, f);
      ProtectFrom(s, areas, vma, base, base + length, f);
    }

    /** vmsp_protect */
    method Protect(base: nat, length: nat, f: Rights) returns (r: Outcome)
      requires Valid() && length < WORD
      modifies `areas
      ensures r == Invalid ==> areas == old(areas)
      ensures !Covered(old(areas), base) ==> r == Invalid
      ensures forall vma :: vma in old(areas) && Covers(vma, old(areas)[vma], base) ==>
        && (r == Invalid <==> !TakesRights(old(areas), vma, base, length))
        && (base + length >= WORD && old(areas)[vma].ops.Divisible() ==>
            r == Panic && Valid() && SameMaps(old(areas), areas))
        && (r.Done? && Protected(old(areas), areas, base, base + length, f) <==>
            TakesRights(old(areas), vma, base, length) && CutsRight(old(areas), vma, base, length))
        && (TakesRights(old(areas), vma, base, length) && CutsRight(old(areas), vma, base, length) ==>
            && Valid() && r == Done(if old(SomeRefuses(areas, base, base + length, f)) then -1 else 0)
            && (old(SizeExact()) && Aligned(base) && Aligned(length) ==> SizeExact()))
    {
      hide Clean, Disjoint, Shaped, Reaches, Protected, PageTotal, AllAligned, EndsAt, SomeRefuses;
      var found := FindArea(base);
      if found.None? || !areas[found.value].ops.Divisible() {
        if found.Some? { OneCovers(areas, found.value, base); }
        return Invalid;
      }
      var vma := found.value;
      OneCovers(areas, vma, base);
      CoveredAt(areas, vma, base);
      if vma == base && areas[vma].len == length {
        EndSum(areas, lower, upper, base, length);
        r := ProtectWhole(vma, f);
        return;
      }
      r := ProtectPart(vma, base, length, f);
    }

    /** The requests vmsp_protect takes: a divisible area, matched whole or as a range. */
    static ghost predicate TakesRights(s: Areas, vma: nat, base: nat, length: nat)
      requires vma in s
    {
      !s[vma].ops.Single() && (Whole(s, vma, base, length) || Accepts(s, vma, base, length))
    }
  }
}
