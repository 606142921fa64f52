/** Bit ranges in byte arrays. */
module Bits {

  /** 1 << k */
  function Mask(k: nat): bv8
    requires k < 8
  {
    if k == 0 then 1 else if k == 1 then 2 else if k == 2 then 4 else if k == 3 then 8
    else if k == 4 then 16 else if k == 5 then 32 else if k == 6 then 64 else 128
  }

  /** Bit `k` of a byte is set. */
  predicate Bit(b: bv8, k: nat)
    requires k < 8
  {
    b & Mask(k) != 0
  }

  /** Bit `x` of a byte string, counted from the lowest bit of the first byte. */
  predicate BitAt(s: seq<bv8>, x: nat)
    requires x < 8 * |s|
  {
    Bit(s[x / 8], x % 8)
  }

  lemma SetBit(b: bv8, k: nat, j: nat)
    requires k < 8 && j < 8
    ensures Bit(b | Mask(k), j) <==> j == k || Bit(b, j)
  {
  }

  lemma ClearBit(b: bv8, k: nat, j: nat)
    requires k < 8 && j < 8
    ensures Bit(b & !Mask(k), j) <==> j != k && Bit(b, j)
  {
  }

  lemma WholeByte(b: bv8)
    ensures b == 0xFF <==> forall j :: 0 <= j < 8 ==> Bit(b, j)
    ensures b == 0 <==> forall j :: 0 <= j < 8 ==> !Bit(b, j)
  {
    if forall j :: 0 <= j < 8 ==> Bit(b, j) {
      assert Bit(b, 0) && Bit(b, 1) && Bit(b, 2) && Bit(b, 3) && Bit(b, 4) && Bit(b, 5) && Bit(b, 6) && Bit(b, 7);
    }
    if forall j :: 0 <= j < 8 ==> !Bit(b, j) {
      assert !Bit(b, 0) && !Bit(b, 1) && !Bit(b, 2) && !Bit(b, 3);
      assert !Bit(b, 4) && !Bit(b, 5) && !Bit(b, 6) && !Bit(b, 7);
    }
  }

  /** `s` with bit `x` set or cleared. */
  function WithBit(s: seq<bv8>, x: nat, v: bool): seq<bv8>
    requires x < 8 * |s|
  {
    s[x / 8 := if v then s[x / 8] | Mask(x % 8) else s[x / 8] & !Mask(x % 8)]
  }

  lemma WithBitAt(s: seq<bv8>, x: nat, v: bool, y: nat)
    requires x < 8 * |s| && y < 8 * |s|
    ensures BitAt(WithBit(s, x, v), y) <==> if y == x then v else BitAt(s, y)
  {
    hide Mask, Bit;
    var i, j, q, r := x / 8, x % 8, y / 8, y % 8;
    assert x == 8 * i + j && y == 8 * q + r;
    SetBit(s[i], j, r);
    ClearBit(s[i], j, r);
  }

  /** `s` with a whole byte replaced by ones or zeros. */
  function WithByte(s: seq<bv8>, i: nat, v: bool): seq<bv8>
    requires i < |s|
  {
    s[i := if v then 0xFF else 0]
  }

  lemma WithByteAt(s: seq<bv8>, i: nat, v: bool, y: nat)
    requires i < |s| && y < 8 * |s|
    ensures BitAt(WithByte(s, i, v), y) <==> if 8 * i <= y < 8 * i + 8 then v else BitAt(s, y)
  {
    hide Mask, Bit;
    var q, r := y / 8, y % 8;
    assert y == 8 * q + r;
    WholeByte(if v then 0xFF else 0);
  }

  /** `t` is `s` with the bits of [from, to) set to `v`. */
  ghost predicate Ranged(s: seq<bv8>, t: seq<bv8>, from: int, to: int, v: bool) {
    && |t| == |s|
    && forall y :: 0 <= y < 8 * |s| ==> (BitAt(t, y) <==> if from <= y < to then v else BitAt(s, y))
  }

  lemma RangedBit(s: seq<bv8>, t: seq<bv8>, from: int, x: nat, v: bool)
    requires Ranged(s, t, from, x, v) && from <= x < 8 * |t|
    ensures Ranged(s, WithBit(t, x, v), from, x + 1, v)
  {
    hide BitAt, WithBit;
    var u := WithBit(t, x, v);
    SameLength(t, x, v);
    forall y | 0 <= y < 8 * |s| ensures BitAt(u, y) <==> if from <= y < x + 1 then v else BitAt(s, y) {
      WithBitAt(t, x, v, y);
    }
  }

  lemma SameLength(t: seq<bv8>, x: nat, v: bool)
    requires x < 8 * |t|
    ensures |WithBit(t, x, v)| == |t|
  {
  }

  lemma RangedByte(s: seq<bv8>, t: seq<bv8>, from: int, i: nat, v: bool)
    requires Ranged(s, t, from, 8 * i, v) && from <= 8 * i && i < |t|
    ensures Ranged(s, WithByte(t, i, v), from, 8 * i + 8, v)
  {
    hide BitAt;
    var u := WithByte(t, i, v);
    forall y | 0 <= y < 8 * |s| ensures BitAt(u, y) <==> if from <= y < 8 * i + 8 then v else BitAt(s, y) {
      WithByteAt(t, i, v, y);
    }
  }

  /** The lowest multiple of 8 not below `x`, as ALIGN_UP(x, 8). */
  function AlignUp(x: nat): nat { (x + 7) / 8 * 8 }

  lemma AlignUpIs(x: nat)
    ensures AlignUp(x) == (if x % 8 == 0 then x else 8 * (x / 8) + 8) == 8 * (AlignUp(x) / 8)
  {
  }

  /** ptr[i] |= 1 << j, or ptr[i] &= ~(1 << j) */
  method PutBit(ptr: array<bv8>, i: nat, j: nat, v: bool, ghost s: seq<bv8>, ghost from: int)
    requires i < ptr.Length && j < 8 && from <= 8 * i + j && Ranged(s, ptr[..], from, 8 * i + j, v)
    modifies ptr
    ensures Ranged(s, ptr[..], from, 8 * i + j + 1, v)
  {
    hide Mask, Bit, BitAt, Ranged;
    ghost var was := ptr[..];
    RangedBit(s, was, from, 8 * i + j, v);
    ptr[i] := if v then ptr[i] | Mask(j) else ptr[i] & !Mask(j);
    assert (8 * i + j) / 8 == i && (8 * i + j) % 8 == j;
    assert ptr[..] == WithBit(was, 8 * i + j, v);
  }

  method PutByte(ptr: array<bv8>, i: nat, v: bool, ghost s: seq<bv8>, ghost from: int)
    requires i < ptr.Length && from <= 8 * i && Ranged(s, ptr[..], from, 8 * i, v)
    modifies ptr
    ensures Ranged(s, ptr[..], from, 8 * i + 8, v)
  {
    hide Bit, BitAt, Ranged;
    ghost var was := ptr[..];
    RangedByte(s, was, from, i, v);
    ptr[i] := if v then 0xFF else 0;
    assert ptr[..] == WithByte(was, i, v);
  }

  /** The first loop: single bits up to a byte boundary. Returns how many bits are left. */
  method FillHead(ptr: array<bv8>, start: nat, count: int, v: bool) returns (n: int)
    requires start + count <= 8 * ptr.Length
    modifies ptr
    ensures n == if count <= 0 then count
                 else if start + count <= AlignUp(start) then 0 else start + count - AlignUp(start)
    ensures Ranged(old(ptr[..]), ptr[..], start, Min(start + count, AlignUp(start)), v)
  {
    hide Mask, Bit, BitAt, Ranged, AlignUp;
    ghost var s := ptr[..];
    var i, j := start / 8, start % 8;
    n := count;
    ghost var x: nat := start;
    RangedNone(s, start, start, v);
    AlignUpIs(start);
    while n > 0 && j != 0
      invariant n + x == start + count && 0 <= j < 8 && (n >= 0 || x == start)
      invariant if j == 0 then x == AlignUp(start) else x == 8 * i + j < AlignUp(start) == 8 * i + 8
      invariant Ranged(s, ptr[..], start, x, v)
    {
      PutBit(ptr, i, j, v, s, start);
      j := (j + 1) % 8;
      n := n - 1;
      x := x + 1;
    }
    if n < 0 { RangedBack(s, ptr[..], start, Min(start + count, AlignUp(start)), v); }
  }

  /** bitsset for `v`, bitsclr for `!v`: single bits up to a byte boundary, whole bytes, single bits. */
  method BitsFill(ptr: array<bv8>, start: nat, count: int, v: bool)
    requires start + count <= 8 * ptr.Length
    modifies ptr
    ensures Ranged(old(ptr[..]), ptr[..], start, start + count, v)
  {
    hide Mask, Bit, BitAt, Ranged, AlignUp;
    ghost var s := ptr[..];
    AlignUpIs(start);
    var n := FillHead(ptr, start, count, v);
    if n > 0 {
      var i := AlignUp(start) / 8;
      while n > 8
        invariant n > 0 && start <= 8 * i && 8 * i + n == start + count
        invariant Ranged(s, ptr[..], start, 8 * i, v)
      {
        PutByte(ptr, i, v, s, start);
        i := i + 1;
        n := n - 8;
      }
      var j := 0;
      while n > 0
        invariant 0 <= n && 0 <= j && j + n <= 8 && start <= 8 * i + j && 8 * i + j + n == start + count
        invariant Ranged(s, ptr[..], start, 8 * i + j, v)
      {
        PutBit(ptr, i, j, v, s, start);
        j := j + 1;
        n := n - 1;
      }
    }
  }

  lemma RangedNone(s: seq<bv8>, from: int, to: int, v: bool)
    requires to <= from
    ensures Ranged(s, s, from, to, v)
  {
  }

  lemma RangedBack(s: seq<bv8>, t: seq<bv8>, from: int, to: int, v: bool)
    requires Ranged(s, t, from, from, v) && to <= from
    ensures Ranged(s, t, from, to, v)
  {
  }

  lemma ShiftBit(b: bv8, k: nat)
    requires k < 8
    ensures Bit(b >> 1, k) <==> k < 7 && Bit(b, k + 1)
  {
  }

  lemma LowBit(b: bv8)
    ensures b & 1 != 0 <==> Bit(b, 0)
  {
  }

  /** The lowest clear bit of a byte, found by shifting. */
  method LowestClear(b: bv8) returns (j: nat)
    requires b != 0xFF
    ensures j < 8 && !Bit(b, j) && forall k :: 0 <= k < j ==> Bit(b, k)
  {
    hide Mask, Bit;
    var byte := b;
    j := 0;
    WholeByte(b);
    LowBit(byte);
    while byte & 1 != 0
      invariant j < 8
      invariant forall k :: 0 <= k < 8 ==> (Bit(byte, k) <==> k + j < 8 && Bit(b, k + j))
      invariant forall k :: 0 <= k < j ==> Bit(b, k)
      invariant byte & 1 != 0 <==> Bit(byte, 0)
      decreases 8 - j
    {
      var next := byte >> 1;
      forall k | 0 <= k < 8 ensures Bit(next, k) <==> k < 7 && Bit(byte, k + 1) { ShiftBit(byte, k); }
      j := j + 1;
      byte := next;
      LowBit(byte);
    }
  }

  /** bitschrz: the first clear bit of the whole bytes of the first `len` bits, or -1. */
  method BitsFirstClear(ptr: array<bv8>, len: nat) returns (r: int)
    requires len <= 8 * ptr.Length
    ensures r == -1 <==> forall x :: 0 <= x < len / 8 * 8 ==> BitAt(ptr[..], x)
    ensures r != -1 ==> 0 <= r < len / 8 * 8 && !BitAt(ptr[..], r) && forall x :: 0 <= x < r ==> BitAt(ptr[..], x)
  {
    hide Mask, Bit;
    var i := 0;
    while i < len / 8 && ptr[i] == 0xFF
      invariant 0 <= i <= len / 8
      invariant forall q, r :: 0 <= q < i && 0 <= r < 8 ==> Bit(ptr[q], r)
    {
      WholeByte(ptr[i]);
      i := i + 1;
    }
    forall x | 0 <= x < 8 * i ensures BitAt(ptr[..], x) {
      assert 0 <= x / 8 < i && 0 <= x % 8 < 8;
    }
    if i >= len / 8 {
      return -1;
    }
    var j := LowestClear(ptr[i]);
    r := i * 8 + j;
    assert r / 8 == i && r % 8 == j;
    assert !BitAt(ptr[..], r);
    assert forall x :: 8 * i <= x < r ==> x / 8 == i && Bit(ptr[i], x % 8);
  }

  function Min(a: int, b: int): int { if a <= b then a else b }

  /** How many whole bytes the middle loop passes over when `rest` bits are left. */
  function WholeBytes(rest: int): nat { if rest > 8 then (rest - 1) / 8 else 0 }

  /** The middle loop of bitstest. */
  method TestBytes(ptr: array<bv8>, first: nat, rest: int) returns (test: bool, i: nat, n: int)
    requires 8 * first + rest <= 8 * ptr.Length
    ensures i == first + WholeBytes(rest) && n == rest - 8 * WholeBytes(rest)
    ensures test <==> forall k :: first <= k < i ==> ptr[k] != 0
  {
    test, i, n := true, first, rest;
    while n > 8
      invariant first <= i && n == rest - 8 * (i - first) && (i > first ==> n > 0)
      invariant test <==> forall k :: first <= k < i ==> ptr[k] != 0
    {
      if ptr[i] == 0 {
        test := false;
      }
      i := i + 1;
      n := n - 8;
    }
  }

  /** The last loop of bitstest. */
  method TestTail(ptr: array<bv8>, i: nat, count: int) returns (test: bool)
    requires count <= 8 && 8 * i + count <= 8 * ptr.Length
    ensures test <==> forall y :: 8 * i <= y < 8 * i + count ==> BitAt(ptr[..], y)
  {
    hide Mask, Bit, BitAt;
    test := true;
    var j, n := 0, count;
    while n > 0
      invariant 0 <= j && (n >= 0 ==> j + n == count) && (n < 0 ==> j == 0 && n == count)
      invariant test <==> forall y :: 8 * i <= y < 8 * i + j ==> BitAt(ptr[..], y)
    {
      ByteBit(ptr[..], i, j);
      if ptr[i] & Mask(j) == 0 {
        test := false;
      }
      j := j + 1;
      n := n - 1;
    }
  }

  /** bitstest, as it is: bits before the first byte boundary are cleared and not tested, whole bytes
      are only tested for being zero, the last bits are tested one by one. */
  method BitsTest(ptr: array<bv8>, start: nat, count: int) returns (test: bool)
    requires start + count <= 8 * ptr.Length
    modifies ptr
    ensures Ranged(old(ptr[..]), ptr[..], start, Min(start + count, AlignUp(start)), false)
    ensures var first := AlignUp(start); var whole := WholeBytes(start + count - first);
      test <==>
        && (forall i :: first / 8 <= i < first / 8 + whole ==> ptr[i] != 0)
        && (forall x :: first + 8 * whole <= x < start + count ==> BitAt(ptr[..], x))
  {
    hide Mask, Bit, BitAt, Ranged, AlignUp;
    AlignUpIs(start);
    var n := FillHead(ptr, start, count, false);
    test := true;
    if n > 0 {
      var i, rest;
      test, i, rest := TestBytes(ptr, AlignUp(start) / 8, n);
      var last := TestTail(ptr, i, rest);
      test := test && last;
    }
  }

  /** As page_release uses it, on one bit: a test on a byte boundary, an erasure elsewhere. */
  lemma TestOne(s: seq<bv8>, t: seq<bv8>, x: nat)
    requires x < 8 * |s| && Ranged(s, t, x, Min(x + 1, AlignUp(x)), false)
    ensures x % 8 == 0 ==> t == s && AlignUp(x) == x && WholeBytes(1) == 0
    ensures x % 8 != 0 ==> !BitAt(t, x) && AlignUp(x) > x && WholeBytes(x + 1 - AlignUp(x)) == 0
  {
    if x % 8 == 0 {
      SameBits(s, t);
    }
  }

  lemma SameBits(s: seq<bv8>, t: seq<bv8>)
    requires |s| == |t| && forall y :: 0 <= y < 8 * |s| ==> BitAt(s, y) == BitAt(t, y)
    ensures s == t
  {
    forall i | 0 <= i < |s| ensures s[i] == t[i] {
      forall j | 0 <= j < 8 ensures Bit(s[i], j) == Bit(t[i], j) {
        assert BitAt(s, 8 * i + j) == BitAt(t, 8 * i + j);
      }
      SameByte(s[i], t[i]);
    }
  }

  lemma SameByte(a: bv8, b: bv8)
    requires forall j :: 0 <= j < 8 ==> Bit(a, j) == Bit(b, j)
    ensures a == b
  {
    assert Bit(a, 0) == Bit(b, 0) && Bit(a, 1) == Bit(b, 1) && Bit(a, 2) == Bit(b, 2) && Bit(a, 3) == Bit(b, 3);
    assert Bit(a, 4) == Bit(b, 4) && Bit(a, 5) == Bit(b, 5) && Bit(a, 6) == Bit(b, 6) && Bit(a, 7) == Bit(b, 7);
  }

  lemma ByteBit(s: seq<bv8>, i: nat, j: nat)
    requires i < |s| && j < 8
    ensures BitAt(s, 8 * i + j) <==> s[i] & Mask(j) != 0
  {
    assert (8 * i + j) / 8 == i && (8 * i + j) % 8 == j;
  }

  // ----- counting clear bits -----------------------------------------------------------------------

  /** The number of clear bits among the first `n`. */
  ghost function Clear(s: seq<bv8>, n: nat): nat
    requires n <= 8 * |s|
  {
    if n == 0 then 0 else Clear(s, n - 1) + if BitAt(s, n - 1) then 0 else 1
  }

  lemma {:induction false} ClearSame(s: seq<bv8>, t: seq<bv8>, n: nat)
    requires n <= 8 * |s| && |t| == |s| && forall y :: 0 <= y < n ==> BitAt(s, y) == BitAt(t, y)
    ensures Clear(s, n) == Clear(t, n)
  {
    if n > 0 { ClearSame(s, t, n - 1); }
  }

  /** Setting a clear bit takes one from the count. */
  lemma {:induction false} ClearFlip(s: seq<bv8>, t: seq<bv8>, x: nat, n: nat)
    requires x < n <= 8 * |s| && |t| == |s| && !BitAt(s, x) && BitAt(t, x)
    requires forall y :: 0 <= y < n && y != x ==> BitAt(s, y) == BitAt(t, y)
    ensures Clear(t, n) == Clear(s, n) - 1
  {
    if n == x + 1 { ClearSame(s, t, x); } else { ClearFlip(s, t, x, n - 1); }
  }

  /** Clear bits in [from, to) and no others. */
  lemma {:induction false} ClearRange(s: seq<bv8>, from: nat, to: nat, n: nat)
    requires from <= to <= 8 * |s| && n <= 8 * |s|
    requires forall y :: 0 <= y < n ==> (BitAt(s, y) <==> !(from <= y < to))
    ensures Clear(s, n) == if n <= from then 0 else if n <= to then n - from else to - from
  {
    if n > 0 { ClearRange(s, from, to, n - 1); }
  }

  lemma {:induction false} ClearNone(s: seq<bv8>, n: nat)
    requires n <= 8 * |s|
    ensures Clear(s, n) == 0 <==> forall y :: 0 <= y < n ==> BitAt(s, y)
  {
    if n > 0 { ClearNone(s, n - 1); }
  }
}
