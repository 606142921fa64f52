/** The growing ring buffer of a pipe against a byte queue, in blocking mode.

    A call of pipe_write or pipe_read runs, with the mutex held, from one wait to the next; each such
    run is one method call here, so any interleaving of readers and writers is a sequence of calls. */
module Pipe {

  import opened Machine

  type Bytes = seq<bv8>

  // ----- the ring, on values ------------------------------------------------------------------------------

  /** The `n` bytes from offset `r` on, going round the end. */
  function Ring(b: Bytes, r: nat, n: nat): Bytes
    requires r < |b| && n <= |b|
  {
    if r + n <= |b| then b[r..r + n] else b[r..] + b[..r + n - |b|]
  }

  /** The offset `n` bytes after `r`. */
  function After(size: nat, r: nat, n: nat): nat
    requires r < size && n <= size
  {
    if r + n < size then r + n else r + n - size
  }

  function Overwrite(b: Bytes, w: nat, c: Bytes): Bytes
    requires w + |c| <= |b|
  {
    b[..w] + c + b[w + |c|..]
  }

  /** Bytes written at the pen join the end of the queue. */
  lemma Pushes(b: Bytes, r: nat, n: nat, c: Bytes)
    requires r < |b| && n + |c| <= |b| && After(|b|, r, n) + |c| <= |b|
    ensures Ring(Overwrite(b, After(|b|, r, n), c), r, n + |c|) == Ring(b, r, n) + c
  {
  }

  /** Bytes read at the pen are the front of the queue. */
  lemma Pops(b: Bytes, r: nat, n: nat, k: nat)
    requires r < |b| && k <= n <= |b| && r + k <= |b|
    ensures |Ring(b, r, n)| == n && b[r..r + k] == Ring(b, r, n)[..k]
    ensures Ring(b, After(|b|, r, k), n - k) == Ring(b, r, n)[k..]
    ensures After(|b|, After(|b|, r, k), n - k) == After(|b|, r, n)
  {
  }

  /** Growing: the old buffer is copied, and what had gone round the end follows it. */
  lemma Grows(b: Bytes, g: Bytes, r: nat, n: nat)
    requires r < |b| && 0 < n <= |b| < |g| && g[..|b|] == b
    requires var w := After(|b|, r, n); r < w || (|b| + w <= |g| && g[|b|..|b| + w] == b[..w])
    ensures Ring(g, r, n) == Ring(b, r, n)
  {
  }

  const NULL: int := -1

  /** The write pen of a buffer of `n` bytes that grows to `size`, or none. */
  function GrownPen(n: nat, size: nat, r: int, w: int): int {
    if r < w then w else if w < size - n then w + n else NULL
  }

  /** The pens of a grown buffer agree with its bytes, if and only if there are any. */
  lemma PenRightIff(n: nat, size: nat, r: nat, avail: nat)
    requires r < n < size && avail <= n
    requires GrownPen(n, size, r, After(n, r, avail)) != NULL
    ensures GrownPen(n, size, r, After(n, r, avail)) == After(size, r, avail) <==> avail > 0
  {
  }

  /** A new pipe of one page, grown to two: its write pen is a page away from its read pen. */
  lemma EmptyGrows()
    ensures GrownPen(PAGE_SIZE, 2 * PAGE_SIZE, 0, After(PAGE_SIZE, 0, 0)) == PAGE_SIZE != After(2 * PAGE_SIZE, 0, 0)
  {
  }

  /** `n` bytes from `r` on, those past the end taken from what lies behind the buffer. */
  function Straight(b: Bytes, behind: nat -> bv8, r: nat, n: nat): Bytes
    requires r < |b|
  {
    seq(n, i requires 0 <= i < n => if r + i < |b| then b[r + i] else behind(r + i - |b|))
  }

  /** Shrinking copies the bytes in a straight line: right if and only if they do not go round the end,
      or the same bytes happen to lie behind the buffer. */
  lemma StraightIff(b: Bytes, behind: nat -> bv8, r: nat, n: nat)
    requires r < |b| && n <= |b|
    ensures Straight(b, behind, r, n) == Ring(b, r, n) <==> forall i :: 0 <= i < r + n - |b| ==> behind(i) == b[i]
  {
    var s, q := Straight(b, behind, r, n), Ring(b, r, n);
    forall i | 0 <= i < n ensures q[i] == if r + i < |b| then b[r + i] else b[r + i - |b|] {}
    if s == q {
      forall i | 0 <= i < r + n - |b| ensures behind(i) == b[i] {
        var j := i + |b| - r;
        assert s[j] == q[j] && r + j - |b| == i;
      }
    } else {
      var j :| 0 <= j < n && s[j] != q[j];
      assert behind(r + j - |b|) != b[r + j - |b|];
    }
  }

  // ----- the pipe ------------------------------------------------------------------------------------------

  /** Doubling `size` reaches `max` exactly. */
  predicate Doubles(size: nat, max: nat)
    decreases max - size
  {
    size == max || (0 < size && 2 * size <= max && Doubles(2 * size, max))
  }

  function Min(a: nat, b: nat): nat { if a <= b then a else b }

  datatype Run = Done | MustWait

  class Pipe {
    var base: array<bv8>
    var rpen: int
    var wpen: int
    var avail: nat
    const maxSize: nat
    var hangup: bool
    /** All bytes accepted so far, and all bytes delivered so far. */
    ghost var written: Bytes
    ghost var read: Bytes

    /** The pens agree with the number of bytes in the buffer. */
    ghost predicate Sound()
      reads this, base
    {
      && 0 <= rpen < base.Length && avail <= base.Length
      && wpen == After(base.Length, rpen, avail)
    }

    ghost function Queue(): Bytes
      reads this, base
      requires Sound()
    {
      Ring(base[..], rpen, avail)
    }

    /** What has been read, then what is in the buffer, is what was written, in order. */
    ghost predicate Valid()
      reads this, base
    {
      Sound() && written == read + Queue() && Doubles(base.Length, maxSize)
    }

    /** pipe_create */
    constructor ()
      ensures Valid() && fresh(base) && written == [] && read == [] && !hangup && maxSize == 64 * PAGE_SIZE
    {
      base := new bv8[PAGE_SIZE];
      rpen, wpen, avail, maxSize, hangup := 0, 0, 0, 64 * PAGE_SIZE, false;
      written, read := [], [];
      new;
      Reaches();
    }

    static lemma Reaches()
      ensures Doubles(PAGE_SIZE, 64 * PAGE_SIZE)
    {
      assert Doubles(64 * PAGE_SIZE, 64 * PAGE_SIZE);
      assert Doubles(32 * PAGE_SIZE, 64 * PAGE_SIZE);
      assert Doubles(16 * PAGE_SIZE, 64 * PAGE_SIZE);
      assert Doubles(8 * PAGE_SIZE, 64 * PAGE_SIZE);
      assert Doubles(4 * PAGE_SIZE, 64 * PAGE_SIZE);
      assert Doubles(2 * PAGE_SIZE, 64 * PAGE_SIZE);
    }

    /** The growing branch of pipe_resize_unlock_: the buffer is copied, and what had gone round the end
        follows it; it fails, leaving no write pen, if that does not fit. */
    method GrowInto(remap: array<bv8>) returns (r: int)
      requires Sound() && remap.Length > base.Length && remap != base
      modifies `wpen, remap
      ensures r == 0 || r == -1
      ensures wpen == GrownPen(base.Length, remap.Length, rpen, old(wpen))
      ensures r == -1 <==> wpen == NULL
      ensures r == 0 && avail > 0 ==> Ring(remap[..], rpen, avail) == old(Queue())
    {
      var n, w := base.Length, wpen;
      ghost var b := base[..];
      forall i | 0 <= i < n { remap[i] := base[i]; }
      if rpen < wpen {
      } else if wpen < remap.Length - n {
        forall i | 0 <= i < w { remap[n + i] := base[i]; }
        wpen := wpen + n;
      } else {
        wpen := NULL;
        return -1;
      }
      assert remap[..][..n] == b;
      if avail > 0 { Grows(b, remap[..], rpen, avail); }
      return 0;
    }

    /** The shrinking branch: the bytes are copied to the front. */
    method ShrinkInto(remap: array<bv8>, behind: nat -> bv8)
      requires Sound() && avail < remap.Length && remap != base
      modifies `rpen, `wpen, remap
      ensures rpen == 0 && wpen == avail && remap[..avail] == Straight(base[..], behind, old(rpen), avail)
    {
      ghost var b := base[..];
      var r, n := rpen, base.Length;
      forall i | 0 <= i < avail { remap[i] := if r + i < n then base[r + i] else behind(r + i - n); }
      rpen := 0;
      wpen := avail;
    }

    /** Whether resizing to `size` keeps the bytes of the buffer: growing does if there are any, shrinking
        if they do not go round the end, or are repeated behind the buffer. */
    ghost predicate Keeps(size: nat, behind: nat -> bv8)
      reads this, base
      requires Sound()
    {
      if size > base.Length then avail > 0
      else forall i :: 0 <= i < rpen + avail - base.Length ==> behind(i) == base[i]
    }

    /** pipe_resize_unlock_. `behind` is what lies behind the buffer in memory. */
    method Resize(size: nat, behind: nat -> bv8) returns (r: int)
      requires Sound()
      modifies this`base, this`rpen, this`wpen
      ensures r == 0 || r == -1
      ensures r == -1 <==>
        || size < old(avail) || size > maxSize || (size <= old(base.Length) && size == old(avail))
        || (size > old(base.Length) && old(rpen >= wpen) && old(wpen) >= size - old(base.Length))
      ensures r == 0 ==> fresh(base) && base.Length == size
      ensures r == 0 ==> (Sound() && Queue() == old(Queue()) <==> old(Keeps(size, behind)))
      ensures r == -1 ==> base == old(base) && rpen == old(rpen)
      ensures r == -1 ==> wpen == if old(base.Length) < size <= maxSize then NULL else old(wpen)
    {
      hide Ring, After, GrownPen, Straight;
      if size < avail || size > maxSize {
        return -1;
      }
      PenBounds(base.Length, size, rpen, wpen, avail);
      var remap := new bv8[size];
      ghost var b, r0 := base[..], rpen;
      if size > base.Length {
        var grown := GrowInto(remap);
        if grown != 0 {
          return -1;
        }
        PenRightIff(base.Length, size, rpen, avail);
      } else if size > avail {
        ShrinkInto(remap, behind);
        StraightIff(b, behind, r0, avail);
        RingFront(remap[..], avail);
        AfterFront(size, avail);
      } else {
        return -1;
      }
      base := remap;
      return 0;
    }

    /** Copying part of `buf` to the write pen. */
    method Put(buf: Bytes, pos: nat, cap: nat)
      requires Valid() && pos + cap <= |buf| && wpen + cap <= base.Length && avail + cap <= base.Length
      modifies this`wpen, this`avail, this`written, base
      ensures Valid() && written == old(written) + buf[pos..pos + cap] && avail == old(avail) + cap
      ensures Queue() == old(Queue()) + buf[pos..pos + cap]
    {
      hide Ring, Doubles;
      ghost var b, c := base[..], buf[pos..pos + cap];
      Pushes(b, rpen, avail, c);
      var w := wpen;
      forall i | 0 <= i < cap { base[w + i] := buf[pos + i]; }
      assert base[..] == Overwrite(b, w, c);
      wpen := wpen + cap;
      avail := avail + cap;
      if wpen == base.Length {
        wpen := 0;
      }
      written := written + c;
    }

    /** Copying from the read pen. */
    method Take(cap: nat) returns (c: Bytes)
      requires Valid() && cap <= avail && rpen + cap <= base.Length
      modifies this`rpen, this`avail, this`read
      ensures Valid() && |c| == cap && read == old(read) + c && avail == old(avail) - cap
      ensures old(Queue()) == c + Queue()
    {
      hide Ring, Doubles;
      hide After;
      ghost var b, n := base[..], avail;
      Pops(b, rpen, n, cap);
      Turns(base.Length, rpen, cap);
      c := base[rpen..rpen + cap];
      assert c == b[rpen..rpen + cap];
      Splits(read, Ring(b, rpen, n), cap);
      rpen := rpen + cap;
      avail := avail - cap;
      if rpen == base.Length {
        rpen := 0;
      }
      read := read + c;
    }

    /** pipe_write from a start or a wait up to its end or the next wait: bytes `pos` on are accepted in
        order; it waits only on a full buffer of the largest size. */
    method WriteRun(buf: Bytes, pos: nat) returns (at: nat, run: Run)
      requires Valid() && pos <= |buf|
      modifies this`base, this`rpen, this`wpen, this`avail, this`written, base
      ensures Valid() && pos <= at <= |buf| && written == old(written) + buf[pos..at]
      ensures Queue() == old(Queue()) + buf[pos..at]
      ensures run.Done? ==> at == |buf|
      ensures run.MustWait? ==> at < |buf| && avail == base.Length == maxSize
    {
      hide Ring, Doubles;
      at := pos;
      ghost var q := Queue();
      while at < |buf|
        invariant Valid() && pos <= at <= |buf| && (base == old(base) || fresh(base))
        invariant written == old(written) + buf[pos..at] && Queue() == q + buf[pos..at]
        decreases |buf| - at, maxSize - base.Length
      {
        var cap := Min(|buf| - at, Min(base.Length - wpen, base.Length - avail));
        if cap == 0 {
          CanDouble(base.Length, maxSize);
          if base.Length < maxSize {
            // growing takes nothing from behind the buffer
            var r := Resize(Min(base.Length * 2, maxSize), _ => 0);
            assert r == 0;
            continue;
          }
          return at, MustWait;
        }
        Put(buf, at, cap);
        assert buf[pos..at] + buf[at..at + cap] == buf[pos..at + cap];
        at := at + cap;
      }
      return at, Done;
    }

    /** pipe_write: a pipe that was hung up takes nothing. */
    method Write(buf: Bytes) returns (r: int, run: Run)
      requires Valid()
      modifies this`base, this`rpen, this`wpen, this`avail, this`written, base
      ensures Valid()
      ensures hangup ==> r == -1 && run.Done? && written == old(written)
      ensures !hangup ==> 0 <= r <= |buf| && written == old(written) + buf[..r] && (run.Done? ==> r == |buf|)
      ensures !hangup ==> Queue() == old(Queue()) + buf[..r]
      ensures run.MustWait? ==> r < |buf| && avail == base.Length == maxSize
    {
      if hangup {
        return -1, Done;
      }
      var at;
      at, run := WriteRun(buf, 0);
      assert buf[0..at] == buf[..at];
      return at, run;
    }

    /** pipe_read from a start or a wait, with nothing read yet, up to its end or the next wait. */
    method ReadRun(len: nat) returns (got: Bytes, run: Run)
      requires Valid()
      modifies this`rpen, this`avail, this`read
      ensures Valid() && read == old(read) + got && got <= old(Queue())
      ensures |got| == Min(len, old(avail))
      ensures run.MustWait? <==> len > 0 && old(avail) == 0 && !hangup
    {
      hide Ring, Doubles;
      got := [];
      ghost var q := Queue();
      var left := len;
      while left > 0
        invariant Valid() && read == old(read) + got && q == got + Queue()
        invariant |got| + left == len && avail == old(avail) - |got|
        decreases left
      {
        var cap := Min(left, Min(base.Length - rpen, avail));
        if cap == 0 {
          if |got| > 0 {
            break;
          }
          if hangup && avail == 0 {
            break;
          }
          return got, MustWait;
        }
        var c := Take(cap);
        got := got + c;
        left := left - cap;
      }
      return got, Done;
    }
  }

  lemma PenBounds(n: nat, size: nat, r: int, w: int, avail: nat)
    requires 0 <= r < n && avail <= n && w == After(n, r, avail)
    ensures 0 <= w < n
    ensures size > n ==> (GrownPen(n, size, r, w) == NULL <==> r >= w && w >= size - n)
  {
  }

  lemma RingFront(b: Bytes, n: nat)
    requires n < |b|
    ensures Ring(b, 0, n) == b[..n]
  {
  }

  lemma AfterFront(size: nat, n: nat)
    requires n < size
    ensures After(size, 0, n) == n
  {
  }

  lemma CanDouble(size: nat, max: nat)
    requires Doubles(size, max)
    ensures size <= max && (size < max ==> 2 * size <= max && Doubles(2 * size, max) && Min(size * 2, max) == 2 * size)
  {
  }

  lemma Turns(size: nat, r: nat, k: nat)
    requires r < size && r + k <= size
    ensures After(size, r, k) == if r + k == size then 0 else r + k
  {
  }

  lemma Splits(read: Bytes, q: Bytes, k: nat)
    requires k <= |q|
    ensures q == q[..k] + q[k..] && read + q == (read + q[..k]) + q[k..]
  {
  }
}
