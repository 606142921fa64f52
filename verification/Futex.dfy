/** Futexes, the timer list and the run queue.

    A task is identified with the advent it waits on. Lists are front first: ll_enqueue adds at the
    front, ll_dequeue takes from the back. Each operation is one step; locks are not modelled. */
module Futex {

  import opened Options

  type Task = nat
  type Addr = nat

  const NULL: Addr := 0

  /** Where a task is: on the processor, in the run queue, finished, or in the queue of a futex. */
  datatype Place = Running | Ready | Zombie | Waiting(addr: Addr)

  type Places = map<Task, Place>
  type Queues = map<Addr, seq<Task>>

  predicate NoDup(s: seq<Task>) {
    forall i, j :: 0 <= i < j < |s| ==> s[i] != s[j]
  }

  /** The list holds exactly the tasks at `p`, each once. */
  ghost predicate Lists(l: seq<Task>, place: Places, p: Place) {
    NoDup(l) && forall t :: t in l <==> t in place && place[t] == p
  }

  /** Every task is in exactly one place, once. */
  ghost predicate Queued(queues: Queues, place: Places) {
    && (forall a :: a in queues ==> Lists(queues[a], place, Waiting(a)))
    && (forall t :: t in place && place[t].Waiting? ==> place[t].addr in queues)
  }

  ghost predicate OnCpu(cur: Option<Task>, place: Places) {
    forall t :: t in place && place[t].Running? <==> cur == Some(t)
  }

  /** A waiting task has its wait open; an open wait is waiting there, or woken and not closed yet. */
  ghost predicate Pending(pend: map<Task, Addr>, place: Places) {
    && (forall t :: t in place && place[t].Waiting? ==> t in pend && pend[t] == place[t].addr)
    && (forall t :: t in pend ==> t in place && (place[t].Waiting? ==> pend[t] == place[t].addr))
  }

  ghost function PendSet(pend: map<Task, Addr>, a: Addr): set<Task> {
    set t | t in pend && pend[t] == a
  }

  ghost function PendCount(pend: map<Task, Addr>, a: Addr): nat { |PendSet(pend, a)| }

  /** rcu counts the waits that are not closed and the open handles; a futex exists while it is not 0. */
  ghost predicate Counted(rcu: map<Addr, int>, pend: map<Task, Addr>, handles: multiset<Addr>) {
    && (forall a :: a in rcu ==> rcu[a] == PendCount(pend, a) + handles[a] && rcu[a] > 0)
    && (forall t :: t in pend ==> pend[t] in rcu)
    && (forall a :: a in handles ==> a in rcu)
  }

  /** The timer list holds waiting tasks, each with the time it waits for. */
  ghost predicate Timed(timers: seq<Task>, until: map<Task, int>, place: Places) {
    && NoDup(timers)
    && (forall t :: t in timers <==> t in until)
    && (forall t :: t in timers ==> t in place && place[t].Waiting?)
  }

  // ----- counting ----------------------------------------------------------------------------------------

  lemma PendAdd(pend: map<Task, Addr>, t: Task, a: Addr, b: Addr)
    requires t !in pend
    ensures PendCount(pend[t := a], b) == PendCount(pend, b) + if b == a then 1 else 0
  {
    assert PendSet(pend[t := a], b) == if b == a then PendSet(pend, b) + {t} else PendSet(pend, b);
  }

  lemma PendRemove(pend: map<Task, Addr>, t: Task, b: Addr)
    requires t in pend
    ensures PendCount(pend - {t}, b) == PendCount(pend, b) - if b == pend[t] then 1 else 0
  {
    PendAdd(pend - {t}, t, pend[t], b);
    assert (pend - {t})[t := pend[t]] == pend;
  }

  lemma PendNone(pend: map<Task, Addr>, a: Addr)
    ensures PendCount(pend, a) == 0 <==> forall t :: t in pend ==> pend[t] != a
  {
    if PendCount(pend, a) == 0 {
      forall t | t in pend ensures pend[t] != a { assert t !in PendSet(pend, a); }
    } else {
      var t :| t in PendSet(pend, a);
    }
  }

  // ----- the steps, on values --------------------------------------------------------------------------------

  lemma Opens(rcu: map<Addr, int>, pend: map<Task, Addr>, handles: multiset<Addr>, a: Addr)
    requires Counted(rcu, pend, handles)
    ensures Counted(rcu[a := if a in rcu then rcu[a] + 1 else 1], pend, handles + multiset{a})
  {
    hide PendCount;
    if a !in rcu { PendNone(pend, a); }
  }

  lemma OpensQueue(queues: Queues, place: Places, a: Addr)
    requires Queued(queues, place) && a !in queues
    ensures Queued(queues[a := []], place)
  {
  }

  lemma Closes(rcu: map<Addr, int>, pend: map<Task, Addr>, handles: multiset<Addr>, a: Addr)
    requires Counted(rcu, pend, handles) && a in handles
    ensures a in rcu
    ensures rcu[a] > 1 ==> Counted(rcu[a := rcu[a] - 1], pend, handles - multiset{a})
    ensures rcu[a] == 1 ==> Counted(rcu - {a}, pend, handles - multiset{a}) && forall t :: t in pend ==> pend[t] != a
  {
    hide PendCount;
    if rcu[a] == 1 { PendNone(pend, a); }
  }

  /** Nobody is queued on a futex that no wait refers to. */
  lemma ClosesQueue(queues: Queues, place: Places, pend: map<Task, Addr>, a: Addr)
    requires Queued(queues, place) && Pending(pend, place) && a in queues && forall t :: t in pend ==> pend[t] != a
    ensures queues[a] == [] && Queued(queues - {a}, place)
  {
    assert Lists(queues[a], place, Waiting(a));
    if queues[a] != [] {
      SomeIn(queues[a]);
      assert false;
    }
  }

  lemma SomeIn(l: seq<Task>)
    requires l != []
    ensures exists t :: t in l
  {
    assert l[0] in l;
  }

  /** `l` is `m` without `t`. */
  ghost predicate Less(m: seq<Task>, l: seq<Task>, t: Task) {
    NoDup(l) && forall x :: x in l <==> x in m && x != t
  }

  lemma TailLess(m: seq<Task>)
    requires NoDup(m) && m != []
    ensures Less(m, m[1..], m[0])
  {
    assert m == [m[0]] + m[1..];
  }

  lemma InitLess(m: seq<Task>)
    requires NoDup(m) && m != []
    ensures Less(m, m[..|m| - 1], m[|m| - 1])
  {
    assert m == m[..|m| - 1] + [m[|m| - 1]];
  }

  /** A task moves from one place to another: what happens to the list of a place. */
  lemma Moves(l: seq<Task>, place: Places, p: Place, t: Task, q: Place)
    requires Lists(l, place, p) && (t in place ==> place[t] != q)
    ensures (t !in place || place[t] != p) && q != p ==> Lists(l, place[t := q], p)
    ensures q == p ==> Lists([t] + l, place[t := q], p)
    ensures forall k :: t in place && place[t] == p && Less(l, k, t) ==> Lists(k, place[t := q], p)
  {
    if q == p {
      assert t !in l;
      assert forall x :: x in [t] + l <==> x == t || x in l;
    }
  }

  /** ... and to the queues. */
  lemma Leaves(queues: Queues, place: Places, t: Task, q: Place, a: Addr, l: seq<Task>)
    requires Queued(queues, place) && t in place && place[t] == Waiting(a) && !q.Waiting?
    requires a in queues && Less(queues[a], l, t)
    ensures Queued(queues[a := l], place[t := q])
  {
    hide Lists;
    var qs, ps := queues[a := l], place[t := q];
    forall b | b in qs ensures Lists(qs[b], ps, Waiting(b)) { Moves(queues[b], place, Waiting(b), t, q); }
  }

  lemma Stays(queues: Queues, place: Places, t: Task, q: Place)
    requires Queued(queues, place) && (t in place ==> !place[t].Waiting? && place[t] != q) && !q.Waiting?
    ensures Queued(queues, place[t := q])
  {
    hide Lists;
    forall b | b in queues ensures Lists(queues[b], place[t := q], Waiting(b)) {
      Moves(queues[b], place, Waiting(b), t, q);
    }
  }

  lemma Joins(queues: Queues, place: Places, t: Task, a: Addr)
    requires Queued(queues, place) && t in place && !place[t].Waiting? && a in queues
    ensures Queued(queues[a := [t] + queues[a]], place[t := Waiting(a)])
  {
    hide Lists;
    var qs, ps := queues[a := [t] + queues[a]], place[t := Waiting(a)];
    forall b | b in qs ensures Lists(qs[b], ps, Waiting(b)) { Moves(queues[b], place, Waiting(b), t, Waiting(a)); }
  }

  lemma Transfers(queues: Queues, place: Places, t: Task, a: Addr, b: Addr, l: seq<Task>)
    requires Queued(queues, place) && t in place && place[t] == Waiting(a) && a != b && a in queues && b in queues
    requires Less(queues[a], l, t)
    ensures Queued(queues[a := l][b := [t] + queues[b]], place[t := Waiting(b)])
  {
    hide Lists;
    var qs, ps := queues[a := l][b := [t] + queues[b]], place[t := Waiting(b)];
    forall c | c in qs ensures Lists(qs[c], ps, Waiting(c)) { Moves(queues[c], place, Waiting(c), t, Waiting(b)); }
  }

  /** A wait that is moved to another futex is counted there. */
  lemma Recounts(rcu: map<Addr, int>, pend: map<Task, Addr>, handles: multiset<Addr>, t: Task, b: Addr)
    requires Counted(rcu, pend, handles) && t in pend && b in rcu && b != pend[t]
    requires pend[t] in handles
    ensures Counted(rcu[pend[t] := rcu[pend[t]] - 1][b := rcu[b] + 1], pend[t := b], handles)
  {
    hide PendCount;
    var a := pend[t];
    var less := pend - {t};
    assert less[t := b] == pend[t := b];
    forall c | c in rcu ensures PendCount(pend[t := b], c) ==
      PendCount(pend, c) + (if c == b then 1 else 0) - (if c == a then 1 else 0)
    {
      PendRemove(pend, t, c);
      PendAdd(less, t, b, c);
    }
  }

  /** A handle becomes a wait, and a wait becomes a handle. */
  lemma Waits(rcu: map<Addr, int>, pend: map<Task, Addr>, handles: multiset<Addr>, t: Task, a: Addr)
    requires Counted(rcu, pend, handles) && t !in pend && a in handles
    ensures Counted(rcu, pend[t := a], handles - multiset{a})
  {
    hide PendCount;
    forall b ensures PendCount(pend[t := a], b) == PendCount(pend, b) + if b == a then 1 else 0 {
      PendAdd(pend, t, a, b);
    }
  }

  lemma Unwaits(rcu: map<Addr, int>, pend: map<Task, Addr>, handles: multiset<Addr>, t: Task)
    requires Counted(rcu, pend, handles) && t in pend
    ensures Counted(rcu, pend - {t}, handles + multiset{pend[t]})
  {
    hide PendCount;
    forall b ensures PendCount(pend - {t}, b) == PendCount(pend, b) - if b == pend[t] then 1 else 0 {
      PendRemove(pend, t, b);
    }
  }

  // ----- the kernel's view -------------------------------------------------------------------------------

  /** The waiters on `a`, newest first; none if there is no such futex. */
  function QueueOf(queues: Queues, a: Addr): seq<Task> { if a in queues then queues[a] else [] }

  function Rev(s: seq<Task>): seq<Task> {
    if s == [] then [] else [s[|s| - 1]] + Rev(s[..|s| - 1])
  }

  lemma RevMore(s: seq<Task>, i: nat)
    requires i < |s|
    ensures Rev(s[..i + 1]) == [s[i]] + Rev(s[..i])
  {
    assert s[..i + 1][..i] == s[..i];
  }

  function Least(n: int, m: nat): nat { if n <= 0 then 0 else if n <= m then n else m }

  /** What futex_requeue does: the `n` newest waiters of `a` are woken in order, the next `m` move to
      `b`, the rest and all other queues stay. */
  ghost predicate Requeued(before: Queues, after: Queues, ready: seq<Task>, ready': seq<Task>, a: Addr, n: int, m: int,
                           b: Addr)
  {
    var q := QueueOf(before, a);
    var k := Least(n, |q|);
    var j := k + Least(m, |q| - k);
    && ready' == Rev(q[..k]) + ready && QueueOf(after, a) == q[j..]
    && (a != b ==> QueueOf(after, b) == Rev(q[k..j]) + QueueOf(before, b))
    && forall c :: c != a && c != b ==> QueueOf(after, c) == QueueOf(before, c)
  }

  /** The `m` newest waiters on `a` are moved to `b`, and nobody else. */
  ghost predicate MovedTo(before: Queues, after: Queues, a: Addr, b: Addr, m: int) {
    var q := QueueOf(before, a);
    var k := Least(m, |q|);
    && QueueOf(after, a) == q[k..] && QueueOf(after, b) == Rev(q[..k]) + QueueOf(before, b)
    && forall c :: c != a && c != b ==> QueueOf(after, c) == QueueOf(before, c)
  }

  lemma QueueIs(queues: Queues, a: Addr)
    ensures a in queues ==> QueueOf(queues, a) == queues[a]
    ensures a !in queues ==> QueueOf(queues, a) == []
  {
  }

  lemma NoneRequeued(queues: Queues, ready: seq<Task>, a: Addr, n: int, m: int, b: Addr)
    requires a !in queues
    ensures Requeued(queues, queues, ready, ready, a, n, m, b)
  {
  }

  lemma SomeWoken(before: Queues, mid: Queues, a: Addr, k: nat)
    requires a in before && k <= |before[a]| && mid == before[a := before[a][k..]]
    ensures QueueOf(mid, a) == mid[a] == QueueOf(before, a)[k..]
    ensures forall c :: c != a ==> QueueOf(mid, c) == QueueOf(before, c)
  {
  }

  lemma OpenTwice(handles: multiset<Addr>, a: Addr)
    ensures handles + multiset{a} + multiset{a} == handles + multiset{a, a}
  {
  }

  lemma OnlyWoken(before: Queues, mid: Queues, after: Queues, ready: seq<Task>, ready': seq<Task>, a: Addr, n: int,
                  b: Addr)
    requires forall c :: QueueOf(after, c) == QueueOf(mid, c)
    requires forall c :: c != a ==> QueueOf(mid, c) == QueueOf(before, c)
    requires var q := QueueOf(before, a); var k := Least(n, |q|);
      QueueOf(mid, a) == q[k..] && ready' == Rev(q[..k]) + ready
    ensures Requeued(before, after, ready, ready', a, n, 0, b)
  {
    hide QueueOf, Rev;
    RevNone();
    SliceFacts(QueueOf(before, a), Least(n, |QueueOf(before, a)|), 0);
  }

  lemma AllRequeued(before: Queues, mid: Queues, late: Queues, after: Queues, ready: seq<Task>, ready': seq<Task>,
                    a: Addr, n: int, m: int, b: Addr)
    requires a != b && forall c :: QueueOf(after, c) == QueueOf(late, c)
    requires forall c :: c != a ==> QueueOf(mid, c) == QueueOf(before, c)
    requires var q := QueueOf(before, a); var k := Least(n, |q|);
      QueueOf(mid, a) == q[k..] && ready' == Rev(q[..k]) + ready
    requires var r := QueueOf(mid, a); var i := Least(m, |r|);
      && QueueOf(late, a) == r[i..] && QueueOf(late, b) == Rev(r[..i]) + QueueOf(mid, b)
      && forall c :: c != a && c != b ==> QueueOf(late, c) == QueueOf(mid, c)
    ensures Requeued(before, after, ready, ready', a, n, m, b)
  {
    hide QueueOf, Rev;
    var q := QueueOf(before, a);
    var k := Least(n, |q|);
    SliceFacts(q, k, Least(m, |q| - k));
  }

  /** How far clock_ticks has come through the timer list. */
  ghost predicate TickAt(until: map<Task, int>, place: Places, until': map<Task, int>, place': Places, list: seq<Task>,
                         i: nat, now: int)
  {
    && i <= |list|
    && (forall t :: t in list[..i] && t in until && until[t] < now ==>
          t !in until' && t in place' && place'[t] == Ready)
    && (forall t :: t in until' ==> t in until && until'[t] == until[t])
    && (forall t :: t in until && (t in list[i..] || until[t] >= now) ==> t in until')
    && (forall t :: t in place && !(t in until && until[t] < now) ==> t in place' && place'[t] == place[t])
  }

  lemma TickTurn(until: map<Task, int>, place: Places, until': map<Task, int>, place': Places, until'': map<Task, int>,
                 place'': Places, list: seq<Task>, i: nat, now: int)
    requires TickAt(until, place, until', place', list, i, now) && i < |list| && NoDup(list) && list[i] in until'
    requires if until'[list[i]] < now then until'' == until' - {list[i]} && place'' == place'[list[i] := Ready]
             else until'' == until' && place'' == place'
    ensures TickAt(until, place, until'', place'', list, i + 1, now)
  {
    NotAgain(list, i);
    assert list[..i + 1] == list[..i] + [list[i]] && list[i..] == [list[i]] + list[i + 1..];
  }

  lemma TickStart(until: map<Task, int>, place: Places, list: seq<Task>, now: int)
    ensures TickAt(until, place, until, place, list, 0, now)
  {
  }

  lemma TickNext(until: map<Task, int>, place: Places, until': map<Task, int>, place': Places, list: seq<Task>, i: nat,
                 now: int)
    requires TickAt(until, place, until', place', list, i, now) && i < |list| && forall t :: t in list <==> t in until
    ensures list[i] in until'
  {
    assert list[i] in list[i..];
  }

  lemma TickKeeps(until: map<Task, int>, place: Places, until': map<Task, int>, place': Places, list: seq<Task>, i: nat,
                  now: int)
    requires TickAt(until, place, until', place', list, i, now) && i < |list| && list[i] in until'
    ensures list[i] in until && until[list[i]] == until'[list[i]]
  {
  }

  lemma TickEnd(until: map<Task, int>, place: Places, until': map<Task, int>, place': Places, list: seq<Task>, now: int)
    requires TickAt(until, place, until', place', list, |list|, now) && forall t :: t in list <==> t in until
    ensures forall t :: t in until && until[t] < now ==> t !in until' && t in place' && place'[t] == Ready
    ensures forall t :: t in until && until[t] >= now ==> t in until' && until'[t] == until[t]
    ensures forall t :: t in place && !(t in until && until[t] < now) ==> t in place' && place'[t] == place[t]
  {
    assert list[..|list|] == list;
  }

  // ----- the order of what is left, and of what is woken -----------------------------------------------------

  /** List `k` is `l` without `t`, in the order of `l`. */
  predicate Without(l: seq<Task>, k: seq<Task>, t: Task) {
    && (t !in l ==> k == l)
    && (forall i :: 0 <= i < |l| && l[i] == t ==> k == l[..i] + l[i + 1..])
  }

  /** ... and so are the queues. */
  ghost predicate AllWithout(qs: Queues, qs': Queues, t: Task) {
    qs'.Keys == qs.Keys && forall a :: a in qs ==> Without(qs[a], qs'[a], t)
  }

  predicate Before(l: seq<Task>, x: Task, y: Task) {
    exists i, j :: 0 <= i < j < |l| && l[i] == x && l[j] == y
  }

  /** List `k` holds the tasks of `l` that are not gone, in the order of `l`. */
  ghost predicate Thinned(l: seq<Task>, k: seq<Task>, gone: set<Task>) {
    && NoDup(k) && (forall x :: x in k <==> x in l && x !in gone)
    && forall i, j :: 0 <= i < j < |k| ==> Before(l, k[i], k[j])
  }

  ghost predicate AllThinned(qs: Queues, qs': Queues, gone: set<Task>) {
    qs'.Keys == qs.Keys && forall a :: a in qs ==> Thinned(qs[a], qs'[a], gone)
  }

  /** The run queue got those gone at its front, the last of `l` first. */
  ghost predicate Woke(l: seq<Task>, ready: seq<Task>, ready': seq<Task>, gone: set<Task>) {
    var n := |ready'| - |ready|;
    && n >= 0 && ready'[n..] == ready && NoDup(ready'[..n])
    && (forall x :: x in ready'[..n] <==> x in gone)
    && forall i, j :: 0 <= i < j < n ==> Before(l, ready'[j], ready'[i])
  }

  function Expired(until: map<Task, int>, now: int): set<Task> { set t | t in until && until[t] < now }

  lemma ThinnedNone(l: seq<Task>)
    requires NoDup(l)
    ensures Thinned(l, l, {})
  {
  }

  lemma ThinnedMore(l: seq<Task>, k: seq<Task>, k': seq<Task>, gone: set<Task>, t: Task)
    requires Thinned(l, k, gone) && Without(k, k', t)
    ensures Thinned(l, k', gone + {t})
  {
    hide Before;
    if t in k {
      var i :| 0 <= i < |k| && k[i] == t;
      CutOut(k, i);
    }
  }

  /** A list with one element cut out: its other elements, in their order. */
  lemma CutOut(k: seq<Task>, i: nat)
    requires NoDup(k) && i < |k|
    ensures var k' := k[..i] + k[i + 1..];
      && NoDup(k') && (forall x :: x in k' <==> x in k && x != k[i])
      && forall j :: 0 <= j < |k'| ==> k'[j] == k[if j < i then j else j + 1]
  {
    var k' := k[..i] + k[i + 1..];
    assert k == k[..i] + [k[i]] + k[i + 1..];
    NotAgain(k, i);
  }

  lemma AllThinnedMore(qs: Queues, qs': Queues, qs'': Queues, gone: set<Task>, t: Task)
    requires AllThinned(qs, qs', gone) && AllWithout(qs', qs'', t)
    ensures AllThinned(qs, qs'', gone + {t})
  {
    hide Thinned, Without;
    forall a | a in qs ensures Thinned(qs[a], qs''[a], gone + {t}) { ThinnedMore(qs[a], qs'[a], qs''[a], gone, t); }
  }

  lemma WokeMore(l: seq<Task>, ready: seq<Task>, ready': seq<Task>, gone: set<Task>, i: nat)
    requires Woke(l, ready, ready', gone) && i < |l| && NoDup(l) && forall x :: x in gone ==> x in l[..i]
    ensures Woke(l, ready, [l[i]] + ready', gone + {l[i]})
  {
    var w, n := [l[i]] + ready', |ready'| - |ready|;
    assert w[..n + 1] == [l[i]] + ready'[..n] && w[n + 1..] == ready'[n..];
    assert l[i] !in ready'[..n];
    forall j | 0 < j < n + 1 ensures Before(l, w[j], w[0]) {
      assert w[j] == ready'[..n][j - 1];
      assert w[j] in l[..i];
      var k :| 0 <= k < i && l[..i][k] == w[j];
    }
    forall j, k | 0 <= j < k < n + 1 ensures Before(l, w[k], w[j]) {
      if j > 0 { assert w[k] == ready'[k - 1] && w[j] == ready'[j - 1]; }
    }
  }

  /** How far clock_ticks has come with the lists. */
  ghost predicate Drained(qs: Queues, qs': Queues, timers: seq<Task>, timers': seq<Task>, ready: seq<Task>,
                          ready': seq<Task>, gone: set<Task>)
  {
    AllThinned(qs, qs', gone) && Thinned(timers, timers', gone) && Woke(timers, ready, ready', gone)
  }

  lemma DrainedNone(qs: Queues, place: Places, timers: seq<Task>, ready: seq<Task>)
    requires Queued(qs, place) && NoDup(timers)
    ensures Drained(qs, qs, timers, timers, ready, ready, {})
  {
    forall a | a in qs ensures Thinned(qs[a], qs[a], {}) {
      assert Lists(qs[a], place, Waiting(a));
      ThinnedNone(qs[a]);
    }
    ThinnedNone(timers);
  }

  lemma DrainedMore(qs: Queues, qs': Queues, qs'': Queues, timers: seq<Task>, timers': seq<Task>, timers'': seq<Task>,
                    ready: seq<Task>, ready': seq<Task>, gone: set<Task>, i: nat)
    requires Drained(qs, qs', timers, timers', ready, ready', gone)
    requires i < |timers| && NoDup(timers) && forall x :: x in gone ==> x in timers[..i]
    requires AllWithout(qs', qs'', timers[i]) && Without(timers', timers'', timers[i])
    ensures Drained(qs, qs'', timers, timers'', ready, [timers[i]] + ready', gone + {timers[i]})
  {
    AllThinnedMore(qs, qs', qs'', gone, timers[i]);
    ThinnedMore(timers, timers', timers'', gone, timers[i]);
    WokeMore(timers, ready, ready', gone, i);
  }

  /** Those of the first `i` of the list whose time is past. */
  function Late(until: map<Task, int>, list: seq<Task>, i: nat, now: int): set<Task>
    requires i <= |list|
  {
    set t | t in list[..i] && t in until && until[t] < now
  }

  lemma LateNext(until: map<Task, int>, list: seq<Task>, i: nat, now: int)
    requires i < |list| && list[i] in until
    ensures until[list[i]] < now ==> Late(until, list, i + 1, now) == Late(until, list, i, now) + {list[i]}
    ensures until[list[i]] >= now ==> Late(until, list, i + 1, now) == Late(until, list, i, now)
    ensures forall x :: x in Late(until, list, i, now) ==> x in list[..i]
  {
    assert list[..i + 1] == list[..i] + [list[i]];
  }

  lemma LateAll(until: map<Task, int>, list: seq<Task>, now: int)
    requires forall t :: t in list <==> t in until
    ensures Late(until, list, |list|, now) == Expired(until, now)
  {
    assert list[..|list|] == list;
  }

  lemma LateNone(until: map<Task, int>, list: seq<Task>, now: int)
    ensures Late(until, list, 0, now) == {}
  {
  }

  class Kernel {
    var cur: Option<Task>
    var ready: seq<Task>
    var zombies: seq<Task>
    var queues: Queues
    var rcu: map<Addr, int>
    /** The futex of a wait that has not been closed: advent.object. */
    var pend: map<Task, Addr>
    var timers: seq<Task>
    var until: map<Task, int>
    var monotonic: nat
    var nextAdvent: int
    /** Where every task is, and the futexes an operation under way has opened. */
    ghost var place: Places
    ghost var handles: multiset<Addr>

    ghost predicate Valid()
      reads this
    {
      && Lists(ready, place, Ready) && Lists(zombies, place, Zombie) && OnCpu(cur, place)
      && Queued(queues, place) && queues.Keys == rcu.Keys
      && Pending(pend, place) && Counted(rcu, pend, handles)
      && Timed(timers, until, place) && nextAdvent == 0 && forall t :: t in until ==> until[t] > 0
    }

    constructor ()
      ensures Valid() && place == map[] && handles == multiset{} && monotonic == 0
    {
      cur, ready, zombies, queues, rcu, pend := None, [], [], map[], map[], map[];
      timers, until, monotonic, nextAdvent := [], map[], 0, 0;
      place, handles := map[], multiset{};
    }

    /** futex_open */
    method Open(a: Addr, create: bool) returns (found: bool)
      requires Valid()
      modifies `queues, `rcu, `handles
      ensures Valid() && found == (a in old(queues) || create)
      ensures handles == if found then old(handles) + multiset{a} else old(handles)
      ensures QueueOf(queues, a) == QueueOf(old(queues), a) && (found ==> a in queues)
      ensures queues == if found && a !in old(queues) then old(queues)[a := []] else old(queues)
    {
      hide Lists, OnCpu, Queued, Pending, Counted, Timed;
      if a !in queues && !create {
        return false;
      }
      Opens(rcu, pend, handles, a);
      if a !in queues {
        OpensQueue(queues, place, a);
        queues := queues[a := []];
        rcu := rcu[a := 0];
      }
      rcu := rcu[a := rcu[a] + 1];
      handles := handles + multiset{a};
      assert rcu == old(rcu)[a := if a in old(rcu) then old(rcu)[a] + 1 else 1];
      return true;
    }

    /** futex_close: the assertion that the queue of a futex being freed is empty holds. */
    method Close(a: Addr)
      requires Valid() && a in handles
      modifies `queues, `rcu, `handles
      ensures Valid() && handles == old(handles) - multiset{a}
      ensures forall c :: QueueOf(queues, c) == QueueOf(old(queues), c)
      ensures forall c :: c != a ==> (c in queues <==> c in old(queues))
    {
      hide Lists, OnCpu, Queued, Pending, Counted, Timed;
      Closes(rcu, pend, handles, a);
      HandleCounted(rcu, pend, handles, a);
      rcu := rcu[a := rcu[a] - 1];
      handles := handles - multiset{a};
      if rcu[a] != 0 {
        return;
      }
      ClosesQueue(queues, place, pend, a);
      assert queues[a] == [];
      queues := queues - {a};
      rcu := rcu - {a};
      assert old(rcu) - {a} == rcu;
    }

    /** advent_unregister */
    method Unregister(t: Task)
      requires NoDup(timers) && forall x :: x in timers <==> x in until
      modifies `timers, `until
      ensures NoDup(timers) && (forall x :: x in timers <==> x in until)
      ensures until == old(until) - {t} && Less(old(timers), timers, t) && Without(old(timers), timers, t)
    {
      RemovedLess(timers, t);
      RemovedWithout(timers, t);
      if t in until {
        timers := Removed(timers, t);
        until := until - {t};
      }
    }

    /** futex_wake_advent: a waiter leaves its queue and joins the run queue. */
    method WakeAdvent(t: Task, a: Addr)
      requires Valid() && a in queues && t in queues[a]
      modifies `queues, `timers, `until, `ready, `place
      ensures Valid() && queues == old(queues)[a := queues[a]] && a in queues && Less(old(queues)[a], queues[a], t)
      ensures AllWithout(old(queues), queues, t) && Without(old(timers), timers, t)
      ensures ready == [t] + old(ready) && place == old(place)[t := Ready] && until == old(until) - {t}
    {
      hide Lists, OnCpu, Queued, Pending, Counted, Timed, NoDup, Less, Without, Removed;
      QueuePlace(queues, place, a, t);
      OneQueue(queues, place, a, t);
      TimedLists(timers, until, place);
      Moves(ready, place, Ready, t, Ready);
      Moves(zombies, place, Zombie, t, Ready);
      Leaves(queues, place, t, Ready, a, Removed(queues[a], t));
      Woken(cur, pend, place, t);
      queues := queues[a := Removed(queues[a], t)];
      ghost var was, ws := timers, until;
      Unregister(t);
      TimedLess(was, ws, timers, until, place, t);
      ready := [t] + ready;
      place := place[t := Ready];
    }

    /** The first half of futex_requeue: up to `n` waiters are woken, newest first. */
    method WakeSome(a: Addr, n: int)
      requires Valid() && a in queues && a in handles
      modifies `queues, `timers, `until, `ready, `place
      ensures Valid() && a in queues
      ensures var q := old(queues)[a]; var k := Least(n, |q|);
        queues == old(queues)[a := q[k..]] && ready == Rev(q[..k]) + old(ready)
      ensures forall t :: t in old(place) && t !in old(queues)[a] ==> t in place && place[t] == old(place)[t]
      ensures place.Keys == old(place.Keys)
    {
      hide Lists, OnCpu, Queued, Pending, Counted, Timed, Less, NoDup, Without;
      ghost var q, k := queues[a], 0;
      var left := n;
      while queues[a] != [] && left > 0
        invariant Valid() && a in queues && 0 <= k <= |q| && queues == old(queues)[a := q[k..]]
        invariant ready == Rev(q[..k]) + old(ready) && left == n - k && (n > 0 ==> left >= 0) && (n <= 0 ==> k == 0)
        invariant place.Keys == old(place.Keys)
        invariant forall t :: t in old(place) && t !in q ==> t in place && place[t] == old(place)[t]
        decreases |queues[a]|
      {
        var t := queues[a][0];
        assert t == q[k] && t in q && q[k..][1..] == q[k + 1..];
        QueuePlace(queues, place, a, t);
        assert q[k..][0] == t;
        WakeAdvent(t, a);
        FrontOut(q[k..], queues[a]);
        RevMore(q, k);
        left := left - 1;
        k := k + 1;
      }
    }

    /** futex_wake, and futex_requeue without a second address. */
    method Wake(a: Addr, n: int)
      requires Valid()
      modifies `queues, `rcu, `handles, `timers, `until, `ready, `place
      ensures Valid() && handles == old(handles)
      ensures var q := QueueOf(old(queues), a); var k := Least(n, |q|);
        QueueOf(queues, a) == q[k..] && ready == Rev(q[..k]) + old(ready)
      ensures forall c :: c != a ==> QueueOf(queues, c) == QueueOf(old(queues), c)
    {
      hide Valid, Rev;
      RevNone();
      var found := Open(a, false);
      if !found {
        return;
      }
      assert a in handles;
      WakeSome(a, n);
      Close(a);
      assert handles == old(handles);
    }

    /** One waiter moves to another futex. */
    method Shift(t: Task, a: Addr, b: Addr)
      requires Valid() && a in queues && t in queues[a] && b in queues && a != b && a in handles && b in handles
      modifies `queues, `rcu, `pend, `place
      ensures Valid() && a in queues && Without(old(queues)[a], queues[a], t)
      ensures queues == old(queues)[a := queues[a]][b := [t] + old(queues)[b]]
    {
      hide Lists, OnCpu, Queued, Pending, Counted, Timed, NoDup, Less, Without, Removed;
      QueuePlace(queues, place, a, t);
      OneQueue(queues, place, a, t);
      Moves(ready, place, Ready, t, Waiting(b));
      Moves(zombies, place, Zombie, t, Waiting(b));
      Transfers(queues, place, t, a, b, Removed(queues[a], t));
      Shifted(cur, pend, place, timers, until, t, b);
      Recounts(rcu, pend, handles, t, b);
      queues := queues[a := Removed(queues[a], t)];
      queues := queues[b := [t] + queues[b]];
      rcu := rcu[a := rcu[a] - 1];
      rcu := rcu[b := rcu[b] + 1];
      pend := pend[t := b];
      place := place[t := Waiting(b)];
    }

    /** The second half of futex_requeue: up to `n` waiters move, newest first. */
    method ShiftSome(a: Addr, b: Addr, n: int)
      requires Valid() && a in queues && b in queues && a != b && a in handles && b in handles
      modifies `queues, `rcu, `pend, `place
      ensures Valid() && queues.Keys == old(queues.Keys)
      ensures var q := old(queues)[a]; var k := Least(n, |q|);
        queues[a] == q[k..] && queues[b] == Rev(q[..k]) + old(queues)[b]
      ensures forall c :: c in queues && c != a && c != b ==> queues[c] == old(queues)[c]
    {
      hide Valid, Rev, Without;
      RevNone();
      ghost var q, k := queues[a], 0;
      var left := n;
      while queues[a] != [] && left > 0
        invariant Valid() && queues.Keys == old(queues.Keys) && 0 <= k <= |q|
        invariant queues[a] == q[k..] && queues[b] == Rev(q[..k]) + old(queues)[b]
        invariant forall c :: c in queues && c != a && c != b ==> queues[c] == old(queues)[c]
        invariant left == n - k && (n > 0 ==> left >= 0) && (n <= 0 ==> k == 0)
        decreases |queues[a]|
      {
        var t := queues[a][0];
        assert t == q[k] && q[k..][1..] == q[k + 1..];
        assert q[k..][0] == t;
        Shift(t, a, b);
        FrontOut(q[k..], queues[a]);
        RevMore(q, k);
        left := left - 1;
        k := k + 1;
      }
    }

    /** futex_requeue. Nothing moves to the null address. Moving waiters of a futex to itself takes its
        lock twice and never comes back, with both handles open; every other call ends. */
    method Requeue(a: Addr, n: int, m: int, b: Addr) returns (stuck: bool)
      requires Valid()
      modifies `queues, `rcu, `handles, `timers, `until, `ready, `place, `pend
      ensures Valid() && (stuck <==> a == b && m != 0 && b != NULL && a in old(queues))
      ensures handles == if stuck then old(handles) + multiset{a, a} else old(handles)
      ensures Requeued(old(queues), queues, old(ready), ready, a, n, if a == b || b == NULL then 0 else m, b)
    {
      hide Valid, Rev, Requeued, QueueOf;
      var found := Open(a, false);
      QueueIs(old(queues), a);
      if !found {
        NoneRequeued(queues, ready, a, n, if a == b || b == NULL then 0 else m, b);
        return false;
      }
      assert a in handles;
      WakeSome(a, n);
      ghost var q := QueueOf(old(queues), a);
      ghost var mid := queues;
      SomeWoken(old(queues), mid, a, Least(n, |q|));
      if m == 0 || b == NULL {
        Close(a);
        assert handles == old(handles);
        OnlyWoken(old(queues), mid, queues, old(ready), ready, a, n, b);
        return false;
      }
      if a == b {
        OnlyWoken(old(queues), mid, mid, old(ready), ready, a, n, a);
        OpenTwice(old(handles), a);
        OpenAgain(a);
        return true;
      }
      ShiftTo(a, m, b);
      assert a in handles;
      ghost var late := queues;
      Close(a);
      assert handles == old(handles);
      AllRequeued(old(queues), mid, late, queues, old(ready), ready, a, n, m, b);
      return false;
    }

    /** Opening a futex that is open already. */
    method OpenAgain(a: Addr)
      requires Valid() && a in queues
      modifies `queues, `rcu, `handles
      ensures Valid() && queues == old(queues) && handles == old(handles) + multiset{a}
    {
      hide Valid;
      var _ := Open(a, true);
    }

    /** The part of futex_requeue that opens the second futex, fills it and closes it. */
    method ShiftTo(a: Addr, m: int, b: Addr)
      requires Valid() && a in queues && a != b && a in handles
      modifies `queues, `rcu, `handles, `pend, `place
      ensures Valid() && handles == old(handles)
      ensures MovedTo(old(queues), queues, a, b, m)
    {
      hide Valid, Rev;
      ghost var h := handles;
      var _ := Open(b, true);
      assert a in handles && b in handles;
      ShiftSome(a, b, m);
      Close(b);
      assert handles == h;
    }

    /** scheduler_add */
    method Add(t: Task)
      requires Valid() && t !in place
      modifies `ready, `place
      ensures Valid() && ready == [t] + old(ready) && place == old(place)[t := Ready]
    {
      hide Lists, Counted;
      Moves(ready, place, Ready, t, Ready);
      Moves(zombies, place, Zombie, t, Ready);
      Stays(queues, place, t, Ready);
      ready := [t] + ready;
      place := place[t := Ready];
    }

    /** The end of scheduler_switch: the oldest ready task runs, if any. */
    method Dispatch()
      requires Valid() && cur == None
      modifies `ready, `place, `cur
      ensures Valid()
      ensures old(ready) == [] ==> cur == None && ready == [] && place == old(place)
      ensures old(ready) != [] ==>
        && cur == Some(old(ready)[|old(ready)| - 1]) && ready == old(ready)[..|old(ready)| - 1]
        && place == old(place)[old(ready)[|old(ready)| - 1] := Running]
    {
      hide Lists, OnCpu, Queued, Pending, Counted, Timed, Less;
      if ready == [] {
        return;
      }
      var t := ready[|ready| - 1];
      LastReady(ready, place, t);
      TakesCpu(place, t);
      Moves(ready, place, Ready, t, Running);
      Moves(zombies, place, Zombie, t, Running);
      Stays(queues, place, t, Running);
      Runs(pend, place, timers, until, t);
      ready := ready[..|ready| - 1];
      place := place[t := Running];
      cur := Some(t);
    }

    /** scheduler_switch, by the running task if there is one: back to the run queue, or finished because
        it asks to be or was aborted. */
    method Switch(aborted: bool, finish: bool)
      requires Valid()
      modifies `ready, `zombies, `place, `cur
      ensures Valid()
      ensures var left := if old(cur).Some? then [old(cur).value] else [];
        var l := if aborted || finish then old(ready) else left + old(ready);
        && (if l == [] then cur == None && ready == [] else cur == Some(l[|l| - 1]) && ready == l[..|l| - 1])
        && zombies == if aborted || finish then left + old(zombies) else old(zombies)
    {
      hide Valid;
      NoneRuns();
      if cur.Some? {
        Leave(aborted || finish);
      }
      Dispatch();
    }

    lemma NoneRuns()
      ensures [] + ready == ready && [] + zombies == zombies
    {
    }

    /** The running task gives up the processor. */
    method Leave(ends: bool)
      requires Valid() && cur.Some?
      modifies `ready, `zombies, `place, `cur
      ensures Valid() && cur == None
      ensures ready == if ends then old(ready) else [old(cur.value)] + old(ready)
      ensures zombies == if ends then [old(cur.value)] + old(zombies) else old(zombies)
    {
      hide Lists, Queued, Counted;
      var t := cur.value;
      ghost var q := if ends then Zombie else Ready;
      Moves(ready, place, Ready, t, q);
      Moves(zombies, place, Zombie, t, q);
      Stays(queues, place, t, q);
      Halts(cur, pend, place, timers, until, t, q);
      if ends {
        zombies := [t] + zombies;
      } else {
        ready := [t] + ready;
      }
      place := place[t := q];
      cur := None;
    }

    /** futex_wait up to the switch, by the running task: if the word still has the expected value the
        task is queued, listed for its timeout if it has one, and another task runs. */
    method Wait(a: Addr, matches: bool, timeout: int)
      requires Valid() && cur.Some? && cur.value !in pend
      modifies `cur, `ready, `queues, `rcu, `pend, `timers, `until, `place, `handles, `nextAdvent
      ensures Valid() && handles == old(handles)
      ensures !matches ==> cur == old(cur) && place == old(place)
      ensures !matches ==> forall c :: QueueOf(queues, c) == QueueOf(old(queues), c)
      ensures matches ==>
        && QueueOf(queues, a) == [old(cur.value)] + QueueOf(old(queues), a)
        && (forall c :: c != a ==> QueueOf(queues, c) == QueueOf(old(queues), c))
        && (if old(ready) == [] then cur == None else cur == Some(old(ready)[|old(ready)| - 1]))
        && until == (if timeout > 0 then old(until)[old(cur.value) := monotonic + timeout] else old(until))
        && timers == if timeout > 0 then old(timers) + [old(cur.value)] else old(timers)
    {
      hide Valid;
      var t := cur.value;
      var _ := Open(a, true);
      assert a in handles;
      if !matches {
        Close(a);
        assert handles == old(handles);
        return;
      }
      Blocks(t, a, timeout);
      assert handles == old(handles);
      Dispatch();
    }

    /** The running task is queued on `a` and gives up the processor. */
    method Blocks(t: Task, a: Addr, timeout: int)
      requires Valid() && cur == Some(t) && t !in pend && a in handles && a in queues
      modifies `cur, `queues, `pend, `timers, `until, `place, `handles, `nextAdvent
      ensures Valid() && handles == old(handles) - multiset{a} && cur == None
      ensures queues == old(queues)[a := [t] + old(queues)[a]]
      ensures until == if timeout > 0 then old(until)[t := monotonic + timeout] else old(until)
      ensures timers == if timeout > 0 then old(timers) + [t] else old(timers)
    {
      hide Lists, Queued, Counted, OnCpu, Pending, Timed;
      CpuPlace(cur, place, t);
      Moves(ready, place, Ready, t, Waiting(a));
      Moves(zombies, place, Zombie, t, Waiting(a));
      Joins(queues, place, t, a);
      Blocked(pend, place, timers, until, t, a);
      GivesUp(cur, place, t, a);
      Waits(rcu, pend, handles, t, a);
      queues := queues[a := [t] + queues[a]];
      handles := handles - multiset{a};
      pend := pend[t := a];
      place := place[t := Waiting(a)];
      cur := None;
      Register(t, timeout);
    }

    /** advent_register of a waiter */
    method Register(t: Task, timeout: int)
      requires Valid() && t in place && place[t].Waiting? && t !in until
      modifies `timers, `until, `nextAdvent
      ensures Valid() && until == if timeout > 0 then old(until)[t := monotonic + timeout] else old(until)
      ensures timers == if timeout > 0 then old(timers) + [t] else old(timers)
    {
      hide Lists, Queued, Counted, OnCpu, Pending;
      if timeout > 0 {
        var at := monotonic + timeout;
        nextAdvent := if at < nextAdvent then at else nextAdvent;
        assert forall x :: x in timers + [t] <==> x in timers || x == t;
        timers := timers + [t];
        until := until[t := at];
      }
    }

    /** The end of futex_wait, when the woken task runs again. */
    method Finish()
      requires Valid() && cur.Some? && cur.value in pend
      modifies `queues, `rcu, `pend, `handles
      ensures Valid() && handles == old(handles) && pend == old(pend) - {old(cur.value)}
      ensures forall c :: QueueOf(queues, c) == QueueOf(old(queues), c)
    {
      hide Lists, Queued, Counted, Timed;
      var t := cur.value;
      var a := pend[t];
      Unwaits(rcu, pend, handles, t);
      pend := pend - {t};
      handles := handles + multiset{a};
      Close(a);
      assert handles == old(handles);
    }

    /** A timer whose time is past wakes its task. */
    method Expire(t: Task)
      requires Valid() && t in until
      modifies `queues, `timers, `until, `ready, `place, `nextAdvent
      ensures Valid()
      ensures if old(until)[t] < monotonic then until == old(until) - {t} && place == old(place)[t := Ready]
              else until == old(until) && place == old(place)
      ensures if old(until)[t] < monotonic then AllWithout(old(queues), queues, t)
                                                && Without(old(timers), timers, t) && ready == [t] + old(ready)
              else queues == old(queues) && timers == old(timers) && ready == old(ready)
    {
      hide Lists, Queued, Counted, OnCpu, Pending, Without;
      if until[t] < monotonic {
        WaitingIn(queues, pend, place, t);
        WakeAdvent(t, pend[t]);
      } else {
        var at := until[t];
        nextAdvent := if at < nextAdvent then at else nextAdvent;
      }
    }

    /** clock_ticks: time passes, and every waiter whose time is past is woken. */
    method Tick(elapsed: nat)
      requires Valid()
      modifies `monotonic, `queues, `timers, `until, `ready, `place, `nextAdvent
      ensures Valid() && monotonic == old(monotonic) + elapsed
      ensures forall t :: t in old(until) && old(until)[t] < monotonic ==>
        t !in until && t in place && place[t] == Ready
      ensures forall t :: t in old(until) && old(until)[t] >= monotonic ==> t in until && until[t] == old(until)[t]
      ensures forall t :: t in old(place) && !(t in old(until) && old(until)[t] < monotonic) ==>
        t in place && place[t] == old(place)[t]
      // each queue and the timer list keep their order; the run queue gets the tasks woken at its front, the
      // last of the timer list first
      ensures AllThinned(old(queues), queues, Expired(old(until), monotonic))
      ensures Thinned(old(timers), timers, Expired(old(until), monotonic))
      ensures Woke(old(timers), old(ready), ready, Expired(old(until), monotonic))
    {
      hide Valid, TickAt, AllThinned, Thinned, Woke, Late, Expired, AllWithout, Without;
      GateOpen();
      TimersExact();
      Ages(elapsed);
      ghost var now := monotonic;
      if nextAdvent <= monotonic {
        var list := timers;
        TickStart(until, place, list, now);
        QueuesValid();
        DrainedNone(queues, place, timers, ready);
        LateNone(until, list, now);
        for i := 0 to |list|
          invariant Valid() && monotonic == now && NoDup(list)
          invariant TickAt(old(until), old(place), until, place, list, i, now)
          invariant Drained(old(queues), queues, list, timers, old(ready), ready, Late(old(until), list, i, now))
        {
          ghost var u, p := until, place;
          ghost var qs, ts, rs := queues, timers, ready;
          TickNext(old(until), old(place), until, place, list, i, now);
          Expire(list[i]);
          TickTurn(old(until), old(place), u, p, until, place, list, i, now);
          TickKeeps(old(until), old(place), u, p, list, i, now);
          LateNext(old(until), list, i, now);
          if u[list[i]] < now {
            DrainedMore(old(queues), qs, queues, list, ts, timers, old(ready), rs, Late(old(until), list, i, now), i);
          }
        }
        LateAll(old(until), list, now);
        TickEnd(old(until), old(place), until, place, list, now);
      }
    }

    method Ages(elapsed: nat)
      requires Valid()
      modifies `monotonic
      ensures Valid() && monotonic == old(monotonic) + elapsed
    {
      monotonic := monotonic + elapsed;
    }

    lemma QueuesValid()
      requires Valid()
      ensures Queued(queues, place)
    {
    }

    lemma GateOpen()
      requires Valid()
      ensures nextAdvent <= 0
    {
    }

    lemma TimersExact()
      requires Valid()
      ensures NoDup(timers) && forall t :: t in timers <==> t in until
    {
    }
  }

  /** ll_remove: the list without `t`, in the same order. */
  function Removed(l: seq<Task>, t: Task): seq<Task> {
    if l == [] then [] else if l[0] == t then l[1..] else [l[0]] + Removed(l[1..], t)
  }

  lemma {:induction false} RemovedLess(l: seq<Task>, t: Task)
    requires NoDup(l)
    ensures Less(l, Removed(l, t), t)
  {
    if l != [] {
      assert l == [l[0]] + l[1..];
      TailLess(l);
      if l[0] != t {
        RemovedLess(l[1..], t);
        assert l[0] !in l[1..];
        Pushed(Removed(l[1..], t), l[0]);
      }
    }
  }

  /** That is the list in front of `t` and the list behind it. */
  lemma {:induction false} RemovedWithout(l: seq<Task>, t: Task)
    requires NoDup(l)
    ensures Without(l, Removed(l, t), t)
  {
    if t in l {
      var i :| 0 <= i < |l| && l[i] == t;
      NotAgain(l, i);
      RemovedAt(l, i);
    } else {
      RemovedNone(l, t);
    }
  }

  lemma {:induction false} RemovedAt(l: seq<Task>, i: nat)
    requires i < |l| && l[i] !in l[..i]
    ensures Removed(l, l[i]) == l[..i] + l[i + 1..]
  {
    if i > 0 {
      var t := l[1..];
      assert t[i - 1] == l[i] && t[..i - 1] == l[1..i] && t[i..] == l[i + 1..];
      assert l[..i] == [l[0]] + l[1..i];
      RemovedAt(t, i - 1);
    }
  }

  lemma {:induction false} RemovedNone(l: seq<Task>, t: Task)
    requires t !in l
    ensures Removed(l, t) == l
  {
    if l != [] { RemovedNone(l[1..], t); }
  }

  lemma FrontOut(l: seq<Task>, k: seq<Task>)
    requires l != [] && Without(l, k, l[0])
    ensures k == l[1..]
  {
  }

  lemma OneQueue(queues: Queues, place: Places, a: Addr, t: Task)
    requires Queued(queues, place) && a in queues && t in queues[a]
    ensures AllWithout(queues, queues[a := Removed(queues[a], t)], t)
  {
    hide Removed;
    assert Lists(queues[a], place, Waiting(a));
    RemovedWithout(queues[a], t);
    forall b | b in queues && b != a ensures t !in queues[b] { assert Lists(queues[b], place, Waiting(b)); }
  }

  lemma Pushed(l: seq<Task>, x: Task)
    requires NoDup(l) && x !in l
    ensures NoDup([x] + l)
  {
  }

  lemma HandleCounted(rcu: map<Addr, int>, pend: map<Task, Addr>, handles: multiset<Addr>, a: Addr)
    requires Counted(rcu, pend, handles) && a in handles
    ensures a in rcu && rcu[a] >= 1
  {
  }

  lemma QueuePlace(queues: Queues, place: Places, a: Addr, t: Task)
    requires Queued(queues, place) && a in queues && t in queues[a]
    ensures t in place && place[t] == Waiting(a) && Less(queues[a], Removed(queues[a], t), t)
  {
    assert Lists(queues[a], place, Waiting(a));
    RemovedLess(queues[a], t);
  }

  lemma TimedLists(timers: seq<Task>, until: map<Task, int>, place: Places)
    requires Timed(timers, until, place)
    ensures NoDup(timers) && forall x :: x in timers <==> x in until
  {
  }

  lemma TimedLess(timers: seq<Task>, until: map<Task, int>, l: seq<Task>, m: map<Task, int>, place: Places, t: Task)
    requires Timed(timers, until, place) && Less(timers, l, t) && m == until - {t}
    ensures Timed(l, m, place[t := Ready])
  {
  }

  /** A waiter becoming ready is still pending. */
  lemma Woken(cur: Option<Task>, pend: map<Task, Addr>, place: Places, t: Task)
    requires OnCpu(cur, place) && Pending(pend, place) && t in place && place[t].Waiting?
    ensures OnCpu(cur, place[t := Ready]) && Pending(pend, place[t := Ready]) && t in pend
  {
  }

  lemma Shifted(cur: Option<Task>, pend: map<Task, Addr>, place: Places, timers: seq<Task>, until: map<Task, int>,
                t: Task, b: Addr)
    requires OnCpu(cur, place) && Pending(pend, place) && Timed(timers, until, place) && t in place && place[t].Waiting?
    ensures OnCpu(cur, place[t := Waiting(b)]) && Pending(pend[t := b], place[t := Waiting(b)])
    ensures Timed(timers, until, place[t := Waiting(b)]) && t in pend && pend[t] == place[t].addr
  {
  }

  lemma RevNone()
    ensures Rev([]) == []
  {
  }

  lemma LastReady(ready: seq<Task>, place: Places, t: Task)
    requires Lists(ready, place, Ready) && ready != [] && t == ready[|ready| - 1]
    ensures t in place && place[t] == Ready && Less(ready, ready[..|ready| - 1], t)
  {
    assert t in ready;
    InitLess(ready);
  }

  lemma TakesCpu(place: Places, t: Task)
    requires OnCpu(None, place)
    ensures OnCpu(Some(t), place[t := Running])
  {
  }

  lemma Runs(pend: map<Task, Addr>, place: Places, timers: seq<Task>, until: map<Task, int>, t: Task)
    requires Pending(pend, place) && Timed(timers, until, place) && t in place && place[t].Ready?
    ensures Pending(pend, place[t := Running]) && Timed(timers, until, place[t := Running])
  {
  }

  lemma Halts(cur: Option<Task>, pend: map<Task, Addr>, place: Places, timers: seq<Task>, until: map<Task, int>,
              t: Task, q: Place)
    requires OnCpu(cur, place) && Pending(pend, place) && Timed(timers, until, place) && cur == Some(t)
    requires q.Ready? || q.Zombie?
    ensures OnCpu(None, place[t := q]) && Pending(pend, place[t := q]) && Timed(timers, until, place[t := q])
  {
  }

  lemma SliceFacts(q: seq<Task>, k: nat, j: nat)
    requires k + j <= |q|
    ensures q[k..][j..] == q[k + j..] && q[k..][..j] == q[k..k + j] && (j == 0 ==> q[k..k + j] == [])
  {
  }

  lemma CpuPlace(cur: Option<Task>, place: Places, t: Task)
    requires OnCpu(cur, place) && cur == Some(t)
    ensures t in place && place[t] == Running
  {
  }

  lemma GivesUp(cur: Option<Task>, place: Places, t: Task, a: Addr)
    requires OnCpu(cur, place) && cur == Some(t)
    ensures OnCpu(None, place[t := Waiting(a)])
  {
  }

  lemma Blocked(pend: map<Task, Addr>, place: Places, timers: seq<Task>, until: map<Task, int>, t: Task, a: Addr)
    requires Pending(pend, place) && Timed(timers, until, place) && t in place && place[t].Running? && t !in pend
    ensures Pending(pend[t := a], place[t := Waiting(a)]) && Timed(timers, until, place[t := Waiting(a)]) && t !in until
  {
  }

  lemma WaitingIn(queues: Queues, pend: map<Task, Addr>, place: Places, t: Task)
    requires Queued(queues, place) && Pending(pend, place) && t in place && place[t].Waiting?
    ensures t in pend && pend[t] in queues && t in queues[pend[t]]
  {
    assert Lists(queues[place[t].addr], place, Waiting(place[t].addr));
  }

  lemma NotAgain(l: seq<Task>, i: nat)
    requires NoDup(l) && i < |l|
    ensures l[i] !in l[i + 1..] && l[i] !in l[..i]
  {
  }
}
