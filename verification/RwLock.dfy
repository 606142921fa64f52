/** The reader/writer lock as atomic steps of any number of threads.

    Each step of a thread is one atomic access to the spin lock word or to the reader counter. */
module RwLock {

  type Thread = nat

  /** Where a thread is. Every name but Idle, Reading and Writing is a point inside an operation. */
  datatype Pc =
    | Idle | Reading | Writing
    | RdInc | RdCheck | RdBack | RdSpin            // rwlock_rdlock
    | TryInc | TryCheck | TryBack                  // rwlock_rdtrylock
    | WrXchg | WrSpin | WrDrain                    // rwlock_wrlock
    | WtLoad | WtXchg | WtCheck | WtUndo           // rwlock_wrtrylock
    | UpXchg | UpDec | UpDrain                     // rwlock_upgrade
  {
    /** Has added itself to the reader counter and not taken itself off. */
    predicate Counted() {
      Reading? || RdCheck? || RdBack? || TryCheck? || TryBack? || UpXchg? || UpDec?
    }

    /** Has taken the spin lock and not released it. */
    predicate Holds() { Writing? || WrDrain? || WtCheck? || WtUndo? || UpDec? || UpDrain? }

    /** Holds the lock for reading, including while it tries to upgrade. */
    predicate Reads() { Reading? || UpXchg? || UpDec? }
  }

  datatype State = State(lock: int, readers: int, pc: map<Thread, Pc>)

  /** What an idle thread, or one that reads or writes, may start. */
  datatype Call = RdLock | RdTryLock | WrLock | WrTryLock | Upgrade | RdUnlock | WrUnlock

  /** The step of thread `t`; `call` says what it starts when it is between operations. A call that
      makes no sense where the thread is does nothing. */
  function Step(s: State, t: Thread, call: Call): State
    requires t in s.pc
  {
    match s.pc[t]
    case Idle =>
      (match call
       case RdLock => At(s, t, RdInc)
       case RdTryLock => At(s, t, TryInc)
       case WrLock => At(s, t, WrXchg)
       case WrTryLock => At(s, t, WtLoad)
       case _ => s)
    case Reading =>
      (match call
       case RdUnlock => At(s.(readers := s.readers - 1), t, Idle)
       case Upgrade => At(s, t, UpXchg)
       case _ => s)
    case Writing => if call.WrUnlock? then At(s.(lock := 0), t, Idle) else s
    case RdInc => At(s.(readers := s.readers + 1), t, RdCheck)
    case RdCheck => At(s, t, if s.lock == 0 then Reading else RdBack)
    case RdBack => At(s.(readers := s.readers - 1), t, RdSpin)
    case RdSpin => At(s, t, if s.lock == 0 then RdInc else RdSpin)
    case TryInc => At(s.(readers := s.readers + 1), t, TryCheck)
    case TryCheck => At(s, t, if s.lock == 0 then Reading else TryBack)
    case TryBack => At(s.(readers := s.readers - 1), t, Idle)
    case WrXchg => At(s.(lock := 1), t, if s.lock == 0 then WrDrain else WrSpin)
    case WrSpin => At(s, t, if s.lock == 0 then WrXchg else WrSpin)
    case WrDrain => At(s, t, if s.readers == 0 then Writing else WrDrain)
    case WtLoad => At(s, t, if s.readers == 0 then WtXchg else Idle)
    case WtXchg => At(s.(lock := 1), t, if s.lock == 0 then WtCheck else Idle)
    case WtCheck => At(s, t, if s.readers == 0 then Writing else WtUndo)
    case WtUndo => At(s.(lock := 0), t, Idle)
    case UpXchg => At(s.(lock := 1), t, if s.lock == 0 then UpDec else Reading)
    case UpDec => At(s.(readers := s.readers - 1), t, UpDrain)
    case UpDrain => At(s, t, if s.readers == 0 then Writing else UpDrain)
  }

  function At(s: State, t: Thread, p: Pc): State { State(s.lock, s.readers, s.pc[t := p]) }

  // ----- the invariant ------------------------------------------------------------------------------------

  ghost function CountedSet(pc: map<Thread, Pc>): set<Thread> { set t | t in pc && pc[t].Counted() }

  ghost function HolderSet(pc: map<Thread, Pc>): set<Thread> { set t | t in pc && pc[t].Holds() }

  ghost predicate Inv(s: State) {
    && s.readers == |CountedSet(s.pc)|
    && (s.lock == 0 || s.lock == 1) && s.lock == |HolderSet(s.pc)|
    && forall w, r :: w in s.pc && r in s.pc && s.pc[w].Writing? ==> !s.pc[r].Reads()
  }

  /** No writer holds together with a reader or another writer. */
  ghost predicate Exclusive(s: State) {
    forall w, t :: w in s.pc && t in s.pc && w != t && s.pc[w].Writing? ==> !s.pc[t].Writing? && !s.pc[t].Reading?
  }

  lemma MovedCounted(pc: map<Thread, Pc>, t: Thread, p: Pc)
    requires t in pc
    ensures |CountedSet(pc[t := p])|
         == |CountedSet(pc)| + (if p.Counted() then 1 else 0) - (if pc[t].Counted() then 1 else 0)
  {
    var c := CountedSet(pc) - {t};
    assert CountedSet(pc[t := p]) == if p.Counted() then c + {t} else c;
    assert CountedSet(pc) == if pc[t].Counted() then c + {t} else c;
  }

  lemma MovedHolder(pc: map<Thread, Pc>, t: Thread, p: Pc)
    requires t in pc
    ensures |HolderSet(pc[t := p])| == |HolderSet(pc)| + (if p.Holds() then 1 else 0) - (if pc[t].Holds() then 1 else 0)
  {
    var h := HolderSet(pc) - {t};
    assert HolderSet(pc[t := p]) == if p.Holds() then h + {t} else h;
    assert HolderSet(pc) == if pc[t].Holds() then h + {t} else h;
  }

  /** There is room for one holder. */
  lemma OneHolder(pc: map<Thread, Pc>, w: Thread, t: Thread)
    requires w in pc && t in pc && pc[w].Holds() && pc[t].Holds() && |HolderSet(pc)| <= 1
    ensures w == t
  {
    assert {w, t} <= HolderSet(pc);
    if w != t { Larger({w, t}, HolderSet(pc)); }
  }

  lemma Larger(a: set<Thread>, b: set<Thread>)
    requires a <= b
    ensures |a| <= |b|
  {
    assert b == a + (b - a);
  }

  /** A counter of 0 means nobody is counted. */
  lemma NoneCounted(pc: map<Thread, Pc>, t: Thread)
    requires t in pc && |CountedSet(pc)| == 0
    ensures !pc[t].Counted()
  {
    assert t !in CountedSet(pc);
  }

  lemma NoHolder(pc: map<Thread, Pc>, t: Thread)
    requires t in pc && |HolderSet(pc)| == 0
    ensures !pc[t].Holds()
  {
    assert t !in HolderSet(pc);
  }

  // ----- every step keeps it -------------------------------------------------------------------------------

  function One(b: bool): int { if b then 1 else 0 }

  /** A thread moves and the two words change as its counting and holding do; it starts to read only
      when the lock is free, and to write only when the counter is 0. */
  lemma Keeps(s: State, t: Thread, p: Pc, lock: int, readers: int)
    requires Inv(s) && t in s.pc
    requires readers == s.readers + One(p.Counted()) - One(s.pc[t].Counted())
    requires lock == s.lock + One(p.Holds()) - One(s.pc[t].Holds()) && (lock == 0 || lock == 1)
    requires p.Reads() && !s.pc[t].Reads() ==> s.lock == 0
    requires p.Writing? && !s.pc[t].Writing? ==> s.readers == 0
    ensures Inv(State(lock, readers, s.pc[t := p]))
  {
    MovedCounted(s.pc, t, p);
    MovedHolder(s.pc, t, p);
    var pc := s.pc[t := p];
    forall w, r | w in pc && r in pc && pc[w].Writing? ensures !pc[r].Reads() {
      if w != t && r == t && p.Reads() && s.lock == 0 { NoHolder(s.pc, w); }
      if w == t && r != t && s.readers == 0 { NoneCounted(s.pc, r); }
    }
  }

  /** A thread that holds the spin lock sees it set. */
  lemma HolderSees(s: State, t: Thread)
    requires Inv(s) && t in s.pc && s.pc[t].Holds()
    ensures s.lock == 1
  {
    if s.lock == 0 { NoHolder(s.pc, t); }
  }

  lemma StepKeeps(s: State, t: Thread, call: Call)
    requires Inv(s) && t in s.pc
    ensures Inv(Step(s, t, call)) && Step(s, t, call).pc.Keys == s.pc.Keys
  {
    hide Inv, Step;
    var u := Step(s, t, call);
    InvLock(s);
    if s.pc[t].Holds() { HolderSees(s, t); }
    StepMoves(s, t, call);
    StepWords(s, t, call);
    Keeps(s, t, u.pc[t], u.lock, u.readers);
  }

  lemma StepMoves(s: State, t: Thread, call: Call)
    requires t in s.pc
    ensures var u := Step(s, t, call); t in u.pc && u == State(u.lock, u.readers, s.pc[t := u.pc[t]])
  {
  }

  /** The two words change as the counting and holding of the thread do. */
  lemma StepWords(s: State, t: Thread, call: Call)
    requires t in s.pc && t in Step(s, t, call).pc && (s.lock == 0 || s.lock == 1) && (s.pc[t].Holds() ==> s.lock == 1)
    ensures var u := Step(s, t, call); var p := u.pc[t];
      && u.readers == s.readers + One(p.Counted()) - One(s.pc[t].Counted())
      && u.lock == s.lock + One(p.Holds()) - One(s.pc[t].Holds()) && (u.lock == 0 || u.lock == 1)
      && (p.Reads() && !s.pc[t].Reads() ==> s.lock == 0) && (p.Writing? && !s.pc[t].Writing? ==> s.readers == 0)
  {
  }

  lemma InvLock(s: State)
    requires Inv(s)
    ensures s.lock == 0 || s.lock == 1
  {
  }

  lemma InvExclusive(s: State)
    requires Inv(s)
    ensures Exclusive(s)
  {
    forall w, t | w in s.pc && t in s.pc && w != t && s.pc[w].Writing? ensures !s.pc[t].Writing? && !s.pc[t].Reading? {
      if s.pc[t].Writing? { OneHolder(s.pc, w, t); }
    }
  }

  // ----- runs ------------------------------------------------------------------------------------------------

  datatype Move = Move(t: Thread, call: Call)

  ghost function Run(s: State, moves: seq<Move>): State
    requires forall i :: 0 <= i < |moves| ==> moves[i].t in s.pc
    ensures Run(s, moves).pc.Keys == s.pc.Keys
  {
    if moves == [] then s
    else
      var u := Run(s, moves[..|moves| - 1]);
      var m := moves[|moves| - 1];
      Step(u, m.t, m.call)
  }

  /** rwlock_init, with every thread idle. */
  predicate Start(s: State) {
    s.lock == 0 && s.readers == 0 && forall t :: t in s.pc ==> s.pc[t].Idle?
  }

  /** Over any interleaving of any number of threads: exclusion, and the counter is exactly the threads
      that have incremented and not decremented. */
  lemma {:induction false} RunSafe(s: State, moves: seq<Move>)
    requires Start(s) && forall i :: 0 <= i < |moves| ==> moves[i].t in s.pc
    ensures Inv(Run(s, moves)) && Exclusive(Run(s, moves))
    ensures Run(s, moves).readers == |CountedSet(Run(s, moves).pc)|
  {
    if moves == [] {
      assert CountedSet(s.pc) == {} && HolderSet(s.pc) == {};
      assert Inv(s);
    } else {
      var m := moves[|moves| - 1];
      var u := Run(s, moves[..|moves| - 1]);
      RunSafe(s, moves[..|moves| - 1]);
      StepKeeps(u, m.t, m.call);
    }
    InvExclusive(Run(s, moves));
  }

  /** When every thread is idle again the lock is as it was made. */
  lemma Quiet(s: State, moves: seq<Move>)
    requires Start(s) && forall i :: 0 <= i < |moves| ==> moves[i].t in s.pc
    requires forall t :: t in s.pc ==> Run(s, moves).pc[t].Idle?
    ensures Run(s, moves) == s
  {
    RunSafe(s, moves);
    var u := Run(s, moves);
    assert CountedSet(u.pc) == {} && HolderSet(u.pc) == {};
    assert u.pc == s.pc;
  }

  // ----- what the operations answer ----------------------------------------------------------------------------

  /** What the other threads do between the steps of thread `t`. */
  ghost predicate Around(s: State, t: Thread, turns: seq<seq<Move>>) {
    && t in s.pc
    && forall k, i :: 0 <= k < |turns| && 0 <= i < |turns[k]| ==> turns[k][i].t in s.pc && turns[k][i].t != t
  }

  /** After `k` steps of thread `t`, each followed by the turn of the others: the state its next step finds. */
  ghost function Seen(s: State, t: Thread, call: Call, turns: seq<seq<Move>>, k: nat): State
    requires Around(s, t, turns) && k <= |turns|
    ensures Seen(s, t, call, turns, k).pc.Keys == s.pc.Keys
  {
    if k == 0 then s else Run(Seen(s, t, call, turns, k - 1), [Move(t, call)] + turns[k - 1])
  }

  lemma {:induction false} RunFirst(s: State, m: Move, moves: seq<Move>)
    requires m.t in s.pc && forall i :: 0 <= i < |moves| ==> moves[i].t in s.pc
    ensures Run(s, [m] + moves) == Run(Step(s, m.t, m.call), moves)
  {
    var all := [m] + moves;
    if moves == [] {
      assert all[..|all| - 1] == [];
    } else {
      var n := |moves| - 1;
      RunFirst(s, m, moves[..n]);
      assert all[..|all| - 1] == [m] + moves[..n];
    }
  }

  /** Nobody else moves a thread. */
  lemma {:induction false} OthersRun(s: State, t: Thread, moves: seq<Move>)
    requires t in s.pc && forall i :: 0 <= i < |moves| ==> moves[i].t in s.pc && moves[i].t != t
    ensures Run(s, moves).pc[t] == s.pc[t]
  {
    hide Step;
    if moves != [] {
      var m := moves[|moves| - 1];
      OthersRun(s, t, moves[..|moves| - 1]);
      OtherStep(Run(s, moves[..|moves| - 1]), t, m);
    }
  }

  lemma OtherStep(s: State, t: Thread, m: Move)
    requires t in s.pc && m.t in s.pc && m.t != t
    ensures Step(s, m.t, m.call).pc.Keys == s.pc.Keys && Step(s, m.t, m.call).pc[t] == s.pc[t]
  {
  }

  lemma NextPc(s: State, t: Thread, call: Call, turns: seq<seq<Move>>, k: nat)
    requires Around(s, t, turns) && k < |turns|
    ensures var u := Seen(s, t, call, turns, k); Seen(s, t, call, turns, k + 1).pc[t] == Step(u, t, call).pc[t]
  {
    hide Step;
    var u := Seen(s, t, call, turns, k);
    var m := Move(t, call);
    RunFirst(u, m, turns[k]);
    assert Run(u, [m]) == Step(u, t, call) by { RunFirst(u, m, []); }
    OthersRun(Run(u, [m]), t, turns[k]);
  }

  lemma {:induction false} SeenInv(s: State, t: Thread, call: Call, turns: seq<seq<Move>>, k: nat)
    requires Around(s, t, turns) && k <= |turns| && Inv(s)
    ensures Inv(Seen(s, t, call, turns, k))
  {
    hide Inv;
    if k > 0 {
      SeenInv(s, t, call, turns, k - 1);
      RunInv(Seen(s, t, call, turns, k - 1), [Move(t, call)] + turns[k - 1]);
    }
  }

  lemma {:induction false} RunInv(s: State, moves: seq<Move>)
    requires Inv(s) && forall i :: 0 <= i < |moves| ==> moves[i].t in s.pc
    ensures Inv(Run(s, moves))
  {
    hide Inv;
    if moves != [] {
      var m := moves[|moves| - 1];
      RunInv(s, moves[..|moves| - 1]);
      StepKeeps(Run(s, moves[..|moves| - 1]), m.t, m.call);
    }
  }

  /** rwlock_rdtrylock succeeds exactly if its one look at the lock finds it free; else it ends as it began. */
  lemma TryReadAnswers(s: State, t: Thread, turns: seq<seq<Move>>)
    requires Around(s, t, turns) && |turns| == 4 && s.pc[t].Idle?
    ensures Seen(s, t, RdTryLock, turns, 3).pc[t].Reading? <==> Seen(s, t, RdTryLock, turns, 2).lock == 0
    ensures Seen(s, t, RdTryLock, turns, 2).lock != 0 ==> Seen(s, t, RdTryLock, turns, 4).pc[t].Idle?
  {
    hide Seen, Around;
    NextPc(s, t, RdTryLock, turns, 0);
    SeenStart(s, t, RdTryLock, turns);
    NextPc(s, t, RdTryLock, turns, 1);
    NextPc(s, t, RdTryLock, turns, 2);
    NextPc(s, t, RdTryLock, turns, 3);
  }

  lemma SeenStart(s: State, t: Thread, call: Call, turns: seq<seq<Move>>)
    requires Around(s, t, turns)
    ensures Seen(s, t, call, turns, 0) == s
  {
  }

  /** rwlock_wrtrylock succeeds exactly if it finds no reader, then the lock free, then still no reader;
      each other answer leaves the thread idle. */
  lemma TryWriteAnswers(s: State, t: Thread, turns: seq<seq<Move>>)
    requires Around(s, t, turns) && |turns| == 5 && s.pc[t].Idle?
    ensures var first, lock, last := Seen(s, t, WrTryLock, turns, 1).readers, Seen(s, t, WrTryLock, turns, 2).lock,
        Seen(s, t, WrTryLock, turns, 3).readers;
      && (first != 0 ==> Seen(s, t, WrTryLock, turns, 2).pc[t].Idle?)
      && (first == 0 && lock != 0 ==> Seen(s, t, WrTryLock, turns, 3).pc[t].Idle?)
      && (first == 0 && lock == 0 && last == 0 ==> Seen(s, t, WrTryLock, turns, 4).pc[t].Writing?)
      && (first == 0 && lock == 0 && last != 0 ==>
          !Seen(s, t, WrTryLock, turns, 4).pc[t].Writing? && Seen(s, t, WrTryLock, turns, 5).pc[t].Idle?)
  {
    hide Seen, Around;
    TryWriteTakes(s, t, turns);
    NextPc(s, t, WrTryLock, turns, 3);
    NextPc(s, t, WrTryLock, turns, 4);
  }

  lemma TryWriteTakes(s: State, t: Thread, turns: seq<seq<Move>>)
    requires Around(s, t, turns) && |turns| >= 3 && s.pc[t].Idle?
    ensures var first, lock := Seen(s, t, WrTryLock, turns, 1).readers, Seen(s, t, WrTryLock, turns, 2).lock;
      && (first != 0 ==> Seen(s, t, WrTryLock, turns, 2).pc[t].Idle?)
      && (first == 0 ==> Seen(s, t, WrTryLock, turns, 3).pc[t] == if lock == 0 then WtCheck else Idle)
  {
    hide Seen, Around;
    SeenStart(s, t, WrTryLock, turns);
    NextPc(s, t, WrTryLock, turns, 0);
    NextPc(s, t, WrTryLock, turns, 1);
    NextPc(s, t, WrTryLock, turns, 2);
  }

  /** One of the looks at the reader counter from step `k` and before step `n` found it 0. */
  ghost predicate Drained(s: State, t: Thread, call: Call, turns: seq<seq<Move>>, k: nat, n: nat)
    requires Around(s, t, turns) && n <= |turns|
  {
    exists j :: k <= j < n && Seen(s, t, call, turns, j).readers == 0
  }

  lemma DrainStep(s: State, t: Thread, call: Call)
    requires t in s.pc && (s.pc[t] in {WrDrain, UpDrain} || (s.pc[t].Writing? && !call.WrUnlock?))
    ensures Step(s, t, call).pc[t] == if s.readers == 0 || s.pc[t].Writing? then Writing else s.pc[t]
  {
  }

  /** A thread that holds the spin lock and waits for the readers writes once it has found none. */
  lemma {:induction false} Drains(s: State, t: Thread, call: Call, turns: seq<seq<Move>>, k: nat, n: nat)
    requires Around(s, t, turns) && k <= n <= |turns| && !call.WrUnlock?
    requires Seen(s, t, call, turns, k).pc[t] in {WrDrain, UpDrain}
    ensures var p := Seen(s, t, call, turns, n).pc[t];
      (p.Writing? <==> Drained(s, t, call, turns, k, n)) && (!p.Writing? ==> p == Seen(s, t, call, turns, k).pc[t])
  {
    hide Seen, Step;
    if k < n {
      Drains(s, t, call, turns, k, n - 1);
      NextPc(s, t, call, turns, n - 1);
      DrainStep(Seen(s, t, call, turns, n - 1), t, call);
      if Seen(s, t, call, turns, n - 1).readers == 0 {
        assert Drained(s, t, call, turns, k, n);
      } else if Drained(s, t, call, turns, k, n) {
        var j :| k <= j < n && Seen(s, t, call, turns, j).readers == 0;
        assert Drained(s, t, call, turns, k, n - 1);
      }
    }
  }

  /** rwlock_upgrade is refused, and the thread reads on, exactly if it finds the lock taken; else it
      writes as soon as it has found no reader. */
  lemma UpgradeAnswers(s: State, t: Thread, turns: seq<seq<Move>>, n: nat)
    requires Around(s, t, turns) && 3 <= n <= |turns| && s.pc[t].Reading?
    ensures Seen(s, t, Upgrade, turns, 2).pc[t].Reading? <==> Seen(s, t, Upgrade, turns, 1).lock != 0
    ensures Seen(s, t, Upgrade, turns, 1).lock == 0 ==>
      (Seen(s, t, Upgrade, turns, n).pc[t].Writing? <==> Drained(s, t, Upgrade, turns, 3, n))
  {
    hide Seen, Around, Drained;
    SeenStart(s, t, Upgrade, turns);
    NextPc(s, t, Upgrade, turns, 0);
    NextPc(s, t, Upgrade, turns, 1);
    NextPc(s, t, Upgrade, turns, 2);
    if Seen(s, t, Upgrade, turns, 1).lock == 0 { Drains(s, t, Upgrade, turns, 3, n); }
  }

  /** rwlock_wrlock takes the lock when it finds it free at once, or twice in a row later; from then on it
      writes as soon as it has found no reader. */
  lemma WriteLockAnswers(s: State, t: Thread, turns: seq<seq<Move>>, k: nat, n: nat)
    requires Around(s, t, turns) && Inv(s) && s.pc[t].Idle?
    ensures 2 <= n <= |turns| && Seen(s, t, WrLock, turns, 1).lock == 0 ==>
      (Seen(s, t, WrLock, turns, n).pc[t].Writing? <==> Drained(s, t, WrLock, turns, 2, n))
    ensures 1 <= k && k + 2 <= n <= |turns| ==>
      Seen(s, t, WrLock, turns, k).lock == 0 && Seen(s, t, WrLock, turns, k + 1).lock == 0 ==>
      (Seen(s, t, WrLock, turns, n).pc[t].Writing? <==> Drained(s, t, WrLock, turns, k + 2, n))
  {
    hide Seen, Around, Drained, Inv;
    SeenStart(s, t, WrLock, turns);
    if 2 <= n <= |turns| && Seen(s, t, WrLock, turns, 1).lock == 0 {
      NextPc(s, t, WrLock, turns, 0);
      NextPc(s, t, WrLock, turns, 1);
      Drains(s, t, WrLock, turns, 2, n);
    }
    if 1 <= k && k + 2 <= n <= |turns|
       && Seen(s, t, WrLock, turns, k).lock == 0 && Seen(s, t, WrLock, turns, k + 1).lock == 0 {
      FreeTwice(s, t, turns, k);
      Drains(s, t, WrLock, turns, k + 2, n);
    }
  }

  /** Found free twice in a row, the lock is taken. */
  lemma FreeTwice(s: State, t: Thread, turns: seq<seq<Move>>, k: nat)
    requires Around(s, t, turns) && Inv(s) && s.pc[t].Idle? && 1 <= k && k + 2 <= |turns|
    requires Seen(s, t, WrLock, turns, k).lock == 0 && Seen(s, t, WrLock, turns, k + 1).lock == 0
    ensures Seen(s, t, WrLock, turns, k + 2).pc[t].WrDrain?
  {
    hide Seen, Around, Inv;
    WriteLockAt(s, t, turns, k);
    WriteLockFree(s, t, turns, k);
    WriteLockFree(s, t, turns, k + 1);
    NextPc(s, t, WrLock, turns, k);
    NextPc(s, t, WrLock, turns, k + 1);
  }

  /** Where a thread in rwlock_wrlock can be. */
  lemma {:induction false} WriteLockAt(s: State, t: Thread, turns: seq<seq<Move>>, k: nat)
    requires Around(s, t, turns) && 1 <= k <= |turns| && s.pc[t].Idle?
    ensures Seen(s, t, WrLock, turns, k).pc[t] in {WrXchg, WrSpin, WrDrain, Writing}
  {
    hide Around, Seen;
    SeenStart(s, t, WrLock, turns);
    NextPc(s, t, WrLock, turns, k - 1);
    if k > 1 { WriteLockAt(s, t, turns, k - 1); }
  }

  lemma WriteLockFree(s: State, t: Thread, turns: seq<seq<Move>>, k: nat)
    requires Around(s, t, turns) && k <= |turns| && Inv(s) && Seen(s, t, WrLock, turns, k).lock == 0
    ensures !Seen(s, t, WrLock, turns, k).pc[t].Holds()
  {
    hide Seen, Inv;
    SeenInv(s, t, WrLock, turns, k);
    if Seen(s, t, WrLock, turns, k).pc[t].Holds() { HolderSees(Seen(s, t, WrLock, turns, k), t); }
  }

  /** It never writes before it has found the lock free, and after that no reader. */
  lemma {:induction false} WriteLockWaits(s: State, t: Thread, turns: seq<seq<Move>>, n: nat)
    requires Around(s, t, turns) && n <= |turns| && s.pc[t].Idle?
    ensures var p := Seen(s, t, WrLock, turns, n).pc[t];
      && (p.Holds() ==> exists i :: 1 <= i < n && Seen(s, t, WrLock, turns, i).lock == 0)
      && (p.Writing? ==> exists i ::
            1 <= i < n && Seen(s, t, WrLock, turns, i).lock == 0 && Drained(s, t, WrLock, turns, i + 1, n))
  {
    hide Seen, Around;
    if n == 0 {
      SeenStart(s, t, WrLock, turns);
    } else {
      WriteLockWaits(s, t, turns, n - 1);
      NextPc(s, t, WrLock, turns, n - 1);
      if n > 1 { WriteLockAt(s, t, turns, n - 1); } else { SeenStart(s, t, WrLock, turns); }
    }
  }

  /** Where a thread in rwlock_rdlock can be. */
  lemma {:induction false} ReadLockAt(s: State, t: Thread, turns: seq<seq<Move>>, k: nat)
    requires Around(s, t, turns) && 1 <= k <= |turns| && s.pc[t].Idle?
    ensures Seen(s, t, RdLock, turns, k).pc[t] in {RdInc, RdCheck, RdBack, RdSpin, Reading}
  {
    hide Around, Seen;
    SeenStart(s, t, RdLock, turns);
    NextPc(s, t, RdLock, turns, k - 1);
    if k > 1 { ReadLockAt(s, t, turns, k - 1); }
  }

  /** rwlock_rdlock reads once its steps have found the lock free four times in a row, and at once if they
      find it free from the start. */
  lemma ReadLockAnswers(s: State, t: Thread, turns: seq<seq<Move>>, k: nat)
    requires Around(s, t, turns) && 3 <= |turns| && s.pc[t].Idle?
    ensures Seen(s, t, RdLock, turns, 3).pc[t].Reading? <==> Seen(s, t, RdLock, turns, 2).lock == 0
    ensures 1 <= k && k + 4 <= |turns| && (forall j :: k <= j < k + 4 ==> Seen(s, t, RdLock, turns, j).lock == 0) ==>
      Seen(s, t, RdLock, turns, k + 4).pc[t].Reading?
  {
    hide Seen, Around;
    SeenStart(s, t, RdLock, turns);
    NextPc(s, t, RdLock, turns, 0);
    NextPc(s, t, RdLock, turns, 1);
    NextPc(s, t, RdLock, turns, 2);
    if 1 <= k && k + 4 <= |turns| && forall j :: k <= j < k + 4 ==> Seen(s, t, RdLock, turns, j).lock == 0 {
      FourFree(s, t, turns, k);
    }
  }

  lemma FourFree(s: State, t: Thread, turns: seq<seq<Move>>, k: nat)
    requires Around(s, t, turns) && 1 <= k && k + 4 <= |turns| && s.pc[t].Idle?
    requires forall j :: k <= j < k + 4 ==> Seen(s, t, RdLock, turns, j).lock == 0
    ensures Seen(s, t, RdLock, turns, k + 4).pc[t].Reading?
  {
    hide Seen, ToGo;
    ReadLockAt(s, t, turns, k);
    ToGoMost(Seen(s, t, RdLock, turns, k).pc[t]);
    NextFree(s, t, turns, k);
    NextFree(s, t, turns, k + 1);
    NextFree(s, t, turns, k + 2);
    NextFree(s, t, turns, k + 3);
    ToGoMost(Seen(s, t, RdLock, turns, k + 4).pc[t]);
  }

  /** How many steps that find the lock free rwlock_rdlock still needs. */
  function ToGo(p: Pc): nat {
    match p
    case Reading => 0
    case RdCheck => 1
    case RdInc => 2
    case RdSpin => 3
    case _ => 4
  }

  lemma ToGoMost(p: Pc)
    ensures ToGo(p) <= 4 && (ToGo(p) == 0 <==> p.Reading?)
  {
  }

  lemma NextFree(s: State, t: Thread, turns: seq<seq<Move>>, k: nat)
    requires Around(s, t, turns) && 1 <= k < |turns| && s.pc[t].Idle? && Seen(s, t, RdLock, turns, k).lock == 0
    ensures var p := Seen(s, t, RdLock, turns, k).pc[t];
      ToGo(Seen(s, t, RdLock, turns, k + 1).pc[t]) == if p.Reading? then 0 else ToGo(p) - 1
  {
    hide Seen, Around;
    ReadLockAt(s, t, turns, k);
    NextPc(s, t, RdLock, turns, k);
  }

  /** While it finds the lock taken it does not read, and once it has backed off it stays off the reader
      counter, so that the writer it waits for can go on. */
  lemma {:induction false} ReadLockWaits(s: State, t: Thread, turns: seq<seq<Move>>, n: nat)
    requires Around(s, t, turns) && n <= |turns| && s.pc[t].Idle?
    requires forall j :: 2 <= j < n ==> Seen(s, t, RdLock, turns, j).lock != 0
    ensures !Seen(s, t, RdLock, turns, n).pc[t].Reading?
    ensures n >= 4 ==> !Seen(s, t, RdLock, turns, n).pc[t].Counted()
  {
    hide Seen, Around;
    SeenStart(s, t, RdLock, turns);
    if n > 0 { NextPc(s, t, RdLock, turns, 0); }
    if n > 1 { NextPc(s, t, RdLock, turns, 1); }
    if n > 2 { NextPc(s, t, RdLock, turns, 2); }
    if n > 3 { BacksOff(s, t, turns, n); }
  }

  lemma {:induction false} BacksOff(s: State, t: Thread, turns: seq<seq<Move>>, n: nat)
    requires Around(s, t, turns) && 4 <= n <= |turns| && Seen(s, t, RdLock, turns, 3).pc[t].RdBack?
    requires forall j :: 2 <= j < n ==> Seen(s, t, RdLock, turns, j).lock != 0
    ensures Seen(s, t, RdLock, turns, n).pc[t].RdSpin?
  {
    hide Seen, Around;
    if n > 4 { BacksOff(s, t, turns, n - 1); }
    NextPc(s, t, RdLock, turns, n - 1);
  }

  /** `n` steps of one thread. */
  function Alone(t: Thread, call: Call, n: nat): seq<Move> { seq(n, _ => Move(t, call)) }

  /** A thread that nobody disturbs gets a free lock: each call grants what it is for, and the words say so. */
  lemma AloneGranted(s: State, t: Thread)
    requires t in s.pc && s.lock == 0
    ensures s.pc[t].Idle? ==>
      && Run(s, Alone(t, RdLock, 3)) == State(0, s.readers + 1, s.pc[t := Reading])
      && Run(s, Alone(t, RdTryLock, 3)) == State(0, s.readers + 1, s.pc[t := Reading])
    ensures s.pc[t].Idle? && s.readers == 0 ==>
      && Run(s, Alone(t, WrLock, 3)) == State(1, 0, s.pc[t := Writing])
      && Run(s, Alone(t, WrTryLock, 4)) == State(1, 0, s.pc[t := Writing])
    ensures s.pc[t].Reading? && s.readers == 1 ==>
      Run(s, Alone(t, Upgrade, 4)) == State(1, 0, s.pc[t := Writing])
  {
    hide Run, Step;
    if s.pc[t].Idle? {
      AloneReads(s, t, RdLock);
      AloneReads(s, t, RdTryLock);
    }
    if s.pc[t].Idle? && s.readers == 0 { AloneWrites(s, t); }
    if s.pc[t].Reading? && s.readers == 1 { AloneUpgrades(s, t); }
  }

  lemma AloneReads(s: State, t: Thread, call: Call)
    requires t in s.pc && s.lock == 0 && s.pc[t].Idle? && (call.RdLock? || call.RdTryLock?)
    ensures Run(s, Alone(t, call, 3)) == State(0, s.readers + 1, s.pc[t := Reading])
  {
    hide Run;
    AloneThree(s, t, call);
  }

  lemma AloneWrites(s: State, t: Thread)
    requires t in s.pc && s.lock == 0 && s.readers == 0 && s.pc[t].Idle?
    ensures Run(s, Alone(t, WrLock, 3)) == State(1, 0, s.pc[t := Writing])
    ensures Run(s, Alone(t, WrTryLock, 4)) == State(1, 0, s.pc[t := Writing])
  {
    hide Run;
    AloneThree(s, t, WrLock);
    AloneThree(s, t, WrTryLock);
    AloneStep(s, t, WrTryLock, 3);
  }

  lemma AloneUpgrades(s: State, t: Thread)
    requires t in s.pc && s.lock == 0 && s.readers == 1 && s.pc[t].Reading?
    ensures Run(s, Alone(t, Upgrade, 4)) == State(1, 0, s.pc[t := Writing])
  {
    hide Run;
    AloneThree(s, t, Upgrade);
    AloneStep(s, t, Upgrade, 3);
  }

  lemma AloneStep(s: State, t: Thread, call: Call, n: nat)
    requires t in s.pc
    ensures Run(s, Alone(t, call, n + 1)) == Step(Run(s, Alone(t, call, n)), t, call)
  {
    hide Step;
    assert Alone(t, call, n + 1)[..n] == Alone(t, call, n);
  }

  lemma AloneThree(s: State, t: Thread, call: Call)
    requires t in s.pc
    ensures Run(s, Alone(t, call, 3)) == Step(Step(Step(s, t, call), t, call), t, call)
  {
    hide Step;
    AloneStep(s, t, call, 0);
    AloneStep(s, t, call, 1);
    AloneStep(s, t, call, 2);
  }

  /** The unlocks end at once: one reader less, or the lock free. */
  lemma UnlockAnswers(s: State, t: Thread)
    requires t in s.pc
    ensures s.pc[t].Reading? ==>
      var u := Run(s, [Move(t, RdUnlock)]); u.pc[t].Idle? && u.readers == s.readers - 1 && u.lock == s.lock
    ensures s.pc[t].Writing? ==>
      var u := Run(s, [Move(t, WrUnlock)]); u.pc[t].Idle? && u.lock == 0 && u.readers == s.readers
  {
    RunFirst(s, Move(t, RdUnlock), []);
    RunFirst(s, Move(t, WrUnlock), []);
    assert [Move(t, RdUnlock)] + [] == [Move(t, RdUnlock)] && [Move(t, WrUnlock)] + [] == [Move(t, WrUnlock)];
  }
}
