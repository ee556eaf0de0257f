/**
Waiting for the workers of the stop manager.

A waiter puts itself on the parked list and then checks the count; the release that takes the count
to zero decrements first and then drains the list.  That order makes sure no waiter misses its
wake-up, as long as no worker is counted while a wake-up is under way.
*/
module StopWakeup {
  import opened Wrappers
  import opened StopProtocol

  predicate IsWaiter(pc: Pc) {
    pc.Checking? || pc.Parking?
  }

  ghost predicate HasWaker(s: State) {
    s.parkLock.Some? || exists u :: s.Pc(u).Waking?
  }

  /** What a waiter, or a thread about to wake the waiters, can rely on. */
  ghost predicate WakeInvOf(s: State, t: Tid) {
    var pc := s.Pc(t);
    && (IsWaiter(pc) ==> t in s.parked || (s.workerNum == 0 && (pc.Checking? || t in s.tokens)))
    && (pc.Waking? ==> s.workerNum == 0)
    && (IsWaiter(pc) && s.parkLock.Some? ==> s.workerNum == 0)
    && (pc.Parking? && s.workerNum == 0 && t !in s.tokens ==> HasWaker(s))
  }

  ghost predicate WakeInv(s: State) {
    forall t :: WakeInvOf(s, t)
  }

  /** Counting a worker is harmless when every waiter is still on the parked list, and nobody is
      about to drain it. */
  ghost predicate SafeToCount(s: State) {
    && (forall t :: !s.Pc(t).Waking?)
    && (forall t :: IsWaiter(s.Pc(t)) ==> t in s.parked && s.parkLock == None)
  }

  /** A step that is not about parking leaves no waiter, and a waker only at a count of zero. */
  lemma OtherwiseNoWaiter(s: State, t: Tid, a: Action)
    requires Enabled(s, t, a) && !IsParkAction(a)
    ensures !IsWaiter(Next(s, t, a).Pc(t))
    ensures Next(s, t, a).Pc(t).Waking? ==> Next(s, t, a).workerNum == 0
  {
  }

  lemma SelfWakeStep(s: State, t: Tid, a: Action)
    requires Enabled(s, t, a) && !IsParkAction(a)
    ensures WakeInvOf(Next(s, t, a), t)
  {
    OtherwiseNoWaiter(s, t, a);
  }

  lemma SelfParkWakeStep(s: State, t: Tid, a: Action)
    requires ThreadInv(s, t) && WakeInvOf(s, t) && Enabled(s, t, a) && IsParkAction(a)
    ensures WakeInvOf(Next(s, t, a), t)
  {
    if a.Load? || a.Park? || a.SpuriousWake? {
      SelfWaitWakeStep(s, t, a);
    }
  }

  lemma SelfWaitWakeStep(s: State, t: Tid, a: Action)
    requires ThreadInv(s, t) && WakeInvOf(s, t) && Enabled(s, t, a) && (a.Load? || a.Park? || a.SpuriousWake?)
    ensures WakeInvOf(Next(s, t, a), t)
  {
  }

  /** A wake-up under way stays under way until the parked list is drained. */
  lemma WakerStep(s: State, t: Tid, a: Action)
    requires Inv(s) && Enabled(s, t, a) && HasWaker(s)
    ensures HasWaker(Next(s, t, a)) || (a.UnlockParked? && s.parked == [])
  {
    var s' := Next(s, t, a);
    assert ThreadInv(s, t);
    if s.parkLock == None {
      var u :| s.Pc(u).Waking?;
      assert u != t || a.LockParked?;
      assert u != t ==> s'.Pc(u).Waking?;
    }
  }

  /** The step that takes the count to zero starts a wake-up, and every waiter is on the list. */
  lemma ZeroStep(s: State, t: Tid, a: Action)
    requires Inv(s) && Enabled(s, t, a)
    requires s.workerNum != 0 && Next(s, t, a).workerNum == 0
    ensures Next(s, t, a).Pc(t).Waking?
    ensures Next(s, t, a).parked == s.parked
  {
  }

  lemma OtherWakeStep(s: State, t: Tid, a: Action, u: Tid)
    requires Inv(s) && WakeInv(s) && Enabled(s, t, a) && (a.Count? ==> SafeToCount(s)) && u != t
    ensures WakeInvOf(Next(s, t, a), u)
  {
    var s' := Next(s, t, a);
    assert ThreadInv(s, t) && WakeInvOf(s, t) && WakeInvOf(s, u);
    assert s'.Pc(u) == s.Pc(u);
    if s.workerNum != 0 && s'.workerNum == 0 {
      ZeroStep(s, t, a);
    } else if HasWaker(s) {
      WakerStep(s, t, a);
    }
    if a.Unpark? {
      assert s.parked == [s.parked[0]] + s.parked[1..];
    }
  }

  lemma WakeStep(s: State, t: Tid, a: Action)
    requires Inv(s) && WakeInv(s) && Enabled(s, t, a) && (a.Count? ==> SafeToCount(s))
    ensures Inv(Next(s, t, a)) && WakeInv(Next(s, t, a))
  {
    InvStep(s, t, a);
    assert ThreadInv(s, t) && WakeInvOf(s, t);
    if IsParkAction(a) {
      SelfParkWakeStep(s, t, a);
    } else {
      SelfWakeStep(s, t, a);
    }
    forall u | u != t ensures WakeInvOf(Next(s, t, a), u) {
      OtherWakeStep(s, t, a, u);
    }
  }

  // ----- runs in which every worker is counted at a safe moment

  ghost predicate CountsSafely(s: State, run: Run)
    requires IsRun(s, run)
    decreases |run|
  {
    run == [] || ((run[0].1.Count? ==> SafeToCount(s)) && CountsSafely(Next(s, run[0].0, run[0].1), run[1..]))
  }

  /** A waiter that nobody will ever wake: parked, without a token, and off the list. */
  ghost predicate IsStranded(s: State, w: Tid) {
    s.Pc(w).Parking? && w !in s.tokens && w !in s.parked
  }

  lemma {:induction false} SafeRunStrandsNobody(s: State, run: Run)
    requires Inv(s) && WakeInv(s) && IsRun(s, run) && CountsSafely(s, run)
    ensures Inv(After(s, run)) && WakeInv(After(s, run))
    ensures forall w :: !IsStranded(After(s, run), w)
    decreases |run|
  {
    if run == [] {
      forall w ensures !IsStranded(s, w) {
        assert WakeInvOf(s, w);
      }
    } else {
      WakeStep(s, run[0].0, run[0].1);
      SafeRunStrandsNobody(Next(s, run[0].0, run[0].1), run[1..]);
    }
  }

  /** Only the waiter itself, by a spurious wake-up, can get out of being stranded. */
  lemma StrandedForGood(s: State, w: Tid, t: Tid, a: Action)
    requires IsStranded(s, w) && Enabled(s, t, a)
    ensures IsStranded(Next(s, t, a), w) || (t == w && a.SpuriousWake?)
  {
    var s' := Next(s, t, a);
    if t != w {
      assert s'.Pc(w) == s.Pc(w);
    }
  }

  // ----- runs in which nothing registers after the count first reached zero

  ghost predicate RegistersInTime(s: State, run: Run)
    requires IsRun(s, run)
    decreases |run|
  {
    run == [] || ((run[0].1.Count? ==> !s.hitZero) && RegistersInTime(Next(s, run[0].0, run[0].1), run[1..]))
  }

  /** Before the count first reaches zero every waiter is on the list; afterwards it stays zero. */
  ghost predicate InTimeInv(s: State) {
    && (s.hitZero ==> s.workerNum == 0)
    && (!s.hitZero ==> forall t :: IsWaiter(s.Pc(t)) ==> t in s.parked)
  }

  lemma NobodyUnparks(s: State)
    requires Inv(s) && s.parkLock.Some?
    ensures s.hitZero
  {
    assert ThreadInv(s, s.parkLock.value);
  }

  lemma InTimeIsSafe(s: State)
    requires Inv(s) && InTimeInv(s) && !s.hitZero
    ensures SafeToCount(s)
  {
    forall t ensures !s.Pc(t).Waking? {
      assert ThreadInv(s, t);
    }
    if s.parkLock != None {
      NobodyUnparks(s);
    }
  }

  lemma ParkedGrowsByWaiters(s: State, t: Tid, a: Action)
    requires ThreadInv(s, t) && Enabled(s, t, a) && IsParkAction(a) && !s.hitZero
    ensures Next(s, t, a).parked == if a.BeginWait? || a.BeginTimedWait? then s.parked + [t] else s.parked
  {
  }

  lemma WaitersBeganToWait(s: State, t: Tid, a: Action)
    requires Enabled(s, t, a) && IsParkAction(a) && IsWaiter(Next(s, t, a).Pc(t)) && !IsWaiter(s.Pc(t))
    ensures a.BeginWait?
  {
  }

  lemma ParkedFrame(s: State, t: Tid, a: Action)
    requires Enabled(s, t, a) && !IsParkAction(a)
    ensures Next(s, t, a).parked == s.parked
  {
  }

  /** Until the count first reaches zero nobody is taken off the parked list. */
  lemma ParkedGrows(s: State, t: Tid, a: Action)
    requires ThreadInv(s, t) && Enabled(s, t, a) && !s.hitZero
    ensures forall u :: u in s.parked ==> u in Next(s, t, a).parked
    ensures IsWaiter(Next(s, t, a).Pc(t)) && !IsWaiter(s.Pc(t)) ==> t in Next(s, t, a).parked
  {
    if !IsParkAction(a) {
      ParkedFrame(s, t, a);
      OtherwiseNoWaiter(s, t, a);
    } else {
      ParkedGrowsByWaiters(s, t, a);
      if IsWaiter(Next(s, t, a).Pc(t)) && !IsWaiter(s.Pc(t)) {
        WaitersBeganToWait(s, t, a);
      }
    }
  }

  lemma InTimeStep(s: State, t: Tid, a: Action)
    requires Inv(s) && InTimeInv(s) && Enabled(s, t, a) && (a.Count? ==> !s.hitZero)
    ensures InTimeInv(Next(s, t, a))
  {
    var s' := Next(s, t, a);
    assert ThreadInv(s, t);
    if !s'.hitZero {
      ParkedGrows(s, t, a);
      forall u | IsWaiter(s'.Pc(u)) ensures u in s'.parked {
        if u != t {
          OtherPc(s, t, a, u);
        }
      }
    }
  }

  lemma {:induction false} InTimeRun(s: State, run: Run)
    requires Inv(s) && WakeInv(s) && InTimeInv(s) && IsRun(s, run) && RegistersInTime(s, run)
    ensures Inv(After(s, run)) && WakeInv(After(s, run)) && InTimeInv(After(s, run))
    decreases |run|
  {
    if run != [] {
      var t, a := run[0].0, run[0].1;
      if a.Count? {
        InTimeIsSafe(s);
      }
      WakeStep(s, t, a);
      InTimeStep(s, t, a);
      InTimeRun(Next(s, t, a), run[1..]);
    }
  }

  /** Once the count has hit zero: a waiter that has been unparked, or not parked yet. */
  ghost predicate MayLeave(s: State, w: Tid) {
    s.hitZero && s.workerNum == 0 && IsWaiter(s.Pc(w)) && (s.Pc(w).Parking? ==> w in s.tokens)
  }

  /** The steps such a waiter is away from the end of `wait`. */
  function StepsLeft(s: State, w: Tid): nat {
    if s.Pc(w).Parking? then 2 else 1
  }

  lemma OwnStepLeaves(s: State, w: Tid, a: Action)
    requires MayLeave(s, w) && Enabled(s, w, a)
    ensures var s' := Next(s, w, a); s'.Pc(w).Idle? || (MayLeave(s', w) && StepsLeft(s', w) < StepsLeft(s, w))
  {
  }

  /** No other thread can take the wake-up away. */
  lemma WakeupIsNotLost(s: State, w: Tid, t: Tid, a: Action)
    requires MayLeave(s, w) && Inv(s) && InTimeInv(s) && Enabled(s, t, a) && !a.Count? && t != w
    ensures MayLeave(Next(s, t, a), w) && Next(s, t, a).Pc(w) == s.Pc(w)
  {
    InTimeStep(s, t, a);
    var s' := Next(s, t, a);
    assert ThreadInv(s, t);
    assert s'.Pc(w) == s.Pc(w);
  }

  /** The thread is back from `wait` at some point of the run. */
  ghost predicate Leaves(s: State, run: Run, w: Tid)
    requires IsRun(s, run)
    decreases |run|
  {
    s.Pc(w).Idle? || (run != [] && Leaves(Next(s, run[0].0, run[0].1), run[1..], w))
  }

  function OwnSteps(run: Run, w: Tid): nat {
    if run == [] then 0 else (if run[0].0 == w then 1 else 0) + OwnSteps(run[1..], w)
  }

  lemma {:induction false} LeavesInTime(s: State, run: Run, w: Tid)
    requires Inv(s) && WakeInv(s) && InTimeInv(s) && MayLeave(s, w)
    requires IsRun(s, run) && RegistersInTime(s, run)
    ensures Leaves(s, run, w) || (CanMove(After(s, run), w) && OwnSteps(run, w) < StepsLeft(s, w))
    decreases |run|
  {
    if run != [] {
      var t, a := run[0].0, run[0].1;
      var s' := Next(s, t, a);
      WakeStep(s, t, a);
      InTimeStep(s, t, a);
      if t == w {
        OwnStepLeaves(s, w, a);
      } else {
        WakeupIsNotLost(s, w, t, a);
      }
      if MayLeave(s', w) {
        LeavesInTime(s', run[1..], w);
      }
    }
  }

  /** No lost wake-up: once the count has hit zero and the parked list has been drained, every thread
      still in `wait` returns by its own next two steps, and can always take them, whatever the other
      threads do before and between them. */
  lemma NoLostWakeup(start: State, run: Run, more: Run, w: Tid)
    requires IsInitial(start) && IsRun(start, run) && RegistersInTime(start, run)
    requires IsRun(After(start, run), more) && RegistersInTime(After(start, run), more)
    requires After(start, run).hitZero && !HasWaker(After(start, run)) && IsWaiter(After(start, run).Pc(w))
    ensures var s := After(start, run);
            Leaves(s, more, w) || (CanMove(After(s, more), w) && OwnSteps(more, w) < 2)
  {
    InitInv(start);
    InTimeRun(start, run);
    assert WakeInvOf(After(start, run), w);
    LeavesInTime(After(start, run), more, w);
  }

  // ----- the condition is exact

  /** No step of the run counts another worker. */
  predicate CountsNobody(run: Run) {
    forall i :: 0 <= i < |run| ==> !run[i].1.Count?
  }

  lemma OneStep(s: State, t: Tid, a: Action) returns (run: Run)
    requires Enabled(s, t, a) && !a.Count?
    ensures IsRun(s, run) && CountsNobody(run) && After(s, run) == Next(s, t, a)
  {
    run := [(t, a)];
    assert run[1..] == [];
    assert IsRun(Next(s, t, a), run[1..]);
  }

  lemma Join(s: State, a: Run, b: Run)
    requires IsRun(s, a) && IsRun(After(s, a), b) && CountsNobody(a) && CountsNobody(b)
    ensures IsRun(s, a + b) && CountsNobody(a + b) && After(s, a + b) == After(After(s, a), b)
  {
    RunConcat(s, a, b);
  }

  /** A thread that holds the parked list can finish waking everybody on it. */
  lemma {:induction false} DrainRun(s: State, u: Tid) returns (run: Run)
    requires s.Pc(u).Unparking?
    ensures IsRun(s, run) && CountsNobody(run)
    ensures After(s, run).parked == [] && After(s, run).parkLock == None
    ensures After(s, run).workerNum == s.workerNum
    ensures forall v :: v != u ==> After(s, run).Pc(v) == s.Pc(v)
    decreases |s.parked|
  {
    if s.parked == [] {
      run := OneStep(s, u, UnlockParked);
    } else {
      var first := OneStep(s, u, Unpark);
      var rest := DrainRun(After(s, first), u);
      Join(s, first, rest);
      run := first + rest;
    }
  }

  /** A waiter that is off the list while workers are counted can end up stranded by its own steps. */
  lemma LoneWaiterRun(s: State, w: Tid) returns (run: Run)
    requires IsWaiter(s.Pc(w)) && w !in s.parked && s.workerNum != 0
    ensures IsRun(s, run) && CountsNobody(run) && IsStranded(After(s, run), w)
    decreases w in s.tokens, s.Pc(w).Checking?
  {
    if s.Pc(w).Parking? && w !in s.tokens {
      run := [];
    } else {
      var first := OneStep(s, w, if s.Pc(w).Parking? then Park else Load);
      var rest := LoneWaiterRun(After(s, first), w);
      Join(s, first, rest);
      run := first + rest;
    }
  }

  lemma {:induction false} Above(keys: set<Tid>) returns (v: Tid)
    ensures forall k :: k in keys ==> k < v
  {
    v := 0;
    if k :| k in keys {
      var w := Above(keys - {k});
      v := if k < w then w else k + 1;
      forall l | l in keys ensures l < v {
        assert l == k || l in keys - {k};
      }
    }
  }

  /** A newcomer that starts to wait before the list is drained, while workers are counted. */
  lemma NewcomerRun(s: State, u: Tid) returns (run: Run, w: Tid)
    requires s.Pc(u).Waking? && s.parkLock == None && s.workerNum != 0
    ensures IsRun(s, run) && CountsNobody(run) && IsStranded(After(s, run), w)
  {
    w := Above(s.pcs.Keys);
    assert w !in s.pcs;
    run := OneStep(s, w, BeginWait);
    var s1 := After(s, run);
    var check := OneStep(s1, w, Load);
    Join(s, run, check);
    run := run + check;
    var s2 := After(s, run);
    var lock := OneStep(s2, u, LockParked);
    Join(s, run, lock);
    run := run + lock;
    var drain := DrainRun(After(s, run), u);
    Join(s, run, drain);
    run := run + drain;
    var lone := LoneWaiterRun(After(s, run), w);
    Join(s, run, lone);
    run := run + lone;
  }

  /** A waiter while somebody drains the list, although workers are counted. */
  lemma DrainedWaiterRun(s: State, u: Tid, w: Tid) returns (run: Run)
    requires s.Pc(u).Unparking? && IsWaiter(s.Pc(w)) && s.workerNum != 0
    ensures IsRun(s, run) && CountsNobody(run) && IsStranded(After(s, run), w)
  {
    run := DrainRun(s, u);
    var lone := LoneWaiterRun(After(s, run), w);
    Join(s, run, lone);
    run := run + lone;
  }

  /** Counting a worker at any other moment can strand a waiter, with no further registration. */
  lemma UnsafeCountStrands(s: State, t: Tid) returns (run: Run, w: Tid)
    requires Inv(s) && Enabled(s, t, Count) && !SafeToCount(s)
    ensures IsRun(Next(s, t, Count), run) && CountsNobody(run)
    ensures IsStranded(After(Next(s, t, Count), run), w)
  {
    var s1 := Next(s, t, Count);
    assert forall v :: v != t ==> s1.Pc(v) == s.Pc(v);
    assert ThreadInv(s, t);
    if v :| IsWaiter(s.Pc(v)) && v !in s.parked {
      w := v;
      run := LoneWaiterRun(s1, w);
    } else if s.parkLock.Some? {
      var u := s.parkLock.value;
      assert ThreadInv(s, u);
      if v :| IsWaiter(s.Pc(v)) {
        w := v;
        run := DrainedWaiterRun(s1, u, w);
      } else {
        var waker :| s.Pc(waker).Waking?;
        run := DrainRun(s1, u);
        var late;
        late, w := NewcomerRun(After(s1, run), waker);
        Join(s1, run, late);
        run := run + late;
      }
    } else {
      var waker :| s.Pc(waker).Waking?;
      run, w := NewcomerRun(s1, waker);
    }
  }

  lemma Extend(s: State, run: Run, t: Tid, a: Action) returns (longer: Run)
    requires IsRun(s, run) && Enabled(After(s, run), t, a)
    ensures IsRun(s, longer) && After(s, longer) == Next(After(s, run), t, a)
  {
    assert [(t, a)][1..] == [];
    assert IsRun(Next(After(s, run), t, a), [(t, a)][1..]);
    RunConcat(s, run, [(t, a)]);
    longer := run + [(t, a)];
  }

  /** The failing case is reachable: a worker that is counted after the count hit zero, but before
      the parked list is drained, can leave a waiter parked for good. */
  lemma LateRegistrationStrands(start: State) returns (run: Run, w: Tid)
    requires IsInitial(start)
    ensures IsRun(start, run) && IsStranded(After(start, run), w)
  {
    run := Extend(start, [], 1, Push("a"));
    run := Extend(start, run, 1, Count);
    run := Extend(start, run, 1, BeginRelease(Reg("a", 0)));
    run := Extend(start, run, 1, RunOwn);
    run := Extend(start, run, 1, Decrement);
    run := Extend(start, run, 2, Push("b"));
    var late := After(start, run);
    assert late.Pc(1).Waking? && late.Pc(2).Counting?;
    InitInv(start);
    RunKeepsInvariant(start, run);
    var tail;
    tail, w := UnsafeCountStrands(late, 2);
    run := Extend(start, run, 2, Count);
    RunConcat(start, run, tail);
    run := run + tail;
  }

  // ----- what a thread may have to wait for

  /** The next step of a thread's program. */
  function ProgramStep(s: State, t: Tid): Action
    requires !s.Pc(t).Idle?
  {
    match s.Pc(t)
    case Counting(_) => Count
    case Stopping(_) => LockListeners
    case Draining(_) => if s.pending != [] then RunListener else UnlockListeners
    case Releasing(_) => RunOwn
    case Decrementing(_) => Decrement
    case Waking => LockParked
    case Unparking => if s.parked != [] then Unpark else UnlockParked
    case Calling => Call
    case Checking => Load
    case Parking => Park
    case TimedChecking => TimedLoad
    case TimedParking => TimedReturn
  }

  ghost predicate CanMove(s: State, t: Tid) {
    !s.Pc(t).Idle? && Enabled(s, t, ProgramStep(s, t))
  }

  /** No deadlock: in every run each busy thread can move, is parked, or waits for a lock whose
      holder can move. */
  lemma NoDeadlock(start: State, run: Run, s: State, t: Tid)
    requires IsInitial(start) && IsRun(start, run) && s == After(start, run)
    requires !s.Pc(t).Idle? && !s.Pc(t).Parking?
    ensures CanMove(s, t) || (exists u :: (s.listenersLock == Some(u) || s.parkLock == Some(u)) && CanMove(s, u))
  {
    InitInv(start);
    RunKeepsInvariant(start, run);
    if s.listenersLock.Some? {
      HolderMoves(s, s.listenersLock.value);
    }
    if s.parkLock.Some? {
      HolderMoves(s, s.parkLock.value);
    }
    if s.listenersLock == None && s.parkLock == None {
      BusyMoves(s, t);
    }
  }

  lemma HolderMoves(s: State, u: Tid)
    requires Inv(s) && (s.listenersLock == Some(u) || s.parkLock == Some(u))
    ensures CanMove(s, u)
  {
    assert ThreadInv(s, u);
  }

  lemma BusyMoves(s: State, t: Tid)
    requires !s.Pc(t).Idle? && !s.Pc(t).Parking?
    requires s.listenersLock == None && s.parkLock == None
    ensures CanMove(s, t)
  {
  }
}
