/**
The stop callback.  The thread that takes the count to zero owes it, and makes it by its own steps:
with `StopProtocol.EveryRunConserves`, which allows one call at most, it is made exactly once.
*/
module StopCallback {
  import opened Wrappers
  import opened StopProtocol
  import opened StopWakeup

  /** Once the count has hit zero the callback was made, or somebody is on the way to it. */
  ghost predicate Owed(s: State) {
    s.hitZero ==> s.calls == 1 || exists t :: IsFinisher(s.Pc(t))
  }

  /** How many phases a finisher is away from the call. */
  function Phase(pc: Pc): nat
    requires IsFinisher(pc)
  {
    match pc
    case Waking => 5
    case Unparking => 4
    case Stopping(_) => 3
    case Draining(_) => 2
    case _ => 1
  }

  /** What is left to do in the phase; nobody else can add to it while the lock of the phase is held. */
  function Left(s: State, t: Tid): nat {
    match s.Pc(t)
    case Unparking => |s.parked|
    case Draining(_) => |s.pending|
    case _ => 0
  }

  /** The finisher `t` is closer to the call in `s'` than in `s`. */
  predicate Closer(s: State, s': State, t: Tid)
    requires IsFinisher(s.Pc(t)) && IsFinisher(s'.Pc(t))
  {
    var before, after := Phase(s.Pc(t)), Phase(s'.Pc(t));
    after < before || (after == before && Left(s', t) < Left(s, t))
  }

  predicate AsClose(s: State, s': State, t: Tid) {
    s'.Pc(t) == s.Pc(t) && Left(s', t) == Left(s, t)
  }

  /** Each of its own steps brings a finisher closer to the call, or is the call, */
  lemma OwnStepIsCloser(s: State, t: Tid, a: Action)
    requires ClosingInv(s) && Enabled(s, t, a) && IsFinisher(s.Pc(t))
    ensures var s' := Next(s, t, a); s'.calls == 1 || (IsFinisher(s'.Pc(t)) && Closer(s, s', t))
  {
  }

  /** and the steps of others change nothing about it. */
  lemma OthersLeaveFinisher(s: State, u: Tid, a: Action, t: Tid)
    requires ThreadInv(s, u) && ThreadInv(s, t) && Enabled(s, u, a) && u != t && IsFinisher(s.Pc(t))
    ensures AsClose(s, Next(s, u, a), t)
  {
    OtherPc(s, u, a, t);
    if s.Pc(t).Unparking? {
      ParkedIsLocked(s, u, a);
    } else if s.Pc(t).Draining? {
      ListenersAreLocked(s, u, a);
    }
  }

  lemma ParkedIsLocked(s: State, u: Tid, a: Action)
    requires ThreadInv(s, u) && Enabled(s, u, a) && s.parkLock.Some? && s.parkLock != Some(u)
    ensures Next(s, u, a).parked == s.parked
  {
    if !IsParkAction(a) {
      ParkedFrame(s, u, a);
    } else {
      assert !a.BeginWait? && !a.BeginTimedWait? && !a.Unpark?;
    }
  }

  lemma ListenersAreLocked(s: State, u: Tid, a: Action)
    requires ThreadInv(s, u) && Enabled(s, u, a) && s.listenersLock.Some? && s.listenersLock != Some(u)
    ensures Next(s, u, a).pending == s.pending
  {
  }

  lemma CallsStay(s: State, t: Tid, a: Action)
    requires ClosingInv(s) && Enabled(s, t, a) && s.calls == 1
    ensures Next(s, t, a).calls == 1
  {
  }

  lemma OwedStep(s: State, t: Tid, a: Action)
    requires Inv(s) && Owed(s) && Enabled(s, t, a)
    ensures Owed(Next(s, t, a))
  {
    var s' := Next(s, t, a);
    if s.calls == 1 {
      CallsStay(s, t, a);
    } else if !s.hitZero {
      if s'.hitZero {
        FirstZero(s, t, a);
      }
    } else {
      var u :| IsFinisher(s.Pc(u));
      if u == t {
        OwnStepIsCloser(s, t, a);
      } else {
        OtherPc(s, t, a, u);
        assert IsFinisher(s'.Pc(u));
      }
    }
  }

  /** The step that first takes the count to zero makes a finisher. */
  lemma FirstZero(s: State, t: Tid, a: Action)
    requires Enabled(s, t, a) && !s.hitZero && Next(s, t, a).hitZero
    ensures IsFinisher(Next(s, t, a).Pc(t))
  {
  }

  lemma {:induction false} OwedRun(s: State, run: Run)
    requires Inv(s) && Owed(s) && IsRun(s, run)
    ensures Owed(After(s, run))
    decreases |run|
  {
    if run != [] {
      InvStep(s, run[0].0, run[0].1);
      OwedStep(s, run[0].0, run[0].1);
      OwedRun(Next(s, run[0].0, run[0].1), run[1..]);
    }
  }

  /** In every run, once the count has hit zero the callback has been made exactly once, or there is a
      thread on the way to it that can move or waits for a lock whose holder can move. */
  lemma CallbackIsOwed(start: State, run: Run, s: State)
    requires IsInitial(start) && IsRun(start, run) && s == After(start, run) && s.hitZero
    ensures s.calls == 1
         || exists t :: && IsFinisher(s.Pc(t))
                        && (|| CanMove(s, t)
                            || exists u :: (s.listenersLock == Some(u) || s.parkLock == Some(u)) && CanMove(s, u))
  {
    InitInv(start);
    OwedRun(start, run);
    if s.calls != 1 {
      var t :| IsFinisher(s.Pc(t));
      NoDeadlock(start, run, s, t);
    }
  }

  // ----- the way to zero

  /** A worker that is being given up is in the hands of the thread that does it. */
  ghost predicate InHands(s: State) {
    forall r :: r in s.releasing ==> Held(s.Pc(s.releasing[r])) == Some(r)
  }

  /** No step loses a worker that its thread holds: it keeps it, or takes it off the count. */
  lemma HolderStep(s: State, t: Tid, a: Action)
    requires Enabled(s, t, a) && Held(s.Pc(t)).Some?
    ensures var s' := Next(s, t, a);
            if a.Decrement? then s'.releasing == s.releasing - {Held(s.Pc(t)).value} && s'.workerNum == s.workerNum - 1
            else s'.releasing == s.releasing && Held(s'.Pc(t)) == Held(s.Pc(t)) && s'.workerNum == s.workerNum
  {
  }

  lemma NonHolderStep(s: State, t: Tid, a: Action)
    requires Enabled(s, t, a) && Held(s.Pc(t)).None?
    ensures var s' := Next(s, t, a);
            if a.BeginStopAll? || a.BeginRelease?
            then s'.releasing == s.releasing[a.reg := t] && Held(s'.Pc(t)) == Some(a.reg)
            else s'.releasing == s.releasing
  {
  }

  lemma InHandsStep(s: State, t: Tid, a: Action)
    requires InHands(s) && Enabled(s, t, a)
    ensures InHands(Next(s, t, a))
  {
    var s' := Next(s, t, a);
    if Held(s.Pc(t)).Some? {
      HolderStep(s, t, a);
    } else {
      NonHolderStep(s, t, a);
    }
    forall r | r in s'.releasing ensures Held(s'.Pc(s'.releasing[r])) == Some(r) {
      if s'.releasing[r] != t {
        OtherPc(s, t, a, s'.releasing[r]);
      }
    }
  }

  /** In every run each counted worker can still be given up, or is on its way off the count in the hands of
      a thread: none is forgotten. */
  lemma {:induction false} NoWorkerForgotten(s: State, run: Run)
    requires InHands(s) && IsRun(s, run)
    ensures InHands(After(s, run))
    decreases |run|
  {
    if run != [] {
      InHandsStep(s, run[0].0, run[0].1);
      NoWorkerForgotten(Next(s, run[0].0, run[0].1), run[1..]);
    }
  }

  /** In every run such a thread has made the call, or is still on the way: as far as before if it has
      taken no step, and closer otherwise.  As `Closer` is well-founded, it makes the call after finitely
      many steps of its own, whatever the others do. */
  lemma {:induction false} FinisherCalls(s: State, run: Run, t: Tid)
    requires Inv(s) && IsRun(s, run) && IsFinisher(s.Pc(t))
    ensures var e := After(s, run);
      || e.calls == 1
      || (IsFinisher(e.Pc(t)) && if OwnSteps(run, t) == 0 then AsClose(s, e, t) else Closer(s, e, t))
    decreases |run|
  {
    if run != [] {
      var u, a := run[0].0, run[0].1;
      var s' := Next(s, u, a);
      assert ThreadInv(s, u) && ThreadInv(s, t);
      InvStep(s, u, a);
      if u == t {
        OwnStepIsCloser(s, t, a);
      } else {
        OthersLeaveFinisher(s, u, a, t);
      }
      if s'.calls == 1 {
        CalledForGood(s', run[1..]);
      } else {
        FinisherCalls(s', run[1..], t);
      }
    }
  }

  lemma {:induction false} CalledForGood(s: State, run: Run)
    requires Inv(s) && IsRun(s, run) && s.calls == 1
    ensures After(s, run).calls == 1
    decreases |run|
  {
    if run != [] {
      InvStep(s, run[0].0, run[0].1);
      CallsStay(s, run[0].0, run[0].1);
      CalledForGood(Next(s, run[0].0, run[0].1), run[1..]);
    }
  }
}
