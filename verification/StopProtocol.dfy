/**
The stop manager as a protocol between threads.

Every atomic action of `add_listener`, `stop`, `wait`, `wait_timeout` and the release of a worker is
one step: a lock is taken, an element is handled while it is held, the lock is freed, the worker
count is changed or loaded, a thread is unparked, a thread parks.  A run is any interleaving of such
steps by any number of threads.  The flag that the source stores first in `stop` is never read by it
and has no counterpart here.
*/
module StopProtocol {
  import opened Wrappers

  type Tid = int

  /** A successful registration; `id` tells registrations that reuse a name apart. */
  datatype Reg = Reg(name: string, id: nat)

  /** What a thread does once its call of `stop` returns. */
  datatype AfterStop = Return | ThenCall | ThenRelease(reg: Reg)

  datatype Pc =
    | Idle
    | Counting(reg: Reg)       // listener pushed, listeners locked, about to count the worker
    | Stopping(after: AfterStop) // about to lock the listeners
    | Draining(after: AfterStop) // listeners locked and closed, running them one by one
    | Releasing(reg: Reg)      // about to look for its own listener
    | Decrementing(reg: Reg)   // about to take itself off the count
    | Waking                   // took the count to zero, about to lock the parked list
    | Unparking                // parked list locked, unparking its threads one by one
    | Calling                  // in `stop_call`, about to take the callback
    | Checking                 // in `wait`, about to load the count
    | Parking                  // in `wait`, saw a non-zero count
    | TimedChecking            // in `wait_timeout`, about to load the count
    | TimedParking             // in `wait_timeout`, saw a non-zero count

  /** The shared state, the threads, and what has happened so far (`live` workers, the thread
      that is `releasing` a worker, `nextId`, `ran`, `created`, `released`, `hitZero`, `calls`). */
  datatype State = State(
    closed: bool, pending: seq<Reg>, listenersLock: Option<Tid>,
    parked: seq<Tid>, parkLock: Option<Tid>,
    workerNum: int, callback: bool,
    pcs: map<Tid, Pc>, tokens: set<Tid>,
    live: set<Reg>, releasing: map<Reg, Tid>, nextId: nat, ran: seq<nat>,
    created: nat, released: nat, hitZero: bool, calls: nat)
  {
    function Pc(t: Tid): Pc {
      if t in pcs then pcs[t] else Idle
    }

    function Goto(t: Tid, pc: Pc): State {
      this.(pcs := pcs[t := pc])
    }
  }

  predicate IsInitial(s: State) {
    && !s.closed && s.pending == [] && s.listenersLock == None
    && s.parked == [] && s.parkLock == None
    && s.workerNum == 0 && s.callback
    && s.pcs == map[] && s.tokens == {}
    && s.live == {} && s.releasing == map[] && s.nextId == 0 && s.ran == []
    && s.created == 0 && s.released == 0 && !s.hitZero && s.calls == 0
  }

  datatype Action =
    | Push(name: string) | Count
    | BeginStop | BeginStopAll(reg: Reg) | LockListeners | RunListener | UnlockListeners
    | BeginRelease(reg: Reg) | RunOwn | Decrement
    | LockParked | Unpark | UnlockParked | Call
    | BeginWait | Load | Park | SpuriousWake
    | BeginTimedWait | TimedLoad | TimedReturn

  /** The position of the first listener called `name`, or the number of listeners. */
  function Position(pending: seq<Reg>, name: string): (i: nat)
    ensures i <= |pending|
    ensures forall j :: 0 <= j < i ==> pending[j].name != name
    ensures i < |pending| ==> pending[i].name == name
  {
    if pending == [] || pending[0].name == name then 0 else 1 + Position(pending[1..], name)
  }

  predicate Refuses(closed: bool, pending: seq<Reg>, name: string) {
    name == "" || closed || Position(pending, name) < |pending|
  }

  predicate Enabled(s: State, t: Tid, a: Action) {
    var pc := s.Pc(t);
    match a
    case Push(_) => pc.Idle? && s.listenersLock == None
    case Count => pc.Counting?
    case BeginStop => pc.Idle?
    case BeginStopAll(reg) => pc.Idle? && reg in s.live - s.releasing.Keys
    case LockListeners => pc.Stopping? && s.listenersLock == None
    case RunListener => pc.Draining? && s.pending != []
    case UnlockListeners => pc.Draining? && s.pending == []
    case BeginRelease(reg) => pc.Idle? && reg in s.live - s.releasing.Keys
    case RunOwn => pc.Releasing? && s.listenersLock == None
    case Decrement => pc.Decrementing?
    case LockParked => pc.Waking? && s.parkLock == None
    case Unpark => pc.Unparking? && s.parked != []
    case UnlockParked => pc.Unparking? && s.parked == []
    case Call => pc.Calling?
    case BeginWait => pc.Idle? && s.parkLock == None
    case Load => pc.Checking?
    case Park => pc.Parking? && t in s.tokens
    case SpuriousWake => pc.Parking?
    case BeginTimedWait => pc.Idle? && s.parkLock == None
    case TimedLoad => pc.TimedChecking?
    case TimedReturn => pc.TimedParking?
  }

  function Next(s: State, t: Tid, a: Action): State
    requires Enabled(s, t, a)
  {
    var pc := s.Pc(t);
    match a
    case Push(name) =>
      if Refuses(s.closed, s.pending, name) then s
      else
        var reg := Reg(name, s.nextId);
        s.(pending := s.pending + [reg], listenersLock := Some(t), nextId := s.nextId + 1).Goto(t, Counting(reg))
    case Count =>
      s.(workerNum := s.workerNum + 1, listenersLock := None, created := s.created + 1,
         live := s.live + {pc.reg}).Goto(t, Idle)
    case BeginStop => s.Goto(t, Stopping(Return))
    case BeginStopAll(reg) => s.(releasing := s.releasing[reg := t]).Goto(t, Stopping(ThenRelease(reg)))
    case LockListeners => s.(listenersLock := Some(t), closed := true).Goto(t, Draining(pc.after))
    case RunListener => s.(ran := s.ran + [s.pending[0].id], pending := s.pending[1..])
    case UnlockListeners =>
      s.(listenersLock := None).Goto(t, match pc.after
                                        case Return => Idle
                                        case ThenCall => Calling
                                        case ThenRelease(reg) => Releasing(reg))
    case BeginRelease(reg) => s.(releasing := s.releasing[reg := t]).Goto(t, Releasing(reg))
    case RunOwn =>
      var i := Position(s.pending, pc.reg.name);
      if i < |s.pending| then
        s.(ran := s.ran + [s.pending[i].id], pending := s.pending[..i] + s.pending[i + 1..]).Goto(t, Decrementing(pc.reg))
      else s.Goto(t, Decrementing(pc.reg))
    case Decrement =>
      s.(workerNum := s.workerNum - 1, released := s.released + 1, live := s.live - {pc.reg},
         releasing := s.releasing - {pc.reg},
         hitZero := s.hitZero || s.workerNum == 1).Goto(t, if s.workerNum == 1 then Waking else Idle)
    case LockParked => s.(parkLock := Some(t)).Goto(t, Unparking)
    case Unpark => s.(tokens := s.tokens + {s.parked[0]}, parked := s.parked[1..])
    case UnlockParked => s.(parkLock := None).Goto(t, Stopping(ThenCall))
    case Call => s.(callback := false, calls := s.calls + if s.callback then 1 else 0).Goto(t, Idle)
    case BeginWait => s.(parked := s.parked + [t]).Goto(t, Checking)
    case Load => s.Goto(t, if s.workerNum == 0 then Idle else Parking)
    case Park => s.(tokens := s.tokens - {t}).Goto(t, Checking)
    case SpuriousWake => s.Goto(t, Checking)
    case BeginTimedWait => s.(parked := s.parked + [t]).Goto(t, TimedChecking)
    case TimedLoad => s.Goto(t, if s.workerNum == 0 then Idle else TimedParking)
    case TimedReturn => s.(tokens := s.tokens - {t}).Goto(t, Idle)
  }

  type Run = seq<(Tid, Action)>

  predicate IsRun(s: State, run: Run)
    decreases |run|
  {
    run == [] || (Enabled(s, run[0].0, run[0].1) && IsRun(Next(s, run[0].0, run[0].1), run[1..]))
  }

  function After(s: State, run: Run): State
    requires IsRun(s, run)
    decreases |run|
  {
    if run == [] then s else After(Next(s, run[0].0, run[0].1), run[1..])
  }

  // ----- single steps

  /** A registration is refused exactly if its name is empty or pending already, or the list is closed; any
      other one is appended under a number of its own. */
  lemma PushExactly(s: State, t: Tid, name: string)
    requires Enabled(s, t, Push(name))
    ensures var refused := name == "" || s.closed || exists i :: 0 <= i < |s.pending| && s.pending[i].name == name;
            if refused then Next(s, t, Push(name)) == s
            else Next(s, t, Push(name)).pending == s.pending + [Reg(name, s.nextId)]
                 && Next(s, t, Push(name)).nextId == s.nextId + 1
  {
  }

  /** A thread gets out of `wait` exactly by seeing a count of zero; otherwise it parks, and what wakes it
      makes it look again. */
  lemma WaitEndsAtZero(s: State, t: Tid, a: Action)
    requires Enabled(s, t, a) && (s.Pc(t).Checking? || s.Pc(t).Parking?)
    ensures Next(s, t, a).Pc(t).Idle? <==> s.Pc(t).Checking? && s.workerNum == 0
    ensures !Next(s, t, a).Pc(t).Idle? ==> Next(s, t, a).Pc(t) == if s.Pc(t).Checking? then Parking else Checking
  {
  }

  /** A timed wait looks once, and parks only if the count is not zero. */
  lemma TimedWaitLooks(s: State, t: Tid)
    requires Enabled(s, t, TimedLoad)
    ensures Next(s, t, TimedLoad).Pc(t) == if s.workerNum == 0 then Idle else TimedParking
  {
  }

  predicate IsStopping(pc: Pc) {
    pc.Stopping? || pc.Draining?
  }

  /** A call that stops the manager comes back only when the list is closed and empty: it closes the list
      when it gets the lock, and holds that until the last listener has run. */
  lemma StopEmptiesTheList(s: State, t: Tid, a: Action)
    requires ThreadInv(s, t) && Enabled(s, t, a)
    ensures var s' := Next(s, t, a);
      && (a.BeginStop? ==> IsStopping(s'.Pc(t)))
      && (IsStopping(s.Pc(t)) && !IsStopping(s'.Pc(t)) ==> s'.closed && s'.pending == [])
      && (s.Pc(t).Stopping? ==> s'.Pc(t).Draining? && s'.closed && s'.listenersLock == Some(t))
  {
  }

  // ----- listeners, locks and the count

  function Ids(pending: seq<Reg>): (ids: seq<nat>)
    ensures |ids| == |pending|
    ensures forall i :: 0 <= i < |ids| ==> ids[i] == pending[i].id
  {
    seq(|pending|, i requires 0 <= i < |pending| => pending[i].id)
  }

  predicate HasNamesDistinct(pending: seq<Reg>) {
    forall i, j :: 0 <= i < j < |pending| ==> pending[i].name != pending[j].name
  }

  /** The registration whose worker a thread is giving up but has not taken off the count yet. */
  function Held(pc: Pc): Option<Reg> {
    match pc
    case Stopping(ThenRelease(reg)) => Some(reg)
    case Draining(ThenRelease(reg)) => Some(reg)
    case Releasing(reg) => Some(reg)
    case Decrementing(reg) => Some(reg)
    case _ => None
  }

  /** ... and has not looked for its own listener either. */
  function Unreleased(pc: Pc): Option<Reg> {
    if pc.Decrementing? then None else Held(pc)
  }

  predicate HoldsListeners(pc: Pc) {
    pc.Counting? || pc.Draining?
  }

  /** The thread took the count to zero and has not finished the work that follows. */
  predicate IsFinisher(pc: Pc) {
    || pc.Waking? || pc.Unparking? || pc.Calling?
    || (pc.Stopping? && pc.after.ThenCall?)
    || (pc.Draining? && pc.after.ThenCall?)
  }

  /** Every registered listener has run once, or is pending once. */
  ghost predicate Conserved(pending: seq<Reg>, ran: seq<nat>, nextId: nat) {
    && HasNamesDistinct(pending)
    && forall id: nat :: multiset(ran)[id] + multiset(Ids(pending))[id] == if id < nextId then 1 else 0
  }

  ghost predicate CountInv(s: State) {
    && s.workerNum == |s.live| == s.created - s.released
    && s.releasing.Keys <= s.live
    && forall r :: r in s.live ==> r.id < s.nextId
  }

  /** The listener of a worker that nobody is releasing is pending, unless the list was closed. */
  ghost predicate OwnInv(s: State) {
    forall r :: r in s.live && r !in s.releasing ==> s.closed || r in s.pending
  }

  predicate ClosingInv(s: State) {
    && (s.closed && s.pending != [] ==> s.listenersLock.Some? && s.Pc(s.listenersLock.value).Draining?)
    && (s.calls > 0 ==> s.closed && s.pending == [] && s.hitZero)
    && s.calls == (if s.callback then 0 else 1)
  }

  /** What holds of a thread at each point of its program. */
  predicate ThreadInv(s: State, t: Tid) {
    var pc := s.Pc(t);
    && (HoldsListeners(pc) <==> s.listenersLock == Some(t))
    && (pc.Unparking? <==> s.parkLock == Some(t))
    && (pc.Counting? ==> pc.reg !in s.live && pc.reg.id < s.nextId && pc.reg in s.pending && !s.closed)
    && (Held(pc).Some? ==> Held(pc).value in s.releasing && s.releasing[Held(pc).value] == t)
    && (Unreleased(pc).Some? ==> s.closed || Unreleased(pc).value in s.pending)
    && (pc.Draining? ==> s.closed)
    && (pc.Calling? ==> s.closed && s.pending == [])
    && (IsFinisher(pc) ==> s.hitZero)
  }

  ghost predicate Inv(s: State) {
    && Conserved(s.pending, s.ran, s.nextId) && CountInv(s) && OwnInv(s) && ClosingInv(s)
    && forall t :: ThreadInv(s, t)
  }

  /** A release finds its own listener and no other, unless the list was closed and is empty. */
  lemma ReleaseRunsOwn(s: State, t: Tid)
    requires Inv(s) && Enabled(s, t, RunOwn)
    ensures var i := Position(s.pending, s.Pc(t).reg.name);
            if s.closed then s.pending == [] else i < |s.pending| && s.pending[i] == s.Pc(t).reg
    // which runs, and is no longer pending
    ensures var s' := Next(s, t, RunOwn);
            if s.closed then s'.ran == s.ran
            else s'.ran == s.ran + [s.Pc(t).reg.id]
                 && forall r :: r in s'.pending <==> r in s.pending && r != s.Pc(t).reg
  {
    assert ThreadInv(s, t);
    if !s.closed {
      var j :| 0 <= j < |s.pending| && s.pending[j] == s.Pc(t).reg;
      assert j == Position(s.pending, s.Pc(t).reg.name);
    }
  }

  lemma PushKeepsListeners(s: State, name: string)
    requires Conserved(s.pending, s.ran, s.nextId) && !Refuses(s.closed, s.pending, name)
    ensures Conserved(s.pending + [Reg(name, s.nextId)], s.ran, s.nextId + 1)
  {
    assert Ids(s.pending + [Reg(name, s.nextId)]) == Ids(s.pending) + [s.nextId];
  }

  lemma RunKeepsListeners(s: State, i: nat)
    requires Conserved(s.pending, s.ran, s.nextId) && i < |s.pending|
    ensures Conserved(s.pending[..i] + s.pending[i + 1..], s.ran + [s.pending[i].id], s.nextId)
  {
    assert Ids(s.pending) == Ids(s.pending[..i]) + [s.pending[i].id] + Ids(s.pending[i + 1..]);
    assert Ids(s.pending[..i] + s.pending[i + 1..]) == Ids(s.pending[..i]) + Ids(s.pending[i + 1..]);
  }

  predicate RanOne(s: State, s': State, i: int) {
    && 0 <= i < |s.pending|
    && s'.pending == s.pending[..i] + s.pending[i + 1..]
    && s'.ran == s.ran + [s.pending[i].id]
    && s'.nextId == s.nextId
  }

  /** The effect of a step on the listeners: one is pushed, one is run, or nothing happens. */
  lemma ListenersEffect(s: State, t: Tid, a: Action)
    requires Enabled(s, t, a)
    ensures var s' := Next(s, t, a);
            || (s'.pending == s.pending && s'.ran == s.ran && s'.nextId == s.nextId)
            || (&& a.Push? && !Refuses(s.closed, s.pending, a.name)
                && s'.pending == s.pending + [Reg(a.name, s.nextId)] && s'.ran == s.ran && s'.nextId == s.nextId + 1)
            || (exists i :: RanOne(s, s', i))
  {
    var s' := Next(s, t, a);
    if a.RunListener? {
      assert s.pending[..0] + s.pending[1..] == s.pending[1..];
      assert RanOne(s, s', 0);
    } else if a.RunOwn? && Position(s.pending, s.Pc(t).reg.name) < |s.pending| {
      assert RanOne(s, s', Position(s.pending, s.Pc(t).reg.name));
    }
  }

  lemma ListenersStep(s: State, t: Tid, a: Action)
    requires Conserved(s.pending, s.ran, s.nextId) && Enabled(s, t, a)
    ensures Conserved(Next(s, t, a).pending, Next(s, t, a).ran, Next(s, t, a).nextId)
  {
    var s' := Next(s, t, a);
    ListenersEffect(s, t, a);
    if s'.nextId == s.nextId + 1 {
      PushKeepsListeners(s, a.name);
    } else if s'.ran != s.ran {
      var i :| RanOne(s, s', i);
      RunKeepsListeners(s, i);
    }
  }

  /** The actions that change the workers. */
  predicate IsWorkerAction(a: Action) {
    a.Push? || a.Count? || a.BeginStopAll? || a.BeginRelease? || a.Decrement?
  }

  lemma CountStep(s: State, t: Tid, a: Action)
    requires CountInv(s) && ThreadInv(s, t) && Enabled(s, t, a) && IsWorkerAction(a)
    ensures CountInv(Next(s, t, a))
  {
  }

  lemma CountFrame(s: State, t: Tid, a: Action)
    requires CountInv(s) && Enabled(s, t, a) && !IsWorkerAction(a)
    ensures CountInv(Next(s, t, a))
  {
  }

  lemma OwnStep(s: State, t: Tid, a: Action)
    requires Inv(s) && Enabled(s, t, a)
    ensures OwnInv(Next(s, t, a))
  {
    assert ThreadInv(s, t);
    if a == RunOwn {
      ReleaseRunsOwn(s, t);
    }
  }

  /** The actions of waiters. */
  predicate IsWaitAction(a: Action) {
    || a.BeginWait? || a.Load? || a.Park? || a.SpuriousWake?
    || a.BeginTimedWait? || a.TimedLoad? || a.TimedReturn?
  }

  /** The actions that touch neither the listeners nor the workers. */
  predicate IsParkAction(a: Action) {
    a.LockParked? || a.Unpark? || a.UnlockParked? || a.Call? || IsWaitAction(a)
  }

  /** What park actions leave alone; a call only takes the callback. */
  predicate SameListeners(s: State, s': State) {
    && s'.closed == s.closed && s'.pending == s.pending && s'.listenersLock == s.listenersLock
    && s'.hitZero == s.hitZero && s'.nextId == s.nextId && s'.live == s.live && s'.releasing == s.releasing
  }

  lemma ParkFrame(s: State, t: Tid, a: Action)
    requires Enabled(s, t, a) && IsParkAction(a)
    ensures SameListeners(s, Next(s, t, a))
  {
  }

  lemma CallFrame(s: State, t: Tid, a: Action)
    requires Enabled(s, t, a) && IsParkAction(a)
    ensures !a.Call? ==> Next(s, t, a).calls == s.calls && Next(s, t, a).callback == s.callback
    ensures !s.Pc(t).Draining?
  {
  }

  lemma ClosingParkStep(s: State, t: Tid, a: Action)
    requires ClosingInv(s) && ThreadInv(s, t) && Enabled(s, t, a) && IsParkAction(a)
    ensures ClosingInv(Next(s, t, a))
  {
    ParkFrame(s, t, a);
    CallFrame(s, t, a);
  }

  lemma ClosingStep(s: State, t: Tid, a: Action)
    requires ClosingInv(s) && ThreadInv(s, t) && Enabled(s, t, a) && !IsParkAction(a)
    ensures ClosingInv(Next(s, t, a))
  {
  }

  lemma SelfRegisterStep(s: State, t: Tid, a: Action)
    requires Inv(s) && Enabled(s, t, a) && (a.Push? || a.Count?)
    ensures ThreadInv(Next(s, t, a), t)
  {
    assert ThreadInv(s, t);
  }

  lemma SelfBeginStep(s: State, t: Tid, a: Action)
    requires Inv(s) && Enabled(s, t, a) && (a.BeginStopAll? || a.BeginRelease?)
    ensures ThreadInv(Next(s, t, a), t)
  {
    assert ThreadInv(s, t);
  }

  lemma SelfRunOwnStep(s: State, t: Tid)
    requires ThreadInv(s, t) && Enabled(s, t, RunOwn)
    ensures ThreadInv(Next(s, t, RunOwn), t)
  {
  }

  lemma SelfDecrementStep(s: State, t: Tid)
    requires ThreadInv(s, t) && Enabled(s, t, Decrement)
    ensures ThreadInv(Next(s, t, Decrement), t)
  {
  }

  lemma SelfStopStep(s: State, t: Tid, a: Action)
    requires ThreadInv(s, t) && Enabled(s, t, a)
    requires a.BeginStop? || a.LockListeners? || a.RunListener? || a.UnlockListeners?
    ensures ThreadInv(Next(s, t, a), t)
  {
  }

  lemma SelfFinishStep(s: State, t: Tid, a: Action)
    requires ThreadInv(s, t) && Enabled(s, t, a)
    requires a.LockParked? || a.Unpark? || a.UnlockParked? || a.Call?
    ensures ThreadInv(Next(s, t, a), t)
  {
  }

  /** The thread is idle or waits: it holds nothing. */
  predicate IsQuiet(pc: Pc) {
    pc.Idle? || pc.Checking? || pc.Parking? || pc.TimedChecking? || pc.TimedParking?
  }

  lemma WaitStaysQuiet(s: State, t: Tid, a: Action)
    requires Enabled(s, t, a) && IsWaitAction(a)
    ensures IsQuiet(s.Pc(t)) && IsQuiet(Next(s, t, a).Pc(t)) && Next(s, t, a).parkLock == s.parkLock
  {
  }

  lemma QuietThread(s: State, s': State, t: Tid)
    requires ThreadInv(s, t) && SameListeners(s, s') && s'.parkLock == s.parkLock
    requires IsQuiet(s.Pc(t)) && IsQuiet(s'.Pc(t))
    ensures ThreadInv(s', t)
  {
  }

  lemma SelfWaitStep(s: State, t: Tid, a: Action)
    requires ThreadInv(s, t) && Enabled(s, t, a) && IsWaitAction(a)
    ensures ThreadInv(Next(s, t, a), t)
  {
    ParkFrame(s, t, a);
    WaitStaysQuiet(s, t, a);
    QuietThread(s, Next(s, t, a), t);
  }

  lemma SelfParkStep(s: State, t: Tid, a: Action)
    requires ThreadInv(s, t) && Enabled(s, t, a) && IsParkAction(a)
    ensures ThreadInv(Next(s, t, a), t)
  {
    if IsWaitAction(a) {
      SelfWaitStep(s, t, a);
    } else {
      SelfFinishStep(s, t, a);
    }
  }

  lemma OtherStep(s: State, t: Tid, a: Action, u: Tid)
    requires Inv(s) && Enabled(s, t, a) && !IsParkAction(a) && !a.RunOwn? && u != t
    ensures ThreadInv(Next(s, t, a), u)
  {
    assert ThreadInv(s, t) && ThreadInv(s, u);
  }

  lemma OtherRunOwnStep(s: State, t: Tid, u: Tid)
    requires Inv(s) && Enabled(s, t, RunOwn) && u != t
    ensures ThreadInv(Next(s, t, RunOwn), u)
  {
    assert ThreadInv(s, t) && ThreadInv(s, u);
    ReleaseRunsOwn(s, t);
  }

  lemma OtherParkStep(s: State, t: Tid, a: Action, u: Tid)
    requires ThreadInv(s, t) && ThreadInv(s, u) && Enabled(s, t, a) && IsParkAction(a) && u != t
    ensures ThreadInv(Next(s, t, a), u)
  {
    ParkFrame(s, t, a);
    ParkLockFrame(s, t, a, u);
    OtherPc(s, t, a, u);
    SameThread(s, Next(s, t, a), u);
  }

  lemma ParkLockFrame(s: State, t: Tid, a: Action, u: Tid)
    requires ThreadInv(s, t) && Enabled(s, t, a) && IsParkAction(a) && u != t
    ensures Next(s, t, a).parkLock == Some(u) <==> s.parkLock == Some(u)
  {
    if a.LockParked? || a.UnlockParked? {
      assert s.parkLock != Some(u);
    } else {
      assert Next(s, t, a).parkLock == s.parkLock;
    }
  }

  /** A step moves no thread but the one that takes it. */
  lemma OtherPc(s: State, t: Tid, a: Action, u: Tid)
    requires Enabled(s, t, a) && u != t
    ensures Next(s, t, a).Pc(u) == s.Pc(u)
  {
  }

  lemma SameThread(s: State, s': State, u: Tid)
    requires ThreadInv(s, u) && SameListeners(s, s') && s'.Pc(u) == s.Pc(u)
    requires s'.parkLock == Some(u) <==> s.parkLock == Some(u)
    ensures ThreadInv(s', u)
  {
  }

  lemma SelfStep(s: State, t: Tid, a: Action)
    requires Inv(s) && Enabled(s, t, a)
    ensures ThreadInv(Next(s, t, a), t)
  {
    assert ThreadInv(s, t);
    if IsParkAction(a) {
      SelfParkStep(s, t, a);
    } else if a.Push? || a.Count? {
      SelfRegisterStep(s, t, a);
    } else if a.BeginStop? || a.LockListeners? || a.RunListener? || a.UnlockListeners? {
      SelfStopStep(s, t, a);
    } else if a.BeginStopAll? || a.BeginRelease? {
      SelfBeginStep(s, t, a);
    } else if a.RunOwn? {
      SelfRunOwnStep(s, t);
    } else {
      SelfDecrementStep(s, t);
    }
  }

  lemma InvStep(s: State, t: Tid, a: Action)
    requires Inv(s) && Enabled(s, t, a)
    ensures Inv(Next(s, t, a))
  {
    assert ThreadInv(s, t);
    ListenersStep(s, t, a);
    if IsWorkerAction(a) {
      CountStep(s, t, a);
    } else {
      CountFrame(s, t, a);
    }
    OwnStep(s, t, a);
    if IsParkAction(a) {
      ClosingParkStep(s, t, a);
    } else {
      ClosingStep(s, t, a);
    }
    SelfStep(s, t, a);
    forall u | u != t ensures ThreadInv(Next(s, t, a), u) {
      if IsParkAction(a) {
        OtherParkStep(s, t, a, u);
      } else if a.RunOwn? {
        OtherRunOwnStep(s, t, u);
      } else {
        OtherStep(s, t, a, u);
      }
    }
  }

  lemma {:induction false} RunKeepsInvariant(s: State, run: Run)
    requires Inv(s) && IsRun(s, run)
    ensures Inv(After(s, run))
    decreases |run|
  {
    if run != [] {
      InvStep(s, run[0].0, run[0].1);
      RunKeepsInvariant(Next(s, run[0].0, run[0].1), run[1..]);
    }
  }

  lemma InitInv(s: State)
    requires IsInitial(s)
    ensures Inv(s)
  {
    assert Ids(s.pending) == [];
  }

  lemma {:induction false} RunConcat(s: State, a: Run, b: Run)
    requires IsRun(s, a) && IsRun(After(s, a), b)
    ensures IsRun(s, a + b) && After(s, a + b) == After(After(s, a), b)
    decreases |a|
  {
    if a == [] {
      assert a + b == b;
    } else {
      var next := Next(s, a[0].0, a[0].1);
      assert (a + b)[0] == a[0] && (a + b)[1..] == a[1..] + b;
      assert IsRun(next, a[1..]) && After(s, a) == After(next, a[1..]);
      RunConcat(next, a[1..], b);
    }
  }

  /** In every run each registered listener has run exactly once or is still pending, pending names
      are distinct, the count is the number of workers created and not released, and the stop
      callback runs at most once, only after the count hit zero and with the list empty and closed. */
  lemma EveryRunConserves(start: State, run: Run, s: State)
    requires IsInitial(start) && IsRun(start, run) && s == After(start, run)
    ensures forall id: nat :: multiset(s.ran)[id] + multiset(Ids(s.pending))[id] == if id < s.nextId then 1 else 0
    ensures HasNamesDistinct(s.pending)
    ensures s.workerNum == s.created - s.released >= 0
    ensures s.calls <= 1 && (s.calls == 1 ==> s.hitZero && s.closed && s.pending == [])
  {
    InitInv(start);
    RunKeepsInvariant(start, run);
  }

  /** Once closed, the list of listeners never opens or grows again. */
  lemma {:induction false} ClosedForGood(s: State, run: Run)
    requires Inv(s) && IsRun(s, run) && s.closed
    ensures After(s, run).closed && |After(s, run).pending| <= |s.pending|
    decreases |run|
  {
    if run != [] {
      InvStep(s, run[0].0, run[0].1);
      ClosedForGood(Next(s, run[0].0, run[0].1), run[1..]);
    }
  }
}
