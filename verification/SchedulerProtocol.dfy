/**
The scheduler as a protocol: one thread that keeps delayed tasks in a heap, a bounded channel into it,
and any number of threads that submit tasks or shut it down.

Every access to the shared state is a step: a load of the state flag, a look at the clock, a send or
receive on the channel.  A run is any interleaving of steps.  The scheduler thread holds a sender
itself, so the channel never reads as disconnected while it runs.  `Submit` and `Again` are the sends
of `timeout`; since its own look at the flag comes earlier, they may happen at any time.
*/
module SchedulerProtocol {
  const CAPACITY := 32

  /** A task that waits for its deadline. */
  datatype Task = Task(id: int, next: int) {
    /** The order of the heap: the reverse of the one of the deadlines. */
    function Cmp(other: Task): int {
      other.next - next
    }
  }

  datatype Op = Job(task: Task) | Stop

  datatype Pc =
    | Peek                                  // about to look at the top of the heap
    | LoadFlag(top: Task)                   // about to load the state flag
    | CheckTime(top: Task)                  // about to look at the clock
    | Wait(top: Task)                       // receiving until the deadline of the top task
    | Running(task: Task, again: bool)      // in a task, which may have rescheduled itself
    | Drain                                 // receiving as long as there is something
    | Decide                                // the channel was empty
    | Block                                 // receiving with nothing else to do
    | Exited

  datatype Shutdown = NotYet | Stored | Sent

  /** A task start: when, whether the flag was up, and what it left in the heap. */
  datatype Start = Start(task: Task, at: int, late: bool, left: multiset<Task>)

  /** The shared state, and what has happened so far from `accepted` on; `full` counts submissions
      refused for lack of room. */
  datatype State = State(
    pc: Pc, heap: multiset<Task>, chan: seq<Op>, flag: bool, shutdown: Shutdown, now: int,
    accepted: multiset<Task>, started: seq<Start>, received: nat, late: nat, full: nat)

  predicate IsInitial(s: State) {
    && s.pc.Peek? && s.heap == multiset{} && s.chan == [] && !s.flag && s.shutdown.NotYet?
    && s.accepted == multiset{} && s.started == [] && s.received == 0 && s.late == 0 && s.full == 0
  }

  datatype Action =
    // the scheduler thread
    | Look(top: Task) | LookEmpty | Load | TooEarly | Pop(task: Task) | Receive | TimeOut
    | Again(task: Task) | Finish | DrainEmpty | Choose
    // the others
    | Submit(task: Task) | StoreFlag | SendStop | Tick(ticks: nat)

  /** What a max-heap in this order may yield: none is greater. */
  predicate IsTop(heap: multiset<Task>, t: Task) {
    t in heap && forall u :: u in heap ==> u.Cmp(t) <= 0
  }

  ghost predicate Enabled(s: State, a: Action) {
    match a
    case Look(top) => s.pc.Peek? && IsTop(s.heap, top)
    case LookEmpty => s.pc.Peek? && s.heap == multiset{}
    case Load => s.pc.LoadFlag?
    case TooEarly => s.pc.CheckTime? && s.now < s.pc.top.next
    case Pop(task) => s.pc.CheckTime? && s.now >= s.pc.top.next && IsTop(s.heap, task)
    case Receive => (s.pc.Wait? || s.pc.Drain? || s.pc.Block?) && s.chan != []
    case TimeOut => s.pc.Wait? && s.chan == [] && s.now >= s.pc.top.next
    case Again(_) => s.pc.Running? && !s.pc.again
    case Finish => s.pc.Running?
    case DrainEmpty => s.pc.Drain? && s.chan == []
    case Choose => s.pc.Decide?
    case Submit(_) => true
    case StoreFlag => s.shutdown.NotYet?
    case SendStop => s.shutdown.Stored? && (s.pc.Exited? || |s.chan| < CAPACITY)
    case Tick(_) => true
  }

  /** `try_send`, which gives up when the channel is full or its receiver is gone. */
  function TrySend(s: State, task: Task): State {
    if s.pc.Exited? then s
    else if |s.chan| >= CAPACITY then s.(full := s.full + 1)
    else s.(chan := s.chan + [Job(task)], accepted := s.accepted + multiset{task})
  }

  function Next(s: State, a: Action): State
    requires a.Load? ==> s.pc.LoadFlag?
    requires a.TooEarly? ==> s.pc.CheckTime?
    requires a.Again? ==> s.pc.Running?
    requires a.Receive? ==> s.chan != []
  {
    match a
    case Look(top) => s.(pc := LoadFlag(top))
    case LookEmpty => s.(pc := Drain)
    case Load => s.(pc := if s.flag then Exited else CheckTime(s.pc.top))
    case TooEarly => s.(pc := Wait(s.pc.top))
    case Pop(task) =>
      var left := s.heap - multiset{task};
      s.(pc := Running(task, false), heap := left, started := s.started + [Start(task, s.now, s.flag, left)],
         late := if s.flag then s.late + 1 else s.late)
    case Receive =>
      if s.chan[0].Stop? then s.(pc := Exited, chan := s.chan[1..])
      else s.(pc := if s.pc.Drain? then Drain else Peek, chan := s.chan[1..],
              heap := s.heap + multiset{s.chan[0].task}, received := s.received + 1)
    case TimeOut => s.(pc := Peek)
    case Again(task) => TrySend(s, task).(pc := Running(s.pc.task, true))
    case Finish => s.(pc := Peek)
    case DrainEmpty => s.(pc := Decide)
    case Choose => s.(pc := if s.heap == multiset{} then Block else Peek)
    case Submit(task) => TrySend(s, task)
    case StoreFlag => s.(flag := true, shutdown := Stored)
    case SendStop => if s.pc.Exited? then s.(shutdown := Sent) else s.(chan := s.chan + [Stop], shutdown := Sent)
    case Tick(d) => s.(now := s.now + d)
  }

  /** A run that never has more than `limit` tasks alive: nobody submits one to that many. */
  ghost predicate IsRun(limit: nat, s: State, run: seq<Action>)
    decreases |run|
  {
    run == [] ||
    (&& Enabled(s, run[0])
     && (run[0].Submit? ==> Alive(s) < limit)
     && IsRun(limit, Next(s, run[0]), run[1..]))
  }

  ghost function After(limit: nat, s: State, run: seq<Action>): State
    requires IsRun(limit, s, run)
    decreases |run|
  {
    if run == [] then s else After(limit, Next(s, run[0]), run[1..])
  }

  // ----- what is in the channel

  function JobsOf(chan: seq<Op>): (r: multiset<Task>)
    ensures |r| <= |chan|
  {
    if chan == [] then multiset{}
    else if chan[0].Job? then multiset{chan[0].task} + JobsOf(chan[1..])
    else JobsOf(chan[1..])
  }

  lemma {:induction false} JobsOfSent(chan: seq<Op>, op: Op)
    ensures JobsOf(chan + [op]) == if op.Job? then JobsOf(chan) + multiset{op.task} else JobsOf(chan)
  {
    if chan == [] {
      assert [op][1..] == [];
    } else {
      assert (chan + [op])[1..] == chan[1..] + [op];
      JobsOfSent(chan[1..], op);
    }
  }

  /** Tasks that are waiting somewhere, or running and not yet rescheduled. */
  function Alive(s: State): nat {
    |s.heap| + |JobsOf(s.chan)| + if s.pc.Running? && !s.pc.again then 1 else 0
  }

  function TasksOf(started: seq<Start>): multiset<Task> {
    if started == [] then multiset{}
    else TasksOf(started[..|started| - 1]) + multiset{started[|started| - 1].task}
  }

  // ----- the invariant

  /** Every accepted task has been started, is in the heap or is in the channel. */
  ghost predicate Conserved(s: State) {
    && s.accepted == TasksOf(s.started) + s.heap + JobsOf(s.chan)
    && s.received == |s.started| + |s.heap|
  }

  /** While the thread looks at a task, that task is at the top of the heap. */
  ghost predicate TopInv(s: State) {
    s.pc.LoadFlag? || s.pc.CheckTime? || s.pc.Wait? ==> IsTop(s.heap, s.pc.top)
  }

  /** No task was started before its deadline, or while an earlier one was left. */
  ghost predicate StartsInv(s: State) {
    forall k :: 0 <= k < |s.started| ==> OnTime(s.started[k])
  }

  ghost predicate OnTime(start: Start) {
    && start.at >= start.task.next
    && forall u :: u in start.left ==> start.task.next <= u.next
  }

  ghost predicate ShutdownInv(s: State) {
    && (s.flag <==> !s.shutdown.NotYet?)
    && s.late <= 1
    && (s.late > 0 ==> s.flag)
    && (s.flag && s.pc.CheckTime? ==> s.late == 0)
    && (s.pc.Exited? ==> s.flag)
  }

  /** Room in the channel: there is one Stop at most, which stays until it ends the thread. */
  ghost predicate ChanInv(s: State) {
    && |s.chan| <= CAPACITY
    && |s.chan| - |JobsOf(s.chan)| <= (if s.shutdown.Sent? then 1 else 0)
    && (s.shutdown.Sent? && !s.pc.Exited? ==> Stop in s.chan)
  }

  ghost predicate Inv(s: State) {
    Conserved(s) && TopInv(s) && StartsInv(s) && ShutdownInv(s) && ChanInv(s)
  }

  lemma InitInv(s: State)
    requires IsInitial(s)
    ensures Inv(s)
  {
  }

  lemma SendKeepsConserved(s: State, task: Task)
    requires Conserved(s)
    ensures Conserved(TrySend(s, task))
  {
    JobsOfSent(s.chan, Job(task));
  }

  lemma PopKeepsConserved(s: State, task: Task)
    requires Conserved(s) && Enabled(s, Pop(task))
    ensures Conserved(Next(s, Pop(task)))
  {
    var s' := Next(s, Pop(task));
    assert s'.started[..|s.started|] == s.started;
    assert TasksOf(s'.started) == TasksOf(s.started) + multiset{task};
    assert s.heap == s'.heap + multiset{task};
  }

  lemma MovedAcross(a: multiset<Task>, b: multiset<Task>, t: multiset<Task>, c: multiset<Task>)
    ensures a + b + (t + c) == a + (b + t) + c
  {
  }

  lemma ReceiveKeepsConserved(s: State)
    requires Conserved(s) && Enabled(s, Receive)
    ensures Conserved(Next(s, Receive))
  {
    var op, rest := s.chan[0], JobsOf(s.chan[1..]);
    if op.Job? {
      MovedAcross(TasksOf(s.started), s.heap, multiset{op.task}, rest);
    }
  }

  lemma StepKeepsConserved(s: State, a: Action)
    requires Conserved(s) && Enabled(s, a)
    ensures Conserved(Next(s, a))
  {
    match a
    case Pop(task) => PopKeepsConserved(s, task);
    case Receive => ReceiveKeepsConserved(s);
    case Again(task) => SendKeepsConserved(s, task);
    case Submit(task) => SendKeepsConserved(s, task);
    case SendStop => JobsOfSent(s.chan, Stop);
    case _ =>
  }

  lemma StepKeepsTop(s: State, a: Action)
    requires TopInv(s) && Enabled(s, a)
    ensures TopInv(Next(s, a))
  {
  }

  lemma PopIsOnTime(s: State, task: Task)
    requires TopInv(s) && Enabled(s, Pop(task))
    ensures OnTime(Start(task, s.now, s.flag, s.heap - multiset{task}))
  {
    assert task.Cmp(s.pc.top) <= 0 && s.pc.top.Cmp(task) <= 0;
    forall u | u in s.heap - multiset{task} ensures task.next <= u.next {
      assert u in s.heap;
      assert u.Cmp(task) <= 0;
    }
  }

  lemma StepKeepsStarts(s: State, a: Action)
    requires TopInv(s) && StartsInv(s) && Enabled(s, a)
    ensures StartsInv(Next(s, a))
  {
    if a.Pop? {
      PopIsOnTime(s, a.task);
      assert Next(s, a).started == s.started + [Start(a.task, s.now, s.flag, s.heap - multiset{a.task})];
    } else {
      assert Next(s, a).started == s.started;
    }
  }

  lemma StepKeepsShutdown(s: State, a: Action)
    requires ShutdownInv(s) && ChanInv(s) && Enabled(s, a)
    ensures ShutdownInv(Next(s, a))
  {
  }

  lemma StepKeepsChan(s: State, a: Action)
    requires ChanInv(s) && Enabled(s, a)
    ensures ChanInv(Next(s, a))
  {
    match a
    case Again(task) => JobsOfSent(s.chan, Job(task));
    case Submit(task) => JobsOfSent(s.chan, Job(task));
    case SendStop => JobsOfSent(s.chan, Stop);
    case _ =>
  }

  lemma StepKeepsInv(s: State, a: Action)
    requires Inv(s) && Enabled(s, a)
    ensures Inv(Next(s, a))
  {
    StepKeepsConserved(s, a);
    StepKeepsTop(s, a);
    StepKeepsStarts(s, a);
    StepKeepsShutdown(s, a);
    StepKeepsChan(s, a);
  }

  lemma {:induction false} RunKeepsInv(limit: nat, s: State, run: seq<Action>)
    requires Inv(s) && IsRun(limit, s, run)
    ensures Inv(After(limit, s, run))
    decreases |run|
  {
    if run != [] {
      StepKeepsInv(s, run[0]);
      RunKeepsInv(limit, Next(s, run[0]), run[1..]);
    }
  }

  // ----- safety of every run

  /** In every run each task starts no earlier than its deadline and before all later ones in the
      heap; what was accepted has started, is in the heap or is in the channel; and at most one task
      starts once the flag is up. */
  lemma SafeRun(limit: nat, s: State, run: seq<Action>)
    requires IsInitial(s) && IsRun(limit, s, run)
    ensures var e := After(limit, s, run);
      && e.accepted == TasksOf(e.started) + e.heap + JobsOf(e.chan)
      && (forall k :: 0 <= k < |e.started| ==> OnTime(e.started[k]))
      && e.late <= 1
  {
    InitInv(s);
    RunKeepsInv(limit, s, run);
  }

  /** A submission, from a task or from anybody else, is appended while the thread is there and the channel
      has room, and otherwise changes nothing. */
  lemma SendsExactly(s: State, a: Action)
    requires Enabled(s, a) && (a.Submit? || a.Again?)
    ensures var s' := Next(s, a);
            var accepted := !s.pc.Exited? && |s.chan| < CAPACITY;
      && s'.chan == (if accepted then s.chan + [Job(a.task)] else s.chan)
      && s'.accepted == (if accepted then s.accepted + multiset{a.task} else s.accepted)
      && s'.full == s.full + (if !s.pc.Exited? && |s.chan| >= CAPACITY then 1 else 0)
      && s'.heap == s.heap && s'.started == s.started
  {
  }

  /** The thread waits without a deadline only while its heap is empty. */
  predicate IdleInv(s: State) {
    s.pc.Block? ==> s.heap == multiset{}
  }

  lemma {:induction false} BlocksOnlyIdle(limit: nat, s: State, run: seq<Action>)
    requires IdleInv(s) && IsRun(limit, s, run)
    ensures IdleInv(After(limit, s, run))
    decreases |run|
  {
    if run != [] {
      BlocksOnlyIdle(limit, Next(s, run[0]), run[1..]);
    }
  }

  /** A task that ran, a time-out and an operation received on the way make it look at the heap again, and so
      does an empty channel as long as a task is left. */
  lemma LooksAgain(s: State, a: Action)
    requires Enabled(s, a)
    ensures var s' := Next(s, a);
      && (a.Finish? || a.TimeOut? ==> s'.pc.Peek?)
      && (a.Receive? && s.chan[0].Job? && !s.pc.Drain? ==> s'.pc.Peek?)
      && (a.Choose? && s.heap != multiset{} ==> s'.pc.Peek?)
  {
  }

  // ----- no submission is refused

  /** With at most `limit` tasks alive the channel has room: a task that reschedules is itself among
      the living, and so is one about to be submitted. */
  ghost predicate RoomInv(s: State) {
    Alive(s) <= CAPACITY - 1 && s.full == 0
  }

  lemma StepKeepsRoom(s: State, a: Action)
    requires Inv(s) && RoomInv(s) && Enabled(s, a)
    requires a.Submit? ==> Alive(s) < CAPACITY - 1
    ensures RoomInv(Next(s, a))
  {
    match a
    case Again(task) => AgainKeepsRoom(s, task);
    case Submit(task) => JobsOfSent(s.chan, Job(task));
    case SendStop => JobsOfSent(s.chan, Stop);
    case Pop(task) => PopKeepsRoom(s, task);
    case _ =>
  }

  lemma PopKeepsRoom(s: State, task: Task)
    requires Inv(s) && RoomInv(s) && Enabled(s, Pop(task))
    ensures RoomInv(Next(s, Pop(task)))
  {
    assert |Next(s, Pop(task)).heap| == |s.heap| - 1;
  }

  lemma AgainKeepsRoom(s: State, task: Task)
    requires Inv(s) && RoomInv(s) && Enabled(s, Again(task))
    ensures RoomInv(Next(s, Again(task)))
  {
    JobsOfSent(s.chan, Job(task));
  }

  lemma {:induction false} NeverFull(limit: nat, s: State, run: seq<Action>)
    requires limit < CAPACITY && Inv(s) && RoomInv(s) && IsRun(limit, s, run)
    ensures After(limit, s, run).full == 0
    decreases |run|
  {
    if run != [] {
      StepKeepsInv(s, run[0]);
      StepKeepsRoom(s, run[0]);
      NeverFull(limit, Next(s, run[0]), run[1..]);
    }
  }

  ghost predicate Refuses(limit: nat, s: State, run: seq<Action>) {
    IsRun(limit, s, run) && After(limit, s, run).full > 0
  }

  ghost predicate MayRefuse(limit: nat, s: State) {
    exists run :: Refuses(limit, s, run)
  }

  lemma RefusesAhead(limit: nat, s: State, a: Action)
    requires Enabled(s, a) && (a.Submit? ==> Alive(s) < limit)
    requires MayRefuse(limit, Next(s, a))
    ensures MayRefuse(limit, s)
  {
    var run :| Refuses(limit, Next(s, a), run);
    assert ([a] + run)[1..] == run;
    assert Refuses(limit, s, [a] + run);
  }

  /** While a task runs, the others fill the channel to 31, the Stop takes the last place, and the task
      cannot reschedule itself. */
  lemma {:induction false} FillsUp(limit: nat, s: State)
    requires limit >= CAPACITY && s.pc.Running? && !s.pc.again && s.shutdown.NotYet?
    requires |s.heap| == 0 && |JobsOf(s.chan)| == |s.chan| < CAPACITY
    ensures MayRefuse(limit, s)
    decreases CAPACITY - |s.chan|
  {
    var task := s.pc.task;
    if |s.chan| < CAPACITY - 1 {
      JobsOfSent(s.chan, Job(task));
      FillsUp(limit, Next(s, Submit(task)));
      RefusesAhead(limit, s, Submit(task));
    } else {
      LastPlaceTaken(limit, s, task);
    }
  }

  lemma LastPlaceTaken(limit: nat, s: State, task: Task)
    requires s.pc.Running? && !s.pc.again && s.shutdown.NotYet? && |s.chan| == CAPACITY - 1
    ensures MayRefuse(limit, s)
  {
    var s1 := Next(s, StoreFlag);
    var s2 := Next(s1, SendStop);
    assert Refuses(limit, Next(s2, Again(task)), []);
    RefusesAhead(limit, s2, Again(task));
    RefusesAhead(limit, s1, SendStop);
    RefusesAhead(limit, s, StoreFlag);
  }

  lemma DueTaskRuns(limit: nat, s: State, t: Task)
    requires limit >= CAPACITY && s.pc.Peek? && s.shutdown.NotYet? && !s.flag
    requires s.heap == multiset{t} && s.chan == [] && t.next <= s.now
    ensures MayRefuse(limit, s)
  {
    var s1 := Next(s, Look(t));
    var s2 := Next(s1, Load);
    var s3 := Next(s2, Pop(t));
    assert s3.heap == multiset{};
    FillsUp(limit, s3);
    RefusesAhead(limit, s2, Pop(t));
    RefusesAhead(limit, s1, Load);
    RefusesAhead(limit, s, Look(t));
  }

  lemma FirstTaskRuns(limit: nat, s: State)
    requires limit >= CAPACITY && IsInitial(s)
    ensures MayRefuse(limit, s)
  {
    var t := Task(0, s.now);
    var s1 := Next(s, LookEmpty);
    var s2 := Next(s1, Submit(t));
    DueTaskArrives(limit, s2, t);
    RefusesAhead(limit, s1, Submit(t));
    RefusesAhead(limit, s, LookEmpty);
  }

  lemma DueTaskArrives(limit: nat, s: State, t: Task)
    requires limit >= CAPACITY && s.pc.Drain? && s.shutdown.NotYet? && !s.flag
    requires s.heap == multiset{} && s.chan == [Job(t)] && t.next <= s.now
    ensures MayRefuse(limit, s)
  {
    var s1 := Next(s, Receive);
    var s2 := Next(s1, DrainEmpty);
    var s3 := Next(s2, Choose);
    DueTaskRuns(limit, s3, t);
    RefusesAhead(limit, s2, Choose);
    RefusesAhead(limit, s1, DrainEmpty);
    RefusesAhead(limit, s, Receive);
  }

  /** No submission ever finds the channel full, a Stop on its way or not, exactly if fewer tasks are
      alive at a time than the channel has places. */
  lemma RefusalExactly(limit: nat, s: State)
    requires IsInitial(s)
    ensures MayRefuse(limit, s) <==> limit >= CAPACITY
  {
    if limit >= CAPACITY {
      FirstTaskRuns(limit, s);
    } else if MayRefuse(limit, s) {
      var run :| Refuses(limit, s, run);
      InitInv(s);
      NeverFull(limit, s, run);
      assert false;
    }
  }

  // ----- progress

  predicate Own(a: Action) {
    !a.Submit? && !a.StoreFlag? && !a.SendStop? && !a.Tick?
  }

  /** As many tasks can start between two receives as the heap held: rescheduled ones go to the channel
      and wait for their turn there. */
  lemma StartsBetweenReceives(limit: nat, s: State, run: seq<Action>)
    requires Inv(s) && IsRun(limit, s, run)
    requires After(limit, s, run).received == s.received
    ensures var e := After(limit, s, run);
      |e.heap| + |e.started| == |s.heap| + |s.started| && |e.started| - |s.started| <= |s.heap|
  {
    RunKeepsInv(limit, s, run);
  }

  /** The thread can always move while an operation waits, unless it has ended. */
  lemma NeverStuck(s: State) returns (a: Action)
    requires TopInv(s) && s.chan != [] && !s.pc.Exited?
    ensures Own(a) && Enabled(s, a)
  {
    match s.pc
    case Peek =>
      if s.heap == multiset{} {
        a := LookEmpty;
      } else {
        var top := SomeTop(s.heap);
        a := Look(top);
      }
    case LoadFlag(_) => a := Load;
    case CheckTime(top) => a := if s.now < top.next then TooEarly else Pop(top);
    case Running(_, _) => a := Finish;
    case Decide => a := Choose;
    case _ => a := Receive;
  }

  /** While nothing waits, the passing of time alone lets the thread go on from a wait to its task. */
  lemma DeadlineComes(s: State)
    requires s.pc.Wait? && s.chan == [] && s.now <= s.pc.top.next
    ensures var later := Next(s, Tick(s.pc.top.next - s.now));
            Enabled(later, TimeOut) && Next(later, TimeOut) == later.(pc := Peek) && later == s.(now := s.pc.top.next)
  {
  }

  function OwnSteps(run: seq<Action>): nat {
    if run == [] then 0 else (if Own(run[0]) then 1 else 0) + OwnSteps(run[1..])
  }

  /** How many steps of its own, at most, bring the thread to its next receive. */
  ghost function ToReceive(s: State): nat {
    var h := 6 * |s.heap|;
    match s.pc
    case Peek => h + 1
    case LoadFlag(_) => h
    case CheckTime(_) => if h == 0 then 0 else h - 1
    case Running(_, again) => if again then h + 2 else h + 3
    case Decide => h + 2
    case _ => 0
  }

  /** The same for a number of receives in a row, from the first look at a heap of `heap` tasks. */
  function Turns(heap: nat, receives: nat): nat
    decreases receives
  {
    if receives == 0 then 0 else 6 * heap + 2 + Turns(heap + 1, receives - 1)
  }

  lemma {:induction false} TurnsGrow(heap: nat, larger: nat, receives: nat)
    requires heap <= larger
    ensures Turns(heap, receives) <= Turns(larger, receives)
    decreases receives
  {
    if receives > 0 {
      TurnsGrow(heap + 1, larger + 1, receives - 1);
    }
  }

  /** How many steps of its own, at most, the thread takes up to the receive of the operation at
      position `k` of the channel. */
  ghost function Due(s: State, k: nat): nat {
    ToReceive(s) + 1 + Turns(|s.heap| + 1, k)
  }

  /** While an operation waits, every other step of its own brings the thread closer to a receive, */
  lemma OwnStepApproaches(s: State, a: Action)
    requires TopInv(s) && Enabled(s, a) && Own(a) && !a.Receive? && s.chan != [] && !Next(s, a).pc.Exited?
    ensures ToReceive(Next(s, a)) < ToReceive(s) && |Next(s, a).heap| <= |s.heap|
  {
    match a
    case Pop(task) => assert |Next(s, a).heap| == |s.heap| - 1;
    case Load => assert |s.heap| > 0;
    case TooEarly => assert |s.heap| > 0;
    case _ =>
  }

  /** and the steps of the others do not push it back, however much they submit. */
  lemma OthersDoNotDelay(s: State, a: Action)
    requires Enabled(s, a) && !Own(a)
    ensures Next(s, a).pc == s.pc && Next(s, a).heap == s.heap && s.chan <= Next(s, a).chan
  {
  }

  lemma StepKeepsPlace(s: State, a: Action, k: nat)
    requires TopInv(s) && Enabled(s, a) && k < |s.chan| && !a.Receive? && !Next(s, a).pc.Exited?
    ensures k < |Next(s, a).chan| && Next(s, a).chan[k] == s.chan[k]
    ensures Due(Next(s, a), k) + (if Own(a) then 1 else 0) <= Due(s, k)
  {
    if Own(a) {
      ChanGrows(s, a);
      OwnStepApproaches(s, a);
      TurnsGrow(|Next(s, a).heap| + 1, |s.heap| + 1, k);
    } else {
      OthersDoNotDelay(s, a);
      SameDue(s, Next(s, a), k);
    }
  }

  lemma ChanGrows(s: State, a: Action)
    requires Enabled(s, a) && !a.Receive?
    ensures s.chan <= Next(s, a).chan
  {
  }

  lemma SameDue(s: State, s': State, k: nat)
    requires s'.pc == s.pc && s'.heap == s.heap
    ensures Due(s', k) == Due(s, k)
  {
  }

  lemma ReceiveAdvances(s: State, k: nat)
    requires Enabled(s, Receive) && 0 < k < |s.chan| && !Next(s, Receive).pc.Exited?
    ensures k - 1 < |Next(s, Receive).chan| && Next(s, Receive).chan[k - 1] == s.chan[k]
    ensures Due(Next(s, Receive), k - 1) + 1 <= Due(s, k)
  {
    assert |Next(s, Receive).heap| == |s.heap| + 1;
  }

  /** The run takes `op`, which is at position `k` of the channel, out of it. */
  ghost predicate Takes(limit: nat, s: State, run: seq<Action>, k: nat, op: Op)
    requires IsRun(limit, s, run)
    decreases |run|
  {
    && run != []
    && (if run[0].Receive? && k == 0 then s.chan[0] == op
        else Takes(limit, Next(s, run[0]), run[1..], if run[0].Receive? then k - 1 else k, op))
  }

  lemma {:induction false} ExitedForGood(limit: nat, s: State, run: seq<Action>)
    requires s.pc.Exited? && IsRun(limit, s, run)
    ensures After(limit, s, run).pc.Exited? && OwnSteps(run) == 0
    decreases |run|
  {
    if run != [] {
      ExitedForGood(limit, Next(s, run[0]), run[1..]);
    }
  }

  /** No queued operation is starved: whatever the others do, the one at position `k` of the channel has
      been received, or the thread has been shut down, by the time the thread has taken a number of steps
      that depends on where it is, on its heap and on `k` alone. */
  lemma {:induction false} NoStarvation(limit: nat, s: State, run: seq<Action>, k: nat)
    requires Inv(s) && IsRun(limit, s, run) && k < |s.chan|
    requires OwnSteps(run) >= Due(s, k)
    ensures Takes(limit, s, run, k, s.chan[k]) || (After(limit, s, run).pc.Exited? && After(limit, s, run).flag)
    decreases |run|
  {
    RunKeepsInv(limit, s, run);
    var a, rest := run[0], run[1..];
    var s' := Next(s, a);
    StepKeepsInv(s, a);
    if s'.pc.Exited? {
      ExitedForGood(limit, s', rest);
    } else if a.Receive? {
      if k > 0 {
        ReceiveAdvances(s, k);
        NoStarvation(limit, s', rest, k - 1);
      }
    } else {
      StepKeepsPlace(s, a, k);
      NoStarvation(limit, s', rest, k);
    }
  }

  /** The position of the first Stop in the channel. */
  function StopAt(chan: seq<Op>): (i: nat)
    requires Stop in chan
    ensures i < |chan| && chan[i] == Stop
  {
    if chan[0] == Stop then 0 else 1 + StopAt(chan[1..])
  }

  lemma {:induction false} StopAtSent(chan: seq<Op>, op: Op)
    requires Stop in chan
    ensures StopAt(chan + [op]) == StopAt(chan)
  {
    if chan[0] != Stop {
      assert (chan + [op])[1..] == chan[1..] + [op];
      StopAtSent(chan[1..], op);
    }
  }

  /** How many steps the thread can still take once the Stop is in the channel. */
  ghost function Rank(s: State): (r: nat)
    requires s.pc.Exited? || Stop in s.chan
    ensures r == 0 <==> s.pc.Exited?
  {
    if s.pc.Exited? then 0
    else
      var c := 10 * StopAt(s.chan);
      match s.pc
      case LoadFlag(_) => 1
      case Peek => if s.heap == multiset{} then c + 6 else 2
      case Block => c + 3
      case Decide => c + 4
      case Drain => c + 5
      case Wait(_) => c + 7
      case Running(_, again) => if again then c + 8 else c + 19
      case CheckTime(_) => c + 30
  }

  lemma ReceiveLowersRank(s: State)
    requires Inv(s) && s.shutdown.Sent? && Enabled(s, Receive)
    ensures Rank(Next(s, Receive)) < Rank(s)
  {
    if s.chan[0].Job? {
      assert s.chan == [s.chan[0]] + s.chan[1..];
      assert Stop in s.chan[1..];
    }
  }

  /** Once the Stop is sent, it stays in the channel until the thread ends, */
  lemma StopStays(s: State, a: Action)
    requires Inv(s) && s.shutdown.Sent? && Enabled(s, a)
    ensures Next(s, a).shutdown.Sent? && (Next(s, a).pc.Exited? || Stop in Next(s, a).chan)
  {
    StepKeepsChan(s, a);
  }

  lemma AgainLowersRank(s: State, task: Task)
    requires Stop in s.chan && Enabled(s, Again(task))
    requires Stop in Next(s, Again(task)).chan
    ensures Rank(Next(s, Again(task))) < Rank(s)
  {
    StopAtSent(s.chan, Job(task));
  }

  lemma QuietStepLowersRank(s: State, a: Action)
    requires TopInv(s) && s.flag && Stop in s.chan && !s.pc.Exited?
    requires Enabled(s, a) && Own(a) && !a.Receive? && !a.Again?
    ensures Next(s, a).chan == s.chan && Rank(Next(s, a)) < Rank(s)
  {
    QuietStepKeepsChan(s, a);
  }

  lemma QuietStepKeepsChan(s: State, a: Action)
    requires Enabled(s, a) && Own(a) && !a.Receive? && !a.Again?
    ensures Next(s, a).chan == s.chan
  {
  }

  /** every step of its own brings the thread closer to its end, */
  lemma OwnStepLowersRank(s: State, a: Action)
    requires Inv(s) && s.shutdown.Sent? && Enabled(s, a) && Own(a)
    requires Next(s, a).pc.Exited? || Stop in Next(s, a).chan
    ensures Rank(Next(s, a)) < Rank(s)
  {
    match a
    case Receive => ReceiveLowersRank(s);
    case Again(task) => AgainLowersRank(s, task);
    case _ => QuietStepLowersRank(s, a);
  }

  /** and no step of the others takes it further away. */
  lemma OthersKeepRank(s: State, a: Action)
    requires Inv(s) && s.shutdown.Sent? && Enabled(s, a) && !Own(a)
    requires Next(s, a).pc.Exited? || Stop in Next(s, a).chan
    ensures Rank(Next(s, a)) == Rank(s)
  {
    if a.Submit? && !s.pc.Exited? {
      StopAtSent(s.chan, Job(a.task));
    }
  }

  /** Shutting down completes: from the moment the Stop is in the channel, whatever the others do, the
      steps that the thread takes and those it has left never exceed a number given by where it is and by
      the place of the Stop; with none left it has ended. */
  lemma {:induction false} ShutdownCompletes(limit: nat, s: State, run: seq<Action>)
    requires Inv(s) && s.shutdown.Sent? && IsRun(limit, s, run)
    ensures var e := After(limit, s, run);
            (e.pc.Exited? || Stop in e.chan) && OwnSteps(run) + Rank(e) <= Rank(s)
    ensures OwnSteps(run) >= Rank(s) ==> After(limit, s, run).pc.Exited?
    decreases |run|
  {
    if run != [] {
      var s' := Next(s, run[0]);
      StepKeepsInv(s, run[0]);
      StopStays(s, run[0]);
      if Own(run[0]) {
        OwnStepLowersRank(s, run[0]);
      } else {
        OthersKeepRank(s, run[0]);
      }
      ShutdownCompletes(limit, s', run[1..]);
    }
  }

  /** That number is below 350. */
  lemma ShutdownIsQuick(s: State)
    requires Inv(s) && s.shutdown.Sent?
    ensures Rank(s) < 350
  {
  }

  lemma SomeTop(heap: multiset<Task>) returns (top: Task)
    requires heap != multiset{}
    ensures IsTop(heap, top)
    decreases |heap|
  {
    var t :| t in heap;
    var rest := heap - multiset{t};
    if rest == multiset{} {
      top := t;
      assert heap == multiset{t};
    } else {
      var other := SomeTop(rest);
      top := if other.Cmp(t) > 0 then other else t;
      assert heap == rest + multiset{t};
    }
  }
}
