/**
The scheduler as its own thread sees it while nobody else moves: the operations on the heap, the
channel and the state flag, and the loop that runs the tasks that are due.
*/
module Schedulers {
  import opened Wrappers
  import opened SchedulerProtocol

  ghost predicate SortedByDeadline(tasks: seq<Task>) {
    forall i, j :: 0 <= i < j < |tasks| ==> tasks[i].next <= tasks[j].next
  }

  /** The first Stop is at `i`, and `rest` is what came after it. */
  predicate StoppedAt(all: seq<Op>, i: int, rest: seq<Op>) {
    0 <= i < |all| && all[i] == Stop && Stop !in all[..i] && rest == all[i + 1..]
  }

  ghost predicate NoneDue(heap: multiset<Task>, now: int) {
    forall u :: u in heap ==> now < u.next
  }

  ghost predicate NoneBefore(heap: multiset<Task>, time: int) {
    forall u :: u in heap ==> time <= u.next
  }

  /** The earliest task of the heap, when it is due. */
  ghost predicate IsDue(heap: multiset<Task>, task: Task, now: int) {
    task in heap && NoneBefore(heap, task.next) && task.next <= now
  }

  lemma NotDueYet(heap: multiset<Task>, top: Task, now: int)
    requires NoneBefore(heap, top.next) && now < top.next
    ensures NoneDue(heap, now)
  {
  }

  /** `ran` came off the heap in the order of their deadlines, none early, leaving `heap` of `all`. */
  ghost predicate RanInOrder(ran: seq<Task>, heap: multiset<Task>, all: multiset<Task>, clock: nat -> int) {
    && multiset(ran) + heap == all
    && SortedByDeadline(ran)
    && (forall k :: 0 <= k < |ran| ==> ran[k].next <= clock(k))
    && (forall k, u :: 0 <= k < |ran| && u in heap ==> ran[k].next <= u.next)
  }

  lemma OneMoreRan(ran: seq<Task>, heap: multiset<Task>, top: Task, all: multiset<Task>, clock: nat -> int)
    requires RanInOrder(ran, heap, all, clock) && top.next <= clock(|ran|)
    requires top in heap && NoneBefore(heap, top.next)
    ensures RanInOrder(ran + [top], heap - multiset{top}, all, clock)
  {
    OneMoved(ran, heap, top);
    forall k | 0 <= k < |ran| ensures ran[k].next <= top.next {
    }
  }

  lemma OneMoved(ran: seq<Task>, heap: multiset<Task>, top: Task)
    requires top in heap
    ensures multiset(ran + [top]) + (heap - multiset{top}) == multiset(ran) + heap
    ensures forall u :: u in heap - multiset{top} ==> u in heap
  {
    assert heap == (heap - multiset{top}) + multiset{top};
  }

  class Scheduler {
    var heap: multiset<Task>
    var chan: seq<Op>
    var running: bool
    // whether the scheduler's thread still holds the receiving end of the channel
    var connected: bool

    constructor ()
      ensures heap == multiset{} && chan == [] && running && connected
    {
      heap, chan, running, connected := multiset{}, [], true, true;
    }

    /** Submits a task; refused once shut down, when the thread is gone, or when the channel is full. */
    method Timeout(task: Task) returns (ok: bool)
      modifies this`chan
      ensures ok <==> running && connected && |old(chan)| < CAPACITY
      ensures chan == if ok then old(chan) + [Job(task)] else old(chan)
    {
      if !running {
        return false;
      }
      ok := connected && |chan| < CAPACITY;
      if ok {
        chan := chan + [Job(task)];
      }
    }

    /** Puts a received task on the heap; answers whether to go on. */
    method AddTask(op: Op) returns (goOn: bool)
      modifies this`heap
      ensures goOn <==> op.Job?
      ensures heap == if op.Job? then old(heap) + multiset{op.task} else old(heap)
    {
      goOn := op.Job?;
      if op.Job? {
        heap := heap + multiset{op.task};
      }
    }

    /** Empties the channel into the heap, up to a Stop. */
    method Receive() returns (goOn: bool)
      modifies this`heap, this`chan
      ensures goOn <==> Stop !in old(chan)
      ensures goOn ==> chan == [] && heap == old(heap) + JobsOf(old(chan))
      ensures !goOn ==> exists i :: StoppedAt(old(chan), i, chan) && heap == old(heap) + JobsOf(old(chan)[..i])
    {
      ghost var i, all := 0, chan;
      goOn := true;
      while chan != []
        invariant 0 <= i <= |all| && chan == all[i..]
        invariant Stop !in all[..i] && heap == old(heap) + JobsOf(all[..i])
        decreases |chan|
      {
        var op := chan[0];
        chan := chan[1..];
        goOn := AddTask(op);
        if !goOn {
          assert StoppedAt(all, i, chan);
          return;
        }
        assert all[..i + 1] == all[..i] + [op];
        JobsOfSent(all[..i], op);
        i := i + 1;
      }
      assert all[..i] == all;
    }

    /** Runs what is due, unless shut down.  `clock` gives the time of the n-th look at it, `follow` what
        a task submits when it runs.  The tasks that ran are exactly those it took off the heap, in the
        order of their deadlines, none early; it stopped at one that is not due yet.  What they submitted
        waits at the end of the channel, in order; only what found the channel full is lost. */
    method RunDue(clock: nat -> int, follow: Task -> Option<Task>) returns (ran: seq<Task>)
      requires connected
      modifies this`heap, this`chan
      ensures RanInOrder(ran, heap, old(heap), clock)
      ensures running ==> NoneDue(heap, clock(|ran|))
      ensures !running ==> ran == []
      ensures old(chan) <= chan
      ensures var all := old(chan) + FollowUps(ran, follow);
              chan == if |all| <= CAPACITY then all else if |old(chan)| < CAPACITY then all[..CAPACITY] else old(chan)
    {
      ran := [];
      while heap != multiset{}
        invariant RanSoFar(ran, heap, chan, old(heap), old(chan), clock, follow)
        invariant !running ==> ran == []
        decreases |heap|
      {
        ghost var heap', chan' := heap, chan;
        var task := RunNext(clock(|ran|), follow);
        if task.None? {
          break;
        }
        RunStep(ran, heap', chan', task.value, old(heap), old(chan), clock, follow);
        ran := ran + [task.value];
      }
      FollowedIs(old(chan), ran, follow);
    }

    /** Runs the task with the earliest deadline, unless shut down or it is not due yet. */
    method RunNext(now: int, follow: Task -> Option<Task>) returns (task: Option<Task>)
      requires connected && heap != multiset{}
      modifies this`heap, this`chan
      ensures task.None? ==> heap == old(heap) && chan == old(chan) && (running ==> NoneDue(heap, now))
      ensures task.Some? ==>
                && running && IsDue(old(heap), task.value, now)
                && heap == old(heap) - multiset{task.value} && |heap| == |old(heap)| - 1
                && chan == Submitted(old(chan), follow(task.value))
    {
      var top := Top();
      if !running {
        return None;
      }
      if now < top.next {
        NotDueYet(heap, top, now);
        return None;
      }
      RunTask(top, follow(top));
      task := Some(top);
    }

    /** Takes a task off the heap and runs it: all it does here is submit what follows, if anything. */
    method RunTask(task: Task, next: Option<Task>)
      requires running && connected && task in heap
      modifies this`heap, this`chan
      ensures heap == old(heap) - multiset{task} && |heap| == |old(heap)| - 1
      ensures chan == Submitted(old(chan), next)
    {
      heap := heap - multiset{task};
      if next.Some? {
        var _ := Timeout(next.value);
      }
    }

    /** The end of the thread, once `Receive` or the loop told it to go: it drops all that waits in the heap
        and in the channel, and stores the flag. */
    method End()
      modifies this
      ensures !connected && !running && chan == [] && heap == multiset{}
    {
      heap := multiset{};
      connected, chan := false, [];
      running := false;
    }

    method Top() returns (top: Task)
      requires heap != multiset{}
      ensures top in heap && NoneBefore(heap, top.next)
    {
      ghost var some := SomeTop(heap);
      assert IsTop(heap, some);
      top :| top in heap && IsTop(heap, top);
      assert IsTop(heap, top);
      forall u | u in heap ensures top.next <= u.next {
        assert u.Cmp(top) <= 0;
      }
    }
  }

  function Submitted(chan: seq<Op>, next: Option<Task>): seq<Op> {
    if next.Some? && |chan| < CAPACITY then chan + [Job(next.value)] else chan
  }

  /** All that some tasks submit, in the order in which they run. */
  ghost function FollowUps(ran: seq<Task>, follow: Task -> Option<Task>): seq<Op> {
    if ran == [] then []
    else
      var last := follow(ran[|ran| - 1]);
      FollowUps(ran[..|ran| - 1], follow) + if last.Some? then [Job(last.value)] else []
  }

  lemma {:induction false} FollowedIs(chan: seq<Op>, ran: seq<Task>, follow: Task -> Option<Task>)
    ensures var all := chan + FollowUps(ran, follow);
            Followed(chan, ran, follow)
              == if |all| <= CAPACITY then all else if |chan| < CAPACITY then all[..CAPACITY] else chan
  {
    if ran == [] {
      assert chan + [] == chan;
    } else {
      var init, last := ran[..|ran| - 1], follow(ran[|ran| - 1]);
      FollowedIs(chan, init, follow);
      if last.Some? {
        assert chan + (FollowUps(init, follow) + [Job(last.value)]) == chan + FollowUps(init, follow) + [Job(last.value)];
      } else {
        assert FollowUps(init, follow) + [] == FollowUps(init, follow);
      }
    }
  }

  /** The channel after some tasks ran. */
  function Followed(chan: seq<Op>, ran: seq<Task>, follow: Task -> Option<Task>): seq<Op> {
    if ran == [] then chan
    else Submitted(Followed(chan, ran[..|ran| - 1], follow), follow(ran[|ran| - 1]))
  }

  /** The state of the loop: what ran, and what it left in the heap and in the channel. */
  ghost predicate RanSoFar(ran: seq<Task>, heap: multiset<Task>, chan: seq<Op>,
                           heap0: multiset<Task>, chan0: seq<Op>, clock: nat -> int, follow: Task -> Option<Task>)
  {
    RanInOrder(ran, heap, heap0, clock) && chan == Followed(chan0, ran, follow)
  }

  lemma RunStep(ran: seq<Task>, heap: multiset<Task>, chan: seq<Op>, top: Task,
                heap0: multiset<Task>, chan0: seq<Op>, clock: nat -> int, follow: Task -> Option<Task>)
    requires RanSoFar(ran, heap, chan, heap0, chan0, clock, follow)
    requires IsDue(heap, top, clock(|ran|))
    ensures RanSoFar(ran + [top], heap - multiset{top}, Submitted(chan, follow(top)), heap0, chan0, clock, follow)
  {
    OneMoreRan(ran, heap, top, heap0, clock);
    FollowedStep(chan0, ran, top, follow);
  }

  lemma FollowedStep(chan: seq<Op>, ran: seq<Task>, task: Task, follow: Task -> Option<Task>)
    ensures Followed(chan, ran + [task], follow) == Submitted(Followed(chan, ran, follow), follow(task))
  {
    assert (ran + [task])[..|ran|] == ran;
  }
}
