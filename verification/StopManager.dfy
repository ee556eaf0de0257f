/**
The stop manager itself, as one thread sees it when no other thread interferes: the loops over the
listeners and the parked threads, and what a whole call adds up to.  `StopProtocol` has the steps of
the same operations for threads that do interfere.
*/
module StopManager {
  import opened Wrappers
  import opened StopProtocol

  datatype AddError = EmptyName | Stopped | NameExists

  class StopManagerInner {
    var closed: bool
    var listeners: seq<Reg>
    var parkThreads: seq<Tid>
    var workerNum: int
    var stopCall: bool
    var nextId: nat
    // what the calls have done: listeners run, threads unparked, stop callbacks made
    var ran: seq<nat>
    var unparked: seq<Tid>
    var calls: nat

    constructor ()
      ensures !closed && listeners == [] && parkThreads == [] && workerNum == 0 && stopCall
      ensures nextId == 0 && ran == [] && unparked == [] && calls == 0
    {
      closed, listeners, parkThreads, workerNum, stopCall := false, [], [], 0, true;
      nextId, ran, unparked, calls := 0, [], [], 0;
    }

    method AddListener(name: string) returns (r: Result<Reg, AddError>)
      modifies this`listeners, this`workerNum, this`nextId
      ensures r.Ok? <==>
                name != "" && !closed && forall i :: 0 <= i < |old(listeners)| ==> old(listeners)[i].name != name
      ensures r.Err? ==> r.error == if name == "" then EmptyName else if closed then Stopped else NameExists
      ensures r.Err? ==> listeners == old(listeners) && workerNum == old(workerNum) && nextId == old(nextId)
      ensures r.Ok? ==>
                && r.value == Reg(name, old(nextId))
                && listeners == old(listeners) + [r.value]
                && workerNum == old(workerNum) + 1
                && nextId == old(nextId) + 1
      ensures r.Ok? && HasNamesDistinct(old(listeners)) ==> HasNamesDistinct(listeners)
    {
      if name == "" {
        return Err(EmptyName);
      }
      if closed {
        return Err(Stopped);
      }
      for i := 0 to |listeners|
        invariant i <= Position(listeners, name)
      {
        if listeners[i].name == name {
          return Err(NameExists);
        }
      }
      var reg := Reg(name, nextId);
      listeners := listeners + [reg];
      nextId := nextId + 1;
      workerNum := workerNum + 1;
      return Ok(reg);
    }

    /** Closes the list and runs every pending listener once, in order. */
    method Stop()
      modifies this`closed, this`listeners, this`ran
      ensures closed && listeners == []
      ensures ran == old(ran) + Ids(old(listeners))
    {
      closed := true;
      var done := 0;
      while listeners != []
        invariant 0 <= done <= |old(listeners)| && listeners == old(listeners)[done..] && closed
        invariant ran == old(ran) + Ids(old(listeners))[..done]
      {
        ran := ran + [listeners[0].id];
        listeners := listeners[1..];
        done := done + 1;
      }
      assert Ids(old(listeners))[..done] == Ids(old(listeners));
    }

    /** Stops, and makes the stop callback unless it was made before. */
    method CallStop()
      modifies this`closed, this`listeners, this`ran, this`stopCall, this`calls
      ensures closed && listeners == [] && !stopCall
      ensures ran == old(ran) + Ids(old(listeners))
      ensures calls == old(calls) + if old(stopCall) then 1 else 0
    {
      Stop();
      if stopCall {
        stopCall := false;
        calls := calls + 1;
      }
    }

    /** Gives up a worker: its own listener runs if it is still pending; the last worker also wakes
        every parked thread, in order, and stops the rest. */
    method Release(reg: Reg)
      modifies this`closed, this`listeners, this`ran, this`workerNum
      modifies this`parkThreads, this`unparked, this`stopCall, this`calls
      ensures workerNum == old(workerNum) - 1
      ensures var i := Position(old(listeners), reg.name);
              var rest := if i < |old(listeners)| then old(listeners)[..i] + old(listeners)[i + 1..] else old(listeners);
              var own := if i < |old(listeners)| then [old(listeners)[i].id] else [];
              if old(workerNum) != 1 then
                && closed == old(closed) && listeners == rest && ran == old(ran) + own
                && parkThreads == old(parkThreads) && unparked == old(unparked) && calls == old(calls)
                && stopCall == old(stopCall)
              else
                && closed && listeners == [] && ran == old(ran) + own + Ids(rest)
                && parkThreads == [] && unparked == old(unparked) + old(parkThreads)
                && !stopCall && calls == old(calls) + if old(stopCall) then 1 else 0
    {
      var pos := 0;
      while pos < |listeners| && listeners[pos].name != reg.name
        invariant listeners == old(listeners) && pos <= Position(listeners, reg.name)
      {
        pos := pos + 1;
      }
      if pos < |listeners| {
        ran := ran + [listeners[pos].id];
        listeners := listeners[..pos] + listeners[pos + 1..];
      }
      var count := workerNum;
      workerNum := workerNum - 1;
      if count == 1 {
        while parkThreads != []
          modifies this`parkThreads, this`unparked
          invariant unparked + parkThreads == old(unparked) + old(parkThreads)
        {
          unparked := unparked + [parkThreads[0]];
          parkThreads := parkThreads[1..];
        }
        CallStop();
      }
    }
  }
}
