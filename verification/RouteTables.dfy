/**
The table from peers to routes, updated in place, and its runs.

The source guards the map with a read-write lock.  `add_route_if_absent` looks under the read lock
first and takes the write lock only after releasing it, so any other operation may run in between:
`CheckAbsent` and `AddLocked` are the two halves, and a run interleaves them freely.
*/
module RouteTables {
  import opened Wrappers
  import opened Net
  import opened RouteLists

  type Table = map<Ipv4Addr, seq<Entry>>

  function ListOf(table: Table, id: Ipv4Addr): seq<Entry> {
    if id in table then table[id] else []
  }

  /** The read-locked half of `add_route_if_absent`: an answer, or nothing when it has to write. */
  function Checked(cfg: Config, list: seq<Entry>, route: Route): Option<bool> {
    if HasKey(list, route.Key()) then Some(true)
    else if list != [] && !cfg.firstLatency && P2pCount(list) >= cfg.channelNum then Some(false)
    else None
  }

  function WithAdded(cfg: Config, table: Table, id: Ipv4Addr, route: Route, onlyIfAbsent: bool, now: int): Table
    requires cfg.Valid()
  {
    table[id := Added(cfg, ListOf(table, id), route, onlyIfAbsent, now).0]
  }

  function WithRemoved(table: Table, id: Ipv4Addr, key: RouteKey): Table {
    if id !in table then table
    else if Removed(table[id], key) == [] then table - {id}
    else table[id := Removed(table[id], key)]
  }

  function WithTouched(table: Table, id: Ipv4Addr, key: RouteKey, now: int): Table {
    if id !in table then table else table[id := Touched(table[id], key, now)]
  }

  // ----- what these do to a table, peer by peer

  /** Nothing is different for any other peer. */
  ghost predicate SameForOthers(table: Table, after: Table, id: Ipv4Addr) {
    forall other :: other != id ==>
      (other in after <==> other in table) && (other in table ==> after[other] == table[other])
  }

  lemma AddedTable(cfg: Config, table: Table, id: Ipv4Addr, route: Route, onlyIfAbsent: bool, now: int)
    requires cfg.Valid()
    ensures var after := WithAdded(cfg, table, id, route, onlyIfAbsent, now);
      && id in after && SameForOthers(table, after, id)
      && after[id] == Added(cfg, if id in table then table[id] else [], route, onlyIfAbsent, now).0
  {
  }

  /** Removing a key leaves exactly the other routes, and the peer only if there are any. */
  lemma RemovedTable(table: Table, id: Ipv4Addr, key: RouteKey)
    ensures var after := WithRemoved(table, id, key);
      && SameForOthers(table, after, id)
      && (forall e :: (id in after && e in after[id]) <==> (id in table && e in table[id] && e.route.Key() != key))
      && (id in table && table[id] != [] ==> (id in after <==> exists e :: e in table[id] && e.route.Key() != key))
  {
    if id in table {
      forall e ensures e in Removed(table[id], key) <==> e in table[id] && e.route.Key() != key {
        RetainedElements(table[id], KeepAllBut(key), e);
      }
      if Removed(table[id], key) != [] {
        assert Removed(table[id], key)[0] in table[id];
      }
    }
  }

  /** Touching a key sets the read time of the first route that has it. */
  lemma TouchedTable(table: Table, id: Ipv4Addr, key: RouteKey, now: int)
    ensures var after := WithTouched(table, id, key, now);
      && after.Keys == table.Keys && SameForOthers(table, after, id)
      && (id in table ==>
            && |after[id]| == |table[id]|
            && forall i :: 0 <= i < |table[id]| ==>
                 after[id][i] == if && table[id][i].route.Key() == key
                                    && (forall j :: 0 <= j < i ==> table[id][j].route.Key() != key)
                                 then Entry(table[id][i].route, now) else table[id][i])
  {
  }

  lemma {:induction false} P2pCountIsSize(list: seq<Entry>)
    ensures P2pCount(list) == |set i | 0 <= i < |list| && list[i].route.metric == 1|
  {
    var direct := set i | 0 <= i < |list| && list[i].route.metric == 1;
    if list == [] {
      assert direct == {};
    } else {
      var n := |list| - 1;
      P2pCountIsSize(list[..n]);
      var init := set i | 0 <= i < |list[..n]| && list[..n][i].route.metric == 1;
      assert direct == init + if list[n].route.metric == 1 then {n} else {};
    }
  }

  /** The look before a write answers true for a known key, and otherwise false exactly if hop counts come
      first and direct routes fill the channels. */
  lemma CheckedExactly(cfg: Config, list: seq<Entry>, route: Route)
    requires cfg.Valid()
    ensures var answer := Checked(cfg, list, route);
      && (answer == Some(true) <==> exists i :: 0 <= i < |list| && list[i].route.Key() == route.Key())
      && (answer == Some(false) <==>
            && (forall i :: 0 <= i < |list| ==> list[i].route.Key() != route.Key())
            && !cfg.firstLatency && |set i | 0 <= i < |list| && list[i].route.metric == 1| >= cfg.channelNum)
  {
    P2pCountIsSize(list);
  }

  ghost predicate TableInv(cfg: Config, table: Table) {
    forall id :: id in table ==> ListInv(cfg, table[id])
  }

  /** The first route whose round-trip time is known. */
  function FirstMeasured(list: seq<Entry>): (r: Option<Route>)
    ensures r.None? <==> forall i :: 0 <= i < |list| ==> list[i].route.rt == DEFAULT_RT
    ensures r.Some? ==>
      exists i :: 0 <= i < |list| && r.value == list[i].route && r.value.rt != 9999
               && forall j :: 0 <= j < i ==> list[j].route.rt == 9999
  {
    if list == [] then None
    else if list[0].route.rt != DEFAULT_RT then Some(list[0].route)
    else FirstMeasured(list[1..])
  }

  class RouteTable {
    const cfg: Config
    var table: Table

    ghost predicate Valid()
      reads this
    {
      cfg.Valid() && TableInv(cfg, table)
    }

    constructor (cfg: Config)
      requires cfg.Valid()
      ensures Valid() && table == map[] && this.cfg == cfg
    {
      this.cfg := cfg;
      table := map[];
    }

    /** The read-locked half of adding an absent route. */
    method CheckAbsent(id: Ipv4Addr, route: Route) returns (answer: Option<bool>)
      ensures answer == Checked(cfg, ListOf(table, id), route)
    {
      if id in table {
        var list, p2pNum := table[id], 0;
        for i := 0 to |list|
          invariant forall j :: 0 <= j < i ==> list[j].route.Key() != route.Key()
          invariant p2pNum == P2pCount(list[..i])
        {
          assert list[..i + 1][..i] == list[..i];
          if list[i].route.IsP2p() {
            p2pNum := p2pNum + 1;
          }
          if list[i].route.Key() == route.Key() {
            return Some(true);
          }
        }
        assert list[..|list|] == list;
        if !cfg.firstLatency && p2pNum >= cfg.channelNum && list != [] {
          return Some(false);
        }
      }
      return None;
    }

    /** Cuts a sorted list in place; see `Truncated` for what survives. */
    method Truncate(input: seq<Entry>, len: nat) returns (list: seq<Entry>)
      requires len >= 1
      ensures list == Truncated(cfg.firstLatency, input, len)
    {
      list := input;
      if |list| <= len {
        return;
      }
      if cfg.firstLatency {
        var index := 0;
        while index < |list| && !list[index].route.IsP2p()
          invariant index <= FirstP2p(list)
        {
          index := index + 1;
        }
        if index < |list| && index >= len {
          var kept := list[index];
          list := list[..index] + list[index + 1..];
          list := list[..len - 1];
          list := list + [kept];
          return;
        }
      }
      list := list[..len];
    }

    /** Sorts a list, and truncates it once every route has been measured. */
    method Reorder(input: seq<Entry>) returns (list: seq<Entry>)
      requires cfg.Valid()
      ensures list == if AllMeasured(SortByRt(input)) then Truncated(cfg.firstLatency, SortByRt(input), cfg.UpdateLimit())
                      else SortByRt(input)
    {
      list := SortByRt(input);
      for i := 0 to |list|
        invariant forall j :: 0 <= j < i ==> list[j].route.rt != DEFAULT_RT
      {
        if list[i].route.rt == DEFAULT_RT {
          return;
        }
      }
      list := Truncate(list, if cfg.firstLatency then cfg.channelNum + 2 else cfg.channelNum);
    }

    /** What an add does to the list of the peer, which it holds a mutable borrow of. */
    method AddToList(input: seq<Entry>, route: Route, onlyIfAbsent: bool, now: int)
      returns (list: seq<Entry>, added: bool)
      requires cfg.Valid()
      ensures (list, added) == Added(cfg, input, route, onlyIfAbsent, now)
    {
      list := input;
      var exist := false;
      for i := 0 to |list|
        invariant list == input && !exist && i <= FirstStop(cfg, input, route)
      {
        if list[i].route.metric < route.metric && !cfg.firstLatency {
          return list, false;
        }
        if list[i].route.Key() == route.Key() {
          if onlyIfAbsent {
            return list, true;
          }
          list := list[i := Entry(list[i].route.(metric := route.metric, rt := route.rt), now)];
          exist := true;
          assert i == FirstStop(cfg, input, route) && list == Refreshed(input, i, route, now);
          break;
        }
      }
      if exist {
        list := Reorder(list);
      } else {
        if !cfg.firstLatency {
          if route.IsP2p() {
            list := Retained(list, KeepP2p());
          }
          if cfg.channelNum <= |list| {
            return list, false;
          }
        }
        list := SortByRt(list);
        list := Truncate(list, cfg.channelNum * 2);
        list := list + [Entry(route, now)];
      }
      return list, true;
    }

    /** The write-locked half of an add. */
    method AddLocked(id: Ipv4Addr, route: Route, onlyIfAbsent: bool, now: int) returns (added: bool)
      requires Valid() && cfg.Admits(route)
      modifies this`table
      ensures Valid()
      ensures table == WithAdded(cfg, old(table), id, route, onlyIfAbsent, now)
      ensures added == Added(cfg, ListOf(old(table), id), route, onlyIfAbsent, now).1
    {
      AddKeepsInvariant(cfg, ListOf(table, id), route, onlyIfAbsent, now);
      var list := if id in table then table[id] else [];
      list, added := AddToList(list, route, onlyIfAbsent, now);
      table := table[id := list];
    }

    method AddRoute(id: Ipv4Addr, route: Route, now: int) returns (added: bool)
      requires Valid()
      modifies this`table
      ensures Valid()
      ensures cfg.channelType == P2p && route.metric != 1 ==> !added && table == old(table)
      ensures cfg.channelType != P2p || route.metric == 1 ==>
                && table == WithAdded(cfg, old(table), id, route, false, now)
                && added == Added(cfg, ListOf(old(table), id), route, false, now).1
      ensures table == Next(cfg, System(old(table), multiset{}), Add(id, route, now)).table
    {
      if cfg.channelType == P2p && !route.IsP2p() {
        return false;
      }
      added := AddLocked(id, route, false, now);
    }

    /** Both halves with nothing in between. */
    method AddRouteIfAbsent(id: Ipv4Addr, route: Route, now: int) returns (added: bool)
      requires Valid()
      modifies this`table
      ensures Valid()
      ensures cfg.channelType == P2p && route.metric != 1 ==> !added && table == old(table)
      ensures cfg.channelType != P2p || route.metric == 1 ==>
                match Checked(cfg, ListOf(old(table), id), route)
                case Some(answer) => added == answer && table == old(table)
                case None =>
                  && table == WithAdded(cfg, old(table), id, route, true, now)
                  && added == Added(cfg, ListOf(old(table), id), route, true, now).1
      ensures table == Next(cfg, Next(cfg, System(old(table), multiset{}), Check(id, route)), Write(id, route, now)).table
    {
      CheckThenWrite(cfg, System(table, multiset{}), id, route, now);
      if cfg.channelType == P2p && !route.IsP2p() {
        return false;
      }
      var answer := CheckAbsent(id, route);
      if answer.Some? {
        return answer.value;
      }
      added := AddLocked(id, route, true, now);
    }

    method RemoveRoute(id: Ipv4Addr, key: RouteKey)
      requires Valid()
      modifies this`table
      ensures Valid()
      ensures table == WithRemoved(old(table), id, key)
      ensures table == Next(cfg, System(old(table), multiset{}), Remove(id, key)).table
    {
      if id in table {
        RetainKeepsInvariant(cfg, table[id], KeepAllBut(key));
        var routes := Retained(table[id], KeepAllBut(key));
        table := table[id := routes];
        if routes == [] {
          table := table - {id};
        }
      }
    }

    method UpdateReadTime(id: Ipv4Addr, key: RouteKey, now: int)
      requires Valid()
      modifies this`table
      ensures Valid()
      ensures table == WithTouched(old(table), id, key, now)
      ensures table == Next(cfg, System(old(table), multiset{}), Touch(id, key, now)).table
    {
      if id in table {
        TouchKeepsInvariant(cfg, table[id], key, now);
        for i := 0 to |table[id]|
          invariant table == old(table) && i <= FirstWithKey(table[id], key)
        {
          if table[id][i].route.Key() == key {
            table := table[id := table[id][i := table[id][i].(readTime := now)]];
            return;
          }
        }
      }
    }

    /** The first route: the fastest one, but for a route added since the last update. */
    method RouteOne(id: Ipv4Addr) returns (route: Option<Route>)
      requires Valid()
      ensures route.Some? <==> id in table
      ensures route.Some? ==>
                && route.value == table[id][0].route
                && forall i :: 0 <= i < |table[id]| - 1 ==> route.value.rt <= table[id][i].route.rt
    {
      if id in table {
        return Some(table[id][0].route);
      }
      return None;
    }

    /** The route to send packet number `index` on: a measured one whenever there is one, unless
        latency comes first. */
    method GetRouteById(index: nat, id: Ipv4Addr) returns (route: Option<Route>)
      requires Valid()
      ensures route.Some? ==> exists i :: 0 <= i < |ListOf(table, id)| && ListOf(table, id)[i].route == route.value
      ensures cfg.firstLatency ==> (route.Some? <==> id in table)
      ensures cfg.firstLatency && route.Some? ==>
                && route.value == table[id][0].route
                && forall i :: 0 <= i < |table[id]| - 1 ==> route.value.rt <= table[id][i].route.rt
      ensures !cfg.firstLatency ==>
                (route.Some? <==> exists i :: 0 <= i < |ListOf(table, id)| && ListOf(table, id)[i].route.rt != DEFAULT_RT)
      ensures !cfg.firstLatency && route.Some? ==> route.value.rt != DEFAULT_RT
      ensures !cfg.firstLatency && id in table && table[id][index % |table[id]|].route.rt != DEFAULT_RT ==>
                route == Some(table[id][index % |table[id]|].route)
      ensures !cfg.firstLatency && id in table && table[id][index % |table[id]|].route.rt == DEFAULT_RT ==>
                route == FirstMeasured(table[id])
    {
      if id in table {
        var v := table[id];
        if cfg.firstLatency {
          assert ListOf(table, id)[0].route == v[0].route;
          return Some(v[0].route);
        }
        var at := index % |v|;
        var chosen := v[at].route;
        assert ListOf(table, id)[at].route == chosen;
        if chosen.rt != DEFAULT_RT {
          return Some(chosen);
        }
        for i := 0 to |v|
          invariant forall j :: 0 <= j < i ==> v[j].route.rt == DEFAULT_RT
          invariant FirstMeasured(v) == FirstMeasured(v[i..])
        {
          assert v[i..][1..] == v[i + 1..];
          if v[i].route.rt != DEFAULT_RT {
            return Some(v[i].route);
          }
        }
      }
      return None;
    }
  }

  lemma TouchKeepsInvariant(cfg: Config, list: seq<Entry>, key: RouteKey, now: int)
    requires ListInv(cfg, list)
    ensures ListInv(cfg, Touched(list, key, now))
  {
  }

  // ----- runs

  /** One atomic operation on the table.  `Check` and `Write` are the halves of an add-if-absent. */
  datatype Event =
    | Add(id: Ipv4Addr, route: Route, now: int)
    | Check(id: Ipv4Addr, route: Route)
    | Write(id: Ipv4Addr, route: Route, now: int)
    | Remove(id: Ipv4Addr, key: RouteKey)
    | Touch(id: Ipv4Addr, key: RouteKey, now: int)

  /** The table, and the threads that are between a check and the write it calls for. */
  datatype System = System(table: Table, pending: multiset<(Ipv4Addr, Route)>)

  function Next(cfg: Config, s: System, e: Event): System
    requires cfg.Valid()
  {
    match e
    case Add(id, route, now) =>
      if !cfg.Admits(route) then s else s.(table := WithAdded(cfg, s.table, id, route, false, now))
    case Check(id, route) =>
      if cfg.Admits(route) && Checked(cfg, ListOf(s.table, id), route) == None
      then s.(pending := s.pending + multiset{(id, route)})
      else s
    case Write(id, route, now) =>
      if (id, route) !in s.pending then s
      else System(WithAdded(cfg, s.table, id, route, true, now), s.pending - multiset{(id, route)})
    case Remove(id, key) => s.(table := WithRemoved(s.table, id, key))
    case Touch(id, key, now) => s.(table := WithTouched(s.table, id, key, now))
  }

  function Run(cfg: Config, s: System, events: seq<Event>): System
    requires cfg.Valid()
    decreases |events|
  {
    if events == [] then s else Run(cfg, Next(cfg, s, events[0]), events[1..])
  }

  /** A write follows its check, if the check called for it; no other write changes anything. */
  lemma CheckThenWrite(cfg: Config, s: System, id: Ipv4Addr, route: Route, now: int)
    requires cfg.Valid()
    ensures (id, route) !in s.pending ==> Next(cfg, s, Write(id, route, now)) == s
    ensures (id, route) !in s.pending ==>
      Next(cfg, Next(cfg, s, Check(id, route)), Write(id, route, now))
      == if (cfg.channelType == P2p && route.metric != 1) || Checked(cfg, ListOf(s.table, id), route).Some? then s
         else s.(table := WithAdded(cfg, s.table, id, route, true, now))
  {
    if (id, route) !in s.pending {
      assert s.pending + multiset{(id, route)} - multiset{(id, route)} == s.pending;
    }
  }

  ghost predicate SystemInv(cfg: Config, s: System) {
    && TableInv(cfg, s.table)
    && forall p :: p in s.pending ==> cfg.Admits(p.1)
  }

  lemma NextKeepsInvariant(cfg: Config, s: System, e: Event)
    requires cfg.Valid() && SystemInv(cfg, s)
    ensures SystemInv(cfg, Next(cfg, s, e))
  {
    match e
    case Add(id, route, now) =>
      if cfg.Admits(route) {
        AddKeepsInvariant(cfg, ListOf(s.table, id), route, false, now);
      }
    case Write(id, route, now) =>
      if (id, route) in s.pending {
        AddKeepsInvariant(cfg, ListOf(s.table, id), route, true, now);
      }
    case Remove(id, key) =>
      if id in s.table {
        RetainKeepsInvariant(cfg, s.table[id], KeepAllBut(key));
      }
    case Touch(id, key, now) =>
      if id in s.table {
        TouchKeepsInvariant(cfg, s.table[id], key, now);
      }
    case Check(id, route) =>
  }

  /** Whatever the interleaving, every stored list is non-empty, within its length limit, free of
      duplicate keys, sorted but for its last entry, and all peer-to-peer if the engine is. */
  lemma {:induction false} RunKeepsInvariant(cfg: Config, s: System, events: seq<Event>)
    requires cfg.Valid() && SystemInv(cfg, s)
    ensures SystemInv(cfg, Run(cfg, s, events))
    decreases |events|
  {
    if events != [] {
      NextKeepsInvariant(cfg, s, events[0]);
      RunKeepsInvariant(cfg, Next(cfg, s, events[0]), events[1..]);
    }
  }

  lemma EveryReachableTable(cfg: Config, events: seq<Event>)
    requires cfg.Valid()
    ensures TableInv(cfg, Run(cfg, System(map[], multiset{}), events).table)
  {
    RunKeepsInvariant(cfg, System(map[], multiset{}), events);
  }

  lemma NoWorseIsTransitive(a: seq<Entry>, b: seq<Entry>, c: seq<Entry>)
    requires NoWorse(a, b) && NoWorse(b, c)
    ensures NoWorse(a, c)
  {
    forall i | 0 <= i < |a| ensures Within(c, a[i].route.metric) {
      var j :| 0 <= j < |b| && b[j].route.metric <= a[i].route.metric;
      assert Within(c, b[j].route.metric);
    }
  }

  lemma NextNeverWorsens(cfg: Config, s: System, e: Event, id: Ipv4Addr)
    requires cfg.Valid() && !cfg.firstLatency && SystemInv(cfg, s)
    requires e.Remove? ==> e.id != id
    ensures NoWorse(ListOf(s.table, id), ListOf(Next(cfg, s, e).table, id))
  {
    var old_, new_ := ListOf(s.table, id), ListOf(Next(cfg, s, e).table, id);
    if new_ == old_ || e.Touch? {
      SameRoutesNoWorse(old_, new_);
    } else {
      OnlyAddsChange(cfg, s, e, id);
      AddNeverWorsens(cfg, old_, e.route, e.Write?, e.now);
    }
  }

  lemma OnlyAddsChange(cfg: Config, s: System, e: Event, id: Ipv4Addr)
    requires cfg.Valid() && !e.Touch? && (e.Remove? ==> e.id != id)
    requires ListOf(Next(cfg, s, e).table, id) != ListOf(s.table, id)
    ensures (e.Add? || e.Write?) && e.id == id
    ensures ListOf(Next(cfg, s, e).table, id) == Added(cfg, ListOf(s.table, id), e.route, e.Write?, e.now).0
  {
  }

  lemma SameRoutesNoWorse(a: seq<Entry>, b: seq<Entry>)
    requires |a| == |b| && forall i :: 0 <= i < |a| ==> b[i].route == a[i].route
    ensures NoWorse(a, b)
  {
    forall i | 0 <= i < |a| ensures Within(b, a[i].route.metric) {
      assert b[i].route == a[i].route;
    }
  }

  /** Unless latency comes first, the best hop count known for a peer gets no worse as long as no
      route to that peer is removed. */
  lemma {:induction false} BestHopCountNeverWorsens(cfg: Config, s: System, events: seq<Event>, id: Ipv4Addr)
    requires cfg.Valid() && !cfg.firstLatency && SystemInv(cfg, s)
    requires forall k :: 0 <= k < |events| && events[k].Remove? ==> events[k].id != id
    ensures NoWorse(ListOf(s.table, id), ListOf(Run(cfg, s, events).table, id))
    decreases |events|
  {
    if events == [] {
      var list := ListOf(s.table, id);
      forall i | 0 <= i < |list| ensures Within(list, list[i].route.metric) {
        assert list[i].route.metric <= list[i].route.metric;
      }
    } else {
      var s' := Next(cfg, s, events[0]);
      NextKeepsInvariant(cfg, s, events[0]);
      NextNeverWorsens(cfg, s, events[0], id);
      BestHopCountNeverWorsens(cfg, s', events[1..], id);
      NoWorseIsTransitive(ListOf(s.table, id), ListOf(s'.table, id), ListOf(Run(cfg, s', events[1..]).table, id));
    }
  }
}
