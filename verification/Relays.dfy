/**
Passing packets on.  A node drops a stale packet, keeps one for itself, and relays any other one over
its first route to the destination as long as the packet can still reach it.
*/
module Relays {
  import opened Wrappers
  import opened Net
  import opened Packets
  import opened NetPackets
  import opened RouteLists
  import opened RouteTables
  import opened Ciphers

  const BROADCAST := Ipv4Addr(255, 255, 255, 255)
  const UNSPECIFIED := Ipv4Addr(0, 0, 0, 0)
  const SELF_IP := Ipv4Addr(0, 0, 0, 2)

  predicate IsMulticast(ip: Ipv4Addr) {
    224 <= ip.o0 < 240
  }

  datatype Device = Device(virtualIp: Ipv4Addr, broadcastIp: Ipv4Addr) {
    /** Whether a packet for this address stays here. */
    predicate Keeps(ip: Ipv4Addr) {
      || ip == virtualIp || ip == broadcastIp || ip == BROADCAST || ip == SELF_IP || ip == UNSPECIFIED
      || IsMulticast(ip)
    }
  }

  datatype Action = Drop | Deliver | Forward(packet: Packet, route: RouteKey)

  /** A node as a packet finds it: its table at that moment, and the address the packet came from. */
  datatype Visit = Visit(device: Device, table: Table, from: SocketAddr)

  function FirstRoute(table: Table, id: Ipv4Addr): Option<Route> {
    var list := ListOf(table, id);
    if list == [] then None else Some(list[0].route)
  }

  predicate Fresh(p: Packet) {
    0 < Ttl(p) <= SourceTtl(p)
  }

  /** The route a relay passes the packet on to, which has lost one hop here. */
  function NextHop(table: Table, from: SocketAddr, p: Packet): Option<Route> {
    var route, ttl := FirstRoute(table, Destination(p)), Lessened(Ttl(p));
    if ttl == 0 || HasFlag(p, GATEWAY) || route == None || route.value.addr == from || route.value.metric > ttl
    then None else route
  }

  function Handled(v: Visit, p: Packet): Action {
    if !Fresh(p) then Drop
    else if v.device.Keeps(Destination(p)) then Deliver
    else
      var next := NextHop(v.table, v.from, p);
      if next.None? then Drop else Forward(WithTtl(p, Ttl(p) - 1), next.value.Key())
  }

  // ----- the handlers

  /** The relay, which takes one from the TTL whatever it is. */
  method Turn(p: NetPacket, from: SocketAddr, routes: RouteTable) returns (action: Action)
    requires p.Valid() && routes.Valid()
    modifies p.buffer
    ensures p.View() == WithTtl(old(p.View()), Lessened(Ttl(old(p.View()))) % 0x10)
    ensures var next := NextHop(routes.table, from, old(p.View()));
            action == if next.None? then Drop else Forward(p.View(), next.value.Key())
  {
    KeepsRest(p.View(), Lessened(Ttl(p.View())) % 0x10);
    var ttl := p.IncrTtl();
    action := Drop;
    if ttl > 0 {
      if HasFlag(p.View(), GATEWAY) {
        return;
      }
      var route := routes.RouteOne(Destination(p.View()));
      if route.Some? {
        if route.value.addr == from {
          return;
        }
        if route.value.metric <= ttl {
          action := Forward(p.View(), route.value.Key());
        }
      }
    }
  }

  lemma KeepsRest(p: Packet, ttl: byte)
    requires ttl <= MAX_TTL
    ensures var q := WithTtl(p, ttl);
      Destination(q) == Destination(p) && HasFlag(q, GATEWAY) == HasFlag(p, GATEWAY) && SourceTtl(q) == SourceTtl(p)
  {
  }

  method Handle(device: Device, p: NetPacket, from: SocketAddr, routes: RouteTable) returns (action: Action)
    requires p.Valid() && routes.Valid()
    modifies p.buffer
    ensures action == Handled(Visit(device, routes.table, from), old(p.View()))
    ensures action.Forward? ==> action.packet == p.View()
    ensures action.Deliver? ==> p.View() == old(p.View())
  {
    if Ttl(p.View()) == 0 || SourceTtl(p.View()) < Ttl(p.View()) {
      return Drop;
    }
    if device.Keeps(Destination(p.View())) {
      return Deliver;
    }
    action := Turn(p, from, routes);
  }

  // ----- trips

  datatype End = InFlight | Dropped | Arrived

  /** Where a packet got, how often it was forwarded, and what it looks like now. */
  datatype Outcome = Outcome(packet: Packet, forwards: nat, end: End)

  /** A packet on its way through any sequence of nodes: nothing is assumed of the topology, the tables
      or how they change while the packet travels. */
  function Trip(p: Packet, visits: seq<Visit>): Outcome
    decreases |visits|
  {
    if visits == [] then Outcome(p, 0, InFlight)
    else
      match Handled(visits[0], p)
      case Drop => Outcome(p, 0, Dropped)
      case Deliver => Outcome(p, 0, Arrived)
      case Forward(q, _) =>
        var rest := Trip(q, visits[1..]);
        rest.(forwards := rest.forwards + 1)
  }

  lemma WithTtlTwice(p: Packet, a: byte, b: byte)
    requires a <= MAX_TTL && b <= MAX_TTL
    ensures WithTtl(WithTtl(p, a), b) == WithTtl(p, b)
    ensures WithTtl(p, Ttl(p)) == p
  {
  }

  /** On any trip a packet loses exactly one hop per relay and nothing else, and is forwarded fewer
      times than its TTL said. */
  lemma {:induction false} TripLosesHops(p: Packet, visits: seq<Visit>)
    requires Fresh(p)
    ensures var o := Trip(p, visits); o.forwards < Ttl(p) && o.packet == WithTtl(p, Ttl(p) - o.forwards)
    decreases |visits|
  {
    WithTtlTwice(p, 0, 0);
    if visits != [] && Handled(visits[0], p).Forward? {
      var q := Handled(visits[0], p).packet;
      KeepsRest(p, Ttl(p) - 1);
      TripLosesHops(q, visits[1..]);
      WithTtlTwice(p, Ttl(p) - 1, Ttl(q) - Trip(q, visits[1..]).forwards);
    }
  }

  /** A packet first sent with TTL t is forwarded at most t - 1 times, the distance between its first
      and its remaining TTL is the number of relays crossed, and the rest of it is as it was. */
  lemma HopsAreBounded(p: Packet, visits: seq<Visit>)
    requires Ttl(p) == SourceTtl(p) > 0
    ensures var o := Trip(p, visits);
      && o.forwards <= Ttl(p) - 1
      && SourceTtl(o.packet) - Ttl(o.packet) == o.forwards
      && Fresh(o.packet)
      && o.packet == Relayed(p, Ttl(p) - o.forwards)
  {
    TripLosesHops(p, visits);
  }

  /** The packets that get to the relay of some node on a trip. */
  function Turned(p: Packet, visits: seq<Visit>): seq<Packet>
    decreases |visits|
  {
    if visits == [] || !Fresh(p) || visits[0].device.Keeps(Destination(p)) then []
    else
      match Handled(visits[0], p)
      case Forward(q, _) => [p] + Turned(q, visits[1..])
      case _ => [p]
  }

  /** No relay ever takes a hop from a packet that has none left, whatever its TTLs when it started. */
  lemma {:induction false} TtlNeverUnderflows(p: Packet, visits: seq<Visit>, q: Packet)
    requires q in Turned(p, visits)
    ensures Ttl(q) > 0 && Lessened(Ttl(q)) == Ttl(q) - 1
    decreases |visits|
  {
    if q != p {
      TtlNeverUnderflows(Handled(visits[0], p).packet, visits[1..], q);
    }
  }

  // ----- which packets arrive

  /** The packet gets past its i-th node. */
  predicate Passes(p: Packet, v: Visit, i: nat) {
    && !v.device.Keeps(Destination(p))
    && !HasFlag(p, GATEWAY)
    && var route := FirstRoute(v.table, Destination(p));
       route.Some? && route.value.addr != v.from && route.value.metric <= Ttl(p) - 1 - i
  }

  /** A packet arrives after d relays exactly if it passes the first d nodes, the next one keeps it,
      and there were more than d hops to spend. */
  lemma {:induction false} ArrivesExactly(p: Packet, visits: seq<Visit>, d: nat)
    requires Fresh(p)
    ensures Trip(p, visits).end == Arrived && Trip(p, visits).forwards == d
      <==> && d < |visits| && d < Ttl(p)
           && (forall i :: 0 <= i < d ==> Passes(p, visits[i], i))
           && visits[d].device.Keeps(Destination(p))
    decreases d
  {
    if visits != [] && d > 0 && Handled(visits[0], p).Forward? {
      var q := Handled(visits[0], p).packet;
      KeepsRest(p, Ttl(p) - 1);
      ArrivesExactly(q, visits[1..], d - 1);
      PassesOneOn(p, visits, d);
      assert Passes(p, visits[0], 0);
    }
  }

  lemma PassesOneOn(p: Packet, visits: seq<Visit>, d: nat)
    requires visits != [] && Ttl(p) > 0 && 0 < d
    ensures var q := WithTtl(p, Ttl(p) - 1);
            (forall i :: 1 <= i < d && i < |visits| ==> Passes(p, visits[i], i))
            <==> (forall i :: 0 <= i < d - 1 && i < |visits| - 1 ==> Passes(q, visits[1..][i], i))
  {
    var q := WithTtl(p, Ttl(p) - 1);
    KeepsRest(p, Ttl(p) - 1);
    forall i | 1 <= i < |visits| ensures Passes(p, visits[i], i) == Passes(q, visits[1..][i - 1], i - 1) {
    }
    forall i | 0 <= i < |visits| - 1 ensures Passes(q, visits[1..][i], i) == Passes(p, visits[i + 1], i + 1) {
    }
  }

  /** The device is the destination itself, or everybody is. */
  predicate IsFor(device: Device, dst: Ipv4Addr) {
    || dst == device.virtualIp || dst == device.broadcastIp || dst == Ipv4Addr(255, 255, 255, 255)
    || dst == Ipv4Addr(0, 0, 0, 2) || dst == Ipv4Addr(0, 0, 0, 0) || 224 <= dst.o0 <= 239
  }

  /** The first route of a node to `dst` does not lead back, and takes no more hops than there are left. */
  predicate Reaches(v: Visit, dst: Ipv4Addr, hops: int) {
    && dst in v.table && v.table[dst] != []
    && v.table[dst][0].route.addr != v.from && v.table[dst][0].route.metric <= hops
  }

  /** What a node does with a packet: it drops a stale one, keeps one for itself, and passes any other one
      on by its first route to the address in bytes 8 to 11, exactly if that route can be used and the
      packet is not one for the server. */
  lemma HandledExactly(v: Visit, p: Packet, dst: Ipv4Addr)
    requires p[8..12] == Octets(dst)
    ensures var ttl, first := p[3] % 0x10, p[3] / 0x10;
            var current, passes := 0 < ttl <= first, p[0] / 0x40 % 2 == 0 && ttl > 1 && Reaches(v, dst, ttl - 1);
      && (Handled(v, p).Deliver? <==> current && IsFor(v.device, dst))
      && (Handled(v, p).Forward? <==> current && !IsFor(v.device, dst) && passes)
      && (Handled(v, p).Forward? ==>
            && Handled(v, p).route == v.table[dst][0].route.Key()
            && Handled(v, p).packet == p[3 := first * 0x10 + (ttl - 1)])
  {
    SameOctets(Destination(p), dst);
  }

  /** A packet for `dst` arrives after d relays exactly if node d is the one it is for, the nodes before it
      are not but can reach it, and there were more than d hops to spend. */
  lemma ArrivesAt(p: Packet, dst: Ipv4Addr, visits: seq<Visit>, d: nat)
    requires p[8..12] == Octets(dst) && 0 < p[3] % 0x10 <= p[3] / 0x10
    ensures Trip(p, visits).end == Arrived && Trip(p, visits).forwards == d
      <==> && d < |visits| && d < p[3] % 0x10
           && IsFor(visits[d].device, dst)
           && (forall i :: 0 <= i < d ==>
                 && !IsFor(visits[i].device, dst) && Reaches(visits[i], dst, p[3] % 0x10 - 1 - i)
                 && p[0] / 0x40 % 2 == 0)
  {
    SameOctets(Destination(p), dst);
    ArrivesExactly(p, visits, d);
    forall i | 0 <= i < |visits|
      ensures Passes(p, visits[i], i)
        <==> !IsFor(visits[i].device, dst) && Reaches(visits[i], dst, p[3] % 0x10 - 1 - i) && p[0] / 0x40 % 2 == 0
    {
    }
  }

  // ----- the bound is met

  function Chain(p: Packet, n: nat): (visits: seq<Visit>)
    ensures |visits| == n
  {
    seq(n, i => Visit(Device(UNSPECIFIED, UNSPECIFIED),
                      map[Destination(p) := [Entry(Route(UDP, 0, V4(UNSPECIFIED, 1), 1, 0), 0)]],
                      V4(UNSPECIFIED, 0)))
  }

  lemma {:induction false} BoundIsMet(p: Packet, n: nat)
    requires Fresh(p) && n >= Ttl(p) - 1 && !HasFlag(p, GATEWAY)
    requires !Device(UNSPECIFIED, UNSPECIFIED).Keeps(Destination(p))
    ensures Trip(p, Chain(p, n)).forwards == Ttl(p) - 1
    decreases n
  {
    if Ttl(p) > 1 {
      var q := WithTtl(p, Ttl(p) - 1);
      KeepsRest(p, Ttl(p) - 1);
      assert Chain(p, n)[1..] == Chain(q, n - 1);
      BoundIsMet(q, n - 1);
    } else {
      TripLosesHops(p, Chain(p, n));
    }
  }
}
