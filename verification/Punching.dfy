/**
Guessing the port of a peer behind a symmetric NAT: every call sends to the next stretch of a shuffled
list of all ports and remembers per peer where to go on.
*/
module Punching {
  import opened Wrappers
  import opened Net

  const PORTS := 65535
  /** No call is limited to fewer sends than this. */
  const MAX_K1 := 60

  type Pair = (u16, Ipv4Addr)

  // ----- one call

  function Row(port: u16, ips: seq<Ipv4Addr>): (r: seq<Pair>)
    ensures |r| == |ips|
  {
    seq(|ips|, k requires 0 <= k < |ips| => (port, ips[k]))
  }

  /** Every port with every address, one port after the other. */
  function Pairs(ports: seq<u16>, ips: seq<Ipv4Addr>): seq<Pair> {
    if ports == [] then [] else Row(ports[0], ips) + Pairs(ports[1..], ips)
  }

  /** What a call sends, and how many ports it gets done: it stops short of send number `max`; 0 is no
      limit. */
  function Sweep(ports: seq<u16>, ips: seq<Ipv4Addr>, max: nat): (r: (seq<Pair>, nat))
    ensures r.1 <= |ports|
  {
    if ports == [] then ([], 0)
    else if 0 < max <= |ips| then (Row(ports[0], ips)[..max - 1], 0)
    else
      Behind(Row(ports[0], ips), 1, Sweep(ports[1..], ips, if max == 0 then 0 else max - |ips|))
  }

  function Behind(sent: seq<Pair>, done: nat, r: (seq<Pair>, nat)): (seq<Pair>, nat) {
    (sent + r.0, done + r.1)
  }

  lemma BehindRow(sent: seq<Pair>, done: nat, row: seq<Pair>, r: (seq<Pair>, nat))
    ensures Behind(sent, done, Behind(row, 1, r)) == Behind(sent + row, done + 1, r)
  {
    assert sent + (row + r.0) == (sent + row) + r.0;
  }

  /** The loops; sends after the first `sendable` ones fail, and the first to fail ends the call. */
  method PunchSymmetric(ports: seq<u16>, ips: seq<Ipv4Addr>, max: nat, sendable: nat)
    returns (index: Option<nat>, sent: seq<Pair>)
    ensures var (all, done) := Sweep(ports, ips, max);
            if |all| <= sendable then index == Some(done) && sent == all
            else index == None && sent == all[..sendable]
  {
    var count: nat := 0;
    sent := [];
    ghost var left := max;
    assert ports[0..] == ports && [] + Sweep(ports, ips, max).0 == Sweep(ports, ips, max).0;
    for i := 0 to |ports|
      invariant count == |sent| <= sendable && (max > 0 ==> left == max - count > 0) && (max == 0 ==> left == 0)
      invariant Sweep(ports, ips, max) == Behind(sent, i, Sweep(ports[i..], ips, left))
    {
      ghost var before, rest := sent, ports[i + 1..];
      assert ports[i..][0] == ports[i] && ports[i..][1..] == rest;
      for k := 0 to |ips|
        invariant count == |sent| == |before| + k <= sendable && (max > 0 ==> count < max)
        invariant sent == before + Row(ports[i], ips)[..k]
      {
        count := count + 1;
        if count == max {
          return Some(i), sent;
        }
        if |sent| == sendable {
          assert sent <= Sweep(ports, ips, max).0;
          return None, sent;
        }
        sent := sent + [(ports[i], ips[k])];
      }
      assert Row(ports[i], ips)[..|ips|] == Row(ports[i], ips);
      BehindRow(before, i, Row(ports[i], ips), Sweep(rest, ips, if max == 0 then 0 else left - |ips|));
      left := if max == 0 then 0 else left - |ips|;
    }
    assert sent + [] == sent && ports[|ports|..] == [];
    return Some(|ports|), sent;
  }

  function Min(a: nat, b: nat): nat {
    if a < b then a else b
  }

  /** A call sends the first pairs there are, one less than its limit if there are enough. */
  lemma {:induction false} SweepIsPrefix(ports: seq<u16>, ips: seq<Ipv4Addr>, max: nat)
    ensures var sent := Sweep(ports, ips, max).0;
            && |sent| == (if max == 0 then |Pairs(ports, ips)| else Min(max - 1, |Pairs(ports, ips)|))
            && sent == Pairs(ports, ips)[..|sent|]
  {
    if ports != [] && !(0 < max <= |ips|) {
      var row, rest := Row(ports[0], ips), if max == 0 then 0 else max - |ips|;
      SweepIsPrefix(ports[1..], ips, rest);
      var s, all := Sweep(ports[1..], ips, rest).0, Pairs(ports[1..], ips);
      assert (row + all)[..|row + s|] == row + all[..|s|];
    } else if ports != [] {
      assert (Row(ports[0], ips) + Pairs(ports[1..], ips))[..max - 1] == Row(ports[0], ips)[..max - 1];
    }
  }

  lemma {:induction false} PairsAppend(a: seq<u16>, b: seq<u16>, ips: seq<Ipv4Addr>)
    ensures Pairs(a + b, ips) == Pairs(a, ips) + Pairs(b, ips)
  {
    if a == [] {
      assert a + b == b;
    } else {
      assert (a + b)[1..] == a[1..] + b;
      PairsAppend(a[1..], b, ips);
    }
  }

  /** The pairs are all there are: port by port, each with every address in order. */
  lemma {:induction false} PairsExactly(ports: seq<u16>, ips: seq<Ipv4Addr>, port: u16, ip: Ipv4Addr)
    ensures (port, ip) in Pairs(ports, ips) <==> port in ports && ip in ips
    ensures Pairs([port], ips) == Row(port, ips)
    ensures forall k :: 0 <= k < |ips| ==> Row(port, ips)[k] == (port, ips[k])
  {
    assert [port][1..] == [] && Row(port, ips) + [] == Row(port, ips);
    if ports != [] {
      PairsExactly(ports[1..], ips, port, ip);
      if (port, ip) in Row(ports[0], ips) {
        var k :| 0 <= k < |ips| && Row(ports[0], ips)[k] == (port, ip);
      }
      if port == ports[0] && ip in ips {
        var k :| 0 <= k < |ips| && ips[k] == ip;
        assert Row(ports[0], ips)[k] == (port, ip);
      }
    }
  }

  /** A call gets exactly those ports done whose sends all come before number `max`, and all without a
      limit. */
  lemma {:induction false} DoneExactly(ports: seq<u16>, ips: seq<Ipv4Addr>, max: nat)
    ensures var done := Sweep(ports, ips, max).1;
            if max == 0 then done == |ports|
            else
              && |Pairs(ports[..done], ips)| < max
              && (done < |ports| ==> max <= |Pairs(ports[..done + 1], ips)|)
  {
    if ports != [] {
      if 0 < max <= |ips| {
        PairsExactly(ports, ips, ports[0], Ipv4Addr(0, 0, 0, 0));
        assert ports[..1] == [ports[0]];
      } else {
        var left := if max == 0 then 0 else max - |ips|;
        var done := Sweep(ports[1..], ips, left).1;
        DoneExactly(ports[1..], ips, left);
        assert ports[..done + 1][0] == ports[0] && ports[..done + 1][1..] == ports[1..][..done];
        if done + 1 < |ports| {
          assert ports[..done + 2][0] == ports[0] && ports[..done + 2][1..] == ports[1..][..done + 1];
        }
      }
    }
  }

  /** A port that counts as done has been tried at every address. */
  lemma {:induction false} DoneIsSent(ports: seq<u16>, ips: seq<Ipv4Addr>, max: nat, i: nat, ip: Ipv4Addr)
    requires i < Sweep(ports, ips, max).1 && ip in ips
    ensures (ports[i], ip) in Sweep(ports, ips, max).0
  {
    if i == 0 {
      var k :| 0 <= k < |ips| && ips[k] == ip;
      assert Row(ports[0], ips)[k] == (ports[0], ip);
    } else {
      DoneIsSent(ports[1..], ips, if max == 0 then 0 else max - |ips|, i - 1, ip);
    }
  }

  /** A call gets a port done exactly if its limit exceeds the number of addresses. */
  lemma GetsOnExactly(ports: seq<u16>, ips: seq<Ipv4Addr>, max: nat)
    requires ports != [] && max > 0
    ensures Sweep(ports, ips, max).1 > 0 <==> |ips| < max
  {
  }

  // ----- the peers

  ghost function AllPorts(): (r: seq<u16>)
    ensures |r| == PORTS && forall i :: 0 <= i < PORTS ==> r[i] == i + 1
  {
    seq(PORTS, i requires 0 <= i < PORTS => i + 1)
  }

  function Share(budget: nat, count: nat): nat
    requires count > 0
  {
    budget / count
  }

  function AtLeast(n: nat, min: nat): nat {
    if n > min then n else min
  }

  /** How many sends the `count`-th attempt at a peer may make, given a random number from 600 to 799. */
  function MaxK2(random: nat, count: nat): nat {
    if count > 2 then AtLeast(Share(random * 2, count), MAX_K1) else random
  }

  /** `max` sends in each of `count` attempts are within the budget, and one more in each would not be. */
  predicate Shares(max: nat, count: nat, budget: nat) {
    max * count <= budget < (max + 1) * count
  }

  lemma ShareRounds(budget: nat, count: nat)
    requires count > 0
    ensures Shares(Share(budget, count), count, budget)
  {
    assert budget == budget / count * count + budget % count;
  }

  lemma ThreeShares(share: nat, count: nat, budget: nat)
    requires count >= 3 && share * count <= budget
    ensures share * 3 <= budget
  {
    assert share * 3 <= share * count;
  }

  /** The first two attempts may use the whole number; from the third on, the attempts share twice the
      number, but never send less than the minimum. */
  lemma MaxK2Shares(random: nat, count: nat)
    requires 600 <= random < 800
    ensures 60 <= MaxK2(random, count) < 800
    ensures count <= 2 ==> MaxK2(random, count) == random
    ensures count > 2 ==>
      exists share: nat :: Shares(share, count, random * 2) && MaxK2(random, count) == if share > 60 then share else 60
  {
    if count > 2 {
      var share := Share(random * 2, count);
      ShareRounds(random * 2, count);
      ThreeShares(share, count, random * 2);
    }
  }

  /** The stretch of ports of a call. */
  function Stretch(ports: seq<u16>, start: nat, max: nat): seq<u16>
    requires start <= |ports|
  {
    ports[start..Min(start + max, |ports|)]
  }

  /** It has as many ports as the call may send, or all that are left. */
  lemma StretchExactly(ports: seq<u16>, start: nat, max: nat)
    requires start <= |ports|
    ensures var r := Stretch(ports, start, max);
            r <= ports[start..] && |r| <= max && (|r| < max ==> start + |r| == |ports|)
  {
  }

  /** Where the next call starts. */
  function NextIndex(ports: seq<u16>, ips: seq<Ipv4Addr>, start: nat, max: nat): (next: nat)
    requires start < |ports|
    ensures next < |ports|
  {
    var index := start + Sweep(Stretch(ports, start, max), ips, max).1;
    if index >= |ports| then 0 else index
  }

  class Punch {
    const portVec: seq<u16>
    var portIndex: map<Ipv4Addr, nat>

    /** Every index points to a port. */
    ghost predicate Valid()
      reads this
    {
      && multiset(portVec) == multiset(AllPorts())
      && forall id :: id in portIndex ==> portIndex[id] < |portVec|
    }

    /** `shuffled` is the shuffled list of all ports. */
    constructor (shuffled: seq<u16>)
      requires multiset(shuffled) == multiset(AllPorts())
      ensures Valid() && portVec == shuffled && portIndex == map[]
    {
      portVec := shuffled;
      portIndex := map[];
    }

    function IndexOf(id: Ipv4Addr): nat
      reads this
    {
      if id in portIndex then portIndex[id] else 0
    }

    /** The sweep for one peer.  If a send fails the next call starts over where this one did. */
    method PunchPeer(id: Ipv4Addr, ips: seq<Ipv4Addr>, maxK2: nat, sendable: nat) returns (ok: bool, sent: seq<Pair>)
      requires Valid()
      modifies this`portIndex
      ensures Valid()
      ensures var start := old(IndexOf(id));
              && start < |portVec|
              && (var all := Sweep(Stretch(portVec, start, maxK2), ips, maxK2).0;
                  && ok == (|all| <= sendable)
                  && sent == (if ok then all else all[..sendable])
                  && portIndex == old(portIndex)[id := if ok then NextIndex(portVec, ips, start, maxK2) else start])
    {
      assert |multiset(portVec)| == |multiset(AllPorts())| == PORTS;
      if id !in portIndex {
        portIndex := portIndex[id := 0];
      }
      var start := portIndex[id];
      assert portIndex == old(portIndex)[id := start];
      var end := start + maxK2;
      if end > |portVec| {
        end := |portVec|;
      }
      assert portVec[start..end] == Stretch(portVec, start, maxK2);
      var done;
      done, sent := PunchSymmetric(portVec[start..end], ips, maxK2, sendable);
      if done == None {
        return false, sent;
      }
      var index := start + done.value;
      if index >= |portVec| {
        index := 0;
      }
      portIndex := portIndex[id := index];
      assert index == NextIndex(portVec, ips, start, maxK2);
      ok := true;
    }
  }

  // ----- a whole sweep

  /** Calls with these limits, the first from `start`, of which exactly the last one wraps around. */
  ghost predicate Wraps(ports: seq<u16>, ips: seq<Ipv4Addr>, start: nat, limits: seq<nat>)
    requires start < |ports|
    decreases |limits|
  {
    && limits != []
    && |ips| < limits[0]
    && (var next := NextIndex(ports, ips, start, limits[0]);
        if next == 0 then |limits| == 1 else Wraps(ports, ips, next, limits[1..]))
  }

  /** What they send. */
  function Sent(ports: seq<u16>, ips: seq<Ipv4Addr>, start: nat, limits: seq<nat>): seq<Pair>
    requires start < |ports|
    decreases |limits|
  {
    if limits == [] then []
    else
      var next := NextIndex(ports, ips, start, limits[0]);
      Sweep(Stretch(ports, start, limits[0]), ips, limits[0]).0 + Sent(ports, ips, next, limits[1..])
  }

  lemma {:induction false} WrapsCovers(ports: seq<u16>, ips: seq<Ipv4Addr>, start: nat, limits: seq<nat>,
                                       i: nat, ip: Ipv4Addr)
    requires start < |ports| && Wraps(ports, ips, start, limits)
    requires start <= i < |ports| && ip in ips
    ensures (ports[i], ip) in Sent(ports, ips, start, limits)
    decreases |limits|
  {
    var stretch := Stretch(ports, start, limits[0]);
    var (first, done) := Sweep(stretch, ips, limits[0]);
    var next := NextIndex(ports, ips, start, limits[0]);
    assert Sent(ports, ips, start, limits) == first + Sent(ports, ips, next, limits[1..]);
    if i < start + done {
      assert stretch[i - start] == ports[i];
      DoneIsSent(stretch, ips, limits[0], i - start, ip);
    } else {
      WrapsCovers(ports, ips, start + done, limits[1..], i, ip);
    }
  }

  /** Between two wraps every port gets a packet at every address, whatever the limits of the calls. */
  lemma EveryPortIsTried(ports: seq<u16>, ips: seq<Ipv4Addr>, limits: seq<nat>, port: u16, ip: Ipv4Addr)
    requires multiset(ports) == multiset(AllPorts()) && port > 0 && ip in ips
    requires ports != [] && Wraps(ports, ips, 0, limits)
    ensures (port, ip) in Sent(ports, ips, 0, limits)
  {
    assert AllPorts()[port - 1] == port;
    assert port in multiset(ports);
    var i :| 0 <= i < |ports| && ports[i] == port;
    WrapsCovers(ports, ips, 0, limits, i, ip);
  }

  /** Every call advances, so that a sweep comes to its end within as many calls as there are ports
      left. */
  lemma {:induction false} SweepEnds(ports: seq<u16>, ips: seq<Ipv4Addr>, start: nat, limits: seq<nat>)
    returns (calls: nat)
    requires start < |ports| && |limits| >= |ports| - start
    requires forall k :: 0 <= k < |limits| ==> |ips| < limits[k]
    ensures calls <= |ports| - start && calls <= |limits| && Wraps(ports, ips, start, limits[..calls])
    decreases |ports| - start
  {
    var next := NextIndex(ports, ips, start, limits[0]);
    GetsOnExactly(Stretch(ports, start, limits[0]), ips, limits[0]);
    if next == 0 {
      calls := 1;
    } else {
      var rest := SweepEnds(ports, ips, next, limits[1..]);
      calls := rest + 1;
      assert limits[..calls][1..] == limits[1..][..rest];
    }
  }
}
