/**
Choosing among the addresses of a server, IPv6 first: an address is passed over after three uses, and
when there is none left all start over.
*/
module AddressChoice {
  import opened Wrappers
  import opened Net

  const MAX_USES := 3

  type History = map<SocketAddr, nat>

  function Uses(history: History, addr: SocketAddr): nat {
    if addr in history then history[addr] else 0
  }

  function UsedOnceMore(history: History, addr: SocketAddr): History {
    history[addr := Uses(history, addr) + 1]
  }

  // ----- lists of addresses

  function Filter(s: seq<SocketAddr>, keep: SocketAddr -> bool): (r: seq<SocketAddr>)
    ensures forall a :: a in r <==> a in s && keep(a)
    ensures |r| <= |s|
  {
    if s == [] then []
    else if keep(s[0]) then [s[0]] + Filter(s[1..], keep)
    else Filter(s[1..], keep)
  }

  predicate IsV4(a: SocketAddr) {
    a.V4?
  }

  predicate IsV6(a: SocketAddr) {
    a.V6?
  }

  /** The order of preference. */
  function Preferred(s: seq<SocketAddr>): (r: seq<SocketAddr>)
    ensures forall a :: a in r <==> a in s
  {
    Filter(s, IsV6) + Filter(s, IsV4)
  }

  function Free(history: History): SocketAddr -> bool {
    a => Uses(history, a) < MAX_USES
  }

  lemma {:induction false} FilterAppend(s: seq<SocketAddr>, t: seq<SocketAddr>, keep: SocketAddr -> bool)
    ensures Filter(s + t, keep) == Filter(s, keep) + Filter(t, keep)
  {
    if s == [] {
      assert s + t == t;
    } else {
      assert (s + t)[1..] == s[1..] + t;
      FilterAppend(s[1..], t, keep);
    }
  }

  lemma {:induction false} FiltersCommute(s: seq<SocketAddr>, p: SocketAddr -> bool, q: SocketAddr -> bool)
    ensures Filter(Filter(s, p), q) == Filter(Filter(s, q), p)
  {
    if s != [] {
      FiltersCommute(s[1..], p, q);
      var rest := s[1..];
      assert ([s[0]] + Filter(rest, p))[1..] == Filter(rest, p);
      assert ([s[0]] + Filter(rest, q))[1..] == Filter(rest, q);
    }
  }

  lemma PreferredOfFilter(s: seq<SocketAddr>, keep: SocketAddr -> bool)
    ensures Preferred(Filter(s, keep)) == Filter(Preferred(s), keep)
  {
    FiltersCommute(s, keep, IsV6);
    FiltersCommute(s, keep, IsV4);
    FilterAppend(Filter(s, IsV6), Filter(s, IsV4), keep);
  }

  // ----- one choice

  function First(s: seq<SocketAddr>): Option<SocketAddr> {
    if s == [] then None else Some(s[0])
  }

  /** What a choice returns, and the history after it.  A choice that fails has still cleared the
      history if every address was used up. */
  function Chosen(history: History, addrs: seq<SocketAddr>, connectable: SocketAddr -> bool)
    : (Option<SocketAddr>, History)
  {
    var used := Filter(addrs, Free(history)) == [];
    var available, kept := if used then addrs else Filter(addrs, Free(history)), if used then map[] else history;
    var choice := First(Filter(Preferred(available), connectable));
    (choice, if choice.Some? then UsedOnceMore(kept, choice.value) else kept)
  }

  class AddressChooser {
    var history: History

    constructor ()
      ensures history == map[]
    {
      history := map[];
    }

    method Use(addr: SocketAddr)
      modifies this
      ensures history == UsedOnceMore(old(history), addr)
    {
      if addr in history {
        history := history[addr := history[addr] + 1];
      } else {
        history := history[addr := 1];
      }
    }

    /** `connectable` tells what a socket connects to at the moment. */
    method Choose(addrs: seq<SocketAddr>, connectable: SocketAddr -> bool) returns (choice: Option<SocketAddr>)
      modifies this
      ensures (choice, history) == Chosen(old(history), addrs, connectable)
    {
      var available := Select(addrs, Free(history));
      if available == [] {
        available := addrs;
        history := map[];
      }
      choice := ChooseFrom(available, connectable);
      if choice.Some? {
        Use(choice.value);
      }
    }
  }

  method Select(addrs: seq<SocketAddr>, keep: SocketAddr -> bool) returns (selected: seq<SocketAddr>)
    ensures selected == Filter(addrs, keep)
  {
    selected := [];
    for i := 0 to |addrs|
      invariant selected == Filter(addrs[..i], keep)
    {
      FilterAppend(addrs[..i], [addrs[i]], keep);
      assert addrs[..i + 1] == addrs[..i] + [addrs[i]];
      if keep(addrs[i]) {
        selected := selected + [addrs[i]];
      }
    }
    assert addrs[..|addrs|] == addrs;
  }

  method CheckAddr(addrs: seq<SocketAddr>, connectable: SocketAddr -> bool) returns (addr: Option<SocketAddr>)
    ensures addr == First(Filter(addrs, connectable))
  {
    for i := 0 to |addrs|
      invariant Filter(addrs, connectable) == Filter(addrs[i..], connectable)
    {
      assert addrs[i..][1..] == addrs[i + 1..];
      if connectable(addrs[i]) {
        return Some(addrs[i]);
      }
    }
    return None;
  }

  method ChooseFrom(addrs: seq<SocketAddr>, connectable: SocketAddr -> bool) returns (addr: Option<SocketAddr>)
    ensures addr == First(Filter(Preferred(addrs), connectable))
  {
    FilterAppend(Filter(addrs, IsV6), Filter(addrs, IsV4), connectable);
    var v4 := Select(addrs, IsV4);
    var v6 := Select(addrs, IsV6);
    if v6 == [] {
      addr := CheckAddr(v4, connectable);
      return;
    }
    if v4 == [] {
      addr := CheckAddr(v6, connectable);
      return;
    }
    addr := CheckAddr(v6, connectable);
    if addr.None? {
      addr := CheckAddr(v4, connectable);
    }
  }

  // ----- what one choice is

  /** An address may be chosen: it is offered, connects, and has been used less than three times, unless all
      that are offered are used up. */
  ghost predicate MayChoose(history: History, addrs: seq<SocketAddr>, connectable: SocketAddr -> bool, a: SocketAddr) {
    && a in addrs && connectable(a)
    && ((a in history ==> history[a] < 3) || UsedUp(history, addrs))
  }

  ghost predicate UsedUp(history: History, addrs: seq<SocketAddr>) {
    forall a :: a in addrs ==> a in history && history[a] >= 3
  }

  /** IPv6 addresses come first. */
  lemma PreferredOrder(s: seq<SocketAddr>)
    ensures forall i, j :: 0 <= i < j < |Preferred(s)| && Preferred(s)[j].V6? ==> Preferred(s)[i].V6?
  {
    var v6, v4 := Filter(s, IsV6), Filter(s, IsV4);
    forall i | 0 <= i < |v6| ensures v6[i].V6? {
      assert v6[i] in v6 && IsV6(v6[i]);
    }
    forall i | 0 <= i < |v4| ensures v4[i].V4? {
      assert v4[i] in v4 && IsV4(v4[i]);
    }
  }

  /** The first element that satisfies a predicate is the head of the filtered list. */
  lemma {:induction false} FirstOfFilter(s: seq<SocketAddr>, keep: SocketAddr -> bool)
    returns (i: nat)
    ensures i <= |s| && forall j :: 0 <= j < i ==> !keep(s[j])
    ensures First(Filter(s, keep)) == if i < |s| then Some(s[i]) else None
    ensures i < |s| ==> keep(s[i])
  {
    if s == [] || keep(s[0]) {
      i := 0;
    } else {
      i := FirstOfFilter(s[1..], keep);
      i := i + 1;
    }
  }

  /** A choice takes the first address that may be chosen, an IPv4 one only if there is no IPv6 one, and none
      exactly if there is none; one use is counted, after the history was cleared if all were used up. */
  lemma ChosenExactly(history: History, addrs: seq<SocketAddr>, connectable: SocketAddr -> bool)
    ensures var (choice, after) := Chosen(history, addrs, connectable);
            var base := if UsedUp(history, addrs) then map[] else history;
      && (choice.None? <==> forall a :: !MayChoose(history, addrs, connectable, a))
      && (choice.None? ==> after == base)
      && (choice.Some? ==>
            && after == base[choice.value := (if choice.value in base then base[choice.value] else 0) + 1]
            && (choice.value.V4? ==> forall a :: MayChoose(history, addrs, connectable, a) ==> a.V4?)
            && exists i :: && 0 <= i < |addrs| && addrs[i] == choice.value
                           && MayChoose(history, addrs, connectable, addrs[i])
                           && forall j :: 0 <= j < i && MayChoose(history, addrs, connectable, addrs[j]) ==>
                                addrs[j].V4? && choice.value.V6?)
  {
    var (choice, after) := Chosen(history, addrs, connectable);
    var may6 := (a: SocketAddr) => MayChoose(history, addrs, connectable, a) && a.V6?;
    var may4 := (a: SocketAddr) => MayChoose(history, addrs, connectable, a) && a.V4?;
    ChosenFromBoth(history, addrs, connectable, may6, may4);
    var i6 := FirstOfFilter(addrs, may6);
    var i4 := FirstOfFilter(addrs, may4);
    assert choice == First(if i6 < |addrs| then Filter(addrs, may6) else Filter(addrs, may4));
    if choice.Some? {
      var i := if i6 < |addrs| then i6 else i4;
      assert addrs[i] == choice.value;
    }
  }

  lemma ChosenFromBoth(history: History, addrs: seq<SocketAddr>, connectable: SocketAddr -> bool,
                       may6: SocketAddr -> bool, may4: SocketAddr -> bool)
    requires forall a :: may6(a) <==> MayChoose(history, addrs, connectable, a) && a.V6?
    requires forall a :: may4(a) <==> MayChoose(history, addrs, connectable, a) && a.V4?
    ensures var (choice, after) := Chosen(history, addrs, connectable);
            var base := if UsedUp(history, addrs) then map[] else history;
      && choice == First(Filter(addrs, may6) + Filter(addrs, may4))
      && after == if choice.Some? then UsedOnceMore(base, choice.value) else base
  {
    UsedUpExactly(history, addrs);
    var available := Available(history, addrs);
    FilterAppend(Filter(available, IsV6), Filter(available, IsV4), connectable);
    OfKind(history, addrs, connectable, IsV6, may6);
    OfKind(history, addrs, connectable, IsV4, may4);
  }

  function Available(history: History, addrs: seq<SocketAddr>): seq<SocketAddr> {
    if Filter(addrs, Free(history)) == [] then addrs else Filter(addrs, Free(history))
  }

  lemma OfKind(history: History, addrs: seq<SocketAddr>, connectable: SocketAddr -> bool,
               kind: SocketAddr -> bool, may: SocketAddr -> bool)
    requires forall a :: may(a) <==> MayChoose(history, addrs, connectable, a) && kind(a)
    ensures Filter(Filter(Available(history, addrs), kind), connectable) == Filter(addrs, may)
  {
    UsedUpExactly(history, addrs);
    FilterBoth(Available(history, addrs), kind, connectable);
    var keep := (a: SocketAddr) => kind(a) && connectable(a);
    if Filter(addrs, Free(history)) != [] {
      FilterBoth(addrs, Free(history), keep);
      FilterSame(addrs, (a: SocketAddr) => Free(history)(a) && keep(a), may);
    } else {
      FilterSame(addrs, keep, may);
    }
  }

  lemma UsedUpExactly(history: History, addrs: seq<SocketAddr>)
    ensures Filter(addrs, Free(history)) == [] <==> UsedUp(history, addrs)
  {
    var free := Filter(addrs, Free(history));
    if free != [] {
      var a := free[0];
      assert a in free;
      assert a in addrs && Free(history)(a);
    } else {
      forall a | a in addrs ensures a in history && history[a] >= 3 {
        assert a !in free;
        assert !Free(history)(a);
      }
    }
  }

  lemma {:induction false} FilterBoth(s: seq<SocketAddr>, p: SocketAddr -> bool, q: SocketAddr -> bool)
    ensures Filter(Filter(s, p), q) == Filter(s, (a: SocketAddr) => p(a) && q(a))
  {
    if s != [] {
      FilterBoth(s[1..], p, q);
      var rest := s[1..];
      assert ([s[0]] + Filter(rest, p))[1..] == Filter(rest, p);
    }
  }

  lemma {:induction false} FilterSame(s: seq<SocketAddr>, p: SocketAddr -> bool, q: SocketAddr -> bool)
    requires forall a :: a in s ==> p(a) == q(a)
    ensures Filter(s, p) == Filter(s, q)
  {
    if s != [] {
      FilterSame(s[1..], p, q);
    }
  }

  // ----- no address is overused

  ghost predicate NoneOverused(history: History) {
    forall a :: a in history ==> history[a] <= MAX_USES
  }

  /** Whatever the lists and whatever connects, no count ever exceeds three. */
  lemma ChosenKeepsBound(history: History, addrs: seq<SocketAddr>, connectable: SocketAddr -> bool)
    requires NoneOverused(history)
    ensures NoneOverused(Chosen(history, addrs, connectable).1)
  {
    var choice := Chosen(history, addrs, connectable).0;
    if choice.Some? && Filter(addrs, Free(history)) != [] {
      assert choice.value in Preferred(Filter(addrs, Free(history)));
      assert Free(history)(choice.value);
    }
  }

  /** The addresses offered for one choice, and what connects at the time. */
  datatype Offer = Offer(addrs: seq<SocketAddr>, connectable: SocketAddr -> bool)

  /** The history after a choice from each offer. */
  function HistoryAfter(history: History, offers: seq<Offer>): History
    decreases |offers|
  {
    if offers == [] then history
    else HistoryAfter(Chosen(history, offers[0].addrs, offers[0].connectable).1, offers[1..])
  }

  /** In every run, whatever is offered and whatever connects, no address is used a fourth time before
      the history is cleared. */
  lemma {:induction false} NoneEverOverused(history: History, offers: seq<Offer>)
    requires NoneOverused(history)
    ensures NoneOverused(HistoryAfter(history, offers))
    decreases |offers|
  {
    if offers != [] {
      ChosenKeepsBound(history, offers[0].addrs, offers[0].connectable);
      NoneEverOverused(Chosen(history, offers[0].addrs, offers[0].connectable).1, offers[1..]);
    }
  }

  // ----- rotation

  predicate Distinct(s: seq<SocketAddr>) {
    forall i, j :: 0 <= i < j < |s| ==> s[i] != s[j]
  }

  /** The addresses to choose from, in order of preference. */
  function Targets(addrs: seq<SocketAddr>, connectable: SocketAddr -> bool): seq<SocketAddr> {
    Filter(Preferred(addrs), connectable)
  }

  lemma {:induction false} FilterKeepsDistinct(s: seq<SocketAddr>, keep: SocketAddr -> bool)
    requires Distinct(s)
    ensures Distinct(Filter(s, keep))
  {
    if s != [] {
      FilterKeepsDistinct(s[1..], keep);
    }
  }

  lemma TargetsAreDistinct(addrs: seq<SocketAddr>, connectable: SocketAddr -> bool)
    requires Distinct(addrs)
    ensures Distinct(Targets(addrs, connectable))
  {
    FilterKeepsDistinct(addrs, IsV6);
    FilterKeepsDistinct(addrs, IsV4);
    var v6, v4 := Filter(addrs, IsV6), Filter(addrs, IsV4);
    forall i, j | 0 <= i < |v6| && 0 <= j < |v4| ensures v6[i] != v4[j] {
      assert v6[i] in v6 && v4[j] in v4;
      assert IsV6(v6[i]) && IsV4(v4[j]);
    }
    FilterKeepsDistinct(Preferred(addrs), connectable);
  }

  /** The first `i` targets are used up, the next one has been used `u` times, the others not at all. */
  ghost predicate Turn(history: History, addrs: seq<SocketAddr>, connectable: SocketAddr -> bool, i: nat, u: nat) {
    var targets := Targets(addrs, connectable);
    && i <= |targets| && u < MAX_USES && (i == |targets| ==> u == 0)
    && (forall j :: 0 <= j < |targets| ==>
          Uses(history, targets[j]) == if j < i then MAX_USES else if j == i then u else 0)
    && (forall a :: a in addrs && !connectable(a) ==> Uses(history, a) == 0)
  }

  lemma {:induction false} FreeTargets(history: History, targets: seq<SocketAddr>, i: nat)
    requires i <= |targets|
    requires forall j :: 0 <= j < |targets| ==> (Uses(history, targets[j]) < MAX_USES <==> j >= i)
    ensures Filter(targets, Free(history)) == targets[i..]
  {
    if targets != [] {
      FreeTargets(history, targets[1..], if i == 0 then 0 else i - 1);
      if i > 0 {
        assert targets[1..][i - 1..] == targets[i..];
      }
    }
  }

  /** What a choice chooses from in such a turn: the targets that are left, in order. */
  lemma LeftInTurn(history: History, addrs: seq<SocketAddr>, connectable: SocketAddr -> bool, i: nat, u: nat)
    requires Turn(history, addrs, connectable, i, u)
    ensures Filter(Preferred(Filter(addrs, Free(history))), connectable) == Targets(addrs, connectable)[i..]
  {
    PreferredOfFilter(addrs, Free(history));
    FiltersCommute(Preferred(addrs), Free(history), connectable);
    FreeTargets(history, Targets(addrs, connectable), i);
  }

  /** While a target is left, the choice is the next one in turn. */
  lemma NextTurn(history: History, addrs: seq<SocketAddr>, connectable: SocketAddr -> bool, i: nat, u: nat)
    requires Turn(history, addrs, connectable, i, u) && i < |Targets(addrs, connectable)|
    requires Distinct(Targets(addrs, connectable))
    ensures var (choice, after) := Chosen(history, addrs, connectable);
            && choice == Some(Targets(addrs, connectable)[i])
            && if u + 1 < MAX_USES then Turn(after, addrs, connectable, i, u + 1) else Turn(after, addrs, connectable, i + 1, 0)
  {
    var targets := Targets(addrs, connectable);
    LeftInTurn(history, addrs, connectable, i, u);
    assert targets[i] in addrs && Free(history)(targets[i]);
    assert targets[i] in Filter(addrs, Free(history));
    assert Chosen(history, addrs, connectable) == (Some(targets[i]), UsedOnceMore(history, targets[i]));
    TurnAdvances(history, addrs, connectable, i, u);
  }

  lemma TurnAdvances(history: History, addrs: seq<SocketAddr>, connectable: SocketAddr -> bool, i: nat, u: nat)
    requires Turn(history, addrs, connectable, i, u) && i < |Targets(addrs, connectable)|
    requires Distinct(Targets(addrs, connectable))
    ensures var after := UsedOnceMore(history, Targets(addrs, connectable)[i]);
            if u + 1 < MAX_USES then Turn(after, addrs, connectable, i, u + 1) else Turn(after, addrs, connectable, i + 1, 0)
  {
    var targets := Targets(addrs, connectable);
    assert connectable(targets[i]) by {
      assert targets[i] in targets;
    }
  }

  predicate AllConnect(addrs: seq<SocketAddr>, connectable: SocketAddr -> bool) {
    forall a :: a in addrs ==> connectable(a)
  }

  /** With every target used up, all start over if there is nothing else in the list, */
  lemma StartsOver(history: History, addrs: seq<SocketAddr>, connectable: SocketAddr -> bool)
    requires Turn(history, addrs, connectable, |Targets(addrs, connectable)|, 0) && AllConnect(addrs, connectable)
    ensures Chosen(history, addrs, connectable) == Chosen(map[], addrs, connectable)
  {
    forall a | a in addrs ensures !Free(history)(a) {
      assert a in Targets(addrs, connectable);
    }
    NoneKept(addrs, Free(history));
    AllFree(addrs);
  }

  lemma {:induction false} NoneKept(s: seq<SocketAddr>, keep: SocketAddr -> bool)
    requires forall a :: a in s ==> !keep(a)
    ensures Filter(s, keep) == []
  {
    if s != [] {
      NoneKept(s[1..], keep);
    }
  }

  lemma {:induction false} AllFree(addrs: seq<SocketAddr>)
    ensures Filter(addrs, Free(map[])) == addrs
  {
    if addrs != [] {
      assert Free(map[])(addrs[0]);
      AllFree(addrs[1..]);
    }
  }

  /** and otherwise the choice fails and nothing changes: what cannot be connected to is never used up,
      so that the history is never cleared again. */
  lemma FailsForGood(history: History, addrs: seq<SocketAddr>, connectable: SocketAddr -> bool)
    requires Turn(history, addrs, connectable, |Targets(addrs, connectable)|, 0) && !AllConnect(addrs, connectable)
    ensures Chosen(history, addrs, connectable) == (None, history)
  {
    LeftInTurn(history, addrs, connectable, |Targets(addrs, connectable)|, 0);
    var a :| a in addrs && !connectable(a);
    assert Free(history)(a);
    assert a in Filter(addrs, Free(history));
  }

  // ----- runs of choices

  type Chooser = History -> (Option<SocketAddr>, History)

  /** The results of `n` choices, and the history after them. */
  function Choices(step: Chooser, history: History, n: nat): (seq<Option<SocketAddr>>, History)
    decreases n
  {
    if n == 0 then ([], history)
    else
      var (choice, next) := step(history);
      var (more, after) := Choices(step, next, n - 1);
      ([choice] + more, after)
  }

  lemma {:induction false} ChoicesSplit(step: Chooser, history: History, m: nat, n: nat)
    ensures var (first, between) := Choices(step, history, m);
            var (second, after) := Choices(step, between, n);
            Choices(step, history, m + n) == (first + second, after)
    decreases m
  {
    if m == 0 {
      var second := Choices(step, history, n).0;
      assert [] + second == second;
    } else {
      var (choice, next) := step(history);
      ChoicesSplit(step, next, m - 1, n);
      var (first, between) := Choices(step, next, m - 1);
      var second := Choices(step, between, n).0;
      assert [choice] + (first + second) == ([choice] + first) + second;
    }
  }

  /** `turn` goes from target to target, three steps each. */
  ghost predicate Rotates(step: Chooser, turn: (History, nat, nat) -> bool, targets: seq<SocketAddr>) {
    forall h, i: nat, u: nat {:trigger RotatesAt(step, turn, targets[i], h, i, u)} ::
      turn(h, i, u) && i < |targets| && u < MAX_USES ==> RotatesAt(step, turn, targets[i], h, i, u)
  }

  ghost predicate RotatesAt(step: Chooser, turn: (History, nat, nat) -> bool, target: SocketAddr,
                            h: History, i: nat, u: nat)
  {
    && step(h).0 == Some(target)
    && if u + 1 < MAX_USES then turn(step(h).1, i, u + 1) else turn(step(h).1, i + 1, 0)
  }

  function Thrice(s: seq<SocketAddr>): (r: seq<Option<SocketAddr>>)
    ensures |r| == MAX_USES * |s|
  {
    if s == [] then [] else [Some(s[0]), Some(s[0]), Some(s[0])] + Thrice(s[1..])
  }

  lemma ThriceFirst(s: seq<SocketAddr>)
    requires s != []
    ensures Thrice(s) == Thrice([s[0]]) + Thrice(s[1..])
  {
    assert [s[0]][1..] == [];
  }

  /** A target in turn is chosen three times in a row. */
  lemma ThreeTurns(step: Chooser, turn: (History, nat, nat) -> bool, targets: seq<SocketAddr>, history: History, i: nat)
    requires Rotates(step, turn, targets) && turn(history, i, 0) && i < |targets|
    ensures var (choices, after) := Choices(step, history, 3);
            choices == Thrice([targets[i]]) && turn(after, i + 1, 0)
  {
    var t := Some(targets[i]);
    assert RotatesAt(step, turn, targets[i], history, i, 0);
    var h1 := step(history).1;
    assert RotatesAt(step, turn, targets[i], h1, i, 1);
    var h2 := step(h1).1;
    assert RotatesAt(step, turn, targets[i], h2, i, 2);
    var h3 := step(h2).1;
    OneMore(step, h2, t, [], h3);
    assert [t] + [] == [t] && [t] + [t] == [t, t];
    OneMore(step, h1, t, [t], h3);
    OneMore(step, history, t, [t, t], h3);
    assert [targets[i]][1..] == [];
  }

  lemma OneMore(step: Chooser, history: History, choice: Option<SocketAddr>,
                more: seq<Option<SocketAddr>>, after: History)
    requires step(history).0 == choice && Choices(step, step(history).1, |more|) == (more, after)
    ensures Choices(step, history, |more| + 1) == ([choice] + more, after)
  {
  }

  /** A round: every target three times, in order. */
  lemma {:induction false} Round(step: Chooser, turn: (History, nat, nat) -> bool, targets: seq<SocketAddr>,
                                 history: History, i: nat)
    requires Rotates(step, turn, targets) && turn(history, i, 0) && i <= |targets|
    ensures var (choices, after) := Choices(step, history, MAX_USES * (|targets| - i));
            choices == Thrice(targets[i..]) && turn(after, |targets|, 0)
    decreases |targets| - i
  {
    if i < |targets| {
      ThreeTurns(step, turn, targets, history, i);
      Round(step, turn, targets, Choices(step, history, 3).1, i + 1);
      ChoicesSplit(step, history, 3, MAX_USES * (|targets| - i - 1));
      ThriceFirst(targets[i..]);
      assert targets[i..][1..] == targets[i + 1..];
    }
  }

  function Rounds(s: seq<SocketAddr>, rounds: nat): seq<Option<SocketAddr>> {
    if rounds == 0 then [] else Thrice(s) + Rounds(s, rounds - 1)
  }

  /** The number of choices in some rounds. */
  function Block(rounds: nat, targets: nat): nat {
    if rounds == 0 then 0 else MAX_USES * targets + Block(rounds - 1, targets)
  }

  /** Rounds follow each other if the first step after a round is that of a fresh start. */
  lemma {:induction false} RoundsFollow(step: Chooser, turn: (History, nat, nat) -> bool, targets: seq<SocketAddr>,
                                        start: History, history: History, rounds: nat)
    requires Rotates(step, turn, targets) && turn(start, 0, 0) && targets != []
    requires forall h :: turn(h, |targets|, 0) ==> step(h) == step(start)
    requires history == start || turn(history, |targets|, 0)
    ensures Choices(step, history, Block(rounds, |targets|)).0 == Rounds(targets, rounds)
    decreases rounds
  {
    var block := MAX_USES * |targets|;
    if rounds > 0 {
      Round(step, turn, targets, start, 0);
      assert targets[0..] == targets;
      assert Choices(step, history, block) == Choices(step, start, block);
      RoundsFollow(step, turn, targets, start, Choices(step, start, block).1, rounds - 1);
      ChoicesSplit(step, history, block, Block(rounds - 1, |targets|));
    }
  }

  function Failures(n: nat): seq<Option<SocketAddr>> {
    if n == 0 then [] else [None] + Failures(n - 1)
  }

  lemma {:induction false} KeepsFailing(step: Chooser, history: History, n: nat)
    requires step(history) == (None, history)
    ensures Choices(step, history, n) == (Failures(n), history)
    decreases n
  {
    if n > 0 {
      KeepsFailing(step, history, n - 1);
    }
  }

  /** After the last turn every choice fails and changes nothing. */
  ghost predicate Stalls(step: Chooser, turn: (History, nat, nat) -> bool, last: nat) {
    forall h :: turn(h, last, 0) ==> step(h) == (None, h)
  }

  ghost predicate RotatesThenStalls(step: Chooser, turn: (History, nat, nat) -> bool, targets: seq<SocketAddr>,
                                    start: History)
  {
    Rotates(step, turn, targets) && Stalls(step, turn, |targets|) && turn(start, 0, 0)
  }

  /** The choices are one round and then `n` failures. */
  predicate EndsInFailures(step: Chooser, start: History, targets: seq<SocketAddr>, n: nat) {
    Choices(step, start, MAX_USES * |targets| + n).0 == Thrice(targets) + Failures(n)
  }

  lemma RoundThenFailures(step: Chooser, turn: (History, nat, nat) -> bool, targets: seq<SocketAddr>,
                          start: History, n: nat)
    requires RotatesThenStalls(step, turn, targets, start)
    ensures EndsInFailures(step, start, targets, n)
  {
    Round(step, turn, targets, start, 0);
    assert targets[0..] == targets;
    var after := Choices(step, start, MAX_USES * |targets|).1;
    assert turn(after, |targets|, 0);
    KeepsFailing(step, after, n);
    ChoicesSplit(step, start, MAX_USES * |targets|, n);
  }

  // ----- the rotation of one list

  function Step(addrs: seq<SocketAddr>, connectable: SocketAddr -> bool): Chooser {
    history => Chosen(history, addrs, connectable)
  }

  ghost function TurnOf(addrs: seq<SocketAddr>, connectable: SocketAddr -> bool): (History, nat, nat) -> bool {
    (history, i, u) => Turn(history, addrs, connectable, i, u)
  }

  lemma TurnRotates(addrs: seq<SocketAddr>, connectable: SocketAddr -> bool, h: History, i: nat, u: nat)
    requires Turn(h, addrs, connectable, i, u) && i < |Targets(addrs, connectable)|
    requires Distinct(Targets(addrs, connectable))
    ensures RotatesAt(Step(addrs, connectable), TurnOf(addrs, connectable), Targets(addrs, connectable)[i], h, i, u)
  {
    NextTurn(h, addrs, connectable, i, u);
  }

  lemma ListRotates(addrs: seq<SocketAddr>, connectable: SocketAddr -> bool)
    requires Distinct(Targets(addrs, connectable))
    ensures Rotates(Step(addrs, connectable), TurnOf(addrs, connectable), Targets(addrs, connectable))
  {
    var step, turn, targets := Step(addrs, connectable), TurnOf(addrs, connectable), Targets(addrs, connectable);
    forall h, i: nat, u: nat | turn(h, i, u) && i < |targets| && u < MAX_USES
      ensures RotatesAt(step, turn, targets[i], h, i, u)
    {
      TurnRotates(addrs, connectable, h, i, u);
    }
  }

  /** If all addresses connect, every block of three times as many choices as there are addresses picks
      each three times, in the order of preference, over and over. */
  lemma RotationIsFair(addrs: seq<SocketAddr>, connectable: SocketAddr -> bool, rounds: nat)
    requires AllConnect(addrs, connectable) && Distinct(addrs) && addrs != []
    ensures Choices(Step(addrs, connectable), map[], Block(rounds, |Targets(addrs, connectable)|)).0
         == Rounds(Targets(addrs, connectable), rounds)
  {
    var turn, targets := TurnOf(addrs, connectable), Targets(addrs, connectable);
    assert addrs[0] in targets;
    TargetsAreDistinct(addrs, connectable);
    ListRotates(addrs, connectable);
    forall h | turn(h, |targets|, 0) ensures Step(addrs, connectable)(h) == Step(addrs, connectable)(map[]) {
      StartsOver(h, addrs, connectable);
    }
    RoundsFollow(Step(addrs, connectable), turn, targets, map[], map[], rounds);
  }

  /** Each address occurs exactly three times in a round. */
  lemma {:induction false} ThreeOfEach(s: seq<SocketAddr>, a: SocketAddr)
    requires Distinct(s)
    ensures multiset(Thrice(s))[Some(a)] == if a in s then MAX_USES else 0
  {
    if s != [] {
      ThreeOfEach(s[1..], a);
      assert a in s <==> a == s[0] || a in s[1..];
    }
  }

  lemma FreshTurn(addrs: seq<SocketAddr>, connectable: SocketAddr -> bool)
    ensures TurnOf(addrs, connectable)(map[], 0, 0)
  {
  }

  lemma FailsInTurn(history: History, addrs: seq<SocketAddr>, connectable: SocketAddr -> bool)
    requires TurnOf(addrs, connectable)(history, |Targets(addrs, connectable)|, 0) && !AllConnect(addrs, connectable)
    ensures Step(addrs, connectable)(history) == (None, history)
  {
    FailsForGood(history, addrs, connectable);
  }

  lemma ListStalls(addrs: seq<SocketAddr>, connectable: SocketAddr -> bool)
    requires !AllConnect(addrs, connectable) && Distinct(Targets(addrs, connectable))
    ensures RotatesThenStalls(Step(addrs, connectable), TurnOf(addrs, connectable), Targets(addrs, connectable), map[])
  {
    ListRotates(addrs, connectable);
    FreshTurn(addrs, connectable);
    forall h | TurnOf(addrs, connectable)(h, |Targets(addrs, connectable)|, 0)
      ensures Step(addrs, connectable)(h) == (None, h)
    {
      FailsInTurn(h, addrs, connectable);
    }
  }

  /** If some address does not connect, the others get one round, and then every choice fails. */
  lemma OneRoundOnly(addrs: seq<SocketAddr>, connectable: SocketAddr -> bool, n: nat)
    requires !AllConnect(addrs, connectable) && Distinct(addrs)
    ensures EndsInFailures(Step(addrs, connectable), map[], Targets(addrs, connectable), n)
  {
    TargetsAreDistinct(addrs, connectable);
    ListStalls(addrs, connectable);
    RoundThenFailures(Step(addrs, connectable), TurnOf(addrs, connectable), Targets(addrs, connectable), map[], n);
  }
}
