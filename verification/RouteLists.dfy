/**
The list of routes to one peer: its invariant, and what the operations of the route table do to it.

A list is kept sorted by round-trip time, except that a route added last stays unsorted at the end
until the next update.  When latency comes first more routes are kept, so that the fastest one can
be found; otherwise the hop count decides.
*/
module RouteLists {
  import opened Net
  import StableSorts

  datatype Entry = Entry(route: Route, readTime: int)

  /** The construction-time parameters; the engine refuses to start with no channel. */
  datatype Config = Config(firstLatency: bool, channelNum: nat, channelType: UseChannelType) {
    predicate Valid() {
      channelNum >= 1
    }

    /** A peer-to-peer-only engine refuses every other route before it looks at the table. */
    predicate Admits(route: Route) {
      channelType == P2p ==> route.IsP2p()
    }

    /** How many routes survive an update once every round-trip time is measured. */
    function UpdateLimit(): nat {
      if firstLatency then channelNum + 2 else channelNum
    }

    /** The longest list that the operations can leave behind. */
    function MaxLen(): nat {
      if firstLatency then 2 * channelNum + 1 else channelNum
    }
  }

  // ----- what a list looks like

  predicate HasKey(list: seq<Entry>, key: RouteKey) {
    exists i :: 0 <= i < |list| && list[i].route.Key() == key
  }

  predicate DistinctKeys(list: seq<Entry>) {
    forall i, j :: 0 <= i < j < |list| ==> list[i].route.Key() != list[j].route.Key()
  }

  predicate SortedByRt(list: seq<Entry>) {
    forall i, j :: 0 <= i < j < |list| ==> list[i].route.rt <= list[j].route.rt
  }

  /** Sorted, except that the route added last may sit unsorted at the end. */
  predicate SortedButLast(list: seq<Entry>) {
    forall i, j :: 0 <= i < j < |list| - 1 ==> list[i].route.rt <= list[j].route.rt
  }

  predicate AllP2p(list: seq<Entry>) {
    forall i :: 0 <= i < |list| ==> list[i].route.IsP2p()
  }

  predicate AllMeasured(list: seq<Entry>) {
    forall i :: 0 <= i < |list| ==> list[i].route.rt != DEFAULT_RT
  }

  /** The invariant of every stored list. */
  predicate ListInv(cfg: Config, list: seq<Entry>) {
    && 1 <= |list| <= cfg.MaxLen()
    && DistinctKeys(list)
    && SortedButLast(list)
    && (cfg.channelType == P2p ==> AllP2p(list))
  }

  // ----- sorting

  predicate Faster(a: Entry, b: Entry) {
    a.route.rt < b.route.rt
  }

  /** The stable sort by round-trip time (`sort_by_key` in the source). */
  function SortByRt(list: seq<Entry>): (sorted: seq<Entry>)
    ensures |sorted| == |list|
  {
    StableSorts.Sort(Faster, list)
  }

  /** The position of an entry in the sorted list. */
  function Rank(list: seq<Entry>, i: nat): nat
    requires i < |list|
  {
    StableSorts.Rank(Faster, list, i)
  }

  lemma SortSorts(list: seq<Entry>)
    ensures SortedByRt(SortByRt(list))
  {
    StableSorts.SortSorts(Faster, list);
    assert StableSorts.Sorted(Faster, SortByRt(list));
  }

  /** The sort puts every entry at its rank, */
  lemma SortPlaces(list: seq<Entry>, i: nat)
    requires i < |list|
    ensures Rank(list, i) < |list| && SortByRt(list)[Rank(list, i)] == list[i]
  {
    StableSorts.SortPlaces(Faster, list, i);
  }

  /** and nothing else. */
  lemma SortOrigin(list: seq<Entry>, k: nat) returns (i: nat)
    requires k < |list|
    ensures i < |list| && Rank(list, i) == k && SortByRt(list)[k] == list[i]
  {
    i := StableSorts.SortOrigin(Faster, list, k);
  }

  lemma SortKeepsKeysDistinct(list: seq<Entry>)
    requires DistinctKeys(list)
    ensures DistinctKeys(SortByRt(list))
  {
    var sorted := SortByRt(list);
    forall k, l | 0 <= k < l < |sorted| ensures sorted[k].route.Key() != sorted[l].route.Key() {
      var i := SortOrigin(list, k);
      var j := SortOrigin(list, l);
    }
  }

  lemma SortKeepsAllP2p(list: seq<Entry>)
    requires AllP2p(list)
    ensures AllP2p(SortByRt(list))
  {
    var sorted := SortByRt(list);
    forall k | 0 <= k < |sorted| ensures sorted[k].route.IsP2p() {
      var i := SortOrigin(list, k);
    }
  }

  // ----- truncation

  /** The first peer-to-peer route, or the length of the list. */
  function FirstP2p(list: seq<Entry>): (i: nat)
    ensures i <= |list|
    ensures forall j :: 0 <= j < i ==> !list[j].route.IsP2p()
    ensures i < |list| ==> list[i].route.IsP2p()
  {
    if list == [] || list[0].route.IsP2p() then 0 else 1 + FirstP2p(list[1..])
  }

  /** Cuts a list to `len` routes; when latency comes first, one peer-to-peer route is kept. */
  function Truncated(firstLatency: bool, list: seq<Entry>, len: nat): seq<Entry>
    requires len >= 1
  {
    if |list| <= len then list
    else if firstLatency && len <= FirstP2p(list) < |list| then list[..len - 1] + [list[FirstP2p(list)]]
    else list[..len]
  }

  /** A list that is too long keeps all but the last place as it was; that place goes to the next route,
      or to the first peer-to-peer route if latency comes first and none is among the first `len`. */
  lemma TruncateShape(firstLatency: bool, list: seq<Entry>, len: nat)
    requires len >= 1
    ensures |list| <= len ==> Truncated(firstLatency, list, len) == list
    ensures |list| > len ==>
      exists last :: len - 1 <= last < |list|
        && Truncated(firstLatency, list, len) == list[..len - 1] + [list[last]]
        && (last != len - 1 ==>
              firstLatency && list[last].route.IsP2p() && forall k :: 0 <= k < last ==> !list[k].route.IsP2p())
    ensures firstLatency && (exists e :: e in list && e.route.IsP2p()) ==>
      exists e :: e in Truncated(firstLatency, list, len) && e.route.IsP2p()
    ensures forall e :: e in Truncated(firstLatency, list, len) ==> e in list
    ensures SortedByRt(list) ==> SortedByRt(Truncated(firstLatency, list, len))
    ensures DistinctKeys(list) ==> DistinctKeys(Truncated(firstLatency, list, len))
    ensures AllP2p(list) ==> AllP2p(Truncated(firstLatency, list, len))
  {
    var cut, first := Truncated(firstLatency, list, len), FirstP2p(list);
    if |list| > len {
      var last := if firstLatency && len <= first < |list| then first else len - 1;
      assert cut == list[..len - 1] + [list[last]];
    }
    if firstLatency && first < |list| {
      var k := if |list| <= len || first < len then first else len - 1;
      assert cut[k] == list[first];
    }
  }

  /** Truncating a sorted list drops only routes that are no faster than the ones kept, and keeps
      the fastest peer-to-peer route when latency comes first. */
  lemma TruncateKeepsTheBest(firstLatency: bool, list: seq<Entry>, len: nat)
    requires len >= 1 && SortedByRt(list)
    ensures var cut := Truncated(firstLatency, list, len);
            && SortedByRt(cut)
            && |cut| == (if |list| <= len then |list| else len)
            // the fastest len - 1 routes stay where they were
            && (forall k :: 0 <= k < len - 1 && k < |list| ==> cut[k] == list[k])
            // the last survivor is the next fastest, or the fastest peer-to-peer route
            && (|cut| == len ==>
                  || cut[len - 1] == list[len - 1]
                  || (&& firstLatency
                      && cut[len - 1].route.IsP2p()
                      && forall k :: 0 <= k < len ==> !list[k].route.IsP2p()))
            && (firstLatency ==>
                  forall i :: 0 <= i < |list| && list[i].route.IsP2p() ==>
                    exists k :: 0 <= k < |cut| && cut[k].route.IsP2p() && cut[k].route.rt <= list[i].route.rt)
  {
    var cut := Truncated(firstLatency, list, len);
    if firstLatency {
      forall i | 0 <= i < |list| && list[i].route.IsP2p()
        ensures exists k :: 0 <= k < |cut| && cut[k].route.IsP2p() && cut[k].route.rt <= list[i].route.rt
      {
        var first := FirstP2p(list);
        var k := if |list| <= len || first < len then first else len - 1;
        assert cut[k] == list[first];
      }
    }
  }

  // ----- the operations on one list

  /** A shorter path is already known, which matters unless latency comes first. */
  predicate Blocks(cfg: Config, e: Entry, route: Route) {
    !cfg.firstLatency && e.route.metric < route.metric
  }

  predicate Stops(cfg: Config, e: Entry, route: Route) {
    Blocks(cfg, e, route) || e.route.Key() == route.Key()
  }

  /** The first entry that settles what to do with `route`. */
  function FirstStop(cfg: Config, list: seq<Entry>, route: Route): (i: nat)
    ensures i <= |list|
    ensures forall j :: 0 <= j < i ==> !Stops(cfg, list[j], route)
    ensures i < |list| ==> Stops(cfg, list[i], route)
  {
    if list == [] || Stops(cfg, list[0], route) then 0 else 1 + FirstStop(cfg, list[1..], route)
  }

  /** The entries that satisfy `keep`, in order (`retain` in the source). */
  function Retained(list: seq<Entry>, keep: Entry -> bool): (r: seq<Entry>)
    ensures |r| <= |list|
    ensures forall i :: 0 <= i < |r| ==> keep(r[i])
  {
    if list == [] then []
    else Retained(list[..|list| - 1], keep) + if keep(list[|list| - 1]) then [list[|list| - 1]] else []
  }

  function KeepP2p(): Entry -> bool {
    (e: Entry) => e.route.IsP2p()
  }

  function KeepAllBut(key: RouteKey): Entry -> bool {
    (e: Entry) => e.route.Key() != key
  }

  function OnlyP2p(list: seq<Entry>): (kept: seq<Entry>)
    ensures AllP2p(kept)
  {
    Retained(list, KeepP2p())
  }

  /** `list` without the route `key`. */
  function Removed(list: seq<Entry>, key: RouteKey): (r: seq<Entry>)
    ensures !HasKey(r, key)
  {
    Retained(list, KeepAllBut(key))
  }

  /** The list with entry `i` refreshed by a new measurement of the same route. */
  function Refreshed(list: seq<Entry>, i: nat, route: Route, now: int): (r: seq<Entry>)
    requires i < |list| && list[i].route.Key() == route.Key()
    ensures |r| == |list| && r[i].route == route
  {
    list[i := Entry(list[i].route.(metric := route.metric, rt := route.rt), now)]
  }

  function Updated(cfg: Config, list: seq<Entry>, i: nat, route: Route, now: int): seq<Entry>
    requires cfg.Valid() && i < |list| && list[i].route.Key() == route.Key()
  {
    var sorted := SortByRt(Refreshed(list, i, route, now));
    if AllMeasured(sorted) then Truncated(cfg.firstLatency, sorted, cfg.UpdateLimit()) else sorted
  }

  function Kept(cfg: Config, list: seq<Entry>, route: Route): seq<Entry> {
    if !cfg.firstLatency && route.IsP2p() then OnlyP2p(list) else list
  }

  /** What the write-locked half of an add does to a list, and the answer it gives. */
  function Added(cfg: Config, list: seq<Entry>, route: Route, onlyIfAbsent: bool, now: int): (seq<Entry>, bool)
    requires cfg.Valid()
  {
    var i := FirstStop(cfg, list, route);
    if i < |list| then
      if Blocks(cfg, list[i], route) then (list, false)
      else if onlyIfAbsent then (list, true)
      else (Updated(cfg, list, i, route, now), true)
    else
      var kept := Kept(cfg, list, route);
      if !cfg.firstLatency && cfg.channelNum <= |kept| then (kept, false)
      else (Truncated(cfg.firstLatency, SortByRt(kept), cfg.channelNum * 2) + [Entry(route, now)], true)
  }

  /** The first entry with the given key, or the length of the list. */
  function FirstWithKey(list: seq<Entry>, key: RouteKey): (i: nat)
    ensures i <= |list|
    ensures forall j :: 0 <= j < i ==> list[j].route.Key() != key
    ensures i < |list| ==> list[i].route.Key() == key
  {
    if list == [] || list[0].route.Key() == key then 0 else 1 + FirstWithKey(list[1..], key)
  }

  function Touched(list: seq<Entry>, key: RouteKey, now: int): (r: seq<Entry>)
    ensures |r| == |list|
    ensures forall i :: 0 <= i < |list| ==>
      r[i] == if list[i].route.Key() == key && (forall j :: 0 <= j < i ==> list[j].route.Key() != key)
              then Entry(list[i].route, now) else list[i]
  {
    var i := FirstWithKey(list, key);
    if i < |list| then list[i := list[i].(readTime := now)] else list
  }

  function P2pCount(list: seq<Entry>): (n: nat)
    ensures n <= |list|
  {
    if list == [] then 0
    else P2pCount(list[..|list| - 1]) + if list[|list| - 1].route.IsP2p() then 1 else 0
  }

  // ----- the invariant is kept

  lemma {:induction false} RetainedElements(list: seq<Entry>, keep: Entry -> bool, e: Entry)
    ensures e in Retained(list, keep) <==> e in list && keep(e)
  {
    if list != [] {
      var n := |list| - 1;
      RetainedElements(list[..n], keep, e);
      assert list == list[..n] + [list[n]];
    }
  }

  lemma {:induction false} RetainedKeepsKeysDistinct(list: seq<Entry>, keep: Entry -> bool)
    requires DistinctKeys(list)
    ensures DistinctKeys(Retained(list, keep))
  {
    if list != [] {
      var n := |list| - 1;
      var init := Retained(list[..n], keep);
      RetainedKeepsKeysDistinct(list[..n], keep);
      forall k | 0 <= k < |init| ensures init[k].route.Key() != list[n].route.Key() {
        RetainedElements(list[..n], keep, init[k]);
      }
    }
  }

  lemma {:induction false} RetainedKeepsSorted(list: seq<Entry>, keep: Entry -> bool)
    requires SortedByRt(list)
    ensures SortedByRt(Retained(list, keep))
  {
    if list != [] {
      var n := |list| - 1;
      var init := Retained(list[..n], keep);
      RetainedKeepsSorted(list[..n], keep);
      forall k | 0 <= k < |init| ensures init[k].route.rt <= list[n].route.rt {
        RetainedElements(list[..n], keep, init[k]);
      }
    }
  }

  lemma RetainedKeepsSortedButLast(list: seq<Entry>, keep: Entry -> bool)
    requires SortedButLast(list)
    ensures SortedButLast(Retained(list, keep))
  {
    if list != [] {
      RetainedKeepsSorted(list[..|list| - 1], keep);
    }
  }

  lemma RetainKeepsInvariant(cfg: Config, list: seq<Entry>, keep: Entry -> bool)
    requires ListInv(cfg, list)
    ensures Retained(list, keep) == [] || ListInv(cfg, Retained(list, keep))
  {
    RetainedKeepsKeysDistinct(list, keep);
    RetainedKeepsSortedButLast(list, keep);
    forall k | 0 <= k < |Retained(list, keep)| ensures Retained(list, keep)[k] in list {
      RetainedElements(list, keep, Retained(list, keep)[k]);
    }
  }

  lemma RefreshKeepsKeysAndKind(list: seq<Entry>, i: nat, route: Route, now: int)
    requires i < |list| && list[i].route.Key() == route.Key() && DistinctKeys(list)
    ensures DistinctKeys(Refreshed(list, i, route, now))
    ensures AllP2p(list) && route.IsP2p() ==> AllP2p(Refreshed(list, i, route, now))
  {
    var updated := Refreshed(list, i, route, now);
    forall k | 0 <= k < |list| ensures updated[k].route.Key() == list[k].route.Key() {
    }
  }

  lemma UpdateKeepsInvariant(cfg: Config, list: seq<Entry>, i: nat, route: Route, now: int)
    requires cfg.Valid() && ListInv(cfg, list) && cfg.Admits(route)
    requires i < |list| && list[i].route.Key() == route.Key()
    ensures ListInv(cfg, Updated(cfg, list, i, route, now))
    ensures SortedByRt(Updated(cfg, list, i, route, now))
  {
    var updated := Refreshed(list, i, route, now);
    var sorted := SortByRt(updated);
    RefreshKeepsKeysAndKind(list, i, route, now);
    SortSorts(updated);
    SortKeepsKeysDistinct(updated);
    if cfg.channelType == P2p {
      SortKeepsAllP2p(updated);
    }
    TruncateShape(cfg.firstLatency, sorted, cfg.UpdateLimit());
  }

  /** Sorting and truncating loses entries but invents none. */
  lemma SortTruncateElements(firstLatency: bool, list: seq<Entry>, len: nat)
    requires len >= 1
    ensures forall e :: e in Truncated(firstLatency, SortByRt(list), len) ==> e in list
  {
    forall e | e in SortByRt(list) ensures e in list {
      var k :| 0 <= k < |list| && SortByRt(list)[k] == e;
      var i := SortOrigin(list, k);
    }
  }

  lemma AppendKeepsInvariant(cfg: Config, cut: seq<Entry>, e: Entry)
    requires |cut| < cfg.MaxLen() && DistinctKeys(cut) && SortedByRt(cut) && !HasKey(cut, e.route.Key())
    requires cfg.channelType == P2p ==> AllP2p(cut) && e.route.IsP2p()
    ensures ListInv(cfg, cut + [e])
  {
  }

  lemma PushKeepsInvariant(cfg: Config, kept: seq<Entry>, route: Route, now: int)
    requires cfg.Valid() && cfg.Admits(route)
    requires |kept| <= cfg.MaxLen() && DistinctKeys(kept) && (cfg.channelType == P2p ==> AllP2p(kept))
    requires !HasKey(kept, route.Key())
    requires cfg.firstLatency || |kept| < cfg.channelNum
    ensures ListInv(cfg, Truncated(cfg.firstLatency, SortByRt(kept), cfg.channelNum * 2) + [Entry(route, now)])
  {
    var cut := Truncated(cfg.firstLatency, SortByRt(kept), cfg.channelNum * 2);
    SortSorts(kept);
    SortKeepsKeysDistinct(kept);
    if cfg.channelType == P2p {
      SortKeepsAllP2p(kept);
    }
    TruncateShape(cfg.firstLatency, SortByRt(kept), cfg.channelNum * 2);
    assert !HasKey(cut, route.Key()) by {
      SortTruncateElements(cfg.firstLatency, kept, cfg.channelNum * 2);
      forall k | 0 <= k < |cut| ensures cut[k].route.Key() != route.Key() {
        assert cut[k] in kept;
      }
    }
    AppendKeepsInvariant(cfg, cut, Entry(route, now));
  }

  /** An add, whatever its answer, leaves a list that satisfies the invariant; a peer that had no
      list yet gets a non-empty one. */
  lemma AddKeepsInvariant(cfg: Config, list: seq<Entry>, route: Route, onlyIfAbsent: bool, now: int)
    requires cfg.Valid() && cfg.Admits(route)
    requires list == [] || ListInv(cfg, list)
    ensures ListInv(cfg, Added(cfg, list, route, onlyIfAbsent, now).0)
  {
    var i := FirstStop(cfg, list, route);
    if i < |list| {
      if !Blocks(cfg, list[i], route) && !onlyIfAbsent {
        UpdateKeepsInvariant(cfg, list, i, route, now);
      }
    } else {
      var kept := Kept(cfg, list, route);
      if kept != list {
        RetainKeepsInvariant(cfg, list, KeepP2p());
      }
      forall k | 0 <= k < |kept| ensures kept[k] in list {
        RetainedElements(list, KeepP2p(), kept[k]);
      }
      if cfg.firstLatency || |kept| < cfg.channelNum {
        PushKeepsInvariant(cfg, kept, route, now);
      }
    }
  }

  // ----- what an add achieves when latency does not come first

  /** Every hop count held in `old` is matched or beaten by one held in `new`. */
  predicate NoWorse(old_: seq<Entry>, new_: seq<Entry>) {
    forall i :: 0 <= i < |old_| ==> Within(new_, old_[i].route.metric)
  }

  predicate Within(list: seq<Entry>, metric: int) {
    exists j :: 0 <= j < |list| && list[j].route.metric <= metric
  }

  /** Every entry is still in the list once it is sorted. */
  lemma SortKeepsEntry(list: seq<Entry>, i: nat)
    requires i < |list|
    ensures list[i] in SortByRt(list)
  {
    SortPlaces(list, i);
  }

  /** An add never makes the best known hop count worse, even when it purges relayed routes. */
  lemma AddNeverWorsens(cfg: Config, list: seq<Entry>, route: Route, onlyIfAbsent: bool, now: int)
    requires cfg.Valid() && !cfg.firstLatency
    requires list == [] || ListInv(cfg, list)
    ensures NoWorse(list, Added(cfg, list, route, onlyIfAbsent, now).0)
  {
    var new_ := Added(cfg, list, route, onlyIfAbsent, now).0;
    var s := FirstStop(cfg, list, route);
    forall i | 0 <= i < |list| ensures Within(new_, list[i].route.metric) {
      if s < |list| {
        if !Blocks(cfg, list[s], route) && !onlyIfAbsent {
          SortKeepsEntry(Refreshed(list, s, route, now), i);
          assert Refreshed(list, s, route, now)[i] in new_;
        } else {
          assert new_[i] == list[i];
        }
      } else if |new_| == |Kept(cfg, list, route)| {
        assert new_ == Kept(cfg, list, route);
        assert new_[if route.IsP2p() then 0 else i].route.metric <= list[i].route.metric;
      } else if route.IsP2p() {
        assert new_[|new_| - 1].route == route;
      } else {
        SortKeepsEntry(list, i);
        assert list[i] in new_;
      }
    }
  }

  /** An add that answers true has the route in the list afterwards. */
  lemma AddTrueMeansPresent(cfg: Config, list: seq<Entry>, route: Route, onlyIfAbsent: bool, now: int)
    requires cfg.Valid() && !cfg.firstLatency
    requires list == [] || ListInv(cfg, list)
    requires Added(cfg, list, route, onlyIfAbsent, now).1
    ensures HasKey(Added(cfg, list, route, onlyIfAbsent, now).0, route.Key())
  {
    var new_ := Added(cfg, list, route, onlyIfAbsent, now).0;
    var s := FirstStop(cfg, list, route);
    if s == |list| {
      assert new_[|new_| - 1].route == route;
    } else if onlyIfAbsent {
      assert new_[s].route.Key() == route.Key();
    } else {
      SortPlaces(Refreshed(list, s, route, now), s);
      assert new_[Rank(Refreshed(list, s, route, now), s)].route == route;
    }
  }

  // ----- what an add does to a list, in full

  /** The held routes that stay when `route` is new: a direct route makes all others go. */
  ghost function Staying(list: seq<Entry>, route: Route): set<int> {
    set i | 0 <= i < |list| && (route.metric == 1 ==> list[i].route.metric == 1)
  }

  lemma {:induction false} RetainedCount(list: seq<Entry>, keep: Entry -> bool)
    ensures |Retained(list, keep)| == |set i | 0 <= i < |list| && keep(list[i])|
  {
    var kept := set i | 0 <= i < |list| && keep(list[i]);
    if list == [] {
      assert kept == {};
    } else {
      RetainedCount(list[..|list| - 1], keep);
      OneMoreIndex(list, keep, |list| - 1);
    }
  }

  lemma OneMoreIndex(list: seq<Entry>, keep: Entry -> bool, n: nat)
    requires n + 1 == |list|
    ensures |set i | 0 <= i < |list| && keep(list[i])|
         == |set i | 0 <= i < n && keep(list[..n][i])| + if keep(list[n]) then 1 else 0
  {
    var init := set i | 0 <= i < n && keep(list[..n][i]);
    assert (set i | 0 <= i < |list| && keep(list[i])) == init + if keep(list[n]) then {n} else {};
  }

  lemma KeptIsStaying(cfg: Config, list: seq<Entry>, route: Route)
    requires !cfg.firstLatency
    ensures |Kept(cfg, list, route)| == |Staying(list, route)|
    ensures forall e :: e in Kept(cfg, list, route) <==> e in list && (route.metric == 1 ==> e.route.metric == 1)
  {
    if route.metric == 1 {
      RetainedCount(list, KeepP2p());
      assert Staying(list, route) == set i | 0 <= i < |list| && KeepP2p()(list[i]);
      forall e ensures e in Kept(cfg, list, route) <==> e in list && e.route.metric == 1 {
        RetainedElements(list, KeepP2p(), e);
      }
    } else {
      RetainedCount(list, e => true);
      AllRetained(list);
      assert Staying(list, route) == set i | 0 <= i < |list| && ((e: Entry) => true)(list[i]);
    }
  }

  lemma {:induction false} AllRetained(list: seq<Entry>)
    ensures Retained(list, e => true) == list
  {
    if list != [] {
      AllRetained(list[..|list| - 1]);
    }
  }

  // ----- ... and when it does

  predicate P2pAhead(list: seq<Entry>, len: nat) {
    exists i :: 0 <= i < |list| && list[i].route.IsP2p() && Rank(list, i) < len
  }

  predicate IsFastestP2p(list: seq<Entry>, i: nat)
    requires i < |list|
  {
    && list[i].route.IsP2p()
    && forall j :: 0 <= j < |list| && list[j].route.IsP2p() ==> Rank(list, i) <= Rank(list, j)
  }

  /** Whether the entry at `i` outlives sorting and truncating to `len` routes. */
  predicate Outlives(list: seq<Entry>, i: nat, len: nat)
    requires i < |list|
  {
    || |list| <= len
    || Rank(list, i) < len - 1
    || (Rank(list, i) == len - 1 && (P2pAhead(list, len) || forall j :: 0 <= j < |list| ==> !list[j].route.IsP2p()))
    || IsFastestP2p(list, i)
  }

  /** The first peer-to-peer position of the sorted list, read off the ranks. */
  lemma FirstP2pRank(list: seq<Entry>) returns (best: nat)
    requires exists j :: 0 <= j < |list| && list[j].route.IsP2p()
    ensures best < |list| && IsFastestP2p(list, best)
    ensures Rank(list, best) == FirstP2p(SortByRt(list)) < |list|
  {
    var sorted := SortByRt(list);
    var j :| 0 <= j < |list| && list[j].route.IsP2p();
    SortPlaces(list, j);
    best := SortOrigin(list, FirstP2p(sorted));
    forall j | 0 <= j < |list| && list[j].route.IsP2p() ensures Rank(list, best) <= Rank(list, j) {
      SortPlaces(list, j);
    }
  }

  lemma P2pAheadIffFirst(list: seq<Entry>, len: nat)
    ensures P2pAhead(list, len) <==> FirstP2p(SortByRt(list)) < len && FirstP2p(SortByRt(list)) < |list|
    ensures (exists j :: 0 <= j < |list| && list[j].route.IsP2p()) <==> FirstP2p(SortByRt(list)) < |list|
  {
    if exists j :: 0 <= j < |list| && list[j].route.IsP2p() {
      var best := FirstP2pRank(list);
    } else if FirstP2p(SortByRt(list)) < |list| {
      var j := SortOrigin(list, FirstP2p(SortByRt(list)));
    }
  }

  /** Which positions of a list with distinct keys survive a truncation. */
  lemma TruncateKeepsPositions(sorted: seq<Entry>, r: nat, len: nat)
    requires DistinctKeys(sorted) && r < |sorted| && len >= 1
    ensures HasKey(Truncated(true, sorted, len), sorted[r].route.Key()) <==>
              || |sorted| <= len
              || r < len - 1
              || (r == len - 1 && (FirstP2p(sorted) < len || FirstP2p(sorted) == |sorted|))
              || r == FirstP2p(sorted)
  {
    var cut, first := Truncated(true, sorted, len), FirstP2p(sorted);
    var moved := |sorted| > len && len <= first < |sorted|;
    if moved && r == first {
      assert cut[len - 1] == sorted[r];
    } else if |sorted| <= len || r < len - 1 || (r == len - 1 && !moved) {
      assert cut[r] == sorted[r];
    } else {
      forall k | 0 <= k < |cut| ensures cut[k].route.Key() != sorted[r].route.Key() {
        assert cut[k] == sorted[if moved && k == len - 1 then first else k];
      }
    }
  }

  lemma FastestP2pRank(list: seq<Entry>, i: nat)
    requires i < |list|
    ensures IsFastestP2p(list, i) <==> Rank(list, i) == FirstP2p(SortByRt(list))
  {
    SortPlaces(list, i);
    P2pAheadIffFirst(list, 0);
    if exists j :: 0 <= j < |list| && list[j].route.IsP2p() {
      var best := FirstP2pRank(list);
      SortPlaces(list, best);
      assert Rank(list, i) == Rank(list, best) ==> list[i] == list[best];
    }
  }

  /** In a list with distinct keys a route is present after sorting and truncating exactly when
      it outlives them. */
  lemma TruncateKeepsExactly(list: seq<Entry>, i: nat, len: nat)
    requires DistinctKeys(list) && i < |list| && len >= 1
    ensures HasKey(Truncated(true, SortByRt(list), len), list[i].route.Key()) <==> Outlives(list, i, len)
  {
    SortPlaces(list, i);
    SortKeepsKeysDistinct(list);
    P2pAheadIffFirst(list, len);
    FastestP2pRank(list, i);
    TruncateKeepsPositions(SortByRt(list), Rank(list, i), len);
  }

  /** The entry refreshed by an update of a known route outlives it. */
  predicate OutlivesUpdate(cfg: Config, list: seq<Entry>, route: Route, now: int)
    requires HasKey(list, route.Key()) && cfg.firstLatency
  {
    var i := FirstStop(cfg, list, route);
    var updated := Refreshed(list, i, route, now);
    !AllMeasured(updated) || Outlives(updated, i, cfg.channelNum + 2)
  }

  /** When latency comes first, an update always answers true, yet the updated route is present
      afterwards exactly when some round-trip time is still unmeasured or the route outlives the
      truncation: a slow route may be reported as added although it was just dropped. */
  lemma UpdateTruePresentExactly(cfg: Config, list: seq<Entry>, route: Route, now: int)
    requires cfg.Valid() && cfg.firstLatency && ListInv(cfg, list) && HasKey(list, route.Key())
    ensures Added(cfg, list, route, false, now).1
    ensures HasKey(Added(cfg, list, route, false, now).0, route.Key()) <==> OutlivesUpdate(cfg, list, route, now)
  {
    var i := FirstStop(cfg, list, route);
    var updated := Refreshed(list, i, route, now);
    SortKeepsMeasured(updated);
    if AllMeasured(updated) {
      TruncateKeepsExactly(updated, i, cfg.channelNum + 2);
    } else {
      SortPlaces(updated, i);
      assert SortByRt(updated)[Rank(updated, i)].route.Key() == route.Key();
    }
  }

  /** The same for every add in both modes: an add that answers true has the route in the list afterwards,
      except exactly if latency comes first, the route was known, it is not an add-if-absent, and the
      refreshed route does not outlive the truncation.  When latency comes first every add answers true. */
  lemma TruePresentExactly(cfg: Config, list: seq<Entry>, route: Route, onlyIfAbsent: bool, now: int)
    requires cfg.Valid() && (list == [] || ListInv(cfg, list))
    ensures var (after, added) := Added(cfg, list, route, onlyIfAbsent, now);
            && (cfg.firstLatency ==> added)
            && (added ==>
                  (HasKey(after, route.Key()) <==>
                    (cfg.firstLatency && !onlyIfAbsent && HasKey(list, route.Key()) ==>
                       OutlivesUpdate(cfg, list, route, now))))
  {
    if !cfg.firstLatency {
      if Added(cfg, list, route, onlyIfAbsent, now).1 {
        AddTrueMeansPresent(cfg, list, route, onlyIfAbsent, now);
      }
    } else if HasKey(list, route.Key()) && !onlyIfAbsent {
      UpdateTruePresentExactly(cfg, list, route, now);
    } else {
      NotUpdatedPresent(cfg, list, route, onlyIfAbsent, now);
    }
  }

  lemma NotUpdatedPresent(cfg: Config, list: seq<Entry>, route: Route, onlyIfAbsent: bool, now: int)
    requires cfg.Valid() && cfg.firstLatency && (onlyIfAbsent || !HasKey(list, route.Key()))
    ensures Added(cfg, list, route, onlyIfAbsent, now).1
    ensures HasKey(Added(cfg, list, route, onlyIfAbsent, now).0, route.Key())
  {
    var after := Added(cfg, list, route, onlyIfAbsent, now).0;
    var i := FirstStop(cfg, list, route);
    if i == |list| {
      assert after[|after| - 1].route == route;
    } else {
      assert after[i].route.Key() == route.Key();
    }
  }

  // ----- every outcome of an add, in terms of what was held

  /** Hop counts first: a route held before the key was found that is shorter settles it, */
  lemma ShorterRefuses(cfg: Config, list: seq<Entry>, i: nat, route: Route, onlyIfAbsent: bool, now: int)
    requires cfg.Valid() && !cfg.firstLatency && i < |list| && list[i].route.metric < route.metric
    requires forall j :: 0 <= j < i ==> list[j].route.Key() != route.Key()
    ensures Added(cfg, list, route, onlyIfAbsent, now) == (list, false)
  {
    var s := FirstStop(cfg, list, route);
    assert s <= i;
    assert Blocks(cfg, list[s], route);
  }

  /** a new direct route makes all relayed ones go, any other new one none, and there is room for it
      exactly if fewer than the number of channels are left. */
  lemma NewInHops(cfg: Config, list: seq<Entry>, route: Route, onlyIfAbsent: bool, now: int)
    requires cfg.Valid() && !cfg.firstLatency && |list| <= cfg.channelNum
    requires forall i :: 0 <= i < |list| ==> list[i].route.Key() != route.Key() && list[i].route.metric >= route.metric
    ensures var (after, added) := Added(cfg, list, route, onlyIfAbsent, now);
      && (added <==> |Staying(list, route)| < cfg.channelNum)
      && |after| == |Staying(list, route)| + (if added then 1 else 0)
      && (forall e :: e in after <==>
            (e in list && (route.metric == 1 ==> e.route.metric == 1)) || (added && e == Entry(route, now)))
      && (added ==> after[|after| - 1] == Entry(route, now) && SortedByRt(after[..|after| - 1]))
  {
    var kept := Kept(cfg, list, route);
    assert FirstStop(cfg, list, route) == |list|;
    KeptIsStaying(cfg, list, route);
    if |kept| < cfg.channelNum {
      var sorted := SortByRt(kept);
      var after := sorted + [Entry(route, now)];
      assert Added(cfg, list, route, onlyIfAbsent, now) == (after, true);
      SortSorts(kept);
      assert after[..|after| - 1] == sorted;
      forall e ensures e in after <==> e in kept || e == Entry(route, now) {
        SortKeepsElements(kept, e);
      }
    }
  }

  /** Both modes: a known route that nothing shorter comes before is left alone by an add-if-absent, */
  lemma KnownStays(cfg: Config, list: seq<Entry>, i: nat, route: Route, now: int)
    requires cfg.Valid() && i < |list| && list[i].route.Key() == route.Key()
    requires forall j :: 0 <= j < i ==> list[j].route.Key() != route.Key()
    requires !cfg.firstLatency ==> forall j :: 0 <= j <= i ==> list[j].route.metric >= route.metric
    ensures Added(cfg, list, route, true, now) == (list, true)
  {
    assert FirstStop(cfg, list, route) == i;
  }

  /** and updated in its place by any other add.  Hop counts first, all routes stay; latency first, all
      do until the last one is measured, and then those that outlive the truncation. */
  lemma KnownUpdated(cfg: Config, list: seq<Entry>, i: nat, route: Route, now: int)
    requires cfg.Valid() && ListInv(cfg, list) && i < |list| && list[i].route.Key() == route.Key()
    requires !cfg.firstLatency ==> forall j :: 0 <= j <= i ==> list[j].route.metric >= route.metric
    ensures var (after, added) := Added(cfg, list, route, false, now);
            var updated := list[i := Entry(route, now)];
      && added && SortedByRt(after)
      && (forall e :: e in after ==> e in updated)
      && (forall k :: 0 <= k < |updated| ==>
            (updated[k] in after <==>
              || !cfg.firstLatency
              || (exists j :: 0 <= j < |updated| && updated[j].route.rt == 9999)
              || Outlives(updated, k, cfg.channelNum + 2)))
  {
    assert FirstStop(cfg, list, route) == i;
    var updated := Refreshed(list, i, route, now);
    assert updated == list[i := Entry(route, now)];
    UpdateKeepsSorted(cfg, list, i, route, now);
    RefreshKeepsKeysAndKind(list, i, route, now);
    var after := Updated(cfg, list, i, route, now);
    assert after == Reordered(cfg, updated);
    forall e | e in after ensures e in updated {
      SortTruncateElements(cfg.firstLatency, updated, cfg.UpdateLimit());
      SortKeepsElements(updated, e);
    }
    forall k | 0 <= k < |updated|
      ensures updated[k] in after <==>
        !cfg.firstLatency || !AllMeasured(updated) || Outlives(updated, k, cfg.channelNum + 2)
    {
      ReorderedKeeps(cfg, updated, k);
    }
  }

  ghost function Reordered(cfg: Config, list: seq<Entry>): seq<Entry>
    requires cfg.Valid()
  {
    if AllMeasured(SortByRt(list)) then Truncated(cfg.firstLatency, SortByRt(list), cfg.UpdateLimit()) else SortByRt(list)
  }

  lemma ReorderedKeeps(cfg: Config, list: seq<Entry>, k: nat)
    requires cfg.Valid() && DistinctKeys(list) && |list| <= cfg.MaxLen() && k < |list|
    ensures list[k] in Reordered(cfg, list)
      <==> !cfg.firstLatency || !AllMeasured(list) || Outlives(list, k, cfg.channelNum + 2)
  {
    SortKeepsMeasured(list);
    SortKeepsElements(list, list[k]);
    if cfg.firstLatency && AllMeasured(list) {
      SurvivesExactly(list, k, cfg.channelNum + 2);
    }
  }

  lemma UpdateKeepsSorted(cfg: Config, list: seq<Entry>, i: nat, route: Route, now: int)
    requires cfg.Valid() && i < |list| && list[i].route.Key() == route.Key()
    ensures SortedByRt(Updated(cfg, list, i, route, now))
  {
    SortSorts(Refreshed(list, i, route, now));
    TruncateShape(cfg.firstLatency, SortByRt(Refreshed(list, i, route, now)), cfg.UpdateLimit());
  }

  lemma SurvivesExactly(list: seq<Entry>, i: nat, len: nat)
    requires DistinctKeys(list) && i < |list| && len >= 1
    ensures list[i] in Truncated(true, SortByRt(list), len) <==> Outlives(list, i, len)
  {
    var cut := Truncated(true, SortByRt(list), len);
    TruncateKeepsExactly(list, i, len);
    if k :| 0 <= k < |cut| && cut[k].route.Key() == list[i].route.Key() {
      SortTruncateElements(true, list, len);
      assert cut[k] in list;
      assert cut[k] == list[i];
    }
  }

  /** Latency first: a new route goes to the end, behind those of the others that outlive a truncation to
      twice the number of channels, in order of their round-trip times. */
  lemma NewInLatency(cfg: Config, list: seq<Entry>, route: Route, onlyIfAbsent: bool, now: int)
    requires cfg.Valid() && cfg.firstLatency && DistinctKeys(list) && !HasKey(list, route.Key())
    ensures var (after, added) := Added(cfg, list, route, onlyIfAbsent, now);
      && added && |after| > 0 && after[|after| - 1] == Entry(route, now)
      && SortedByRt(after[..|after| - 1])
      && (forall e :: e in after[..|after| - 1] ==> e in list)
      && (forall i :: 0 <= i < |list| ==> (list[i] in after[..|after| - 1] <==> Outlives(list, i, 2 * cfg.channelNum)))
  {
    assert FirstStop(cfg, list, route) == |list|;
    var cut := Truncated(true, SortByRt(list), cfg.channelNum * 2);
    var after := Added(cfg, list, route, onlyIfAbsent, now).0;
    assert after == cut + [Entry(route, now)];
    assert after[..|after| - 1] == cut;
    CutIsSorted(list, cfg.channelNum * 2);
    SortTruncateElements(true, list, cfg.channelNum * 2);
    forall i | 0 <= i < |list| ensures list[i] in cut <==> Outlives(list, i, 2 * cfg.channelNum) {
      SurvivesExactly(list, i, cfg.channelNum * 2);
    }
  }

  lemma CutIsSorted(list: seq<Entry>, len: nat)
    requires len >= 1
    ensures SortedByRt(Truncated(true, SortByRt(list), len))
  {
    SortSorts(list);
    TruncateShape(true, SortByRt(list), len);
  }

  lemma SortKeepsElements(list: seq<Entry>, e: Entry)
    ensures e in SortByRt(list) <==> e in list
  {
    if e in SortByRt(list) {
      var k :| 0 <= k < |list| && SortByRt(list)[k] == e;
      var i := SortOrigin(list, k);
    }
    if e in list {
      var i :| 0 <= i < |list| && list[i] == e;
      SortPlaces(list, i);
    }
  }

  lemma SortKeepsMeasured(list: seq<Entry>)
    ensures AllMeasured(SortByRt(list)) <==> AllMeasured(list)
  {
    if AllMeasured(list) {
      forall k | 0 <= k < |list| ensures SortByRt(list)[k].route.rt != DEFAULT_RT {
        var j := SortOrigin(list, k);
      }
    } else {
      var j :| 0 <= j < |list| && list[j].route.rt == DEFAULT_RT;
      SortPlaces(list, j);
    }
  }

  lemma {:induction false} CountAll(list: seq<Entry>, e: Entry)
    requires forall i :: 0 <= i < |list| ==> list[i].route.rt <= e.route.rt
    ensures StableSorts.CountAtMost(Faster, list, e) == |list|
  {
    if list != [] {
      CountAll(list[..|list| - 1], e);
    }
  }

  /** Relayed routes over different addresses, each slower than the one before. */
  function SlowerAndSlower(n: nat): (list: seq<Entry>)
    ensures |list| == n
  {
    seq(n, i requires 0 <= i < n => Entry(Route(UDP, i, V4(Ipv4Addr(0, 0, 0, 0), 1), 2, i + 1), 0))
  }

  lemma SlowerAndSlowerIsValid()
    ensures ListInv(Config(true, 2, All), SlowerAndSlower(5))
  {
    var list := SlowerAndSlower(5);
    assert forall i :: 0 <= i < 5 ==> list[i].route.addr == V4(Ipv4Addr(0, 0, 0, 0), 1) && list[i].route.index == i;
  }

  /** For instance: of five relayed routes on two channels the slowest one is measured again; the update
      is reported to have succeeded, and the route is gone. */
  lemma UpdatedYetDropped(now: int)
    ensures var cfg, list := Config(true, 2, All), SlowerAndSlower(5);
            var (after, added) := Added(cfg, list, list[4].route, false, now);
            ListInv(cfg, list) && added && !HasKey(after, list[4].route.Key())
  {
    var cfg, list := Config(true, 2, All), SlowerAndSlower(5);
    var route := list[4].route;
    SlowerAndSlowerIsValid();
    var i := FirstStop(cfg, list, route);
    assert list[4].route.Key() == route.Key();
    var updated := Refreshed(list, i, route, now);
    UpdateTruePresentExactly(cfg, list, route, now);
    CountAll(updated[..4], updated[4]);
    assert Rank(updated, 4) == 4;
  }
}
