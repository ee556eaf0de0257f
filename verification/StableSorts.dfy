/** What the stable sort of the standard library does, under any order with ties. */
module StableSorts {

  /** `before` orders strictly, up to ties. */
  ghost predicate WeakOrder<T(!new)>(before: (T, T) -> bool) {
    forall a, b, c :: OrderLaw(before, a, b, c)
  }

  predicate OrderLaw<T>(before: (T, T) -> bool, a: T, b: T, c: T) {
    && (before(a, b) ==> !before(b, a))
    && (!before(a, b) && !before(b, c) ==> !before(a, c))
  }

  ghost predicate Sorted<T>(before: (T, T) -> bool, list: seq<T>) {
    forall i, j :: 0 <= i < j < |list| ==> !before(list[j], list[i])
  }

  /** How many elements do not have to come behind `x`. */
  function CountAtMost<T>(before: (T, T) -> bool, list: seq<T>, x: T): (n: nat)
    ensures n <= |list|
  {
    if list == [] then 0
    else CountAtMost(before, list[..|list| - 1], x) + if before(x, list[|list| - 1]) then 0 else 1
  }

  /** How many elements have to come before `x`. */
  function CountBelow<T>(before: (T, T) -> bool, list: seq<T>, x: T): (n: nat)
    ensures n <= |list|
  {
    if list == [] then 0
    else CountBelow(before, list[..|list| - 1], x) + if before(list[|list| - 1], x) then 1 else 0
  }

  function Insert<T>(sorted: seq<T>, x: T, at: nat): (r: seq<T>)
    requires at <= |sorted|
    ensures |r| == |sorted| + 1 && r[at] == x
    ensures forall k :: 0 <= k < at ==> r[k] == sorted[k]
    ensures forall k :: at <= k < |sorted| ==> r[k + 1] == sorted[k]
  {
    sorted[..at] + [x] + sorted[at..]
  }

  function Sort<T>(before: (T, T) -> bool, list: seq<T>): (sorted: seq<T>)
    ensures |sorted| == |list|
  {
    if list == [] then []
    else
      var rest, last := list[..|list| - 1], list[|list| - 1];
      Insert(Sort(before, rest), last, CountAtMost(before, rest, last))
  }

  /** In a sorted list the elements that do not have to come behind `x` are a prefix. */
  lemma {:induction false} CountAtMostOfSorted<T(!new)>(before: (T, T) -> bool, list: seq<T>, x: T, k: nat)
    requires WeakOrder(before) && Sorted(before, list) && k < |list|
    ensures k < CountAtMost(before, list, x) <==> !before(x, list[k])
  {
    var n := |list| - 1;
    if k < n {
      CountAtMostOfSorted(before, list[..n], x, k);
      assert OrderLaw(before, x, list[n], list[k]);
    } else if n > 0 {
      CountAtMostOfSorted(before, list[..n], x, n - 1);
      assert OrderLaw(before, x, list[n], list[n - 1]);
    }
  }

  lemma {:induction false} CountAtMostSplit<T>(before: (T, T) -> bool, a: seq<T>, b: seq<T>, x: T)
    ensures CountAtMost(before, a + b, x) == CountAtMost(before, a, x) + CountAtMost(before, b, x)
  {
    if b == [] {
      assert a + b == a;
    } else {
      var n := |b| - 1;
      assert (a + b)[..|a + b| - 1] == a + b[..n];
      CountAtMostSplit(before, a, b[..n], x);
    }
  }

  lemma CountAtMostOne<T>(before: (T, T) -> bool, y: T, x: T)
    ensures CountAtMost(before, [y], x) == if before(x, y) then 0 else 1
  {
    assert [y][..0] == [];
  }

  lemma CountAtMostAround<T>(before: (T, T) -> bool, a: seq<T>, y: T, b: seq<T>, x: T)
    ensures CountAtMost(before, a + [y] + b, x)
         == CountAtMost(before, a, x) + (if before(x, y) then 0 else 1) + CountAtMost(before, b, x)
  {
    CountAtMostOne(before, y, x);
    CountAtMostSplit(before, a, [y], x);
    CountAtMostSplit(before, a + [y], b, x);
  }

  lemma InsertCounts<T>(before: (T, T) -> bool, sorted: seq<T>, y: T, at: nat, x: T)
    requires at <= |sorted|
    ensures CountAtMost(before, Insert(sorted, y, at), x)
         == CountAtMost(before, sorted, x) + if before(x, y) then 0 else 1
  {
    CountAtMostAround(before, sorted[..at], y, sorted[at..], x);
    CountAtMostParts(before, sorted, at, x);
  }

  lemma CountAtMostParts<T>(before: (T, T) -> bool, list: seq<T>, at: nat, x: T)
    requires at <= |list|
    ensures CountAtMost(before, list, x) == CountAtMost(before, list[..at], x) + CountAtMost(before, list[at..], x)
  {
    assert list == list[..at] + list[at..];
    CountAtMostSplit(before, list[..at], list[at..], x);
  }

  lemma InsertKeepsSorted<T(!new)>(before: (T, T) -> bool, sorted: seq<T>, x: T)
    requires WeakOrder(before) && Sorted(before, sorted)
    ensures Sorted(before, Insert(sorted, x, CountAtMost(before, sorted, x)))
  {
    forall k | 0 <= k < |sorted|
      ensures k < CountAtMost(before, sorted, x) <==> !before(x, sorted[k])
      ensures before(x, sorted[k]) ==> !before(sorted[k], x)
    {
      CountAtMostOfSorted(before, sorted, x, k);
      assert OrderLaw(before, x, sorted[k], x);
    }
  }

  lemma {:induction false} SortCounts<T>(before: (T, T) -> bool, list: seq<T>, x: T)
    ensures CountAtMost(before, Sort(before, list), x) == CountAtMost(before, list, x)
  {
    if list != [] {
      var rest, last := list[..|list| - 1], list[|list| - 1];
      SortCounts(before, rest, x);
      InsertCounts(before, Sort(before, rest), last, CountAtMost(before, rest, last), x);
    }
  }

  lemma {:induction false} SortSorts<T(!new)>(before: (T, T) -> bool, list: seq<T>)
    requires WeakOrder(before)
    ensures Sorted(before, Sort(before, list))
  {
    if list != [] {
      var n := |list| - 1;
      SortSorts(before, list[..n]);
      SortCounts(before, list[..n], list[n]);
      InsertKeepsSorted(before, Sort(before, list[..n]), list[n]);
    }
  }

  /** The position a stable sort must give to element `i`: behind all that have to come before it and
      behind the ties that stood before it. */
  function Rank<T>(before: (T, T) -> bool, list: seq<T>, i: nat): nat
    requires i < |list|
  {
    CountAtMost(before, list[..i], list[i]) + CountBelow(before, list[i + 1..], list[i])
  }

  lemma RankOfAppended<T>(before: (T, T) -> bool, list: seq<T>, i: nat)
    requires i < |list| - 1
    ensures var n := |list| - 1;
            Rank(before, list, i) == Rank(before, list[..n], i) + if before(list[n], list[i]) then 1 else 0
  {
    var n, rest := |list| - 1, list[i + 1..];
    assert rest[..|rest| - 1] == list[..n][i + 1..];
    assert rest[|rest| - 1] == list[n];
    assert list[..n][..i] == list[..i];
  }

  /** Appending an element shifts the ranks of exactly the elements it is inserted before. */
  lemma RankStep<T(!new)>(before: (T, T) -> bool, list: seq<T>, i: nat)
    requires WeakOrder(before) && i < |list| - 1
    requires Rank(before, list[..|list| - 1], i) < |list| - 1
    requires Sort(before, list[..|list| - 1])[Rank(before, list[..|list| - 1], i)] == list[i]
    ensures var n := |list| - 1;
            var at := Rank(before, list[..n], i);
            Rank(before, list, i) == if at < CountAtMost(before, list[..n], list[n]) then at else at + 1
  {
    var n := |list| - 1;
    var init, last := list[..n], list[n];
    var at := Rank(before, init, i);
    RankOfAppended(before, list, i);
    assert at < CountAtMost(before, init, last) <==> !before(last, list[i]) by {
      SortSorts(before, init);
      SortCounts(before, init, last);
      CountAtMostOfSorted(before, Sort(before, init), last, at);
    }
  }

  /** The sort puts every element at its rank, */
  lemma {:induction false} SortPlaces<T(!new)>(before: (T, T) -> bool, list: seq<T>, i: nat)
    requires WeakOrder(before) && i < |list|
    ensures Rank(before, list, i) < |list| && Sort(before, list)[Rank(before, list, i)] == list[i]
  {
    var n := |list| - 1;
    if i < n {
      SortPlaces(before, list[..n], i);
      RankStep(before, list, i);
    } else {
      assert list[i + 1..] == [];
    }
  }

  /** and nothing else: every position holds exactly one element of the list. */
  lemma {:induction false} SortOrigin<T(!new)>(before: (T, T) -> bool, list: seq<T>, k: nat) returns (i: nat)
    requires WeakOrder(before) && k < |list|
    ensures i < |list| && Rank(before, list, i) == k && Sort(before, list)[k] == list[i]
  {
    var n := |list| - 1;
    var at := CountAtMost(before, list[..n], list[n]);
    if k == at {
      i := n;
      assert list[i + 1..] == [];
    } else {
      i := SortOrigin(before, list[..n], if k < at then k else k - 1);
      RankStep(before, list, i);
    }
  }

  /** Stability: of two ties the one that stood first comes first. */
  lemma TiesKeepOrder<T(!new)>(before: (T, T) -> bool, list: seq<T>, i: nat, j: nat)
    requires WeakOrder(before) && i < j < |list| && !before(list[i], list[j]) && !before(list[j], list[i])
    ensures Rank(before, list, i) < Rank(before, list, j)
  {
    var x, y := list[i], list[j];
    var a, m, c := list[..i], list[i + 1..j], list[j + 1..];
    SameCounts(before, a, x, y);
    SameCounts(before, c, x, y);
    BelowAtMost(before, m, x, y);
    CountBelowAround(before, m, y, c, x);
    CountAtMostAround(before, a, x, m, y);
    assert list[i + 1..] == m + [y] + c;
    assert list[..j] == a + [x] + m;
  }

  lemma {:induction false} SameCounts<T(!new)>(before: (T, T) -> bool, list: seq<T>, x: T, y: T)
    requires WeakOrder(before) && !before(x, y) && !before(y, x)
    ensures CountAtMost(before, list, x) == CountAtMost(before, list, y)
    ensures CountBelow(before, list, x) == CountBelow(before, list, y)
  {
    if list != [] {
      var last := list[|list| - 1];
      SameCounts(before, list[..|list| - 1], x, y);
      assert OrderLaw(before, x, y, last) && OrderLaw(before, y, x, last);
      assert OrderLaw(before, last, x, y) && OrderLaw(before, last, y, x);
    }
  }

  lemma {:induction false} BelowAtMost<T(!new)>(before: (T, T) -> bool, list: seq<T>, x: T, y: T)
    requires WeakOrder(before) && !before(y, x)
    ensures CountBelow(before, list, x) <= CountAtMost(before, list, y)
  {
    if list != [] {
      var last := list[|list| - 1];
      BelowAtMost(before, list[..|list| - 1], x, y);
      assert OrderLaw(before, y, x, last) && OrderLaw(before, last, x, last);
      assert OrderLaw(before, last, y, x) && OrderLaw(before, y, last, x);
    }
  }

  lemma {:induction false} CountBelowAround<T>(before: (T, T) -> bool, a: seq<T>, y: T, b: seq<T>, x: T)
    ensures CountBelow(before, a + [y] + b, x)
         == CountBelow(before, a, x) + (if before(y, x) then 1 else 0) + CountBelow(before, b, x)
  {
    if b == [] {
      assert a + [y] + b == a + [y] && (a + [y])[..|a|] == a;
    } else {
      var n := |b| - 1;
      var all := a + [y] + b;
      assert all[..|all| - 1] == a + [y] + b[..n] && all[|all| - 1] == b[n];
      CountBelowAround(before, a, y, b[..n], x);
    }
  }
}
