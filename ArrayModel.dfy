/**
 * The array model that each visualizer panel owns: a sequence of items
 * `{value, id}` that the sort drivers change only by swapping two positions.
 * A run is described by the trace of swaps it performed; the properties every
 * driver shares (a permutation of the input, ids stay unique, equal values keep
 * their order when only strict adjacent inversions are swapped) are lemmas
 * about traces.
 */
module ArrayModel {

  /** One bar: its numeric value and the stable key the renderer matches it by. */
  datatype Item = Item(value: int, id: int)

  /** The exchange of the items at positions `i` and `j`. */
  datatype SwapPair = SwapPair(i: nat, j: nat)

  /** Non-decreasing by value. */
  ghost predicate Sorted(s: seq<Item>) {
    forall p, q :: 0 <= p < q < |s| ==> s[p].value <= s[q].value
  }

  /** No two positions carry the same id. */
  ghost predicate UniqueIds(s: seq<Item>) {
    forall p, q :: 0 <= p < q < |s| ==> s[p].id != s[q].id
  }

  /**
   * Among items of equal value, ids increase from left to right. Right after
   * seeding, ids are the positions, so a run that keeps this is stable.
   */
  ghost predicate TiesInIdOrder(s: seq<Item>) {
    forall p, q :: 0 <= p < q < |s| && s[p].value == s[q].value ==> s[p].id < s[q].id
  }

  /** `m` is the leftmost position of a smallest value in `s[i..]`. */
  ghost predicate LeftmostMin(s: seq<Item>, i: nat, m: nat) {
    i <= m < |s|
    && (forall k :: i <= k < |s| ==> s[m].value <= s[k].value)
    && (forall k :: i <= k < m ==> s[m].value < s[k].value)
  }

  function Swap(s: seq<Item>, i: nat, j: nat): seq<Item>
    requires i < |s| && j < |s|
  {
    s[i := s[j]][j := s[i]]
  }

  ghost predicate ValidSwaps(n: nat, trace: seq<SwapPair>) {
    forall k :: 0 <= k < |trace| ==> trace[k].i < n && trace[k].j < n
  }

  /** The array obtained by performing the swaps of `trace` on `s`, first to last. */
  ghost function ApplySwaps(s: seq<Item>, trace: seq<SwapPair>): (r: seq<Item>)
    requires ValidSwaps(|s|, trace)
    ensures |r| == |s|
    decreases |trace|
  {
    if trace == [] then s
    else
      var last := trace[|trace| - 1];
      Swap(ApplySwaps(s, trace[..|trace| - 1]), last.i, last.j)
  }

  /**
   * Every swap of `trace` exchanges two neighbours `(j, j + 1)` whose values
   * were strictly out of order at that moment (bubble and insertion sort).
   */
  ghost predicate InversionTrace(s: seq<Item>, trace: seq<SwapPair>)
    decreases |trace|
  {
    ValidSwaps(|s|, trace)
    && (trace != [] ==>
          var init, last := trace[..|trace| - 1], trace[|trace| - 1];
          var before := ApplySwaps(s, init);
          InversionTrace(s, init)
          && last.j == last.i + 1
          && before[last.i].value > before[last.j].value)
  }

  /**
   * Every swap of `trace` exchanges position `i` with the leftmost minimum of
   * `i..n-1`, for strictly increasing `i`, and never swaps a position with
   * itself (selection sort).
   */
  ghost predicate SelectionTrace(s: seq<Item>, trace: seq<SwapPair>)
    decreases |trace|
  {
    ValidSwaps(|s|, trace)
    && (trace != [] ==>
          var init, last := trace[..|trace| - 1], trace[|trace| - 1];
          SelectionTrace(s, init)
          && last.i < last.j
          && LeftmostMin(ApplySwaps(s, init), last.i, last.j)
          && (init != [] ==> init[|init| - 1].i < last.i))
  }

  /** Extending a trace by one swap performs that swap on the current array. */
  lemma ApplySwapsSnoc(s: seq<Item>, trace: seq<SwapPair>, p: SwapPair)
    requires ValidSwaps(|s|, trace) && p.i < |s| && p.j < |s|
    ensures ValidSwaps(|s|, trace + [p])
    ensures ApplySwaps(s, trace + [p]) == Swap(ApplySwaps(s, trace), p.i, p.j)
  {
    assert (trace + [p])[..|trace|] == trace;
  }

  /** `cur` is what the strict adjacent swaps of `trace` made of `s`. */
  ghost predicate InversionTraced(s: seq<Item>, trace: seq<SwapPair>, cur: seq<Item>) {
    InversionTrace(s, trace) && cur == ApplySwaps(s, trace)
  }

  /** `cur` is what the selection swaps of `trace` made of `s`. */
  ghost predicate SelectionTraced(s: seq<Item>, trace: seq<SwapPair>, cur: seq<Item>) {
    SelectionTrace(s, trace) && cur == ApplySwaps(s, trace)
  }

  lemma InversionTracedStart(s: seq<Item>)
    ensures InversionTraced(s, [], s)
  {
  }

  lemma SelectionTracedStart(s: seq<Item>)
    ensures SelectionTraced(s, [], s)
  {
  }

  /** Swapping a strict adjacent inversion extends an inversion trace. */
  lemma InversionTracedSnoc(s: seq<Item>, trace: seq<SwapPair>, cur: seq<Item>, j: nat)
    requires InversionTraced(s, trace, cur) && j + 1 < |cur| && cur[j].value > cur[j + 1].value
    ensures InversionTraced(s, trace + [SwapPair(j, j + 1)], Swap(cur, j, j + 1))
  {
    ApplySwapsSnoc(s, trace, SwapPair(j, j + 1));
    assert (trace + [SwapPair(j, j + 1)])[..|trace|] == trace;
  }

  /** Swapping the leftmost minimum of `cur[i..]` into `i`, past the last pass, extends a selection trace. */
  lemma SelectionTracedSnoc(s: seq<Item>, trace: seq<SwapPair>, cur: seq<Item>, i: nat, m: nat)
    requires SelectionTraced(s, trace, cur) && i < m && LeftmostMin(cur, i, m)
    requires trace != [] ==> trace[|trace| - 1].i < i
    ensures SelectionTraced(s, trace + [SwapPair(i, m)], Swap(cur, i, m))
  {
    ApplySwapsSnoc(s, trace, SwapPair(i, m));
    assert (trace + [SwapPair(i, m)])[..|trace|] == trace;
  }

  /** A single swap is a permutation. */
  lemma SwapPermutes(s: seq<Item>, i: nat, j: nat)
    requires i < |s| && j < |s|
    ensures multiset(Swap(s, i, j)) == multiset(s)
  {
  }

  /** Whatever swaps a run performs, the result is a permutation of its input. */
  lemma {:induction false} ApplySwapsPermutes(s: seq<Item>, trace: seq<SwapPair>)
    requires ValidSwaps(|s|, trace)
    ensures multiset(ApplySwaps(s, trace)) == multiset(s)
    decreases |trace|
  {
    if trace != [] {
      var init, last := trace[..|trace| - 1], trace[|trace| - 1];
      assert ValidSwaps(|s|, init);
      ApplySwapsPermutes(s, init);
      SwapPermutes(ApplySwaps(s, init), last.i, last.j);
    }
  }

  lemma SwapKeepsUniqueIds(s: seq<Item>, i: nat, j: nat)
    requires i < |s| && j < |s| && UniqueIds(s)
    ensures UniqueIds(Swap(s, i, j))
  {
    var t := Swap(s, i, j);
    forall p, q | 0 <= p < q < |t| ensures t[p].id != t[q].id {
      var p' := if p == i then j else if p == j then i else p;
      var q' := if q == i then j else if q == j then i else q;
      assert t[p] == s[p'] && t[q] == s[q'] && p' != q';
    }
  }

  /** Ids are never duplicated by a run: a swap moves items, it never copies one. */
  lemma {:induction false} ApplySwapsKeepsUniqueIds(s: seq<Item>, trace: seq<SwapPair>)
    requires ValidSwaps(|s|, trace) && UniqueIds(s)
    ensures UniqueIds(ApplySwaps(s, trace))
    decreases |trace|
  {
    if trace != [] {
      var init, last := trace[..|trace| - 1], trace[|trace| - 1];
      assert ValidSwaps(|s|, init);
      ApplySwapsKeepsUniqueIds(s, init);
      SwapKeepsUniqueIds(ApplySwaps(s, init), last.i, last.j);
    }
  }

  /** Swapping a strict adjacent inversion never reorders two equal values. */
  lemma InversionSwapKeepsTies(s: seq<Item>, j: nat)
    requires j + 1 < |s| && s[j].value > s[j + 1].value && TiesInIdOrder(s)
    ensures TiesInIdOrder(Swap(s, j, j + 1))
  {
    var t := Swap(s, j, j + 1);
    forall p, q | 0 <= p < q < |t| && t[p].value == t[q].value ensures t[p].id < t[q].id {
      var p' := if p == j then j + 1 else if p == j + 1 then j else p;
      var q' := if q == j then j + 1 else if q == j + 1 then j else q;
      assert t[p] == s[p'] && t[q] == s[q'];
      assert p' < q';
    }
  }

  /** Bubble and insertion sort are stable: equal values keep their relative order. */
  lemma {:induction false} InversionTraceIsStable(s: seq<Item>, trace: seq<SwapPair>)
    requires InversionTrace(s, trace) && TiesInIdOrder(s)
    ensures TiesInIdOrder(ApplySwaps(s, trace))
    decreases |trace|
  {
    if trace != [] {
      var init, last := trace[..|trace| - 1], trace[|trace| - 1];
      InversionTraceIsStable(s, init);
      InversionSwapKeepsTies(ApplySwaps(s, init), last.i);
    }
  }

  /**
   * What a run of bubble or insertion sort guarantees, stopped or not: a
   * permutation of its input, ids still unique, equal values in their old order.
   */
  lemma InversionTracedOutcome(s: seq<Item>, trace: seq<SwapPair>, cur: seq<Item>)
    requires InversionTraced(s, trace, cur)
    ensures |cur| == |s| && multiset(cur) == multiset(s)
    ensures UniqueIds(s) ==> UniqueIds(cur)
    ensures TiesInIdOrder(s) ==> TiesInIdOrder(cur)
  {
    ApplySwapsPermutes(s, trace);
    if UniqueIds(s) {
      ApplySwapsKeepsUniqueIds(s, trace);
    }
    if TiesInIdOrder(s) {
      InversionTraceIsStable(s, trace);
    }
  }

  /** What a run of selection sort guarantees, stopped or not: a permutation of its input, ids still unique. */
  lemma SelectionTracedOutcome(s: seq<Item>, trace: seq<SwapPair>, cur: seq<Item>)
    requires SelectionTraced(s, trace, cur)
    ensures |cur| == |s| && multiset(cur) == multiset(s)
    ensures UniqueIds(s) ==> UniqueIds(cur)
  {
    ApplySwapsPermutes(s, trace);
    if UniqueIds(s) {
      ApplySwapsKeepsUniqueIds(s, trace);
    }
  }

  /** Items ordered by value, then by id. */
  ghost predicate StrictlyOrdered(s: seq<Item>) {
    forall p, q :: 0 <= p < q < |s| ==> Before(s[p], s[q])
  }

  lemma SortedTiesOrdered(s: seq<Item>)
    requires Sorted(s) && TiesInIdOrder(s)
    ensures StrictlyOrdered(s)
  {
  }

  ghost predicate Before(x: Item, y: Item) {
    x.value < y.value || (x.value == y.value && x.id < y.id)
  }

  /** In a strictly ordered sequence the first item comes before every other item. */
  lemma FirstComesBefore(s: seq<Item>, x: Item)
    requires StrictlyOrdered(s) && x in s
    ensures s[0] == x || Before(s[0], x)
  {
    var k :| 0 <= k < |s| && s[k] == x;
  }

  /** What follows the first item is strictly ordered too. */
  lemma OrderedTail(s: seq<Item>)
    requires StrictlyOrdered(s) && s != []
    ensures StrictlyOrdered(s[1..])
  {
    forall p, q | 0 <= p < q < |s| - 1
      ensures Before(s[1..][p], s[1..][q])
    {
      assert s[1..][p] == s[p + 1] && s[1..][q] == s[q + 1];
    }
  }

  /** Removing the first item removes it from the multiset. */
  lemma DropFirst(s: seq<Item>)
    requires s != []
    ensures multiset(s[1..]) == multiset(s) - multiset{s[0]}
  {
    assert s == [s[0]] + s[1..];
  }

  /** Sequences with the same first item and the same rest are equal. */
  lemma SameHeadSameTail(s: seq<Item>, t: seq<Item>)
    requires s != [] && t != [] && s[0] == t[0] && s[1..] == t[1..]
    ensures s == t
  {
    assert s == [s[0]] + s[1..] && t == [t[0]] + t[1..];
  }

  /** Two arrangements of the same items, both ordered by value then id, are the same. */
  lemma {:induction false} StrictlyOrderedUnique(s: seq<Item>, t: seq<Item>)
    requires multiset(s) == multiset(t) && StrictlyOrdered(s) && StrictlyOrdered(t)
    ensures s == t
    decreases |s|
  {
    if s != [] {
      assert |t| == |multiset(t)| == |s|;
      assert s[0] in multiset(t) && t[0] in multiset(s);
      FirstComesBefore(t, s[0]);
      FirstComesBefore(s, t[0]);
      assert s[0] == t[0];
      DropFirst(s);
      DropFirst(t);
      OrderedTail(s);
      OrderedTail(t);
      StrictlyOrderedUnique(s[1..], t[1..]);
      SameHeadSameTail(s, t);
    }
  }

  /**
   * Two stable drivers that sort the same seeded array end with identical
   * arrays: same values and same ids at every position.
   */
  lemma StableResultsAgree(s0: seq<Item>, b: seq<Item>, c: seq<Item>)
    requires multiset(b) == multiset(s0) && multiset(c) == multiset(s0)
    requires Sorted(b) && TiesInIdOrder(b) && Sorted(c) && TiesInIdOrder(c)
    ensures b == c
  {
    SortedTiesOrdered(b);
    SortedTiesOrdered(c);
    StrictlyOrderedUnique(b, c);
  }
}
