/**
 * What each loop of the three drivers has established about the array, and
 * the single steps that extend it. The drivers keep these predicates as loop
 * invariants; the lemmas carry the reasoning about one comparison or swap.
 */
module SortSteps {
  import opened ArrayModel

  /** The first `i` positions hold the smallest values, in order (selection sort after `i` passes). */
  ghost predicate SmallestFirst(s: seq<Item>, i: int) {
    forall p, q :: 0 <= p < q < |s| && p < i ==> s[p].value <= s[q].value
  }

  /** The last `d` positions hold the largest values, in order (bubble sort after `d` passes). */
  ghost predicate LargestLast(s: seq<Item>, d: int) {
    forall p, q :: 0 <= p < q < |s| && q >= |s| - d ==> s[p].value <= s[q].value
  }

  /** Position `j` holds a largest value of `s[..j+1]` (during a bubble pass). */
  ghost predicate MaxAt(s: seq<Item>, j: int) {
    0 <= j < |s| && forall p :: 0 <= p <= j ==> s[p].value <= s[j].value
  }

  /** The prefix `s[..d]` is sorted (insertion sort). */
  ghost predicate SortedBelow(s: seq<Item>, d: int) {
    forall p, q :: 0 <= p < q < d && q < |s| ==> s[p].value <= s[q].value
  }

  /**
   * While the item taken from position `i` sinks to position `j`: the rest of
   * `s[..i+1]` is sorted and everything to the right of `j` in it is strictly
   * greater than the sinking item.
   */
  ghost predicate Sinking(s: seq<Item>, i: int, j: int) {
    0 <= j <= i < |s|
    && (forall p, q :: 0 <= p < q <= i && p != j && q != j ==> s[p].value <= s[q].value)
    && (forall q :: j < q <= i ==> s[j].value < s[q].value)
  }

  /** The array after selection pass `i`, whose scan found `m`. */
  function SelectionStepResult(s: seq<Item>, i: nat, m: nat): seq<Item>
    requires i <= m < |s|
  {
    if m == i then s else Swap(s, i, m)
  }

  /** Swapping the leftmost minimum of `s[i..]` into position `i` completes pass `i`. */
  lemma SelectionStep(s: seq<Item>, i: nat, m: nat)
    requires SmallestFirst(s, i) && LeftmostMin(s, i, m)
    ensures SmallestFirst(SelectionStepResult(s, i, m), i + 1)
    ensures LeftmostMin(SelectionStepResult(s, i, m), i, i)
  {
    var t := SelectionStepResult(s, i, m);
    forall p, q | 0 <= p < q < |t| && p < i + 1 ensures t[p].value <= t[q].value {
      if p == i {
        assert t[p] == s[m];
        assert q == m ==> t[q] == s[i];
        assert q != m ==> t[q] == s[q];
      } else {
        assert t[p] == s[p];
        assert q == m ==> t[q] == s[i];
        assert q == i ==> t[q] == s[m];
      }
    }
  }

  /** All passes done: `SmallestFirst` up to the last position means sorted. */
  lemma SmallestFirstSorted(s: seq<Item>)
    requires |s| > 0 && SmallestFirst(s, |s| - 1)
    ensures Sorted(s)
  {
  }

  /** The array after the comparison at `j` in a bubble pass. */
  function BubbleStepResult(s: seq<Item>, j: nat): seq<Item>
    requires j + 1 < |s|
  {
    if s[j].value > s[j + 1].value then Swap(s, j, j + 1) else s
  }

  /** One comparison of a bubble pass carries the running maximum one place right. */
  lemma BubbleStep(s: seq<Item>, d: nat, j: nat)
    requires j + 1 < |s| - d && LargestLast(s, d) && MaxAt(s, j)
    ensures MaxAt(BubbleStepResult(s, j), j + 1) && LargestLast(BubbleStepResult(s, j), d)
  {
    var t := BubbleStepResult(s, j);
    forall p, q | 0 <= p < q < |t| && q >= |t| - d ensures t[p].value <= t[q].value {
      assert t[q] == s[q];
      assert p == j ==> t[p] == s[j] || t[p] == s[j + 1];
      assert p == j + 1 ==> t[p] == s[j] || t[p] == s[j + 1];
      assert p != j && p != j + 1 ==> t[p] == s[p];
    }
    forall p | 0 <= p <= j + 1 ensures t[p].value <= t[j + 1].value {
      if p < j {
        assert t[p] == s[p];
      }
    }
  }

  /** A finished pass puts a largest value of `s[..n-d]` last, extending the sorted suffix. */
  lemma BubblePassDone(s: seq<Item>, d: nat)
    requires d < |s| && LargestLast(s, d) && MaxAt(s, |s| - d - 1)
    ensures LargestLast(s, d + 1)
  {
  }

  /** `n-1` finished passes sort the whole array. */
  lemma LargestLastSorted(s: seq<Item>)
    requires |s| > 0 && LargestLast(s, |s| - 1)
    ensures Sorted(s)
  {
  }

  /** Sinking starts with a sorted prefix `s[..i]` and the item at `i`. */
  lemma SinkStart(s: seq<Item>, i: nat)
    requires i < |s| && SortedBelow(s, i)
    ensures Sinking(s, i, i)
  {
  }

  /** One shift: swapping the sinking item with a strictly greater left neighbour. */
  lemma SinkStep(s: seq<Item>, i: nat, j: nat)
    requires Sinking(s, i, j) && 0 < j && s[j - 1].value > s[j].value
    ensures Sinking(Swap(s, j - 1, j), i, j - 1)
  {
    var t := Swap(s, j - 1, j);
    forall p, q | 0 <= p < q <= i && p != j - 1 && q != j - 1 ensures t[p].value <= t[q].value {
      assert p == j ==> t[p] == s[j - 1];
      assert p != j ==> t[p] == s[p];
      assert q == j ==> t[q] == s[j - 1];
      assert q != j ==> t[q] == s[q];
      if p == j {
        assert s[j - 1].value <= s[q].value;
      } else if q == j {
        assert s[p].value <= s[j - 1].value;
      }
    }
    forall q | j - 1 < q <= i ensures t[j - 1].value < t[q].value {
      assert t[j - 1] == s[j];
      if q == j {
        assert t[q] == s[j - 1];
      } else {
        assert t[q] == s[q];
      }
    }
  }

  /** The item stops sinking: `s[..i+1]` is sorted. */
  lemma SinkDone(s: seq<Item>, i: nat, j: nat)
    requires Sinking(s, i, j) && (j == 0 || s[j - 1].value <= s[j].value)
    ensures SortedBelow(s, i + 1)
  {
    forall p, q | 0 <= p < q < i + 1 && q < |s| ensures s[p].value <= s[q].value {
      if q == j && p < j - 1 {
        assert s[p].value <= s[j - 1].value;
      }
    }
  }

  /** Stopped while sinking: the part left of the sinking item is still sorted. */
  lemma SinkingSortedBelow(s: seq<Item>, i: nat, j: nat)
    requires Sinking(s, i, j)
    ensures SortedBelow(s, j)
  {
  }
}
