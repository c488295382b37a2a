/**
 * A reference definition of the three sort drivers as step machines. A
 * driver reads the stop flag at fixed check points. From a check point that
 * reads the flag clear it runs a fixed piece of code up to the next check
 * point (or to the end). A `Snapshot` is the array together with the check
 * point the driver stands at and the loop variables it holds there;
 * `Advance` runs the code from one check point to the next, and `Replay`
 * runs as many such steps from the start as there were clear readings. A run
 * whose first `c` check points read the flag clear and whose next one reads
 * it set therefore leaves exactly `Replay(algo, s, c).a`.
 *
 * The reference run is proved correct once for all drivers: each check
 * point has its `Progress`, which every step keeps and which at the end
 * means sorted, and the run's array is what its `Swaps` make of the input,
 * swaps of the kind each algorithm is allowed.
 */
module Playback {
  import opened ArrayModel
  import opened SortSteps

  /** The driver a panel is bound to. */
  datatype Algorithm = Selection | Bubble | Insertion

  /** A check point of a driver, with the loop variables in force there. */
  datatype Point =
    | Outer(i: nat)                   // the check at the start of outer iteration `i`
    | Scan(i: nat, j: nat, min: nat) // selection: the check before comparing `j` with `min`
    | Place(i: nat, min: nat)        // selection: the check after a completed scan
    | Compare(i: nat, j: nat)        // bubble: the check before comparing `j` and `j+1`
    | Sink(i: nat, j: nat)           // insertion: the check before swapping `j-1` and `j`
    | Finished                       // the driver has left its loops

  /** The array a driver works on and the check point it stands at. */
  datatype Snapshot = Snapshot(a: seq<Item>, at: Point)

  /** The check points `algo` can reach on an array of length `n`. */
  predicate Valid(algo: Algorithm, n: nat, p: Point) {
    match p
    case Outer(i) => if algo == Insertion then 1 <= i < n else i + 1 < n
    case Scan(i, j, min) => algo == Selection && i <= min < j < n
    case Place(i, min) => algo == Selection && i <= min < n && i + 1 < n
    case Compare(i, j) => algo == Bubble && i + j + 1 < n
    case Sink(i, j) => algo == Insertion && 0 < j <= i < n
    case Finished => true
  }

  /**
   * Where a driver starts: the first check of its outer loop, or the end
   * when that loop does not run at all (fewer than two items).
   */
  function Start(algo: Algorithm, s: seq<Item>): (r: Snapshot)
    ensures r.a == s && Valid(algo, |s|, r.at)
    ensures r.at.Finished? <==> |s| < 2
  {
    Snapshot(s, if |s| < 2 then Finished else if algo == Insertion then Outer(1) else Outer(0))
  }

  /** Where selection and bubble sort go once outer iteration `i` is over. */
  function NextPass(n: nat, i: nat): (p: Point)
    ensures p.Finished? || p == Outer(i + 1)
  {
    if i + 1 < n - 1 then Outer(i + 1) else Finished
  }

  /**
   * Selection sort from one check point to the next: the start of pass `i`
   * sets `min` to `i` and enters the scan; a scan step keeps the leftmost
   * minimum so far under a strict `<`; the check after the scan is followed
   * by the swap of `i` with `min` when they differ.
   */
  function SelectionNext(x: Snapshot): (r: Snapshot)
    requires Valid(Selection, |x.a|, x.at)
    ensures |r.a| == |x.a| && Valid(Selection, |r.a|, r.at)
    ensures !x.at.Place? ==> r.a == x.a
  {
    var n: nat := |x.a|;
    match x.at
    case Outer(i) => Snapshot(x.a, if i + 1 < n then Scan(i, i + 1, i) else Place(i, i))
    case Scan(i, j, min) =>
      var m := if x.a[j].value < x.a[min].value then j else min;
      Snapshot(x.a, if j + 1 < n then Scan(i, j + 1, m) else Place(i, m))
    case Place(i, min) => Snapshot(SelectionStepResult(x.a, i, min), NextPass(n, i))
    case _ => x
  }

  /**
   * Bubble sort from one check point to the next: the start of pass `i`
   * enters the inner loop at `j = 0`; a comparison swaps `j, j+1` when the
   * left value is strictly greater and moves on to `j+1` while
   * `j + 1 < n - i - 1`.
   */
  function BubbleNext(x: Snapshot): (r: Snapshot)
    requires Valid(Bubble, |x.a|, x.at)
    ensures |r.a| == |x.a| && Valid(Bubble, |r.a|, r.at)
    ensures !x.at.Compare? ==> r.a == x.a
  {
    var n: nat := |x.a|;
    match x.at
    case Outer(i) => Snapshot(x.a, if 0 < n - i - 1 then Compare(i, 0) else NextPass(n, i))
    case Compare(i, j) =>
      Snapshot(BubbleStepResult(x.a, j), if j + 1 < n - i - 1 then Compare(i, j + 1) else NextPass(n, i))
    case _ => x
  }

  /**
   * The guard of insertion sort's inner loop with the item at `j`: another
   * check when the left neighbour is strictly greater, otherwise the next
   * outer iteration or the end.
   */
  function SinkOrNext(s: seq<Item>, i: nat, j: nat): (p: Point)
    requires j <= i < |s|
    ensures Valid(Insertion, |s|, p)
    ensures p.Sink? <==> j > 0 && s[j - 1].value > s[j].value
  {
    if j > 0 && s[j - 1].value > s[j].value then Sink(i, j)
    else if i + 1 < |s| then Outer(i + 1)
    else Finished
  }

  /**
   * Insertion sort from one check point to the next: the start of pass `i`
   * sets `j` to `i` and tests the inner guard; an inner step swaps `j-1, j`,
   * moves to `j-1` and tests the guard again.
   */
  function InsertionNext(x: Snapshot): (r: Snapshot)
    requires Valid(Insertion, |x.a|, x.at)
    ensures |r.a| == |x.a| && Valid(Insertion, |r.a|, r.at)
    ensures !x.at.Sink? ==> r.a == x.a
  {
    match x.at
    case Outer(i) => Snapshot(x.a, SinkOrNext(x.a, i, i))
    case Sink(i, j) =>
      var b := Swap(x.a, j - 1, j);
      Snapshot(b, SinkOrNext(b, i, j - 1))
    case _ => x
  }

  /** One step of `algo`: what happens after a check point that reads the flag clear. */
  function Advance(algo: Algorithm, x: Snapshot): (r: Snapshot)
    requires Valid(algo, |x.a|, x.at)
    ensures |r.a| == |x.a| && Valid(algo, |r.a|, r.at)
    ensures x.at.Finished? ==> r == x
  {
    match algo
    case Selection => SelectionNext(x)
    case Bubble => BubbleNext(x)
    case Insertion => InsertionNext(x)
  }

  /** Where `algo` stands `c` steps after `x`. */
  function Run(algo: Algorithm, x: Snapshot, c: nat): (r: Snapshot)
    requires Valid(algo, |x.a|, x.at)
    ensures |r.a| == |x.a| && Valid(algo, |r.a|, r.at)
    decreases c
  {
    if c == 0 then x else Run(algo, Advance(algo, x), c - 1)
  }

  /** One step more is one `Advance` after the last one. */
  lemma {:induction false} RunOneMore(algo: Algorithm, x: Snapshot, c: nat)
    requires Valid(algo, |x.a|, x.at)
    ensures Run(algo, x, c + 1) == Advance(algo, Run(algo, x, c))
    decreases c
  {
    if c > 0 {
      RunOneMore(algo, Advance(algo, x), c - 1);
    }
  }

  /** Where `algo`, started on `s`, stands after `c` clear readings. */
  function Replay(algo: Algorithm, s: seq<Item>, c: nat): (r: Snapshot)
    ensures |r.a| == |s| && Valid(algo, |s|, r.at)
    ensures c == 0 ==> r == Start(algo, s)
  {
    Run(algo, Start(algo, s), c)
  }

  /** A clear reading moves the reference run one step on. */
  lemma ReplayOneMore(algo: Algorithm, s: seq<Item>, c: nat)
    ensures Replay(algo, s, c + 1) == Advance(algo, Replay(algo, s, c))
  {
    RunOneMore(algo, Start(algo, s), c);
  }

  /**
   * A finished run stays finished: clear readings that would come after the
   * end change nothing, so a stop request arriving after the end is harmless.
   */
  lemma {:induction false} ReplayStaysFinished(algo: Algorithm, s: seq<Item>, c: nat, d: nat)
    requires c <= d && Replay(algo, s, c).at.Finished?
    ensures Replay(algo, s, d) == Replay(algo, s, c)
    decreases d
  {
    if d > c {
      ReplayStaysFinished(algo, s, c, d - 1);
      ReplayOneMore(algo, s, d - 1);
    }
  }

  /**
   * What selection sort has achieved at each check point: before pass `i`
   * the first `i` positions hold the smallest values in order; during its
   * scan `min` is the leftmost minimum of `a[i..j]`; after the scan, of
   * `a[i..]`; at the end the array is sorted.
   */
  ghost predicate SelectionProgress(a: seq<Item>, at: Point) {
    match at
    case Outer(i) => SmallestFirst(a, i)
    case Scan(i, j, min) =>
      SmallestFirst(a, i) && i <= min < j <= |a|
      && (forall m :: i <= m < j ==> a[min].value <= a[m].value)
      && (forall m :: i <= m < min ==> a[min].value < a[m].value)
    case Place(i, min) => SmallestFirst(a, i) && LeftmostMin(a, i, min)
    case Finished => Sorted(a)
    case _ => false
  }

  /**
   * What bubble sort has achieved at each check point: before pass `i` the
   * last `i` positions hold the largest values in order; before comparing
   * `j, j+1` the running maximum stands at `j`; at the end the array is sorted.
   */
  ghost predicate BubbleProgress(a: seq<Item>, at: Point) {
    match at
    case Outer(i) => LargestLast(a, i)
    case Compare(i, j) => LargestLast(a, i) && MaxAt(a, j)
    case Finished => Sorted(a)
    case _ => false
  }

  /**
   * What insertion sort, started on `s0`, has achieved at each check point:
   * before pass `i` the prefix `a[..i]` is sorted and the rest untouched;
   * before moving the item at `j` left it is strictly smaller than its left
   * neighbour, sinking into the sorted rest of `a[..i+1]`, and everything
   * right of `i` is untouched; at the end the array is sorted.
   */
  ghost predicate InsertionProgress(s0: seq<Item>, a: seq<Item>, at: Point) {
    |a| == |s0|
    && match at
       case Outer(i) => SortedBelow(a, i) && forall m :: i <= m < |a| ==> a[m] == s0[m]
       case Sink(i, j) =>
         Sinking(a, i, j) && 0 < j && a[j - 1].value > a[j].value
         && forall m :: i < m < |a| ==> a[m] == s0[m]
       case Finished => Sorted(a)
       case _ => false
  }

  /** What `algo`, started on `s0`, has achieved at the check point of `x`. */
  ghost predicate Progress(algo: Algorithm, s0: seq<Item>, x: Snapshot) {
    match algo
    case Selection => SelectionProgress(x.a, x.at)
    case Bubble => BubbleProgress(x.a, x.at)
    case Insertion => InsertionProgress(s0, x.a, x.at)
  }

  /** A scan step keeps `min` the leftmost minimum of what it has scanned. */
  lemma ScanStepProgress(a: seq<Item>, i: nat, j: nat, min: nat)
    requires j < |a| && SelectionProgress(a, Scan(i, j, min))
    ensures var m := if a[j].value < a[min].value then j else min;
      SelectionProgress(a, if j + 1 < |a| then Scan(i, j + 1, m) else Place(i, m))
  {
    var m := if a[j].value < a[min].value then j else min;
    assert forall k :: i <= k < j + 1 ==> a[m].value <= a[k].value;
    assert forall k :: i <= k < m ==> a[m].value < a[k].value;
  }

  /** The swap that ends a pass extends the sorted front by one. */
  lemma PlaceProgress(a: seq<Item>, i: nat, min: nat)
    requires i + 1 < |a| && SelectionProgress(a, Place(i, min))
    ensures SelectionProgress(SelectionStepResult(a, i, min), NextPass(|a|, i))
  {
    var b := SelectionStepResult(a, i, min);
    SelectionStep(a, i, min);
    if NextPass(|a|, i).Finished? {
      SmallestFirstSorted(b);
    }
  }

  /** A step of selection sort keeps its progress. */
  lemma SelectionNextProgress(x: Snapshot)
    requires Valid(Selection, |x.a|, x.at) && SelectionProgress(x.a, x.at)
    ensures SelectionProgress(SelectionNext(x).a, SelectionNext(x).at)
  {
    match x.at
    case Outer(i) =>
    case Scan(i, j, min) =>
      ScanStepProgress(x.a, i, j, min);
    case Place(i, min) =>
      PlaceProgress(x.a, i, min);
    case Finished =>
  }

  /** A step of bubble sort keeps its progress; the last comparison of a pass extends the sorted suffix. */
  lemma BubbleNextProgress(x: Snapshot)
    requires Valid(Bubble, |x.a|, x.at) && BubbleProgress(x.a, x.at)
    ensures BubbleProgress(BubbleNext(x).a, BubbleNext(x).at)
  {
    match x.at
    case Compare(i, j) =>
      var b := BubbleStepResult(x.a, j);
      BubbleStep(x.a, i, j);
      if j + 1 == |x.a| - i - 1 {
        BubblePassDone(b, i);
        if NextPass(|x.a|, i).Finished? {
          LargestLastSorted(b);
        }
      }
    case _ =>
  }

  /** The inner guard of insertion sort, tested with a sinking item at `j`, keeps the progress. */
  lemma SinkOrNextProgress(s0: seq<Item>, b: seq<Item>, i: nat, j: nat)
    requires |b| == |s0| && Sinking(b, i, j) && forall m :: i < m < |b| ==> b[m] == s0[m]
    ensures InsertionProgress(s0, b, SinkOrNext(b, i, j))
  {
    if !SinkOrNext(b, i, j).Sink? {
      SinkDone(b, i, j);
    }
  }

  /** A step of insertion sort keeps its progress. */
  lemma InsertionNextProgress(s0: seq<Item>, x: Snapshot)
    requires Valid(Insertion, |x.a|, x.at) && InsertionProgress(s0, x.a, x.at)
    ensures InsertionProgress(s0, InsertionNext(x).a, InsertionNext(x).at)
  {
    match x.at
    case Outer(i) =>
      SinkStart(x.a, i);
      SinkOrNextProgress(s0, x.a, i, i);
    case Sink(i, j) =>
      var b := Swap(x.a, j - 1, j);
      SinkStep(x.a, i, j);
      SinkOrNextProgress(s0, b, i, j - 1);
    case _ =>
  }

  /** One step keeps what a driver has achieved. */
  lemma AdvanceProgress(algo: Algorithm, s0: seq<Item>, x: Snapshot)
    requires Valid(algo, |x.a|, x.at) && Progress(algo, s0, x)
    ensures Progress(algo, s0, Advance(algo, x))
  {
    match algo
    case Selection => SelectionNextProgress(x);
    case Bubble => BubbleNextProgress(x);
    case Insertion => InsertionNextProgress(s0, x);
  }

  /**
   * The reference run keeps its progress at every step, so a run that gets
   * to `Finished` leaves the array sorted.
   */
  lemma {:induction false} ReplayProgress(algo: Algorithm, s: seq<Item>, c: nat)
    ensures Progress(algo, s, Replay(algo, s, c))
    ensures Replay(algo, s, c).at.Finished? ==> Sorted(Replay(algo, s, c).a)
    decreases c
  {
    if c > 0 {
      ReplayProgress(algo, s, c - 1);
      ReplayOneMore(algo, s, c - 1);
      AdvanceProgress(algo, s, Replay(algo, s, c - 1));
    }
  }

  /** The swap a step performs: none, or one pair of positions. */
  function StepSwaps(algo: Algorithm, x: Snapshot): (t: seq<SwapPair>)
    requires Valid(algo, |x.a|, x.at)
    ensures |t| <= 1 && ValidSwaps(|x.a|, t)
    ensures Advance(algo, x).a == if t == [] then x.a else Swap(x.a, t[0].i, t[0].j)
  {
    match x.at
    case Place(i, min) => if min == i then [] else [SwapPair(i, min)]
    case Compare(i, j) => if x.a[j].value > x.a[j + 1].value then [SwapPair(j, j + 1)] else []
    case Sink(i, j) => [SwapPair(j - 1, j)]
    case _ => []
  }

  /** The swaps `c` steps of `algo` from `x` perform, in order. */
  ghost function RunSwaps(algo: Algorithm, x: Snapshot, c: nat): (t: seq<SwapPair>)
    requires Valid(algo, |x.a|, x.at)
    ensures |t| <= c
    decreases c
  {
    if c == 0 then [] else StepSwaps(algo, x) + RunSwaps(algo, Advance(algo, x), c - 1)
  }

  /** The swaps the reference run performs in its first `c` steps, in order. */
  ghost function Swaps(algo: Algorithm, s: seq<Item>, c: nat): (t: seq<SwapPair>)
    ensures |t| <= c
  {
    RunSwaps(algo, Start(algo, s), c)
  }

  /** Running on from `x` performs the swap of its step first. */
  lemma RunSwapsOneFirst(algo: Algorithm, t: seq<SwapPair>, x: Snapshot, c: nat)
    requires c > 0 && Valid(algo, |x.a|, x.at)
    ensures t + StepSwaps(algo, x) + RunSwaps(algo, Advance(algo, x), c - 1) == t + RunSwaps(algo, x, c)
  {
    assert RunSwaps(algo, x, c) == StepSwaps(algo, x) + RunSwaps(algo, Advance(algo, x), c - 1);
  }

  /** Every swap of selection sort so far belongs to a pass before the one `at` is in. */
  ghost predicate SwapsBeforePass(t: seq<SwapPair>, at: Point) {
    t != [] && !at.Finished? ==> t[|t| - 1].i < at.i
  }

  /**
   * Selection sort stands at `x` after the swaps `t` on `s`: its progress
   * holds there and `t` is a selection trace, every swap before `x`'s pass.
   */
  ghost predicate SelectionReached(s: seq<Item>, t: seq<SwapPair>, x: Snapshot) {
    Valid(Selection, |x.a|, x.at) && SelectionProgress(x.a, x.at)
    && SelectionTraced(s, t, x.a) && SwapsBeforePass(t, x.at)
  }

  /** A step of selection sort extends a selection trace that led to it. */
  lemma SelectionSwapsStep(s: seq<Item>, t: seq<SwapPair>, x: Snapshot)
    requires SelectionReached(s, t, x)
    ensures SelectionReached(s, t + StepSwaps(Selection, x), Advance(Selection, x))
  {
    SelectionNextProgress(x);
    var u := StepSwaps(Selection, x);
    if u == [] {
      assert t + u == t;
    } else {
      SelectionTracedSnoc(s, t, x.a, u[0].i, u[0].j);
    }
  }

  /** A step of bubble or insertion sort extends an inversion trace that led to it. */
  lemma InversionSwapsStep(algo: Algorithm, s0: seq<Item>, s: seq<Item>, t: seq<SwapPair>, x: Snapshot)
    requires algo != Selection && Valid(algo, |x.a|, x.at) && Progress(algo, s0, x)
    requires InversionTraced(s, t, x.a)
    ensures InversionTraced(s, t + StepSwaps(algo, x), Advance(algo, x).a)
  {
    var u := StepSwaps(algo, x);
    if u == [] {
      assert t + u == t;
    } else {
      InversionTracedSnoc(s, t, x.a, u[0].i);
    }
  }

  /** Selection sort, run on from a traced point, extends its trace by the swaps it performs. */
  lemma {:induction false} SelectionRunSwaps(s: seq<Item>, t: seq<SwapPair>, x: Snapshot, c: nat)
    requires SelectionReached(s, t, x)
    ensures SelectionReached(s, t + RunSwaps(Selection, x, c), Run(Selection, x, c))
    decreases c
  {
    if c == 0 {
      assert t + RunSwaps(Selection, x, c) == t;
    } else {
      var u, y := StepSwaps(Selection, x), Advance(Selection, x);
      SelectionSwapsStep(s, t, x);
      SelectionRunSwaps(s, t + u, y, c - 1);
      RunSwapsOneFirst(Selection, t, x, c);
    }
  }

  /** Bubble or insertion sort, run on from a traced point, extends its trace by the swaps it performs. */
  lemma {:induction false} InversionRunSwaps(algo: Algorithm, s0: seq<Item>, s: seq<Item>, t: seq<SwapPair>,
                                             x: Snapshot, c: nat)
    requires algo != Selection && Valid(algo, |x.a|, x.at) && Progress(algo, s0, x)
    requires InversionTraced(s, t, x.a)
    ensures InversionTraced(s, t + RunSwaps(algo, x, c), Run(algo, x, c).a)
    decreases c
  {
    if c == 0 {
      assert t + RunSwaps(algo, x, c) == t;
    } else {
      var u, y := StepSwaps(algo, x), Advance(algo, x);
      InversionSwapsStep(algo, s0, s, t, x);
      AdvanceProgress(algo, s0, x);
      InversionRunSwaps(algo, s0, s, t + u, y, c - 1);
      RunSwapsOneFirst(algo, t, x, c);
    }
  }

  /**
   * Selection sort's reference run only ever swaps: its array is what its
   * swaps make of the input, and each swap exchanges a pass's position with
   * the leftmost minimum after it, pass after pass.
   */
  lemma SelectionReplaySwaps(s: seq<Item>, c: nat)
    ensures SelectionTraced(s, Swaps(Selection, s, c), Replay(Selection, s, c).a)
  {
    ReplayProgress(Selection, s, 0);
    SelectionTracedStart(s);
    SelectionRunSwaps(s, [], Start(Selection, s), c);
    assert [] + Swaps(Selection, s, c) == Swaps(Selection, s, c);
  }

  /**
   * Bubble and insertion sort's reference runs only ever swap: the array is
   * what the swaps make of the input, and each swap exchanges a strict
   * adjacent inversion.
   */
  lemma InversionReplaySwaps(algo: Algorithm, s: seq<Item>, c: nat)
    requires algo != Selection
    ensures InversionTraced(s, Swaps(algo, s, c), Replay(algo, s, c).a)
  {
    ReplayProgress(algo, s, 0);
    InversionTracedStart(s);
    InversionRunSwaps(algo, s, s, [], Start(algo, s), c);
    assert [] + Swaps(algo, s, c) == Swaps(algo, s, c);
  }
}
