/**
 * The playback side of the visualizer: one `Visualizer` object per algorithm
 * panel, holding its own array and the two flags `isSorting` and
 * `stopRequested`, and the three sort drivers that swap entries of that array
 * in place.
 *
 * Redraws and the pauses between them are left out. A stop request can only
 * arrive while a driver is paused, and a driver reads the flag at fixed check
 * points, which the model numbers from 0. Once set, the flag stays set for the
 * rest of the run, so later requests change nothing: a run is decided by
 * `stopAt`, the check point the first request arrives just before (`None`
 * when no request arrives during the run). A driver leaves at the first check
 * point that reads a set flag; where the source then reads the same set flag
 * once more on its way out, no pause and no swap come between, so the model
 * does not count that reading.
 *
 * Every driver keeps `Tracks`: its array and the check point it stands at are
 * those of the reference run `Replay` after as many steps as there were
 * clear readings. A run is therefore fixed by its schedule alone, and it
 * leaves the array exactly as the reference run had it when the flag was
 * first read set; what it guarantees (sorted at the end, a permutation made
 * of the reference run's swaps, stable for bubble and insertion sort) is
 * proved about the reference run and carried over by `TrackedOutcome`.
 */
module SortVisualizer {
  import opened Wrappers
  import opened ArrayModel
  import opened InputRules
  import opened SortSteps
  import opened Playback

  /** Whether the stop request arrives just before check point `k`. */
  function RequestedAt(stopAt: Option<nat>, k: nat): bool {
    stopAt == Some(k)
  }

  /** Whether the stop request arrives before one of the first `k` check points. */
  function RequestedBefore(stopAt: Option<nat>, k: nat): bool {
    stopAt.Some? && stopAt.value < k
  }

  /**
   * The flag a run reads: no request comes before the first check point, and
   * one comes before check point `k + 1` exactly when one came before `k` or
   * arrives just before `k`.
   */
  lemma RequestedBeforeStep(stopAt: Option<nat>, k: nat)
    ensures !RequestedBefore(stopAt, 0)
    ensures RequestedBefore(stopAt, k + 1) == (RequestedBefore(stopAt, k) || RequestedAt(stopAt, k))
  {
  }

  /**
   * How many of the first `k` check points read a clear flag, in a run that
   * started with the flag at `was`: none if it was set, otherwise those before
   * the stop request.
   */
  function ClearReadings(was: bool, stopAt: Option<nat>, k: nat): (c: nat)
    ensures c <= k
    ensures was ==> c == 0
    ensures stopAt.Some? ==> c <= stopAt.value
  {
    if was then 0
    else if RequestedBefore(stopAt, k) then stopAt.value
    else k
  }

  /**
   * Check point `k - 1` is the first of the run to read a set flag: every
   * earlier one read it clear.
   */
  predicate FirstSetReading(was: bool, stopAt: Option<nat>, k: nat) {
    k == ClearReadings(was, stopAt, k) + 1
  }

  /**
   * After the first `k` check points of a run of `algo` on the array that
   * held `s0`, whose flag stood at `was`, the array holds `a` and the driver
   * stands at check point `at`, just as the reference run does after the
   * clear readings among them.
   */
  ghost predicate Tracks(algo: Algorithm, s0: seq<Item>, was: bool, stopAt: Option<nat>, k: nat,
                         a: seq<Item>, at: Point) {
    Replay(algo, s0, ClearReadings(was, stopAt, k)) == Snapshot(a, at)
  }

  /** A check point that reads the flag clear moves a tracked run one step of the reference run on. */
  lemma TracksStep(algo: Algorithm, s0: seq<Item>, was: bool, stopAt: Option<nat>, k: nat,
                   a: seq<Item>, at: Point)
    requires Tracks(algo, s0, was, stopAt, k, a, at)
    requires ClearReadings(was, stopAt, k + 1) == ClearReadings(was, stopAt, k) + 1
    ensures Valid(algo, |a|, at)
    ensures Tracks(algo, s0, was, stopAt, k + 1, Advance(algo, Snapshot(a, at)).a, Advance(algo, Snapshot(a, at)).at)
  {
    ReplayOneMore(algo, s0, ClearReadings(was, stopAt, k));
  }

  /**
   * What a tracked run has achieved, and the swaps that made its array: those
   * of the reference run, which are all strict adjacent inversions for bubble
   * and insertion sort, and leftmost minima moved forward for selection sort.
   */
  lemma TrackedOutcome(algo: Algorithm, s0: seq<Item>, was: bool, stopAt: Option<nat>, k: nat,
                       a: seq<Item>, at: Point)
    requires Tracks(algo, s0, was, stopAt, k, a, at)
    ensures Progress(algo, s0, Snapshot(a, at)) && (at.Finished? ==> Sorted(a))
    ensures algo == Selection ==> SelectionTraced(s0, Swaps(algo, s0, ClearReadings(was, stopAt, k)), a)
    ensures algo != Selection ==> InversionTraced(s0, Swaps(algo, s0, ClearReadings(was, stopAt, k)), a)
  {
    var c := ClearReadings(was, stopAt, k);
    ReplayProgress(algo, s0, c);
    if algo == Selection {
      SelectionReplaySwaps(s0, c);
    } else {
      InversionReplaySwaps(algo, s0, c);
    }
  }

  class Visualizer {
    const algo: Algorithm
    var arr: array<Item>
    var isSorting: bool
    var stopRequested: bool
    var nextId: nat

    constructor (algo: Algorithm)
      ensures this.algo == algo && arr.Length == 0 && nextId == 0
      ensures !isSorting && !stopRequested
    {
      this.algo := algo;
      arr := new Item[0];
      isSorting := false;
      stopRequested := false;
      nextId := 0;
    }

    /** Seeds the panel with fresh items: the given values in order, ids `0..n-1`. */
    method SetArray(values: seq<int>)
      modifies this`arr, this`nextId
      ensures fresh(arr) && arr.Length == |values|
      ensures forall k :: 0 <= k < |values| ==> arr[k] == Item(values[k], k)
      ensures nextId == |values|
      ensures UniqueIds(arr[..]) && TiesInIdOrder(arr[..])
    {
      nextId := 0;
      var a := new Item[|values|];
      var k := 0;
      while k < |values|
        invariant 0 <= k <= |values| && nextId == k
        invariant forall m :: 0 <= m < k ==> a[m] == Item(values[m], m)
      {
        a[k] := Item(values[k], nextId);
        nextId := nextId + 1;
        k := k + 1;
      }
      arr := a;
    }

    /** Asks the running driver to stop at its next check point; nothing else changes. */
    method StopSort()
      modifies this`stopRequested
      ensures stopRequested
    {
      stopRequested := true;
    }

    /**
     * One check point of a driver: a stop request may have arrived during the
     * preceding pause, then the flag is read.
     */
    method Poll(requested: bool) returns (stop: bool)
      modifies this`stopRequested
      ensures stopRequested == (old(stopRequested) || requested)
      ensures stop == stopRequested
    {
      if requested {
        StopSort();
      }
      stop := stopRequested;
    }

    /**
     * Runs the bound driver unless one is already running. The array ends
     * equal to the reference run's array after the clear readings of the run,
     * having gone through exactly the reference run's swaps: a permutation of
     * itself, sorted unless a stop request was read.
     */
    method StartSort(stopAt: Option<nat>) returns (ghost trace: seq<SwapPair>, ghost checks: nat)
      modifies this`isSorting, this`stopRequested, arr
      ensures old(isSorting) ==>
        isSorting && stopRequested == old(stopRequested) && arr[..] == old(arr[..]) && trace == []
      ensures !old(isSorting) ==>
        !isSorting && ValidSwaps(arr.Length, trace) && arr[..] == ApplySwaps(old(arr[..]), trace)
      ensures !old(isSorting) ==> multiset(arr[..]) == multiset(old(arr[..]))
      ensures !old(isSorting) && UniqueIds(old(arr[..])) ==> UniqueIds(arr[..])
      ensures !old(isSorting) && algo != Selection && TiesInIdOrder(old(arr[..])) ==> TiesInIdOrder(arr[..])
      ensures !old(isSorting) && !stopRequested ==> Sorted(arr[..])
      ensures !old(isSorting) ==> stopRequested == RequestedBefore(stopAt, checks)
      ensures !old(isSorting) && stopAt.None? ==> !stopRequested && Sorted(arr[..])
      ensures !old(isSorting) && stopRequested ==> stopAt.Some?
      ensures !old(isSorting) && stopAt.Some? ==> |trace| <= stopAt.value
      ensures !old(isSorting) && stopRequested ==> checks == stopAt.value + 1
      ensures !old(isSorting) && stopAt == Some(0) ==> arr[..] == old(arr[..])
      ensures !old(isSorting) ==> arr[..] == Replay(algo, old(arr[..]), ClearReadings(false, stopAt, checks)).a
      ensures !old(isSorting) ==> trace == Swaps(algo, old(arr[..]), ClearReadings(false, stopAt, checks))
      ensures !old(isSorting) && !stopRequested ==> Replay(algo, old(arr[..]), checks).at.Finished?
      ensures !old(isSorting) && stopAt.Some? ==> arr[..] == Replay(algo, old(arr[..]), stopAt.value).a
    {
      trace, checks := [], 0;
      if isSorting {
        return;
      }
      isSorting := true;
      stopRequested := false;
      ghost var s0 := arr[..];
      ghost var at;
      match algo {
        case Selection =>
          trace, checks, at := SelectionSort(this, stopAt);
        case Bubble =>
          trace, checks, at := BubbleSort(this, stopAt);
        case Insertion =>
          trace, checks, at := InsertionSort(this, stopAt);
      }
      if stopAt.Some? && !stopRequested {
        ReplayStaysFinished(algo, s0, checks, stopAt.value);
      }
      isSorting := false;
    }
  }

  /** Exchanges the items at `i` and `j` in place: the only way a driver changes the array. */
  method SwapItems(a: array<Item>, i: nat, j: nat)
    requires i < a.Length && j < a.Length
    modifies a
    ensures a[..] == Swap(old(a[..]), i, j)
    ensures a[i] == old(a[j]) && a[j] == old(a[i])
    ensures forall m :: 0 <= m < a.Length && m != i && m != j ==> a[m] == old(a[m])
  {
    var t := a[i];
    a[i] := a[j];
    a[j] := t;
  }

  /**
   * The stop flag after the first `k` check points of a run that started
   * with the flag at `was` is exactly `was` or a request before one of them.
   */
  ghost predicate Heeded(v: Visualizer, was: bool, stopAt: Option<nat>, k: nat)
    reads v
  {
    v.stopRequested == (was || RequestedBefore(stopAt, k))
  }

  /**
   * Check point `k` of a run: `Poll` with the request the schedule holds for
   * it. A clear reading counts one more clear reading; a set one counts none.
   */
  method Check(v: Visualizer, stopAt: Option<nat>, k: nat, ghost was: bool)
    returns (stop: bool, next: nat)
    requires Heeded(v, was, stopAt, k)
    modifies v`stopRequested
    ensures next == k + 1 && stop == v.stopRequested
    ensures v.stopRequested == (old(v.stopRequested) || RequestedAt(stopAt, k))
    ensures Heeded(v, was, stopAt, next)
    ensures stop && (k == 0 || !old(v.stopRequested)) ==> FirstSetReading(was, stopAt, next)
    ensures ClearReadings(was, stopAt, next) == ClearReadings(was, stopAt, k) + (if stop then 0 else 1)
  {
    stop := v.Poll(RequestedAt(stopAt, k));
    RequestedBeforeStep(stopAt, k);
    next := k + 1;
  }

  /**
   * The inner loop of selection sort: scans `i+1..n-1` for the leftmost
   * minimum of `a[i..]`, reading the stop flag before each comparison and
   * breaking off at a set flag. It never changes the array.
   */
  method ScanForMin(v: Visualizer, i: nat, stopAt: Option<nat>, k0: nat, ghost was: bool, ghost s0: seq<Item>)
    returns (minIdx: nat, k: nat, ghost at: Point)
    requires i < v.arr.Length && Heeded(v, was, stopAt, k0) && !v.stopRequested
    requires Tracks(Selection, s0, was, stopAt, k0, v.arr[..], Scan(i, i + 1, i))
    modifies v`stopRequested
    ensures Heeded(v, was, stopAt, k)
    ensures v.stopRequested ==> FirstSetReading(was, stopAt, k)
    ensures !v.stopRequested ==> LeftmostMin(v.arr[..], i, minIdx)
    ensures Tracks(Selection, s0, was, stopAt, k, v.arr[..], at)
    ensures if v.stopRequested then at.Scan? && at.i == i else at == Place(i, minIdx)
  {
    var a, n := v.arr, v.arr.Length;
    ghost var s := a[..];
    k := k0;
    minIdx := i;
    var j := i + 1;
    var stop := false;
    while j < n && !stop
      invariant i < j <= n && i <= minIdx < j && stop == v.stopRequested
      invariant forall m :: i <= m < j ==> s[minIdx].value <= s[m].value
      invariant forall m :: i <= m < minIdx ==> s[minIdx].value < s[m].value
      invariant Heeded(v, was, stopAt, k)
      invariant stop ==> FirstSetReading(was, stopAt, k)
      invariant Tracks(Selection, s0, was, stopAt, k, s,
                       if !stop && j == n then Place(i, minIdx) else Scan(i, j, minIdx))
      decreases n - j, !stop
    {
      ghost var before := k;
      stop, k := Check(v, stopAt, k, was);
      if !stop {
        TracksStep(Selection, s0, was, stopAt, before, s, Scan(i, j, minIdx));
        if a[j].value < a[minIdx].value {
          minIdx := j;
        }
        j := j + 1;
      }
    }
    at := if stop then Scan(i, j, minIdx) else Place(i, minIdx);
  }

  /**
   * The end of selection sort's pass `i` after a completed scan: the check
   * there, then, unless it read a set flag, the swap of position `i` with the
   * leftmost minimum `minIdx` when that is elsewhere.
   */
  method PlaceMin(v: Visualizer, i: nat, minIdx: nat, stopAt: Option<nat>, k0: nat,
                  ghost s0: seq<Item>, ghost was: bool)
    returns (stop: bool, k: nat, ghost at: Point)
    requires LeftmostMin(v.arr[..], i, minIdx)
    requires Heeded(v, was, stopAt, k0) && !v.stopRequested
    requires Tracks(Selection, s0, was, stopAt, k0, v.arr[..], Place(i, minIdx))
    modifies v`stopRequested, v.arr
    ensures Heeded(v, was, stopAt, k) && stop == v.stopRequested
    ensures stop ==> FirstSetReading(was, stopAt, k)
    ensures stop ==> v.arr[..] == old(v.arr[..])
    ensures !stop ==> v.arr[..] == SelectionStepResult(old(v.arr[..]), i, minIdx)
    ensures Tracks(Selection, s0, was, stopAt, k, v.arr[..], at)
    ensures at == if stop then Place(i, minIdx) else NextPass(v.arr.Length, i)
  {
    var a := v.arr;
    at := Place(i, minIdx);
    stop, k := Check(v, stopAt, k0, was);
    if !stop {
      TracksStep(Selection, s0, was, stopAt, k0, a[..], at);
      if minIdx != i {
        SwapItems(a, i, minIdx);
      }
      at := NextPass(a.Length, i);
    }
  }

  /**
   * One outer iteration `i` of selection sort: the check at its start, the
   * scan, the check after a completed scan (`stop` is what the last one
   * read), and, unless stopped, the swap of position `i` with the leftmost
   * minimum `minIdx` when that is elsewhere. After a scan that broke off, the
   * flag is read once more without a pause, which is no check point.
   */
  method SelectionPass(v: Visualizer, i: nat, stopAt: Option<nat>, k0: nat, ghost s0: seq<Item>, ghost was: bool)
    returns (stop: bool, k: nat, minIdx: nat, ghost at: Point)
    requires i < v.arr.Length && Heeded(v, was, stopAt, k0)
    requires k0 == 0 || !v.stopRequested
    requires Tracks(Selection, s0, was, stopAt, k0, v.arr[..], Outer(i))
    modifies v`stopRequested, v.arr
    ensures Heeded(v, was, stopAt, k) && stop == v.stopRequested
    ensures stop ==> FirstSetReading(was, stopAt, k)
    ensures stop ==> v.arr[..] == old(v.arr[..])
    ensures !stop ==> LeftmostMin(old(v.arr[..]), i, minIdx)
                      && v.arr[..] == SelectionStepResult(old(v.arr[..]), i, minIdx)
    ensures Tracks(Selection, s0, was, stopAt, k, v.arr[..], at)
    ensures if stop then !at.Finished? && at.i == i else at == NextPass(v.arr.Length, i)
  {
    minIdx, at := i, Outer(i);
    stop, k := Check(v, stopAt, k0, was);
    if !stop {
      TracksStep(Selection, s0, was, stopAt, k0, v.arr[..], at);
      minIdx, k, at := ScanForMin(v, i, stopAt, k, was, s0);
      stop := v.stopRequested;
      if !stop {
        stop, k, at := PlaceMin(v, i, minIdx, stopAt, k, s0, was);
      }
    }
  }

  /**
   * The outer loop of selection sort over the array that held `s0`, whose
   * flag stood at `was`: `checks` the check points gone through and `at` the
   * check point the run left at.
   */
  method SelectionLoop(v: Visualizer, stopAt: Option<nat>, ghost s0: seq<Item>, ghost was: bool)
    returns (ghost checks: nat, ghost at: Point)
    requires v.arr[..] == s0 && v.stopRequested == was
    modifies v`stopRequested, v.arr
    ensures Heeded(v, was, stopAt, checks)
    ensures v.stopRequested && checks > 0 ==> FirstSetReading(was, stopAt, checks)
    ensures Tracks(Selection, s0, was, stopAt, checks, v.arr[..], at)
    ensures !v.stopRequested ==> at.Finished?
  {
    var a := v.arr;
    var n := a.Length;
    var k: nat := 0;
    at := Finished;
    var i := 0;
    var stop := false;
    while i < n - 1
      invariant 0 <= i <= n && (n > 0 ==> i <= n - 1) && !stop
      invariant k > 0 ==> !v.stopRequested
      invariant Heeded(v, was, stopAt, k)
      invariant Tracks(Selection, s0, was, stopAt, k, a[..], if i < n - 1 then Outer(i) else Finished)
    {
      var minIdx;
      stop, k, minIdx, at := SelectionPass(v, i, stopAt, k, s0, was);
      if stop {
        break;
      }
      i := i + 1;
    }
    checks := k;
    if !stop {
      at := Finished;
    }
  }

  /**
   * Selection sort. For each `i` it scans `i+1..n-1` for the leftmost minimum
   * and swaps it into place when it is not already there; a check that reads
   * a set flag ends the run. The run follows the reference run `Replay`: its
   * swaps are the reference run's, `SelectionProgress` holds where it left
   * off, and the array is sorted unless it was stopped. `checks` counts the
   * check points the run went through.
   */
  method SelectionSort(v: Visualizer, stopAt: Option<nat>)
    returns (ghost trace: seq<SwapPair>, ghost checks: nat, ghost at: Point)
    modifies v`stopRequested, v.arr
    ensures SelectionTraced(old(v.arr[..]), trace, v.arr[..])
    ensures trace == Swaps(Selection, old(v.arr[..]), ClearReadings(old(v.stopRequested), stopAt, checks))
    ensures multiset(v.arr[..]) == multiset(old(v.arr[..]))
    ensures UniqueIds(old(v.arr[..])) ==> UniqueIds(v.arr[..])
    ensures !v.stopRequested ==> Sorted(v.arr[..])
    ensures Heeded(v, old(v.stopRequested), stopAt, checks)
    ensures v.stopRequested && checks > 0 ==> FirstSetReading(old(v.stopRequested), stopAt, checks)
    ensures |trace| <= ClearReadings(old(v.stopRequested), stopAt, checks)
    ensures Tracks(Selection, old(v.arr[..]), old(v.stopRequested), stopAt, checks, v.arr[..], at)
    ensures !v.stopRequested ==> at.Finished?
    ensures SelectionProgress(v.arr[..], at)
  {
    ghost var s0, was := v.arr[..], v.stopRequested;
    checks, at := SelectionLoop(v, stopAt, s0, was);
    trace := Swaps(Selection, s0, ClearReadings(was, stopAt, checks));
    TrackedOutcome(Selection, s0, was, stopAt, checks, v.arr[..], at);
    SelectionTracedOutcome(s0, trace, v.arr[..]);
  }

  /**
   * One iteration of bubble sort's inner loop: check point `k`, then, unless
   * it read a set flag, the comparison of `j, j+1` and their swap when the
   * left value is strictly greater.
   */
  method BubbleIteration(v: Visualizer, i: nat, j: nat, stopAt: Option<nat>, k: nat,
                         ghost s0: seq<Item>, ghost was: bool)
    returns (stop: bool, next: nat)
    requires j + i + 1 < v.arr.Length
    requires Heeded(v, was, stopAt, k) && !v.stopRequested
    requires Tracks(Bubble, s0, was, stopAt, k, v.arr[..], Compare(i, j))
    modifies v`stopRequested, v.arr
    ensures stop == v.stopRequested && Heeded(v, was, stopAt, next)
    ensures stop ==> FirstSetReading(was, stopAt, next)
    ensures stop ==> v.arr[..] == old(v.arr[..])
    ensures !stop ==> v.arr[..] == BubbleStepResult(old(v.arr[..]), j)
    ensures Tracks(Bubble, s0, was, stopAt, next, v.arr[..],
                   if stop then Compare(i, j) else if j + 1 < v.arr.Length - i - 1 then Compare(i, j + 1)
                   else NextPass(v.arr.Length, i))
  {
    var a := v.arr;
    stop, next := Check(v, stopAt, k, was);
    if !stop {
      TracksStep(Bubble, s0, was, stopAt, k, a[..], Compare(i, j));
      if a[j].value > a[j + 1].value {
        SwapItems(a, j, j + 1);
      }
    }
  }

  /**
   * The inner loop of bubble sort's pass `i`: the comparisons of `j, j+1`
   * for `j < n-i-1`, each after its own check, breaking off at a set flag.
   */
  method BubbleSweep(v: Visualizer, i: nat, stopAt: Option<nat>, k0: nat, ghost s0: seq<Item>, ghost was: bool)
    returns (stop: bool, k: nat, ghost at: Point)
    requires i + 1 < v.arr.Length && Heeded(v, was, stopAt, k0) && !v.stopRequested
    requires Tracks(Bubble, s0, was, stopAt, k0, v.arr[..], Compare(i, 0))
    modifies v`stopRequested, v.arr
    ensures stop == v.stopRequested && Heeded(v, was, stopAt, k)
    ensures stop ==> FirstSetReading(was, stopAt, k)
    ensures Tracks(Bubble, s0, was, stopAt, k, v.arr[..], at)
    ensures if stop then at.Compare? && at.i == i else at == NextPass(v.arr.Length, i)
  {
    var a, n := v.arr, v.arr.Length;
    k, stop := k0, false;
    var j, last := 0, n - i - 1;
    while j < last && !stop
      invariant 0 <= j <= last && stop == v.stopRequested
      invariant stop ==> FirstSetReading(was, stopAt, k)
      invariant Heeded(v, was, stopAt, k)
      invariant Tracks(Bubble, s0, was, stopAt, k, a[..],
                       if !stop && j == last then NextPass(n, i) else Compare(i, j))
      decreases last - j, !stop
    {
      stop, k := BubbleIteration(v, i, j, stopAt, k, s0, was);
      if !stop {
        j := j + 1;
      }
    }
    at := if stop then Compare(i, j) else NextPass(n, i);
  }

  /**
   * One outer iteration `i` of bubble sort: the check at its start, then,
   * unless it read a set flag, the inner loop.
   */
  method BubblePass(v: Visualizer, i: nat, stopAt: Option<nat>, k0: nat, ghost s0: seq<Item>, ghost was: bool)
    returns (stop: bool, k: nat, ghost at: Point)
    requires i + 1 < v.arr.Length && Heeded(v, was, stopAt, k0)
    requires k0 == 0 || !v.stopRequested
    requires Tracks(Bubble, s0, was, stopAt, k0, v.arr[..], Outer(i))
    modifies v`stopRequested, v.arr
    ensures stop == v.stopRequested && Heeded(v, was, stopAt, k)
    ensures stop ==> FirstSetReading(was, stopAt, k)
    ensures Tracks(Bubble, s0, was, stopAt, k, v.arr[..], at)
    ensures if stop then !at.Finished? && at.i == i else at == NextPass(v.arr.Length, i)
  {
    at := Outer(i);
    stop, k := Check(v, stopAt, k0, was);
    if !stop {
      TracksStep(Bubble, s0, was, stopAt, k0, v.arr[..], at);
      stop, k, at := BubbleSweep(v, i, stopAt, k, s0, was);
    }
  }

  /**
   * The outer loop of bubble sort over the array that held `s0`, whose flag
   * stood at `was`: `checks` the check points gone through and `at` the
   * check point the run left at.
   */
  method BubbleLoop(v: Visualizer, stopAt: Option<nat>, ghost s0: seq<Item>, ghost was: bool)
    returns (ghost checks: nat, ghost at: Point)
    requires v.arr[..] == s0 && v.stopRequested == was
    modifies v`stopRequested, v.arr
    ensures Heeded(v, was, stopAt, checks)
    ensures v.stopRequested && checks > 0 ==> FirstSetReading(was, stopAt, checks)
    ensures Tracks(Bubble, s0, was, stopAt, checks, v.arr[..], at)
    ensures !v.stopRequested ==> at.Finished?
  {
    var a := v.arr;
    var n := a.Length;
    var k: nat := 0;
    at := Finished;
    var i := 0;
    var stop := false;
    while i < n - 1
      invariant 0 <= i <= n && (n > 0 ==> i <= n - 1) && !stop
      invariant k > 0 ==> !v.stopRequested
      invariant Heeded(v, was, stopAt, k)
      invariant Tracks(Bubble, s0, was, stopAt, k, a[..], if i < n - 1 then Outer(i) else Finished)
    {
      stop, k, at := BubblePass(v, i, stopAt, k, s0, was);
      if stop {
        break;
      }
      i := i + 1;
    }
    checks := k;
    if !stop {
      at := Finished;
    }
  }

  /**
   * Bubble sort: `n-1` passes; a check that reads a set flag ends the run.
   * The run follows the reference run `Replay`: its swaps are the reference
   * run's, all strict adjacent inversions, `BubbleProgress` holds where it
   * left off, and the array is sorted unless it was stopped. `checks` counts
   * the check points the run went through.
   */
  method BubbleSort(v: Visualizer, stopAt: Option<nat>)
    returns (ghost trace: seq<SwapPair>, ghost checks: nat, ghost at: Point)
    modifies v`stopRequested, v.arr
    ensures InversionTraced(old(v.arr[..]), trace, v.arr[..])
    ensures trace == Swaps(Bubble, old(v.arr[..]), ClearReadings(old(v.stopRequested), stopAt, checks))
    ensures multiset(v.arr[..]) == multiset(old(v.arr[..]))
    ensures UniqueIds(old(v.arr[..])) ==> UniqueIds(v.arr[..])
    ensures TiesInIdOrder(old(v.arr[..])) ==> TiesInIdOrder(v.arr[..])
    ensures !v.stopRequested ==> Sorted(v.arr[..])
    ensures Heeded(v, old(v.stopRequested), stopAt, checks)
    ensures v.stopRequested && checks > 0 ==> FirstSetReading(old(v.stopRequested), stopAt, checks)
    ensures |trace| <= ClearReadings(old(v.stopRequested), stopAt, checks)
    ensures Tracks(Bubble, old(v.arr[..]), old(v.stopRequested), stopAt, checks, v.arr[..], at)
    ensures !v.stopRequested ==> at.Finished?
    ensures BubbleProgress(v.arr[..], at)
  {
    ghost var s0, was := v.arr[..], v.stopRequested;
    checks, at := BubbleLoop(v, stopAt, s0, was);
    trace := Swaps(Bubble, s0, ClearReadings(was, stopAt, checks));
    TrackedOutcome(Bubble, s0, was, stopAt, checks, v.arr[..], at);
    InversionTracedOutcome(s0, trace, v.arr[..]);
  }

  /**
   * One iteration of insertion sort's inner loop: check point `k`, then,
   * unless it read a set flag, the item at `j` moves one place left. `pos`
   * is where the item stands afterwards.
   */
  method SinkIteration(v: Visualizer, i: nat, j: nat, stopAt: Option<nat>, k: nat,
                       ghost s0: seq<Item>, ghost was: bool)
    returns (stop: bool, pos: nat, next: nat)
    requires 0 < j <= i < v.arr.Length
    requires Heeded(v, was, stopAt, k) && !v.stopRequested
    requires Tracks(Insertion, s0, was, stopAt, k, v.arr[..], Sink(i, j))
    modifies v`stopRequested, v.arr
    ensures stop == v.stopRequested && Heeded(v, was, stopAt, next)
    ensures stop ==> FirstSetReading(was, stopAt, next)
    ensures pos == if stop then j else j - 1
    ensures stop ==> v.arr[..] == old(v.arr[..])
    ensures !stop ==> v.arr[..] == Swap(old(v.arr[..]), j - 1, j)
    ensures Tracks(Insertion, s0, was, stopAt, next, v.arr[..],
                   if stop then Sink(i, j) else SinkOrNext(v.arr[..], i, j - 1))
  {
    var a := v.arr;
    pos := j;
    stop, next := Check(v, stopAt, k, was);
    if !stop {
      TracksStep(Insertion, s0, was, stopAt, k, a[..], Sink(i, j));
      SwapItems(a, j - 1, j);
      pos := j - 1;
    }
  }

  /**
   * The inner loop of insertion sort's pass `i`, after the check at the start
   * of the pass read a clear flag: while the left neighbour is strictly
   * greater, a check and a swap of the item one place left, breaking off at
   * a set flag.
   */
  method InsertionSweep(v: Visualizer, i: nat, stopAt: Option<nat>, k0: nat, ghost s0: seq<Item>, ghost was: bool)
    returns (stop: bool, k: nat, ghost at: Point)
    requires i < v.arr.Length && Heeded(v, was, stopAt, k0) && !v.stopRequested
    requires Tracks(Insertion, s0, was, stopAt, k0, v.arr[..], SinkOrNext(v.arr[..], i, i))
    modifies v`stopRequested, v.arr
    ensures stop == v.stopRequested && Heeded(v, was, stopAt, k)
    ensures stop ==> FirstSetReading(was, stopAt, k)
    ensures Tracks(Insertion, s0, was, stopAt, k, v.arr[..], at)
    ensures if stop then at.Sink? && at.i == i else at == (if i + 1 < v.arr.Length then Outer(i + 1) else Finished)
  {
    var a, n := v.arr, v.arr.Length;
    stop, k := false, k0;
    var j: nat := i;
    at := SinkOrNext(a[..], i, j);
    while !stop && j > 0 && a[j - 1].value > a[j].value
      invariant j <= i < n && stop == v.stopRequested
      invariant stop ==> FirstSetReading(was, stopAt, k)
      invariant Heeded(v, was, stopAt, k)
      invariant Tracks(Insertion, s0, was, stopAt, k, a[..], at)
      invariant at == if stop then Sink(i, j) else SinkOrNext(a[..], i, j)
    {
      stop, j, k := SinkIteration(v, i, j, stopAt, k, s0, was);
      if !stop {
        at := SinkOrNext(a[..], i, j);
      }
    }
  }

  /**
   * One outer iteration `i` of insertion sort: the check at its start, then,
   * unless it read a set flag, the inner loop.
   */
  method InsertionPass(v: Visualizer, i: nat, stopAt: Option<nat>, k0: nat, ghost s0: seq<Item>, ghost was: bool)
    returns (stop: bool, k: nat, ghost at: Point)
    requires i < v.arr.Length && Heeded(v, was, stopAt, k0)
    requires k0 == 0 || !v.stopRequested
    requires Tracks(Insertion, s0, was, stopAt, k0, v.arr[..], Outer(i))
    modifies v`stopRequested, v.arr
    ensures stop == v.stopRequested && Heeded(v, was, stopAt, k)
    ensures stop ==> FirstSetReading(was, stopAt, k)
    ensures Tracks(Insertion, s0, was, stopAt, k, v.arr[..], at)
    ensures if stop then !at.Finished? && at.i == i
            else at == (if i + 1 < v.arr.Length then Outer(i + 1) else Finished)
  {
    at := Outer(i);
    stop, k := Check(v, stopAt, k0, was);
    if !stop {
      TracksStep(Insertion, s0, was, stopAt, k0, v.arr[..], at);
      stop, k, at := InsertionSweep(v, i, stopAt, k, s0, was);
    }
  }

  /**
   * The outer loop of insertion sort over the array that held `s0`, whose
   * flag stood at `was`: `checks` the check points gone through and `at` the
   * check point the run left at.
   */
  method InsertionLoop(v: Visualizer, stopAt: Option<nat>, ghost s0: seq<Item>, ghost was: bool)
    returns (ghost checks: nat, ghost at: Point)
    requires v.arr[..] == s0 && v.stopRequested == was
    modifies v`stopRequested, v.arr
    ensures Heeded(v, was, stopAt, checks)
    ensures v.stopRequested && checks > 0 ==> FirstSetReading(was, stopAt, checks)
    ensures Tracks(Insertion, s0, was, stopAt, checks, v.arr[..], at)
    ensures !v.stopRequested ==> at.Finished?
  {
    var a := v.arr;
    var n := a.Length;
    var k: nat := 0;
    at := Finished;
    var i := 1;
    var stop := false;
    while i < n
      invariant 1 <= i && (n > 0 ==> i <= n) && !stop
      invariant k > 0 ==> !v.stopRequested
      invariant Heeded(v, was, stopAt, k)
      invariant Tracks(Insertion, s0, was, stopAt, k, a[..], if i < n then Outer(i) else Finished)
    {
      stop, k, at := InsertionPass(v, i, stopAt, k, s0, was);
      if stop {
        break;
      }
      i := i + 1;
    }
    checks := k;
    if !stop {
      at := Finished;
    }
  }

  /**
   * Insertion sort: for each `i`, the item at `i` sinks into the sorted
   * prefix; a check that reads a set flag ends the run. The run follows the
   * reference run `Replay`: its swaps are the reference run's, all strict
   * adjacent inversions, `InsertionProgress` holds where it left off, and
   * the array is sorted unless it was stopped. `checks` counts the check
   * points the run went through.
   */
  method InsertionSort(v: Visualizer, stopAt: Option<nat>)
    returns (ghost trace: seq<SwapPair>, ghost checks: nat, ghost at: Point)
    modifies v`stopRequested, v.arr
    ensures InversionTraced(old(v.arr[..]), trace, v.arr[..])
    ensures trace == Swaps(Insertion, old(v.arr[..]), ClearReadings(old(v.stopRequested), stopAt, checks))
    ensures multiset(v.arr[..]) == multiset(old(v.arr[..]))
    ensures UniqueIds(old(v.arr[..])) ==> UniqueIds(v.arr[..])
    ensures TiesInIdOrder(old(v.arr[..])) ==> TiesInIdOrder(v.arr[..])
    ensures !v.stopRequested ==> Sorted(v.arr[..])
    ensures Heeded(v, old(v.stopRequested), stopAt, checks)
    ensures v.stopRequested && checks > 0 ==> FirstSetReading(old(v.stopRequested), stopAt, checks)
    ensures |trace| <= ClearReadings(old(v.stopRequested), stopAt, checks)
    ensures Tracks(Insertion, old(v.arr[..]), old(v.stopRequested), stopAt, checks, v.arr[..], at)
    ensures !v.stopRequested ==> at.Finished?
    ensures InsertionProgress(old(v.arr[..]), v.arr[..], at)
  {
    ghost var s0, was := v.arr[..], v.stopRequested;
    checks, at := InsertionLoop(v, stopAt, s0, was);
    trace := Swaps(Insertion, s0, ClearReadings(was, stopAt, checks));
    TrackedOutcome(Insertion, s0, was, stopAt, checks, v.arr[..], at);
    InversionTracedOutcome(s0, trace, v.arr[..]);
  }

  /** The mutable part of the configuration that the controls change. */
  class Config {
    var arraySize: int

    constructor ()
      ensures arraySize == DEFAULT_ARRAY_SIZE
    {
      arraySize := DEFAULT_ARRAY_SIZE;
    }

    /**
     * The array-size control: an accepted size replaces the configured one (a
     * new random array of that size is then generated); a refused size
     * changes nothing.
     */
    method SetArraySize(size: int) returns (r: Outcome<InputError>)
      modifies this
      ensures r == CheckArraySize(size)
      ensures arraySize == if r.Pass? then size else old(arraySize)
    {
      r := CheckArraySize(size);
      if r.Fail? {
        return;
      }
      arraySize := size;
    }
  }

  /**
   * The manual-array control: an accepted list seeds every panel with its own
   * fresh copy (same values in order, ids `0..n-1`), no two panels sharing an
   * array; a refused list changes nothing.
   */
  method SubmitManualArray(panels: seq<Visualizer>, values: seq<int>) returns (r: Outcome<InputError>)
    requires forall p, q :: 0 <= p < q < |panels| ==> panels[p] != panels[q]
    modifies set p | p in panels
    ensures r == CheckManualArray(values)
    ensures r.Fail? ==> forall p :: p in panels ==> unchanged(p)
    ensures r.Pass? ==> forall p :: p in panels ==>
      fresh(p.arr) && p.arr.Length == |values| && p.nextId == |values|
      && (forall k :: 0 <= k < |values| ==> p.arr[k] == Item(values[k], k))
      && p.isSorting == old(p.isSorting) && p.stopRequested == old(p.stopRequested)
    ensures r.Pass? ==> forall p, q :: 0 <= p < q < |panels| ==> panels[p].arr != panels[q].arr
  {
    r := CheckManualArray(values);
    if r.Fail? {
      return;
    }
    var t := 0;
    while t < |panels|
      invariant 0 <= t <= |panels|
      invariant forall m :: 0 <= m < t ==>
        fresh(panels[m].arr) && panels[m].arr.Length == |values| && panels[m].nextId == |values|
        && (forall k :: 0 <= k < |values| ==> panels[m].arr[k] == Item(values[k], k))
      invariant forall p, q :: 0 <= p < q < t ==> panels[p].arr != panels[q].arr
      invariant forall m :: 0 <= m < |panels| ==>
        panels[m].isSorting == old(panels[m].isSorting) && panels[m].stopRequested == old(panels[m].stopRequested)
    {
      panels[t].SetArray(values);
      t := t + 1;
    }
  }
}
