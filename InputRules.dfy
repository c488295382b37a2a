/**
 * The acceptance rules of the two array inputs: the array-size field and the
 * comma-separated manual list. Both work on numbers that have already been
 * parsed; a rejection is reported before anything is changed.
 */
module InputRules {
  import opened Wrappers

  /** Bounds of a bar value. */
  const MIN_VALUE: int := 5
  const MAX_VALUE: int := 100
  /** Bounds of an array length, for both inputs. */
  const MIN_LENGTH: int := 2
  const MAX_LENGTH: int := 50
  /** The array size before the size field is used. */
  const DEFAULT_ARRAY_SIZE: int := 15

  /** Why an input was refused; each has its own message in the interface. */
  datatype InputError = SizeOutOfRange | TooFewValues | TooManyValues | ValueOutOfRange

  ghost predicate InRange(v: int) {
    MIN_VALUE <= v <= MAX_VALUE
  }

  /** The array-size field: an integer in `[2, 50]`. */
  function CheckArraySize(size: int): (r: Outcome<InputError>)
    ensures r == Pass || r == Fail(SizeOutOfRange)
    ensures r == Pass <==> MIN_LENGTH <= size <= MAX_LENGTH
  {
    if size < 2 || size > 50 then Fail(SizeOutOfRange) else Pass
  }

  /**
   * The manual list: checked for too few values, then too many, then for some
   * value outside `[MIN_VALUE, MAX_VALUE]`, in that order.
   */
  function CheckManualArray(values: seq<int>): (r: Outcome<InputError>)
    ensures r == Pass <==>
      MIN_LENGTH <= |values| <= MAX_LENGTH && forall k :: 0 <= k < |values| ==> InRange(values[k])
    ensures r == Fail(TooFewValues) <==> |values| < MIN_LENGTH
    ensures r == Fail(TooManyValues) <==> |values| > MAX_LENGTH
    ensures r == Fail(ValueOutOfRange) <==>
      MIN_LENGTH <= |values| <= MAX_LENGTH && exists k :: 0 <= k < |values| && !InRange(values[k])
  {
    if |values| < 2 then Fail(TooFewValues)
    else if |values| > 50 then Fail(TooManyValues)
    else if exists k :: 0 <= k < |values| && (values[k] < MIN_VALUE || values[k] > MAX_VALUE) then
      Fail(ValueOutOfRange)
    else Pass
  }

  /** The list `5,100,7` lies within the bounds and is accepted. */
  lemma AcceptsBoundaryValues()
    ensures CheckManualArray([5, 100, 7]) == Pass
  {
  }

  /** The list `1,2` has a value below the minimum and is refused. */
  lemma RefusesValueBelowMinimum()
    ensures CheckManualArray([1, 2]) == Fail(ValueOutOfRange)
  {
    assert !InRange([1, 2][0]);
  }

  /** A size of 50 is accepted and 51 is refused. */
  lemma SizeBoundary()
    ensures CheckArraySize(50) == Pass && CheckArraySize(51) == Fail(SizeOutOfRange)
  {
  }
}
