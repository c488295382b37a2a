/**
 * The colour a bar is drawn with, chosen from the highlight annotations of one
 * redraw. Several annotations can name the same index; a fixed priority
 * decides: swap pair, then current index, then minimum index, then compared
 * indices, then the default colour.
 */
module BarColors {
  import opened Wrappers

  datatype BarColor = Default | Compare | Min | Current | Swap

  /**
   * The annotations of one redraw. An absent `minIdx` or `currentIdx` is
   * `null` in the renderer; absent index lists are empty.
   */
  datatype Highlight = Highlight(
    highlightedIndices: seq<int>,
    minIdx: Option<int>,
    currentIdx: Option<int>,
    swapIndices: seq<int>)

  /** The redraw with no annotation at all (the final corrective render). */
  const NoHighlight := Highlight([], None, None, [])

  /** Whether the annotations ask for colour `c` at index `i`. */
  ghost predicate Applies(c: BarColor, i: int, h: Highlight) {
    match c
    case Swap => i in h.swapIndices
    case Current => h.currentIdx == Some(i)
    case Min => h.minIdx == Some(i)
    case Compare => i in h.highlightedIndices
    case Default => true
  }

  /** Priority rank: the lower, the stronger. */
  function Rank(c: BarColor): nat {
    match c
    case Swap => 0
    case Current => 1
    case Min => 2
    case Compare => 3
    case Default => 4
  }

  /** The colour of bar `i`: the strongest of the colours the annotations ask for. */
  function GetBarColor(i: int, h: Highlight): (c: BarColor)
    ensures Applies(c, i, h)
    ensures forall c' :: Applies(c', i, h) ==> Rank(c) <= Rank(c')
  {
    if i in h.swapIndices then Swap
    else if h.currentIdx == Some(i) then Current
    else if h.minIdx == Some(i) then Min
    else if i in h.highlightedIndices then Compare
    else Default
  }

  /** An index that is both in the swap pair and compared is drawn as swapped. */
  lemma SwapOverridesCompare(i: int, h: Highlight)
    requires i in h.swapIndices && i in h.highlightedIndices
    ensures GetBarColor(i, h) == Swap
  {
  }

  /** An index that is both the current index and compared is drawn as current. */
  lemma CurrentOverridesCompare(i: int, h: Highlight)
    requires i !in h.swapIndices && h.currentIdx == Some(i) && i in h.highlightedIndices
    ensures GetBarColor(i, h) == Current
  {
  }

  /** Without annotations every bar gets the default colour. */
  lemma PlainRedrawIsDefault(i: int)
    ensures GetBarColor(i, NoHighlight) == Default
  {
  }
}
