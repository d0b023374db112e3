/**
 * The list view's window onto the scanned ideas: how many ideas fit, and the
 * clamp and scroll adjustment run at the top of every iteration of the main loop.
 */
module Viewport {

  /** Each idea takes two rows: its text and a separator line. */
  const ROWS_PER_IDEA: int := 2
  /** Rows kept free below the list: the instruction line and the prompt line. */
  const RESERVED_ROWS: int := 2

  /**
   * `(max_y - 2) // 2`: whole ideas that fit above the reserved rows (Dafny's
   * division agrees with Python's floor division for a positive divisor).
   */
  function VisibleIdeas(height: int): (v: int)
    ensures v * ROWS_PER_IDEA <= height - RESERVED_ROWS < (v + 1) * ROWS_PER_IDEA
  {
    (height - RESERVED_ROWS) / ROWS_PER_IDEA
  }

  function Dist(a: int, b: int): nat {
    if a <= b then b - a else a - b
  }

  function Max(a: int, b: int): int {
    if a >= b then a else b
  }

  function Min(a: int, b: int): int {
    if a <= b then a else b
  }

  /** The selection clamped into the list: the valid index nearest to it (0 for an empty list). */
  function Clamp(selection: int, count: nat): (r: int)
    ensures 0 <= r <= Max(0, count - 1)
    ensures forall k :: 0 <= k <= Max(0, count - 1) ==> Dist(k, selection) >= Dist(r, selection)
  {
    var s := if selection >= count then count - 1 else selection;
    if s < 0 then 0 else s
  }

  /**
   * The scroll offset after the adjustment: the selection is then on screen,
   * and of all offsets that show it the one nearest to the old offset.
   */
  function ScrollTo(selection: int, scroll: int, visible: int): (r: int)
    requires visible >= 1
    ensures r <= selection < r + visible
    ensures forall s :: s <= selection < s + visible ==> Dist(s, scroll) >= Dist(r, scroll)
    ensures 0 <= selection && 0 <= scroll ==> 0 <= r
  {
    if selection < scroll then selection
    else if selection >= scroll + visible then selection - visible + 1
    else scroll
  }
}
