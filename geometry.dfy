/**
 * Lengths and the viewport clamp of js/simple.js (keepInBounds).
 * Positions are whole CSS pixels; the viewport size is a parameter.
 */
module Geometry {

  /** Height in pixels of the taskbar strip that windows are kept above. */
  const TaskbarHeight: int := 36

  /**
   * An inline style length as the window system writes it: the empty value "",
   * "<n>px", "100vw" (maximized width) or "calc(100vh - 36px)" (maximized height).
   */
  datatype Css = Unset | Px(px: int) | FullWidth | FullHeight

  /** The geometry the stylesheet gives a window whose inline style is empty. */
  datatype Box = Box(left: int, top: int, width: int, height: int)

  /**
   * The rendered length (offsetLeft, offsetTop, offsetWidth, offsetHeight) of an
   * inline value, given the stylesheet's value and the viewport size.
   */
  function Measure(c: Css, sheet: int, vw: int, vh: int): int
  {
    match c
    case Unset => sheet
    case Px(n) => n
    case FullWidth => vw
    case FullHeight => vh - TaskbarHeight
  }

  /**
   * One axis of keepInBounds: first the lower bound is applied, then the upper
   * bound is checked against the already corrected value, so the upper bound
   * wins when the range is empty.
   */
  function ClampAxis(p: int, max: int): (r: int)
    ensures max >= 0 ==> 0 <= r <= max
    ensures 0 <= p <= max ==> r == p
    ensures p < 0 && max >= 0 ==> r == 0
    ensures p > max ==> r == max
    ensures max < 0 ==> r == max
  {
    var afterLower := if p < 0 then 0 else p;
    if afterLower > max then max else afterLower
  }

  /** Clamping a clamped position changes nothing. */
  lemma ClampIdempotent(p: int, max: int)
    ensures ClampAxis(ClampAxis(p, max), max) == ClampAxis(p, max)
  {
  }
}
