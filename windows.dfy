/**
 * One window element of js/simple.js: its inline display, position, size and
 * z-index, the per-window maximize record kept in windowState, and the pure
 * geometry steps applied to it (clamp, move, maximize and restore).
 */
module Windows {
  import opened Wrappers
  import opened Geometry

  /** The inline display value: "" (not set), "block" or "none". */
  datatype Display = DisplayUnset | Block | Hidden

  /**
   * A window element. The four lengths are the inline style values; `sheet` is what
   * the stylesheet gives when they are empty; `z` is the inline z-index (None while unset).
   */
  datatype Win = Win(display: Display, left: Css, top: Css, width: Css, height: Css,
                     z: Option<int>, sheet: Box)

  /** A window as the page starts: no inline style at all. */
  function Pristine(sheet: Box): (w: Win)
    ensures w.display == DisplayUnset && w.z == None && w.sheet == sheet
    ensures w.left == w.top == w.width == w.height == Unset
  {
    Win(DisplayUnset, Unset, Unset, Unset, Unset, None, sheet)
  }

  /** The rendered position and size of a window (offsetLeft, offsetTop, offsetWidth, offsetHeight). */
  function OffsetLeft(w: Win, vw: int, vh: int): int { Measure(w.left, w.sheet.left, vw, vh) }
  function OffsetTop(w: Win, vw: int, vh: int): int { Measure(w.top, w.sheet.top, vw, vh) }
  function OffsetWidth(w: Win, vw: int, vh: int): int { Measure(w.width, w.sheet.width, vw, vh) }
  function OffsetHeight(w: Win, vw: int, vh: int): int { Measure(w.height, w.sheet.height, vw, vh) }

  /** The largest legal left and top: the viewport less the window, and less the taskbar vertically. */
  function MaxX(w: Win, vw: int, vh: int): int { vw - OffsetWidth(w, vw, vh) }
  function MaxY(w: Win, vw: int, vh: int): int { vh - OffsetHeight(w, vw, vh) - TaskbarHeight }

  /** The window's rendered position lies inside the legal range. */
  predicate InBounds(w: Win, vw: int, vh: int)
  {
    0 <= OffsetLeft(w, vw, vh) <= MaxX(w, vw, vh) && 0 <= OffsetTop(w, vw, vh) <= MaxY(w, vw, vh)
  }

  /**
   * keepInBounds: a coordinate is rewritten (as "<n>px") only when it is below 0 or
   * above its maximum; the rendered result is the clamped coordinate, and nothing but
   * left and top changes.
   */
  function KeptInBounds(w: Win, vw: int, vh: int): (r: Win)
    ensures r == w.(left := r.left, top := r.top)
    ensures OffsetLeft(r, vw, vh) == ClampAxis(OffsetLeft(w, vw, vh), MaxX(w, vw, vh))
    ensures OffsetTop(r, vw, vh) == ClampAxis(OffsetTop(w, vw, vh), MaxY(w, vw, vh))
    ensures 0 <= OffsetLeft(w, vw, vh) <= MaxX(w, vw, vh) ==> r.left == w.left
    ensures 0 <= OffsetTop(w, vw, vh) <= MaxY(w, vw, vh) ==> r.top == w.top
    ensures !(0 <= OffsetLeft(w, vw, vh) <= MaxX(w, vw, vh)) ==>
              r.left == Px(ClampAxis(OffsetLeft(w, vw, vh), MaxX(w, vw, vh)))
    ensures !(0 <= OffsetTop(w, vw, vh) <= MaxY(w, vw, vh)) ==>
              r.top == Px(ClampAxis(OffsetTop(w, vw, vh), MaxY(w, vw, vh)))
    ensures MaxX(w, vw, vh) >= 0 && MaxY(w, vw, vh) >= 0 ==> InBounds(r, vw, vh)
  {
    var x, y := OffsetLeft(w, vw, vh), OffsetTop(w, vw, vh);
    var mx, my := MaxX(w, vw, vh), MaxY(w, vw, vh);
    w.(left := if x < 0 || x > mx then Px(ClampAxis(x, mx)) else w.left,
       top := if y < 0 || y > my then Px(ClampAxis(y, my)) else w.top)
  }

  /** Clamping a window that was already clamped changes nothing. */
  lemma KeptInBoundsIdempotent(w: Win, vw: int, vh: int)
    ensures KeptInBounds(KeptInBounds(w, vw, vh), vw, vh) == KeptInBounds(w, vw, vh)
  {
  }

  /** One step of a drag: write the pointer-derived position as "<n>px", then keepInBounds. */
  function MoveTo(w: Win, x: int, y: int, vw: int, vh: int): (r: Win)
    ensures r == w.(left := r.left, top := r.top)
    ensures MaxX(w, vw, vh) >= 0 && MaxY(w, vw, vh) >= 0 ==> InBounds(r, vw, vh)
  {
    KeptInBounds(w.(left := Px(x), top := Px(y)), vw, vh)
  }

  /** A drag step lands exactly on the clamped target, and only left and top change. */
  lemma MoveToLands(w: Win, x: int, y: int, vw: int, vh: int)
    ensures MoveTo(w, x, y, vw, vh)
         == w.(left := Px(ClampAxis(x, MaxX(w, vw, vh))), top := Px(ClampAxis(y, MaxY(w, vw, vh))))
  {
  }

  /** Where a drag step puts a window does not depend on where it was. */
  lemma MoveToForgetsPosition(w: Win, a: Css, b: Css, x: int, y: int, vw: int, vh: int)
    ensures MoveTo(w.(left := a, top := b), x, y, vw, vh) == MoveTo(w, x, y, vw, vh)
  {
  }

  /** The four inline lengths that maximize saves and restore writes back, in the source's order. */
  datatype Geom = Geom(top: Css, left: Css, width: Css, height: Css)

  /** windowState[id]: whether the window is maximized and the lengths saved when it was maximized. */
  datatype Saved = Saved(maximized: bool, kept: Geom)

  function GeomOf(w: Win): Geom { Geom(w.top, w.left, w.width, w.height) }

  function WithGeom(w: Win, g: Geom): (r: Win)
    ensures GeomOf(r) == g
    ensures r.display == w.display && r.z == w.z && r.sheet == w.sheet
  {
    w.(top := g.top, left := g.left, width := g.width, height := g.height)
  }

  /** The maximized lengths: "0px", "0px", "100vw", "calc(100vh - 36px)". */
  const MaximizedGeom: Geom := Geom(Px(0), Px(0), FullWidth, FullHeight)

  /** A window counts as maximized only once windowState holds a record saying so. */
  predicate IsMaximized(s: Option<Saved>) { s.Some? && s.value.maximized }

  /**
   * The geometry half of maximize: from a non-maximized state it saves the current
   * lengths and writes the maximized ones; otherwise it writes the saved lengths back,
   * keeping them in the record, and clears the flag.
   */
  function ToggleMaximize(w: Win, s: Option<Saved>): (r: (Win, Saved))
    ensures r.0 == WithGeom(w, GeomOf(r.0))
    ensures !IsMaximized(s) ==> GeomOf(r.0) == MaximizedGeom && r.1 == Saved(true, GeomOf(w))
    ensures IsMaximized(s) ==> GeomOf(r.0) == s.value.kept && r.1 == Saved(false, s.value.kept)
  {
    if !IsMaximized(s) then
      (WithGeom(w, MaximizedGeom), Saved(true, GeomOf(w)))
    else
      (WithGeom(w, s.value.kept), s.value.(maximized := false))
  }

  /**
   * Two toggles in a row: from a normal window they give back exactly the window it
   * was, with the flag cleared; from a maximized one they leave it maximized with the
   * same record.
   */
  lemma ToggleMaximizeTwice(w: Win, s: Option<Saved>)
    ensures var (w1, s1) := ToggleMaximize(w, s);
            var (w2, s2) := ToggleMaximize(w1, Some(s1));
            && (!IsMaximized(s) ==> w2 == w && s2 == Saved(false, GeomOf(w)))
            && (IsMaximized(s) ==> GeomOf(w2) == MaximizedGeom && s2 == s.value)
  {
  }
}
