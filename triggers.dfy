/**
 * When an include anchor starts loading: the lazy-load eligibility test run by
 * `displayLazy`, over geometry that the layout engine supplies as inputs.
 */
module Triggers {

  const BEFORE_PRINT := "beforeprint"

  /**
   * What `displayLazy` reads from layout: the bounding client rectangle and
   * the anchor's `offsetWidth` / `offsetHeight`.
   */
  datatype Box = Box(top: int, left: int, right: int, bottom: int, width: int, height: int)

  /** `window.innerWidth/innerHeight` and the root element's `clientWidth/clientHeight`. */
  datatype Viewport = Viewport(innerWidth: int, innerHeight: int, clientWidth: int, clientHeight: int)

  /** `window.innerWidth || documentElement.clientWidth`: zero falls back. */
  function ViewportWidth(vp: Viewport): int
  {
    if vp.innerWidth != 0 then vp.innerWidth else vp.clientWidth
  }

  /** `window.innerHeight || documentElement.clientHeight`: zero falls back. */
  function ViewportHeight(vp: Viewport): int
  {
    if vp.innerHeight != 0 then vp.innerHeight else vp.clientHeight
  }

  /** The four comparisons of `displayLazy`, as written. */
  predicate InExpandedViewport(b: Box, vp: Viewport)
  {
    && b.top >= -b.height
    && b.left >= -b.width
    && b.right <= ViewportWidth(vp) + b.width
    && b.bottom <= ViewportHeight(vp) + b.height
  }

  /** `displayLazy` calls `display` for a print event or an anchor in range. */
  predicate LazyEligible(eventType: string, b: Box, vp: Viewport)
  {
    eventType == BEFORE_PRINT || InExpandedViewport(b, vp)
  }

  /** An axis-aligned rectangle, used as an independent statement of the test. */
  datatype Rect = Rect(left: int, top: int, right: int, bottom: int)

  function BoundingRect(b: Box): Rect
  {
    Rect(b.left, b.top, b.right, b.bottom)
  }

  /** The viewport grown by `w` on the left and right and by `h` above and below. */
  function ExpandedViewport(vp: Viewport, w: int, h: int): Rect
  {
    Rect(-w, -h, ViewportWidth(vp) + w, ViewportHeight(vp) + h)
  }

  predicate Contains(outer: Rect, inner: Rect)
  {
    outer.left <= inner.left && outer.top <= inner.top &&
    inner.right <= outer.right && inner.bottom <= outer.bottom
  }

  predicate Intersects(r: Rect, s: Rect)
  {
    r.left < s.right && s.left < r.right && r.top < s.bottom && s.top < r.bottom
  }

  /** A print event makes every anchor eligible, wherever it lies. */
  lemma PrintIsAlwaysEligible(b: Box, vp: Viewport)
    ensures LazyEligible(BEFORE_PRINT, b, vp)
  {
  }

  /**
   * For any other event the anchor is eligible exactly when its bounding box
   * lies inside the viewport grown by the anchor's own width and height on
   * every side, the viewport size falling back to the client size when the
   * window reports zero. The second conclusion is the same test unfolded
   * into the four comparisons of the source.
   */
  lemma EligibleIffContained(eventType: string, b: Box, vp: Viewport)
    requires eventType != BEFORE_PRINT
    ensures LazyEligible(eventType, b, vp) <==>
      Contains(ExpandedViewport(vp, b.width, b.height), BoundingRect(b))
    ensures LazyEligible(eventType, b, vp) <==>
      && b.top >= -b.height
      && b.left >= -b.width
      && b.right <= (if vp.innerWidth != 0 then vp.innerWidth else vp.clientWidth) + b.width
      && b.bottom <= (if vp.innerHeight != 0 then vp.innerHeight else vp.clientHeight) + b.height
  {
  }

  /**
   * The test is containment, not intersection: an anchor straddling the lower
   * edge of the grown viewport overlaps it and is still not loaded.
   */
  lemma OverlapIsNotEnough()
    ensures var vp := Viewport(100, 100, 0, 0);
            var b := Box(140, 0, 10, 190, 10, 50);
            Intersects(ExpandedViewport(vp, b.width, b.height), BoundingRect(b)) &&
            !LazyEligible("scroll", b, vp)
  {
  }

  /** An anchor 2000 pixels down an 800-pixel-high window is not loaded on scroll. */
  lemma FarBelowIsNotEligible(h: int)
    requires 0 <= h
    ensures !LazyEligible("scroll", Box(2000, 0, 100, 2000 + h, 100, h), Viewport(1200, 800, 1200, 800))
  {
  }
}
