/**
  `Utils.isElementInViewport`: an element's bounding box lies wholly inside the
  window's visible area.
 */
module Viewport {

  /** A `DOMRect` from `getBoundingClientRect`, relative to the top-left corner of the viewport. */
  datatype Rect = Rect(top: real, left: real, bottom: real, right: real)

  /**
    The window's size as `window.innerWidth`/`innerHeight` report it, and the
    document element's `clientWidth`/`clientHeight` used when those are zero.
   */
  datatype Window = Window(innerWidth: int, innerHeight: int, clientWidth: int, clientHeight: int)

  /** JavaScript's `a || b` on numbers: `a`, unless `a` is zero and so falsy. */
  function OrElse(a: int, b: int): int {
    if a != 0 then a else b
  }

  function Height(w: Window): int {
    OrElse(w.innerHeight, w.clientHeight)
  }

  function Width(w: Window): int {
    OrElse(w.innerWidth, w.clientWidth)
  }

  /** `inner` lies wholly within `outer`, edges included. */
  predicate Contains(outer: Rect, inner: Rect) {
    && outer.top <= inner.top
    && outer.left <= inner.left
    && inner.bottom <= outer.bottom
    && inner.right <= outer.right
  }

  /** The visible area of the window, from its top-left corner. */
  function Visible(w: Window): Rect {
    Rect(0.0, 0.0, Height(w) as real, Width(w) as real)
  }

  /**
    The element is in the viewport exactly when its box is contained in the
    visible area; when `innerHeight` or `innerWidth` is zero the document
    element's client size takes its place.
   */
  function IsElementInViewport(rect: Rect, w: Window): (r: bool)
    ensures r <==> Contains(Visible(w), rect)
    ensures w.innerHeight == 0 && r ==> rect.bottom <= w.clientHeight as real
    ensures w.innerHeight != 0 && r ==> rect.bottom <= w.innerHeight as real
    ensures w.innerWidth == 0 && r ==> rect.right <= w.clientWidth as real
    ensures w.innerWidth != 0 && r ==> rect.right <= w.innerWidth as real
  {
    && rect.top >= 0.0
    && rect.left >= 0.0
    && rect.bottom <= Height(w) as real
    && rect.right <= Width(w) as real
  }

  /** Containment is transitive: a box inside a box that is in the viewport is itself in the viewport. */
  lemma InViewportInherited(outer: Rect, inner: Rect, w: Window)
    requires IsElementInViewport(outer, w)
    requires Contains(outer, inner)
    ensures IsElementInViewport(inner, w)
  {
  }

  /** A box that sticks out above or to the left of the viewport is never in it, whatever the window size. */
  lemma AboveOrLeftNeverInViewport(rect: Rect, w: Window)
    requires rect.top < 0.0 || rect.left < 0.0
    ensures !IsElementInViewport(rect, w)
  {
  }
}
