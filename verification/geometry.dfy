/** Axis-aligned boxes (`BoundingBox`) and the per-element rendering context
    (`ElementContext`) with its off-screen test. */
module Geometry {
  import opened Wrappers
  import opened Numbers

  /** `new BoundingBox(x, y, width, height)` stores its four arguments as
      given; a negative width or height is not rejected. */
  datatype BoundingBox = BoundingBox(x: real, y: real, width: real, height: real)

  /** `BoundingBox.isInside(px, py)`: the closed rectangle, every edge
      included. */
  predicate IsInside(b: BoundingBox, px: real, py: real)
  {
    px >= b.x && px <= b.x + b.width && py >= b.y && py <= b.y + b.height
  }

  /** All four corners of a box with non-negative extent lie inside it. */
  lemma CornersInside(b: BoundingBox)
    requires b.width >= 0.0 && b.height >= 0.0
    ensures IsInside(b, b.x, b.y)
    ensures IsInside(b, b.x + b.width, b.y)
    ensures IsInside(b, b.x, b.y + b.height)
    ensures IsInside(b, b.x + b.width, b.y + b.height)
  {
  }

  /** Points left of or above the origin, or right of or below the far
      edges, are outside. */
  lemma OutsideBeyondEdges(b: BoundingBox, px: real, py: real)
    requires px < b.x || py < b.y || px > b.x + b.width || py > b.y + b.height
    ensures !IsInside(b, px, py)
  {
  }

  /** A box with a negative width or height contains no point at all. */
  lemma NegativeBoxIsEmpty(b: BoundingBox, px: real, py: real)
    requires b.width < 0.0 || b.height < 0.0
    ensures !IsInside(b, px, py)
  {
  }

  /** `ElementContext`: the layout's dimensions are fixed at construction;
      the other fields are per-element state set while emitting commands.
      The command consumer (`push`) is a foreign callback and not part of
      this model. */
  datatype ElementContext = ElementContext(
    layoutWidth: real,
    layoutHeight: real,
    zIndex: int,
    emitRectangle: bool,
    offscreen: bool,
    boundingBox: Option<BoundingBox>)

  /** `new ElementContext(layoutWidth, layoutHeight, pushCommand)`; the
      remaining fields take Java's defaults (0, false, false, null). */
  function NewElementContext(layoutWidth: real, layoutHeight: real): (c: ElementContext)
    ensures c.layoutWidth == layoutWidth && c.layoutHeight == layoutHeight
    ensures c.zIndex == 0 && !c.emitRectangle && !c.offscreen && c.boundingBox.None?
  {
    ElementContext(layoutWidth, layoutHeight, 0, false, false, None)
  }

  /** The setter `emitRectangle(b)`: reading the flag back gives `b`, and
      nothing else of the context changes, the layout dimensions included. */
  function SetEmitRectangle(c: ElementContext, emit: bool): (r: ElementContext)
    ensures r.emitRectangle == emit
    ensures r.layoutWidth == c.layoutWidth && r.layoutHeight == c.layoutHeight
    ensures r.zIndex == c.zIndex && r.offscreen == c.offscreen && r.boundingBox == c.boundingBox
  {
    c.(emitRectangle := emit)
  }

  /** `isOffscreen(x, y, width, height)`: strictly beyond the right or bottom
      edge of the layout, or strictly before its left or top edge. */
  predicate IsOffscreen(c: ElementContext, x: real, y: real, width: real, height: real)
  {
    x > c.layoutWidth || y > c.layoutHeight || x + width < 0.0 || y + height < 0.0
  }

  /** `isOffscreen(BoundingBox)` delegates to the coordinate overload. */
  predicate IsOffscreenBox(c: ElementContext, b: BoundingBox)
  {
    IsOffscreen(c, b.x, b.y, b.width, b.height)
  }

  /** The screen as a box at the origin. */
  function Screen(c: ElementContext): BoundingBox
  {
    BoundingBox(0.0, 0.0, c.layoutWidth, c.layoutHeight)
  }

  /** A box that touches the screen only at an edge or corner still counts
      as on-screen: one whose top-left corner is the screen's bottom-right
      corner, and one whose bottom-right corner is the screen's origin. */
  lemma TouchingEdgesIsOnscreen(c: ElementContext, width: real, height: real)
    requires c.layoutWidth >= 0.0 && c.layoutHeight >= 0.0
    requires width >= 0.0 && height >= 0.0
    ensures !IsOffscreen(c, c.layoutWidth, c.layoutHeight, width, height)
    ensures !IsOffscreen(c, -width, -height, width, height)
  {
  }

  /** For boxes and screens of non-negative extent, being off-screen means
      exactly that no point lies both inside the box and inside the screen:
      the test agrees with the intersection of the two closed rectangles. */
  lemma OffscreenIffDisjoint(c: ElementContext, b: BoundingBox)
    requires c.layoutWidth >= 0.0 && c.layoutHeight >= 0.0
    requires b.width >= 0.0 && b.height >= 0.0
    ensures IsOffscreenBox(c, b) <==>
            forall px: real, py: real :: !(IsInside(b, px, py) && IsInside(Screen(c), px, py))
  {
    if !IsOffscreenBox(c, b) {
      var px := Max(b.x, 0.0);
      var py := Max(b.y, 0.0);
      assert IsInside(b, px, py) && IsInside(Screen(c), px, py);
    }
  }
}
