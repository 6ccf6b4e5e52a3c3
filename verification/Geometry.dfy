/** Rectangles of the page raster: real document rects, and the pixel rects they round to. */
module Geometry {

  datatype Option<+T> = None | Some(value: T)

  /** Rows of the window bitmap the browser chrome occupies. */
  const CHROME_ROWS: nat := 44

  /** A rect in document coordinates. The source's f32 rounding error is not modelled. */
  datatype Rect = Rect(x: real, y: real, width: real, height: real)

  /** A rect of whole pixels inside a bitmap. */
  datatype PixelRect = PixelRect(x: nat, y: nat, width: nat, height: nat)

  function Min(a: int, b: int): int { if a < b then a else b }

  function Max(a: int, b: int): int { if a < b then b else a }

  function Ceil(r: real): int { -((-r).Floor) }

  /** `floor().max(0).min(limit)`, the clamp applied to every rect edge. */
  function Clamp(v: int, limit: nat): nat { Min(Max(v, 0), limit) }

  predicate Inside(p: PixelRect, x: int, y: int) {
    p.x <= x < p.x + p.width && p.y <= y < p.y + p.height
  }

  /** The pixel (x, y) lies in the outward rounding of a non-empty rect. */
  predicate CoversPixel(rect: Rect, x: int, y: int) {
    && rect.width > 0.0 && rect.height > 0.0
    && rect.x.Floor <= x < Ceil(rect.x + rect.width)
    && rect.y.Floor <= y < Ceil(rect.y + rect.height)
  }

  /** A rect covers exactly the pixels whose unit cell it overlaps. */
  lemma CoversIffCellOverlaps(rect: Rect, x: int, y: int)
    ensures CoversPixel(rect, x, y)
            <==> && rect.width > 0.0 && rect.height > 0.0
                 && rect.x < (x + 1) as real && x as real < rect.x + rect.width
                 && rect.y < (y + 1) as real && y as real < rect.y + rect.height
  {}

  /** The pixels of a `width` by `height` bitmap that `rect` touches, when there are any. */
  function PixelRectFromRect(rect: Rect, width: nat, height: nat): (r: Option<PixelRect>)
    ensures r.Some? ==> 0 < r.value.width && 0 < r.value.height
    ensures r.Some? ==> r.value.x + r.value.width <= width && r.value.y + r.value.height <= height
    ensures forall x, y :: 0 <= x < width && 0 <= y < height ==>
                             (CoversPixel(rect, x, y) <==> r.Some? && Inside(r.value, x, y))
  {
    if width == 0 || height == 0 || rect.width <= 0.0 || rect.height <= 0.0 then None
    else
      var x0 := Clamp(rect.x.Floor, width);
      var y0 := Clamp(rect.y.Floor, height);
      var x1 := Clamp(Ceil(rect.x + rect.width), width);
      var y1 := Clamp(Ceil(rect.y + rect.height), height);
      if x1 > x0 && y1 > y0 then Some(PixelRect(x0, y0, x1 - x0, y1 - y0)) else None
  }

  /** The common pixels of two pixel rects, when there are any. */
  function PixelRectIntersection(a: PixelRect, b: PixelRect): (r: Option<PixelRect>)
    ensures forall x: int, y: int :: Inside(a, x, y) && Inside(b, x, y) <==> r.Some? && Inside(r.value, x, y)
    ensures r.Some? ==> r.value.x + r.value.width <= a.x + a.width && r.value.y + r.value.height <= a.y + a.height
  {
    var x0 := Max(a.x, b.x);
    var y0 := Max(a.y, b.y);
    var x1 := Min(a.x + a.width, b.x + b.width);
    var y1 := Min(a.y + a.height, b.y + b.height);
    if x1 > x0 && y1 > y0 then Some(PixelRect(x0, y0, x1 - x0, y1 - y0)) else None
  }

  predicate RectsIntersect(a: Rect, b: Rect) {
    a.x < b.x + b.width && a.x + a.width > b.x && a.y < b.y + b.height && a.y + a.height > b.y
  }

  predicate RectContainsRect(outer: Rect, inner: Rect) {
    && outer.x <= inner.x && outer.y <= inner.y
    && outer.x + outer.width >= inner.x + inner.width
    && outer.y + outer.height >= inner.y + inner.height
  }

  /** A document rect seen from a window scrolled down by `scrollY`. */
  function Shifted(rect: Rect, scrollY: nat): Rect {
    Rect(rect.x, rect.y - scrollY as real, rect.width, rect.height)
  }

  lemma FloorShift(r: real, n: int)
    ensures (r - n as real).Floor == r.Floor - n
    ensures Ceil(r - n as real) == Ceil(r) - n
  {}

  /** Scrolling by whole rows moves a rect's pixels by whole rows: rounding commutes with it. */
  lemma ShiftedCovers(rect: Rect, scrollY: nat, x: int, y: int)
    ensures CoversPixel(Shifted(rect, scrollY), x, y) <==> CoversPixel(rect, x, y + scrollY)
  {}

  /** The unit cell of pixel (x, y) lies inside `region`. */
  predicate RegionHasCell(region: Rect, x: int, y: int) {
    && region.x <= x as real && (x + 1) as real <= region.x + region.width
    && region.y <= y as real && (y + 1) as real <= region.y + region.height
  }

  /** An item that touches a pixel of a region meets the region itself. */
  lemma CoverMeetsRegion(rect: Rect, region: Rect, x: int, y: int)
    requires CoversPixel(rect, x, y)
    requires RegionHasCell(region, x, y)
    ensures RectsIntersect(rect, region)
  {}

  /** A rect that contains a region covers every pixel whose cell the region touches. */
  lemma ContainedCovers(outer: Rect, region: Rect, x: int, y: int)
    requires RectContainsRect(outer, region)
    requires CoversPixel(region, x, y)
    ensures CoversPixel(outer, x, y)
  {}
}
