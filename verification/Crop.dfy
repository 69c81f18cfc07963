/**
Boxes, crops and sizes (internal/images/productimage.go and internal/images/derive.go):
arithmetic three files must agree on.  A coordinate is a floating-point value without
its rounding: a real number, or not a finite number at all.
*/
module Crop {
  import opened Arithmetic
  import opened Wrappers

  datatype Coordinate = Finite(v: real) | NotFinite

  datatype Box = Box(x: Coordinate, y: Coordinate, width: Coordinate, height: Coordinate) {
    predicate IsFinite() { x.Finite? && y.Finite? && width.Finite? && height.Finite? }
  }

  /** A rectangle of pixels, its maximum outside it. */
  datatype Rect = Rect(minX: int, minY: int, maxX: int, maxY: int) {
    function Dx(): int { maxX - minX }
    function Dy(): int { maxY - minY }
    predicate Empty() { minX >= maxX || minY >= maxY }
    predicate Within(r: Rect) { r.minX <= minX && maxX <= r.maxX && r.minY <= minY && maxY <= r.maxY }
    predicate Has(px: int, py: int) { minX <= px < maxX && minY <= py < maxY }
  }

  /** Swaps corners given the wrong way round, as image.Rect does. */
  function Corners(x0: int, y0: int, x1: int, y1: int): Rect {
    Rect(Min(x0, x1), Min(y0, y1), Max(x0, x1), Max(y0, y1))
  }

  const ZERO_RECT: Rect := Rect(0, 0, 0, 0)

  function Intersect(r: Rect, s: Rect): Rect {
    var t := Rect(Max(r.minX, s.minX), Max(r.minY, s.minY), Min(r.maxX, s.maxX), Min(r.maxY, s.maxY));
    if t.Empty() then ZERO_RECT else t
  }

  function Clamp(v: real): real { if v < 0.0 then 0.0 else if v > 1.0 then 1.0 else v }

  function Ceil(v: real): (r: int)
    ensures r as real - 1.0 < v <= r as real
  {
    -((-v).Floor)
  }

  /** The first pixel of a stretch that starts at the fraction `x` of `n` pixels. */
  function First(x: real, n: int): int { Scale(Clamp(x), n as real).Floor }

  /** The pixel after the last of a stretch that ends at the fraction `x`. */
  function Past(x: real, n: int): int { Ceil(Scale(Clamp(x), n as real)) }

  function Scale(v: real, length: real): real { v * length }

  /** The pixels a box selects once clamped to the picture; an error when there are none. */
  function CropRect(bounds: Rect, box: Box): Result<Rect, ()> {
    if !box.IsFinite() then Err(())
    else if box.width.v <= 0.0 || box.height.v <= 0.0 then Err(())
    else
      var rect := Intersect(
        Corners(bounds.minX + First(box.x.v, bounds.Dx()),
                bounds.minY + First(box.y.v, bounds.Dy()),
                bounds.minX + Past(box.x.v + box.width.v, bounds.Dx()),
                bounds.minY + Past(box.y.v + box.height.v, bounds.Dy())),
        bounds);
      if rect.Empty() then Err(()) else Ok(rect)
  }

  const ONE_PIXEL: Rect := Rect(0, 0, 1, 1)

  /** Asked of a one-pixel picture, so that no picture is needed. */
  predicate BoxSelectsNothing(box: Box) { CropRect(ONE_PIXEL, box).Err? }

  /** When a box selects nothing, said without any picture. */
  predicate OffThePicture(box: Box) {
    || !box.IsFinite()
    || box.width.v <= 0.0 || box.height.v <= 0.0
    || box.x.v >= 1.0 || box.x.v + box.width.v <= 0.0
    || box.y.v >= 1.0 || box.y.v + box.height.v <= 0.0
  }

  lemma Scaled(a: real, b: real, m: real)
    requires a <= b && m > 0.0
    ensures Scale(a, m) <= Scale(b, m) && (a < b ==> Scale(a, m) < Scale(b, m))
    ensures Scale(0.0, m) == 0.0 && Scale(1.0, m) == m
  {
    assert (b - a) * m >= 0.0;
    if a < b { assert (b - a) * m > 0.0; }
  }

  /** One axis of a box of positive width selects nothing exactly when it lies off the picture. */
  lemma AxisSelects(x: real, width: real, n: int)
    requires width > 0.0 && n >= 1
    ensures 0 <= First(x, n) <= Past(x + width, n) <= n
    ensures First(x, n) == Past(x + width, n) <==> x >= 1.0 || x + width <= 0.0
  {
    var m := n as real;
    var a, b := Scale(Clamp(x), m), Scale(Clamp(x + width), m);
    ClampedInOrder(x, width, m);
    FloorToCeil(a, b, n);
  }

  lemma ClampedInOrder(x: real, width: real, m: real)
    requires width > 0.0 && m >= 1.0
    ensures 0.0 <= Scale(Clamp(x), m) <= Scale(Clamp(x + width), m) <= m
    ensures Scale(Clamp(x), m) == Scale(Clamp(x + width), m) <==> x >= 1.0 || x + width <= 0.0
    ensures x >= 1.0 ==> Scale(Clamp(x), m) == m
    ensures x + width <= 0.0 ==> Scale(Clamp(x + width), m) == 0.0
  {
    Scaled(0.0, Clamp(x), m);
    Scaled(Clamp(x), Clamp(x + width), m);
    Scaled(Clamp(x + width), 1.0, m);
  }

  lemma FloorToCeil(a: real, b: real, n: int)
    requires 0.0 <= a <= b <= n as real
    ensures 0 <= a.Floor <= Ceil(b) <= n
    ensures a.Floor == Ceil(b) ==> a == b
    ensures a == b && (a == 0.0 || a == n as real) ==> a.Floor == Ceil(b)
  {
  }

  /** A pixel is in the stretch exactly when some of it is. */
  lemma AxisTouches(x: real, n: int, i: int)
    requires n >= 1 && 0 <= i < n
    ensures First(x, n) <= i <==> Scale(x, n as real) < i as real + 1.0
    ensures i < Past(x, n) <==> i as real < Scale(x, n as real)
  {
    EdgeClamped(x, n as real);
    FloorOrCeil(Scale(Clamp(x), n as real), i);
  }

  lemma FloorOrCeil(v: real, i: int)
    ensures v.Floor <= i <==> v < i as real + 1.0
    ensures i < Ceil(v) <==> i as real < v
  {
  }

  lemma EdgeClamped(x: real, m: real)
    requires m >= 1.0
    ensures Scale(Clamp(x), m) == if Scale(x, m) < 0.0 then 0.0 else if Scale(x, m) > m then m else Scale(x, m)
  {
    if x < 0.0 {
      Scaled(x, 0.0, m);
    } else if x > 1.0 {
      Scaled(1.0, x, m);
    } else {
      Scaled(0.0, x, m);
      Scaled(x, 1.0, m);
    }
  }

  lemma CropRectIs(bounds: Rect, box: Box)
    requires bounds.Dx() >= 1 && bounds.Dy() >= 1
    requires box.IsFinite() && box.width.v > 0.0 && box.height.v > 0.0
    ensures CropRect(bounds, box) == if OffThePicture(box) then Err(()) else Ok(Rect(
      bounds.minX + First(box.x.v, bounds.Dx()),
      bounds.minY + First(box.y.v, bounds.Dy()),
      bounds.minX + Past(box.x.v + box.width.v, bounds.Dx()),
      bounds.minY + Past(box.y.v + box.height.v, bounds.Dy())))
  {
    AxisSelects(box.x.v, box.width.v, bounds.Dx());
    AxisSelects(box.y.v, box.height.v, bounds.Dy());
  }

  /** For every picture: refused exactly when the one-pixel test refuses, and otherwise a non-empty part of it. */
  lemma CropAgrees(bounds: Rect, box: Box)
    requires bounds.Dx() >= 1 && bounds.Dy() >= 1
    ensures CropRect(bounds, box).Err? <==> BoxSelectsNothing(box)
    ensures BoxSelectsNothing(box) <==> OffThePicture(box)
    ensures CropRect(bounds, box).Ok? ==>
      !CropRect(bounds, box).value.Empty() && CropRect(bounds, box).value.Within(bounds)
  {
    if box.IsFinite() && box.width.v > 0.0 && box.height.v > 0.0 {
      CropRectIs(bounds, box);
      CropRectIs(ONE_PIXEL, box);
      AxisSelects(box.x.v, box.width.v, bounds.Dx());
      AxisSelects(box.y.v, box.height.v, bounds.Dy());
    }
  }

  /** The crop is every pixel of the picture that some part of the box lies on, and no other. */
  lemma CropIsWhatTheBoxTouches(bounds: Rect, box: Box, px: int, py: int)
    requires bounds.Dx() >= 1 && bounds.Dy() >= 1 && CropRect(bounds, box).Ok? && bounds.Has(px, py)
    ensures var w, h := bounds.Dx() as real, bounds.Dy() as real;
      var i, j := (px - bounds.minX) as real, (py - bounds.minY) as real;
      CropRect(bounds, box).value.Has(px, py) <==> (
        && Scale(box.x.v, w) < i + 1.0 && i < Scale(box.x.v + box.width.v, w)
        && Scale(box.y.v, h) < j + 1.0 && j < Scale(box.y.v + box.height.v, h))
  {
    CropRectIs(bounds, box);
    AxisTouches(box.x.v, bounds.Dx(), px - bounds.minX);
    AxisTouches(box.x.v + box.width.v, bounds.Dx(), px - bounds.minX);
    AxisTouches(box.y.v, bounds.Dy(), py - bounds.minY);
    AxisTouches(box.y.v + box.height.v, bounds.Dy(), py - bounds.minY);
  }
}
