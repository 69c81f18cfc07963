/**
Shrinking a large photo before its variants are scaled (internal/images/derive.go,
internal/images/productimage.go): the factor, the block average over the planes, and
what the variants' sizes come to.
*/
module PreShrink {
  import opened Arithmetic
  import opened Crop

  const PREVIEW_SIDE: nat := 1600
  const LARGEST_THUMB: nat := 768
  const MARGIN: real := 1.5

  // ----------------------------------------------------------------------- sizes

  /** The largest integer shrink that leaves every variant oversampled by the margin; 1 when it is not worth it. */
  function PreShrinkFactor(w: nat, h: nat): (f: nat)
    ensures f >= 1
  {
    var byPreview := Max(w, h) as real / (MARGIN * PREVIEW_SIDE as real);
    var byThumb := Min(w, h) as real / (MARGIN * LARGEST_THUMB as real);
    var f := (if byPreview < byThumb then byPreview else byThumb).Floor;
    if f < 2 then 1 else f
  }

  /** Half away from zero, for what is never negative here. */
  function Round(v: real): int { (v + 0.5).Floor }

  /** The size a picture is scaled to so that its longer side is at most `side`; never up. */
  function FitWithin(w: nat, h: nat, side: nat): (nat, nat)
    requires w >= 1 && h >= 1
  {
    if w <= side && h <= side then (w, h)
    else
      var long := Max(w, h);
      (Max(1, Round(ScaledEdge(w, long, side))), Max(1, Round(ScaledEdge(h, long, side))))
  }

  /** An edge times the scale that takes the long edge to `side`. */
  function ScaledEdge(edge: nat, long: nat, side: nat): real
    requires long >= 1
  {
    edge as real * (side as real / long as real)
  }

  /** An edge of a scaled picture: the whole number nearest to its share, halves up, and never none. */
  predicate NearestShare(scaled: nat, edge: nat, long: nat, side: nat) {
    var share, twice := 2 * (edge * side), 2 * (scaled * long);
    if share < long then scaled == 1 else twice - long <= share < twice + long
  }

  lemma ShareIs(edge: nat, long: nat, side: nat)
    requires long >= 1
    ensures ScaledEdge(edge, long, side) * long as real == (edge * side) as real
  {
    var scale := side as real / long as real;
    assert scale * long as real == side as real;
    assert edge as real * scale * long as real == edge as real * (scale * long as real);
    assert (edge * side) as real == edge as real * side as real;
  }

  lemma Times(a: real, b: real, c: real)
    requires c > 0.0
    ensures a <= b <==> a * c <= b * c
    ensures a < b <==> a * c < b * c
  {
    if a <= b { assert (b - a) * c >= 0.0; }
    if b <= a { assert (a - b) * c >= 0.0; }
    if a < b { assert (b - a) * c > 0.0; }
    if b < a { assert (a - b) * c > 0.0; }
  }

  lemma Ordered(a: real, b: real, c: real, ac: real, bc: real)
    requires c > 0.0 && ac == a * c && bc == b * c
    ensures a <= b <==> ac <= bc
    ensures a < b <==> ac < bc
  {
    Times(a, b, c);
  }

  lemma NearestOf(v: real, n: int, long: nat, share: nat)
    requires long >= 1 && n as real <= v + 0.5 < n as real + 1.0 && v * long as real == share as real
    ensures 2 * (n * long) - long <= 2 * share < 2 * (n * long) + long
    ensures n >= 1 <==> 2 * share >= long
  {
    var l, p := long as real, (n * long) as real;
    var low, high := n as real - 0.5, n as real + 0.5;
    HalvesOf(n, long, low, high, l);
    Ordered(low, v, l, p - l / 2.0, share as real);
    Ordered(v, high, l, share as real, p + l / 2.0);
    Ordered(0.5, v, l, l / 2.0, share as real);
  }

  lemma RoundsToShare(edge: nat, long: nat, side: nat)
    requires long >= 1
    ensures NearestShare(Max(1, Round(ScaledEdge(edge, long, side))), edge, long, side)
  {
    ShareIs(edge, long, side);
    NearestOf(ScaledEdge(edge, long, side), Round(ScaledEdge(edge, long, side)), long, edge * side);
  }

  lemma HalvesOf(n: int, long: nat, low: real, high: real, l: real)
    requires low == n as real - 0.5 && high == n as real + 0.5 && l == long as real
    ensures low * l == (n * long) as real - l / 2.0 && high * l == (n * long) as real + l / 2.0
    ensures 0.5 * l == l / 2.0
  {
    assert (n * long) as real == n as real * l;
  }

  /** A picture is never scaled up, and otherwise its edges keep their ratio as whole numbers can. */
  lemma FitsWithin(w: nat, h: nat, side: nat)
    requires w >= 1 && h >= 1
    ensures w <= side && h <= side ==> FitWithin(w, h, side) == (w, h)
    ensures w > side || h > side ==>
              NearestShare(FitWithin(w, h, side).0, w, Max(w, h), side)
              && NearestShare(FitWithin(w, h, side).1, h, Max(w, h), side)
  {
    RoundsToShare(w, Max(w, h), side);
    RoundsToShare(h, Max(w, h), side);
  }

  /** The largest centred square. */
  function CentredSquare(bounds: Rect): Rect
    requires bounds.Dx() >= 0 && bounds.Dy() >= 0
  {
    var side := Min(bounds.Dx(), bounds.Dy());
    if side == bounds.Dx() && side == bounds.Dy() then bounds
    else
      var x0, y0 := bounds.minX + (bounds.Dx() - side) / 2, bounds.minY + (bounds.Dy() - side) / 2;
      Rect(x0, y0, x0 + side, y0 + side)
  }

  lemma SquareIsCentred(bounds: Rect)
    requires bounds.Dx() >= 0 && bounds.Dy() >= 0
    ensures var s := CentredSquare(bounds);
      && s.Within(bounds) && s.Dx() == s.Dy() == Min(bounds.Dx(), bounds.Dy())
      && 0 <= (bounds.maxX - s.maxX) - (s.minX - bounds.minX) <= 1
      && 0 <= (bounds.maxY - s.maxY) - (s.minY - bounds.minY) <= 1
  {
  }

  /** The side of the square thumbnail cut from a picture: `side`, or less when the picture is smaller. */
  function ThumbSide(w: nat, h: nat, side: nat): nat {
    var square := CentredSquare(Rect(0, 0, w, h)).Dx();
    if square <= side then square else side
  }

  /** A picture with an edge shorter than the side keeps that edge: thumbnails never grow. */
  lemma ThumbNeverGrows(w: nat, h: nat, side: nat)
    ensures w >= side && h >= side ==> ThumbSide(w, h, side) == side
    ensures w < side || h < side ==> ThumbSide(w, h, side) == if w <= h then w else h
  {
  }

  /**
  The factor leaves at least 2400 pixels along the long edge and 1152 along the short one, and one
  more would not.
  */
  lemma FactorBounds(w: nat, h: nat)
    requires PreShrinkFactor(w, h) >= 2
    ensures var f := PreShrinkFactor(w, h);
      && Max(w, h) >= 2400 * f && Min(w, h) >= 1152 * f
      && (Max(w, h) < 2400 * (f + 1) || Min(w, h) < 1152 * (f + 1))
  {
  }

  /** So it is the largest such factor, and 1 exactly when 2 is already too much. */
  lemma FactorIsLargest(w: nat, h: nat, k: nat)
    requires k >= 2
    ensures PreShrinkFactor(w, h) >= k <==> Max(w, h) >= 2400 * k && Min(w, h) >= 1152 * k
  {
    if PreShrinkFactor(w, h) >= 2 { FactorBounds(w, h); }
  }

  lemma ShrunkSize(n: nat, f: nat)
    requires f >= 1
    ensures f * (n / f) <= n < f * (n / f) + f
  {
    assert n == f * (n / f) + n % f;
  }

  lemma AtLeast(n: nat, f: nat, k: nat)
    requires f >= 1 && n >= k * f
    ensures n / f >= k
  {
    ShrunkSize(n, f);
    if n / f <= k - 1 {
      Products(f, f, n / f, k - 1);
    }
  }

  lemma ShrinksInOrder(a: nat, b: nat, f: nat)
    requires f >= 1 && a <= b
    ensures a / f <= b / f
  {
    ShrunkSize(a, f);
    assert b >= (a / f) * f;
    AtLeast(b, f, a / f);
  }

  /** All four thumbnails keep exactly the size they are named for, shrunk first or not. */
  lemma ThumbsKeepTheirSize(w: nat, h: nat, side: nat)
    requires PreShrinkFactor(w, h) >= 2 && side in {96, 192, 384, 768}
    ensures var f := PreShrinkFactor(w, h);
      ThumbSide(w / f, h / f, side) == ThumbSide(w, h, side) == side
  {
    var f := PreShrinkFactor(w, h);
    FactorBounds(w, h);
    AtLeast(w, f, 1152);
    AtLeast(h, f, 1152);
  }

  lemma CrossProducts(f: nat, l: nat, s: nat, dl: nat, ds: nat)
    ensures (f * l + dl) * s - (f * s + ds) * l == dl * s - ds * l
  {
    assert (f * l + dl) * s == f * l * s + dl * s;
    assert (f * s + ds) * l == f * s * l + ds * l;
    assert f * l * s == f * s * l;
  }

  lemma OneFewer(f: nat, l: nat)
    requires f >= 1
    ensures (f - 1) * l == f * l - l
  {
  }

  /** Cutting both edges of a ratio to whole blocks moves it by less than one block in the longer edge. */
  lemma RatioMoves(long: nat, short: nat, f: nat)
    requires f >= 1 && short <= long && long / f >= 1
    ensures var l, s := long / f, short / f;
      && (long * s - short * l) < f * l
      && (short * l - long * s) < f * l
  {
    var l, s := long / f, short / f;
    ShrunkSize(long, f);
    ShrunkSize(short, f);
    ShrinksInOrder(short, long, f);
    var dl, ds := long - f * l, short - f * s;
    CrossProducts(f, l, s, dl, ds);
    Products(dl, f - 1, s, l);
    Products(ds, f - 1, l, l);
    OneFewer(f, l);
  }

  lemma Products(a: int, b: int, c: int, d: int)
    requires 0 <= a <= b && 0 <= c <= d
    ensures 0 <= a * c <= b * d
  {
    assert a * c <= b * c <= b * d;
  }

  /** The short edge of a preview, before rounding. */
  function ShortEdge(long: nat, short: nat): real
    requires long >= 1
  {
    ScaledEdge(short, long, PREVIEW_SIDE)
  }

  lemma EdgesClose(long: nat, short: nat, f: nat)
    requires f >= 2 && short <= long && long >= 2400 * f && long / f >= 2400
    ensures -1.0 < ShortEdge(long, short) - ShortEdge(long / f, short / f) < 1.0
  {
    var l, s := long / f, short / f;
    RatioMoves(long, short, f);
    Products(1600 * f, long, l, l);
    DifferenceInPixels(long, short, l, s, f);
  }

  lemma DifferenceInPixels(long: nat, short: nat, l: nat, s: nat, f: nat)
    requires long >= 1 && l >= 1 && (1600 * f) * l <= long * l
    requires long * s - short * l < f * l && short * l - long * s < f * l
    ensures -1.0 < ShortEdge(long, short) - ShortEdge(l, s) < 1.0
  {
    var d, p := short * l - long * s, long * l;
    assert -p < 1600 * d < p;
    Fractions(short as real, long as real, s as real, l as real);
    assert short as real * l as real - s as real * long as real == d as real;
    assert long as real * l as real == p as real;
    Quotient((1600 * d) as real, p as real);
  }

  lemma Fractions(a: real, b: real, c: real, d: real)
    requires b > 0.0 && d > 0.0
    ensures a * (1600.0 / b) - c * (1600.0 / d) == 1600.0 * (a * d - c * b) / (b * d)
  {
    assert a * (1600.0 / b) == 1600.0 * (a * d) / (b * d);
    assert c * (1600.0 / d) == 1600.0 * (c * b) / (b * d);
  }

  lemma Quotient(n: real, p: real)
    requires p > 0.0 && -p < n < p
    ensures -1.0 < n / p < 1.0
  {
  }

  lemma RoundsClose(a: real, b: real)
    requires -1.0 < a - b < 1.0
    ensures -1 <= Round(a) - Round(b) <= 1
  {
  }

  /** The preview's long edge is 1600 either way, and no edge differs by more than one pixel. */
  lemma PreviewKeepsItsSize(w: nat, h: nat)
    requires PreShrinkFactor(w, h) >= 2
    ensures var f := PreShrinkFactor(w, h);
      && w / f >= 1 && h / f >= 1
      && var (tw, th), (sw, sh) := FitWithin(w, h, 1600), FitWithin(w / f, h / f, 1600);
      && Max(tw, th) == Max(sw, sh) == 1600
      && -1 <= tw - sw <= 1 && -1 <= th - sh <= 1
  {
    var f := PreShrinkFactor(w, h);
    FactorBounds(w, h);
    if h <= w {
      LongFirst(w, h, f);
    } else {
      LongFirst(h, w, f);
    }
  }

  /** `FitWithin` of a picture over the size, by its long and its short edge. */
  lemma FitEdges(long: nat, short: nat)
    requires 1 <= short <= long && long > PREVIEW_SIDE
    ensures var fit := (PREVIEW_SIDE, Max(1, Round(ShortEdge(long, short))));
      && FitWithin(long, short, PREVIEW_SIDE) == fit
      && FitWithin(short, long, PREVIEW_SIDE) == (fit.1, fit.0)
      && fit.1 <= PREVIEW_SIDE
  {
    EdgeWithin(long, short);
    assert Round(1600.0) == PREVIEW_SIDE;
  }

  lemma LongFirst(long: nat, short: nat, f: nat)
    requires f >= 2 && short <= long && long >= 2400 * f && short >= 1152 * f
    ensures 1 <= short / f <= long / f
    ensures var a, b := FitWithin(long, short, PREVIEW_SIDE), FitWithin(long / f, short / f, PREVIEW_SIDE);
      && a.0 == b.0 == PREVIEW_SIDE && a.1 <= PREVIEW_SIDE && b.1 <= PREVIEW_SIDE && -1 <= a.1 - b.1 <= 1
      && FitWithin(short, long, PREVIEW_SIDE) == (a.1, a.0)
      && FitWithin(short / f, long / f, PREVIEW_SIDE) == (b.1, b.0)
  {
    AtLeast(long, f, 2400);
    AtLeast(short, f, 1152);
    ShrinksInOrder(short, long, f);
    FitEdges(long, short);
    FitEdges(long / f, short / f);
    EdgesClose(long, short, f);
    RoundsClose(ShortEdge(long, short), ShortEdge(long / f, short / f));
  }

  lemma EdgeWithin(long: nat, short: nat)
    requires 1 <= short <= long
    ensures ShortEdge(long, long) == 1600.0 && 0.0 <= ShortEdge(long, short) <= 1600.0
  {
    var unit := 1600.0 / long as real;
    assert long as real * unit == 1600.0;
    Scaled(short as real, long as real, unit);
    Scaled(0.0, short as real, unit);
  }
}
