/** Baking an EXIF orientation into the pixels (internal/images/transform.go). */
module Transform {
  import opened Exif

  const FLIP_H: Orientation := 2
  const ROTATE_180: Orientation := 3
  const FLIP_V: Orientation := 4
  const TRANSPOSE: Orientation := 5
  const ROTATE_90: Orientation := 6
  const TRANSVERSE: Orientation := 7
  const ROTATE_270: Orientation := 8

  /** Orientations 5 to 8 exchange the axes. */
  predicate Swapped(o: Orientation) {
    o == TRANSPOSE || o == ROTATE_90 || o == TRANSVERSE || o == ROTATE_270
  }

  function OutSize(o: Orientation, w: nat, h: nat): (nat, nat) { if Swapped(o) then (h, w) else (w, h) }

  predicate Inside(at: (int, int), size: (nat, nat)) { 0 <= at.0 < size.0 && 0 <= at.1 < size.1 }

  /** Where the source pixel (x, y) lands in the output. */
  function MapPixel(o: Orientation, x: int, y: int, w: nat, h: nat): (int, int) {
    if o == FLIP_H then (w - 1 - x, y)
    else if o == ROTATE_180 then (w - 1 - x, h - 1 - y)
    else if o == FLIP_V then (x, h - 1 - y)
    else if o == TRANSPOSE then (y, x)
    else if o == ROTATE_90 then (h - 1 - y, x)
    else if o == TRANSVERSE then (h - 1 - y, w - 1 - x)
    else if o == ROTATE_270 then (y, w - 1 - x)
    else (x, y)
  }

  /** The orientation that undoes another: 6 and 8 undo each other, the rest themselves. */
  function Inverse(o: Orientation): Orientation {
    if o == ROTATE_90 then ROTATE_270 else if o == ROTATE_270 then ROTATE_90 else o
  }

  /** `MapPixel` is a bijection from the source onto the output, and its inverse is the inverse orientation's. */
  lemma MapsOneToOne(o: Orientation, x: int, y: int, w: nat, h: nat)
    ensures var out := OutSize(o, w, h); var at := MapPixel(o, x, y, w, h);
      && (Inside((x, y), (w, h)) <==> Inside(at, out))
      && MapPixel(Inverse(o), at.0, at.1, out.0, out.1) == (x, y)
      && OutSize(Inverse(o), out.0, out.1) == (w, h)
      && Inverse(Inverse(o)) == o
  {
  }

  // -------------------------------------------------------------- composing them

  /** An orientation as an exchange of the axes followed by a flip of each. */
  datatype Parts = Parts(swap: bool, flipX: bool, flipY: bool)

  function PartsOf(o: Orientation): Parts {
    Parts(Swapped(o),
          o == FLIP_H || o == ROTATE_180 || o == ROTATE_90 || o == TRANSVERSE,
          o == ROTATE_180 || o == FLIP_V || o == TRANSVERSE || o == ROTATE_270)
  }

  function OrientationWith(p: Parts): (o: Orientation)
    ensures PartsOf(o) == p
  {
    if !p.swap then (if p.flipX then (if p.flipY then ROTATE_180 else FLIP_H) else if p.flipY then FLIP_V else NORMAL)
    else (if p.flipX then (if p.flipY then TRANSVERSE else ROTATE_90) else if p.flipY then ROTATE_270 else TRANSPOSE)
  }

  /** One orientation after another is again one of the eight. */
  function Then(first: Orientation, second: Orientation): Orientation {
    var a, b := PartsOf(first), PartsOf(second);
    OrientationWith(
      if b.swap then Parts(!a.swap, a.flipY != b.flipX, a.flipX != b.flipY)
      else Parts(a.swap, a.flipX != b.flipX, a.flipY != b.flipY))
  }

  lemma ThenMaps(first: Orientation, second: Orientation, x: int, y: int, w: nat, h: nat)
    ensures var mid, at := OutSize(first, w, h), MapPixel(first, x, y, w, h);
      && MapPixel(second, at.0, at.1, mid.0, mid.1) == MapPixel(Then(first, second), x, y, w, h)
      && OutSize(second, mid.0, mid.1) == OutSize(Then(first, second), w, h)
  {
    ThenIs(first, second);
  }

  /** The whole table, row by row. */
  lemma ThenIs(first: Orientation, second: Orientation)
    ensures Then(first, NORMAL) == first && Then(NORMAL, second) == second
    ensures Then(first, Inverse(first)) == NORMAL
    ensures Swapped(Then(first, second)) <==> Swapped(first) != Swapped(second)
  {
  }

  // ------------------------------------------------------------------- pictures

  /** A picture as its rows of pixels. */
  datatype Picture<P> = Picture(w: nat, h: nat, rows: seq<seq<P>>) {
    predicate Full() { |rows| == h && forall y | 0 <= y < h :: |rows[y]| == w }

    function At(at: (int, int)): P
      requires Full() && Inside(at, (w, h))
    {
      rows[at.1][at.0]
    }
  }

  /** A source pixel is where it belongs. */
  ghost predicate Carried<P>(p: Picture<P>, o: Orientation, q: Picture<P>, x: int, y: int)
    requires p.Full() && q.Full() && Inside((x, y), (p.w, p.h))
  {
    var at := MapPixel(o, x, y, p.w, p.h);
    Inside(at, (q.w, q.h)) && q.At(at) == p.At((x, y))
  }

  /** `q` shows `p` as `o` says: the right size, and every source pixel where it belongs. */
  ghost predicate Shows<P>(p: Picture<P>, o: Orientation, q: Picture<P>) {
    && p.Full() && q.Full() && (q.w, q.h) == OutSize(o, p.w, p.h)
    && forall x, y | Inside((x, y), (p.w, p.h)) :: Carried(p, o, q, x, y)
  }

  /** Nothing is left open: every output pixel is some source pixel, so the output is determined. */
  lemma ShowsIsUnique<P>(p: Picture<P>, o: Orientation, q: Picture<P>, r: Picture<P>)
    requires Shows(p, o, q) && Shows(p, o, r)
    ensures q == r
  {
    forall x, y | 0 <= x < q.w && 0 <= y < q.h ensures q.rows[y][x] == r.rows[y][x] {
      MapsOneToOne(Inverse(o), x, y, q.w, q.h);
      MapsOneToOne(o, 0, 0, p.w, p.h);
      var (px, py) := MapPixel(Inverse(o), x, y, q.w, q.h);
      assert Carried(p, o, q, px, py) && Carried(p, o, r, px, py);
    }
    forall y | 0 <= y < q.h ensures q.rows[y] == r.rows[y] {}
  }

  // ------------------------------------------------------- what the tag says

  datatype Side = Top | Right | Bottom | Left

  /** The visual side of the picture's 0th row (TIFF 6.0, Orientation). */
  function FirstRowAt(o: Orientation): Side {
    if o <= 2 then Top else if o <= 4 then Bottom else if o == 5 || o == 8 then Left else Right
  }

  /** And of its 0th column. */
  function FirstColumnAt(o: Orientation): Side {
    if o == 1 || o == 4 then Left else if o == 2 || o == 3 then Right else if o <= 6 then Top else Bottom
  }

  /** How far a place is from a side of a picture so large. */
  function Distance(side: Side, at: (int, int), size: (nat, nat)): int {
    match side
    case Top => at.1
    case Bottom => size.1 - 1 - at.1
    case Left => at.0
    case Right => size.0 - 1 - at.0
  }

  /** What lies at a place by the tag: as far from the 0th column and row as the place is from their sides. */
  function OriginByTag(o: Orientation, at: (int, int), size: (nat, nat)): (int, int) {
    (Distance(FirstColumnAt(o), at, size), Distance(FirstRowAt(o), at, size))
  }

  ghost predicate LiesAt<P>(p: Picture<P>, o: Orientation, q: Picture<P>, px: int, py: int)
    requires p.Full() && q.Full() && Inside((px, py), (q.w, q.h))
  {
    var at := OriginByTag(o, (px, py), (q.w, q.h));
    Inside(at, (p.w, p.h)) && q.At((px, py)) == p.At(at)
  }

  /** `q` has `p`'s rows parallel to the side of the 0th row, its columns parallel to that of the 0th column. */
  ghost predicate Lies<P>(p: Picture<P>, o: Orientation, q: Picture<P>) {
    && p.Full() && q.Full() && (q.w, q.h) == (if o >= 5 then (p.h, p.w) else (p.w, p.h))
    && forall px, py | Inside((px, py), (q.w, q.h)) :: LiesAt(p, o, q, px, py)
  }

  lemma MapsFromSource(o: Orientation, at: (int, int), w: nat, h: nat)
    ensures var size := if o >= 5 then (h, w) else (w, h);
      && OutSize(o, w, h) == size
      && (Inside(at, size) <==> Inside(OriginByTag(o, at, size), (w, h)))
      && MapPixel(o, OriginByTag(o, at, size).0, OriginByTag(o, at, size).1, w, h) == at
  {
  }

  lemma SourceOfMapped(o: Orientation, x: int, y: int, w: nat, h: nat)
    ensures OriginByTag(o, MapPixel(o, x, y, w, h), if o >= 5 then (h, w) else (w, h)) == (x, y)
  {
  }

  lemma ShownLies<P>(p: Picture<P>, o: Orientation, q: Picture<P>)
    requires Shows(p, o, q)
    ensures Lies(p, o, q)
  {
    MapsFromSource(o, (0, 0), p.w, p.h);
    forall px, py | Inside((px, py), (q.w, q.h)) ensures LiesAt(p, o, q, px, py) {
      MapsFromSource(o, (px, py), p.w, p.h);
      var (x, y) := OriginByTag(o, (px, py), (q.w, q.h));
      assert Carried(p, o, q, x, y);
    }
  }

  lemma LyingShows<P>(p: Picture<P>, o: Orientation, q: Picture<P>)
    requires Lies(p, o, q)
    ensures Shows(p, o, q)
  {
    MapsFromSource(o, (0, 0), p.w, p.h);
    forall x, y | Inside((x, y), (p.w, p.h)) ensures Carried(p, o, q, x, y) {
      MapsOneToOne(o, x, y, p.w, p.h);
      SourceOfMapped(o, x, y, p.w, p.h);
      var (px, py) := MapPixel(o, x, y, p.w, p.h);
      assert LiesAt(p, o, q, px, py);
    }
  }

  /** Shown as the code maps pixels is lying as the tag says, for each of the eight. */
  lemma ShowsIffLies<P>(p: Picture<P>, o: Orientation, q: Picture<P>)
    ensures Shows(p, o, q) <==> Lies(p, o, q)
  {
    if Shows(p, o, q) { ShownLies(p, o, q); }
    if Lies(p, o, q) { LyingShows(p, o, q); }
  }

  /** Orienting by the inverse brings the picture back. */
  lemma InverseRestores<P>(p: Picture<P>, o: Orientation, q: Picture<P>)
    requires Shows(p, o, q)
    ensures Shows(q, Inverse(o), p)
  {
    MapsOneToOne(o, 0, 0, p.w, p.h);
    forall x, y | Inside((x, y), (q.w, q.h)) ensures Carried(q, Inverse(o), p, x, y) {
      MapsOneToOne(Inverse(o), x, y, q.w, q.h);
      var (px, py) := MapPixel(Inverse(o), x, y, q.w, q.h);
      assert Carried(p, o, q, px, py);
    }
  }

  /** Orienting twice is orienting once, by one of the eight. */
  lemma OrientingTwice<P>(p: Picture<P>, a: Orientation, q: Picture<P>, b: Orientation, r: Picture<P>)
    requires Shows(p, a, q) && Shows(q, b, r)
    ensures Shows(p, Then(a, b), r)
  {
    ThenMaps(a, b, 0, 0, p.w, p.h);
    forall x, y | Inside((x, y), (p.w, p.h)) ensures Carried(p, Then(a, b), r, x, y) {
      ThenMaps(a, b, x, y, p.w, p.h);
      assert Carried(p, a, q, x, y);
      var (qx, qy) := MapPixel(a, x, y, p.w, p.h);
      assert Carried(q, b, r, qx, qy);
    }
  }

  // --------------------------------------------------------------- the algorithm

  /** A decoded picture: its bounds need not start at the origin. */
  datatype Source<P> = Source(minX: int, minY: int, w: nat, h: nat, at: (int, int) -> P) {
    function View(): Picture<P> {
      Picture(w, h, seq(h, y => seq(w, x => at(minX + x, minY + y))))
    }
  }

  function Row<P>(dst: array2<P>, y: nat): (r: seq<P>)
    requires y < dst.Length0
    reads dst
    ensures |r| == dst.Length1 && forall x | 0 <= x < |r| :: r[x] == dst[y, x]
  {
    seq(dst.Length1, x requires 0 <= x < dst.Length1 reads dst => dst[y, x])
  }

  function Canvas<P>(dst: array2<P>): (r: Picture<P>)
    reads dst
    ensures r.Full() && r.w == dst.Length1 && r.h == dst.Length0
    ensures forall x, y | 0 <= x < r.w && 0 <= y < r.h :: r.rows[y][x] == dst[y, x]
  {
    Picture(dst.Length1, dst.Length0, seq(dst.Length0, y requires 0 <= y < dst.Length0 reads dst => Row(dst, y)))
  }

  /** Which source pixel an output pixel shows. */
  function Origin(o: Orientation, dx: int, dy: int, out: (nat, nat)): (int, int) {
    MapPixel(Inverse(o), dx, dy, out.0, out.1)
  }

  /** The loops get to source pixels row by row. */
  predicate Earlier(a: (int, int), x: int, y: int) { a.1 < y || (a.1 == y && a.0 < x) }

  ghost predicate Drawn<P>(src: Source<P>, o: Orientation, dst: array2<P>, x: int, y: int)
    reads dst
  {
    forall dx, dy | 0 <= dx < dst.Length1 && 0 <= dy < dst.Length0 ::
      var from := Origin(o, dx, dy, (dst.Length1, dst.Length0));
      Earlier(from, x, y) ==> dst[dy, dx] == src.at(src.minX + from.0, src.minY + from.1)
  }

  /** One round of the inner loop. */
  method DrawPixel<P>(src: Source<P>, o: Orientation, dst: array2<P>, x: nat, y: nat)
    requires x < src.w && y < src.h && (dst.Length1, dst.Length0) == OutSize(o, src.w, src.h)
    requires Drawn(src, o, dst, x, y)
    modifies dst
    ensures Drawn(src, o, dst, x + 1, y)
  {
    var at := MapPixel(o, x, y, src.w, src.h);
    MapsOneToOne(o, x, y, src.w, src.h);
    dst[at.1, at.0] := src.at(src.minX + x, src.minY + y);
    forall dx, dy | 0 <= dx < dst.Length1 && 0 <= dy < dst.Length0 && (dx, dy) != at
      ensures Origin(o, dx, dy, (dst.Length1, dst.Length0)) != (x, y)
    {
      MapsOneToOne(Inverse(o), dx, dy, dst.Length1, dst.Length0);
    }
  }

  lemma OriginInside(o: Orientation, out: (nat, nat), size: (nat, nat))
    requires out == OutSize(o, size.0, size.1)
    ensures forall dx, dy | 0 <= dx < out.0 && 0 <= dy < out.1 :: Inside(Origin(o, dx, dy, out), size)
  {
    forall dx, dy | 0 <= dx < out.0 && 0 <= dy < out.1 ensures Inside(Origin(o, dx, dy, out), size) {
      MapsOneToOne(o, 0, 0, size.0, size.1);
      MapsOneToOne(Inverse(o), dx, dy, out.0, out.1);
    }
  }

  lemma NothingEarlier<P>(src: Source<P>, o: Orientation, dst: array2<P>)
    requires (dst.Length1, dst.Length0) == OutSize(o, src.w, src.h)
    ensures Drawn(src, o, dst, 0, 0)
  {
    OriginInside(o, (dst.Length1, dst.Length0), (src.w, src.h));
  }

  lemma RowDrawn<P>(src: Source<P>, o: Orientation, dst: array2<P>, y: nat)
    requires (dst.Length1, dst.Length0) == OutSize(o, src.w, src.h) && Drawn(src, o, dst, src.w, y)
    ensures Drawn(src, o, dst, 0, y + 1)
  {
    var out := (dst.Length1, dst.Length0);
    OriginInside(o, out, (src.w, src.h));
    forall dx, dy | 0 <= dx < dst.Length1 && 0 <= dy < dst.Length0
      ensures Earlier(Origin(o, dx, dy, out), 0, y + 1) ==> Earlier(Origin(o, dx, dy, out), src.w, y)
    {
      assert Inside(Origin(o, dx, dy, out), (src.w, src.h));
    }
  }

  lemma DrawnShows<P>(src: Source<P>, o: Orientation, dst: array2<P>)
    requires (dst.Length1, dst.Length0) == OutSize(o, src.w, src.h)
    requires Drawn(src, o, dst, 0, src.h)
    ensures Shows(src.View(), o, Canvas(dst))
  {
    var p, q := src.View(), Canvas(dst);
    forall x, y | Inside((x, y), (p.w, p.h)) ensures Carried(p, o, q, x, y) {
      MapsOneToOne(o, x, y, src.w, src.h);
      var at := MapPixel(o, x, y, src.w, src.h);
      assert Origin(o, at.0, at.1, (dst.Length1, dst.Length0)) == (x, y);
      assert dst[at.1, at.0] == src.at(src.minX + x, src.minY + y);
    }
  }

  /** Null stands for the source as it is. */
  method ApplyOrientation<P(0)>(src: Source<P>, o: Orientation) returns (r: array2?<P>)
    ensures r == null <==> !NeedsTransform(o)
    ensures r != null ==> fresh(r) && Shows(src.View(), o, Canvas(r)) && Lies(src.View(), o, Canvas(r))
    ensures r == null ==> Shows(src.View(), o, src.View()) && Lies(src.View(), o, src.View())
  {
    var w, h := src.w, src.h;
    if !NeedsTransform(o) {
      ShowsIffLies(src.View(), o, src.View());
      return null;
    }
    var size := OutSize(o, w, h);
    var dst := new P[size.1, size.0];
    NothingEarlier(src, o, dst);
    for y := 0 to h
      invariant Drawn(src, o, dst, 0, y)
    {
      for x := 0 to w
        invariant Drawn(src, o, dst, x, y)
      {
        DrawPixel(src, o, dst, x, y);
      }
      RowDrawn(src, o, dst, y);
    }
    DrawnShows(src, o, dst);
    ShowsIffLies(src.View(), o, Canvas(dst));
    r := dst;
  }
}
