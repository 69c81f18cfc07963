/**
The box filter of a large photo's pre-shrink (internal/images/derive.go): every f by f
block of a YCbCr picture averaged into one pixel, plane by plane, whatever the chroma
subsampling the decoder produced.
*/
module BoxShrink {
  import opened Binary
  import opened Crop

  datatype Ratio = R444 | R422 | R420 | R440 | R411 | R410 {
    function AcrossBy(): int { match this case R422 | R420 => 2 case R411 | R410 => 4 case _ => 1 }
    function DownBy(): int { match this case R420 | R440 | R410 => 2 case _ => 1 }
  }

  /** A decoded picture: its planes, their strides, and its bounds. */
  datatype YCbCr = YCbCr(
    luma: seq<Byte>, cb: seq<Byte>, cr: seq<Byte>,
    yStride: nat, cStride: nat, ratio: Ratio, bounds: Rect)
  {
    function YOffset(px: int, py: int): int { (py - bounds.minY) * yStride + (px - bounds.minX) }

    function COffset(px: int, py: int): int {
      var across, down := ratio.AcrossBy(), ratio.DownBy();
      (py / down - bounds.minY / down) * cStride + (px / across - bounds.minX / across)
    }

    predicate InPlanes(px: int, py: int) {
      0 <= YOffset(px, py) < |luma| && 0 <= COffset(px, py) < |cb| && 0 <= COffset(px, py) < |cr|
    }

    /** What the decoder promises: the planes hold every pixel of the bounds. */
    ghost predicate Valid() {
      && 0 <= bounds.minX <= bounds.maxX && 0 <= bounds.minY <= bounds.maxY
      && forall px, py | bounds.Has(px, py) :: InPlanes(px, py)
    }
  }

  /** Where a pixel's samples are: its own luma, and the chroma it shares with its neighbours, ratio by ratio. */
  lemma OffsetsAre(src: YCbCr, px: int, py: int)
    ensures var b, s := src.bounds, src.cStride;
      && src.YOffset(px, py) == (py - b.minY) * src.yStride + px - b.minX
      && src.COffset(px, py) == match src.ratio
         case R444 => (py - b.minY) * s + px - b.minX
         case R422 => (py - b.minY) * s + px / 2 - b.minX / 2
         case R420 => (py / 2 - b.minY / 2) * s + px / 2 - b.minX / 2
         case R440 => (py / 2 - b.minY / 2) * s + px - b.minX
         case R411 => (py - b.minY) * s + px / 4 - b.minX / 4
         case R410 => (py / 2 - b.minY / 2) * s + px / 4 - b.minX / 4
  {
  }

  /** One channel of a picture as a value at every place. */
  function Luma(src: YCbCr): (int, int) -> int {
    (px, py) => if 0 <= src.YOffset(px, py) < |src.luma| then src.luma[src.YOffset(px, py)] else 0
  }

  function Chroma(src: YCbCr, plane: seq<Byte>): (int, int) -> int {
    (px, py) => if 0 <= src.COffset(px, py) < |plane| then plane[src.COffset(px, py)] else 0
  }

  function RowSum(at: (int, int) -> int, px: int, py: int, n: nat): int {
    if n == 0 then 0 else RowSum(at, px, py, n - 1) + at(px + n - 1, py)
  }

  function BlockSum(at: (int, int) -> int, px: int, py: int, cols: nat, rows: nat): int {
    if rows == 0 then 0 else BlockSum(at, px, py, cols, rows - 1) + RowSum(at, px, py + rows - 1, cols)
  }

  /** A block's mean, rounded half up. */
  function Mean(at: (int, int) -> int, px: int, py: int, f: nat): int
    requires f >= 1
  {
    var area := f * f;
    (BlockSum(at, px, py, f, f) + area / 2) / area
  }

  ghost predicate BlockWithin(at: (int, int) -> int, px: int, py: int, cols: nat, rows: nat, lo: int, hi: int) {
    forall x, y | px <= x < px + cols && py <= y < py + rows :: lo <= at(x, y) <= hi
  }

  lemma {:induction false} RowSumWithin(at: (int, int) -> int, px: int, py: int, n: nat, lo: int, hi: int)
    requires BlockWithin(at, px, py, n, 1, lo, hi)
    ensures lo * n <= RowSum(at, px, py, n) <= hi * n
  {
    if n > 0 {
      RowSumWithin(at, px, py, n - 1, lo, hi);
      assert lo * n == lo * (n - 1) + lo && hi * n == hi * (n - 1) + hi;
    }
  }

  lemma {:induction false} BlockSumWithin(
    at: (int, int) -> int, px: int, py: int, cols: nat, rows: nat, lo: int, hi: int)
    requires BlockWithin(at, px, py, cols, rows, lo, hi)
    ensures (lo * cols) * rows <= BlockSum(at, px, py, cols, rows) <= (hi * cols) * rows
  {
    if rows > 0 {
      BlockSumWithin(at, px, py, cols, rows - 1, lo, hi);
      RowSumWithin(at, px, py + rows - 1, cols, lo, hi);
      assert (lo * cols) * rows == (lo * cols) * (rows - 1) + lo * cols;
      assert (hi * cols) * rows == (hi * cols) * (rows - 1) + hi * cols;
    }
  }

  lemma RoundedQuotient(sum: int, area: int, lo: int, hi: int)
    requires area >= 1 && lo * area <= sum <= hi * area
    ensures lo <= (sum + area / 2) / area <= hi
  {
    var q := (sum + area / 2) / area;
    assert sum + area / 2 == area * q + (sum + area / 2) % area;
    assert (q + 1) * area == q * area + area && (hi + 1) * area == hi * area + area;
    if q < lo { Times(q + 1, lo, area); }
    if q > hi { Times(hi + 1, q, area); }
  }

  lemma Times(a: int, b: int, c: int)
    requires a <= b && c >= 0
    ensures a * c <= b * c
  {
  }

  /** The whole number nearest to the block's mean, ties up. */
  lemma MeanIsNearest(at: (int, int) -> int, px: int, py: int, f: nat)
    requires f >= 1
    ensures var area, sum, mean := f * f, BlockSum(at, px, py, f, f), Mean(at, px, py, f);
      2 * (mean * area) - area <= 2 * sum < 2 * (mean * area) + area
  {
    Squares(1, f);
    var area, sum := f * f, BlockSum(at, px, py, f, f);
    NearestQuotient(sum, area);
  }

  lemma NearestQuotient(sum: int, area: int)
    requires area >= 1
    ensures var q := (sum + area / 2) / area; 2 * (q * area) - area <= 2 * sum < 2 * (q * area) + area
  {
    var q := (sum + area / 2) / area;
    assert sum + area / 2 == area * q + (sum + area / 2) % area;
    assert area * q == q * area;
  }

  /** Two channels that differ at one place, by so much. */
  ghost predicate DifferAt(at: (int, int) -> int, to: (int, int) -> int, x: int, y: int, more: int) {
    to(x, y) == at(x, y) + more && forall u, v | (u, v) != (x, y) :: to(u, v) == at(u, v)
  }

  lemma {:induction false} RowCountsOnce(
    at: (int, int) -> int, to: (int, int) -> int, px: int, py: int, n: nat, x: int, y: int, more: int)
    requires DifferAt(at, to, x, y, more)
    ensures RowSum(to, px, py, n) == RowSum(at, px, py, n) + if y == py && px <= x < px + n then more else 0
  {
    if n > 0 { RowCountsOnce(at, to, px, py, n - 1, x, y, more); }
  }

  /** Every pixel of a block, and no other, counts once towards its sum, and nothing else does. */
  lemma {:induction false} CountsOnce(
    at: (int, int) -> int, to: (int, int) -> int, px: int, py: int, cols: nat, rows: nat, x: int, y: int, more: int)
    requires DifferAt(at, to, x, y, more)
    ensures BlockSum(to, px, py, cols, rows) == BlockSum(at, px, py, cols, rows)
                                                + if px <= x < px + cols && py <= y < py + rows then more else 0
  {
    if rows > 0 {
      CountsOnce(at, to, px, py, cols, rows - 1, x, y, more);
      RowCountsOnce(at, to, px, py + rows - 1, cols, x, y, more);
    }
  }

  /** Every mean lies between the smallest and the largest value of its block. */
  lemma MeanWithinBlock(at: (int, int) -> int, px: int, py: int, f: nat, lo: int, hi: int)
    requires f >= 1 && BlockWithin(at, px, py, f, f, lo, hi)
    ensures lo <= Mean(at, px, py, f) <= hi
  {
    BlockSumWithin(at, px, py, f, f, lo, hi);
    Squares(lo, f);
    Squares(hi, f);
    RoundedQuotient(BlockSum(at, px, py, f, f), f * f, lo, hi);
  }

  lemma Squares(v: int, f: nat)
    requires f >= 1
    ensures (v * f) * f == v * (f * f) && f * f >= 1
  {
  }

  // ------------------------------------------------------------ a plane of means

  function MeanRow(at: (int, int) -> int, b: Rect, f: nat, y: nat, n: nat): (r: seq<int>)
    requires f >= 1
    ensures |r| == n
  {
    if n == 0 then [] else MeanRow(at, b, f, y, n - 1) + [Mean(at, b.minX + (n - 1) * f, b.minY + y * f, f)]
  }

  function MeanPlane(at: (int, int) -> int, b: Rect, f: nat, w: nat, rows: nat): (r: seq<int>)
    requires f >= 1
    ensures |r| == rows * w
  {
    if rows == 0 then [] else MeanPlane(at, b, f, w, rows - 1) + MeanRow(at, b, f, rows - 1, w)
  }

  lemma {:induction false} MeanRowAt(at: (int, int) -> int, b: Rect, f: nat, y: nat, n: nat, x: nat)
    requires f >= 1 && x < n
    ensures MeanRow(at, b, f, y, n)[x] == Mean(at, b.minX + x * f, b.minY + y * f, f)
  {
    if x < n - 1 {
      MeanRowAt(at, b, f, y, n - 1, x);
    }
  }

  /** The value at (x, y) of a plane is the mean of the block that starts at (x * f, y * f). */
  lemma {:induction false} MeanPlaneAt(
    at: (int, int) -> int, b: Rect, f: nat, w: nat, rows: nat, x: nat, y: nat)
    requires f >= 1 && x < w && y < rows
    ensures y * w + x < rows * w
    ensures MeanPlane(at, b, f, w, rows)[y * w + x] == Mean(at, b.minX + x * f, b.minY + y * f, f)
  {
    PlaceInPlane(x, y, w, rows);
    if y == rows - 1 {
      MeanRowAt(at, b, f, y, w, x);
    } else {
      MeanPlaneAt(at, b, f, w, rows - 1, x, y);
    }
  }

  lemma PlaceInPlane(x: nat, y: nat, w: nat, h: nat)
    requires x < w && y < h
    ensures y * w + x < (y + 1) * w <= h * w
  {
    Times(y + 1, h, w);
  }

  /** A block of the shrunk size lies inside the picture. */
  lemma BlockInside(b: Rect, f: nat, x: nat, y: nat, dx: nat, dy: nat)
    requires f >= 1 && b.Dx() >= 0 && b.Dy() >= 0
    requires x < b.Dx() / f && y < b.Dy() / f && dx < f && dy < f
    ensures b.Has(b.minX + x * f + dx, b.minY + y * f + dy)
  {
    BlockFits(x, b.Dx(), f);
    BlockFits(y, b.Dy(), f);
  }

  lemma BlockFits(x: nat, n: nat, f: nat)
    requires f >= 1 && x < n / f
    ensures x * f + f <= n
  {
    assert n == f * (n / f) + n % f;
    Times(x + 1, n / f, f);
    assert (x + 1) * f == x * f + f;
  }

  // --------------------------------------------------------------- the algorithm

  /** A run of luma samples, whole in the plane: the picture's values, one after the other. */
  method RunAt(src: YCbCr, px: int, py: int, n: nat) returns (run: seq<Byte>)
    requires src.Valid() && n >= 1 && src.bounds.Has(px, py) && src.bounds.Has(px + n - 1, py)
    ensures |run| == n && forall k | 0 <= k < n :: run[k] == Luma(src)(px + k, py)
  {
    var i := src.YOffset(px, py);
    assert src.InPlanes(px, py) && src.InPlanes(px + n - 1, py);
    run := src.luma[i..i + n];
    forall k | 0 <= k < n ensures run[k] == Luma(src)(px + k, py) {
      assert src.YOffset(px + k, py) == i + k;
    }
  }

  method SumRun(run: seq<Byte>, ghost at: (int, int) -> int, ghost px: int, ghost py: int) returns (sum: int)
    requires forall k | 0 <= k < |run| :: run[k] == at(px + k, py)
    ensures sum == RowSum(at, px, py, |run|)
  {
    sum := 0;
    for k := 0 to |run|
      invariant sum == RowSum(at, px, py, k)
    {
      assert run[k] == at(px + k, py);
      sum := sum + run[k];
    }
  }

  /** One luma block: whole runs of the plane, summed row by row. */
  method LumaMean(src: YCbCr, f: nat, x: nat, y: nat) returns (mean: Byte)
    requires src.Valid() && f >= 1 && x < src.bounds.Dx() / f && y < src.bounds.Dy() / f
    ensures mean == Mean(Luma(src), src.bounds.minX + x * f, src.bounds.minY + y * f, f)
  {
    var px, py := src.bounds.minX + x * f, src.bounds.minY + y * f;
    ghost var at := Luma(src);
    var sum := 0;
    for dy := 0 to f
      invariant sum == BlockSum(at, px, py, f, dy)
    {
      BlockInside(src.bounds, f, x, y, 0, dy);
      BlockInside(src.bounds, f, x, y, f - 1, dy);
      var run := RunAt(src, px, py + dy, f);
      var add := SumRun(run, at, px, py + dy);
      sum := sum + add;
    }
    LumaMeanIsByte(src, px, py, f);
    mean := (sum + f * f / 2) / (f * f);
  }

  lemma LumaMeanIsByte(src: YCbCr, px: int, py: int, f: nat)
    requires f >= 1
    ensures f * f >= 1 && 0 <= Mean(Luma(src), px, py, f) <= 255
  {
    Squares(1, f);
    forall x, y ensures 0 <= Luma(src)(x, y) <= 255 {}
    MeanWithinBlock(Luma(src), px, py, f, 0, 255);
  }

  lemma ChromaMeanIsByte(src: YCbCr, plane: seq<Byte>, px: int, py: int, f: nat)
    requires f >= 1
    ensures f * f >= 1 && 0 <= Mean(Chroma(src, plane), px, py, f) <= 255
  {
    Squares(1, f);
    forall x, y ensures 0 <= Chroma(src, plane)(x, y) <= 255 {}
    MeanWithinBlock(Chroma(src, plane), px, py, f, 0, 255);
  }

  /** The sum of one row of a chroma block, read pixel by pixel. */
  method SumChroma(src: YCbCr, plane: seq<Byte>, px: int, py: int, n: nat) returns (sum: int)
    requires src.Valid() && (plane == src.cb || plane == src.cr)
    requires forall x | px <= x < px + n :: src.bounds.Has(x, py)
    ensures sum == RowSum(Chroma(src, plane), px, py, n)
  {
    sum := 0;
    for dx := 0 to n
      invariant sum == RowSum(Chroma(src, plane), px, py, dx)
    {
      assert src.bounds.Has(px + dx, py) && src.InPlanes(px + dx, py);
      sum := sum + plane[src.COffset(px + dx, py)];
    }
  }

  /** One chroma block: a subsampled sample is read as often as it is shown. */
  method ChromaMean(src: YCbCr, plane: seq<Byte>, f: nat, x: nat, y: nat) returns (mean: Byte)
    requires src.Valid() && (plane == src.cb || plane == src.cr)
    requires f >= 1 && x < src.bounds.Dx() / f && y < src.bounds.Dy() / f
    ensures mean == Mean(Chroma(src, plane), src.bounds.minX + x * f, src.bounds.minY + y * f, f)
  {
    var px, py := src.bounds.minX + x * f, src.bounds.minY + y * f;
    ghost var at := Chroma(src, plane);
    var sum := 0;
    for dy := 0 to f
      invariant sum == BlockSum(at, px, py, f, dy)
    {
      BlockInside(src.bounds, f, x, y, 0, dy);
      BlockInside(src.bounds, f, x, y, f - 1, dy);
      var row := SumChroma(src, plane, px, py + dy, f);
      sum := sum + row;
    }
    ChromaMeanIsByte(src, plane, px, py, f);
    mean := (sum + f * f / 2) / (f * f);
  }

  /** The inner loop of the luma pass: one row of the plane, from `row` on. */
  method LumaRow(src: YCbCr, f: nat, w: nat, y: nat, luma: array<Byte>, row: nat)
    requires src.Valid() && f >= 1 && w == src.bounds.Dx() / f && y < src.bounds.Dy() / f && row + w <= luma.Length
    modifies luma
    ensures luma[..row + w] == old(luma[..row]) + MeanRow(Luma(src), src.bounds, f, y, w)
  {
    ghost var at, before := Luma(src), luma[..row];
    for x := 0 to w
      invariant luma[..row + x] == before + MeanRow(at, src.bounds, f, y, x)
    {
      var mean := LumaMean(src, f, x, y);
      luma[row + x] := mean;
      assert luma[..row + x + 1] == luma[..row + x] + [mean];
    }
  }

  method LumaPlane(src: YCbCr, f: nat, w: nat, h: nat) returns (luma: array<Byte>)
    requires src.Valid() && f >= 1 && w == src.bounds.Dx() / f && h == src.bounds.Dy() / f
    ensures fresh(luma) && luma[..] == MeanPlane(Luma(src), src.bounds, f, w, h)
  {
    luma := new Byte[h * w];
    ghost var at := Luma(src);
    var row := 0;
    for y := 0 to h
      invariant row == y * w <= luma.Length && luma[..row] == MeanPlane(at, src.bounds, f, w, y)
    {
      RowFits(y, w, h);
      LumaRow(src, f, w, y, luma, row);
      row := row + w;
    }
  }

  lemma RowFits(y: nat, w: nat, h: nat)
    requires y < h
    ensures y * w + w == (y + 1) * w <= h * w
  {
    Times(y + 1, h, w);
  }

  /** The inner loop of the chroma pass, both planes at once. */
  method ChromaRow(src: YCbCr, f: nat, w: nat, y: nat, cb: array<Byte>, cr: array<Byte>, row: nat)
    requires src.Valid() && f >= 1 && w == src.bounds.Dx() / f && y < src.bounds.Dy() / f
    requires cb != cr && row + w <= cb.Length == cr.Length
    modifies cb, cr
    ensures cb[..row + w] == old(cb[..row]) + MeanRow(Chroma(src, src.cb), src.bounds, f, y, w)
    ensures cr[..row + w] == old(cr[..row]) + MeanRow(Chroma(src, src.cr), src.bounds, f, y, w)
  {
    ghost var wasB, wasR := cb[..row], cr[..row];
    for x := 0 to w
      invariant cb[..row + x] == wasB + MeanRow(Chroma(src, src.cb), src.bounds, f, y, x)
      invariant cr[..row + x] == wasR + MeanRow(Chroma(src, src.cr), src.bounds, f, y, x)
    {
      ChromaPixel(src, f, w, y, x, cb, cr, row, wasB, wasR);
    }
  }

  /** One sample of either plane. */
  method ChromaPixel(src: YCbCr, f: nat, w: nat, y: nat, x: nat, cb: array<Byte>, cr: array<Byte>, row: nat,
                     ghost wasB: seq<Byte>, ghost wasR: seq<Byte>)
    requires src.Valid() && f >= 1 && w == src.bounds.Dx() / f && y < src.bounds.Dy() / f && x < w
    requires cb != cr && row + w <= cb.Length == cr.Length
    requires cb[..row + x] == wasB + MeanRow(Chroma(src, src.cb), src.bounds, f, y, x)
    requires cr[..row + x] == wasR + MeanRow(Chroma(src, src.cr), src.bounds, f, y, x)
    modifies cb, cr
    ensures cb[..row + x + 1] == wasB + MeanRow(Chroma(src, src.cb), src.bounds, f, y, x + 1)
    ensures cr[..row + x + 1] == wasR + MeanRow(Chroma(src, src.cr), src.bounds, f, y, x + 1)
  {
    var meanB := ChromaMean(src, src.cb, f, x, y);
    var meanR := ChromaMean(src, src.cr, f, x, y);
    cb[row + x] := meanB;
    cr[row + x] := meanR;
    assert cb[..row + x + 1] == cb[..row + x] + [meanB];
    assert cr[..row + x + 1] == cr[..row + x] + [meanR];
  }

  method ChromaPlaneRow(src: YCbCr, f: nat, w: nat, h: nat, y: nat, cb: array<Byte>, cr: array<Byte>, row: nat)
    requires src.Valid() && f >= 1 && w == src.bounds.Dx() / f && h == src.bounds.Dy() / f && y < h
    requires cb != cr && row + w <= cb.Length == cr.Length
    requires cb[..row] == MeanPlane(Chroma(src, src.cb), src.bounds, f, w, y)
    requires cr[..row] == MeanPlane(Chroma(src, src.cr), src.bounds, f, w, y)
    modifies cb, cr
    ensures cb[..row + w] == MeanPlane(Chroma(src, src.cb), src.bounds, f, w, y + 1)
    ensures cr[..row + w] == MeanPlane(Chroma(src, src.cr), src.bounds, f, w, y + 1)
  {
    ChromaRow(src, f, w, y, cb, cr, row);
  }

  method FillChroma(src: YCbCr, f: nat, w: nat, h: nat, cb: array<Byte>, cr: array<Byte>)
    requires src.Valid() && f >= 1 && w == src.bounds.Dx() / f && h == src.bounds.Dy() / f
    requires cb != cr && cb.Length == cr.Length == h * w
    modifies cb, cr
    ensures cb[..] == MeanPlane(Chroma(src, src.cb), src.bounds, f, w, h)
    ensures cr[..] == MeanPlane(Chroma(src, src.cr), src.bounds, f, w, h)
  {
    var row := 0;
    for y := 0 to h
      invariant row == y * w <= cb.Length
      invariant cb[..row] == MeanPlane(Chroma(src, src.cb), src.bounds, f, w, y)
      invariant cr[..row] == MeanPlane(Chroma(src, src.cr), src.bounds, f, w, y)
    {
      RowFits(y, w, h);
      ChromaPlaneRow(src, f, w, h, y, cb, cr, row);
      row := row + w;
    }
  }

  method ChromaPlanes(src: YCbCr, f: nat, w: nat, h: nat) returns (cb: array<Byte>, cr: array<Byte>)
    requires src.Valid() && f >= 1 && w == src.bounds.Dx() / f && h == src.bounds.Dy() / f
    ensures fresh(cb) && cb[..] == MeanPlane(Chroma(src, src.cb), src.bounds, f, w, h)
    ensures fresh(cr) && cr[..] == MeanPlane(Chroma(src, src.cr), src.bounds, f, w, h)
  {
    cb, cr := new Byte[h * w], new Byte[h * w];
    FillChroma(src, f, w, h, cb, cr);
  }

  /** The shrunk picture is 4:4:4, its planes without padding. */
  method BoxShrink(src: YCbCr, f: nat) returns (luma: array<Byte>, cb: array<Byte>, cr: array<Byte>)
    requires src.Valid() && f >= 1
    ensures var w, h := src.bounds.Dx() / f, src.bounds.Dy() / f;
      && luma[..] == MeanPlane(Luma(src), src.bounds, f, w, h)
      && cb[..] == MeanPlane(Chroma(src, src.cb), src.bounds, f, w, h)
      && cr[..] == MeanPlane(Chroma(src, src.cr), src.bounds, f, w, h)
  {
    var w, h := src.bounds.Dx() / f, src.bounds.Dy() / f;
    luma := LumaPlane(src, f, w, h);
    cb, cr := ChromaPlanes(src, f, w, h);
  }
}
