/** The aligner of the detection pipeline (`detector/align.cpp`): it cuts a
    padded, even-sized region around a candidate out of the image, optionally
    transposes it, and maps points found in the region back to the image. */
module Align {
  import opened Common

  /** The state of one `Align` object: the crop origin left by the last
      `crop` and the `rotate90_` flag. */
  datatype Aligner = Aligner(cropX: int, cropY: int, rotate90: bool)

  /** A `cv::Rect`: origin and size. */
  datatype Rect = Rect(x: int, y: int, width: int, height: int)

  /** What `crop` leaves behind: the updated aligner and, when the region lies
      inside the image, the cropped image. Outside the image the source's
      behaviour is undefined, which the model records as `None`. */
  datatype Cropped = Cropped(aligner: Aligner, image: Option<Image>)

  /** `Align::Align()`. The crop origin is left uninitialised by the source;
      the model starts it at zero. */
  function NewAligner(): (a: Aligner)
    ensures !a.rotate90
  {
    Aligner(0, 0, false)
  }

  /** `Align::setRotate90`. */
  function SetRotate90(a: Aligner, v: bool): (b: Aligner)
    ensures b.rotate90 == v
    ensures b.cropX == a.cropX && b.cropY == a.cropY
  {
    a.(rotate90 := v)
  }

  /** One point of `Align::warpBack`: swap the axes when the region was
      transposed, then add the crop origin. */
  function WarpPoint(a: Aligner, p: Point): Point {
    var sx := if a.rotate90 then p.y else p.x;
    var sy := if a.rotate90 then p.x else p.y;
    Point(sx + a.cropX as real, sy + a.cropY as real)
  }

  /** `Align::warpBack`: maps points of the cropped frame to the image frame,
      point by point and in order. */
  function WarpBack(a: Aligner, pts: seq<Point>): (r: seq<Point>)
    ensures |r| == |pts|
    ensures forall j :: 0 <= j < |pts| ==> r[j] == WarpPoint(a, pts[j])
  {
    seq(|pts|, j requires 0 <= j < |pts| => WarpPoint(a, pts[j]))
  }

  /** The frame change that `crop` applies to image coordinates: subtract the
      crop origin, then swap the axes when transposing. */
  function CropPoint(a: Aligner, p: Point): Point {
    var lx := p.x - a.cropX as real;
    var ly := p.y - a.cropY as real;
    if a.rotate90 then Point(ly, lx) else Point(lx, ly)
  }

  /** `warpBack` undoes the frame change of `crop` and vice versa, for every
      point list. */
  lemma WarpBackInvertsCrop(a: Aligner, pts: seq<Point>)
    ensures WarpBack(a, seq(|pts|, j requires 0 <= j < |pts| => CropPoint(a, pts[j]))) == pts
    ensures seq(|pts|, j requires 0 <= j < |pts| => CropPoint(a, WarpBack(a, pts)[j])) == pts
  {
  }

  /** Without rotation `warpBack` is a translation by the crop origin; with
      rotation it swaps the axes first. */
  lemma WarpBackTranslates(a: Aligner, pts: seq<Point>, j: nat)
    requires j < |pts|
    ensures !a.rotate90 ==>
      WarpBack(a, pts)[j] == Point(pts[j].x + a.cropX as real, pts[j].y + a.cropY as real)
    ensures a.rotate90 ==>
      WarpBack(a, pts)[j] == Point(pts[j].y + a.cropX as real, pts[j].x + a.cropY as real)
  {
  }

  /** The padding of one axis: `int pad = max(frac * extent, (float)minPadding)`. */
  function Padding(extent: int, frac: real, minPadding: int): (pad: int)
    ensures minPadding >= 0 ==> pad >= minPadding
  {
    Trunc(MaxReal(frac * extent as real, minPadding as real))
  }

  /** With the pipeline's policy (10%, at least 15 pixels) the padding is the
      integer tenth of the extent, but never less than 15. */
  lemma DefaultPadding(extent: int)
    ensures Padding(extent, 0.1, 15) == Max(extent / 10, 15)
  {
    var t := 0.1 * extent as real;
    if t >= 15.0 {
      assert extent >= 150;
      var q := extent / 10;
      assert extent == 10 * q + extent % 10;
      assert t == q as real + (extent % 10) as real / 10.0;
      assert t.Floor == q;
    } else {
      assert extent < 150;
      assert extent / 10 < 15;
    }
  }

  /** `n & -2` on a two's-complement integer: the largest even number that is
      not above `n`. */
  function EvenFloor(n: int): (r: int)
    ensures r % 2 == 0
    ensures r <= n < r + 2
  {
    n - n % 2
  }

  /** The diagonal corners `crop` reads, converted to `int`. */
  function X0(quad: Quad): int requires |quad| >= 3 { Trunc(quad[0].x) }
  function Y0(quad: Quad): int requires |quad| >= 3 { Trunc(quad[0].y) }
  function X2(quad: Quad): int requires |quad| >= 3 { Trunc(quad[2].x) }
  function Y2(quad: Quad): int requires |quad| >= 3 { Trunc(quad[2].y) }

  function PadX(quad: Quad, paddingW: real, minPadding: int): int
    requires |quad| >= 3
  {
    Padding(X2(quad) - X0(quad) + 1, paddingW, minPadding)
  }

  function PadY(quad: Quad, paddingH: real, minPadding: int): int
    requires |quad| >= 3
  {
    Padding(Y2(quad) - Y0(quad) + 1, paddingH, minPadding)
  }

  /** The last column and row the padded box may reach (`end_x`, `end_y`). */
  function EndX(cols: int, quad: Quad, paddingW: real, minPadding: int): (e: int)
    requires |quad| >= 3
    ensures e <= cols - 1
  {
    Min(X2(quad) + PadX(quad, paddingW, minPadding), cols - 1)
  }

  function EndY(rows: int, quad: Quad, paddingH: real, minPadding: int): (e: int)
    requires |quad| >= 3
    ensures e <= rows - 1
  {
    Min(Y2(quad) + PadY(quad, paddingH, minPadding), rows - 1)
  }

  /** The region `crop` cuts out: the origin is the padded corner clamped at
      zero, the far edge is clamped to the last column/row, and the sizes are
      rounded down to even numbers. */
  function CropRoi(rows: int, cols: int, quad: Quad, paddingW: real, paddingH: real, minPadding: int): (roi: Rect)
    requires |quad| >= 3
    ensures roi.x >= 0 && roi.y >= 0
    ensures roi.width % 2 == 0 && roi.height % 2 == 0
    ensures var ex := EndX(cols, quad, paddingW, minPadding);
            && roi.x + roi.width <= ex + 1 < roi.x + roi.width + 2
            && (roi.width >= 0 <==> roi.x <= ex + 1)
    ensures var ey := EndY(rows, quad, paddingH, minPadding);
            && roi.y + roi.height <= ey + 1 < roi.y + roi.height + 2
            && (roi.height >= 0 <==> roi.y <= ey + 1)
    ensures minPadding >= 0 && X0(quad) >= 0 ==> roi.x <= X0(quad)
    ensures minPadding >= 0 && Y0(quad) >= 0 ==> roi.y <= Y0(quad)
  {
    var cx := Max(X0(quad) - PadX(quad, paddingW, minPadding), 0);
    var cy := Max(Y0(quad) - PadY(quad, paddingH, minPadding), 0);
    var ex := EndX(cols, quad, paddingW, minPadding);
    var ey := EndY(rows, quad, paddingH, minPadding);
    Rect(cx, cy, EvenFloor(ex - cx + 1), EvenFloor(ey - cy + 1))
  }

  /** The region is a valid sub-rectangle of a `rows` x `cols` image. */
  predicate Inside(roi: Rect, rows: int, cols: int) {
    && 0 <= roi.x && 0 <= roi.y && 0 <= roi.width && 0 <= roi.height
    && roi.x + roi.width <= cols && roi.y + roi.height <= rows
  }

  /** Whenever the region is not empty-negative, it fits in the image: its
      sizes are even and origin plus size stays within the image. */
  lemma CropRoiFits(rows: int, cols: int, quad: Quad, paddingW: real, paddingH: real, minPadding: int)
    requires |quad| >= 3
    requires var roi := CropRoi(rows, cols, quad, paddingW, paddingH, minPadding);
             roi.width >= 0 && roi.height >= 0
    ensures Inside(CropRoi(rows, cols, quad, paddingW, paddingH, minPadding), rows, cols)
  {
  }

  /** A candidate whose diagonal corners are ordered and lie in the image
      (as every detector candidate with ordered network output does) always
      yields a region inside the image. */
  lemma OrderedCandidateFits(rows: int, cols: int, quad: Quad, paddingW: real, paddingH: real, minPadding: int)
    requires |quad| >= 3
    requires 0.0 <= quad[0].x <= quad[2].x <= cols as real - 1.0
    requires 0.0 <= quad[0].y <= quad[2].y <= rows as real - 1.0
    requires paddingW >= 0.0 && paddingH >= 0.0 && minPadding >= 0
    ensures Inside(CropRoi(rows, cols, quad, paddingW, paddingH, minPadding), rows, cols)
  {
    TruncMonotone(quad[0].x, quad[2].x);
    TruncMonotone(quad[0].y, quad[2].y);
    TruncMonotone(quad[2].x, cols as real - 1.0);
    TruncMonotone(quad[2].y, rows as real - 1.0);
    assert Trunc(cols as real - 1.0) == cols - 1;
    assert Trunc(rows as real - 1.0) == rows - 1;
  }

  /** The pixels of a region (`inputImg(crop_roi).clone()`). */
  function Roi(img: Image, roi: Rect): (sub: Image)
    requires Inside(roi, img.rows, img.cols)
    ensures sub.rows == roi.height && sub.cols == roi.width
    ensures forall r, c :: 0 <= r < sub.rows && 0 <= c < sub.cols ==>
      sub.px[r][c] == img.px[roi.y + r][roi.x + c]
  {
    RawImage(roi.height, roi.width,
      seq(roi.height, r requires 0 <= r < roi.height =>
        seq(roi.width, c requires 0 <= c < roi.width => img.px[roi.y + r][roi.x + c])))
  }

  /** `transposeMat`: a `cols` x `rows` image with `dst[j][i] = src[i][j]`. */
  function Transpose(img: Image): (t: Image)
    ensures t.rows == img.cols && t.cols == img.rows
    ensures forall j, i :: 0 <= j < t.rows && 0 <= i < t.cols ==> t.px[j][i] == img.px[i][j]
  {
    RawImage(img.cols, img.rows,
      seq(img.cols, j requires 0 <= j < img.cols =>
        seq(img.rows, i requires 0 <= i < img.rows => img.px[i][j])))
  }

  /** Transposing twice gives back the image. */
  lemma TransposeTwice(img: Image)
    ensures Transpose(Transpose(img)) == img
  {
    var t := Transpose(Transpose(img));
    assert |t.px| == |img.px|;
    forall r | 0 <= r < img.rows
      ensures t.px[r] == img.px[r]
    {
      assert |t.px[r]| == |img.px[r]|;
    }
  }

  /** `Align::crop`: records the crop origin, cuts the region out and
      transposes it when `rotate90_` is set. */
  function Crop(a: Aligner, img: Image, quad: Quad, paddingW: real, paddingH: real, minPadding: int): (res: Cropped)
    requires |quad| >= 3
    ensures var roi := CropRoi(img.rows, img.cols, quad, paddingW, paddingH, minPadding);
            && res.aligner == Aligner(roi.x, roi.y, a.rotate90)
            && (res.image.Some? <==> Inside(roi, img.rows, img.cols))
            && (res.image.Some? && !a.rotate90 ==>
                  res.image.value.rows == roi.height && res.image.value.cols == roi.width)
            && (res.image.Some? && a.rotate90 ==>
                  res.image.value.rows == roi.width && res.image.value.cols == roi.height)
  {
    var roi := CropRoi(img.rows, img.cols, quad, paddingW, paddingH, minPadding);
    var a' := Aligner(roi.x, roi.y, a.rotate90);
    if Inside(roi, img.rows, img.cols) then
      var sub := Roi(img, roi);
      Cropped(a', Some(if a.rotate90 then Transpose(sub) else sub))
    else
      Cropped(a', None)
  }

  /** A fresh aligner never transposes: the cropped image is the region itself. */
  lemma FreshAlignerDoesNotTranspose(img: Image, quad: Quad, paddingW: real, paddingH: real, minPadding: int)
    requires |quad| >= 3
    requires Crop(NewAligner(), img, quad, paddingW, paddingH, minPadding).image.Some?
    ensures Crop(NewAligner(), img, quad, paddingW, paddingH, minPadding).image.value
         == Roi(img, CropRoi(img.rows, img.cols, quad, paddingW, paddingH, minPadding))
  {
  }

  /** The point `warpBack` returns for pixel (r, c) of the cropped image is
      exactly the image pixel that `crop` copied there, with or without
      transposition. */
  lemma WarpBackFindsCroppedPixel(a: Aligner, img: Image, quad: Quad, paddingW: real, paddingH: real,
                                  minPadding: int, r: nat, c: nat)
    requires |quad| >= 3
    requires var res := Crop(a, img, quad, paddingW, paddingH, minPadding);
             res.image.Some? && r < res.image.value.rows && c < res.image.value.cols
    ensures var res := Crop(a, img, quad, paddingW, paddingH, minPadding);
            var p := WarpBack(res.aligner, [Point(c as real, r as real)])[0];
            && p.x == p.x.Floor as real && p.y == p.y.Floor as real
            && 0 <= p.y.Floor < img.rows && 0 <= p.x.Floor < img.cols
            && img.px[p.y.Floor][p.x.Floor] == res.image.value.px[r][c]
  {
    var roi := CropRoi(img.rows, img.cols, quad, paddingW, paddingH, minPadding);
    RegionPixel(img, roi, a.rotate90, r, c);
  }

  /** The same, for one region and orientation. */
  lemma RegionPixel(img: Image, roi: Rect, rotate: bool, r: nat, c: nat)
    requires Inside(roi, img.rows, img.cols)
    requires if rotate then r < roi.width && c < roi.height else r < roi.height && c < roi.width
    ensures var sub := Roi(img, roi);
            var cut := if rotate then Transpose(sub) else sub;
            var p := WarpPoint(Aligner(roi.x, roi.y, rotate), Point(c as real, r as real));
            && p.x == p.x.Floor as real && p.y == p.y.Floor as real
            && 0 <= p.y.Floor < img.rows && 0 <= p.x.Floor < img.cols
            && img.px[p.y.Floor][p.x.Floor] == cut.px[r][c]
  {
    var sub := Roi(img, roi);
    var p := WarpPoint(Aligner(roi.x, roi.y, rotate), Point(c as real, r as real));
    if rotate {
      assert p == Point((r + roi.x) as real, (c + roi.y) as real);
      FloorOfInt(r + roi.x);
      FloorOfInt(c + roi.y);
      assert Transpose(sub).px[r][c] == sub.px[c][r];
    } else {
      assert p == Point((c + roi.x) as real, (r + roi.y) as real);
      FloorOfInt(c + roi.x);
      FloorOfInt(r + roi.y);
    }
  }

  lemma FloorOfInt(n: int)
    ensures (n as real).Floor == n
  {
  }
}
