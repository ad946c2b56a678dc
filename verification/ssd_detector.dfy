/** Post-processing of the region detector (`detector/ssd_detector.cpp`):
    the network's output rows are filtered, scaled to the image and turned
    into axis-aligned candidate quadrilaterals. The inference itself,
    including the bicubic resize and the intensity normalisation that feed
    it, is an abstract function. */
module SsdDetector {
  import opened Common

  /** One six-value row of the detection output:
      class, score, and the normalised corners (x0, y0) and (x1, y1). */
  datatype Row = Row(cls: real, score: real, x0: real, y0: real, x1: real, y1: real)

  /** The network: given the grayscale image and the target input size, it
      produces the detection rows. */
  type DetectNet = (Image, int, int) -> seq<Row>

  /** The score threshold `1E-5`. */
  const MinScore: real := 0.00001

  /** A row is kept iff its class is 1 and its score exceeds the threshold. */
  predicate Accepted(row: Row) {
    row.cls == 1.0 && row.score > MinScore
  }

  /** One coordinate scaled to the image and clamped to [0, dim - 1]. */
  function Scale(v: real, dim: int): (s: real)
    requires dim >= 1
    ensures 0.0 <= s <= dim as real - 1.0
  {
    ClampReal(v * dim as real, 0.0, dim as real - 1.0)
  }

  /** The rectangle of one accepted row, corners in the order
      (x0,y0), (x1,y0), (x1,y1), (x0,y1). */
  function RowQuad(row: Row, w: int, h: int): (q: Quad)
    requires w >= 1 && h >= 1
    ensures |q| == 4
    ensures q[0].x == q[3].x && q[1].x == q[2].x
    ensures q[0].y == q[1].y && q[2].y == q[3].y
    ensures forall k :: 0 <= k < 4 ==> InImage(q[k], w, h)
  {
    var x0 := Scale(row.x0, w);
    var y0 := Scale(row.y0, h);
    var x1 := Scale(row.x1, w);
    var y1 := Scale(row.y1, h);
    [Point(x0, y0), Point(x1, y0), Point(x1, y1), Point(x0, y1)]
  }

  /** A point lies on the pixel grid of a w x h image. */
  predicate InImage(p: Point, w: int, h: int) {
    0.0 <= p.x <= w as real - 1.0 && 0.0 <= p.y <= h as real - 1.0
  }

  /** The number of accepted rows. */
  function CountAccepted(rows: seq<Row>): nat {
    if rows == [] then 0 else (if Accepted(rows[0]) then 1 else 0) + CountAccepted(rows[1..])
  }

  /** The loop of `SSDDetector::forward` over the output rows. */
  function PostProcess(rows: seq<Row>, w: int, h: int): (quads: seq<Quad>)
    requires w >= 1 && h >= 1
    ensures |quads| == CountAccepted(rows) <= |rows|
    ensures forall i :: 0 <= i < |quads| ==> |quads[i]| == 4
    ensures forall i, k :: 0 <= i < |quads| && 0 <= k < |quads[i]| ==> InImage(quads[i][k], w, h)
  {
    if rows == [] then []
    else
      var rest := PostProcess(rows[1..], w, h);
      if Accepted(rows[0]) then [RowQuad(rows[0], w, h)] + rest else rest
  }

  /** The output keeps row order: processing two blocks of rows one after the
      other is processing their concatenation. */
  lemma {:induction false} PostProcessAppend(a: seq<Row>, b: seq<Row>, w: int, h: int)
    requires w >= 1 && h >= 1
    ensures PostProcess(a + b, w, h) == PostProcess(a, w, h) + PostProcess(b, w, h)
  {
    if a == [] {
      assert a + b == b;
    } else {
      assert (a + b)[1..] == a[1..] + b;
      PostProcessAppend(a[1..], b, w, h);
    }
  }

  /** A single row yields its rectangle iff it is accepted, nothing otherwise. */
  lemma PostProcessSingle(row: Row, w: int, h: int)
    requires w >= 1 && h >= 1
    ensures PostProcess([row], w, h) == if Accepted(row) then [RowQuad(row, w, h)] else []
  {
    assert [row][1..] == [];
  }

  /** Every candidate is the rectangle of some accepted row, and the rows of
      consecutive candidates appear in the same order. */
  lemma {:induction false} PostProcessFromRows(rows: seq<Row>, w: int, h: int, i: nat)
    requires w >= 1 && h >= 1
    requires i < |PostProcess(rows, w, h)|
    ensures exists k :: 0 <= k < |rows| && Accepted(rows[k]) && PostProcess(rows, w, h)[i] == RowQuad(rows[k], w, h)
  {
    if Accepted(rows[0]) && i == 0 {
      assert PostProcess(rows, w, h)[0] == RowQuad(rows[0], w, h);
    } else {
      var j := if Accepted(rows[0]) then i - 1 else i;
      assert PostProcess(rows, w, h)[i] == PostProcess(rows[1..], w, h)[j];
      PostProcessFromRows(rows[1..], w, h, j);
      var k :| 0 <= k < |rows[1..]| && Accepted(rows[1..][k]) && PostProcess(rows[1..], w, h)[j] == RowQuad(rows[1..][k], w, h);
      assert rows[k + 1] == rows[1..][k];
    }
  }

  /** `SSDDetector::forward`: run the network at the target size and
      post-process its rows against the original image size. */
  function Forward(net: DetectNet, img: Image, targetWidth: int, targetHeight: int): (quads: seq<Quad>)
    requires img.cols >= 1 && img.rows >= 1
    ensures |quads| <= |net(img, targetWidth, targetHeight)|
    ensures forall i, k :: 0 <= i < |quads| && 0 <= k < |quads[i]| ==> InImage(quads[i][k], img.cols, img.rows)
  {
    PostProcess(net(img, targetWidth, targetHeight), img.cols, img.rows)
  }

  /** Rows whose normalised corners are ordered give candidates whose
      diagonal corners are ordered too. */
  predicate OrderedRows(rows: seq<Row>) {
    forall k :: 0 <= k < |rows| ==> rows[k].x0 <= rows[k].x1 && rows[k].y0 <= rows[k].y1
  }

  lemma OrderedRowsGiveOrderedQuads(rows: seq<Row>, w: int, h: int)
    requires w >= 1 && h >= 1
    requires OrderedRows(rows)
    ensures forall i :: 0 <= i < |PostProcess(rows, w, h)| ==>
      var q := PostProcess(rows, w, h)[i];
      q[0].x <= q[2].x && q[0].y <= q[2].y
  {
    forall i | 0 <= i < |PostProcess(rows, w, h)|
      ensures PostProcess(rows, w, h)[i][0].x <= PostProcess(rows, w, h)[i][2].x
      ensures PostProcess(rows, w, h)[i][0].y <= PostProcess(rows, w, h)[i][2].y
    {
      PostProcessFromRows(rows, w, h, i);
      var k :| 0 <= k < |rows| && Accepted(rows[k]) && PostProcess(rows, w, h)[i] == RowQuad(rows[k], w, h);
      RowQuadOrdered(rows[k], w, h);
    }
  }

  lemma RowQuadOrdered(row: Row, w: int, h: int)
    requires w >= 1 && h >= 1
    requires row.x0 <= row.x1 && row.y0 <= row.y1
    ensures RowQuad(row, w, h)[0].x <= RowQuad(row, w, h)[2].x
    ensures RowQuad(row, w, h)[0].y <= RowQuad(row, w, h)[2].y
  {
    ScaleMonotone(row.x0, row.x1, w);
    ScaleMonotone(row.y0, row.y1, h);
  }

  lemma ScaleMonotone(a: real, b: real, dim: int)
    requires a <= b && dim >= 1
    ensures Scale(a, dim) <= Scale(b, dim)
  {
    var d := dim as real;
    assert a * d <= b * d by {
      NonNegativeProduct(b - a, d);
      assert (b - a) * d == b * d - a * d;
    }
    ClampMonotone(a * d, b * d, 0.0, d - 1.0);
  }

  lemma NonNegativeProduct(x: real, y: real)
    requires x >= 0.0 && y >= 0.0
    ensures x * y >= 0.0
  {
  }

  lemma ClampMonotone(x: real, y: real, lo: real, hi: real)
    requires x <= y && lo <= hi
    ensures ClampReal(x, lo, hi) <= ClampReal(y, lo, hi)
  {
  }
}
