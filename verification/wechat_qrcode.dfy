/** The detection and decoding pipeline of `WeChatQRCode`
    (`core/src/wechat_qrcode/src/wechat_qrcode.cpp`): candidate regions from
    the detector (or the whole image), a crop per candidate, a list of scales
    tried in order until the decoder succeeds, and the duplicate filter of
    `Dedup`. The networks, the decoder and `sqrt` are parameters. */
module WeChatQRCode {
  import opened Common
  import Align
  import SsdDetector
  import SuperScale
  import Dedup

  /** Images with a side of at most this many pixels are not decoded. */
  const MinSide: int := 20
  /** The detector's target area, 400 x 400 (`targetArea`). */
  const TargetArea: real := 160000.0
  /** Crop padding (`padding_w`, `padding_h`, `min_padding` of `cropObj`). */
  const PaddingFrac: real := 0.1
  const MinPadding: int := 15

  /** What `DecoderMgr::decodeImage` reports for one scaled image: its status,
      the texts it appends to the shared result list and one corner list per
      text. */
  datatype DecodeOutput = DecodeOutput(status: int, texts: seq<ByteString>, sets: seq<Quad>)

  /** The collaborators whose code is not part of this model. */
  datatype Backend = Backend(
    detectNet: SsdDetector.DetectNet,
    srNet: SuperScale.SrNet,
    decoder: (SuperScale.Scaled, bool) -> DecodeOutput,
    sqrt: real -> real)

  /** The state of `WeChatQRCode::Impl`. `srMaxSize` stands for the
      `sr_max_size` argument of `SuperScale::processImageScale`, which
      `Impl::decode` leaves at its default; the header declaring that default
      is not part of this model, so the value is a parameter of `Create`. */
  datatype Detector = Detector(useNnDetector: bool, useNnSr: bool, scaleFactor: real,
                               sr: SuperScale.SuperScale, srMaxSize: int)

  /** The values `scaleFactor` can hold: -1 (automatic) or a factor in (0, 1]. */
  predicate ValidFactor(f: real) {
    f == -1.0 || 0.0 < f <= 1.0
  }

  /** The constructor: both networks are switched on, the factor is
      automatic, and the super-resolution net counts as loaded whatever the
      loads returned. */
  function Create(srMaxSize: int, paramLoaded: bool, modelLoaded: bool): (d: Detector)
    ensures d.useNnDetector && d.useNnSr && d.scaleFactor == -1.0 && d.sr.netLoaded
    ensures d.srMaxSize == srMaxSize
  {
    var (sr, _) := SuperScale.Init(SuperScale.SuperScale(false), paramLoaded, modelLoaded);
    Detector(true, true, -1.0, sr, srMaxSize)
  }

  /** `setScaleFactor`: a factor outside (0, 1] means automatic. */
  function SetScaleFactor(d: Detector, s: real): (d': Detector)
    ensures ValidFactor(d'.scaleFactor)
    ensures d'.(scaleFactor := d.scaleFactor) == d
  {
    if 0.0 < s <= 1.0 then d.(scaleFactor := s) else d.(scaleFactor := -1.0)
  }

  /** `getScaleFactor`. */
  function GetScaleFactor(d: Detector): real {
    d.scaleFactor
  }

  /** Reading back the factor just set gives it back exactly when it was
      storable: in (0, 1], or the automatic value -1 itself. */
  lemma ScaleFactorRoundTrip(d: Detector, s: real)
    ensures GetScaleFactor(SetScaleFactor(d, s)) == s <==> ValidFactor(s)
    ensures !(0.0 < s <= 1.0) ==> GetScaleFactor(SetScaleFactor(d, s)) == -1.0
  {
  }

  /** `getScaleList`: the scales to try, in order. */
  function ScaleList(width: int, height: int): (r: seq<real>)
    ensures 2 <= |r| <= 3 && 1.0 in r && 0.5 in r
    ensures forall k :: 0 <= k < |r| ==> r[k] > 0.0
    ensures 2.0 in r <==> width < 320 || height < 320
    ensures |r| == 3 <==> width < 320 || height < 320
    ensures r[0] == 0.5 <==> width >= 320 && height >= 320 && (width >= 640 || height >= 640)
  {
    if width < 320 || height < 320 then [1.0, 2.0, 0.5]
    else if width < 640 && height < 640 then [1.0, 0.5]
    else [0.5, 1.0]
  }

  /** The candidate covering the whole image, corners clockwise from the
      origin. */
  function FullImageQuad(w: int, h: int): (q: Quad)
    requires w >= 1 && h >= 1
    ensures |q| == 4 && forall k :: 0 <= k < 4 ==> SsdDetector.InImage(q[k], w, h)
    ensures q[0].x == q[3].x < q[1].x == q[2].x || w == 1
    ensures q[0].y == q[1].y < q[2].y == q[3].y || h == 1
  {
    var r := (w - 1) as real;
    var b := (h - 1) as real;
    [Point(0.0, 0.0), Point(r, 0.0), Point(r, b), Point(0.0, b)]
  }

  /** The square root of the ratio between the target area and the image's. */
  function AutoRoot(be: Backend, w: int, h: int): real
    requires w >= 1 && h >= 1
  {
    be.sqrt(TargetArea / (w * h) as real)
  }

  /** The factor `applyDetector` uses: the stored one, or the largest one
      not above 1 that brings the area down to the target. */
  function DetectorFactor(d: Detector, be: Backend, w: int, h: int): real
    requires w >= 1 && h >= 1
  {
    if d.scaleFactor == -1.0 then MinReal(1.0, AutoRoot(be, w, h)) else d.scaleFactor
  }

  /** Each side of a w x h image times the factor f, truncated. */
  function ScaledSize(w: int, h: int, f: real): (int, int) {
    (Trunc(w as real * f), Trunc(h as real * f))
  }

  /** The detector's input size: the image scaled by the detector factor. */
  function DetectorSize(d: Detector, be: Backend, w: int, h: int): (int, int)
    requires w >= 1 && h >= 1
  {
    ScaledSize(w, h, DetectorFactor(d, be, w, h))
  }

  /** The detector never sees more pixels than the image has, as long as the
      square root it is given is not negative. */
  lemma DetectorSizeBounded(d: Detector, be: Backend, w: int, h: int)
    requires w >= 1 && h >= 1 && ValidFactor(d.scaleFactor)
    requires AutoRoot(be, w, h) >= 0.0
    ensures var (dw, dh) := DetectorSize(d, be, w, h);
            0 <= dw <= w && 0 <= dh <= h
  {
    var f := DetectorFactor(d, be, w, h);
    assert 0.0 <= f <= 1.0;
    ScaledWithinImage(w, h, f);
  }

  lemma ScaledWithinImage(w: int, h: int, f: real)
    requires w >= 1 && h >= 1 && 0.0 <= f <= 1.0
    ensures var (dw, dh) := ScaledSize(w, h, f);
            0 <= dw <= w && 0 <= dh <= h
  {
    ScaledBelow(w, f);
    ScaledBelow(h, f);
  }

  lemma ScaledBelow(n: int, f: real)
    requires n >= 1 && 0.0 <= f <= 1.0
    ensures 0 <= Trunc(n as real * f) <= n
  {
    assert 0.0 <= n as real * f <= n as real;
  }

  /** The square root the backend supplies is a non-negative value whose
      square does not exceed its argument. */
  predicate RootUndershoots(s: real, q: real)
  {
    s >= 0.0 && s * s <= q
  }

  /** A detector input of at most the target area of 400 x 400 pixels. */
  predicate WithinTarget(size: (int, int))
  {
    size.0 * size.1 <= 160000
  }

  /** With the automatic factor and a square root that does not overshoot,
      the detector input has at most the target area of 400 x 400 pixels. */
  lemma AutomaticSizeMeetsTarget(d: Detector, be: Backend, w: int, h: int)
    requires w >= 1 && h >= 1 && d.scaleFactor == -1.0
    requires RootUndershoots(AutoRoot(be, w, h), TargetArea / (w * h) as real)
    ensures WithinTarget(DetectorSize(d, be, w, h))
  {
    SizeBelow(w, h, AutoRoot(be, w, h), DetectorFactor(d, be, w, h));
  }

  lemma SizeBelow(w: int, h: int, s: real, f: real)
    requires w >= 1 && h >= 1
    requires RootUndershoots(s, TargetArea / (w * h) as real) && f == MinReal(1.0, s)
    ensures WithinTarget(ScaledSize(w, h, f))
  {
    var q := TargetArea / (w * h) as real;
    FactorSquareBelow(f, s, q);
    QuotientTimes(w * h, TargetArea);
    AreaBelow(w, h, f, q);
  }

  lemma FactorSquareBelow(f: real, s: real, q: real)
    requires s >= 0.0 && s * s <= q && f == MinReal(1.0, s)
    ensures f >= 0.0 && f * f <= q
  {
    ProductBelow(f, s, f, s);
  }

  lemma QuotientTimes(n: int, t: real)
    requires n >= 1
    ensures n as real * (t / n as real) == t
  {
  }

  lemma AreaBelow(w: int, h: int, f: real, q: real)
    requires w >= 1 && h >= 1 && f >= 0.0 && f * f <= q
    requires (w * h) as real * q == TargetArea
    ensures WithinTarget(ScaledSize(w, h, f))
  {
    var x, y := w as real * f, h as real * f;
    assert x >= 0.0 && y >= 0.0;
    TruncProductBelow(x, y);
    SquareArea(w, h, f);
    ProductBelow((w * h) as real, (w * h) as real, f * f, q);
  }

  lemma TruncProductBelow(x: real, y: real)
    requires x >= 0.0 && y >= 0.0
    ensures (Trunc(x) * Trunc(y)) as real <= x * y
  {
    var a, b := Trunc(x), Trunc(y);
    assert (a * b) as real == a as real * b as real;
    ProductBelow(a as real, x, b as real, y);
  }

  lemma SquareArea(w: int, h: int, f: real)
    ensures (w as real * f) * (h as real * f) == (w * h) as real * (f * f)
  {
    assert (w * h) as real == w as real * h as real;
  }

  lemma ProductBelow(a: real, b: real, c: real, e: real)
    requires 0.0 <= a <= b && 0.0 <= c <= e
    ensures a * c <= b * e
  {
    assert a * c <= b * c <= b * e;
  }

  /** `applyDetector`: the detector at the computed input size. */
  function ApplyDetector(d: Detector, be: Backend, img: Image): (cands: seq<Quad>)
    requires img.cols >= 1 && img.rows >= 1
    ensures cands == SsdDetector.Forward(be.detectNet, img, DetectorSize(d, be, img.cols, img.rows).0,
                                         DetectorSize(d, be, img.cols, img.rows).1)
  {
    var (dw, dh) := DetectorSize(d, be, img.cols, img.rows);
    SsdDetector.Forward(be.detectNet, img, dw, dh)
  }

  /** `Impl::detect`: the detector's candidates, or the whole image when the
      detector is switched off. Every candidate has four corners inside the
      image. */
  function Detect(d: Detector, be: Backend, img: Image): (cands: seq<Quad>)
    requires img.cols >= 1 && img.rows >= 1
    ensures !d.useNnDetector ==> cands == [FullImageQuad(img.cols, img.rows)]
    ensures forall i :: 0 <= i < |cands| ==> |cands[i]| == 4
    ensures forall i, k :: 0 <= i < |cands| && 0 <= k < |cands[i]| ==> SsdDetector.InImage(cands[i][k], img.cols, img.rows)
  {
    if d.useNnDetector then ApplyDetector(d, be, img)
    else [FullImageQuad(img.cols, img.rows)]
  }

  // ---------------------------------------------------------------------
  // Decoding

  /** A decoded corner in the frame of the cropped image: divided by the
      scale, then mapped back through the aligner when the detector is on. */
  function RestorePoint(useNn: bool, a: Align.Aligner, p: Point, scale: real): Point
    requires scale != 0.0
  {
    var q := Point(p.x / scale, p.y / scale);
    if useNn then Align.WarpPoint(a, q) else q
  }

  function RestorePoints(useNn: bool, a: Align.Aligner, pts: Quad, scale: real): (r: Quad)
    requires scale != 0.0
    ensures |r| == |pts|
    ensures forall j :: 0 <= j < |pts| ==> r[j] == RestorePoint(useNn, a, pts[j], scale)
  {
    var scaled := seq(|pts|, j requires 0 <= j < |pts| => Point(pts[j].x / scale, pts[j].y / scale));
    if useNn then Align.WarpBack(a, scaled) else scaled
  }

  /** Restoring undoes the scaling that produced the decoder's image: a
      corner found at `scale` times a point of the cropped image comes back
      as that point, moved into the image frame by the aligner. */
  lemma RestoreUndoesScale(useNn: bool, a: Align.Aligner, p: Point, scale: real)
    requires scale > 0.0
    ensures RestorePoint(useNn, a, Point(p.x * scale, p.y * scale), scale) ==
            (if useNn then Align.WarpPoint(a, p) else p)
  {
  }

  /** The state after one candidate: `None` when the source's behaviour is
      undefined. */
  type Outcome = Option<(seq<ByteString>, seq<Quad>)>

  /** One successful attempt's duplicate filter: as written, or corrected. */
  function Filter(paired: bool, results: seq<ByteString>, points: seq<Quad>, texts: seq<ByteString>, sets: seq<Quad>): (r: Outcome)
    ensures paired ==> r == Some(Dedup.AttemptPaired(results, points, texts, sets))
    ensures !paired ==> r == Dedup.Attempt(results, points, texts, sets)
  {
    if paired then Some(Dedup.AttemptPaired(results, points, texts, sets))
    else Dedup.Attempt(results, points, texts, sets)
  }

  /** The scale loop for one cropped image: each attempt appends the
      decoder's texts; the first attempt with status 0 restores its corners,
      runs the duplicate filter and ends the loop. */
  function TryScales(d: Detector, be: Backend, img: Image, a: Align.Aligner, scales: seq<real>,
                     results: seq<ByteString>, points: seq<Quad>, paired: bool): (r: Outcome)
    requires forall k :: 0 <= k < |scales| ==> scales[k] != 0.0
  {
    if scales == [] then Some((results, points))
    else
      var scaled := SuperScale.ProcessImageScale(d.sr, be.srNet, img, scales[0], d.useNnSr, d.srMaxSize);
      var out := be.decoder(scaled, d.useNnDetector);
      if out.status == 0 then
        var sets := seq(|out.sets|, i requires 0 <= i < |out.sets| =>
                        RestorePoints(d.useNnDetector, a, out.sets[i], scales[0]));
        Filter(paired, results, points, out.texts, sets)
      else
        TryScales(d, be, img, a, scales[1..], results + out.texts, points, paired)
  }

  /** The decoder's output for one scale. */
  function Attempted(d: Detector, be: Backend, img: Image, scale: real): DecodeOutput {
    be.decoder(SuperScale.ProcessImageScale(d.sr, be.srNet, img, scale, d.useNnSr, d.srMaxSize), d.useNnDetector)
  }

  /** The loop stops at the first successful scale: the scales after it are
      never tried. */
  lemma {:induction false} StopsAtFirstSuccess(d: Detector, be: Backend, img: Image, a: Align.Aligner, scales: seq<real>,
                                               results: seq<ByteString>, points: seq<Quad>, paired: bool, k: nat)
    requires forall j :: 0 <= j < |scales| ==> scales[j] != 0.0
    requires k < |scales| && Attempted(d, be, img, scales[k]).status == 0
    ensures TryScales(d, be, img, a, scales, results, points, paired) ==
            TryScales(d, be, img, a, scales[..k + 1], results, points, paired)
  {
    if Attempted(d, be, img, scales[0]).status != 0 {
      StopsAtFirstSuccess(d, be, img, a, scales[1..], results + Attempted(d, be, img, scales[0]).texts, points, paired, k - 1);
      assert scales[..k + 1][1..] == scales[1..][..k];
    }
  }

  /** When every scale fails, the points are untouched and the result list
      has gained every attempt's texts. */
  lemma {:induction false} AllScalesFail(d: Detector, be: Backend, img: Image, a: Align.Aligner, scales: seq<real>,
                                         results: seq<ByteString>, points: seq<Quad>, paired: bool)
    requires forall j :: 0 <= j < |scales| ==> scales[j] != 0.0
    requires forall j :: 0 <= j < |scales| ==> Attempted(d, be, img, scales[j]).status != 0
    ensures TryScales(d, be, img, a, scales, results, points, paired) ==
            Some((results + FailedTexts(d, be, img, scales), points))
  {
    if scales != [] {
      var texts := Attempted(d, be, img, scales[0]).texts;
      assert Attempted(d, be, img, scales[0]).status != 0;
      assert TryScales(d, be, img, a, scales, results, points, paired) ==
             TryScales(d, be, img, a, scales[1..], results + texts, points, paired);
      AllScalesFail(d, be, img, a, scales[1..], results + texts, points, paired);
      assert (results + texts) + FailedTexts(d, be, img, scales[1..]) ==
             results + FailedTexts(d, be, img, scales);
    } else {
      assert results + FailedTexts(d, be, img, scales) == results;
    }
  }

  /** The texts appended by attempts on `scales`, in order. */
  function FailedTexts(d: Detector, be: Backend, img: Image, scales: seq<real>): seq<ByteString> {
    if scales == [] then [] else Attempted(d, be, img, scales[0]).texts + FailedTexts(d, be, img, scales[1..])
  }

  /** The cropped image and aligner for one candidate; `None` when the crop
      is undefined (too few corners or a region outside the image). */
  function Prepare(d: Detector, img: Image, cand: Quad): (r: Option<(Image, Align.Aligner)>)
    ensures !d.useNnDetector ==> r == Some((img, Align.NewAligner()))
    ensures d.useNnDetector && r.Some? ==>
      (|cand| >= 3 && r.value.1 == Align.Crop(Align.NewAligner(), img, cand, PaddingFrac, PaddingFrac, MinPadding).aligner)
  {
    if !d.useNnDetector then Some((img, Align.NewAligner()))
    else if |cand| < 3 then None
    else
      var c := Align.Crop(Align.NewAligner(), img, cand, PaddingFrac, PaddingFrac, MinPadding);
      if c.image.None? then None else Some((c.image.value, c.aligner))
  }

  /** The candidate loop of `Impl::decode`, from a running result and point
      list. */
  function DecodeFrom(d: Detector, be: Backend, img: Image, cands: seq<Quad>,
                      results: seq<ByteString>, points: seq<Quad>, paired: bool): (r: Outcome)
  {
    if cands == [] then Some((results, points))
    else
      match Prepare(d, img, cands[0])
      case None => None
      case Some((cropped, a)) =>
        match TryScales(d, be, cropped, a, ScaleList(cropped.cols, cropped.rows), results, points, paired)
        case None => None
        case Some((results', points')) => DecodeFrom(d, be, img, cands[1..], results', points', paired)
  }

  /** `Impl::decode`: nothing for no candidates, else the candidate loop.
      `paired` selects the corrected duplicate filter instead of the one
      as written. */
  function Decode(d: Detector, be: Backend, img: Image, cands: seq<Quad>, paired: bool): (r: Outcome)
    ensures cands == [] ==> r == Some(([], []))
  {
    if cands == [] then Some(([], [])) else DecodeFrom(d, be, img, cands, [], [], paired)
  }

  /** `detectAndDecode` on a grey image, with the duplicate filter as
      written: nothing for images with a side of 20 pixels or less, otherwise
      detection and decoding; `None` where the filter's erase leaves the
      result list. */
  function DetectAndDecode(d: Detector, be: Backend, img: Image): (r: Outcome)
    ensures img.cols <= MinSide || img.rows <= MinSide ==> r == Some(([], []))
    ensures img.cols > MinSide && img.rows > MinSide ==> r == Decode(d, be, img, Detect(d, be, img), false)
  {
    if img.cols <= MinSide || img.rows <= MinSide then Some(([], []))
    else Decode(d, be, img, Detect(d, be, img), false)
  }

  /** The same pipeline with the corrected duplicate filter,
      `Dedup.AttemptPaired`, which drops a duplicate's own text together
      with its corners. */
  function DetectAndDecodeCorrected(d: Detector, be: Backend, img: Image): (r: Outcome)
    ensures img.cols <= MinSide || img.rows <= MinSide ==> r == Some(([], []))
    ensures img.cols > MinSide && img.rows > MinSide ==> r == Decode(d, be, img, Detect(d, be, img), true)
  {
    if img.cols <= MinSide || img.rows <= MinSide then Some(([], []))
    else Decode(d, be, img, Detect(d, be, img), true)
  }

  // ---------------------------------------------------------------------
  // Texts and corner lists stay aligned

  /** What the model assumes of `DecoderMgr::decodeImage`: on success one
      corner list per appended text, on failure no texts. */
  ghost predicate DecoderKeepsCounts(be: Backend) {
    forall s: SuperScale.Scaled, nn: bool :: CountsOk(be.decoder(s, nn))
  }

  predicate CountsOk(out: DecodeOutput) {
    (out.status == 0 ==> |out.texts| == |out.sets|) && (out.status != 0 ==> out.texts == [])
  }

  lemma AttemptKeepsCounts(results: seq<ByteString>, points: seq<Quad>, texts: seq<ByteString>, sets: seq<Quad>)
    requires |results| == |points| && |texts| == |sets|
    ensures var r := Dedup.Attempt(results, points, texts, sets);
            r.Some? ==> |r.value.0| == |r.value.1|
  {
  }

  lemma {:induction false} TryScalesKeepsCounts(d: Detector, be: Backend, img: Image, a: Align.Aligner, scales: seq<real>,
                                                results: seq<ByteString>, points: seq<Quad>, paired: bool)
    requires forall j :: 0 <= j < |scales| ==> scales[j] != 0.0
    requires DecoderKeepsCounts(be) && |results| == |points|
    ensures var r := TryScales(d, be, img, a, scales, results, points, paired);
            r.Some? ==> |r.value.0| == |r.value.1|
  {
    if scales != [] {
      var scaled := SuperScale.ProcessImageScale(d.sr, be.srNet, img, scales[0], d.useNnSr, d.srMaxSize);
      var out := be.decoder(scaled, d.useNnDetector);
      assert CountsOk(out);
      if out.status == 0 {
        var sets := seq(|out.sets|, i requires 0 <= i < |out.sets| =>
                        RestorePoints(d.useNnDetector, a, out.sets[i], scales[0]));
        assert |sets| == |out.texts|;
        assert TryScales(d, be, img, a, scales, results, points, paired) == Filter(paired, results, points, out.texts, sets);
        AttemptKeepsCounts(results, points, out.texts, sets);
      } else {
        assert results + out.texts == results;
        TryScalesKeepsCounts(d, be, img, a, scales[1..], results, points, paired);
      }
    }
  }

  lemma {:induction false} DecodeFromKeepsCounts(d: Detector, be: Backend, img: Image, cands: seq<Quad>,
                                                 results: seq<ByteString>, points: seq<Quad>, paired: bool)
    requires DecoderKeepsCounts(be) && |results| == |points|
    ensures var r := DecodeFrom(d, be, img, cands, results, points, paired);
            r.Some? ==> |r.value.0| == |r.value.1|
  {
    if cands != [] {
      match Prepare(d, img, cands[0])
      case None =>
      case Some((cropped, a)) =>
        var scales := ScaleList(cropped.cols, cropped.rows);
        TryScalesKeepsCounts(d, be, cropped, a, scales, results, points, paired);
        match TryScales(d, be, cropped, a, scales, results, points, paired)
        case None =>
        case Some((results', points')) =>
          DecodeFromKeepsCounts(d, be, img, cands[1..], results', points', paired);
    }
  }

  /** With a decoder that reports one corner list per text, the pipeline
      returns as many corner lists as texts, so the C API's pairing of text i
      with points i stays within bounds. */
  lemma DetectAndDecodeKeepsCounts(d: Detector, be: Backend, img: Image)
    requires DecoderKeepsCounts(be)
    ensures var r := DetectAndDecode(d, be, img);
            r.Some? ==> |r.value.0| == |r.value.1|
  {
    if img.cols > MinSide && img.rows > MinSide {
      var cands := Detect(d, be, img);
      if cands != [] {
        DecodeFromKeepsCounts(d, be, img, cands, [], [], false);
      }
    }
  }

  /** The corrected pipeline keeps the counts aligned too. */
  lemma DetectAndDecodeCorrectedKeepsCounts(d: Detector, be: Backend, img: Image)
    requires DecoderKeepsCounts(be)
    ensures var r := DetectAndDecodeCorrected(d, be, img);
            r.Some? ==> |r.value.0| == |r.value.1|
  {
    if img.cols > MinSide && img.rows > MinSide {
      var cands := Detect(d, be, img);
      if cands != [] {
        DecodeFromKeepsCounts(d, be, img, cands, [], [], true);
      }
    }
  }
}
