/** The resampler of the pipeline (`scale/super_scale.cpp`): identity at scale
    1, neural super-resolution or bicubic upscaling at scale 2, bilinear
    downscaling below 1. The resize kernels are not modelled: a resampled
    image is described by the kernel, the source and the target size. The
    super-resolution network is an abstract function returning a tensor. */
module SuperScale {
  import opened Common

  /** A single-channel network output of `h` x `w` floats, row-major. */
  datatype RawTensor = RawTensor(h: nat, w: nat, data: seq<real>)
  type Tensor = t: RawTensor | |t.data| == t.h * t.w witness RawTensor(0, 0, [])

  /** The super-resolution network applied to an image. */
  type SrNet = Image -> Tensor

  /** The state of a `SuperScale` object. */
  datatype SuperScale = SuperScale(netLoaded: bool)

  /** The image `processImageScale` returns, by the path that produced it. */
  datatype Scaled =
    | Unchanged(src: Image)
    | Bicubic(src: Image, width: int, height: int)
    | Bilinear(src: Image, width: int, height: int)
    | Enhanced(out: Image)
  {
    /** The output size (columns, rows): a resize produces exactly its target. */
    function Width(): int {
      match this
      case Unchanged(src) => src.cols
      case Bicubic(_, w, _) => w
      case Bilinear(_, w, _) => w
      case Enhanced(out) => out.cols
    }
    function Height(): int {
      match this
      case Unchanged(src) => src.rows
      case Bicubic(_, _, h) => h
      case Bilinear(_, _, h) => h
      case Enhanced(out) => out.rows
    }
  }

  /** `SuperScale::init`: the two load calls' outcomes are ignored, the net
      is marked loaded and 0 is returned. */
  function Init(s: SuperScale, paramLoaded: bool, modelLoaded: bool): (r: (SuperScale, int))
    ensures r.0.netLoaded && r.1 == 0
  {
    (s.(netLoaded := true), 0)
  }

  /** `(int)sqrt((double)n)`: the integer square root, rounded down. */
  function FloorSqrt(n: nat): (r: nat)
    ensures r * r <= n < (r + 1) * (r + 1)
  {
    SqrtFrom(n, 0)
  }

  function SqrtFrom(n: nat, r: nat): (s: nat)
    requires r * r <= n
    ensures s * s <= n < (s + 1) * (s + 1)
    decreases n - r
  {
    if (r + 1) * (r + 1) > n then r
    else
      assert r < r + 1 <= (r + 1) * (r + 1) <= n;
      SqrtFrom(n, r + 1)
  }

  /** The integer square root is below a positive bound iff the number is
      below the bound's square. */
  lemma FloorSqrtBelow(n: nat, t: int)
    ensures FloorSqrt(n) < t <==> t > 0 && n < t * t
  {
    var r := FloorSqrt(n);
    if r < t {
      assert r + 1 <= t;
      MulMono(r + 1, t);
    } else if t > 0 && n < t * t {
      MulMono(t, r);
      assert false;
    }
  }

  lemma MulMono(a: nat, b: nat)
    requires a <= b
    ensures a * a <= b * b
  {
    assert a * a <= a * b <= b * b;
  }

  /** One output pixel: `(uint8_t)clamp(p * 255, 0, 255)`. */
  function Quantize(p: real): (v: int)
    ensures 0 <= v <= 255
    ensures p <= 0.0 ==> v == 0
    ensures p >= 1.0 ==> v == 255
  {
    Trunc(ClampReal(p * 255.0, 0.0, 255.0))
  }

  lemma RowMajorIndex(r: nat, c: nat, h: nat, w: nat)
    requires r < h && c < w
    ensures r * w + c < h * w
  {
    assert r * w + c < r * w + w == (r + 1) * w <= h * w;
  }

  /** Output pixel (r, c): the quantised value at row-major position
      `r * w + c` of the tensor. */
  function TensorPixel(t: Tensor, r: nat, c: nat): (v: int)
    requires r < t.h && c < t.w
    ensures r * t.w + c < |t.data| && v == Quantize(t.data[r * t.w + c])
    ensures 0 <= v <= 255
  {
    RowMajorIndex(r, c, t.h, t.w);
    Quantize(t.data[r * t.w + c])
  }

  /** The image made from a network output: `prob.h` rows of `prob.w`
      quantised values. */
  function TensorImage(t: Tensor): (img: Image)
    ensures img.rows == t.h && img.cols == t.w
    ensures forall r, c :: 0 <= r < t.h && 0 <= c < t.w ==> img.px[r][c] == TensorPixel(t, r, c)
  {
    var px := seq(t.h, r requires 0 <= r < t.h =>
                seq(t.w, c requires 0 <= c < t.w => TensorPixel(t, r, c)));
    assert forall r, c :: 0 <= r < t.h && 0 <= c < t.w ==> 0 <= px[r][c] < 256;
    RawImage(t.h, t.w, px)
  }

  /** `SuperScale::superResoutionScale`: it always reports success (0). */
  function SuperResolutionScale(net: SrNet, src: Image): (r: (int, Image))
    ensures r.0 == 0
    ensures r.1.rows == net(src).h && r.1.cols == net(src).w
  {
    (0, TensorImage(net(src)))
  }

  /** The guard of the neural path at scale 2. */
  predicate SrEligible(s: SuperScale, src: Image, useSr: bool, srMaxSize: int) {
    useSr && FloorSqrt(src.cols * src.rows) < srMaxSize && s.netLoaded
  }

  /** `SuperScale::processImageScale`. */
  function ProcessImageScale(s: SuperScale, net: SrNet, src: Image, scale: real, useSr: bool, srMaxSize: int): (r: Scaled)
    ensures scale == 1.0 ==> r == Unchanged(src)
    ensures scale == 2.0 && SrEligible(s, src, useSr, srMaxSize) ==> r == Enhanced(TensorImage(net(src)))
    ensures scale == 2.0 && !SrEligible(s, src, useSr, srMaxSize) ==>
      r == Bicubic(src, 2 * src.cols, 2 * src.rows)
    ensures scale < 1.0 ==>
      r == Bilinear(src, Trunc(src.cols as real * scale), Trunc(src.rows as real * scale))
    ensures scale > 1.0 && scale != 2.0 ==> r == Unchanged(src)
  {
    if scale == 1.0 then Unchanged(src)
    else
      var targetWidth := Trunc(src.cols as real * scale);
      var targetHeight := Trunc(src.rows as real * scale);
      if scale == 2.0 then
        assert targetWidth == 2 * src.cols && targetHeight == 2 * src.rows;
        if SrEligible(s, src, useSr, srMaxSize) && SuperResolutionScale(net, src).0 == 0 then
          Enhanced(SuperResolutionScale(net, src).1)
        else
          Bicubic(src, targetWidth, targetHeight)
      else if scale < 1.0 then
        Bilinear(src, targetWidth, targetHeight)
      else
        Unchanged(src)
  }

  /** The neural path runs exactly when super-resolution is requested, the
      image is smaller than the threshold squared and the net is loaded. */
  lemma SrPathCondition(s: SuperScale, net: SrNet, src: Image, useSr: bool, srMaxSize: int)
    ensures ProcessImageScale(s, net, src, 2.0, useSr, srMaxSize).Enhanced? <==>
      useSr && srMaxSize > 0 && src.cols * src.rows < srMaxSize * srMaxSize && s.netLoaded
  {
    FloorSqrtBelow(src.cols * src.rows, srMaxSize);
  }

  /** Halving gives the integer half of each side. */
  lemma HalfScaleSize(s: SuperScale, net: SrNet, src: Image, useSr: bool, srMaxSize: int)
    ensures var r := ProcessImageScale(s, net, src, 0.5, useSr, srMaxSize);
            r.Width() == src.cols / 2 && r.Height() == src.rows / 2
  {
    var hw := src.cols / 2;
    assert src.cols as real * 0.5 == hw as real + (src.cols % 2) as real * 0.5;
    var hh := src.rows / 2;
    assert src.rows as real * 0.5 == hh as real + (src.rows % 2) as real * 0.5;
  }
}
