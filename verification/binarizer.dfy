/** The adaptive binariser (`zxing/common/binarizer/adaptive_threshold_mean_binarizer.cpp`).
    Images of at least 25 x 25 pixels are row-flipped, blurred with a
    separable Gaussian of odd size about a tenth of the width, thresholded
    against the blur minus a bias of 10, and flipped back into a bit matrix;
    smaller images use the global-histogram matrix. The Gaussian weights and
    the global-histogram binariser are abstract. */
module Binarizer {
  import opened Common
  import opened Grid

  /** Minimum width and height for the adaptive path (`BLOCK_SIZE`). */
  const BlockSize: int := 25
  /** The constant subtracted from the local mean (`Bias`). */
  const Bias: int := 10
  /** Intermediate values above this become bit 0 in the bit matrix. */
  const BitCut: int := 120

  /** A ZXing bit matrix: one 0/1 entry per pixel, row-major. */
  datatype BitMatrix = BitMatrix(width: nat, height: nat, bits: seq<int>)

  /** The binariser state: the luminance buffer (row-major, `width * height`
      bytes) and the cached matrix `matrix0_`. */
  datatype Binarizer = Binarizer(width: nat, height: nat, luminance: seq<int>, matrix0: Option<BitMatrix>)
  {
    ghost predicate Valid() { |luminance| == width * height }
  }

  // ---------------------------------------------------------------------
  // Block size

  /** `bs = width / 10; bs = bs + bs % 2 - 1`. */
  function KernelSize(width: nat): (bs: int)
    ensures width >= 10 ==> bs % 2 == 1 && 1 <= bs <= width / 10 < bs + 2
  {
    var b := width / 10;
    b + b % 2 - 1
  }

  /** The size check of `binarizeImage`: odd and larger than one. */
  predicate KernelSizeOk(bs: int) { bs % 2 == 1 && bs > 1 }

  /** Above the adaptive threshold the kernel size is usable iff the image is
      at least 30 pixels wide: widths 25 to 29 fail. */
  lemma KernelSizeFailsBelowThirty(width: nat)
    requires width >= BlockSize
    ensures KernelSizeOk(KernelSize(width)) <==> width >= 30
  {
  }

  // ---------------------------------------------------------------------
  // One-dimensional convolution with edge replication

  function Sum(k: seq<real>): real {
    if k == [] then 0.0 else k[0] + Sum(k[1..])
  }

  function Dot(a: seq<real>, k: seq<real>): real
    requires |a| >= |k|
  {
    if k == [] then 0.0 else a[0] * k[0] + Dot(a[1..], k[1..])
  }

  /** The padded signal of `convolve1D`: `padding` copies of the first
      sample, the signal, `padding` copies of the last sample. */
  function Padded(signal: seq<real>, padding: nat): (p: seq<real>)
    requires |signal| >= 1
    ensures |p| == |signal| + 2 * padding
    ensures forall i :: 0 <= i < |p| ==>
      p[i] == signal[Min(Max(i - padding, 0), |signal| - 1)]
  {
    seq(padding, _ => signal[0]) + signal + seq(padding, _ => signal[|signal| - 1])
  }

  /** `convolve1D`: output i is the kernel applied at position i of the
      padded signal. */
  function Convolve(signal: seq<real>, kernel: seq<real>): (out: seq<real>)
    requires |signal| >= 1
    ensures |out| == |signal|
  {
    var p := Padded(signal, |kernel| / 2);
    seq(|signal|, i requires 0 <= i < |signal| => Dot(p[i..i + |kernel|], kernel))
  }

  /** The sample at position t, with positions outside the signal clamped
      to its first or last sample. */
  function Clamped(signal: seq<real>, t: int): real
    requires |signal| >= 1
  {
    signal[Min(Max(t, 0), |signal| - 1)]
  }

  /** Reference definition of one output of the convolution: the sum over
      the kernel taps from `j` on of weight times the clamped sample under
      the tap, the kernel being centred on position i. */
  function Taps(signal: seq<real>, kernel: seq<real>, i: int, j: nat): real
    requires |signal| >= 1 && j <= |kernel|
    decreases |kernel| - j
  {
    if j == |kernel| then 0.0
    else kernel[j] * Clamped(signal, i + j - |kernel| / 2) + Taps(signal, kernel, i, j + 1)
  }

  lemma {:induction false} DotTaps(signal: seq<real>, kernel: seq<real>, i: nat, j: nat)
    requires |signal| >= 1 && i < |signal| && j <= |kernel|
    ensures i + |kernel| <= |Padded(signal, |kernel| / 2)|
    ensures var p := Padded(signal, |kernel| / 2);
            Dot(p[i + j..i + |kernel|], kernel[j..]) == Taps(signal, kernel, i, j)
    decreases |kernel| - j
  {
    var p := Padded(signal, |kernel| / 2);
    if j < |kernel| {
      assert p[i + j..i + |kernel|][1..] == p[i + j + 1..i + |kernel|];
      assert kernel[j..][1..] == kernel[j + 1..];
      DotTaps(signal, kernel, i, j + 1);
    }
  }

  /** Output i of `convolve1D` is the kernel-weighted sum of the samples at
      clamp(i + j - k/2, 0, n - 1): the padding replicates the edge samples. */
  lemma ConvolveWindow(signal: seq<real>, kernel: seq<real>, i: nat)
    requires |signal| >= 1 && i < |signal|
    ensures Convolve(signal, kernel)[i] == Taps(signal, kernel, i, 0)
  {
    DotTaps(signal, kernel, i, 0);
    assert kernel[0..] == kernel;
  }

  lemma {:induction false} DotConstant(a: seq<real>, k: seq<real>, c: real)
    requires |a| >= |k|
    requires forall i :: 0 <= i < |a| ==> a[i] == c
    ensures Dot(a, k) == c * Sum(k)
  {
    if k != [] {
      DotConstant(a[1..], k[1..], c);
    }
  }

  /** A normalised kernel leaves a constant signal unchanged. */
  lemma ConvolveConstant(signal: seq<real>, kernel: seq<real>, c: real)
    requires |signal| >= 1
    requires forall i :: 0 <= i < |signal| ==> signal[i] == c
    requires Sum(kernel) == 1.0
    ensures forall i :: 0 <= i < |signal| ==> Convolve(signal, kernel)[i] == c
  {
    var p := Padded(signal, |kernel| / 2);
    forall i | 0 <= i < |signal|
      ensures Convolve(signal, kernel)[i] == c
    {
      DotConstant(p[i..i + |kernel|], kernel, c);
    }
  }

  // ---------------------------------------------------------------------
  // Separable blur and thresholding

  /** A rows x cols grid of values. */
  ghost predicate IsGrid<T>(g: seq<seq<T>>, rows: nat, cols: nat) {
    |g| == rows && forall i :: 0 <= i < rows ==> |g[i]| == cols
  }

  function Column(g: seq<seq<real>>, j: nat): (col: seq<real>)
    requires forall i :: 0 <= i < |g| ==> j < |g[i]|
    ensures |col| == |g|
  {
    seq(|g|, i requires 0 <= i < |g| => g[i][j])
  }

  /** `gaussianBlur`: every row convolved, then every column of the result. */
  function GaussianBlur(image: seq<seq<real>>, rows: nat, cols: nat, kernel: seq<real>): (out: seq<seq<real>>)
    requires rows >= 1 && cols >= 1 && IsGrid(image, rows, cols)
    ensures IsGrid(out, rows, cols)
  {
    var horizontal := seq(rows, i requires 0 <= i < rows => Convolve(image[i], kernel));
    seq(rows, i requires 0 <= i < rows =>
      seq(cols, j requires 0 <= j < cols => Convolve(Column(horizontal, j), kernel)[i]))
  }

  lemma BlurConstant(image: seq<seq<real>>, rows: nat, cols: nat, kernel: seq<real>, c: real)
    requires rows >= 1 && cols >= 1 && IsGrid(image, rows, cols)
    requires forall i, j :: 0 <= i < rows && 0 <= j < cols ==> image[i][j] == c
    requires Sum(kernel) == 1.0
    ensures forall i, j :: 0 <= i < rows && 0 <= j < cols ==> GaussianBlur(image, rows, cols, kernel)[i][j] == c
  {
    var horizontal := seq(rows, i requires 0 <= i < rows => Convolve(image[i], kernel));
    forall i | 0 <= i < rows
      ensures forall j :: 0 <= j < cols ==> horizontal[i][j] == c
    {
      ConvolveConstant(image[i], kernel, c);
    }
    forall j | 0 <= j < cols
      ensures forall i :: 0 <= i < rows ==> Convolve(Column(horizontal, j), kernel)[i] == c
    {
      ConvolveConstant(Column(horizontal, j), kernel, c);
    }
  }

  /** The comparison of `adaptiveThresholdGaussian`. */
  function ThresholdPixel(gray: int, blurred: real, c: int): int {
    if gray as real > blurred - c as real then 255 else 0
  }

  function ToReal(g: seq<seq<int>>): (r: seq<seq<real>>)
    ensures |r| == |g| && forall i :: 0 <= i < |g| ==> |r[i]| == |g[i]|
  {
    seq(|g|, i requires 0 <= i < |g| => seq(|g[i]|, j requires 0 <= j < |g[i]| => g[i][j] as real))
  }

  /** `adaptiveThresholdGaussian`: 255 where the pixel exceeds its blurred
      neighbourhood minus `c`, 0 elsewhere. The comparison in the contract is
      the definition; what it means for whole images is stated by
      `UniformThreshold` and `AdaptiveBitMeaning`. */
  function AdaptiveThreshold(gray: seq<seq<int>>, rows: nat, cols: nat, kernel: seq<real>, c: int): (out: seq<seq<int>>)
    requires rows >= 1 && cols >= 1 && IsGrid(gray, rows, cols)
    ensures IsGrid(out, rows, cols)
    ensures forall i, j :: 0 <= i < rows && 0 <= j < cols ==>
      (out[i][j] == 255 <==> gray[i][j] as real > GaussianBlur(ToReal(gray), rows, cols, kernel)[i][j] - c as real)
    ensures forall i, j :: 0 <= i < rows && 0 <= j < cols ==> out[i][j] == 0 || out[i][j] == 255
  {
    var blurred := GaussianBlur(ToReal(gray), rows, cols, kernel);
    seq(rows, i requires 0 <= i < rows =>
      seq(cols, j requires 0 <= j < cols => ThresholdPixel(gray[i][j], blurred[i][j], c)))
  }

  // ---------------------------------------------------------------------
  // Row-flipping conversions between the flat buffer and the matrix

  /** `TransBufferToMat` as a value: matrix row j is buffer row h-1-j. */
  function BufferToMat(buf: seq<int>, w: nat, h: nat): (mat: seq<seq<int>>)
    requires |buf| == w * h
    ensures IsGrid(mat, h, w)
  {
    seq(h, j requires 0 <= j < h => RowBound(h - 1 - j, w, h); RowOf(buf, w, h - 1 - j))
  }

  /** Matrix pixel (j, z) is byte z of buffer row h-1-j. */
  lemma BufferToMatPixel(buf: seq<int>, w: nat, h: nat, j: nat, z: nat)
    requires |buf| == w * h && j < h && z < w
    ensures (RowBound(h - 1 - j, w, h);
             BufferToMat(buf, w, h)[j][z] == buf[(h - 1 - j) * w + z])
  {
    RowBound(h - 1 - j, w, h);
    assert BufferToMat(buf, w, h)[j] == RowOf(buf, w, h - 1 - j);
  }

  /** The bit of one intermediate value: 0 above 120, 1 otherwise. */
  function Bit(v: int): int {
    if v > BitCut then 0 else 1
  }

  function RowBits(row: seq<int>): (bits: seq<int>)
    ensures |bits| == |row|
    ensures forall z :: 0 <= z < |row| ==> bits[z] == Bit(row[z])
  {
    seq(|row|, z requires 0 <= z < |row| => Bit(row[z]))
  }

  /** `TransMatToBuffer` as a value: buffer row j holds the bits of matrix
      row h-1-j (see `MatToBufferRow`). */
  function MatToBuffer(mat: seq<seq<int>>, w: nat, h: nat): (buf: seq<int>)
    requires IsGrid(mat, h, w)
    ensures |buf| == w * h
  {
    var rows := seq(h, j requires 0 <= j < h => RowBits(mat[h - 1 - j]));
    FlattenLength(rows, w);
    Flatten(rows)
  }

  lemma MatToBufferRow(mat: seq<seq<int>>, w: nat, h: nat, j: nat)
    requires IsGrid(mat, h, w) && j < h
    ensures j * w + w <= w * h
    ensures RowOf(MatToBuffer(mat, w, h), w, j) == RowBits(mat[h - 1 - j])
  {
    RowBound(j, w, h);
    var rows := seq(h, j requires 0 <= j < h => RowBits(mat[h - 1 - j]));
    FlattenRow(rows, w, j);
  }

  /** `TransBufferToMat`, with the source's loop. */
  method TransBufferToMat(buf: seq<int>, w: nat, h: nat) returns (mat: seq<seq<int>>)
    requires |buf| == w * h
    ensures mat == BufferToMat(buf, w, h)
  {
    mat := [];
    var j := 0;
    while j < h
      invariant 0 <= j <= h
      invariant mat == BufferToMat(buf, w, h)[..j]
    {
      RowBound(h - 1 - j, w, h);
      var data := buf[(h - 1 - j) * w .. (h - 1 - j) * w + w];
      assert data == RowOf(buf, w, h - 1 - j);
      assert data == BufferToMat(buf, w, h)[j];
      assert BufferToMat(buf, w, h)[..j + 1] == BufferToMat(buf, w, h)[..j] + [data];
      mat := mat + [data];
      j := j + 1;
    }
  }

  /** `TransMatToBuffer`, with the source's two nested loops. */
  method TransMatToBuffer(mat: seq<seq<int>>, w: nat, h: nat) returns (buf: seq<int>)
    requires IsGrid(mat, h, w)
    ensures buf == MatToBuffer(mat, w, h)
  {
    var rows := seq(h, j requires 0 <= j < h => RowBits(mat[h - 1 - j]));
    buf := [];
    var j := 0;
    while j < h
      invariant 0 <= j <= h
      invariant buf == Flatten(rows[..j])
    {
      var pdi := RowToBits(mat[h - j - 1]);
      FlattenSnoc(rows[..j], pdi);
      assert rows[..j + 1] == rows[..j] + [pdi];
      buf := buf + pdi;
      j := j + 1;
    }
    assert rows[..h] == rows;
  }

  /** The inner loop of `TransMatToBuffer` over one matrix row. */
  method RowToBits(row: seq<int>) returns (pdi: seq<int>)
    ensures pdi == RowBits(row)
  {
    pdi := [];
    var z := 0;
    while z < |row|
      invariant 0 <= z <= |row|
      invariant pdi == RowBits(row)[..z]
    {
      var value := row[z];
      pdi := pdi + [if value > BitCut then 0 else 1];
      z := z + 1;
    }
  }

  /** The two row flips cancel: converting a buffer to the matrix and back
      thresholds every byte in place. */
  lemma FlipsCancel(buf: seq<int>, w: nat, h: nat)
    requires |buf| == w * h
    ensures MatToBuffer(BufferToMat(buf, w, h), w, h) == RowBits(buf)
  {
    var out := MatToBuffer(BufferToMat(buf, w, h), w, h);
    var bits := RowBits(buf);
    forall j | 0 <= j < h
      ensures RowOf(out, w, j) == RowOf(bits, w, j)
    {
      RowBound(j, w, h);
      MatToBufferRow(BufferToMat(buf, w, h), w, h, j);
      assert BufferToMat(buf, w, h)[h - 1 - j] == RowOf(buf, w, j);
    }
    RowsDetermineBuffer(out, bits, w, h);
  }

  // ---------------------------------------------------------------------
  // The binariser

  /** The matrix of the adaptive path for a buffer, with Gaussian weights
      `kernel`: flip, threshold against the blur, flip back. */
  function AdaptiveBits(lum: seq<int>, w: nat, h: nat, kernel: seq<real>): (bits: seq<int>)
    requires |lum| == w * h && w >= 1 && h >= 1
    ensures |bits| == w * h
  {
    var mat := BufferToMat(lum, w, h);
    MatToBuffer(AdaptiveThreshold(mat, h, w, kernel, Bias), w, h)
  }

  /** `binarizeImage`. `gaussian` gives the kernel weights for a size
      (`generateGaussianKernel`); `global` is the global-histogram matrix,
      `None` when that binariser reports an error. Returns the status code and
      the new state. */
  function BinarizeImage(b: Binarizer, gaussian: int -> seq<real>, global: Option<BitMatrix>): (r: (int, Binarizer))
    requires b.Valid()
    ensures r.1.Valid() && r.1.width == b.width && r.1.height == b.height && r.1.luminance == b.luminance
    ensures b.width >= BlockSize && b.height >= BlockSize ==>
      if KernelSizeOk(KernelSize(b.width)) then
        && r.0 == 0 && r.1.matrix0.Some? && r.1.matrix0.value.width == b.width && r.1.matrix0.value.height == b.height
        && r.1.matrix0.value.bits == AdaptiveBits(b.luminance, b.width, b.height, gaussian(KernelSize(b.width)))
      else
        r.0 == -1 && r.1 == b
    ensures !(b.width >= BlockSize && b.height >= BlockSize) ==>
      r.1.matrix0 == global && r.0 == (if global.None? then 1 else 0)
  {
    if b.width >= BlockSize && b.height >= BlockSize then
      var bs := KernelSize(b.width);
      if !KernelSizeOk(bs) then (-1, b)
      else
        var bits := AdaptiveBits(b.luminance, b.width, b.height, gaussian(bs));
        (0, b.(matrix0 := Some(BitMatrix(b.width, b.height, bits))))
    else
      (if global.None? then 1 else 0, b.(matrix0 := global))
  }

  /** On the adaptive path, bit (j, z) is 0 (a light, background pixel)
      iff the byte exceeds the blurred value at the same place of the
      row-reversed matrix, less the bias; bit 1 is a dark module. */
  lemma AdaptiveBitMeaning(lum: seq<int>, w: nat, h: nat, kernel: seq<real>, j: nat, z: nat)
    requires |lum| == w * h && w >= 1 && h >= 1 && j < h && z < w
    ensures var mat := BufferToMat(lum, w, h);
            var blurred := GaussianBlur(ToReal(mat), h, w, kernel);
            var bit := RowOf(AdaptiveBits(lum, w, h, kernel), w, j)[z];
            bit == 0 <==> RowOf(lum, w, j)[z] as real > blurred[h - 1 - j][z] - Bias as real
  {
    RowBound(j, w, h);
    var mat := BufferToMat(lum, w, h);
    AdaptiveBitAt(lum, w, h, kernel, j, z);
    LuminanceAt(lum, w, h, j, z);
    ThresholdBit(mat, w, h, kernel, h - 1 - j, z);
  }

  lemma AdaptiveBitAt(lum: seq<int>, w: nat, h: nat, kernel: seq<real>, j: nat, z: nat)
    requires |lum| == w * h && w >= 1 && h >= 1 && j < h && z < w
    ensures (RowBound(j, w, h);
             RowOf(AdaptiveBits(lum, w, h, kernel), w, j)[z] ==
             Bit(AdaptiveThreshold(BufferToMat(lum, w, h), h, w, kernel, Bias)[h - 1 - j][z]))
  {
    RowBound(j, w, h);
    MatToBufferRow(AdaptiveThreshold(BufferToMat(lum, w, h), h, w, kernel, Bias), w, h, j);
  }

  lemma LuminanceAt(lum: seq<int>, w: nat, h: nat, j: nat, z: nat)
    requires |lum| == w * h && j < h && z < w
    ensures (RowBound(j, w, h); RowOf(lum, w, j)[z] == BufferToMat(lum, w, h)[h - 1 - j][z])
  {
    RowBound(j, w, h);
    BufferToMatRow(lum, w, h, h - 1 - j);
    assert h - 1 - (h - 1 - j) == j;
  }

  lemma BufferToMatRow(buf: seq<int>, w: nat, h: nat, i: nat)
    requires |buf| == w * h && i < h
    ensures BufferToMat(buf, w, h)[i] == RowOf(buf, w, h - 1 - i)
  {
  }

  lemma ThresholdBit(mat: seq<seq<int>>, w: nat, h: nat, kernel: seq<real>, i: nat, z: nat)
    requires w >= 1 && h >= 1 && IsGrid(mat, h, w) && i < h && z < w
    ensures Bit(AdaptiveThreshold(mat, h, w, kernel, Bias)[i][z]) == 0 <==>
            mat[i][z] as real > GaussianBlur(ToReal(mat), h, w, kernel)[i][z] - Bias as real
  {
  }

  lemma UniformMat(lum: seq<int>, w: nat, h: nat, c: int)
    requires |lum| == w * h
    requires forall i :: 0 <= i < |lum| ==> lum[i] == c
    ensures forall i, j :: 0 <= i < h && 0 <= j < w ==> BufferToMat(lum, w, h)[i][j] == c
  {
    var mat := BufferToMat(lum, w, h);
    forall i, j | 0 <= i < h && 0 <= j < w
      ensures mat[i][j] == c
    {
      RowBound(h - 1 - i, w, h);
      assert mat[i] == RowOf(lum, w, h - 1 - i);
    }
  }

  lemma UniformThreshold(mat: seq<seq<int>>, w: nat, h: nat, kernel: seq<real>, c: int)
    requires w >= 1 && h >= 1 && IsGrid(mat, h, w)
    requires forall i, j :: 0 <= i < h && 0 <= j < w ==> mat[i][j] == c
    requires Sum(kernel) == 1.0
    ensures forall i, j :: 0 <= i < h && 0 <= j < w ==> AdaptiveThreshold(mat, h, w, kernel, Bias)[i][j] == 255
  {
    BlurConstant(ToReal(mat), h, w, kernel, c as real);
  }

  lemma HighMatGivesZeros(thr: seq<seq<int>>, w: nat, h: nat)
    requires IsGrid(thr, h, w)
    requires forall i, j :: 0 <= i < h && 0 <= j < w ==> thr[i][j] > BitCut
    ensures forall i :: 0 <= i < w * h ==> MatToBuffer(thr, w, h)[i] == 0
  {
    var bits := MatToBuffer(thr, w, h);
    var zeros := seq(w * h, _ => 0);
    forall j | 0 <= j < h
      ensures RowOf(bits, w, j) == RowOf(zeros, w, j)
    {
      MatToBufferRow(thr, w, h, j);
    }
    RowsDetermineBuffer(bits, zeros, w, h);
  }

  /** A uniform image becomes uniform background: every bit is 0, whatever
      the intensity, as long as the Gaussian weights sum to one. */
  lemma UniformImageIsUniform(lum: seq<int>, w: nat, h: nat, kernel: seq<real>, c: int)
    requires |lum| == w * h && w >= 1 && h >= 1
    requires forall i :: 0 <= i < |lum| ==> lum[i] == c
    requires Sum(kernel) == 1.0
    ensures forall i :: 0 <= i < w * h ==> AdaptiveBits(lum, w, h, kernel)[i] == 0
  {
    var mat := BufferToMat(lum, w, h);
    UniformMat(lum, w, h, c);
    UniformThreshold(mat, w, h, kernel, c);
    HighMatGivesZeros(AdaptiveThreshold(mat, h, w, kernel, Bias), w, h);
  }

  /** `binarizeImage` on a uniform image at least one block in each
      direction, with a usable kernel size whose Gaussian weights sum to one,
      succeeds with an all-background matrix. */
  lemma BinarizeUniformImage(b: Binarizer, gaussian: int -> seq<real>, global: Option<BitMatrix>, c: int)
    requires b.Valid() && b.width >= BlockSize && b.height >= BlockSize
    requires forall i :: 0 <= i < |b.luminance| ==> b.luminance[i] == c
    requires Sum(gaussian(KernelSize(b.width))) == 1.0
    ensures var r := BinarizeImage(b, gaussian, global);
            KernelSizeOk(KernelSize(b.width)) ==>
              r.0 == 0 && r.1.matrix0.Some? &&
              forall i :: 0 <= i < |r.1.matrix0.value.bits| ==> r.1.matrix0.value.bits[i] == 0
  {
    UniformImageIsUniform(b.luminance, b.width, b.height, gaussian(KernelSize(b.width)), c);
  }

  /** `getBlackMatrix`: binarise only while no matrix is cached, then return
      the cached matrix (the base class accessor is taken to return
      `matrix0_`). */
  function GetBlackMatrix(b: Binarizer, gaussian: int -> seq<real>, global: Option<BitMatrix>): (r: (Option<BitMatrix>, Binarizer))
    requires b.Valid()
    ensures r.1.Valid()
    ensures b.matrix0.Some? ==> r == (b.matrix0, b)
    ensures r.0 == r.1.matrix0
  {
    if b.matrix0.None? then
      var (_, b') := BinarizeImage(b, gaussian, global);
      (b'.matrix0, b')
    else
      (b.matrix0, b)
  }

  /** Once a matrix has been produced it is cached: asking again returns the
      same matrix and leaves the state alone. */
  lemma BlackMatrixCached(b: Binarizer, gaussian: int -> seq<real>, global: Option<BitMatrix>,
                          gaussian2: int -> seq<real>, global2: Option<BitMatrix>)
    requires b.Valid()
    requires GetBlackMatrix(b, gaussian, global).0.Some?
    ensures var (m, b') := GetBlackMatrix(b, gaussian, global);
            GetBlackMatrix(b', gaussian2, global2) == (m, b')
  {
  }

  /** `getBlackRow`: the same lazy binarisation, then row `y` of the cached
      matrix (the base class accessor is taken to read that row). */
  function GetBlackRow(b: Binarizer, y: int, gaussian: int -> seq<real>, global: Option<BitMatrix>): (r: (Option<seq<int>>, Binarizer))
    requires b.Valid()
    ensures r.1 == GetBlackMatrix(b, gaussian, global).1
    ensures b.matrix0.Some? ==> r.1 == b
  {
    var (m, b') := GetBlackMatrix(b, gaussian, global);
    if m.Some? && 0 <= y < m.value.height && (y + 1) * m.value.width <= |m.value.bits| then
      (Some(m.value.bits[y * m.value.width .. (y + 1) * m.value.width]), b')
    else
      (None, b')
  }
}
