/** The Unity front end, `QrcodeDetector`: the bytes-per-pixel table, the
    vertical row flip, the checks in front of the native pixel call, and the
    synchronous entry point for encoded bytes. The native library is the C
    API of `QrcodeApi`; each entry point hands the native code and the
    stored result list on and releases the native result before returning. */
module UnityDetector {
  import opened Common
  import opened Grid
  import Api = QrcodeApi
  import H = HandleRegistry
  import W = WeChatQRCode
  import Jni

  // ---------------------------------------------------------------------
  // Pixel formats

  /** `PixelFormat` values, passed to the native call as integers. */
  const Gray: int := 0
  const Rgb: int := 1
  const Bgr: int := 2
  const Rgba: int := 3
  const Bgra: int := 4
  const Argb: int := 5
  const Abgr: int := 6

  /** `GetBpp`: bytes per pixel of a format, 0 for a value outside the
      enumeration. Exactly the formats the native call accepts have a
      non-zero size, and there it is the size the JNI layer uses. */
  function GetBpp(format: int): (bpp: int)
    ensures bpp == 0 <==> Api.FormatConversion(format).None?
    ensures bpp != 0 ==> bpp == Jni.JniBpp(format)
  {
    if format == Gray then 1
    else if format == Rgb || format == Bgr then 3
    else if Rgba <= format <= Abgr then 4
    else 0
  }

  /** The Unity and JNI tables disagree only outside the enumeration: an
      unknown format counts 0 bytes per pixel here and 1 in the JNI layer. */
  lemma BppTablesDifferOnlyOnUnknown(format: int)
    ensures GetBpp(format) == Jni.JniBpp(format) <==> 0 <= format <= 6
  {
  }

  // ---------------------------------------------------------------------
  // Vertical flip

  /** `b` is `a` with rows 0 .. h-1 of `rb` bytes in reverse order and every
      byte after them untouched. */
  predicate IsFlip(a: seq<byte>, b: seq<byte>, rb: nat, h: nat) {
    && |b| == |a| && h * rb <= |a|
    && (forall j :: 0 <= j < h ==> RowOf(b, rb, j) == RowOf(a, rb, h - 1 - j))
    && b[h * rb..] == a[h * rb..]
  }

  /** Where byte i of the flipped region comes from. */
  function MirrorIndex(i: nat, rb: nat, h: nat): (m: nat)
    requires i < h * rb
    ensures m < h * rb
  {
    MirrorInRange(i, rb, h);
    (h - 1 - i / rb) * rb + i % rb
  }

  lemma MirrorInRange(i: nat, rb: nat, h: nat)
    requires i < h * rb
    ensures rb > 0 && 0 <= i / rb < h && 0 <= h - 1 - i / rb
    ensures 0 <= (h - 1 - i / rb) * rb + i % rb < h * rb
  {
    var j, z := RowCol(i, rb, h);
    RowBound(h - 1 - j, rb, h);
  }

  /** The flip as an index map: the reference the loop is measured against. */
  function Flipped(a: seq<byte>, rb: nat, h: nat): (b: seq<byte>)
    requires h * rb <= |a|
    ensures |b| == |a|
  {
    seq(|a|, i requires 0 <= i < |a| => if i < h * rb then a[MirrorIndex(i, rb, h)] else a[i])
  }

  lemma FlippedIsFlip(a: seq<byte>, rb: nat, h: nat)
    requires h * rb <= |a|
    ensures IsFlip(a, Flipped(a, rb, h), rb, h)
  {
    var b := Flipped(a, rb, h);
    forall j | 0 <= j < h
      ensures RowOf(b, rb, j) == RowOf(a, rb, h - 1 - j)
    {
      RowBound(j, rb, h);
      RowBound(h - 1 - j, rb, h);
      forall z | 0 <= z < rb
        ensures RowOf(b, rb, j)[z] == RowOf(a, rb, h - 1 - j)[z]
      {
        DivModUnique(j * rb + z, rb, j, z);
      }
    }
  }

  /** Reversing the rows is its own inverse. */
  lemma FlipSymmetric(a: seq<byte>, b: seq<byte>, rb: nat, h: nat)
    requires IsFlip(a, b, rb, h)
    ensures IsFlip(b, a, rb, h)
  {
    forall j | 0 <= j < h
      ensures RowOf(a, rb, j) == RowOf(b, rb, h - 1 - j)
    {
      assert RowOf(b, rb, h - 1 - j) == RowOf(a, rb, h - 1 - (h - 1 - j));
    }
  }

  /** A buffer has one flip only. */
  lemma FlipUnique(a: seq<byte>, b: seq<byte>, c: seq<byte>, rb: nat, h: nat)
    requires IsFlip(a, b, rb, h) && IsFlip(a, c, rb, h)
    ensures b == c
  {
    var n := h * rb;
    forall j | 0 <= j < h
      ensures RowOf(b[..n], rb, j) == RowOf(c[..n], rb, j)
    {
      RowBound(j, rb, h);
      RowOfPrefix(b, n, rb, j);
      RowOfPrefix(c, n, rb, j);
      assert RowOf(b, rb, j) == RowOf(a, rb, h - 1 - j) == RowOf(c, rb, j);
    }
    RowsDetermineBuffer(b[..n], c[..n], rb, h);
    assert b == b[..n] + b[n..];
    assert c == c[..n] + c[n..];
  }

  /** Flipping twice gives the buffer back. */
  lemma FlipTwice(a: seq<byte>, b: seq<byte>, c: seq<byte>, rb: nat, h: nat)
    requires IsFlip(a, b, rb, h) && IsFlip(b, c, rb, h)
    ensures c == a
  {
    FlipSymmetric(a, b, rb, h);
    FlipUnique(b, a, c, rb, h);
  }

  /** Whether `FlipVertical` throws: renting a buffer of negative length,
      or slicing a row that ends past the span. */
  predicate FlipThrows(len: int, rowBytes: int, height: int) {
    rowBytes < 0 || (height >= 2 && height * rowBytes > len)
  }

  /** What `FlipVertical` leaves in the span, `None` when it throws. */
  function FlipResult(a: seq<byte>, rowBytes: int, height: int): (r: Option<seq<byte>>)
    ensures r.None? <==> FlipThrows(|a|, rowBytes, height)
    ensures r.Some? ==> |r.value| == |a|
    ensures r.Some? && height < 2 ==> r.value == a
    ensures r.Some? && height >= 2 ==> IsFlip(a, r.value, rowBytes, height)
  {
    if FlipThrows(|a|, rowBytes, height) then None
    else if height < 2 then Some(a)
    else
      FlippedIsFlip(a, rowBytes, height);
      Some(Flipped(a, rowBytes, height))
  }

  /** Flipping the flipped span restores it; an odd height keeps the middle
      row in place. */
  lemma FlipResultTwice(a: seq<byte>, rowBytes: int, height: int)
    requires FlipResult(a, rowBytes, height).Some?
    ensures var b := FlipResult(a, rowBytes, height).value;
            && FlipResult(b, rowBytes, height) == Some(a)
            && (height >= 1 && height % 2 == 1 ==>
                  RowOf(b, rowBytes, height / 2) == RowOf(a, rowBytes, height / 2))
  {
    var b := FlipResult(a, rowBytes, height).value;
    if height >= 2 {
      FlipTwice(a, b, FlipResult(b, rowBytes, height).value, rowBytes, height);
    }
  }

  /** After y swaps, the first y and the last y rows are mirrored and the
      rest, including the bytes after the rows, are as they were. */
  predicate SwappedUpTo(a: seq<byte>, p: seq<byte>, rb: nat, h: nat, y: nat) {
    && |p| == |a| && 0 <= h * rb <= |a|
    && (forall j :: 0 <= j < h ==> RowOf(p, rb, j) == RowOf(a, rb, SourceRow(j, y, h)))
    && p[h * rb..] == a[h * rb..]
  }

  /** Where row j is after y swaps: mirrored in the outer y rows at each
      end, in place between them. */
  function SourceRow(j: nat, y: int, h: nat): (k: nat)
    requires j < h
    ensures k < h
  {
    if j < y || j >= h - y then h - 1 - j else j
  }

  /** Rows y and h - 1 - y of `p` trade places through a temporary row;
      every other row and the bytes after the last row stay. */
  function SwapRows(p: seq<byte>, rb: nat, h: nat, y: nat): (r: seq<byte>)
    requires y < h / 2 && h * rb <= |p|
    ensures |r| == |p|
    ensures RowOf(r, rb, y) == RowOf(p, rb, h - 1 - y)
    ensures RowOf(r, rb, h - 1 - y) == RowOf(p, rb, y)
    ensures forall j: nat :: j != y && j != h - 1 - y ==> RowOf(r, rb, j) == RowOf(p, rb, j)
    ensures r[h * rb..] == p[h * rb..]
  {
    SwapRowsFacts(p, rb, h, y);
    var tempRow := RowOf(p, rb, h - 1 - y);
    var p1 := WriteRow(p, rb, h - 1 - y, RowOf(p, rb, y));
    WriteRow(p1, rb, y, tempRow)
  }

  lemma SwapRowsFacts(p: seq<byte>, rb: nat, h: nat, y: nat)
    requires y < h / 2 && h * rb <= |p|
    ensures (h - 1 - y) * rb + rb <= |p| && y * rb + rb <= |p|
    ensures var p1 := WriteRow(p, rb, h - 1 - y, RowOf(p, rb, y));
            var r := WriteRow(p1, rb, y, RowOf(p, rb, h - 1 - y));
            && RowOf(r, rb, y) == RowOf(p, rb, h - 1 - y)
            && RowOf(r, rb, h - 1 - y) == RowOf(p, rb, y)
            && (forall j: nat :: j != y && j != h - 1 - y ==> RowOf(r, rb, j) == RowOf(p, rb, j))
            && r[h * rb..] == p[h * rb..]
  {
    var top := h - 1 - y;
    RowBound(top, rb, h);
    RowBound(y, rb, h);
    var p1 := WriteRow(p, rb, top, RowOf(p, rb, y));
    var r := WriteRow(p1, rb, y, RowOf(p, rb, top));
    assert top != y;
    assert RowOf(r, rb, top) == RowOf(p1, rb, top);
    forall j: nat | j != y && j != top
      ensures RowOf(r, rb, j) == RowOf(p, rb, j)
    {
      assert RowOf(r, rb, j) == RowOf(p1, rb, j);
    }
    SwapKeepsTail(p, p1, r, rb, h, y);
  }

  /** One pass of the loop: swapping rows y and h - 1 - y extends the
      mirrored part by one row at each end. */
  lemma SwapStep(a: seq<byte>, p: seq<byte>, rb: nat, h: nat, y: nat)
    requires y < h / 2 && SwappedUpTo(a, p, rb, h, y)
    ensures SwappedUpTo(a, SwapRows(p, rb, h, y), rb, h, y + 1)
  {
    var p' := SwapRows(p, rb, h, y);
    var top := h - 1 - y;
    forall j | 0 <= j < h
      ensures RowOf(p', rb, j) == RowOf(a, rb, SourceRow(j, y + 1, h))
    {
      if j == y {
        assert SourceRow(top, y, h) == top == SourceRow(j, y + 1, h);
        assert RowOf(p, rb, top) == RowOf(a, rb, top);
      } else if j == top {
        assert SourceRow(y, y, h) == y == SourceRow(j, y + 1, h);
        assert RowOf(p, rb, y) == RowOf(a, rb, y);
      } else {
        assert SourceRow(j, y, h) == SourceRow(j, y + 1, h);
        assert RowOf(p', rb, j) == RowOf(p, rb, j);
      }
    }
  }

  lemma SwapKeepsTail(p: seq<byte>, p1: seq<byte>, p': seq<byte>, rb: nat, h: nat, y: nat)
    requires y < h / 2 && h * rb <= |p| && |p1| == |p| && |p'| == |p|
    requires forall i :: (h - 1 - y) * rb + rb <= i < |p| ==> p1[i] == p[i]
    requires forall i :: y * rb + rb <= i < |p1| ==> p'[i] == p1[i]
    ensures p'[h * rb..] == p[h * rb..]
  {
    RowBound(h - 1 - y, rb, h);
    RowBound(y, rb, h);
  }

  lemma SwapStart(a: seq<byte>, rb: nat, h: nat)
    requires h * rb <= |a|
    ensures SwappedUpTo(a, a, rb, h, 0)
  {
  }

  /** Once half the rows have been swapped, the buffer is the flip. */
  lemma SwapEnd(a: seq<byte>, p: seq<byte>, rb: nat, h: nat)
    requires SwappedUpTo(a, p, rb, h, h / 2)
    ensures IsFlip(a, p, rb, h)
  {
    var y := h / 2;
    assert 2 * y <= h <= 2 * y + 1;
    forall j | 0 <= j < h
      ensures RowOf(p, rb, j) == RowOf(a, rb, h - 1 - j)
    {
      if !(j < y || j >= h - y) {
        assert j == h - 1 - j;
      }
      assert SourceRow(j, y, h) == h - 1 - j;
    }
  }

  /** The row swaps of `FlipVertical`, from the top and bottom inwards. */
  method FlipRows(pixels: seq<byte>, rb: nat, h: nat) returns (p: seq<byte>)
    requires h * rb <= |pixels|
    ensures IsFlip(pixels, p, rb, h)
  {
    p := pixels;
    var y := 0;
    SwapStart(pixels, rb, h);
    while y < h / 2
      invariant 0 <= y <= h / 2
      invariant SwappedUpTo(pixels, p, rb, h, y)
    {
      SwapStep(pixels, p, rb, h, y);
      p, y := SwapRows(p, rb, h, y), y + 1;
    }
    SwapEnd(pixels, p, rb, h);
  }

  /** `FlipVertical`: the row length is `width * bpp`; a negative length or
      a row past the span throws, fewer than two rows leave the span as it
      is, and otherwise the rows are swapped pairwise. */
  method FlipVertical(pixels: seq<byte>, width: int, height: int, bpp: int) returns (r: Option<seq<byte>>)
    ensures r == FlipResult(pixels, width * bpp, height)
  {
    var rowBytes := width * bpp;
    if FlipThrows(|pixels|, rowBytes, height) {
      return None;
    }
    if height < 2 {
      return Some(pixels);
    }
    var p := FlipRows(pixels, rowBytes, height);
    FlippedIsFlip(pixels, rowBytes, height);
    FlipUnique(pixels, p, Flipped(pixels, rowBytes, height), rowBytes, height);
    return Some(p);
  }

  // ---------------------------------------------------------------------
  // Detection entry points

  /** What a synchronous entry point hands to `QrcodeResults.Parse`, and
      what it leaves behind: the native error code, the result list stored
      under the native result handle (empty on an error), whether the
      stride warning was logged, whether the native detect call was
      reached, and the native registries after the result was released. */
  datatype Call = Call(code: Api.ErrorCode, results: seq<Api.QrResult>, warned: bool, nativeCalled: bool, api: Api.Api)

  /** An early `FromErrorCode(ErrorInvalidArgument)`. */
  function Rejected(api: Api.Api, warned: bool): (c: Call)
    ensures c.code == Api.InvalidArgument && c.results == [] && !c.nativeCalled && c.api == api
  {
    Call(Api.InvalidArgument, [], warned, false, api)
  }

  /** After the native call: the results stored under the returned handle
      are handed on, then the handle is released. Whatever the native side
      stored for this call is gone again, so no entry point leaks a result. */
  function Finish(api: Api.Api, d: Api.Detected, warned: bool): (c: Call)
    requires Api.Settled(api, d)
    ensures c.code == d.code && c.nativeCalled && c.warned == warned
    ensures d.code == Api.Ok ==> c.results == d.api.results.entries[d.out.value]
    ensures d.code != Api.Ok ==> c.results == []
    ensures c.api.results.entries == api.results.entries && c.api.detectors == api.detectors
  {
    var list := if d.code == Api.Ok then d.api.results.entries[d.out.value] else [];
    var (_, api') := Api.ReleaseResult(d.api, d.out.value);
    Call(d.code, list, warned, true, api')
  }

  /** The row stride the size check assumes: the given one, or
      `width * GetBpp(format)` when it is not positive. */
  function ExactStride(format: int, width: int, stride: int): (s: int)
    ensures stride > 0 ==> s == stride
    ensures stride <= 0 && Api.FormatConversion(format).Some? ==> s == width * Jni.JniBpp(format)
    ensures stride <= 0 && Api.FormatConversion(format).None? ==> s == 0
  {
    if stride <= 0 then width * GetBpp(format) else stride
  }

  /** The warning: a positive stride shorter than a packed row. */
  predicate StrideWarning(format: int, width: int, stride: int) {
    stride > 0 && stride < width * GetBpp(format)
  }

  /** Whether `DetectAndDecodeInternal` passes the buffer on. */
  predicate UnityAccepts(len: int, format: int, width: int, height: int, stride: int) {
    len > 0 && len >= ExactStride(format, width, stride) * height
  }

  /** `DetectAndDecodeInternal`: an empty buffer or one shorter than
      `height` rows of the exact stride is refused without a native call;
      otherwise the native pixel call gets the caller's stride unchanged. */
  function DetectAndDecodeInternal(api: Api.Api, be: W.Backend, det: H.Handle, bytes: seq<byte>, format: int,
                                   width: int, height: int, stride: int,
                                   convert: (seq<byte>, Api.PixelType, int, int, Option<int>) -> (int, int) -> byte,
                                   fuel: nat): (r: Option<Call>)
    ensures !UnityAccepts(|bytes|, format, width, height, stride) ==>
      r == Some(Rejected(api, |bytes| > 0 && StrideWarning(format, width, stride)))
    ensures r.Some? ==> (r.value.nativeCalled <==> UnityAccepts(|bytes|, format, width, height, stride))
    ensures r.Some? ==> (r.value.warned <==> |bytes| > 0 && StrideWarning(format, width, stride))
    ensures r.Some? ==> r.value.api.results.entries == api.results.entries && r.value.api.detectors == api.detectors
    ensures r.Some? && r.value.code != Api.Ok ==> r.value.results == []
    ensures r.Some? && r.value.nativeCalled && Api.FormatConversion(format).None? ==>
      r.value.code == Api.InvalidArgument
  {
    if |bytes| == 0 then Some(Rejected(api, false))
    else
      var warned := StrideWarning(format, width, stride);
      if |bytes| < ExactStride(format, width, stride) * height then Some(Rejected(api, warned))
      else
        match Api.DetectAndDecodePixels(api, be, det, Some(bytes), format, width, height, stride, true, convert, fuel)
        case None => None
        case Some(d) => Some(Finish(api, d, warned))
  }

  /** `DetectAndDecodeSync(byte[] pixels, ...)`: `pixels` is `None` for a
      null array; a null or empty array is refused before the checks of
      `DetectAndDecodeInternal`, which handle everything else. */
  function DetectAndDecodeSyncPixels(api: Api.Api, be: W.Backend, det: H.Handle, pixels: Option<seq<byte>>,
                                     format: int, width: int, height: int, stride: int,
                                     convert: (seq<byte>, Api.PixelType, int, int, Option<int>) -> (int, int) -> byte,
                                     fuel: nat): (r: Option<Call>)
    ensures pixels.None? || pixels.value == [] ==> r == Some(Rejected(api, false))
    ensures pixels.Some? ==> r == DetectAndDecodeInternal(api, be, det, pixels.value, format, width, height, stride, convert, fuel)
    ensures r.Some? ==> r.value.api.results.entries == api.results.entries && r.value.api.detectors == api.detectors
  {
    if pixels.None? || pixels.value == [] then Some(Rejected(api, false))
    else DetectAndDecodeInternal(api, be, det, pixels.value, format, width, height, stride, convert, fuel)
  }

  /** `DetectAndDecodeSync(byte[] data)`: encoded image bytes; a null or
      empty array is refused before the native call, which is given the
      whole array. */
  function DetectAndDecodeSyncData(api: Api.Api, be: W.Backend, det: H.Handle, data: Option<seq<byte>>,
                                   imdecode: seq<byte> -> Image, fuel: nat): (r: Option<Call>)
    ensures data.None? || data.value == [] ==> r == Some(Rejected(api, false))
    ensures r.Some? ==> (r.value.nativeCalled <==> data.Some? && data.value != [])
    ensures r.Some? ==> r.value.api.results.entries == api.results.entries && r.value.api.detectors == api.detectors
    ensures data.Some? && data.value != [] ==>
      match Api.DetectAndDecodeData(api, be, det, data, |data.value|, true, imdecode, fuel)
      case None => r.None?
      case Some(d) =>
        r.Some? && r.value.code == d.code && (d.code == Api.Ok ==> r.value.results == d.api.results.entries[d.out.value])
  {
    if data.None? || data.value == [] then Some(Rejected(api, false))
    else
      match Api.DetectAndDecodeData(api, be, det, data, |data.value|, true, imdecode, fuel)
      case None => None
      case Some(d) => Some(Finish(api, d, false))
  }

  /** A product of positive factors is positive. */
  lemma PositiveProduct(a: int, b: int)
    requires a > 0 && b > 0
    ensures a * b > 0
  {
  }

  /** For a known format, a positive size and a non-positive stride, the
      Unity size check and the JNI size check ask for the same bytes, and
      that is at least one byte. */
  lemma RequiredAgrees(format: int, width: int, height: int, stride: int)
    requires width > 0 && height > 0
    ensures Jni.JniRequired(format, width, height, stride) > 0
    ensures Api.FormatConversion(format).Some? ==>
      ExactStride(format, width, stride) * height == Jni.JniRequired(format, width, height, stride)
  {
    var s := if stride <= 0 then width * Jni.JniBpp(format) else stride;
    PositiveProduct(width, Jni.JniBpp(format));
    PositiveProduct(s, height);
  }

  /** The Unity binding and the Android binding report the same outcome
      for every pixel buffer: both reach undefined behaviour or neither
      does, the error codes agree, and on success Unity hands on the list
      the JNI result handle names. Where the two size checks differ, the
      native call refuses the buffer itself. */
  lemma UnityAgreesWithJni(api: Api.Api, be: W.Backend, det: H.Handle, bytes: seq<byte>, format: int,
                           width: int, height: int, stride: int,
                           convert: (seq<byte>, Api.PixelType, int, int, Option<int>) -> (int, int) -> byte,
                           fuel: nat)
    ensures var u := DetectAndDecodeInternal(api, be, det, bytes, format, width, height, stride, convert, fuel);
            var j := Jni.DetectAndDecodePixelsJni(api, be, det, bytes, format, width, height, stride, convert, fuel);
            && (u.None? <==> j.None?)
            && (u.Some? ==> u.value.code == j.value.lastError)
            && (u.Some? && u.value.code == Api.Ok ==>
                  j.value.result in j.value.api.results.entries &&
                  u.value.results == j.value.api.results.entries[j.value.result])
  {
    var native := Api.DetectAndDecodePixels(api, be, det, Some(bytes), format, width, height, stride, true, convert, fuel);
    var refused := Some(Api.Detected(Api.InvalidArgument, Some(H.Null), api));
    if width > 0 && height > 0 {
      RequiredAgrees(format, width, height, stride);
      if Api.FormatConversion(format).None? {
        assert native == refused;
      }
    } else {
      assert native == refused;
    }
  }
}
