/** The C API of `core/src/qrcode.cpp`: detector and result handles kept in
    two registries, the detect entry points with their argument checks, and
    the accessors that copy a result out through caller-provided buffers.

    Pointers are modelled by what the caller passes: an out-parameter that
    may be null is a `bool` saying whether it was provided, or an `Option`
    carrying its current value; what the function writes through it is
    returned. `None` as a whole result stands for undefined behaviour. */
module QrcodeApi {
  import opened Common
  import H = HandleRegistry
  import W = WeChatQRCode

  /** `zzt_qrcode_error_t`. */
  datatype ErrorCode = Ok | InvalidHandle | InvalidIndex | BufferTooSmall | DecodeFailed | InvalidArgument | OutOfMemory
  {
    /** The numeric value of the C enumeration. */
    function Value(): (v: int)
      ensures -6 <= v <= 0 && (v == 0 <==> this == Ok)
    {
      match this
      case Ok => 0
      case InvalidHandle => -1
      case InvalidIndex => -2
      case BufferTooSmall => -3
      case DecodeFailed => -4
      case InvalidArgument => -5
      case OutOfMemory => -6
    }
  }

  /** The codes are told apart by their values. */
  lemma ErrorValuesDistinct(a: ErrorCode, b: ErrorCode)
    ensures a.Value() == b.Value() <==> a == b
  {
  }

  /** `QrcodeResult`: a text and its corner points (one row per corner). */
  datatype QrResult = QrResult(text: ByteString, points: Quad)

  /** The two registries behind the opaque handles. */
  datatype Api = Api(detectors: H.Registry<W.Detector>, results: H.Registry<seq<QrResult>>)

  /** No registry ever holds the null handle. */
  ghost predicate NoNull(api: Api) {
    H.Null !in api.detectors.entries && H.Null !in api.results.entries
  }

  // ---------------------------------------------------------------------
  // Creation and release

  /** `zzt_qrcode_create_detector`: a new detector under a fresh handle
      (`None` when `fuel` tries were not enough). */
  function CreateDetector(api: Api, srMaxSize: int, paramLoaded: bool, modelLoaded: bool, fuel: nat): (r: Option<(H.Handle, Api)>)
    ensures r.Some? ==> var (h, api') := r.value;
      && h != H.Null && h !in api.detectors.entries
      && H.Get(api'.detectors, h) == Some(W.Create(srMaxSize, paramLoaded, modelLoaded))
      && api'.results == api.results
      && (NoNull(api) ==> NoNull(api'))
  {
    match H.CreateHandle(api.detectors, W.Create(srMaxSize, paramLoaded, modelLoaded), fuel)
    case None => None
    case Some((h, reg)) => Some((h, api.(detectors := reg)))
  }

  /** `zzt_qrcode_release_detector`. */
  function ReleaseDetector(api: Api, h: H.Handle): (r: (ErrorCode, Api))
    ensures h == H.Null ==> r.0 == InvalidHandle && r.1 == api
    ensures NoNull(api) ==> (r.0 == Ok <==> h in api.detectors.entries)
    ensures r.0 == Ok || r.0 == InvalidHandle
    ensures h != H.Null ==> h !in r.1.detectors.entries
    ensures r.1.results == api.results
    ensures NoNull(api) ==> NoNull(r.1)
  {
    if h == H.Null then (InvalidHandle, api)
    else
      var (ok, reg) := H.ReleaseHandle(api.detectors, h);
      (if ok then Ok else InvalidHandle, api.(detectors := reg))
  }

  /** `zzt_qrcode_release_result`. */
  function ReleaseResult(api: Api, h: H.Handle): (r: (ErrorCode, Api))
    ensures h == H.Null ==> r.0 == InvalidHandle && r.1 == api
    ensures NoNull(api) ==> (r.0 == Ok <==> h in api.results.entries)
    ensures r.0 == Ok || r.0 == InvalidHandle
    ensures h != H.Null ==> r.1.results.entries == api.results.entries - {h}
    ensures r.1.detectors == api.detectors
    ensures NoNull(api) ==> NoNull(r.1)
  {
    if h == H.Null then (InvalidHandle, api)
    else
      var (ok, reg) := H.ReleaseHandle(api.results, h);
      (if ok then Ok else InvalidHandle, api.(results := reg))
  }

  // ---------------------------------------------------------------------
  // Detection entry points

  /** What a detect entry point leaves behind: the code, the value of
      `*out_result` afterwards (`None` when `out_result` is null) and the
      registries. */
  datatype Detected = Detected(code: ErrorCode, out: Option<H.Handle>, api: Api)

  /** The result list: text i with points i. */
  function Pair(texts: seq<ByteString>, points: seq<Quad>): (list: seq<QrResult>)
    requires |texts| <= |points|
    ensures |list| == |texts|
    ensures forall i :: 0 <= i < |texts| ==> list[i] == QrResult(texts[i], points[i])
  {
    seq(|texts|, i requires 0 <= i < |texts| => QrResult(texts[i], points[i]))
  }

  /** How a detect entry point that was given an out pointer leaves the
      registries: on success a fresh non-null handle is the only new entry,
      otherwise nothing changes and the handle written is null. */
  predicate Settled(api: Api, d: Detected) {
    && d.out.Some?
    && if d.code == Ok then
         && d.out.value != H.Null && d.out.value !in api.results.entries && d.out.value in d.api.results.entries
         && d.api.detectors == api.detectors
         && d.api.results.entries - {d.out.value} == api.results.entries
       else
         d.out.value == H.Null && d.api == api
  }

  /** `qrcode_detect_and_decode_internal` on a grey image. */
  function DetectAndDecodeInternal(api: Api, be: W.Backend, det: H.Handle, img: Image,
                                   outProvided: bool, fuel: nat): (r: Option<Detected>)
    ensures !outProvided ==> r == Some(Detected(InvalidArgument, None, api))
    ensures outProvided && r.Some? ==> r.value.out.Some? && (r.value.code != Ok ==> r.value.out.value == H.Null)
    ensures outProvided && r.Some? ==> Settled(api, r.value)
    ensures outProvided && det !in api.detectors.entries ==> r == Some(Detected(InvalidHandle, Some(H.Null), api))
    ensures outProvided && det in api.detectors.entries && img.Empty() ==>
      r == Some(Detected(DecodeFailed, Some(H.Null), api))
    ensures r.Some? && r.value.code != Ok ==> r.value.api == api
    ensures r.Some? && r.value.code == Ok ==>
      && outProvided && det in api.detectors.entries && !img.Empty()
      && r.value.out.Some? && r.value.out.value != H.Null && r.value.out.value !in api.results.entries
      && r.value.api.detectors == api.detectors
      && (NoNull(api) ==> NoNull(r.value.api))
  {
    if !outProvided then Some(Detected(InvalidArgument, None, api))
    else
      match H.Get(api.detectors, det)
      case None => Some(Detected(InvalidHandle, Some(H.Null), api))
      case Some(d) =>
        if img.Empty() then Some(Detected(DecodeFailed, Some(H.Null), api))
        else
          match W.DetectAndDecode(d, be, img)
          case None => None
          case Some((texts, points)) =>
            if |points| < |texts| then None
            else
              match H.CreateHandle(api.results, Pair(texts, points), fuel)
              case None => None
              case Some((h, reg)) => Some(Detected(Ok, Some(h), api.(results := reg)))
  }

  /** A successful detection stores text i of the pipeline together with
      its points i under the new handle. With a decoder that reports one
      corner list per text, the only failures left are those of the pipeline
      itself or of the handle supply. The pairing is by index: with the
      duplicate filter as written, text i need not be the text decoded with
      points i (`Dedup.DuplicateErasesEarlierText`). */
  lemma InternalStoresPairs(api: Api, be: W.Backend, det: H.Handle, img: Image, fuel: nat)
    requires W.DecoderKeepsCounts(be)
    requires det in api.detectors.entries && !img.Empty()
    requires W.DetectAndDecode(api.detectors.entries[det], be, img).Some?
    ensures var r := DetectAndDecodeInternal(api, be, det, img, true, fuel);
            var (texts, points) := W.DetectAndDecode(api.detectors.entries[det], be, img).value;
            && |texts| == |points|
            && (r.None? <==> H.CreateHandle(api.results, Pair(texts, points), fuel).None?)
            && (r.Some? ==> r.value.code == Ok && H.Get(r.value.api.results, r.value.out.value) == Some(Pair(texts, points)))
  {
    W.DetectAndDecodeKeepsCounts(api.detectors.entries[det], be, img);
  }

  /** `zzt_qrcode_detect_and_decode_data`: `data` is `None` for a null
      pointer; `imdecode` is the image codec. */
  function DetectAndDecodeData(api: Api, be: W.Backend, det: H.Handle, data: Option<seq<byte>>, dataLen: int,
                               outProvided: bool, imdecode: seq<byte> -> Image, fuel: nat): (r: Option<Detected>)
    ensures !outProvided ==> r == Some(Detected(InvalidArgument, None, api))
    ensures outProvided && r.Some? ==> r.value.out.Some? && (r.value.code != Ok ==> r.value.out.value == H.Null)
    ensures outProvided && r.Some? ==> Settled(api, r.value)
    ensures outProvided && (data.None? || dataLen <= 0) ==> r == Some(Detected(InvalidArgument, Some(H.Null), api))
    ensures outProvided && data.Some? && 0 < dataLen <= |data.value| ==>
      r == DetectAndDecodeInternal(api, be, det, imdecode(data.value[..dataLen]), true, fuel)
  {
    if !outProvided then Some(Detected(InvalidArgument, None, api))
    else if data.None? || dataLen <= 0 then Some(Detected(InvalidArgument, Some(H.Null), api))
    else if dataLen > |data.value| then None
    else DetectAndDecodeInternal(api, be, det, imdecode(data.value[..dataLen]), true, fuel)
  }

  /** `zzt_qrcode_detect_and_decode_path_u8` and `_u16`: `path` is `None`
      for a null pointer, `contents` is what reading the file gave (`None`
      when it could not be opened). */
  function DetectAndDecodePath(api: Api, be: W.Backend, det: H.Handle, path: Option<string>, contents: Option<seq<byte>>,
                               outProvided: bool, imdecode: seq<byte> -> Image, fuel: nat): (r: Option<Detected>)
    ensures !outProvided ==> r == Some(Detected(InvalidArgument, None, api))
    ensures outProvided && r.Some? ==> r.value.out.Some? && (r.value.code != Ok ==> r.value.out.value == H.Null)
    ensures outProvided && r.Some? ==> Settled(api, r.value)
    ensures outProvided && path.None? ==> r == Some(Detected(InvalidArgument, Some(H.Null), api))
    ensures outProvided && path.Some? && contents.None? ==> r == Some(Detected(DecodeFailed, Some(H.Null), api))
  {
    if !outProvided then Some(Detected(InvalidArgument, None, api))
    else if path.None? then Some(Detected(InvalidArgument, Some(H.Null), api))
    else if contents.None? then Some(Detected(DecodeFailed, Some(H.Null), api))
    else DetectAndDecodeInternal(api, be, det, imdecode(contents.value), true, fuel)
  }

  /** ncnn's conversions to grey used by the pixel entry point. */
  datatype PixelType = Gray | Rgb2Gray | Bgr2Gray | Rgba2Gray | Bgra2Gray

  /** The `switch` on `zzt_qrcode_pixel_format_t`: the conversion and the
      byte offset at which reading starts. */
  function FormatConversion(format: int): (r: Option<(PixelType, nat)>)
    ensures r.Some? <==> 0 <= format <= 6
    ensures r.Some? ==> (r.value.1 == 1 <==> format == 5 || format == 6) && r.value.1 <= 1
    ensures format == 5 ==> r == Some((Rgba2Gray, 1))
    ensures format == 6 ==> r == Some((Bgra2Gray, 1))
  {
    if format == 0 then Some((Gray, 0))
    else if format == 1 then Some((Rgb2Gray, 0))
    else if format == 2 then Some((Bgr2Gray, 0))
    else if format == 3 then Some((Rgba2Gray, 0))
    else if format == 4 then Some((Bgra2Gray, 0))
    else if format == 5 then Some((Rgba2Gray, 1))
    else if format == 6 then Some((Bgra2Gray, 1))
    else None
  }

  /** ARGB and ABGR are read as RGBA and BGRA one byte further on: the same
      conversion as the formats with alpha last, shifted by one. */
  lemma AlphaFirstIsShiftedAlphaLast()
    ensures FormatConversion(5).value == (FormatConversion(3).value.0, FormatConversion(3).value.1 + 1)
    ensures FormatConversion(6).value == (FormatConversion(4).value.0, FormatConversion(4).value.1 + 1)
  {
  }

  /** The grey image `img.create(height, width)` filled by the conversion. */
  function GrayImage(width: int, height: int, px: (int, int) -> byte): (img: Image)
    requires width >= 1 && height >= 1
    ensures img.rows == height && img.cols == width && !img.Empty()
    ensures forall i, j :: 0 <= i < height && 0 <= j < width ==> img.px[i][j] == px(i, j) as int
  {
    RawImage(height, width, seq(height, i requires 0 <= i < height =>
      seq(width, j requires 0 <= j < width => px(i, j) as int)))
  }

  /** `zzt_qrcode_detect_and_decode_pixels`. `convert` is ncnn's
      `from_pixels` followed by `to_pixels`: it maps the bytes from the start
      offset, the conversion, the size and the stride (`None` when not
      positive) to the grey pixel at each row and column. */
  function DetectAndDecodePixels(api: Api, be: W.Backend, det: H.Handle, pixels: Option<seq<byte>>, format: int,
                                 width: int, height: int, stride: int, outProvided: bool,
                                 convert: (seq<byte>, PixelType, int, int, Option<int>) -> (int, int) -> byte,
                                 fuel: nat): (r: Option<Detected>)
    ensures !outProvided ==> r == Some(Detected(InvalidArgument, None, api))
    ensures outProvided && r.Some? ==> r.value.out.Some? && (r.value.code != Ok ==> r.value.out.value == H.Null)
    ensures outProvided && r.Some? ==> Settled(api, r.value)
    ensures outProvided && (pixels.None? || width <= 0 || height <= 0) ==>
      r == Some(Detected(InvalidArgument, Some(H.Null), api))
    ensures outProvided && pixels.Some? && width > 0 && height > 0 && FormatConversion(format).None? ==>
      r == Some(Detected(InvalidArgument, Some(H.Null), api))
    ensures r.Some? ==> r.value.code != DecodeFailed
  {
    if !outProvided then Some(Detected(InvalidArgument, None, api))
    else if pixels.None? || width <= 0 || height <= 0 then Some(Detected(InvalidArgument, Some(H.Null), api))
    else
      match FormatConversion(format)
      case None => Some(Detected(InvalidArgument, Some(H.Null), api))
      case Some((t, offset)) =>
        if offset > |pixels.value| then None
        else
          var px := convert(pixels.value[offset..], t, width, height, if stride > 0 then Some(stride) else None);
          DetectAndDecodeInternal(api, be, det, GrayImage(width, height, px), true, fuel)
  }

  // ---------------------------------------------------------------------
  // Result accessors

  /** `zzt_qrcode_get_result_size`: the list length, or 0 with an error for
      an unknown handle. `sizeProvided` says whether `size` is non-null; the
      second component is what is written through it. */
  function GetResultSize(api: Api, h: H.Handle, sizeProvided: bool): (r: (ErrorCode, Option<int>))
    ensures h !in api.results.entries ==> r == (InvalidHandle, if sizeProvided then Some(0) else None)
    ensures h in api.results.entries ==>
      r == (Ok, if sizeProvided then Some(|api.results.entries[h]|) else None)
  {
    match H.Get(api.results, h)
    case None => (InvalidHandle, if sizeProvided then Some(0) else None)
    case Some(list) => (Ok, if sizeProvided then Some(|list|) else None)
  }

  /** What a text or points accessor leaves behind: the code, the new value
      of `*buffer_size` (`None` when the pointer is null) and what was
      written into the output buffer (`None` when nothing was). */
  datatype Copied<T> = Copied(code: ErrorCode, size: Option<int>, written: Option<seq<T>>)


  /** `zzt_qrcode_get_result_text`. `outProvided` says whether `output_text`
      is non-null; `bufferSize` is `*buffer_size`, `None` for a null pointer. */
  function GetResultText(api: Api, h: H.Handle, index: int, outProvided: bool, bufferSize: Option<int>): (r: Copied<byte>)
    ensures h !in api.results.entries ==>
      r == Copied(InvalidHandle, if bufferSize.Some? then Some(0) else None, None)
    ensures h in api.results.entries && !(0 <= index < |api.results.entries[h]|) ==>
      r == Copied(InvalidIndex, if bufferSize.Some? then Some(0) else None, None)
    ensures r.code == Ok ==> (
      && h in api.results.entries && 0 <= index < |api.results.entries[h]|
      && var text := api.results.entries[h][index].text;
      && (bufferSize.Some? ==> r.size == Some(|text| + 1))
      && (outProvided ==> r.written == Some(text + [0]))
      && (!outProvided ==> r.written == None))
    ensures r.code == BufferTooSmall ==> r.written == None && outProvided
  {
    match H.Get(api.results, h)
    case None => Copied(InvalidHandle, if bufferSize.Some? then Some(0) else None, None)
    case Some(list) =>
      if index < 0 || index >= |list| then Copied(InvalidIndex, if bufferSize.Some? then Some(0) else None, None)
      else
        var text := list[index].text;
        var required := if bufferSize.Some? then Some(|text| + 1) else None;
        if outProvided then
          var provided := if bufferSize.Some? then bufferSize.value else 0;
          if provided <= |text| then Copied(BufferTooSmall, required, None)
          else Copied(Ok, required, Some(text + [0]))
        else
          Copied(Ok, required, None)
  }

  /** The two-phase protocol for text: asking with a null buffer reports the
      size that then suffices, and every smaller size is refused with that
      same size and nothing written. */
  lemma TextTwoPhase(api: Api, h: H.Handle, index: int, anySize: int, smaller: int)
    requires GetResultText(api, h, index, false, Some(anySize)).code == Ok
    ensures var n := GetResultText(api, h, index, false, Some(anySize)).size.value;
            var text := api.results.entries[h][index].text;
            && n == |text| + 1
            && GetResultText(api, h, index, true, Some(n)) == Copied(Ok, Some(n), Some(text + [0]))
            && (smaller < n ==> GetResultText(api, h, index, true, Some(smaller)) == Copied(BufferTooSmall, Some(n), None))
  {
  }

  /** The points of a result, x and y of each corner in turn. */
  function Interleave(pts: Quad): (flat: seq<real>)
    ensures |flat| == 2 * |pts|
    ensures forall i :: 0 <= i < |pts| ==> flat[2 * i] == pts[i].x && flat[2 * i + 1] == pts[i].y
  {
    if pts == [] then [] else [pts[0].x, pts[0].y] + Interleave(pts[1..])
  }

  /** Reading the buffer back in pairs gives the corners again. */
  function Deinterleave(flat: seq<real>): (pts: Quad)
    requires |flat| % 2 == 0
    ensures |pts| == |flat| / 2
  {
    seq(|flat| / 2, i requires 0 <= i < |flat| / 2 => Point(flat[2 * i], flat[2 * i + 1]))
  }

  lemma DeinterleaveInterleave(pts: Quad)
    ensures Deinterleave(Interleave(pts)) == pts
  {
    var flat := Interleave(pts);
    assert |flat| / 2 == |pts|;
    forall i | 0 <= i < |pts|
      ensures Deinterleave(flat)[i] == pts[i]
    {
    }
  }

  /** `zzt_qrcode_get_result_points`: `2 * rows` floats are required. Unlike
      the text accessor, an unknown handle or index leaves `*buffer_size`
      alone. */
  function GetResultPoints(api: Api, h: H.Handle, index: int, outProvided: bool, bufferSize: Option<int>): (r: Copied<real>)
    ensures h !in api.results.entries ==> r == Copied(InvalidHandle, bufferSize, None)
    ensures h in api.results.entries && !(0 <= index < |api.results.entries[h]|) ==>
      r == Copied(InvalidIndex, bufferSize, None)
    ensures r.code == Ok ==> (
      && h in api.results.entries && 0 <= index < |api.results.entries[h]|
      && var pts := api.results.entries[h][index].points;
      && (bufferSize.Some? ==> r.size == Some(2 * |pts|))
      && (outProvided ==> r.written.Some? && |r.written.value| % 2 == 0 && Deinterleave(r.written.value) == pts)
      && (!outProvided ==> r.written == None))
    ensures r.code == BufferTooSmall ==> r.written == None && outProvided
  {
    match H.Get(api.results, h)
    case None => Copied(InvalidHandle, bufferSize, None)
    case Some(list) =>
      if index < 0 || index >= |list| then Copied(InvalidIndex, bufferSize, None)
      else
        var pts := list[index].points;
        var required := 2 * |pts|;
        var size := if bufferSize.Some? then Some(required) else None;
        if outProvided then
          var provided := if bufferSize.Some? then bufferSize.value else 0;
          if provided < required then Copied(BufferTooSmall, size, None)
          else
            DeinterleaveInterleave(pts);
            Copied(Ok, size, Some(Interleave(pts)))
        else
          Copied(Ok, size, None)
  }

  /** The two-phase protocol for points. */
  lemma PointsTwoPhase(api: Api, h: H.Handle, index: int, anySize: int, smaller: int)
    requires GetResultPoints(api, h, index, false, Some(anySize)).code == Ok
    ensures var n := GetResultPoints(api, h, index, false, Some(anySize)).size.value;
            var pts := api.results.entries[h][index].points;
            && n == 2 * |pts|
            && GetResultPoints(api, h, index, true, Some(n)) == Copied(Ok, Some(n), Some(Interleave(pts)))
            && (smaller < n ==> GetResultPoints(api, h, index, true, Some(smaller)) == Copied(BufferTooSmall, Some(n), None))
  {
  }

  /** The indices the accessors accept are exactly those below the size
      `get_result_size` reports. */
  lemma SizeBoundsIndices(api: Api, h: H.Handle, index: int)
    requires GetResultSize(api, h, true).0 == Ok
    ensures var n := GetResultSize(api, h, true).1.value;
            && (GetResultText(api, h, index, false, Some(0)).code == Ok <==> 0 <= index < n)
            && (GetResultPoints(api, h, index, false, Some(0)).code == Ok <==> 0 <= index < n)
  {
  }
}
