# wechat-qrcode-ncnn, modelled in Dafny

This project models the bookkeeping core of wechat-qrcode-ncnn, a QR-code
detector and decoder built on ncnn. The model covers:

- The detection pipeline of `WeChatQRCode`:
  - the small-image guard;
  - the scale-factor setting;
  - the scale list;
  - the full-image fallback candidate;
  - the per-candidate, per-scale retry loop;
  - the duplicate filter.
- The aligner's crop arithmetic and its inverse point mapping.
- The post-processing of the SSD region detector.
- The dispatch of the super-resolution scaler.
- The adaptive binariser: block size, edge-replicating convolution, threshold and row-flip conversions.
- The C API: handles, detection entry points, error codes and the two-phase result accessors.
- The handle registry with its scrambled 64-bit keys.
- The UTF-8 to UTF-16 decoder of the Android JNI glue and its size check.
- The input checks of the Unity front end: bytes per pixel, vertical flip, stride and size validation.

The model is made of pure functions over immutable datatypes. Three loops
are written as methods with loop invariants, each proved equal to a
functional reference:

- `FlipVertical`;
- `TransBufferToMat` and `TransMatToBuffer`;
- `utf8_to_utf16`.

Code whose source is not part of this model appears as function-valued
parameters:

- the neural networks;
- the resize kernels;
- `DecoderMgr::decodeImage`;
- `sqrt`;
- `cv::imdecode`;
- ncnn's pixel conversion;
- the Gaussian kernel weights.

Result texts are the bytes of the `std::string` the decoder produced
(`Common.ByteString`), so sizes count bytes as the C API does.

Float arithmetic is modelled with `real`. C float-to-int casts truncate toward zero (`Common.Trunc`).

`None` as an outcome stands for behaviour the source does not define:

- in C++: an `erase` past the end of a vector, a corner read past the end of a list in the duplicate filter, a region outside the image, `data_len` beyond the buffer, a pixel offset past the buffer, and fewer corner lists than texts when the results are paired;
- in C#: the exception a negative row length raises in Unity's `FlipVertical`.

It also stands for `HandleRegistry.CreateHandle` running out of `fuel`.

Modules, one per source component:

- `Common`: points, images, `Option` and truncation.
- `Grid`: row-major buffers.
- `WeChatQRCode`: the orchestrator.
- `Dedup`: its duplicate filter, as written and corrected.
- `Align`.
- `SsdDetector`.
- `SuperScale`.
- `Binarizer`.
- `HandleRegistry`.
- `QrcodeApi`.
- `Jni`.
- `UnityDetector`.

Three facts about the code that the model depends on:

- Duplicate test. The inner loop of `Impl::decode` compares every corner of an admitted list until one is far apart, and the verdict for the newest admitted list overwrites the verdicts for the earlier ones. The code therefore declares a duplicate exactly when every corner of the most recently admitted list is close (`Dedup.VerdictIsLastList`); the first corner alone does not decide.
- Failed block size. When no usable block size exists, the adaptive binariser returns -1 without a matrix and does not fall back to the global method (`Binarizer.BinarizeImage`).
- Bit convention. The adaptive binariser stores 0 for intermediate values above 120. Such a value is 255, which means the pixel is brighter than its blurred neighbourhood less the bias. So bit 0 is a light (background) pixel and bit 1 is a dark module (`Binarizer.AdaptiveBitMeaning`).

## Model

| member | source | states |
|---|---|---|
| `WeChatQRCode.Create` | core/src/wechat_qrcode/src/wechat_qrcode.cpp:48-67 | a new detector has both networks switched on and the automatic factor -1, and its super-resolution net counts as loaded whatever the two load calls returned |
| `WeChatQRCode.SetScaleFactor` | core/src/wechat_qrcode/src/wechat_qrcode.cpp:96-101 | the stored factor is always -1 or in (0, 1], and nothing else in the detector changes |
| `WeChatQRCode.ScaleFactorRoundTrip` | core/src/wechat_qrcode/src/wechat_qrcode.cpp:96-105 | reading back a factor just set returns it exactly when it is -1 or in (0, 1]; any other value reads back as -1 |
| `WeChatQRCode.ScaleList` | core/src/wechat_qrcode/src/wechat_qrcode.cpp:226-230 | two or three positive scales, always including 1.0 and 0.5; 2.0 is tried (and there are three scales) iff a side is below 320; 0.5 comes first iff both sides are at least 320 and one is at least 640 |
| `WeChatQRCode.FullImageQuad` | core/src/wechat_qrcode/src/wechat_qrcode.cpp:186-197 | the fallback candidate has four corners on the image grid forming an axis-aligned rectangle, clockwise from the origin |
| `WeChatQRCode.Detect` | core/src/wechat_qrcode/src/wechat_qrcode.cpp:179-200 | without the neural detector there is exactly one candidate, the whole image; every candidate has four corners inside the image |
| `WeChatQRCode.DetectorSizeBounded` | core/src/wechat_qrcode/src/wechat_qrcode.cpp:202-212 | the detector's input size never exceeds the image in either dimension, for a stored factor and for the automatic one |
| `WeChatQRCode.AutomaticSizeMeetsTarget` | core/src/wechat_qrcode/src/wechat_qrcode.cpp:206-210 | with the automatic factor the detector sees at most 400 x 400 pixels |
| `WeChatQRCode.RestoreUndoesScale` | core/src/wechat_qrcode/src/wechat_qrcode.cpp:132-141 | dividing by the scale undoes the scaling that produced the decoder's image, so a restored corner is the aligner's warp of the corner in the cropped frame |
| `WeChatQRCode.StopsAtFirstSuccess` | core/src/wechat_qrcode/src/wechat_qrcode.cpp:124-172 | the scale loop ends at the first attempt with status 0; the scales after it have no effect |
| `WeChatQRCode.AllScalesFail` | core/src/wechat_qrcode/src/wechat_qrcode.cpp:124-173 | when every scale fails, the points are untouched and the results have gained every attempt's texts, in order |
| `WeChatQRCode.Prepare` | core/src/wechat_qrcode/src/wechat_qrcode.cpp:114-121 | without the neural detector a candidate works on the whole image with a fresh aligner; with it, a defined crop (at least three corners) carries the aligner of the crop with 10% padding and at least 15 pixels |
| `WeChatQRCode.Decode` | core/src/wechat_qrcode/src/wechat_qrcode.cpp:107-112 | no candidates give no results and no points |
| `WeChatQRCode.DetectAndDecode` | core/src/wechat_qrcode/src/wechat_qrcode.cpp:69-72 | an image with a side of 20 pixels or less yields nothing; any other goes through detection and decoding with the duplicate filter as written |
| `WeChatQRCode.DetectAndDecodeCorrected` | core/src/wechat_qrcode/src/wechat_qrcode.cpp:69-72 | the same pipeline with the corrected duplicate filter of the Findings below |
| `WeChatQRCode.AttemptKeepsCounts` | core/src/wechat_qrcode/src/wechat_qrcode.cpp:148-169 | a defined attempt of the filter as written starting from equal counts ends with as many texts as corner lists |
| `WeChatQRCode.TryScalesKeepsCounts` | core/src/wechat_qrcode/src/wechat_qrcode.cpp:124-172 | with a decoder that returns one corner list per text, the scale loop keeps texts and corner lists equal in number |
| `WeChatQRCode.DecodeFromKeepsCounts` | core/src/wechat_qrcode/src/wechat_qrcode.cpp:113-174 | the same across the candidate loop |
| `WeChatQRCode.DetectAndDecodeKeepsCounts` | core/src/wechat_qrcode/src/wechat_qrcode.cpp:69-94 | whenever its behaviour is defined, the pipeline as written returns as many corner lists as texts, so pairing text i with points i stays in bounds |
| `WeChatQRCode.DetectAndDecodeCorrectedKeepsCounts` | core/src/wechat_qrcode/src/wechat_qrcode.cpp:69-94 | the corrected pipeline returns as many corner lists as texts too |
| `Dedup.CornerVerdict` | core/src/wechat_qrcode/src/wechat_qrcode.cpp:152-161 | the inner corner loop ends with "every remaining corner is within 10 in x and y", or with the incoming verdict when no corner is left |
| `Dedup.VerdictIsLastList` | core/src/wechat_qrcode/src/wechat_qrcode.cpp:149-162 | the duplicate verdict as written depends on the most recently admitted corner list alone |
| `Dedup.AttemptFrom` | core/src/wechat_qrcode/src/wechat_qrcode.cpp:132-170 | each corner list either grows the output points and the check list together or removes exactly one result text |
| `Dedup.DuplicateOfAny` | core/src/wechat_qrcode/src/wechat_qrcode.cpp:148-162 | corrected verdict: a duplicate iff some admitted list has all its corners within 10 of the new one |
| `Dedup.AttemptPaired` | core/src/wechat_qrcode/src/wechat_qrcode.cpp:148-169 | the corrected filter keeps texts and corner lists equal in number |
| `Dedup.AttemptPairedKeepsPairs` | core/src/wechat_qrcode/src/wechat_qrcode.cpp:163-169 | the corrected filter selects texts and corner lists by the same admission decisions, so text i still belongs to corner list i |
| `Dedup.AttemptPairedAdmitsNoDuplicates` | core/src/wechat_qrcode/src/wechat_qrcode.cpp:148-166 | the corrected filter never admits a list that duplicates one already admitted |
| `Dedup.DuplicateOfEarlierListSlipsThrough` | core/src/wechat_qrcode/src/wechat_qrcode.cpp:150-162 | as written, a duplicate of the first admitted list is kept once an unrelated list was admitted after it |
| `Dedup.CorrectedDropsEarlierDuplicate` | core/src/wechat_qrcode/src/wechat_qrcode.cpp:150-162 | the corrected filter drops that duplicate together with its text |
| `Dedup.DuplicateErasesEarlierText` | core/src/wechat_qrcode/src/wechat_qrcode.cpp:168 | as written, a duplicate in a second candidate erases the first candidate's text, leaving its points paired with another text |
| `Dedup.CorrectedErasesOwnText` | core/src/wechat_qrcode/src/wechat_qrcode.cpp:168 | the corrected filter erases the duplicate's own text |
| `Dedup.RepeatedDuplicateErasesPastTheEnd` | core/src/wechat_qrcode/src/wechat_qrcode.cpp:168 | as written, three copies of one code in an attempt erase past the end of the result list |
| `Dedup.CorrectedKeepsFirstCopy` | core/src/wechat_qrcode/src/wechat_qrcode.cpp:168 | the corrected filter keeps the first copy with its text |
| `Align.NewAligner` | core/src/wechat_qrcode/src/detector/align.cpp:31 | a new aligner does not rotate |
| `Align.SetRotate90` | core/src/wechat_qrcode/src/detector/align.hpp:25 | sets the rotation flag and keeps the crop origin |
| `Align.WarpBack` | core/src/wechat_qrcode/src/detector/align.cpp:33-41 | one output point per input point, each mapped on its own |
| `Align.WarpBackInvertsCrop` | core/src/wechat_qrcode/src/detector/align.cpp:33-41 | `warpBack` and the frame change of `crop` are inverse to each other in both orders |
| `Align.WarpBackTranslates` | core/src/wechat_qrcode/src/detector/align.cpp:36-37 | without rotation (x, y) goes to (x + crop_x, y + crop_y); with rotation to (y + crop_x, x + crop_y) |
| `Align.Padding` | core/src/wechat_qrcode/src/detector/align.cpp:53-54 | the padding is never below the minimum padding |
| `Align.DefaultPadding` | core/src/wechat_qrcode/src/detector/align.cpp:53-54 | with 10% and at least 15 pixels, the padding is max(extent / 10, 15) |
| `Align.EvenFloor` | core/src/wechat_qrcode/src/detector/align.cpp:61 | `n & -2` is the largest even number not above n |
| `Align.EndX` | core/src/wechat_qrcode/src/detector/align.cpp:58 | the crop's last column is never past the image |
| `Align.EndY` | core/src/wechat_qrcode/src/detector/align.cpp:59 | the crop's last row is never past the image |
| `Align.CropRoi` | core/src/wechat_qrcode/src/detector/align.cpp:45-61 | the origin is non-negative and not right of or below the first corner, the sizes are even, and each region ends within one pixel before the clamped end; sizes are non-negative iff origin <= end + 1 |
| `Align.CropRoiFits` | core/src/wechat_qrcode/src/detector/align.cpp:56-63 | a region with non-negative sizes lies inside the image |
| `Align.OrderedCandidateFits` | core/src/wechat_qrcode/src/detector/align.cpp:43-63 | a candidate whose diagonal corners are ordered and inside the image gives a region inside the image |
| `Align.Roi` | core/src/wechat_qrcode/src/detector/align.cpp:63 | the cut-out has the region's size and pixel (r, c) is image pixel (y + r, x + c) |
| `Align.Transpose` | core/src/wechat_qrcode/src/detector/align.cpp:15-28 | the dimensions swap and dst[j][i] = src[i][j] |
| `Align.TransposeTwice` | core/src/wechat_qrcode/src/detector/align.cpp:15-28 | transposing twice gives the image back |
| `Align.Crop` | core/src/wechat_qrcode/src/detector/align.cpp:43-66 | the aligner records the region's origin and keeps its flag; an image comes back iff the region is inside, with the region's size, swapped when rotating |
| `Align.FreshAlignerDoesNotTranspose` | core/src/wechat_qrcode/src/detector/align.cpp:31-64 | a fresh aligner returns the region itself |
| `Align.WarpBackFindsCroppedPixel` | core/src/wechat_qrcode/src/detector/align.cpp:33-64 | `warpBack` of cropped pixel (r, c) names the image pixel that `crop` copied there, with or without transposition |
| `SsdDetector.Scale` | core/src/wechat_qrcode/src/detector/ssd_detector.cpp:45-48 | a scaled coordinate is clamped to [0, dim - 1] |
| `SsdDetector.RowQuad` | core/src/wechat_qrcode/src/detector/ssd_detector.cpp:44-57 | an accepted row gives four corners of an axis-aligned rectangle inside the image |
| `SsdDetector.PostProcess` | core/src/wechat_qrcode/src/detector/ssd_detector.cpp:40-61 | one candidate per accepted row, each with four corners inside the image |
| `SsdDetector.PostProcessAppend` | core/src/wechat_qrcode/src/detector/ssd_detector.cpp:41-60 | candidates keep the order of the rows |
| `SsdDetector.PostProcessSingle` | core/src/wechat_qrcode/src/detector/ssd_detector.cpp:43-58 | a row yields a candidate iff its class is 1 and its score exceeds 1e-5 |
| `SsdDetector.PostProcessFromRows` | core/src/wechat_qrcode/src/detector/ssd_detector.cpp:41-60 | every candidate is the rectangle of some accepted row |
| `SsdDetector.Forward` | core/src/wechat_qrcode/src/detector/ssd_detector.cpp:25-62 | never more candidates than output rows, all inside the image |
| `SsdDetector.OrderedRowsGiveOrderedQuads` | core/src/wechat_qrcode/src/detector/ssd_detector.cpp:45-57 | rows with ordered corners give candidates whose corner 0 is above and left of corner 2 |
| `SuperScale.Init` | core/src/wechat_qrcode/src/scale/super_scale.cpp:19-25 | the net counts as loaded and 0 is returned whatever the loads did |
| `SuperScale.FloorSqrt` | core/src/wechat_qrcode/src/scale/super_scale.cpp:40 | the integer square root rounded down |
| `SuperScale.FloorSqrtBelow` | core/src/wechat_qrcode/src/scale/super_scale.cpp:40 | `(int)sqrt(n) < t` iff t > 0 and n < t * t |
| `SuperScale.Quantize` | core/src/wechat_qrcode/src/scale/super_scale.cpp:76-77 | an output pixel is in [0, 255], 0 for non-positive values and 255 from 1.0 up |
| `SuperScale.TensorPixel` | core/src/wechat_qrcode/src/scale/super_scale.cpp:73-78 | pixel (r, c) is the quantised value at row-major position r * w + c |
| `SuperScale.TensorImage` | core/src/wechat_qrcode/src/scale/super_scale.cpp:71-79 | the image has the tensor's shape and every pixel is its quantised value |
| `SuperScale.SuperResolutionScale` | core/src/wechat_qrcode/src/scale/super_scale.cpp:60-82 | always reports 0 and returns an image of the network's output shape |
| `SuperScale.ProcessImageScale` | core/src/wechat_qrcode/src/scale/super_scale.cpp:27-58 | scale 1 and unsupported upscales return the source; scale 2 uses the network when eligible and bicubic to twice each side otherwise; scales below 1 resize bilinearly to the truncated target |
| `SuperScale.SrPathCondition` | core/src/wechat_qrcode/src/scale/super_scale.cpp:38-43 | the neural path runs at scale 2 iff it is requested, the net is loaded, sr_max_size is positive and width * height < sr_max_size squared |
| `SuperScale.HalfScaleSize` | core/src/wechat_qrcode/src/scale/super_scale.cpp:34-55 | scale 0.5 gives the integer half of each side |
| `Binarizer.KernelSize` | core/src/wechat_qrcode/src/zxing/common/binarizer/adaptive_threshold_mean_binarizer.cpp:160-161 | for a width of at least 10 the block size is odd, at least 1, and at most width / 10, within 2 of it |
| `Binarizer.KernelSizeFailsBelowThirty` | core/src/wechat_qrcode/src/zxing/common/binarizer/adaptive_threshold_mean_binarizer.cpp:149-162 | above the 25-pixel threshold the block-size check passes iff the width is at least 30 |
| `Binarizer.Padded` | core/src/wechat_qrcode/src/zxing/common/binarizer/adaptive_threshold_mean_binarizer.cpp:40-51 | the padded signal replicates the first and last samples `padding` times at each end |
| `Binarizer.ConvolveWindow` | core/src/wechat_qrcode/src/zxing/common/binarizer/adaptive_threshold_mean_binarizer.cpp:39-62 | output i is the sum over kernel taps j of weight j times the sample at clamp(i + j - k/2, 0, n - 1): the edge samples are replicated, not zero |
| `Binarizer.ConvolveConstant` | core/src/wechat_qrcode/src/zxing/common/binarizer/adaptive_threshold_mean_binarizer.cpp:39-62 | a kernel summing to 1 leaves a constant signal unchanged |
| `Binarizer.BlurConstant` | core/src/wechat_qrcode/src/zxing/common/binarizer/adaptive_threshold_mean_binarizer.cpp:65-93 | the row-then-column blur leaves a constant image unchanged |
| `Binarizer.AdaptiveThreshold` | core/src/wechat_qrcode/src/zxing/common/binarizer/adaptive_threshold_mean_binarizer.cpp:96-116 | every output pixel is 255 iff the pixel exceeds its blurred value minus the bias, else 0 |
| `Binarizer.UniformThreshold` | core/src/wechat_qrcode/src/zxing/common/binarizer/adaptive_threshold_mean_binarizer.cpp:105-112 | a uniform image thresholds to 255 everywhere |
| `Binarizer.BufferToMatPixel` | core/src/wechat_qrcode/src/zxing/common/binarizer/adaptive_threshold_mean_binarizer.cpp:174-182 | matrix pixel (j, z) is buffer byte (h - 1 - j) * w + z: the matrix holds the buffer's rows in reverse order |
| `Binarizer.TransBufferToMat` | core/src/wechat_qrcode/src/zxing/common/binarizer/adaptive_threshold_mean_binarizer.cpp:174-182 | the loop builds matrix row j from buffer row h - 1 - j |
| `Binarizer.RowBits` | core/src/wechat_qrcode/src/zxing/common/binarizer/adaptive_threshold_mean_binarizer.cpp:191-198 | each bit is 0 for a value above 120 and 1 otherwise |
| `Binarizer.RowToBits` | core/src/wechat_qrcode/src/zxing/common/binarizer/adaptive_threshold_mean_binarizer.cpp:191-198 | the inner loop writes the bits of one matrix row |
| `Binarizer.MatToBufferRow` | core/src/wechat_qrcode/src/zxing/common/binarizer/adaptive_threshold_mean_binarizer.cpp:189-199 | buffer row j holds the bits of matrix row h - 1 - j |
| `Binarizer.TransMatToBuffer` | core/src/wechat_qrcode/src/zxing/common/binarizer/adaptive_threshold_mean_binarizer.cpp:184-201 | the two nested loops compute the row-flipped bit buffer |
| `Binarizer.FlipsCancel` | core/src/wechat_qrcode/src/zxing/common/binarizer/adaptive_threshold_mean_binarizer.cpp:174-201 | converting to the matrix and back cancels the two row flips: the result is the buffer's own bits, row for row |
| `Binarizer.AdaptiveBitMeaning` | core/src/wechat_qrcode/src/zxing/common/binarizer/adaptive_threshold_mean_binarizer.cpp:157-164 | on the adaptive path bit (j, z) is 0 iff luminance (j, z) exceeds the blurred value at the same place, less the bias |
| `Binarizer.UniformImageIsUniform` | core/src/wechat_qrcode/src/zxing/common/binarizer/adaptive_threshold_mean_binarizer.cpp:157-164 | a uniform image gives all-zero bits, whatever its brightness |
| `Binarizer.BinarizeImage` | core/src/wechat_qrcode/src/zxing/common/binarizer/adaptive_threshold_mean_binarizer.cpp:148-172 | a large image gets status 0 and a full-size matrix holding the adaptive bits of its luminance under the Gaussian kernel of the computed block size when that size is usable, else -1 and no change; a small image takes the global matrix, status 1 when that failed |
| `Binarizer.BinarizeUniformImage` | core/src/wechat_qrcode/src/zxing/common/binarizer/adaptive_threshold_mean_binarizer.cpp:148-165 | a uniform image of at least 25 x 25 pixels with a usable block size binarises with status 0 to an all-background matrix, given Gaussian weights that sum to one |
| `Binarizer.GetBlackMatrix` | core/src/wechat_qrcode/src/zxing/common/binarizer/adaptive_threshold_mean_binarizer.cpp:139-146 | a cached matrix is returned without binarising again; the result is always the cached matrix afterwards |
| `Binarizer.BlackMatrixCached` | core/src/wechat_qrcode/src/zxing/common/binarizer/adaptive_threshold_mean_binarizer.cpp:139-146 | once produced, asking again returns the same matrix and state |
| `Binarizer.GetBlackRow` | core/src/wechat_qrcode/src/zxing/common/binarizer/adaptive_threshold_mean_binarizer.cpp:127-137 | a row request performs the same lazy binarisation as a matrix request, and none when a matrix is cached |
| `HandleRegistry.NewRegistry` | core/src/handle.h:67-72 | an empty map whose counter starts at the clock seed |
| `HandleRegistry.UnscrambleScramble` | core/src/handle.h:74-87 | the key scrambling is invertible |
| `HandleRegistry.ScrambleUnscramble` | core/src/handle.h:74-87 | every key comes from exactly one counter value |
| `HandleRegistry.ScrambleInjective` | core/src/handle.h:74-87 | distinct counter values give distinct keys |
| `HandleRegistry.OnlyOneRawGivesZero` | core/src/handle.h:39-41 | exactly one counter value yields the reserved key 0 |
| `HandleRegistry.ShiftOrRotate` | core/src/handle.h:80-86 | the fallback shift expression equals the rotation by 23 |
| `HandleRegistry.GenerateHandle` | core/src/handle.h:67-88 | the counter advances by one (wrapping) and the key unscrambles to it; the map is untouched |
| `HandleRegistry.CreateHandle` | core/src/handle.h:35-49 | a created handle is non-null and was free, and the map gains exactly that entry |
| `HandleRegistry.CreateHandleFirstTry` | core/src/handle.h:39-46 | one try suffices when the next key is non-zero and free |
| `HandleRegistry.ReleaseHandle` | core/src/handle.h:51-54 | release reports success iff the key was present; it is gone afterwards and every other entry is unchanged |
| `HandleRegistry.Get` | core/src/handle.h:56-64 | the stored object iff the key is present, else null |
| `HandleRegistry.CreateGetRelease` | core/src/handle.h:35-64 | a created handle gives back its object, releases once, then reads as null, and the map is as before |
| `HandleRegistry.ReleaseTwice` | core/src/handle.h:51-54 | releasing a handle a second time fails |
| `QrcodeApi.ErrorCode.Value` | core/include/zzt_qrcode/qrcode.h:58-64 | codes range over -6 .. 0 and only success is 0 |
| `QrcodeApi.ErrorValuesDistinct` | core/include/zzt_qrcode/qrcode.h:58-64 | distinct codes have distinct values |
| `QrcodeApi.CreateDetector` | core/src/qrcode.cpp:24 | a new detector, as constructed, under a fresh non-null handle; result handles untouched |
| `QrcodeApi.ReleaseDetector` | core/src/qrcode.cpp:26-31 | null is an invalid handle; success iff the handle is registered; the handle is gone afterwards and the results are untouched |
| `QrcodeApi.ReleaseResult` | core/src/qrcode.cpp:192-197 | the same for result handles, leaving the detectors untouched |
| `QrcodeApi.Pair` | core/src/qrcode.cpp:59-66 | the result list pairs text i with points i |
| `QrcodeApi.DetectAndDecodeInternal` | core/src/qrcode.cpp:33-69 | a null out pointer is an invalid argument; an unknown detector is an invalid handle; an empty image fails to decode; errors store nothing and return the null handle; success registers a fresh result handle and leaves the detectors alone |
| `QrcodeApi.InternalStoresPairs` | core/src/qrcode.cpp:59-68 | a successful detection stores the pipeline's text i together with its points i under the new handle; the pairing is by index, and with the duplicate filter as written text i need not come from points i |
| `QrcodeApi.DetectAndDecodeData` | core/src/qrcode.cpp:71-85 | null data or a non-positive length is an invalid argument; otherwise the first `data_len` bytes are decoded and detected |
| `QrcodeApi.DetectAndDecodePath` | core/src/qrcode.cpp:87-133 | a null path is an invalid argument and an unreadable file a decode failure |
| `QrcodeApi.FormatConversion` | core/src/qrcode.cpp:150-176 | exactly the formats 0 .. 6 are accepted; only ARGB and ABGR skip one byte |
| `QrcodeApi.AlphaFirstIsShiftedAlphaLast` | core/src/qrcode.cpp:160-173 | ARGB and ABGR are read as RGBA and BGRA one byte further on |
| `QrcodeApi.GrayImage` | core/src/qrcode.cpp:185-187 | a non-empty height x width image holding the converted pixels |
| `QrcodeApi.DetectAndDecodePixels` | core/src/qrcode.cpp:135-190 | a null buffer, a non-positive size or an unknown format is an invalid argument; the pixel path never reports a decode failure |
| `QrcodeApi.GetResultSize` | core/src/qrcode.cpp:199-212 | the list length, or an invalid handle with 0 written |
| `QrcodeApi.GetResultText` | core/src/qrcode.cpp:214-246 | unknown handle or index write size 0; success reports the text's byte length + 1 and, given a buffer, writes the text's bytes and a NUL; a buffer too small gets nothing |
| `QrcodeApi.TextTwoPhase` | core/src/qrcode.cpp:229-245 | the size reported by a null-buffer call then suffices, and every smaller size is refused with that same size |
| `QrcodeApi.Interleave` | core/src/qrcode.cpp:267-270 | corner i goes to positions 2i and 2i + 1 |
| `QrcodeApi.DeinterleaveInterleave` | core/src/qrcode.cpp:267-270 | reading the float buffer back in pairs gives the corners again |
| `QrcodeApi.GetResultPoints` | core/src/qrcode.cpp:248-276 | unknown handle or index leave the size alone; success reports 2 * corners and writes a buffer that reads back as the corners |
| `QrcodeApi.PointsTwoPhase` | core/src/qrcode.cpp:257-275 | the two-phase protocol for points |
| `QrcodeApi.SizeBoundsIndices` | core/src/qrcode.cpp:199-256 | the accessors accept exactly the indices below the reported size |
| `Jni.BitLevel` | android-jni/qrcode_jni.c:34-63 | the lead-byte masks select the byte ranges of RFC 3629 and extract the payload bits |
| `Jni.SurrogateBitLevel` | android-jni/qrcode_jni.c:63-91 | the shifts and masks are the arithmetic of section 2.1 of RFC 2781 |
| `Jni.StepAt` | android-jni/qrcode_jni.c:27-81 | each iteration classifies its input exactly: NUL, bad lead, truncated, bad continuation, rejected value, or a scalar value other than NUL |
| `Jni.ConvertFrom` | android-jni/qrcode_jni.c:24-98 | output only grows and never exceeds `dst_max` |
| `Jni.Utf8ToUtf16` | android-jni/qrcode_jni.c:19-100 | null or non-positive arguments give nothing; never more than `dst_max` units |
| `Jni.Utf8ToUtf16Loop` | android-jni/qrcode_jni.c:19-100 | the source's loops compute the functional decoder |
| `Jni.Continue` | android-jni/qrcode_jni.c:56-70 | the continuation loop is valid iff all bytes are continuation bytes, and then yields the accumulated code point |
| `Jni.AsciiUnchanged` | android-jni/qrcode_jni.c:31-33 | NUL-free ASCII comes out unit for unit |
| `Jni.DecodesEncoding` | android-jni/qrcode_jni.c:34-81 | every shortest-form UTF-8 encoding is decoded to its scalar value |
| `Jni.AcceptsOnlyEncodings` | android-jni/qrcode_jni.c:72-81 | every accepted sequence is the shortest-form encoding of its value (no overlong forms or surrogates, per section 3 of RFC 3629) |
| `Jni.AcceptsExactlyEncodings` | android-jni/qrcode_jni.c:27-81 | a sequence is accepted as value cp iff it begins with the encoding of cp |
| `Jni.ConvertScalar` | android-jni/qrcode_jni.c:83-97 | an accepted value with room writes its UTF-16 form and moves past its bytes |
| `Jni.ConvertReplaces` | android-jni/qrcode_jni.c:43-81 | a bad lead or continuation skips one byte, a rejected value its whole length, each after writing U+FFFD |
| `Jni.NulStops` | android-jni/qrcode_jni.c:29-30 | a NUL byte ends the conversion: nothing after it is read or written |
| `Jni.TruncatedStops` | android-jni/qrcode_jni.c:50-54 | a lead byte announcing more bytes than remain writes one U+FFFD and ends the conversion |
| `Jni.NoRoomStops` | android-jni/qrcode_jni.c:86-95 | a scalar above U+FFFF with room for one unit only ends the conversion without writing half of its surrogate pair |
| `Jni.DecodesText` | android-jni/qrcode_jni.c:24-98 | decoding the UTF-8 form of a text appends its UTF-16 form |
| `Jni.RoundTrip` | android-jni/qrcode_jni.c:19-100 | the NUL-terminated UTF-8 form of a text converts to its UTF-16 form |
| `Jni.ResultTextBufferSuffices` | android-jni/qrcode_jni.c:252-268 | a UTF-16 buffer sized by the UTF-8 length always holds the whole text |
| `Jni.GetResultTextJni` | android-jni/qrcode_jni.c:248-276 | an unknown handle or index gives that error and a null string; a string is returned only with `last_error` Ok |
| `Jni.ResultTextReachesJava` | android-jni/qrcode_jni.c:248-276 | a stored result whose bytes are the UTF-8 encoding of a text reaches Java as that text in UTF-16, with `last_error` Ok |
| `Jni.JniBpp` | android-jni/qrcode_jni.c:160-175 | 3 bytes for RGB and BGR, 4 for the four-channel formats, 1 otherwise |
| `Jni.DetectAndDecodePixelsJni` | android-jni/qrcode_jni.c:152-188 | a non-positive size or too short a buffer sets `last_error` to an invalid argument and returns null; success comes only from an accepted call with a known format |
| `UnityDetector.GetBpp` | unity/xyz.zhuzeitou.qrcode/Runtime/QrcodeDetector.cs:59-72 | zero exactly for the formats the native call rejects, and otherwise the JNI layer's size |
| `UnityDetector.BppTablesDifferOnlyOnUnknown` | unity/xyz.zhuzeitou.qrcode/Runtime/QrcodeDetector.cs:59-72 | the Unity and JNI tables agree exactly on the formats 0 .. 6 |
| `UnityDetector.FlippedIsFlip` | unity/xyz.zhuzeitou.qrcode/Runtime/QrcodeDetector.cs:202-212 | the index-map reference reverses the rows and keeps the bytes after them |
| `UnityDetector.FlipSymmetric` | unity/xyz.zhuzeitou.qrcode/Runtime/QrcodeDetector.cs:202-212 | if b is the flip of a then a is the flip of b |
| `UnityDetector.FlipUnique` | unity/xyz.zhuzeitou.qrcode/Runtime/QrcodeDetector.cs:202-212 | a buffer has only one flip |
| `UnityDetector.FlipTwice` | unity/xyz.zhuzeitou.qrcode/Runtime/QrcodeDetector.cs:202-212 | flipping twice gives the buffer back |
| `UnityDetector.FlipResult` | unity/xyz.zhuzeitou.qrcode/Runtime/QrcodeDetector.cs:190-222 | throws iff the row length is negative or, with two rows or more, the rows end past the span; fewer than two rows change nothing; otherwise the rows are reversed and the tail kept |
| `UnityDetector.FlipResultTwice` | unity/xyz.zhuzeitou.qrcode/Runtime/QrcodeDetector.cs:195-212 | flipping the flipped span restores it; an odd height keeps the middle row in place |
| `UnityDetector.SwapRows` | unity/xyz.zhuzeitou.qrcode/Runtime/QrcodeDetector.cs:204-211 | rows y and h-1-y trade places; every other row and the tail stay |
| `UnityDetector.SwapStep` | unity/xyz.zhuzeitou.qrcode/Runtime/QrcodeDetector.cs:202-212 | each pass extends the mirrored part by one row at each end |
| `UnityDetector.FlipRows` | unity/xyz.zhuzeitou.qrcode/Runtime/QrcodeDetector.cs:202-212 | the swap loop produces the flip |
| `UnityDetector.FlipVertical` | unity/xyz.zhuzeitou.qrcode/Runtime/QrcodeDetector.cs:190-222 | the method computes exactly `FlipResult` |
| `UnityDetector.Rejected` | unity/xyz.zhuzeitou.qrcode/Runtime/QrcodeDetector.cs:227-230 | an early invalid argument with no results, no native call and no registry change |
| `UnityDetector.Finish` | unity/xyz.zhuzeitou.qrcode/Runtime/QrcodeDetector.cs:258-261 | the caller gets the native code and the stored list on success, an empty list otherwise; the result is released, so the registries end as they began |
| `UnityDetector.ExactStride` | unity/xyz.zhuzeitou.qrcode/Runtime/QrcodeDetector.cs:239 | a positive stride is used as given; otherwise width times the JNI size, or 0 for an unknown format |
| `UnityDetector.DetectAndDecodeInternal` | unity/xyz.zhuzeitou.qrcode/Runtime/QrcodeDetector.cs:224-262 | native code is reached iff the buffer is non-empty and holds height rows of the exact stride; the warning is logged iff a non-empty buffer has a positive stride below a packed row; no result leaks; errors carry no results; an unknown format ends as an invalid argument |
| `UnityDetector.DetectAndDecodeSyncPixels` | unity/xyz.zhuzeitou.qrcode/Runtime/QrcodeDetector.cs:273-282 | a null or empty array is rejected without a native call; anything else goes to the internal checks |
| `UnityDetector.DetectAndDecodeSyncData` | unity/xyz.zhuzeitou.qrcode/Runtime/QrcodeDetector.cs:150-170 | native code is reached iff the array is non-null and non-empty; the result carries the native code and stored list; no result leaks |
| `UnityDetector.RequiredAgrees` | unity/xyz.zhuzeitou.qrcode/Runtime/QrcodeDetector.cs:239-245 | for a known format and positive size, the Unity and JNI size checks ask for the same positive number of bytes |
| `UnityDetector.UnityAgreesWithJni` | unity/xyz.zhuzeitou.qrcode/Runtime/QrcodeDetector.cs:224-262 | on every pixel buffer the Unity and Android bindings report the same error code and, on success, the same stored list |

## Left out

- Neural inference, model loading, the resize kernels, ncnn's pixel conversions, `cv::imdecode`, `DecoderMgr`/ZXing decoding and the Gaussian kernel weights: their code is not part of this model. They are parameters of the model (`WeChatQRCode.Backend`, `convert`, `imdecode`, `gaussian`).
- `DecoderMgr::decodeImage` is assumed to return one corner list per text on success and no texts on failure (`WeChatQRCode.DecoderKeepsCounts`). Only the count lemmas depend on this.
- Floating point: `float` and `double` are exact `real`s. Rounding in `pt.x /= cur_scale`, in the scaled sizes and in the padding is not modelled.
- `SuperScale.FloorSqrt`: takes `(int)sqrt(width * height * 1.0)` as the exact integer square root. This assumes the library rounds correctly.
- `WeChatQRCode.AutomaticSizeMeetsTarget`: assumes the supplied square root does not overshoot. `DetectorSizeBounded` only assumes it is not negative.
- Integer overflow: C `int` products, such as `row_bytes * height` in the JNI check, `exactStride * height` in Unity and `len * 2` for points, are unbounded integers. The 64-bit handle counter wraps explicitly (`bv64`). The 32-bit `key_t` variant is left out.
- `HandleRegistry.CreateHandle`: tries at most `fuel` keys. The source loops until it finds a free key. `None` stands for running out of fuel.
- Concurrency: the mutex, the shared mutex, the atomic counter, the semaphore and the async wrappers of the Unity and Android front ends.
- The clock seed of the handle counter is a parameter of `HandleRegistry.NewRegistry`.
- Timing and logging in `qrcode_detect_and_decode_internal` are not modelled. In Unity, only the stride warning is modelled, as the `warned` flag.
- File I/O: a path entry point receives the file contents (`None` when unreadable). Path encoding (UTF-8 versus UTF-16) is not modelled.
- The conversion of a colour image to grey in `detectAndDecode` (lines 74-82) is not modelled. The pipeline starts from a grey image.
- The base-class accessors `Binarizer::getBlackMatrix`/`getBlackRow` and `GlobalHistogramBinarizer` are not part of this model. The global matrix is a parameter, and a row is read from the cached matrix.
- The Unity result parsing (`QrcodeResults.Parse` and `FromErrorCode`) is not part of this model. An entry point returns the native error code and the list stored under the native result handle, which is what `Parse` reads back through the C accessors.
- The Unity texture entry point (`GetTexturePixels`, `DetectAndDecodeSync(Texture2D)`), the file-path entry point and `Dispose` are not part of this model.
- `Binarizer.BinarizeImage`: the Gaussian weights of `generateGaussianKernel` (lines 17-36) are the parameter `gaussian`, so the contract does not promise that the kernel has the block size's length or sums to one. Only `Binarizer.BinarizeUniformImage` and the lemmas it uses assume the sum is one.
- `Jni.GetResultTextJni`: the two `malloc` calls are assumed to succeed, so `ZZT_QRCODE_ERROR_OUT_OF_MEMORY` is not modelled.
- `ArrayPool` renting in `FlipVertical` is not modelled. A negative row length throws, as renting a negative size does, and is modelled as `None`.
- JNI registration and marshalling, the Kotlin/Java wrappers, `NativeLib` and `Bridge.cs` are not part of this model.
- The two uses of `FlipVertical`'s result by texture code are not part of this model.
- The over-read of ARGB/ABGR buffers, which are read one byte further on, is not claimed as a finding. The model only states that the shift is exactly one byte (`QrcodeApi.AlphaFirstIsShiftedAlphaLast`).

## Findings

| source | as written | input that shows it | evidently intended | confidence | as-written member | corrected member |
|---|---|---|---|---|---|---|
| core/src/wechat_qrcode/src/wechat_qrcode.cpp:150-162 | the verdict of each admitted corner list overwrites the previous one, so only the most recently admitted list decides | one attempt decoding lists P1 = [(0,0)], P2 = [(100,100)], Q = [(1,1)]: Q duplicates P1 but is kept | a list is a duplicate when it duplicates ANY admitted list | not executed | `Dedup.DuplicateOfEarlierListSlipsThrough` | `Dedup.CorrectedDropsEarlierDuplicate` |
| core/src/wechat_qrcode/src/wechat_qrcode.cpp:168 | a duplicate erases `decode_results[i]`, where i counts within this attempt, although earlier candidates' texts come first in the list | results ["a","x"] from earlier candidates, then texts ["b","b2"] with lists [Q, Q]: "x" is erased instead of the duplicate's "b2", so the points of "x" end up paired with "b" | erase the duplicate's own text, so that text i stays paired with points i | not executed | `Dedup.DuplicateErasesEarlierText` | `Dedup.CorrectedErasesOwnText` |
| core/src/wechat_qrcode/src/wechat_qrcode.cpp:168 | a second duplicate in one attempt erases at an index past the end of the shortened list (undefined behaviour) | texts ["a","b","c"] with lists [Q, Q, Q] | keep the first copy with its text and drop the others with theirs | not executed | `Dedup.RepeatedDuplicateErasesPastTheEnd` | `Dedup.CorrectedKeepsFirstCopy` |

The pipeline (`WeChatQRCode.DetectAndDecode`) and the C API use the
filter as written, `Dedup.Attempt`; where it erases past the end of the
list the outcome is `None`. The corrected filter, `Dedup.AttemptPaired`,
drives the separately named `WeChatQRCode.DetectAndDecodeCorrected`.
