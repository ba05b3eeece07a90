# Grayscale conversion pipeline — a verified Dafny model

This project models the core of an Android image SDK and its demo app:

* **The native transform** `convert_to_grayscale` (`cpp_shared`). It checks
  its arguments in a fixed order: null buffers, then dimensions, then output
  capacity. It then rewrites the caller's RGBA output buffer so that every
  pixel becomes (gray, gray, gray, alpha). Gray is the ITU-R BT.601 luma
  E'Y = 0.299 R + 0.587 G + 0.114 B.
* **The SDK entry points** `Bitmap.toGrayscaleSync` and `Bitmap.toGrayscale`.
  They reject bitmaps that are not ARGB_8888, size both buffers to exactly
  width × height × 4 bytes, call the transform, and turn any nonzero result
  code into a failure.
* **The demo's `ImageViewModel`**, a single-slot, latest-value pipeline. A
  captured frame replaces the pending one. At most one conversion runs at a
  time. A frame pending when a conversion ends is the next one taken. The
  screen shows the last successful result.

Files, one module each:

* `wrappers.dfy` (`Wrappers`): `Option` and `Result`.
* `image_util_h.dfy` (`ImageUtilApi`): the result codes of `cpp_shared/include/image_util.h`.
* `image_util.dfy` (`ImageUtilImpl`): `cpp_shared/src/image_util.cpp`.
* `image_util_sdk.dfy` (`ImageUtilSdk`): `ImageUtil.kt`, with the JNI glue as a pass-through.
* `image_view_model.dfy` (`ImageUtilDemo`): `ImageViewModel.kt`.

How the model is built:

* The transform is an imperative method over `array?<byte>`. A null pointer
  is a null array. It is proved against the pure specification `Grayscale`
  on `seq<byte>`. The lemmas about `Grayscale` give the per-pixel facts:
  R = G = B = luma, alpha copied, and idempotence.
* The view model is a class whose fields are the source's fields. Each
  method is one critical section and is tied to a pure step function on a
  `Pipeline` value. That value also records the history: how many frames
  were captured, and which ones were taken for conversion, in order. It
  also counts the `processNext` runs launched but not yet run. A capture
  and the end of a conversion each launch one; each `TryStart` uses one up.
  The invariant `Inv` implies that at most one conversion starts per
  captured frame. The properties over arbitrary sequences of steps are lemmas about `Run`.
* Exceptions escaping OpenCV are a `Fault` parameter of the transform. The
  conversion outcome fed back into the pipeline is the SDK result for the
  frame in flight under some `Fault`.

Where the code and the prose around it disagree, the model follows the code:

* The header says no memory is allocated internally. The implementation
  allocates `grayMat` and `inChannels`. Allocation is not modelled.
* `toGrayscaleSync`'s doc comment promises `IllegalStateException` when the
  native call fails. The code uses `require`, which throws
  `IllegalArgumentException`. Both failures are `ConversionError` values.

## Model

| member | source | states |
|---|---|---|
| `ImageUtilApi.Code` | cpp_shared/include/image_util.h:8-15 | the integer of each result code lies in 0..5 and is 0 exactly for `GRAYSCALE_SUCCESS` |
| `ImageUtilApi.FromCode` | cpp_shared/include/image_util.h:8-15 | an integer names a result code exactly when it lies in 0..5, and then that code's integer is the given one |
| `ImageUtilApi.CodeRoundTrip` | cpp_shared/include/image_util.h:8-15 | every result code survives the trip through its integer |
| `ImageUtilApi.CodesDistinct` | cpp_shared/include/image_util.h:8-15 | two result codes have the same integer only if they are the same code |
| `ImageUtilImpl.FaultCode` | cpp_shared/src/image_util.cpp:46-50 | an escaping exception yields `ERR_EXCEPTION` or `ERR_UNKNOWN`, never success or a validation code; no exception yields success |
| `ImageUtilImpl.RequiredSize` | cpp_shared/src/image_util.cpp:23 | the capacity the output needs is 4 bytes for each of the width × height pixels, and at least one pixel's worth for positive dimensions |
| `ImageUtilImpl.Luma` | cpp_shared/src/image_util.cpp:34 | the gray value of a pixel whose R, G and B are equal is that value |
| `ImageUtilImpl.LumaRounds` | cpp_shared/src/image_util.cpp:34 | the gray value is within half a unit of 0.299 R + 0.587 G + 0.114 B (BT.601 luma rounded to nearest) |
| `ImageUtilImpl.LumaPrimaries` | android-imageutil-sdk/test/src/androidTest/java/com/jollydroid/imageutilsdk/test/ExampleInstrumentedTest.kt:44-49 | red gives 76, green 150, blue 29 and white 255 |
| `ImageUtilImpl.LumaMonotonic` | cpp_shared/src/image_util.cpp:34 | raising any colour channel never lowers the luma |
| `ImageUtilImpl.MapPixels` | cpp_shared/src/image_util.cpp:29-42 | a per-pixel transform yields a buffer of the input's length |
| `ImageUtilImpl.MapPixelsAt` | cpp_shared/src/image_util.cpp:41-42 | output pixel i is the transform of input pixel i |
| `ImageUtilImpl.MapPixelsAppend` | cpp_shared/src/image_util.cpp:34-42 | a per-pixel transform of two pixel-aligned pieces, done separately, equals the transform of the whole |
| `ImageUtilImpl.MapPixelsIdempotent` | cpp_shared/src/image_util.cpp:41-42 | a pixel transform that is idempotent is idempotent on whole buffers |
| `ImageUtilImpl.GrayPixel` | cpp_shared/src/image_util.cpp:41 | an output pixel has equal R, G and B and the input pixel's alpha |
| `ImageUtilImpl.Grayscale` | cpp_shared/src/image_util.cpp:34-42 | the grayscale image has the same number of bytes as the input |
| `ImageUtilImpl.GrayscaleAt` | cpp_shared/include/image_util.h:18-22 | output pixel i has R = G = B = luma of input pixel i and alpha = input alpha |
| `ImageUtilImpl.GrayscaleAppend` | cpp_shared/src/image_util.cpp:34-42 | each pixel is converted independently: converting two pixel-aligned pieces separately gives the conversion of the whole buffer |
| `ImageUtilImpl.GrayscaleIsGray` | cpp_shared/test/grayscale_converter_test.cpp:34-37 | every output pixel is gray, and every output alpha is the input alpha |
| `ImageUtilImpl.GrayscaleIdempotent` | cpp_shared/src/image_util.cpp:34-42 | converting an already converted buffer changes nothing |
| `ImageUtilImpl.WritePixel` | cpp_shared/src/image_util.cpp:42 | storing a pixel changes its four bytes and no other byte |
| `ImageUtilImpl.MergeGray` | cpp_shared/src/image_util.cpp:29-42 | the first 4n output bytes become the grayscale image of the first 4n input bytes; the rest of the output and a distinct input are unchanged |
| `ImageUtilImpl.ConvertToGrayscale` | cpp_shared/src/image_util.cpp:7-51 | null buffers, then bad dimensions, then a short output are reported in that order; any error leaves the output untouched; success writes exactly width × height × 4 grayscale bytes and leaves the input and the output's tail unchanged |
| `ImageUtilSdk.GrayscaleBitmap` | android-imageutil-sdk/imageutilsdk/src/main/java/com/jollydroid/imageutilsdk/ImageUtil.kt:30-59 | the conversion succeeds exactly for an ARGB_8888 bitmap without a native fault, and then gives an ARGB_8888 gray bitmap of the same width and height |
| `ImageUtilSdk.NativeFailuresAreExceptions` | android-imageutil-sdk/imageutilsdk/src/main/java/com/jollydroid/imageutilsdk/ImageUtil.kt:35-52 | the null-buffer, invalid-dimension and output-too-small codes never reach this caller; only exception codes do |
| `ImageUtilSdk.GrayscaleBitmapIdempotent` | android-imageutil-sdk/imageutilsdk/src/main/java/com/jollydroid/imageutilsdk/ImageUtil.kt:56-58 | converting a converted bitmap again gives the same bitmap |
| `ImageUtilSdk.CopyPixelsToBuffer` | android-imageutil-sdk/imageutilsdk/src/main/java/com/jollydroid/imageutilsdk/ImageUtil.kt:45-46 | the buffer starts with the bitmap's bytes in order; the rest is unchanged |
| `ImageUtilSdk.ToGrayscaleSync` | android-imageutil-sdk/imageutilsdk/src/main/java/com/jollydroid/imageutilsdk/ImageUtil.kt:30-59 | the result is `GrayscaleBitmap`: format rejected first, nonzero native codes are failures, the new bitmap holds exactly the bytes the transform wrote |
| `ImageUtilSdk.ToGrayscale` | android-imageutil-sdk/imageutilsdk/src/main/java/com/jollydroid/imageutilsdk/ImageUtil.kt:85-89 | returns the same result as `toGrayscaleSync` on the same bitmap |
| `ImageUtilDemo.SubmitStep` | android-imageutil-demo/app/src/main/java/com/jollydroid/imageutildemo/ImageViewModel.kt:34-40 | the slot holds the new frame, numbered as the newest capture; the capture count and the owed `processNext` runs each grow by one; nothing else changes |
| `ImageUtilDemo.TryStartStep` | android-imageutil-demo/app/src/main/java/com/jollydroid/imageutildemo/ImageViewModel.kt:48-55 | a launched run is used up; the state is otherwise unchanged exactly when a conversion runs or nothing is pending; otherwise the flag is set and the pending frame is taken, emptied from the slot and recorded as started |
| `ImageUtilDemo.FinishStep` | android-imageutil-demo/app/src/main/java/com/jollydroid/imageutildemo/ImageViewModel.kt:57-78 | the flag is cleared, one `processNext` run is launched, the slot and the start record are untouched, and the screen keeps its bitmap or shows a gray ARGB_8888 one |
| `ImageUtilDemo.Inv` | android-imageutil-demo/app/src/main/java/com/jollydroid/imageutildemo/ImageViewModel.kt:18-78 | the invariant bounds the number of conversions started by the number of frames captured |
| `ImageUtilDemo.InitialInv` | android-imageutil-demo/app/src/main/java/com/jollydroid/imageutildemo/ImageViewModel.kt:18-25 | a new view model (nothing shown, slot empty, flag false) satisfies the pipeline invariant |
| `ImageUtilDemo.StepPreservesInv` | android-imageutil-demo/app/src/main/java/com/jollydroid/imageutildemo/ImageViewModel.kt:34-78 | each atomic step keeps the invariant: one conversion at most, the slot holds only the newest frame, frames taken in capture order and once each, the newest frame never dropped, no pending frame left without a launched `processNext`, only gray bitmaps shown |
| `ImageUtilDemo.RunPreservesInv` | android-imageutil-demo/app/src/main/java/com/jollydroid/imageutildemo/ImageViewModel.kt:34-78 | the invariant holds after any sequence of steps |
| `ImageUtilDemo.IncreasingBounded` | android-imageutil-demo/app/src/main/java/com/jollydroid/imageutildemo/ImageViewModel.kt:53-54 | a strictly increasing sequence of frame numbers below n has at most n entries |
| `ImageUtilDemo.StartTakesNewest` | android-imageutil-demo/app/src/main/java/com/jollydroid/imageutildemo/ImageViewModel.kt:48-55 | a frame pending while no conversion runs always has a launched `processNext` still to come, and that run sets the flag, empties the slot and takes the frame captured last |
| `ImageUtilDemo.RunExtendsStarted` | android-imageutil-demo/app/src/main/java/com/jollydroid/imageutildemo/ImageViewModel.kt:53-54 | the record of started conversions only grows at its end |
| `ImageUtilDemo.SupersededNeverConverted` | android-imageutil-demo/app/src/main/java/com/jollydroid/imageutildemo/ImageViewModel.kt:36-38 | a frame that is neither pending nor taken is never converted afterwards |
| `ImageUtilDemo.SubmitDropsPending` | android-imageutil-demo/app/src/main/java/com/jollydroid/imageutildemo/ImageViewModel.kt:36-38 | a pending frame replaced by a new capture is never converted |
| `ImageUtilDemo.PendingStartsNext` | android-imageutil-demo/app/src/main/java/com/jollydroid/imageutildemo/ImageViewModel.kt:74-78 | a frame pending when a conversion ends is taken by the `processNext` launched then, whatever the outcome |
| `ImageUtilDemo.BurstCoalesces` | android-imageutil-demo/app/src/main/java/com/jollydroid/imageutildemo/ImageViewModel.kt:34-78 | of three frames captured during one conversion, only the third is converted next |
| `ImageUtilDemo.FinishSettles` | android-imageutil-demo/app/src/main/java/com/jollydroid/imageutildemo/ImageViewModel.kt:74-78 | with nothing pending, the end of a conversion leaves the flag false and the slot empty, the launched `processNext` does nothing, and the last captured frame has been converted |
| `ImageUtilDemo.IdleStaysIdle` | android-imageutil-demo/app/src/main/java/com/jollydroid/imageutildemo/ImageViewModel.kt:50-51 | with nothing pending and no conversion running, the launched `processNext` runs change nothing but use themselves up |
| `ImageUtilDemo.FinishPublishes` | android-imageutil-demo/app/src/main/java/com/jollydroid/imageutildemo/ImageViewModel.kt:60-72 | after a successful conversion of an ARGB_8888 frame, the screen shows an ARGB_8888 bitmap of the frame's size whose every pixel has the frame pixel's luma in R, G and B and its alpha; after a fault or another format the screen is unchanged |
| `ImageUtilDemo.ImageViewModel.constructor` | android-imageutil-demo/app/src/main/java/com/jollydroid/imageutildemo/ImageViewModel.kt:18-25 | nothing shown, slot empty, flag false, invariant established |
| `ImageUtilDemo.ImageViewModel.Submit` | android-imageutil-demo/app/src/main/java/com/jollydroid/imageutildemo/ImageViewModel.kt:34-40 | the slot holds the new frame, a `processNext` run is launched, the rest is unchanged; the invariant is kept |
| `ImageUtilDemo.ImageViewModel.TryStart` | android-imageutil-demo/app/src/main/java/com/jollydroid/imageutildemo/ImageViewModel.kt:48-55 | a launched run is used up; with the flag set or the slot empty nothing else changes; otherwise the flag is set and the pending frame is returned and removed from the slot in one step |
| `ImageUtilDemo.ImageViewModel.Finish` | android-imageutil-demo/app/src/main/java/com/jollydroid/imageutildemo/ImageViewModel.kt:69-78 | the shown bitmap becomes the result on success and stays on failure; the flag is cleared, `processNext` is launched, and the slot is untouched |

## Left out

- OpenCV's own luma arithmetic (`cvtColor` with fixed-point coefficients) is not modelled. `Luma` computes BT.601 exactly in thousandths and rounds half up. OpenCV can differ by one unit, which the repository's tests tolerate (±2 and ±5).
- Exceptions are modelled as a `Fault` argument. The model assumes an exception escapes before `cv::merge` writes the output, so a faulting call leaves the output unchanged. A throw in the middle of `merge` could leave the output partly written.
- Memory allocation (`grayMat`, `inChannels`, the `ByteBuffer`s) is not modelled, and neither is allocation failure.
- The JNI glue (`imageutil_jni.cpp`, `NativeBridge.kt`) is not part of this model beyond its effect. Both direct buffers have non-null addresses. The output buffer's capacity is passed as the size.
- Android `Bitmap` internals are not modelled: the `copyPixelsToBuffer`/`copyPixelsFromBuffer` byte order, `createBitmap`, and pixel formats other than ARGB_8888. A bitmap's pixels are its RGBA bytes. Every bitmap has a positive size whose byte count fits an `Int`, as the platform guarantees. So the Kotlin `Int` product `width * height * 4` cannot wrap and is modelled as exact.
- Coroutine machinery (`viewModelScope.launch`, `Mutex`, `Dispatchers`, `withContext`) is abstracted away. Each critical section is one atomic step. A `processNext` launched by a capture or by `Finish` is counted, and runs as a later `TryStart` step that may interleave with other steps. The scheduler's fairness (that every launched run eventually runs) is not modelled. So liveness is stated as "a run is owed and takes the frame" (`StartTakesNewest`, `PendingStartsNext`), not as eventual conversion.
- The `dispatcher` parameter of `toGrayscale` is dropped.
- Logging (`Log.d`, `Log.e`) and `measureTimeMillis` are not modelled.
- The UI and camera code (`MainActivity.kt`, `WithPermissions.kt`) is not part of this model.
- The commented-out 3/4-channel variant of the transform is not modelled.
- RequiredSize: the product width × height × 4 is exact. The source computes it in `size_t`, which is exact on 64-bit targets. On a 32-bit target it wraps modulo 2^32: width = height = 32768 gives 0, and the capacity guard then passes for any output size. The SDK cannot reach this, because its `Int` product is at most `INT_MAX`.
- ConvertToGrayscale: its `ERR_OUTPUT_TOO_SMALL` clause assumes a 64-bit `size_t`, for the reason given under `RequiredSize`.
