/**
 * The Android SDK entry points `Bitmap.toGrayscaleSync` and
 * `Bitmap.toGrayscale`: they check the bitmap's pixel format, copy its
 * pixels into a buffer of exactly width * height * 4 bytes, run the native
 * transform into a second buffer of the same size, and wrap that buffer in
 * a new bitmap of the same size.
 */
module ImageUtilSdk {
  import opened Wrappers
  import opened ImageUtilApi
  import opened ImageUtilImpl

  /** The largest Kotlin/Java `Int`. */
  const INT_MAX: int := 0x7fff_ffff

  /** The pixel formats an Android bitmap can have. */
  datatype Config = Alpha8 | Rgb565 | Argb4444 | Argb8888 | RgbaF16 | Hardware | Rgba1010102

  /**
   * A bitmap: its size, its pixel format and, for the 4-byte format, its
   * pixels as the RGBA bytes that `copyPixelsToBuffer` produces.
   */
  datatype Bitmap = Bitmap(width: int, height: int, config: Config, pixels: seq<byte>)
  {
    /**
     * What the platform guarantees of every bitmap: a positive size whose
     * 4-byte-per-pixel byte count fits an `Int`, and, in the 4-byte format,
     * exactly that many bytes of pixels.
     */
    ghost predicate Valid()
    {
      0 < width && 0 < height && width * height * 4 <= INT_MAX &&
      (config == Argb8888 ==> |pixels| == width * height * 4)
    }
  }

  /** Why a conversion throws `IllegalArgumentException`. */
  datatype ConversionError =
    | UnsupportedConfig        // the bitmap is not ARGB_8888
    | NativeFailure(code: int) // the native routine returned a nonzero code

  /**
   * The result of converting a bitmap, when the native routine meets `fault`:
   * a bitmap of the same size and format whose pixels are the grayscale
   * image of the input's, or the reason the call throws.
   */
  function GrayscaleBitmap(b: Bitmap, fault: Fault): (r: Result<Bitmap, ConversionError>)
    requires b.Valid()
    ensures r.Success? <==> b.config == Argb8888 && fault == NoFault
    ensures r.Success? ==>
              r.value.Valid() && r.value.config == Argb8888 &&
              r.value.width == b.width && r.value.height == b.height &&
              IsGray(r.value.pixels)
  {
    if b.config != Argb8888 then Failure(UnsupportedConfig)
    else if fault != NoFault then Failure(NativeFailure(Code(FaultCode(fault))))
    else
      GrayscaleIsGray(b.pixels);
      Success(Bitmap(b.width, b.height, Argb8888, Grayscale(b.pixels)))
  }

  /**
   * The native routine cannot report a null buffer, invalid dimensions or a
   * too small output buffer to this caller: the only native failures left
   * are the library's exceptions.
   */
  lemma NativeFailuresAreExceptions(b: Bitmap, fault: Fault)
    requires b.Valid()
    ensures var r := GrayscaleBitmap(b, fault);
      r.Failure? && r.error.NativeFailure? ==>
        r.error.code == Code(ErrException) || r.error.code == Code(ErrUnknown)
  {
  }

  /** Converting the result of a successful conversion gives it back unchanged. */
  lemma GrayscaleBitmapIdempotent(b: Bitmap)
    requires b.Valid() && b.config == Argb8888
    ensures GrayscaleBitmap(GrayscaleBitmap(b, NoFault).value, NoFault) == GrayscaleBitmap(b, NoFault)
  {
    var g := GrayscaleBitmap(b, NoFault).value;
    assert g.pixels == Grayscale(b.pixels);
    GrayscaleIdempotent(b.pixels);
    assert GrayscaleBitmap(g, NoFault) == Success(Bitmap(g.width, g.height, Argb8888, g.pixels));
  }

  /** `copyPixelsToBuffer`: the bitmap's RGBA bytes, in order, at the start of `buffer`. */
  method CopyPixelsToBuffer(b: Bitmap, buffer: array<byte>)
    requires |b.pixels| <= buffer.Length
    modifies buffer
    ensures buffer[..|b.pixels|] == b.pixels
    ensures buffer[|b.pixels|..] == old(buffer[|b.pixels|..])
  {
    forall i | 0 <= i < |b.pixels| {
      buffer[i] := b.pixels[i];
    }
  }

  /** Both factors of a positive product are at most the product. */
  lemma FactorsBounded(width: int, height: int)
    requires 0 < width && 0 < height
    ensures width <= width * height * 4 && height <= width * height * 4
  {
    assert width * height >= width * 1;
    assert width * height >= 1 * height;
  }

  /**
   * `Bitmap.toGrayscaleSync`. The native call receives both buffers' addresses
   * and the output buffer's capacity unchanged.
   */
  method ToGrayscaleSync(b: Bitmap, fault: Fault) returns (r: Result<Bitmap, ConversionError>)
    requires b.Valid()
    ensures r == GrayscaleBitmap(b, fault)
  {
    if b.config != Argb8888 {
      return Failure(UnsupportedConfig);
    }
    var width := b.width;
    var height := b.height;
    var bufferSize := width * height * 4;
    FactorsBounded(width, height);

    var inputBuffer := new byte[bufferSize];
    var outputBuffer := new byte[bufferSize];
    CopyPixelsToBuffer(b, inputBuffer);

    var resultCode := ConvertToGrayscale(inputBuffer, width as int32, height as int32,
                                         outputBuffer, outputBuffer.Length, fault);
    var code := Code(resultCode);
    if code != 0 {
      return Failure(NativeFailure(code));
    }
    assert outputBuffer[..] == outputBuffer[..bufferSize];
    assert inputBuffer[..bufferSize] == b.pixels;
    return Success(Bitmap(width, height, Argb8888, outputBuffer[..]));
  }

  /** `Bitmap.toGrayscale`: the same conversion, run on another dispatcher. */
  method ToGrayscale(b: Bitmap, fault: Fault) returns (r: Result<Bitmap, ConversionError>)
    requires b.Valid()
    ensures r == GrayscaleBitmap(b, fault)
  {
    r := ToGrayscaleSync(b, fault);
  }
}
