/**
 * The native grayscale transform `convert_to_grayscale`: a chain of argument
 * checks followed by an in-place rewrite of the caller's RGBA output buffer,
 * where every pixel becomes (gray, gray, gray, alpha).
 */
module ImageUtilImpl {
  import opened ImageUtilApi

  /** A signed 32-bit C `int`. */
  newtype int32 = x: int | -0x8000_0000 <= x < 0x8000_0000

  /**
   * An exception escaping the image library during the conversion: a
   * `std::exception`, or anything else that is thrown.
   */
  datatype Fault = NoFault | StdException | OtherThrow

  /** The code returned once all argument checks have passed. */
  function FaultCode(f: Fault): (c: GrayscaleResultCode)
    ensures c == GrayscaleSuccess <==> f == NoFault
    ensures c != ErrNullBuffer && c != ErrInvalidDimensions && c != ErrOutputTooSmall
  {
    match f
    case NoFault => GrayscaleSuccess
    case StdException => ErrException
    case OtherThrow => ErrUnknown
  }

  /** The number of bytes an image of the given size occupies (computed as `size_t`). */
  function RequiredSize(width: int32, height: int32): (n: int)
    ensures n % 4 == 0 && n / 4 == (width as int) * (height as int)
    ensures 0 < width && 0 < height ==> 4 <= n
  {
    (width as int) * (height as int) * 4
  }

  /**
   * The luminance of one pixel: E'Y = 0.299 R + 0.587 G + 0.114 B of ITU-R
   * BT.601, computed in thousandths and rounded half up.
   */
  function Luma(r: byte, g: byte, b: byte): (y: byte)
    ensures r == g == b ==> y == r
  {
    ((299 * (r as int) + 587 * (g as int) + 114 * (b as int) + 500) / 1000) as byte
  }

  /**
   * The luminance is the weighted sum rounded to the nearest integer: it is
   * within half a unit of 0.299 R + 0.587 G + 0.114 B.
   */
  lemma LumaRounds(r: byte, g: byte, b: byte)
    ensures var y := Luma(r, g, b) as int;
      1000 * y - 500 <= 299 * (r as int) + 587 * (g as int) + 114 * (b as int) < 1000 * y + 500
  {
  }

  /** The colours the library's tests use: red, green, blue and white. */
  lemma LumaPrimaries()
    ensures Luma(255, 0, 0) == 76
    ensures Luma(0, 255, 0) == 150
    ensures Luma(0, 0, 255) == 29
    ensures Luma(255, 255, 255) == 255
  {
  }

  /** Luminance never decreases when one channel grows. */
  lemma LumaMonotonic(r: byte, g: byte, b: byte, r': byte, g': byte, b': byte)
    requires r <= r' && g <= g' && b <= b'
    ensures Luma(r, g, b) <= Luma(r', g', b')
  {
  }

  /** One pixel of an RGBA buffer: four consecutive bytes. */
  datatype Rgba = Rgba(r: byte, g: byte, b: byte, a: byte)

  /** The four bytes of a pixel, in buffer order. */
  function Bytes(p: Rgba): (s: seq<byte>)
    ensures |s| == 4
  {
    [p.r, p.g, p.b, p.a]
  }

  /** Pixel i of an RGBA buffer. */
  function PixelAt(px: seq<byte>, i: nat): (p: Rgba)
    requires 4 * i + 4 <= |px|
    ensures Bytes(p) == px[4 * i..4 * i + 4]
  {
    Rgba(px[4 * i], px[4 * i + 1], px[4 * i + 2], px[4 * i + 3])
  }

  /** Applies a per-pixel transform to every pixel of an RGBA buffer. */
  function MapPixels(px: seq<byte>, f: Rgba -> Rgba): (out: seq<byte>)
    requires |px| % 4 == 0
    ensures |out| == |px|
    decreases |px|
  {
    if px == [] then [] else Bytes(f(PixelAt(px, 0))) + MapPixels(px[4..], f)
  }

  /** Pixel i of the output is the transform of pixel i of the input. */
  lemma {:induction false} MapPixelsAt(px: seq<byte>, f: Rgba -> Rgba, i: nat)
    requires |px| % 4 == 0
    requires 4 * i < |px|
    ensures PixelAt(MapPixels(px, f), i) == f(PixelAt(px, i))
    decreases i
  {
    var out := MapPixels(px, f);
    if i == 0 {
      assert out[..4] == Bytes(f(PixelAt(px, 0)));
    } else {
      var tail := px[4..];
      MapPixelsAt(tail, f, i - 1);
      assert PixelAt(tail, i - 1) == PixelAt(px, i);
      assert out[4 * i..4 * i + 4] == MapPixels(tail, f)[4 * (i - 1)..4 * (i - 1) + 4];
    }
  }

  /** Transforming two buffers one after the other equals transforming their concatenation. */
  lemma {:induction false} MapPixelsAppend(a: seq<byte>, b: seq<byte>, f: Rgba -> Rgba)
    requires |a| % 4 == 0 && |b| % 4 == 0
    ensures MapPixels(a + b, f) == MapPixels(a, f) + MapPixels(b, f)
    decreases |a|
  {
    if a == [] {
      assert a + b == b;
    } else {
      assert PixelAt(a + b, 0) == PixelAt(a, 0);
      assert (a + b)[4..] == a[4..] + b;
      MapPixelsAppend(a[4..], b, f);
    }
  }

  /**
   * Each pixel is converted on its own: converting two pixel-aligned pieces
   * of a buffer separately gives the conversion of the whole.
   */
  lemma GrayscaleAppend(a: seq<byte>, b: seq<byte>)
    requires |a| % 4 == 0 && |b| % 4 == 0
    ensures Grayscale(a + b) == Grayscale(a) + Grayscale(b)
  {
    MapPixelsAppend(a, b, GrayPixel);
  }

  /** An idempotent per-pixel transform is idempotent on whole buffers. */
  lemma {:induction false} MapPixelsIdempotent(px: seq<byte>, f: Rgba -> Rgba)
    requires |px| % 4 == 0
    requires forall p :: f(f(p)) == f(p)
    ensures MapPixels(MapPixels(px, f), f) == MapPixels(px, f)
    decreases |px|
  {
    if px != [] {
      var out := MapPixels(px, f);
      assert PixelAt(out, 0) == f(PixelAt(px, 0));
      assert out[4..] == MapPixels(px[4..], f);
      MapPixelsIdempotent(px[4..], f);
    }
  }

  /** The output of one pixel: gray in R, G and B, the alpha copied. */
  function GrayPixel(p: Rgba): (q: Rgba)
    ensures q.r == q.g == q.b
    ensures q.a == p.a
  {
    var y := Luma(p.r, p.g, p.b);
    Rgba(y, y, y, p.a)
  }

  /** The grayscale image of a whole RGBA buffer. */
  function Grayscale(px: seq<byte>): (out: seq<byte>)
    requires |px| % 4 == 0
    ensures |out| == |px|
  {
    MapPixels(px, GrayPixel)
  }

  /**
   * Pixel i of the output has R = G = B = the luminance of pixel i of the
   * input, and the alpha of pixel i of the input.
   */
  lemma GrayscaleAt(px: seq<byte>, i: nat)
    requires |px| % 4 == 0
    requires 4 * i + 4 <= |px|
    ensures var out := Grayscale(px);
      var y := Luma(px[4 * i], px[4 * i + 1], px[4 * i + 2]);
      out[4 * i] == y && out[4 * i + 1] == y && out[4 * i + 2] == y && out[4 * i + 3] == px[4 * i + 3]
  {
    var out := Grayscale(px);
    MapPixelsAt(px, GrayPixel, i);
    var p, q := PixelAt(px, i), PixelAt(out, i);
    assert q == GrayPixel(p);
    assert out[4 * i] == q.r && out[4 * i + 1] == q.g && out[4 * i + 2] == q.b && out[4 * i + 3] == q.a;
    assert q.r == Luma(p.r, p.g, p.b);
  }

  /** Every pixel of a buffer is gray: its R, G and B bytes are equal. */
  ghost predicate IsGray(px: seq<byte>)
  {
    |px| % 4 == 0 &&
    forall i :: 0 <= i < |px| / 4 ==> px[4 * i] == px[4 * i + 1] == px[4 * i + 2]
  }

  /** The output is gray and carries the input's alpha at every pixel. */
  lemma GrayscaleIsGray(px: seq<byte>)
    requires |px| % 4 == 0
    ensures IsGray(Grayscale(px))
    ensures forall i :: 0 <= i < |px| / 4 ==> Grayscale(px)[4 * i + 3] == px[4 * i + 3]
  {
    forall i | 0 <= i < |px| / 4
      ensures Grayscale(px)[4 * i] == Grayscale(px)[4 * i + 1] == Grayscale(px)[4 * i + 2]
      ensures Grayscale(px)[4 * i + 3] == px[4 * i + 3]
    {
      GrayscaleAt(px, i);
    }
  }

  /** Converting an already converted buffer changes nothing. */
  lemma GrayscaleIdempotent(px: seq<byte>)
    requires |px| % 4 == 0
    ensures Grayscale(Grayscale(px)) == Grayscale(px)
  {
    assert forall p :: GrayPixel(GrayPixel(p)) == GrayPixel(p);
    MapPixelsIdempotent(px, GrayPixel);
  }

  /** Stores one pixel at pixel position i of a buffer, leaving every other byte as it was. */
  method WritePixel(buf: array<byte>, i: nat, q: Rgba)
    requires 4 * i + 4 <= buf.Length
    modifies buf
    ensures buf[4 * i] == q.r && buf[4 * i + 1] == q.g && buf[4 * i + 2] == q.b && buf[4 * i + 3] == q.a
    ensures forall j :: 0 <= j < buf.Length && (j < 4 * i || 4 * i + 4 <= j) ==> buf[j] == old(buf[j])
  {
    buf[4 * i] := q.r;
    buf[4 * i + 1] := q.g;
    buf[4 * i + 2] := q.b;
    buf[4 * i + 3] := q.a;
  }

  /**
   * The conversion proper, once the arguments are checked: the first
   * `pixels` pixels of `output` receive the grayscale image of the first
   * `pixels` pixels of `input` (luminance in R, G and B, the input's alpha),
   * and no other byte of `output` changes. `input` and `output` may be the
   * same buffer, since each pixel is read before it is written.
   */
  method MergeGray(input: array<byte>, output: array<byte>, pixels: nat)
    requires 4 * pixels <= input.Length && 4 * pixels <= output.Length
    modifies output
    ensures output[..4 * pixels] == Grayscale(old(input[..4 * pixels]))
    ensures output[4 * pixels..] == old(output[4 * pixels..])
    ensures input != output ==> input[..] == old(input[..])
  {
    ghost var src := input[..4 * pixels];
    ghost var gray := Grayscale(src);
    var i := 0;
    while i < pixels
      invariant 0 <= i <= pixels
      invariant forall j :: 0 <= j < 4 * i ==> output[j] == gray[j]
      invariant forall j :: 4 * i <= j < output.Length ==> output[j] == old(output[j])
      invariant forall j :: 4 * i <= j < 4 * pixels ==> input[j] == src[j]
      invariant input != output ==> input[..] == old(input[..])
    {
      var q := GrayPixel(Rgba(input[4 * i], input[4 * i + 1], input[4 * i + 2], input[4 * i + 3]));
      MapPixelsAt(src, GrayPixel, i);
      assert q == PixelAt(gray, i);
      assert gray[4 * i] == q.r && gray[4 * i + 1] == q.g && gray[4 * i + 2] == q.b && gray[4 * i + 3] == q.a;
      WritePixel(output, i, q);
      forall j | 4 * i <= j < 4 * i + 4
        ensures output[j] == gray[j]
      {
        if j == 4 * i {
        } else if j == 4 * i + 1 {
        } else if j == 4 * i + 2 {
        } else {
          assert j == 4 * i + 3;
        }
      }
      i := i + 1;
    }
    assert output[..4 * pixels] == gray by {
      forall j | 0 <= j < 4 * pixels
        ensures output[..4 * pixels][j] == gray[j]
      {
      }
    }
    assert output[4 * pixels..] == old(output[4 * pixels..]) by {
      forall j | 0 <= j < output.Length - 4 * pixels
        ensures output[4 * pixels..][j] == old(output[4 * pixels..])[j]
      {
      }
    }
  }

  /**
   * `convert_to_grayscale`. A null pointer is a null array. The caller
   * promises that `outputBufferSize` does not exceed the real capacity of
   * `output`, and that `input` holds an RGBA image of the stated size.
   * On success the first width * height * 4 bytes of `output` hold the
   * grayscale image of the input; on any error `output` is left as it was.
   */
  method ConvertToGrayscale(input: array?<byte>, width: int32, height: int32,
                            output: array?<byte>, outputBufferSize: nat, fault: Fault)
    returns (code: GrayscaleResultCode)
    requires output != null ==> outputBufferSize <= output.Length
    requires input != null && width > 0 && height > 0 ==> RequiredSize(width, height) <= input.Length
    modifies output
    ensures input == null || output == null ==> code == ErrNullBuffer
    ensures input != null && output != null && (width <= 0 || height <= 0) ==>
              code == ErrInvalidDimensions
    ensures (input != null && output != null && width > 0 && height > 0 &&
             outputBufferSize < RequiredSize(width, height)) ==> code == ErrOutputTooSmall
    ensures (input != null && output != null && width > 0 && height > 0 &&
             RequiredSize(width, height) <= outputBufferSize) ==> code == FaultCode(fault)
    ensures code != GrayscaleSuccess && output != null ==> output[..] == old(output[..])
    ensures code == GrayscaleSuccess ==>
              input != null && output != null &&
              var n := RequiredSize(width, height);
              output[..n] == Grayscale(old(input[..n])) && output[n..] == old(output[n..])
    ensures input != null && input != output ==> input[..] == old(input[..])
  {
    if input == null || output == null {
      return ErrNullBuffer;
    }
    if width <= 0 || height <= 0 {
      return ErrInvalidDimensions;
    }
    var required := RequiredSize(width, height);
    if outputBufferSize < required {
      return ErrOutputTooSmall;
    }
    if fault != NoFault {
      return FaultCode(fault);
    }

    var pixels := (width as int) * (height as int);
    MergeGray(input, output, pixels);
    return GrayscaleSuccess;
  }
}
