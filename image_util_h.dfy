/**
 * The public interface of the native grayscale routine: the byte type of its
 * buffers and the result codes it returns.
 */
module ImageUtilApi {
  import opened Wrappers

  /** An unsigned 8-bit value (`uint8_t`). */
  newtype byte = x: int | 0 <= x < 256

  /** The outcome of a conversion. */
  datatype GrayscaleResultCode =
    | GrayscaleSuccess
    | ErrNullBuffer
    | ErrInvalidDimensions
    | ErrOutputTooSmall
    | ErrException
    | ErrUnknown

  /** The integer value of each enumerator, as the C enum numbers them. */
  function Code(c: GrayscaleResultCode): (n: int)
    ensures 0 <= n <= 5
    ensures n == 0 <==> c == GrayscaleSuccess
  {
    match c
    case GrayscaleSuccess => 0
    case ErrNullBuffer => 1
    case ErrInvalidDimensions => 2
    case ErrOutputTooSmall => 3
    case ErrException => 4
    case ErrUnknown => 5
  }

  /** Reads an integer returned across the native boundary back as a result code. */
  function FromCode(n: int): (r: Option<GrayscaleResultCode>)
    ensures r.Some? <==> 0 <= n <= 5
    ensures r.Some? ==> Code(r.value) == n
  {
    if n == 0 then Some(GrayscaleSuccess)
    else if n == 1 then Some(ErrNullBuffer)
    else if n == 2 then Some(ErrInvalidDimensions)
    else if n == 3 then Some(ErrOutputTooSmall)
    else if n == 4 then Some(ErrException)
    else if n == 5 then Some(ErrUnknown)
    else None
  }

  /** Every result code survives the trip through its integer value. */
  lemma CodeRoundTrip(c: GrayscaleResultCode)
    ensures FromCode(Code(c)) == Some(c)
  {
  }

  /** The six result codes are pairwise distinct integers. */
  lemma CodesDistinct(c: GrayscaleResultCode, d: GrayscaleResultCode)
    ensures Code(c) == Code(d) <==> c == d
  {
    CodeRoundTrip(c);
    CodeRoundTrip(d);
  }
}
