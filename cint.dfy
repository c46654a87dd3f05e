/**
  The C++ `int` type of the header and the sample: 32-bit two's complement,
  where signed overflow is undefined behaviour. Arithmetic that the source
  performs in `int` is modelled by converting to `int32`, so Dafny has to
  prove that no intermediate value leaves the range.
 */
module CInt {

  const INT_MAX: int := 0x7fff_ffff

  newtype int32 = x: int | -0x8000_0000 <= x <= 0x7fff_ffff

  /** C's `/` on signed integers with a positive divisor: the quotient is
      truncated toward zero, so the remainder takes the sign of `a`
      (Dafny's own `/` is Euclidean and differs for negative `a`). */
  function CDiv(a: int, b: int): int
    requires b > 0
  {
    if a >= 0 then a / b else -((-a) / b)
  }
}
