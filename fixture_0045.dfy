/** The saturating-division helpers of `iter_0045.c`: a zero divisor gives 0,
    and the quotient is computed in 64 bits and then clamped to the 32-bit range. */
module Fixture0045 {
  import opened CInt

  /** `ssdiv_int32`. */
  function SsDivInt32(x: Int32, y: Int32): (r: Int32)
  {
    if y == 0 then 0
    else
      // `(int64_t)x / (int64_t)y` cannot overflow 64 bits, so it is the exact truncated quotient.
      var wide := TruncDiv(x, y);
      if wide > INT32_MAX then INT32_MAX
      else if wide < INT32_MIN then INT32_MIN
      else wide
  }

  /** `usdiv_uint32`. */
  function UsDivUint32(x: Uint32, y: Uint32): (r: Uint32)
  {
    if y == 0 then 0
    else
      var wide := x / y;
      if wide > UINT32_MAX then UINT32_MAX else wide
  }

  /** Both helpers give 0 for a zero divisor. */
  lemma ZeroDivisor(x: Int32, u: Uint32)
    ensures SsDivInt32(x, 0) == 0 && UsDivUint32(u, 0) == 0
  {
  }

  /** Dividing by 1 gives back the dividend, which is what the calls in `main` rely on. */
  lemma DivByOne(x: Int32, u: Uint32)
    ensures SsDivInt32(x, 1) == x
    ensures UsDivUint32(u, 1) == u
  {
    TruncDivByOne(x);
  }

  /** A non-zero divisor gives the truncated quotient, except `INT32_MIN / -1`, which
      saturates to `INT32_MAX`; the clamp to `INT32_MIN` is never taken. */
  lemma SsDivQuotient(x: Int32, y: Int32)
    requires y != 0
    ensures x == INT32_MIN && y == -1 ==> SsDivInt32(x, y) == INT32_MAX
    ensures !(x == INT32_MIN && y == -1) ==> SsDivInt32(x, y) == TruncDiv(x, y)
  {
    TruncDivInt32Range(x, y);
    if y == -1 {
      TruncDivByOne(x);
    }
  }

  /** A non-zero divisor never makes the unsigned quotient larger than the dividend. */
  lemma UsDivBound(x: Uint32, y: Uint32)
    requires y >= 1
    ensures UsDivUint32(x, y) <= x
    ensures UsDivUint32(x, y) == x / y
  {
    NatDivMod(x, y);
  }
}
