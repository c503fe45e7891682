/** The saturating-division helpers of `iter_0007.c` (the same two functions appear,
    renamed `ssdiv` and `usdiv`, in `iter_0043.c`): a zero divisor saturates
    towards the sign of the dividend, and the 64-bit quotient is clamped. */
module Fixture0007 {
  import opened CInt

  /** `ssdiv_int32`. */
  function SsDivInt32(a: Int32, b: Int32): Int32
  {
    if b == 0 then (if a > 0 then INT32_MAX else if a < 0 then INT32_MIN else 0)
    else
      var res := TruncDiv(a, b);
      if res > INT32_MAX then INT32_MAX
      else if res < INT32_MIN then INT32_MIN
      else res
  }

  /** `usdiv_uint32`. */
  function UsDivUint32(a: Uint32, b: Uint32): Uint32
  {
    if b == 0 then (if a > 0 then UINT32_MAX else 0)
    else
      var res := a / b;
      if res > UINT32_MAX then UINT32_MAX else res
  }

  /** Dividing by zero saturates: the signed result has the sign of the dividend at
      full magnitude (0 stays 0), the unsigned one is the maximum unless the dividend is 0. */
  lemma ZeroDivisor(a: Int32, u: Uint32)
    ensures a > 0 ==> SsDivInt32(a, 0) == INT32_MAX
    ensures a < 0 ==> SsDivInt32(a, 0) == INT32_MIN
    ensures a == 0 ==> SsDivInt32(a, 0) == 0
    ensures UsDivUint32(u, 0) == 0 <==> u == 0
    ensures u > 0 ==> UsDivUint32(u, 0) == UINT32_MAX
  {
  }

  /** A non-zero divisor gives the truncated quotient clamped to the 32-bit range;
      the only quotient the clamp changes is that of `INT32_MIN / -1`. */
  lemma Quotient(a: Int32, b: Int32)
    requires b != 0
    ensures INT32_MIN <= TruncDiv(a, b) <= INT32_MAX ==> SsDivInt32(a, b) == TruncDiv(a, b)
    ensures a == INT32_MIN && b == -1 ==> SsDivInt32(a, b) == INT32_MAX
    ensures !(a == INT32_MIN && b == -1) ==> SsDivInt32(a, b) == TruncDiv(a, b)
  {
    TruncDivInt32Range(a, b);
    if b == -1 {
      TruncDivByOne(a);
    }
  }

  /** The unsigned helper with a non-zero divisor is plain unsigned division, never above the dividend. */
  lemma UnsignedQuotient(a: Uint32, b: Uint32)
    requires b != 0
    ensures UsDivUint32(a, b) == a / b
    ensures UsDivUint32(a, b) <= a
  {
    NatDivMod(a, b);
  }

  /** Dividing by 1 gives back the dividend for both helpers. */
  lemma DivByOne(a: Int32, u: Uint32)
    ensures SsDivInt32(a, 1) == a
    ensures UsDivUint32(u, 1) == u
  {
    TruncDivByOne(a);
  }
}
