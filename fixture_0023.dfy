/** The helpers of `iter_0023.c` (`ssdiv_int32`, `usdiv_uint32` and the loop-based
    `select_value`); `iter_0024.c` has the same two division helpers under the names
    `ssdiv` and `usdiv`. This variant checks the one overflowing quotient explicitly
    instead of widening to 64 bits. */
module Fixture0023 {
  import opened CInt
  import F45 = Fixture0045
  import F07 = Fixture0007

  /** `ssdiv_int32`: a zero divisor gives `INT32_MAX` for a non-negative dividend and
      `INT32_MIN` otherwise; `INT32_MIN / -1` gives `INT32_MAX`; anything else is C's `a / b`. */
  function SsDivInt32(a: Int32, b: Int32): Int32
  {
    if b == 0 then (if a >= 0 then INT32_MAX else INT32_MIN)
    else if a == INT32_MIN && b == -1 then INT32_MAX
    else
      TruncDivInt32Range(a, b);
      TruncDiv(a, b)
  }

  /** `usdiv_uint32`: a zero divisor gives `UINT32_MAX`, anything else is unsigned `a / b`. */
  function UsDivUint32(a: Uint32, b: Uint32): Uint32
  {
    if b == 0 then UINT32_MAX
    else
      NatDivMod(a, b);
      a / b
  }

  /** The zero-divisor rules of both helpers. */
  lemma ZeroDivisor(a: Int32, u: Uint32)
    ensures a >= 0 ==> SsDivInt32(a, 0) == INT32_MAX
    ensures a < 0 ==> SsDivInt32(a, 0) == INT32_MIN
    ensures UsDivUint32(u, 0) == UINT32_MAX
  {
  }

  /** A non-zero divisor gives C's truncating quotient except for the one quotient
      that does not fit, which saturates; the result is always an `int32_t`. */
  lemma Quotient(a: Int32, b: Int32)
    requires b != 0
    ensures SsDivInt32(INT32_MIN, -1) == INT32_MAX
    ensures !(a == INT32_MIN && b == -1) ==> SsDivInt32(a, b) == TruncDiv(a, b)
    ensures SsDivInt32(a, b) * b + TruncRem(a, b) == a || (a == INT32_MIN && b == -1)
  {
    TruncDivSpec(a, b);
  }

  /** Dividing by 1 gives back the dividend for both helpers; the unsigned quotient never exceeds the dividend. */
  lemma DivByOne(a: Int32, u: Uint32, v: Uint32)
    requires v != 0
    ensures SsDivInt32(a, 1) == a
    ensures UsDivUint32(u, 1) == u
    ensures UsDivUint32(u, v) <= u
  {
    TruncDivByOne(a);
    NatDivMod(u, v);
  }

  /** The three generations of the helpers (`iter_0045.c`, `iter_0007.c`, this file)
      agree whenever the divisor is non-zero; they differ only in what division by zero gives. */
  lemma VariantsAgree(a: Int32, b: Int32, u: Uint32, v: Uint32)
    requires b != 0 && v != 0
    ensures F45.SsDivInt32(a, b) == F07.SsDivInt32(a, b) == SsDivInt32(a, b)
    ensures F45.UsDivUint32(u, v) == F07.UsDivUint32(u, v) == UsDivUint32(u, v)
  {
    F07.Quotient(a, b);
    F45.SsDivQuotient(a, b);
    NatDivMod(u, v);
  }

  /** `select_value`: its two loops only decide between returning `a` and returning `b`,
      and they return `a` exactly when `cond` is positive. */
  method SelectValue(a: Int32, b: Int32, cond: Int32) returns (r: Int32)
    ensures r == (if cond > 0 then a else b)
  {
    if cond > 0 {
      var i := 0;
      while i < 3
        invariant 0 <= i <= 3
        invariant i <= TruncRem(cond, 2)
      {
        if TruncRem(i, 2) == TruncRem(cond, 2) {
          return a;
        }
        i := i + 1;
      }
      // A positive `cond` leaves 0 or 1 modulo 2, so one of the first two rounds returns.
      assert false;
      return b;
    } else {
      var j := 0;
      while j < 2
        invariant 0 <= j <= 2
      {
        if j == cond {
          break;
        }
        j := j + 1;
      }
      r := b;
      if j == 1 {
        r := a;
      }
    }
  }
}
