/** The C integer semantics the generated fixtures rely on: 32-bit ranges,
    `/` and `%` truncating toward zero (C99 section 6.5.5), and the
    modulo-2^32 conversion to an unsigned type (C99 section 6.3.1.3). */
module CInt {

  const INT32_MIN: int := -0x8000_0000
  const INT32_MAX: int := 0x7fff_ffff
  const UINT32_MAX: int := 0xffff_ffff
  const TWO_32: int := 0x1_0000_0000

  /** `int32_t` (and `int` on the targets the fixtures are built for). */
  type Int32 = x: int | INT32_MIN <= x <= INT32_MAX

  /** `uint32_t` / `unsigned`. */
  type Uint32 = x: int | 0 <= x <= UINT32_MAX

  function Abs(x: int): nat {
    if x < 0 then -x else x
  }

  /** C's `a / b`: the algebraic quotient with any fraction discarded. */
  function TruncDiv(a: int, b: int): int
    requires b != 0
  {
    if (a < 0) == (b < 0) then Abs(a) / Abs(b) else -(Abs(a) / Abs(b))
  }

  /** C's `a % b`: the remainder of the magnitudes, with the sign of the dividend. */
  function TruncRem(a: int, b: int): int
    requires b != 0
  {
    if a < 0 then -(Abs(a) % Abs(b)) else Abs(a) % Abs(b)
  }

  /** Euclidean division of naturals, as Dafny defines it. */
  lemma NatDivMod(n: nat, d: nat)
    requires d > 0
    ensures n == (n / d) * d + n % d && 0 <= n % d < d
    ensures n / d <= n
  {
    var q := n / d;
    assert q * d >= q * 1 by {
      assert d >= 1;
    }
  }

  /** Both truncating operations, written as the Euclidean ones on the magnitudes
      with the signs put back. */
  lemma TruncDivCases(a: int, b: int)
    requires b != 0
    ensures var q0, r0 := Abs(a) / Abs(b), Abs(a) % Abs(b);
      && TruncDiv(a, b) == (if (a < 0) == (b < 0) then q0 else -q0)
      && TruncRem(a, b) == (if a < 0 then -r0 else r0)
  {
  }

  lemma SignedProduct(q0: int, bb: int, sa: bool, sb: bool)
    ensures (if sa == sb then q0 else -q0) * (if sb then -bb else bb) == (if sa then -(q0 * bb) else q0 * bb)
  {
    if sa && sb {
      assert q0 * (-bb) == -(q0 * bb);
    } else if sa {
      assert (-q0) * bb == -(q0 * bb);
    } else if sb {
      assert (-q0) * (-bb) == q0 * bb;
    }
  }

  /** The C standard's identity `(a / b) * b + a % b == a` holds of the model, the
      remainder is smaller than the divisor in magnitude and has the sign of the
      dividend, and the quotient is never larger in magnitude than the dividend. */
  lemma TruncDivSpec(a: int, b: int)
    requires b != 0
    ensures TruncDiv(a, b) * b + TruncRem(a, b) == a
    ensures Abs(TruncRem(a, b)) < Abs(b)
    ensures TruncRem(a, b) == 0 || (TruncRem(a, b) < 0 <==> a < 0)
    ensures Abs(TruncDiv(a, b)) <= Abs(a)
  {
    var aa: int, bb: int := Abs(a), Abs(b);
    var q0: int, r0: int := aa / bb, aa % bb;
    NatDivMod(aa, bb);
    TruncDivCases(a, b);
    SignedProduct(q0, bb, a < 0, b < 0);
    assert b == (if b < 0 then -bb else bb);
    assert a == (if a < 0 then -(q0 * bb + r0) else q0 * bb + r0);
  }

  /** Dividing by 1 gives the dividend; dividing by -1 negates it. */
  lemma TruncDivByOne(a: int)
    ensures TruncDiv(a, 1) == a
    ensures TruncDiv(a, -1) == -a
  {
  }

  /** For non-negative operands C's `/` is floor division. */
  lemma TruncDivNonNeg(a: nat, b: nat)
    requires b > 0
    ensures TruncDiv(a, b) == a / b && TruncRem(a, b) == a % b
  {
  }

  /** Dividing by at least 2 at least halves. */
  lemma NatDivAtLeastTwo(n: nat, d: nat)
    requires d >= 2
    ensures (n / d) * 2 <= n
  {
    var q := n / d;
    NatDivMod(n, d);
    assert q * 2 <= q * d;
  }

  /** The quotient of two 32-bit operands leaves the 32-bit range only for `INT32_MIN / -1`. */
  lemma TruncDivInt32Range(a: Int32, b: Int32)
    requires b != 0
    ensures INT32_MIN <= TruncDiv(a, b) <= INT32_MAX || (a == INT32_MIN && b == -1)
    ensures TruncDiv(a, b) <= INT32_MAX + 1
  {
    if b == -1 || b == 1 {
      TruncDivByOne(a);
    } else {
      NatDivAtLeastTwo(Abs(a), Abs(b));
    }
  }

  /** Conversion of any integer to `uint32_t`: reduction modulo 2^32. */
  function ToUint32(x: int): (r: Uint32)
    ensures 0 <= x <= UINT32_MAX ==> r == x
  {
    x % TWO_32
  }

  /** Conversion of a `uint32_t` to `int32_t` (two's complement, as gcc defines it). */
  function ToInt32(x: Uint32): (r: Int32)
    ensures x <= INT32_MAX ==> r == x
    ensures (r - x) % TWO_32 == 0
  {
    if x <= INT32_MAX then x else x - TWO_32
  }
}
