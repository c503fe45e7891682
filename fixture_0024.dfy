/** `process_saturating_div` of `iter_0024.c`: one pass over two arrays that divides
    every element by 1 and then, from the second element on, by the element before it
    (already updated in this pass), a zero divisor being replaced by 1. Its `ssdiv` and
    `usdiv` are the helpers of `iter_0023.c`. */
module Fixture0024 {
  import opened CInt
  import F23 = Fixture0023

  /** `x ? x : 1` on a divisor. */
  function NonZero(x: int): (r: int)
    ensures r != 0
    ensures x != 0 ==> r == x
  {
    if x != 0 then x else 1
  }

  /** The new value of `arr[i]` given the array `t` as it is when round `i` starts. */
  function SignedRound(t: seq<Int32>, i: nat): Int32
    requires i < |t|
  {
    var v := if i % 2 == 0 then F23.SsDivInt32(t[i], 1) else t[i];
    if i > 0 then F23.SsDivInt32(v, NonZero(t[i - 1])) else v
  }

  /** The new value of `uarr[i]` given the array `t` as it is when round `i` starts. */
  function UnsignedRound(t: seq<Uint32>, i: nat): Uint32
    requires i < |t|
  {
    var v := if i % 2 == 0 then t[i] else F23.UsDivUint32(t[i], 1);
    if i > 0 then F23.UsDivUint32(v, NonZero(t[i - 1])) else v
  }

  /** The signed array after the first `k` rounds of the loop. */
  function SignedPass(s: seq<Int32>, k: nat): (t: seq<Int32>)
    requires k <= |s|
    ensures |t| == |s|
  {
    if k == 0 then s else SignedPass(s, k - 1)[k - 1 := SignedRound(SignedPass(s, k - 1), k - 1)]
  }

  /** The unsigned array after the first `k` rounds of the loop. */
  function UnsignedPass(s: seq<Uint32>, k: nat): (t: seq<Uint32>)
    requires k <= |s|
    ensures |t| == |s|
  {
    if k == 0 then s else UnsignedPass(s, k - 1)[k - 1 := UnsignedRound(UnsignedPass(s, k - 1), k - 1)]
  }

  /** `process_saturating_div(arr, uarr, n)`; the caller must pass arrays with at least
      `n` elements. A non-positive `n` leaves both arrays alone. */
  method ProcessSaturatingDiv(arr: array<Int32>, uarr: array<Uint32>, n: Int32)
    requires n <= arr.Length && n <= uarr.Length
    modifies arr, uarr
    ensures n <= 0 ==> arr[..] == old(arr[..]) && uarr[..] == old(uarr[..])
    ensures n > 0 ==> arr[..] == SignedPass(old(arr[..]), n) && uarr[..] == UnsignedPass(old(uarr[..]), n)
  {
    ghost var s0, u0 := arr[..], uarr[..];
    var i := 0;
    while i < n
      invariant 0 <= i <= if n > 0 then n else 0
      invariant arr[..] == SignedPass(s0, i) && uarr[..] == UnsignedPass(u0, i)
    {
      ghost var t, w := arr[..], uarr[..];
      if i % 2 == 0 {
        arr[i] := F23.SsDivInt32(arr[i], 1);
      } else {
        uarr[i] := F23.UsDivUint32(uarr[i], 1);
      }
      if i > 0 {
        arr[i] := F23.SsDivInt32(arr[i], if arr[i - 1] != 0 then arr[i - 1] else 1);
        uarr[i] := F23.UsDivUint32(uarr[i], if uarr[i - 1] != 0 then uarr[i - 1] else 1);
      }
      assert arr[..] == t[i := SignedRound(t, i)];
      assert uarr[..] == w[i := UnsignedRound(w, i)];
      i := i + 1;
    }
  }

  /** Elements from index `k` on are untouched by the first `k` rounds: the pass
      writes nothing at or beyond `n`. */
  lemma {:induction false} PassFrame(s: seq<Int32>, u: seq<Uint32>, k: nat, j: nat)
    requires k <= |s| && k <= |u|
    ensures k <= j < |s| ==> SignedPass(s, k)[j] == s[j]
    ensures k <= j < |u| ==> UnsignedPass(u, k)[j] == u[j]
  {
    if k > 0 {
      PassFrame(s, u, k - 1, j);
    }
  }

  /** Rounds after round `i` do not touch element `i`. */
  lemma {:induction false} PassStable(s: seq<Int32>, u: seq<Uint32>, i: nat, k: nat)
    requires i < k <= |s| && k <= |u|
    ensures SignedPass(s, k)[i] == SignedPass(s, i + 1)[i]
    ensures UnsignedPass(u, k)[i] == UnsignedPass(u, i + 1)[i]
  {
    if k > i + 1 {
      PassStable(s, u, i, k - 1);
    }
  }

  /** The first element of each array comes out unchanged (round 0 divides it by 1 only). */
  lemma PassFirst(s: seq<Int32>, u: seq<Uint32>, k: nat)
    requires 0 < k <= |s| && k <= |u|
    ensures SignedPass(s, k)[0] == s[0]
    ensures UnsignedPass(u, k)[0] == u[0]
  {
    PassStable(s, u, 0, k);
    F23.DivByOne(s[0], u[0], 1);
  }

  /** After the pass, each element from the second on is its original value divided by
      the already-updated element before it (0 replaced by 1), so no division by zero happens. */
  lemma PassValue(s: seq<Int32>, u: seq<Uint32>, k: nat, i: nat)
    requires 0 < i < k <= |s| && k <= |u|
    ensures SignedPass(s, k)[i] == F23.SsDivInt32(s[i], NonZero(SignedPass(s, k)[i - 1]))
    ensures UnsignedPass(u, k)[i] == F23.UsDivUint32(u[i], NonZero(UnsignedPass(u, k)[i - 1]))
  {
    PassStable(s, u, i, k);
    PassStable(s, u, i - 1, k);
    PassFrame(s, u, i, i);
    F23.DivByOne(s[i], u[i], 1);
  }
}
