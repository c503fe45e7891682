/** `satdiv_variants` of `iter_0043.c`. Its `ssdiv` and `usdiv` are the helpers of
    `iter_0007.c`. The loop counter is `unsigned`, so `i += 2` wraps modulo 2^32. */
module Fixture0043 {
  import opened CInt
  import opened Wrappers
  import F07 = Fixture0007

  /** One execution of the loop body on `acc`: every branch divides by 1, the middle
      range through `uint32_t` with an offset of 2000. */
  function Body(acc: Int32): Int32 {
    if acc > 1000 then F07.SsDivInt32(acc, 1)
    else if acc < -1000 then F07.SsDivInt32(acc, 1)
    else
      var u := ToUint32(acc + 2000);
      var u' := F07.UsDivUint32(u, 1);
      ToInt32(ToUint32(ToInt32(u') - 2000))
  }

  /** `(acc & 1) ? 1 : 2`; on a two's-complement `int32_t` the low bit is `acc` modulo 2. */
  function Increment(acc: Int32): nat {
    if acc % 2 == 1 then 1 else 2
  }

  /** The body leaves the accumulator as it found it. */
  lemma BodyKeeps(acc: Int32)
    ensures Body(acc) == acc
  {
    F07.DivByOne(acc, 0);
    if -1000 <= acc <= 1000 {
      F07.DivByOne(acc, ToUint32(acc + 2000));
    }
  }

  /** The loop exactly as written, with the counter wrapping modulo 2^32, for at most
      `fuel` iterations: `Some(acc)` when it leaves the loop in time, `None` otherwise. */
  function RunAsWritten(count: Uint32, acc: Int32, i: Uint32, fuel: nat): Option<Int32>
    decreases fuel
  {
    if !(i < count) then Some(acc)
    else if fuel == 0 then None
    else
      var acc' := Body(acc);
      RunAsWritten(count, acc', ToUint32(i + Increment(acc')), fuel - 1)
  }

  /** With an even value and `count == UINT32_MAX`, an even counter is always below
      `count` and `i += 2` wraps from `UINT32_MAX - 1` to 0: no amount of fuel is enough. */
  lemma {:induction false} EvenNeverLeaves(val: Int32, i: Uint32, fuel: nat)
    requires val % 2 == 0 && i % 2 == 0
    ensures RunAsWritten(UINT32_MAX, val, i, fuel) == None
    decreases fuel
  {
    if fuel > 0 {
      BodyKeeps(val);
      var next := ToUint32(i + 2);
      assert next == if i + 2 == TWO_32 then 0 else i + 2;
      EvenNeverLeaves(val, next, fuel - 1);
    }
  }

  /** `satdiv_variants(val, UINT32_MAX)` does not return for any even `val` (for instance 0). */
  lemma SatDivVariantsHangs(val: Int32, fuel: nat)
    requires val % 2 == 0
    ensures RunAsWritten(UINT32_MAX, val, 0, fuel) == None
  {
    EvenNeverLeaves(val, 0, fuel);
  }

  /** Every other call leaves the loop within `count` iterations and returns `val`: the
      counter cannot wrap when `count < UINT32_MAX` or when it only ever steps by 1. */
  lemma {:induction false} RunAsWrittenReturns(count: Uint32, val: Int32, i: Uint32, fuel: nat)
    requires count < UINT32_MAX || val % 2 == 1
    requires i <= count && fuel >= count - i
    ensures RunAsWritten(count, val, i, fuel) == Some(val)
    decreases fuel
  {
    if i < count {
      BodyKeeps(val);
      var next := i + Increment(val);
      if next <= count {
        RunAsWrittenReturns(count, val, next, fuel - 1);
      } else {
        assert RunAsWritten(count, val, ToUint32(next), fuel - 1) == Some(val);
      }
    }
  }

  /** `satdiv_variants` with a counter that does not wrap: it always returns, and
      returns `val`, because every step divides by 1. */
  method SatDivVariants(val: Int32, count: Uint32) returns (r: Int32)
    ensures r == val
  {
    var acc := val;
    var i: int := 0;
    while i < count
      invariant acc == val
      decreases count - i
    {
      BodyKeeps(acc);
      acc := Body(acc);
      i := i + Increment(acc);
    }
    return acc;
  }
}
