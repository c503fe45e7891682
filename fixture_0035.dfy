/** The portable fallbacks `ssdiv_by_one` and `usdiv_by_one` of `iter_0035.c` and the
    index bookkeeping of its `main`, which stores results through running indices into
    fixed-size buffers. The `float` values stored in `res` are not modelled: a slot
    records which helper produced it. */
module Fixture0035 {
  import opened CInt
  import opened Wrappers

  /** Fallback `ssdiv_by_one`: a positive value of at least 100 is halved, at most
      twice, stopping as soon as it drops below 100; other values pass through. */
  method SsDivByOne(x: Int32) returns (r: Int32)
    ensures x <= 0 ==> r == x
    ensures x > 0 ==> 0 < r <= x
    ensures x < 100 ==> r == x
    ensures 100 <= x < 200 ==> 2 * r <= x < 2 * r + 2
    ensures x >= 200 ==> 4 * r <= x < 4 * r + 4
  {
    r := x;
    if r > 0 {
      for i := 0 to 2
        invariant i == 0 ==> r == x
        invariant i == 1 ==> (x < 100 && r == x) || (x >= 100 && r == x / 2)
        invariant i == 2 ==> (x < 100 && r == x) || (100 <= x < 200 && r == x / 2) || (x >= 200 && r == (x / 2) / 2)
      {
        if r < 100 {
          break;
        }
        r := TruncDiv(r, 2);
      }
    }
  }

  /** Fallback `usdiv_by_one`: divide by 3 while above 1000. The result is at most
      1000 and at most `x`, equals `x` when `x` is at most 1000, and a value above 1000
      never drops below 1001 / 3. */
  method UsDivByOne(x: Uint32) returns (r: Uint32)
    ensures r <= 1000 && r <= x
    ensures x <= 1000 ==> r == x
    ensures x > 1000 ==> r >= 333
  {
    r := x;
    while r > 1000
      invariant r <= x
      invariant x > 1000 ==> r >= 333
      invariant x <= 1000 ==> r == x
    {
      r := r / 3;
    }
  }

  /** The second half of `main`: eight rounds alternately store `ssdiv_by_one` results
      into `sres[4]` and `usdiv_by_one` results into `ures[4]`. Both indices end at 4,
      every store is in bounds, and every argument is in the range the helpers return
      unchanged. */
  method SaturatingDivisionPaths() returns (sres: array<Int32>, ures: array<Uint32>, sidx: nat, uidx: nat)
    ensures sidx == sres.Length == 4 && uidx == ures.Length == 4
    ensures sres[..] == [-100, -48, -26, -54]
    ensures ures[..] == [201, 403, 805, 807]
  {
    var sval: int := -100;
    var uval: int := 200;
    sres := new Int32[4];
    ures := new Uint32[4];
    sidx, uidx := 0, 0;
    for j := 0 to 8
      invariant j == sidx + uidx && sidx == uidx + j % 2
      invariant sval == SignedBefore(j) && uval == UnsignedBefore(j)
      invariant forall k :: 0 <= k < sidx ==> sres[k] == SignedArg(k)
      invariant forall k :: 0 <= k < uidx ==> ures[k] == UnsignedArg(k)
    {
      RoundStep(j, sidx, uidx);
      if j % 2 == 0 {
        var s := SsDivByOne(sval + j);
        assert s == SignedArg(sidx);
        sres[sidx] := s;
        sidx := sidx + 1;
      } else {
        var u := UsDivByOne(uval + j);
        assert u == UnsignedArg(uidx);
        ures[uidx] := u;
        uidx := uidx + 1;
      }
      if j % 3 == 0 {
        sval := sval + 50;
      } else if j % 3 == 1 {
        uval := uval * 2;
      } else {
        sval := sval - 30;
      }
    }
    ArgValues();
    assert sres[..] == [sres[0], sres[1], sres[2], sres[3]];
    assert ures[..] == [ures[0], ures[1], ures[2], ures[3]];
  }

  /** `sval` at the start of round `j`: +50, -30 or unchanged as `j % 3` is 0, 2 or 1. */
  function SignedBefore(j: nat): int {
    if j == 0 then -100
    else SignedBefore(j - 1) + (if (j - 1) % 3 == 0 then 50 else if (j - 1) % 3 == 2 then -30 else 0)
  }

  /** `uval` at the start of round `j`: doubled after each round with `j % 3 == 1`. */
  function UnsignedBefore(j: nat): int {
    if j == 0 then 200
    else if (j - 1) % 3 == 1 then 2 * UnsignedBefore(j - 1)
    else UnsignedBefore(j - 1)
  }

  /** Round `j` of the eight, with `sidx` calls of `ssdiv_by_one` and `uidx` of
      `usdiv_by_one` made so far: its argument, the counters after it and the values the
      next round starts from. */
  lemma RoundStep(j: nat, sidx: nat, uidx: nat)
    requires j < 8 && j == sidx + uidx && sidx == uidx + j % 2
    ensures j % 2 == 0 ==>
      sidx < 4 && SignedBefore(j) + j == SignedArg(sidx) && -100 <= SignedArg(sidx) <= 0 && (j + 1) % 2 == 1
    ensures j % 2 == 1 ==>
      uidx < 4 && UnsignedBefore(j) + j == UnsignedArg(uidx) && 0 <= UnsignedArg(uidx) <= 1000 && (j + 1) % 2 == 0
    ensures SignedBefore(j + 1) == SignedBefore(j) + if j % 3 == 0 then 50 else if j % 3 == 2 then -30 else 0
    ensures UnsignedBefore(j + 1) == if j % 3 == 1 then 2 * UnsignedBefore(j) else UnsignedBefore(j)
  {
    if j % 2 == 0 {
      assert j == 2 * sidx;
      ArgRange(sidx);
    } else {
      assert j == 2 * uidx + 1;
      ArgRange(uidx);
    }
  }

  /** The argument of the `k`-th call of `ssdiv_by_one`, made in round `2 * k`. */
  function SignedArg(k: nat): int {
    SignedBefore(2 * k) + 2 * k
  }

  /** The argument of the `k`-th call of `usdiv_by_one`, made in round `2 * k + 1`. */
  function UnsignedArg(k: nat): int {
    UnsignedBefore(2 * k + 1) + 2 * k + 1
  }

  /** The arguments of the eight rounds: negative for `ssdiv_by_one`, which then returns
      them unchanged, and at most 1000 for `usdiv_by_one`, which does too. */
  lemma ArgRange(k: nat)
    requires k < 4
    ensures -100 <= SignedArg(k) <= 0
    ensures 0 <= UnsignedArg(k) <= 1000
  {
    ArgValues();
    if k == 0 {
    } else if k == 1 {
    } else if k == 2 {
    } else {
    }
  }

  /** The four arguments of each helper. */
  lemma ArgValues()
    ensures SignedArg(0) == -100 && SignedArg(1) == -48 && SignedArg(2) == -26 && SignedArg(3) == -54
    ensures UnsignedArg(0) == 201 && UnsignedArg(1) == 403 && UnsignedArg(2) == 805 && UnsignedArg(3) == 807
  {
    assert SignedBefore(0) == -100 && SignedBefore(2) == -50;
    assert SignedBefore(4) == -30 && SignedBefore(6) == -60;
    assert UnsignedBefore(1) == 200 && UnsignedBefore(3) == 400;
    assert UnsignedBefore(5) == 800 && UnsignedBefore(7) == 800;
  }

  /** Which `copysign` helper produced a value of `res`. */
  datatype Slot = Unset | Identical | ConstSecond | FirstNeg | FirstAbs | SecondAbs | NestedFirst | NestedSecond

  /** The values the first loop of `main` stores in round `i`, in order. */
  function Writes(i: nat): (w: seq<Slot>)
    ensures 1 <= |w| <= 3
    ensures Unset !in w
  {
    var first := if i % 3 == 0 then Identical else if i % 3 == 1 then ConstSecond else FirstNeg;
    [first] + (if i > 5 then [FirstAbs, SecondAbs] else []) + (if i == 4 then [NestedFirst, NestedSecond] else [])
  }

  /** The number of rounds of the first loop of `main`. */
  const Rounds: nat := 10

  /** Everything rounds `0 .. n - 1` store, in order. */
  function Schedule(n: nat): seq<Slot>
  {
    if n == 0 then [] else Schedule(n - 1) + Writes(n - 1)
  }

  /** The number of stores after `n` rounds. */
  lemma {:induction false} ScheduleLength(n: nat)
    ensures |Schedule(n)| == n + (if n > 6 then 2 * (n - 6) else 0) + (if n > 4 then 2 else 0)
  {
    if n > 0 {
      ScheduleLength(n - 1);
    }
  }

  /** The first loop of `main` run against a buffer of `capacity` slots with every store
      bounds-checked: `None` when all stores fit (the buffer then holds the whole schedule),
      otherwise the round and the index of the first store past the end. */
  method FillResults(capacity: nat) returns (res: array<Slot>, outcome: Option<(nat, nat)>)
    ensures res.Length == capacity
    ensures outcome == None <==> capacity >= |Schedule(Rounds)|
    ensures outcome == None ==> res[..|Schedule(Rounds)|] == Schedule(Rounds)
    ensures outcome.Some? ==>
              outcome.value.1 == capacity && |Schedule(outcome.value.0)| <= capacity < |Schedule(outcome.value.0 + 1)|
  {
    res := new Slot[capacity];
    var idx := 0;
    for i := 0 to Rounds
      invariant idx == |Schedule(i)| <= capacity
      invariant res[..idx] == Schedule(i)
    {
      var w := Writes(i);
      var full;
      idx, full := StoreRound(res, idx, w);
      if full {
        Overflow(i, capacity);
        return res, Some((i, idx));
      }
    }
    ScheduleMonotone(Rounds, Rounds);
    outcome := None;
  }

  /** The stores of one round, `res[idx++] = …` for each value of `w` in turn, each checked
      against the end of the buffer: `full` when a store would go past it, with `next` the
      index of that store. */
  method StoreRound(res: array<Slot>, idx: nat, w: seq<Slot>) returns (next: nat, full: bool)
    requires idx <= res.Length
    modifies res
    ensures full <==> res.Length < idx + |w|
    ensures full ==> next == res.Length
    ensures !full ==> next == idx + |w| && res[..next] == old(res[..idx]) + w
  {
    next := idx;
    ghost var done := res[..idx];
    for k := 0 to |w|
      invariant next == idx + k <= res.Length
      invariant res[..next] == done + w[..k]
    {
      if next >= res.Length {
        return next, true;
      }
      res[next] := w[k];
      next := next + 1;
      assert w[..k + 1] == w[..k] + [w[k]];
    }
    assert w[..|w|] == w;
    full := false;
  }

  /** A buffer that round `i` overflows is too small for the whole schedule. */
  lemma Overflow(i: nat, capacity: nat)
    requires i < Rounds && capacity < |Schedule(i + 1)|
    ensures capacity < |Schedule(Rounds)|
  {
    ScheduleMonotone(i + 1, Rounds);
  }

  lemma {:induction false} ScheduleMonotone(i: nat, n: nat)
    requires i <= n
    ensures |Schedule(i)| <= |Schedule(n)|
  {
    if i < n {
      ScheduleMonotone(i, n - 1);
    }
  }

  /** `main` as written: `float res[8]` while the loop stores 20 values, so the ninth
      store, `res[8]` in round 6, is already past the end. */
  method FillResultsAsWritten() returns (outcome: Option<(nat, nat)>)
    ensures outcome == Some((6, 8))
  {
    var res;
    res, outcome := FillResults(8);
    ScheduleLength(Rounds);
    if outcome.Some? {
      ScheduleLength(outcome.value.0);
      ScheduleLength(outcome.value.0 + 1);
    }
  }

  /** `main` with the buffer sized to what the loop stores: all 20 stores fit. */
  method FillResultsCorrected() returns (res: array<Slot>, idx: nat)
    ensures idx == res.Length == 20
    ensures res[..] == Schedule(Rounds)
  {
    ScheduleLength(Rounds);
    var outcome;
    res, outcome := FillResults(20);
    idx := 20;
  }
}
