/** Day 15: spinning discs. Disc `id` has `numPositions` slots and sits
    at `initialPos` at time 0; a capsule dropped at time `t` reaches it at
    time `t + id`, so it passes when `(initialPos + id + t) % numPositions`
    is 0. The solver scans the times in order for the first at which every
    disc lets the capsule through. All arithmetic is in `u32`, and an
    overflow or a disc with no slots panics. */
module Discs {
  import opened Wrappers
  import opened Text

  datatype Disc = Disc(id: nat, numPositions: nat, initialPos: nat)

  /** The three fields fit in `u32`. */
  predicate IsU32Disc(d: Disc) {
    d.id < U32_LIMIT && d.numPositions < U32_LIMIT && d.initialPos < U32_LIMIT
  }

  /** The largest `u32`, the exclusive end of the scanned times. */
  const U32_MAX: nat := 0xFFFF_FFFF

  /** `(disk.initial_pos + disk.id + time) % disk.num_positions`, the two
      additions done left to right in `u32` and the remainder by a
      possibly zero divisor. */
  function Residual(d: Disc, time: nat): (r: Result<nat>)
    ensures r.Success? <==>
      d.initialPos + d.id < U32_LIMIT && d.initialPos + d.id + time < U32_LIMIT && d.numPositions > 0
    ensures r.Success? ==> r.value < d.numPositions
    ensures r.Success? ==> (r.value == 0 <==> Aligned(d, time))
  {
    if d.initialPos + d.id >= U32_LIMIT || d.initialPos + d.id + time >= U32_LIMIT then
      Failure("attempt to add with overflow")
    else if d.numPositions == 0 then
      Result<nat>.Failure("attempt to calculate the remainder with a divisor of zero")
    else
      var residual := (d.initialPos + d.id + time) % d.numPositions;
      assert residual == 0 <==> Aligned(d, time) by {
        ModZeroIsMultiple(d.initialPos + d.id + time, d.numPositions);
      }
      Success(residual)
  }

  /** A zero remainder means a whole number of turns, and back. */
  lemma ModZeroIsMultiple(x: nat, n: nat)
    requires n > 0
    ensures x % n == 0 <==> exists k: nat :: x == k * n
  {
    if x % n == 0 {
      assert x == (x / n) * n;
    } else {
      forall k: nat | x == k * n
        ensures false
      {
        ModUnique(x, n, k, 0);
      }
    }
  }

  /** The puzzle's condition: the disc's slot is at position 0 when the
      capsule dropped at `time` arrives, `id` seconds later. */
  ghost predicate Aligned(d: Disc, time: nat)
    requires d.numPositions > 0
  {
    exists k: nat :: d.initialPos + d.id + time == k * d.numPositions
  }

  /** The inner loop: `total_residual += residual` over `disks` from
      `total`, each addition checked in `u32`. */
  function TotalFrom(disks: seq<Disc>, time: nat, total: nat): (r: Result<nat>)
    ensures r.Success? ==> total <= r.value < U32_LIMIT || (disks == [] && r.value == total)
  {
    if disks == [] then Success(total)
    else
      match Residual(disks[0], time)
      case Failure(e) => Failure(e)
      case Success(residual) =>
        if total + residual >= U32_LIMIT then Failure("attempt to add with overflow")
        else TotalFrom(disks[1..], time, total + residual)
  }

  /** `total_residual` for the capsule dropped at `time`. */
  function TotalResidual(disks: seq<Disc>, time: nat): Result<nat> {
    TotalFrom(disks, time, 0)
  }

  /** A total that comes out is zero exactly when it started at zero and
      every disc's residual was zero. */
  lemma {:induction false} TotalZero(disks: seq<Disc>, time: nat, total: nat)
    requires TotalFrom(disks, time, total).Success?
    ensures TotalFrom(disks, time, total).value == 0 <==>
      total == 0 && forall i :: 0 <= i < |disks| ==> Residual(disks[i], time) == Success(0)
  {
    if disks != [] {
      var residual := Residual(disks[0], time).value;
      TotalZero(disks[1..], time, total + residual);
      assert forall i :: 1 <= i < |disks| ==> disks[i] == disks[1..][i - 1];
    }
  }

  /** The slots of the discs, summed. */
  function Slots(disks: seq<Disc>): nat {
    if disks == [] then 0 else disks[0].numPositions + Slots(disks[1..])
  }

  /** Nothing overflows while `time` is scanned: every disc has slots,
      its sum with `time` fits in `u32`, and so do all the slots together. */
  predicate Fits(disks: seq<Disc>, time: nat) {
    && (forall i :: 0 <= i < |disks| ==>
          disks[i].numPositions > 0 && disks[i].initialPos + disks[i].id + time < U32_LIMIT)
    && Slots(disks) < U32_LIMIT
  }

  /** Without overflow the total comes out, and is below the slots added. */
  lemma {:induction false} TotalFits(disks: seq<Disc>, time: nat, total: nat)
    requires forall i :: 0 <= i < |disks| ==>
      disks[i].numPositions > 0 && disks[i].initialPos + disks[i].id + time < U32_LIMIT
    requires total + Slots(disks) < U32_LIMIT
    ensures TotalFrom(disks, time, total).Success?
  {
    if disks != [] {
      var residual := Residual(disks[0], time).value;
      assert forall i :: 0 <= i < |disks| - 1 ==> disks[1..][i] == disks[i + 1];
      TotalFits(disks[1..], time, total + residual);
    }
  }

  /** The independent statement of the puzzle: with nothing overflowing,
      the total is zero exactly when every disc is aligned. */
  lemma ZeroTotalIsAligned(disks: seq<Disc>, time: nat)
    requires Fits(disks, time)
    ensures TotalResidual(disks, time).Success?
    ensures TotalResidual(disks, time) == Success(0) <==>
      forall i :: 0 <= i < |disks| ==> Aligned(disks[i], time)
  {
    TotalFits(disks, time, 0);
    TotalZero(disks, time, 0);
    forall i | 0 <= i < |disks|
      ensures Residual(disks[i], time) == Success(0) <==> Aligned(disks[i], time)
    {
    }
  }

  /** The capsule dropped at `time` is stopped: the total comes out and is
      not zero. */
  predicate Blocked(disks: seq<Disc>, time: nat) {
    TotalResidual(disks, time).Success? && TotalResidual(disks, time).value != 0
  }

  /** `solve`: the first time below `u32::MAX` whose total is zero. It
      returns 0 both when time 0 works and when no time does, and fails
      at the first time whose total overflows. */
  method Solve(disks: seq<Disc>) returns (r: Result<nat>)
    ensures r.Success? ==> r.value < U32_MAX
    ensures r.Success? ==> forall t :: 0 <= t < r.value ==> Blocked(disks, t)
    ensures r.Success? && r.value > 0 ==> TotalResidual(disks, r.value) == Success(0)
    ensures r == Success(0) ==>
      TotalResidual(disks, 0) == Success(0) || forall t :: 0 <= t < U32_MAX ==> Blocked(disks, t)
    ensures r.Failure? ==>
      exists t :: 0 <= t < U32_MAX && TotalResidual(disks, t).Failure?
        && forall s :: 0 <= s < t ==> Blocked(disks, s)
  {
    var time := 0;
    while time < U32_MAX
      invariant time <= U32_MAX
      invariant forall t :: 0 <= t < time ==> Blocked(disks, t)
    {
      var total := Total(disks, time);
      if total.Failure? {
        return Failure(total.error);
      }
      if total.value == 0 {
        return Success(time);
      }
      time := time + 1;
    }
    return Success(0);
  }

  /** The inner `for disk in disks` loop, each step as the source orders
      its two checked operations. */
  method Total(disks: seq<Disc>, time: nat) returns (r: Result<nat>)
    ensures r == TotalResidual(disks, time)
  {
    var total: nat := 0;
    var i := 0;
    while i < |disks|
      invariant 0 <= i <= |disks|
      invariant TotalFrom(disks[i..], time, total) == TotalResidual(disks, time)
    {
      assert disks[i..][1..] == disks[i + 1..];
      var residual := Residual(disks[i], time);
      if residual.Failure? {
        return Failure(residual.error);
      }
      if total + residual.value >= U32_LIMIT {
        return Failure("attempt to add with overflow");
      }
      total := total + residual.value;
      i := i + 1;
    }
    return Success(total);
  }

  /** The first example, discs of 5 and 2 slots at positions 4 and 1: time
      5 is the first at which both let the capsule through. */
  lemma ExampleTime()
    ensures forall t :: 0 <= t < 5 ==> Blocked([Disc(1, 5, 4), Disc(2, 2, 1)], t)
    ensures TotalResidual([Disc(1, 5, 4), Disc(2, 2, 1)], 5) == Success(0)
  {
    var example := [Disc(1, 5, 4), Disc(2, 2, 1)];
    assert TotalResidual(example, 0) == Success(0 + 1);
    assert TotalResidual(example, 1) == Success(1 + 0);
    assert TotalResidual(example, 2) == Success(2 + 1);
    assert TotalResidual(example, 3) == Success(3 + 0);
    assert TotalResidual(example, 4) == Success(4 + 1);
  }

  /** Two discs of two slots, one step apart, are never aligned together:
      every time is blocked, so `Solve` answers 0 just as it would for a
      first time of 0. (With `initialPos + id` of 2 or more on some disc
      the scan instead overflows before `u32::MAX`.) */
  lemma NeverAligned()
    ensures forall t :: 0 <= t < U32_MAX ==> Blocked([Disc(0, 2, 0), Disc(1, 2, 0)], t)
  {
    forall t | 0 <= t < U32_MAX
      ensures Blocked([Disc(0, 2, 0), Disc(1, 2, 0)], t)
    {
      var discs := [Disc(0, 2, 0), Disc(1, 2, 0)];
      assert t % 2 + (1 + t) % 2 == 1 by {
        ModUnique(1 + t, 2, t / 2 + t % 2, 1 - t % 2);
      }
      assert discs[1..] == [Disc(1, 2, 0)] && [Disc(1, 2, 0)][1..] == [];
      assert Residual(discs[0], t) == Success(t % 2);
      assert Residual(Disc(1, 2, 0), t) == Success((1 + t) % 2);
      assert TotalFrom([Disc(1, 2, 0)], t, t % 2) == Success(t % 2 + (1 + t) % 2);
      assert TotalResidual(discs, t) == Success(t % 2 + (1 + t) % 2);
    }
  }

  /** A disc whose position and id add to 2 or more makes the scan
      overflow at the last time, `u32::MAX - 1`, so the "none found" answer
      0 needs every disc's sum to be at most 1. */
  lemma LastTimeOverflows(discs: seq<Disc>, i: nat)
    requires i < |discs| && discs[i].initialPos + discs[i].id >= 2
    ensures Residual(discs[i], U32_MAX - 1).Failure?
  {
  }
}
