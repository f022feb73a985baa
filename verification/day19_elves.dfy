/** Day 19: elves sit in a ring, each with one present. Taking turns
    round the ring, an elf that still has presents takes every present of
    the next elf that has any; an elf left with nothing drops out. The
    answer is the seat of the elf that ends with all the presents. */
module ElfRing {
  import opened Wrappers

  /** The presents held at each seat. */
  type Ring = seq<nat>

  function Sum(p: Ring): nat {
    if p == [] then 0 else p[0] + Sum(p[1..])
  }

  /** The number of seats whose elf still has presents. */
  function LiveCount(p: Ring): (n: nat)
    ensures n <= |p|
  {
    if p == [] then 0 else (if p[0] > 0 then 1 else 0) + LiveCount(p[1..])
  }

  /** Replacing one seat's presents changes the total by the difference. */
  lemma {:induction false} SumUpdate(p: Ring, k: nat, v: nat)
    requires k < |p|
    ensures Sum(p[k := v]) == Sum(p) - p[k] + v
  {
    if k > 0 {
      assert p[k := v][1..] == p[1..][k - 1 := v];
      SumUpdate(p[1..], k - 1, v);
    } else {
      assert p[k := v][1..] == p[1..];
    }
  }

  /** Replacing one seat's presents changes the live count only when the
      seat goes from empty to non-empty or back. */
  lemma {:induction false} LiveCountUpdate(p: Ring, k: nat, v: nat)
    requires k < |p|
    ensures LiveCount(p[k := v]) == LiveCount(p) - (if p[k] > 0 then 1 else 0) + (if v > 0 then 1 else 0)
  {
    if k > 0 {
      assert p[k := v][1..] == p[1..][k - 1 := v];
      LiveCountUpdate(p[1..], k - 1, v);
    } else {
      assert p[k := v][1..] == p[1..];
    }
  }

  /** Presents somewhere mean a live seat somewhere, and back. */
  lemma {:induction false} SumPositiveLive(p: Ring)
    ensures Sum(p) > 0 <==> LiveCount(p) > 0
  {
    if p != [] {
      SumPositiveLive(p[1..]);
    }
  }

  /** A positive live count has a witness seat. */
  lemma {:induction false} LiveWitness(p: Ring)
    requires LiveCount(p) > 0
    ensures exists k :: 0 <= k < |p| && p[k] > 0
  {
    if p[0] == 0 {
      LiveWitness(p[1..]);
      var j :| 0 <= j < |p| - 1 && p[1..][j] > 0;
      assert p[j + 1] > 0;
    }
  }

  /** How far seat `k` lies round the ring from seat `i`. */
  function Dist(i: nat, k: nat, n: nat): nat
    requires i < n && k < n
  {
    if k >= i then k - i else k + n - i
  }

  /** The seat after seat `j`, wrapping to 0. */
  function After(j: nat, n: nat): (k: nat)
    requires j < n
    ensures k < n
  {
    if j + 1 == n then 0 else j + 1
  }

  /** `(seat + 1) % n`, as `steal` computes the next seat, is `After`. */
  lemma {:induction false} NextSeat(j: nat, n: nat)
    requires j < n
    ensures (j + 1) % n == After(j, n)
  {
  }

  /** The first seat at or after `j`, not wrapping, with presents. */
  function Search(p: Ring, j: nat): (r: Option<nat>)
    requires j <= |p|
    ensures r.Some? ==> j <= r.value < |p| && p[r.value] > 0
    ensures r.Some? ==> forall k :: j <= k < r.value ==> p[k] == 0
    ensures r.None? ==> forall k :: j <= k < |p| ==> p[k] == 0
    decreases |p| - j
  {
    if j == |p| then None
    else if p[j] > 0 then Some(j)
    else Search(p, j + 1)
  }

  /** The loop `while presents[idx] == 0 { idx = (idx + 1) % n }`: the
      first seat at or after `i`, going round, whose elf has presents. */
  function FirstLive(p: Ring, i: nat): (r: nat)
    requires i < |p| && LiveCount(p) > 0
    ensures r < |p| && p[r] > 0
    ensures forall k {:trigger Dist(i, k, |p|)} :: 0 <= k < |p| && Dist(i, k, |p|) < Dist(i, r, |p|) ==> p[k] == 0
  {
    match Search(p, i)
    case Some(r) => r
    case None =>
      LiveWitness(p);
      assert Search(p, 0).Some?;
      Search(p, 0).value
  }

  /** The seat `FirstLive` finds is the only live seat nearest to `i`:
      any live seat with nothing live before it is that seat. */
  lemma {:induction false} FirstLiveUnique(p: Ring, i: nat, r: nat)
    requires i < |p| && LiveCount(p) > 0 && r < |p| && p[r] > 0
    requires forall k :: 0 <= k < |p| && Dist(i, k, |p|) < Dist(i, r, |p|) ==> p[k] == 0
    ensures FirstLive(p, i) == r
  {
    var f := FirstLive(p, i);
    assert Dist(i, r, |p|) <= Dist(i, f, |p|) by {
      assert f < |p| && p[f] > 0;
    }
  }

  /** Seats other than `i` are one step nearer to the seat after `i`. */
  lemma {:induction false} DistAfter(i: nat, k: nat, n: nat)
    requires i < n && k < n && k != i
    ensures Dist(After(i, n), k, n) == Dist(i, k, n) - 1
    ensures Dist(After(i, n), i, n) == n - 1
  {
  }

  /** With two live seats, the search that starts after a live seat finds
      a different one. */
  lemma {:induction false} VictimDiffers(p: Ring, thief: nat)
    requires thief < |p| && p[thief] > 0 && LiveCount(p) >= 2
    ensures FirstLive(p, After(thief, |p|)) != thief
  {
    var n := |p|;
    LiveCountUpdate(p, thief, 0);
    LiveWitness(p[thief := 0]);
    var other :| 0 <= other < n && p[thief := 0][other] > 0;
    DistAfter(thief, other, n);
  }

  /** A transfer `presents[thief] += presents[victim]; presents[victim] = 0`
      between two seats empties the victim, adds its presents to the
      thief and leaves every other seat alone. */
  lemma {:induction false} TransferMoves(p: Ring, thief: nat, victim: nat, q: Ring)
    requires thief < |p| && victim < |p| && thief != victim
    requires q == p[thief := p[thief] + p[victim]][victim := 0]
    ensures |q| == |p| && q[thief] == p[thief] + p[victim] && q[victim] == 0
    ensures forall k :: 0 <= k < |p| && k != thief && k != victim ==> q[k] == p[k]
  {
  }

  /** A transfer between two different seats conserves the total. */
  lemma {:induction false} TransferConserves(p: Ring, thief: nat, victim: nat, q: Ring)
    requires thief < |p| && victim < |p| && thief != victim
    requires q == p[thief := p[thief] + p[victim]][victim := 0]
    ensures Sum(q) == Sum(p)
  {
    var mid := p[thief := p[thief] + p[victim]];
    SumUpdate(p, thief, p[thief] + p[victim]);
    SumUpdate(mid, victim, 0);
  }

  /** Emptying one live seat into another leaves one fewer live seat. */
  lemma {:induction false} TransferDropsOne(p: Ring, thief: nat, victim: nat, q: Ring)
    requires thief < |p| && victim < |p| && thief != victim && p[thief] > 0 && p[victim] > 0
    requires q == p[thief := p[thief] + p[victim]][victim := 0]
    ensures LiveCount(q) == LiveCount(p) - 1
  {
    var mid := p[thief := p[thief] + p[victim]];
    LiveCountUpdate(p, thief, p[thief] + p[victim]);
    assert mid[victim] > 0;
    LiveCountUpdate(mid, victim, 0);
  }

  /** The end of the game: the winner's seat and the final presents. */
  datatype Outcome = Outcome(winner: nat, presents: Ring)

  /** A seat holding everything but not all the presents leaves another
      live seat. */
  lemma {:induction false} OtherLive(q: Ring, t: nat)
    requires t < |q| && q[t] > 0 && q[t] != Sum(q)
    ensures q[t] < Sum(q) && LiveCount(q) >= 2
  {
    SumUpdate(q, t, 0);
    LiveCountUpdate(q, t, 0);
    SumPositiveLive(q[t := 0]);
  }

  /** The outer loop of `steal` from seat `from`. In each pass the thief
      is the first elf with presents from `from`, the victim the next such
      elf after the thief, and the victim's presents move to the thief;
      the game ends when a thief holds every present, and that thief wins.
      Ring sizes stay as they were; the presents are only moved. */
  function Game(p: Ring, from: nat): (o: Outcome)
    requires from < |p| && LiveCount(p) >= 2 && Sum(p) == |p|
    ensures o.winner < |p|
    decreases LiveCount(p)
  {
    var thief := FirstLive(p, from);
    VictimDiffers(p, thief);
    var victim := FirstLive(p, After(thief, |p|));
    var q: Ring := p[thief := p[thief] + p[victim]][victim := 0];
    TransferMoves(p, thief, victim, q);
    TransferConserves(p, thief, victim, q);
    TransferDropsOne(p, thief, victim, q);
    if q[thief] == |p| then
      Outcome(thief, q)
    else
      OtherLive(q, thief);
      Game(q, After(victim, |p|))
  }

  /** The game ends when the thief of a pass holds every present. */
  lemma {:induction false} GameEnds(p: Ring, from: nat, thief: nat, victim: nat, q: Ring)
    requires from < |p| && LiveCount(p) >= 2 && Sum(p) == |p|
    requires thief == FirstLive(p, from) && victim == FirstLive(p, After(thief, |p|))
    requires q == p[thief := p[thief] + p[victim]][victim := 0] && q[thief] == |p|
    ensures Game(p, from) == Outcome(thief, q)
  {
  }

  /** Otherwise it continues from the seat after the victim. */
  lemma {:induction false} GameContinues(p: Ring, from: nat, thief: nat, victim: nat, q: Ring)
    requires from < |p| && LiveCount(p) >= 2 && Sum(p) == |p|
    requires thief == FirstLive(p, from) && victim == FirstLive(p, After(thief, |p|))
    requires q == p[thief := p[thief] + p[victim]][victim := 0] && q[thief] != |p|
    requires LiveCount(q) >= 2 && Sum(q) == |p|
    ensures Game(p, from) == Game(q, After(victim, |p|))
  {
  }

  /** The game's outcome: the winner started with presents and ends with
      every present, theirs is the only live seat, and nothing was lost. */
  lemma {:induction false} GameOutcome(p: Ring, from: nat)
    requires from < |p| && LiveCount(p) >= 2 && Sum(p) == |p|
    ensures p[Game(p, from).winner] > 0
    ensures |Game(p, from).presents| == |p| && Sum(Game(p, from).presents) == |p|
    ensures Game(p, from).presents[Game(p, from).winner] == |p|
    ensures LiveCount(Game(p, from).presents) == 1
    decreases LiveCount(p)
  {
    var thief := FirstLive(p, from);
    VictimDiffers(p, thief);
    var victim := FirstLive(p, After(thief, |p|));
    var q: Ring := p[thief := p[thief] + p[victim]][victim := 0];
    TransferMoves(p, thief, victim, q);
    TransferConserves(p, thief, victim, q);
    TransferDropsOne(p, thief, victim, q);
    if q[thief] == |p| {
      GameEnds(p, from, thief, victim, q);
      LiveCountUpdate(q, thief, 0);
      SumUpdate(q, thief, 0);
      SumPositiveLive(q[thief := 0]);
    } else {
      OtherLive(q, thief);
      GameContinues(p, from, thief, victim, q);
      GameOutcome(q, After(victim, |p|));
      var w := Game(q, After(victim, |p|)).winner;
      if w != thief && w != victim {
        assert q[w] == p[w];
      }
    }
  }

  /** One present per elf. */
  function Ones(n: nat): (p: Ring)
    ensures |p| == n && Sum(p) == n && LiveCount(p) == n
  {
    if n == 0 then [] else [1] + Ones(n - 1)
  }

  /** `steal(num_elves)` as the index it returns. With one elf the thief
      robs itself and the loop never ends; with none the first index
      panics. */
  function Steal(numElves: nat): (winner: nat)
    requires numElves >= 2
    ensures winner < numElves
  {
    Game(Ones(numElves), 0).winner
  }

  /** The advancing loops of `steal`: from seat `i`, step round the ring
      past empty seats. */
  method Advance(p: Ring, i: nat) returns (j: nat)
    requires i < |p| && LiveCount(p) > 0
    ensures j == FirstLive(p, i)
  {
    var n := |p|;
    ghost var target := FirstLive(p, i);
    j := i;
    while p[j] == 0
      invariant j < n && Dist(i, j, n) <= Dist(i, target, n)
      invariant forall k :: 0 <= k < n && Dist(i, k, n) < Dist(i, j, n) ==> p[k] == 0
      decreases Dist(i, target, n) - Dist(i, j, n)
    {
      NextSeat(j, n);
      j := (j + 1) % n;
    }
  }

  /** `steal`: the whole game on a vector, turn by turn, returning the
      winner's seat; zero elves panic on the first index. */
  method StealLoop(numElves: nat) returns (r: Result<nat>)
    requires numElves != 1
    ensures numElves == 0 ==> r.Failure?
    ensures numElves >= 2 ==> r == Success(Steal(numElves))
  {
    if numElves == 0 {
      return Failure("index out of bounds");
    }
    var presents := Ones(numElves);
    var thief: nat := 0;
    while true
      invariant |presents| == numElves && thief < numElves
      invariant LiveCount(presents) >= 2 && Sum(presents) == numElves
      invariant Game(presents, thief) == Game(Ones(numElves), 0)
      decreases LiveCount(presents)
    {
      var before, from := presents, thief;
      thief := Advance(before, from);
      NextSeat(thief, numElves);
      var victim := Advance(before, (thief + 1) % numElves);
      VictimDiffers(before, thief);
      presents := before[thief := before[thief] + before[victim]][victim := 0];
      TransferMoves(before, thief, victim, presents);
      TransferConserves(before, thief, victim, presents);
      TransferDropsOne(before, thief, victim, presents);
      if presents[thief] == numElves {
        GameEnds(before, from, thief, victim, presents);
        return Success(thief);
      }
      OtherLive(presents, thief);
      GameContinues(before, from, thief, victim, presents);
      NextSeat(victim, numElves);
      thief := (victim + 1) % numElves;
    }
  }
}
