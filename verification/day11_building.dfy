/** The four-floor building of day 11: one packed floor per storey and the
    floor the elevator stands on. Items are numbered as bit positions of a
    floor (generator of material m at 2m, its chip at 2m+1). */
module Facility {
  import opened Wrappers
  import opened BitFloor


  datatype Building = Building(floors: seq<Floor>, elevator: nat)

  /** The array of exactly four floors and an elevator on one of them. */
  predicate Valid(b: Building) {
    |b.floors| == 4 && b.elevator < 4
  }

  /** `Building::new`: four empty floors, elevator on the ground floor. */
  function New(): (b: Building)
    ensures Valid(b) && b.elevator == 0
    ensures forall k :: 0 <= k < 4 ==> IsEmpty(b.floors[k])
  {
    Building([EMPTY, EMPTY, EMPTY, EMPTY], 0)
  }

  /** `item_exists`: the item is on the elevator's floor. */
  predicate ItemExists(b: Building, item: bv32)
    requires Valid(b) && item < 32
  {
    IsSet(b.floors[b.elevator], item)
  }

  /** `is_safe`: every floor is safe, so on every floor that holds both
      chips and generators each chip has its own generator beside it. */
  predicate IsSafe(b: Building)
    requires Valid(b)
    ensures IsSafe(b) <==>
              forall k :: 0 <= k < 4 ==>
                NoChips(b.floors[k]) || NoGens(b.floors[k]) || EveryChipShielded(b.floors[k])
  {
    forall k :: 0 <= k < 4 ==> BitFloor.IsSafe(b.floors[k])
  }

  /** `is_final`: the three lower floors are empty, so no item is below
      the top floor. */
  predicate IsFinal(b: Building)
    requires Valid(b)
    ensures IsFinal(b) <==> forall k, j: bv32 :: 0 <= k < 3 && j < 32 ==> !IsSet(b.floors[k], j)
  {
    EmptyIff(b.floors[0]);
    EmptyIff(b.floors[1]);
    EmptyIff(b.floors[2]);
    IsEmpty(b.floors[0]) && IsEmpty(b.floors[1]) && IsEmpty(b.floors[2])
  }

  /** Reference description of a carry: `n` is `b` with items `i1` and `i2`
      taken off the elevator's floor and put on floor `to`, the elevator on
      `to`, and every other floor as it was. */
  ghost predicate Carried(b: Building, n: Building, i1: bv32, i2: bv32, to: nat)
    requires Valid(b) && i1 < 32 && i2 < 32
  {
    var from := b.elevator;
    Valid(n) && n.elevator == to && to != from
    && (forall k :: 0 <= k < 4 && k != from && k != to ==> n.floors[k] == b.floors[k])
    && (forall j: bv32 :: j < 32 ==>
          (IsSet(n.floors[from], j) <==> IsSet(b.floors[from], j) && j != i1 && j != i2))
    && (forall j: bv32 :: j < 32 ==>
          (IsSet(n.floors[to], j) <==> IsSet(b.floors[to], j) || j == i1 || j == i2))
  }

  /** The clears and sets shared by both moves, in the source's order. */
  function Carry(b: Building, i1: bv32, i2: bv32, to: nat): (n: Building)
    requires Valid(b) && i1 < 32 && i2 < 32 && to < 4 && to != b.elevator
    ensures Carried(b, n, i1, i2, to)
  {
    var from := b.elevator;
    var source := Clear(Clear(b.floors[from], i1), i2);
    var target := Set(Set(b.floors[to], i1), i2);
    Building(b.floors[from := source][to := target], to)
  }

  /** `try_move_up`: only from below the top floor, only with both items on
      the elevator's floor, and only when the result is safe. */
  function TryMoveUp(b: Building, i1: bv32, i2: bv32): (r: Option<Building>)
    requires Valid(b) && i1 < 32 && i2 < 32
    ensures b.elevator == 3 || !ItemExists(b, i1) || !ItemExists(b, i2) ==> r.None?
    ensures r.Some? ==> Carried(b, r.value, i1, i2, b.elevator + 1) && IsSafe(r.value)
  {
    if b.elevator < 3 && IsSet(b.floors[b.elevator], i1) && IsSet(b.floors[b.elevator], i2) then
      var next := Carry(b, i1, i2, b.elevator + 1);
      if IsSafe(next) then Some(next) else None
    else
      None
  }

  /** `try_move_down`: the mirror image of `TryMoveUp`. */
  function TryMoveDown(b: Building, i1: bv32, i2: bv32): (r: Option<Building>)
    requires Valid(b) && i1 < 32 && i2 < 32
    ensures b.elevator == 0 || !ItemExists(b, i1) || !ItemExists(b, i2) ==> r.None?
    ensures r.Some? ==> Carried(b, r.value, i1, i2, b.elevator - 1) && IsSafe(r.value)
  {
    if b.elevator > 0 && IsSet(b.floors[b.elevator], i1) && IsSet(b.floors[b.elevator], i2) then
      var next := Carry(b, i1, i2, b.elevator - 1);
      if IsSafe(next) then Some(next) else None
    else
      None
  }

  /** The derived `PartialEq` of `Building`: floor-wise custom floor
      equality and the same elevator floor. */
  predicate SameState(a: Building, b: Building)
    requires Valid(a) && Valid(b)
  {
    a.elevator == b.elevator && forall k :: 0 <= k < 4 ==> FloorEq(a.floors[k], b.floors[k])
  }

  /** Item `j` is somewhere in the building. */
  predicate Holds(b: Building, j: bv32)
    requires Valid(b) && j < 32
  {
    IsSet(b.floors[0], j) || IsSet(b.floors[1], j) || IsSet(b.floors[2], j) || IsSet(b.floors[3], j)
  }

  /** No item is on two floors at once. */
  ghost predicate SingleFloor(b: Building)
    requires Valid(b)
  {
    forall j: bv32, k1, k2 :: j < 32 && 0 <= k1 < k2 < 4 ==>
      !(IsSet(b.floors[k1], j) && IsSet(b.floors[k2], j))
  }

  // ---------------------------------------------------------------------------
  // Lemmas

  /** The bits in which two floors differ. */
  function Difference(a: Floor, c: Floor): bv32 {
    a.bits ^ c.bits
  }

  lemma DifferenceBit(a: Floor, c: Floor, j: bv32)
    requires j < 32
    ensures Bit(Difference(a, c), j) <==> (IsSet(a, j) != IsSet(c, j))
  {
  }

  /** Two floors holding the same items are the same floor. */
  lemma FloorExt(a: Floor, c: Floor)
    requires forall j: bv32 :: j < 32 ==> (IsSet(a, j) <==> IsSet(c, j))
    ensures a == c
  {
    forall j: bv32 | j < 32
      ensures !Bit(Difference(a, c), j)
    {
      DifferenceBit(a, c, j);
    }
    AllClearIsZero(Difference(a, c));
  }

  /** A carry determines the building it produces. */
  lemma CarriedUnique(b: Building, n: Building, m: Building, i1: bv32, i2: bv32, to: nat)
    requires Valid(b) && i1 < 32 && i2 < 32
    requires Carried(b, n, i1, i2, to) && Carried(b, m, i1, i2, to)
    ensures n == m
  {
    forall k | 0 <= k < 4
      ensures n.floors[k] == m.floors[k]
    {
      if k == b.elevator || k == to {
        FloorExt(n.floors[k], m.floors[k]);
      }
    }
    assert n.floors == m.floors;
  }

  /** `try_move_up` against the reference description: whenever the move is
      allowed, its outcome is exactly the carried building if that is safe,
      and no building otherwise. */
  lemma TryMoveUpExact(b: Building, i1: bv32, i2: bv32, n: Building)
    requires Valid(b) && i1 < 32 && i2 < 32
    requires b.elevator < 3 && ItemExists(b, i1) && ItemExists(b, i2)
    requires Carried(b, n, i1, i2, b.elevator + 1)
    ensures TryMoveUp(b, i1, i2) == if IsSafe(n) then Some(n) else None
  {
    CarriedUnique(b, n, Carry(b, i1, i2, b.elevator + 1), i1, i2, b.elevator + 1);
  }

  /** `try_move_down` against the reference description. */
  lemma TryMoveDownExact(b: Building, i1: bv32, i2: bv32, n: Building)
    requires Valid(b) && i1 < 32 && i2 < 32
    requires b.elevator > 0 && ItemExists(b, i1) && ItemExists(b, i2)
    requires Carried(b, n, i1, i2, b.elevator - 1)
    ensures TryMoveDown(b, i1, i2) == if IsSafe(n) then Some(n) else None
  {
    CarriedUnique(b, n, Carry(b, i1, i2, b.elevator - 1), i1, i2, b.elevator - 1);
  }

  /** Carrying two items up and then straight back down restores a safe
      building, as long as neither item was already on the upper floor. */
  lemma MoveDownUndoesMoveUp(b: Building, i1: bv32, i2: bv32, n: Building)
    requires Valid(b) && i1 < 32 && i2 < 32 && IsSafe(b)
    requires TryMoveUp(b, i1, i2) == Some(n)
    requires !IsSet(b.floors[b.elevator + 1], i1) && !IsSet(b.floors[b.elevator + 1], i2)
    ensures TryMoveDown(n, i1, i2) == Some(b)
  {
    var low, up := b.elevator, b.elevator + 1;
    assert Carried(b, n, i1, i2, up);
    assert ItemExists(b, i1) && ItemExists(b, i2);
    assert Valid(n) && n.elevator == up && n.elevator - 1 == low;
    forall k | 0 <= k < 4 && k != up && k != low
      ensures b.floors[k] == n.floors[k]
    {
    }
    forall j: bv32 | j < 32
      ensures IsSet(b.floors[up], j) <==> IsSet(n.floors[up], j) && j != i1 && j != i2
      ensures IsSet(b.floors[low], j) <==> IsSet(n.floors[low], j) || j == i1 || j == i2
    {
    }
    assert Carried(n, b, i1, i2, low);
    TryMoveDownExact(n, i1, i2, b);
  }

  /** A carry keeps item `j` in the building. */
  lemma CarryKeepsItem(b: Building, n: Building, i1: bv32, i2: bv32, to: nat, j: bv32)
    requires Valid(b) && i1 < 32 && i2 < 32 && j < 32
    requires IsSet(b.floors[b.elevator], i1) && IsSet(b.floors[b.elevator], i2)
    requires Carried(b, n, i1, i2, to)
    ensures Holds(n, j) <==> Holds(b, j)
  {
    if j == i1 || j == i2 {
      assert IsSet(n.floors[to], j) && IsSet(b.floors[b.elevator], j);
    } else {
      var from := b.elevator;
      forall k | 0 <= k < 4
        ensures IsSet(n.floors[k], j) <==> IsSet(b.floors[k], j)
      {
        if k != from && k != to {
          assert n.floors[k] == b.floors[k];
        }
      }
      assert Holds(n, j) <==> Holds(b, j) by {
        assert IsSet(n.floors[0], j) == IsSet(b.floors[0], j);
        assert IsSet(n.floors[1], j) == IsSet(b.floors[1], j);
        assert IsSet(n.floors[2], j) == IsSet(b.floors[2], j);
        assert IsSet(n.floors[3], j) == IsSet(b.floors[3], j);
      }
    }
  }

  /** In a building whose items sit on single floors, an item on floor
      `from` is on no other floor. */
  lemma OnlyThere(b: Building, j: bv32, from: nat, k: nat)
    requires Valid(b) && SingleFloor(b) && j < 32 && from < 4 && k < 4 && k != from
    requires IsSet(b.floors[from], j)
    ensures !IsSet(b.floors[k], j)
  {
  }

  lemma CarryKeepsApart(b: Building, n: Building, i1: bv32, i2: bv32, to: nat, j: bv32, k1: nat, k2: nat)
    requires Valid(b) && i1 < 32 && i2 < 32 && SingleFloor(b)
    requires IsSet(b.floors[b.elevator], i1) && IsSet(b.floors[b.elevator], i2)
    requires Carried(b, n, i1, i2, to)
    requires j < 32 && k1 < k2 < 4
    ensures !(IsSet(n.floors[k1], j) && IsSet(n.floors[k2], j))
  {
    var from := b.elevator;
    if j == i1 || j == i2 {
      var k := if k1 == to then k2 else k1;
      assert k != to;
      if k != from {
        OnlyThere(b, j, from, k);
        assert n.floors[k] == b.floors[k];
      }
      assert !IsSet(n.floors[k], j);
    } else {
      assert IsSet(n.floors[k1], j) ==> IsSet(b.floors[k1], j);
      assert IsSet(n.floors[k2], j) ==> IsSet(b.floors[k2], j);
      assert !(IsSet(b.floors[k1], j) && IsSet(b.floors[k2], j));
    }
  }

  /** A carry keeps each item on a single floor. */
  lemma CarryKeepsSingleFloor(b: Building, n: Building, i1: bv32, i2: bv32, to: nat)
    requires Valid(b) && i1 < 32 && i2 < 32 && SingleFloor(b)
    requires IsSet(b.floors[b.elevator], i1) && IsSet(b.floors[b.elevator], i2)
    requires Carried(b, n, i1, i2, to)
    ensures SingleFloor(n)
  {
    forall j: bv32, k1, k2 | j < 32 && 0 <= k1 < k2 < 4
      ensures !(IsSet(n.floors[k1], j) && IsSet(n.floors[k2], j))
    {
      CarryKeepsApart(b, n, i1, i2, to, j, k1, k2);
    }
  }

  /** The moves keep every item in the building and on a single floor. */
  lemma MovesKeepItems(b: Building, i1: bv32, i2: bv32)
    requires Valid(b) && i1 < 32 && i2 < 32
    ensures TryMoveUp(b, i1, i2).Some? ==>
      forall j: bv32 :: j < 32 ==> (Holds(TryMoveUp(b, i1, i2).value, j) <==> Holds(b, j))
    ensures TryMoveDown(b, i1, i2).Some? ==>
      forall j: bv32 :: j < 32 ==> (Holds(TryMoveDown(b, i1, i2).value, j) <==> Holds(b, j))
    ensures SingleFloor(b) && TryMoveUp(b, i1, i2).Some? ==> SingleFloor(TryMoveUp(b, i1, i2).value)
    ensures SingleFloor(b) && TryMoveDown(b, i1, i2).Some? ==> SingleFloor(TryMoveDown(b, i1, i2).value)
  {
    if TryMoveUp(b, i1, i2).Some? {
      var n := TryMoveUp(b, i1, i2).value;
      forall j: bv32 | j < 32
        ensures Holds(n, j) <==> Holds(b, j)
      {
        CarryKeepsItem(b, n, i1, i2, b.elevator + 1, j);
      }
      if SingleFloor(b) {
        CarryKeepsSingleFloor(b, n, i1, i2, b.elevator + 1);
      }
    }
    if TryMoveDown(b, i1, i2).Some? {
      var n := TryMoveDown(b, i1, i2).value;
      forall j: bv32 | j < 32
        ensures Holds(n, j) <==> Holds(b, j)
      {
        CarryKeepsItem(b, n, i1, i2, b.elevator - 1, j);
      }
      if SingleFloor(b) {
        CarryKeepsSingleFloor(b, n, i1, i2, b.elevator - 1);
      }
    }
  }

    /** The building equality is an equivalence relation. */
  lemma SameStateIsEquivalence(a: Building, b: Building, c: Building)
    requires Valid(a) && Valid(b) && Valid(c)
    ensures SameState(a, a)
    ensures SameState(a, b) ==> SameState(b, a)
    ensures SameState(a, b) && SameState(b, c) ==> SameState(a, c)
  {
  }

  /** The layout of `test_safe`: the second floor holds the hydrogen
      generator, the hydrogen chip and the lithium chip; the unshielded
      lithium chip beside a generator makes it, and the building, unsafe. */
  lemma LithiumChipBesideHydrogenPairIsUnsafe()
    ensures var f1 := AddChip(AddChip(AddGen(EMPTY, Hydrogen), Hydrogen), Lithium);
            var f2 := AddGen(EMPTY, Lithium);
            var b := Building([EMPTY, f1, f2, EMPTY], 0);
            !BitFloor.IsSafe(f1) && !IsSafe(b)
  {
    var f1 := AddChip(AddChip(AddGen(EMPTY, Hydrogen), Hydrogen), Lithium);
    assert f1.bits == 0xB;
    assert !BitFloor.IsSafe(f1);
    var b := Building([EMPTY, f1, AddGen(EMPTY, Lithium), EMPTY], 0);
    assert b.floors[1] == f1;
  }

  /** The layout of `test_not_safe`: with the lithium chip moved to the
      ground floor, every floor is safe. */
  lemma HydrogenPairBesideNothingIsSafe()
    ensures var f0 := AddChip(EMPTY, Lithium);
            var f1 := AddChip(AddGen(EMPTY, Hydrogen), Hydrogen);
            var f2 := AddGen(EMPTY, Lithium);
            var b := Building([f0, f1, f2, EMPTY], 0);
            BitFloor.IsSafe(f1) && IsSafe(b)
  {
    var f0 := AddChip(EMPTY, Lithium);
    var f1 := AddChip(AddGen(EMPTY, Hydrogen), Hydrogen);
    var f2 := AddGen(EMPTY, Lithium);
    assert f0.bits == 0x8 && f1.bits == 0x3 && f2.bits == 0x4;
    assert BitFloor.IsSafe(f0);
    assert BitFloor.IsSafe(f1);
    assert BitFloor.IsSafe(f2);
    assert BitFloor.IsSafe(EMPTY);
    var b := Building([f0, f1, f2, EMPTY], 0);
    assert forall k :: 0 <= k < 4 ==> b.floors[k] in {f0, f1, f2, EMPTY};
  }
}
