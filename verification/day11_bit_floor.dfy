/** One floor of the radioisotope building (day 11), packed into a 32-bit
    word. Material m owns two bits: its generator at bit 2m and its
    microchip at bit 2m+1, so the even bits hold generators and the odd
    bits hold chips. */
module BitFloor {

  /** The materials the input parser recognises, with their numbering. */
  datatype Material = Hydrogen | Lithium | Polonium | Thulium | Promethium | Ruthenium | Cobalt

  function MaterialId(m: Material): (id: nat)
    ensures id < 7
  {
    match m
    case Hydrogen => 0
    case Lithium => 1
    case Polonium => 2
    case Thulium => 3
    case Promethium => 4
    case Ruthenium => 5
    case Cobalt => 6
  }

  /** Odd bits: the chips. */
  const CHIP_MASK: bv32 := 0xAAAA_AAAA
  /** Even bits: the generators. */
  const GEN_MASK: bv32 := 0x5555_5555

  datatype Floor = Floor(bits: bv32)

  /** `BitFloor::new`: nothing on the floor. */
  const EMPTY: Floor := Floor(0)

  // ---------------------------------------------------------------------------
  // Bit-level vocabulary used by the contracts below

  /** Bit `i` of `x`, counted from the least significant bit. */
  predicate Bit(x: bv32, i: bv32)
    requires i < 32
  {
    (x >> i) & 1 == 1
  }

  /** The generator of material number `m` is on the floor. */
  predicate GenAt(f: Floor, m: bv32)
    requires m < 16
  {
    Bit(f.bits, 2 * m)
  }

  /** The chip of material number `m` is on the floor. */
  predicate ChipAt(f: Floor, m: bv32)
    requires m < 16
  {
    Bit(f.bits, 2 * m + 1)
  }

  ghost predicate NoChips(f: Floor) {
    forall m: bv32 :: m < 16 ==> !ChipAt(f, m)
  }

  ghost predicate NoGens(f: Floor) {
    forall m: bv32 :: m < 16 ==> !GenAt(f, m)
  }

  /** Every chip on the floor has its own generator beside it. */
  ghost predicate EveryChipShielded(f: Floor) {
    forall m: bv32 :: m < 16 ==> ChipAt(f, m) ==> GenAt(f, m)
  }

  /** Number of set bits of `x` at positions `i` and above. */
  function CountFrom(x: bv32, i: bv32): (n: nat)
    requires i <= 32
    ensures n <= 32 - i as int
    decreases 32 - i as int
  {
    if i == 32 then 0 else (if Bit(x, i) then 1 else 0) + CountFrom(x, i + 1)
  }

  /** `u32::count_ones`. */
  function PopCount(x: bv32): (n: nat)
    ensures n <= 32
  {
    CountFrom(x, 0)
  }

  /** Number of materials numbered `m` or above with both items on the floor. */
  function PairsFrom(f: Floor, m: bv32): nat
    requires m <= 16
    decreases 16 - m as int
  {
    if m == 16 then 0 else (if GenAt(f, m) && ChipAt(f, m) then 1 else 0) + PairsFrom(f, m + 1)
  }

  // ---------------------------------------------------------------------------
  // The operations of bit_floor.rs

  /** The chip bits of the floor. */
  function ChipBits(f: Floor): bv32 {
    f.bits & CHIP_MASK
  }

  /** The generator bits of the floor. */
  function GenBits(f: Floor): bv32 {
    f.bits & GEN_MASK
  }

  /** Chips whose generator is absent, moved down onto the generator bits. */
  function Unmatched(f: Floor): bv32 {
    (ChipBits(f) >> 1) & !GenBits(f)
  }

  /** `is_safe`: no chips, or no generators, or no chip without its
      generator. In terms of the items present: a floor without chips or
      without generators is safe, and otherwise it is safe exactly when every
      chip has its own generator on the floor. */
  predicate IsSafe(f: Floor)
    ensures IsSafe(f) <==> NoChips(f) || NoGens(f) || EveryChipShielded(f)
  {
    SafeBits(f);
    ChipBits(f) == 0 || GenBits(f) == 0 || Unmatched(f) == 0
  }

  /** `is_set`: Rust's `bits & 0x1 << index` groups as `bits & (1 << index)`. */
  predicate IsSet(f: Floor, index: bv32)
    requires index < 32
  {
    f.bits & (1 << index) > 0
  }

  function Set(f: Floor, index: bv32): (r: Floor)
    requires index < 32
    ensures forall j: bv32 :: j < 32 ==> (IsSet(r, j) <==> j == index || IsSet(f, j))
  {
    forall j: bv32 | j < 32
      ensures IsSet(Floor(f.bits | (1 << index)), j) <==> j == index || IsSet(f, j)
    {
      SetBitAt(f, index, j);
    }
    Floor(f.bits | (1 << index))
  }

  function Clear(f: Floor, index: bv32): (r: Floor)
    requires index < 32
    ensures forall j: bv32 :: j < 32 ==> (IsSet(r, j) <==> j != index && IsSet(f, j))
  {
    forall j: bv32 | j < 32
      ensures IsSet(Floor(f.bits & !(1 << index)), j) <==> j != index && IsSet(f, j)
    {
      ClearBitAt(f, index, j);
    }
    Floor(f.bits & !(1 << index))
  }

  /** `add_gen`: places the generator of `m` on the floor. */
  function AddGen(f: Floor, m: Material): (r: Floor)
    ensures forall j: bv32 :: j < 32 ==> (IsSet(r, j) <==> j == (2 * MaterialId(m)) as bv32 || IsSet(f, j))
  {
    Set(f, (MaterialId(m) * 2) as bv32)
  }

  /** `add_chip`: places the chip of `m` on the floor. */
  function AddChip(f: Floor, m: Material): (r: Floor)
    ensures forall j: bv32 :: j < 32 ==> (IsSet(r, j) <==> j == (2 * MaterialId(m) + 1) as bv32 || IsSet(f, j))
  {
    Set(f, (MaterialId(m) * 2 + 1) as bv32)
  }

  predicate IsEmpty(f: Floor) {
    f.bits == 0
  }

  /** `num_items`. */
  function NumItems(f: Floor): nat {
    PopCount(f.bits)
  }

  /** Generators that have their chip beside them, one bit per pair. */
  function PairMarks(f: Floor): bv32 {
    (ChipBits(f) >> 1) & GenBits(f)
  }

  /** `num_pairs`: the number of materials with both the generator and the
      chip on the floor. */
  function NumPairs(f: Floor): (n: nat)
    ensures n == PairsFrom(f, 0)
  {
    PairCountAgrees(f, 0);
    PopCount(PairMarks(f))
  }

  /** `paired_bits`, exactly as written: it takes the population count of the
      pair marks first and then combines that count with itself shifted by one. */
  function PairedBits(f: Floor): (r: bv32)
    ensures r < 32
  {
    var pairedGens := PopCount(PairMarks(f)) as bv32;
    SmallCountMask(pairedGens);
    pairedGens & (pairedGens << 1)
  }

  /** A count of at most 32 combined with itself shifted by one stays below 32. */
  lemma SmallCountMask(x: bv32)
    requires x <= 32
    ensures x & (x << 1) < 32
  {
  }

  /** `unpaired_bits`: the floor's bits with the paired bits taken away. */
  function UnpairedBits(f: Floor): (r: bv32)
    ensures r & !f.bits == 0
    ensures f.bits & !r == f.bits & PairedBits(f)
  {
    f.bits & !PairedBits(f)
  }

  /** The `PartialEq` of `BitFloor`: same number of pairs and same unpaired bits. */
  predicate FloorEq(a: Floor, b: Floor) {
    NumPairs(a) == NumPairs(b) && UnpairedBits(a) == UnpairedBits(b)
  }

  // ---------------------------------------------------------------------------
  // Bit lemmas

  lemma IsSetIsBit(f: Floor, i: bv32)
    requires i < 32
    ensures IsSet(f, i) == Bit(f.bits, i)
  {
  }

  lemma SetBitAt(f: Floor, index: bv32, j: bv32)
    requires index < 32 && j < 32
    ensures IsSet(Floor(f.bits | (1 << index)), j) <==> j == index || IsSet(f, j)
  {
  }

  lemma ClearBitAt(f: Floor, index: bv32, j: bv32)
    requires index < 32 && j < 32
    ensures IsSet(Floor(f.bits & !(1 << index)), j) <==> j != index && IsSet(f, j)
  {
  }

  lemma ShiftStep(x: bv32, i: bv32)
    requires i < 32
    ensures x >> (i + 1) == (x >> i) >> 1
  {
  }

  lemma ZeroSplit(y: bv32)
    ensures y == 0 <==> y & 1 == 0 && y >> 1 == 0
  {
  }

  lemma LowBit(y: bv32)
    ensures y & 1 == 0 || y & 1 == 1
  {
  }

  lemma ShiftAll(x: bv32)
    ensures x >> 32 == 0
  {
  }

  lemma {:induction false} CountFromClear(x: bv32, i: bv32)
    requires i <= 32
    requires forall j: bv32 :: i <= j < 32 ==> !Bit(x, j)
    ensures CountFrom(x, i) == 0
    decreases 32 - i as int
  {
    if i < 32 {
      CountFromClear(x, i + 1);
    }
  }

  /** A word with no set bit is zero. */
  lemma AllClearIsZero(x: bv32)
    requires forall j: bv32 :: j < 32 ==> !Bit(x, j)
    ensures x == 0
  {
    CountFromClear(x, 0);
    CountFromZero(x, 0);
  }

  /** Both bits of material slot `m` are clear in `x`. */
  predicate SlotClear(x: bv32, m: bv32)
    requires m < 16
  {
    !Bit(x, 2 * m) && !Bit(x, 2 * m + 1)
  }

  /** A word is zero exactly when every material slot is clear. */
  lemma ZeroIffSlotsClear(x: bv32)
    ensures x == 0 <==> forall m: bv32 :: m < 16 ==> SlotClear(x, m)
  {
    if forall m: bv32 :: m < 16 ==> SlotClear(x, m) {
      forall j: bv32 | j < 32
        ensures !Bit(x, j)
      {
        var m := j / 2;
        assert SlotClear(x, m);
        assert j == 2 * m || j == 2 * m + 1;
      }
      AllClearIsZero(x);
    }
  }

  lemma ChipMaskBits(f: Floor, m: bv32)
    requires m < 16
    ensures Bit(ChipBits(f), 2 * m + 1) == ChipAt(f, m)
    ensures !Bit(ChipBits(f), 2 * m)
  {
  }

  lemma GenMaskBits(f: Floor, m: bv32)
    requires m < 16
    ensures Bit(GenBits(f), 2 * m) == GenAt(f, m)
    ensures !Bit(GenBits(f), 2 * m + 1)
  {
  }

  lemma UnmatchedBits(f: Floor, m: bv32)
    requires m < 16
    ensures Bit(Unmatched(f), 2 * m) == (ChipAt(f, m) && !GenAt(f, m))
    ensures !Bit(Unmatched(f), 2 * m + 1)
  {
  }

  lemma PairMarkBits(f: Floor, m: bv32)
    requires m < 16
    ensures Bit(PairMarks(f), 2 * m) == (ChipAt(f, m) && GenAt(f, m))
    ensures !Bit(PairMarks(f), 2 * m + 1)
  {
  }

  // ---------------------------------------------------------------------------
  // Properties of the floor operations

  /** The safety test on the bit masks, in terms of the items present. */
  lemma SafeBits(f: Floor)
    ensures ChipBits(f) == 0 || GenBits(f) == 0 || Unmatched(f) == 0
            <==> NoChips(f) || NoGens(f) || EveryChipShielded(f)
  {
    ZeroIffSlotsClear(ChipBits(f));
    ZeroIffSlotsClear(GenBits(f));
    ZeroIffSlotsClear(Unmatched(f));
    forall m: bv32 | m < 16
      ensures SlotClear(ChipBits(f), m) <==> !ChipAt(f, m)
      ensures SlotClear(GenBits(f), m) <==> !GenAt(f, m)
      ensures SlotClear(Unmatched(f), m) <==> (ChipAt(f, m) ==> GenAt(f, m))
    {
      ChipMaskBits(f, m);
      GenMaskBits(f, m);
      UnmatchedBits(f, m);
    }
  }

  lemma {:induction false} CountFromZero(x: bv32, i: bv32)
    requires i <= 32
    ensures CountFrom(x, i) == 0 <==> x >> i == 0
    decreases 32 - i as int
  {
    if i == 32 {
      ShiftAll(x);
    } else {
      CountFromZero(x, i + 1);
      ShiftZeroStep(x, i);
    }
  }

  /** A word shifted by `i` is zero exactly when bit `i` is clear and the
      word shifted by `i + 1` is zero. */
  lemma ShiftZeroStep(x: bv32, i: bv32)
    requires i < 32
    ensures x >> i == 0 <==> !Bit(x, i) && x >> (i + 1) == 0
  {
    var y := x >> i;
    ShiftStep(x, i);
    ZeroSplit(y);
    LowBit(y);
  }


  /** `is_empty` holds exactly when no item bit is set, which is exactly when
      `num_items` is zero. */
  lemma EmptyIff(f: Floor)
    ensures IsEmpty(f) <==> NumItems(f) == 0
    ensures IsEmpty(f) <==> forall j: bv32 :: j < 32 ==> !IsSet(f, j)
  {
    assert IsEmpty(f) <==> NumItems(f) == 0 by {
      CountFromZero(f.bits, 0);
      assert f.bits >> 0 == f.bits;
    }
    if forall j: bv32 :: j < 32 ==> !IsSet(f, j) {
      forall j: bv32 | j < 32
        ensures !Bit(f.bits, j)
      {
        IsSetIsBit(f, j);
      }
      AllClearIsZero(f.bits);
    }
  }

  lemma {:induction false} PairCountAgrees(f: Floor, m: bv32)
    requires m <= 16
    ensures CountFrom(PairMarks(f), 2 * m) == PairsFrom(f, m)
    decreases 16 - m as int
  {
    if m < 16 {
      PairMarkBits(f, m);
      PairCountAgrees(f, m + 1);
    }
  }

  /** The custom floor equality is an equivalence relation, as its `Eq` impl claims. */
  lemma FloorEqIsEquivalence(a: Floor, b: Floor, c: Floor)
    ensures FloorEq(a, a)
    ensures FloorEq(a, b) ==> FloorEq(b, a)
    ensures FloorEq(a, b) && FloorEq(b, c) ==> FloorEq(a, c)
  {
  }

  /** The comment on `paired_bits` promises the bits of every complete pair,
      but the population count is taken before masking: on a floor holding
      only the hydrogen pair the result is 0, so both hydrogen bits count as
      unpaired, and the floor compares unequal to one holding only the
      lithium pair although the two differ only in which material is paired. */
  lemma PairedBitsIsNotAMask()
    ensures PairedBits(Floor(0x3)) == 0
    ensures UnpairedBits(Floor(0x3)) == 0x3
    ensures NumPairs(Floor(0x3)) == 1 && NumPairs(Floor(0xC)) == 1
    ensures !FloorEq(Floor(0x3), Floor(0xC))
  {
    assert PairMarks(Floor(0x3)) == 1;
    CountFromZero(1, 1);
    assert CountFrom(1, 0) == 1 + CountFrom(1, 1);
    assert PairMarks(Floor(0xC)) == 4;
    CountFromZero(4, 3);
    assert CountFrom(4, 2) == 1 + CountFrom(4, 3);
    assert CountFrom(4, 0) == CountFrom(4, 1) == CountFrom(4, 2);
  }
}
