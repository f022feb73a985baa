/** The day 11 search run on buildings: the depth-first search and the
    iterative deepening applied to the building operations. */
module ElevatorSearch {
  import opened Wrappers
  import opened BitFloor
  import opened Facility
  import DepthFirst

  /** The building operations as the search sees them. Every state the
      search meets is a valid building with items below 32, so the guards
      only make the operations total. */
  function BuildingRules(): DepthFirst.Rules<Building> {
    DepthFirst.Rules(FinalRule, ExistsRule, UpRule, DownRule, SameRule)
  }

  predicate FinalRule(b: Building) {
    Valid(b) && IsFinal(b)
  }

  predicate ExistsRule(b: Building, item: nat) {
    Valid(b) && item < 32 && ItemExists(b, item as bv32)
  }

  predicate SameRule(a: Building, b: Building) {
    Valid(a) && Valid(b) && SameState(a, b)
  }

  /** `try_move_up` on a valid building; what it yields is a valid building. */
  function UpRule(b: Building, i1: nat, i2: nat): (r: Option<Building>)
    ensures r.Some? ==> Valid(b) && i1 < 32 && i2 < 32 && Valid(r.value)
                        && TryMoveUp(b, i1 as bv32, i2 as bv32) == r
  {
    if Valid(b) && i1 < 32 && i2 < 32 then TryMoveUp(b, i1 as bv32, i2 as bv32) else None
  }

  /** `try_move_down` on a valid building; what it yields is a valid building. */
  function DownRule(b: Building, i1: nat, i2: nat): (r: Option<Building>)
    ensures r.Some? ==> Valid(b) && i1 < 32 && i2 < 32 && Valid(r.value)
                        && TryMoveDown(b, i1 as bv32, i2 as bv32) == r
  {
    if Valid(b) && i1 < 32 && i2 < 32 then TryMoveDown(b, i1 as bv32, i2 as bv32) else None
  }

  ghost predicate AllValid(states: seq<Building>) {
    forall k :: 0 <= k < |states| ==> Valid(states[k])
  }

  /** `b` becomes `next` by carrying two items (possibly the same one) up
      or down, with item positions below `FLOOR_SIZE`. */
  ghost predicate MovesTo(b: Building, next: Building)
    requires Valid(b)
  {
    exists i1: nat, i2: nat :: i1 <= i2 < DepthFirst.FLOOR_SIZE && MovesBy(b, next, i1, i2)
  }

  predicate MovesBy(b: Building, next: Building, i1: nat, i2: nat)
    requires Valid(b) && i1 < 32 && i2 < 32
  {
    TryMoveUp(b, i1 as bv32, i2 as bv32) == Some(next) || TryMoveDown(b, i1 as bv32, i2 as bv32) == Some(next)
  }

  /** `process` on a stack of buildings. */
  function Process(states: seq<Building>, maxDepth: nat): (r: nat)
    requires 1 <= |states|
    ensures r == DepthFirst.NO_PATH || |states| <= r <= maxDepth
  {
    DepthFirst.Process(BuildingRules(), states, maxDepth)
  }

  /** `process_id` on a stack of buildings. */
  function ProcessId(states: seq<Building>): (r: nat)
    requires 1 <= |states|
    ensures r == DepthFirst.NO_PATH || |states| <= r < DepthFirst.DEPTH_LIMIT
  {
    DepthFirst.ProcessId(BuildingRules(), states)
  }

  /** Every state on a walked path from valid buildings is a valid building. */
  lemma {:induction false} WalkedPathsStayValid(states: seq<Building>, p: seq<Building>, j: nat)
    requires AllValid(states) && DepthFirst.Solves(BuildingRules(), states, p)
    requires j < |p|
    ensures Valid(p[j])
  {
    if j < |states| {
      assert p[j] == p[..|states|][j];
    } else {
      var rules := BuildingRules();
      assert DepthFirst.WalkedAt(rules, p, j);
      WalkedPathsStayValid(states, p, j - 1);
      var i1: nat, i2: nat :| i1 <= i2 < DepthFirst.FLOOR_SIZE && DepthFirst.StepBy(rules, p[j - 1], p[j], i1, i2);
      StepKeepsValid(p[j - 1], p[j], i1, i2);
    }
  }

  /** A move the search takes from a valid building leads to a valid building. */
  lemma StepKeepsValid(b: Building, next: Building, i1: nat, i2: nat)
    requires Valid(b) && DepthFirst.StepBy(BuildingRules(), b, next, i1, i2)
    ensures Valid(next) && i1 < 32 && i2 < 32 && MovesBy(b, next, i1, i2)
  {
    assert ExistsRule(b, i1);
    assert UpRule(b, i1, i2) == Some(next) || DownRule(b, i1, i2) == Some(next);
  }

  /** Consecutive states of a walked path differ by an up or down move of
      two items (possibly the same one) from the elevator's floor. */
  lemma WalkedPathsMoveItems(states: seq<Building>, p: seq<Building>, j: nat)
    requires AllValid(states) && DepthFirst.Solves(BuildingRules(), states, p)
    requires |states| <= j < |p|
    ensures Valid(p[j - 1]) && MovesTo(p[j - 1], p[j])
  {
    var rules := BuildingRules();
    WalkedPathsStayValid(states, p, j - 1);
    assert DepthFirst.WalkedAt(rules, p, j);
    var i1: nat, i2: nat :| i1 <= i2 < DepthFirst.FLOOR_SIZE && DepthFirst.StepBy(rules, p[j - 1], p[j], i1, i2);
    StepKeepsValid(p[j - 1], p[j], i1, i2);
  }

  /** `process_id` on buildings returns the length of a shortest walked
      path, and `NO_PATH` only when every walked path has at least 20 states. */
  lemma ProcessIdIsShortest(states: seq<Building>)
    requires 1 <= |states|
    ensures var r := ProcessId(states);
            (r != DepthFirst.NO_PATH ==>
               (exists p :: DepthFirst.Solves(BuildingRules(), states, p) && |p| == r)
               && forall p :: DepthFirst.Solves(BuildingRules(), states, p) ==> r <= |p|)
            && (r == DepthFirst.NO_PATH ==>
               forall p :: DepthFirst.Solves(BuildingRules(), states, p) ==> |p| >= DepthFirst.DEPTH_LIMIT)
  {
    DepthFirst.ProcessIdIsShortest(BuildingRules(), states);
  }

  /** From the third state on, the search never walks straight back. */
  lemma NoImmediateReturnFromThirdState(states: seq<Building>)
    requires 3 <= |states| && AllValid(states)
    ensures !DepthFirst.Admits(BuildingRules(), states, states[|states| - 2])
  {
    var b := states[|states| - 2];
    SameStateIsEquivalence(b, b, b);
    DepthFirst.AdmitsRefusesReturn(BuildingRules(), states);
  }

  /** The ground-floor layout of the worked example: both chips on the
      first floor, the hydrogen generator on the second, the lithium
      generator on the third. */
  function ExampleStart(): (b: Building)
    ensures Valid(b) && Facility.IsSafe(b) && !IsFinal(b)
  {
    var b := Building([Floor(0xA), Floor(0x1), Floor(0x4), Floor(0)], 0);
    assert BitFloor.IsSafe(Floor(0xA)) && BitFloor.IsSafe(Floor(0x1));
    assert BitFloor.IsSafe(Floor(0x4)) && BitFloor.IsSafe(Floor(0));
    b
  }

  /** The test skips the comparison while the current index is 1, so from
      the second state the search may walk straight back to the first: in
      the example, carrying the hydrogen chip up and down again is admitted. */
  lemma ReturnToStartIsAdmitted()
    ensures var start := ExampleStart();
            var up := TryMoveUp(start, 1, 1);
            up.Some? && TryMoveDown(up.value, 1, 1) == Some(start)
            && DepthFirst.Admits(BuildingRules(), [start, up.value], start)
  {
    var start := ExampleStart();
    assert BitFloor.IsSafe(Floor(0x8)) && BitFloor.IsSafe(Floor(0x3));
    assert BitFloor.IsSafe(Floor(0x4)) && BitFloor.IsSafe(Floor(0));
    var up := TryMoveUp(start, 1, 1);
    assert up.Some?;
    MoveDownUndoesMoveUp(start, 1, 1, up.value);
  }
}
