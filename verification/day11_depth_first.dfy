/** The bounded depth-first search of day 11 (`process`) and its iterative
    deepening (`process_id`), written over the few operations of the
    building that the search consults, so that its properties rest only on
    its own control flow.

    The source keeps the depth bound in a global that the deepening loop
    overwrites; here it is the explicit parameter `maxDepth`. A result is
    the length of the state stack at a final state, so the number of moves
    is one less. */
module DepthFirst {
  import opened Wrappers

  /** `NO_PATH`: `usize::MAX - 1` on a 64-bit target. */
  const NO_PATH: nat := 0xFFFF_FFFF_FFFF_FFFF - 1

  /** Item positions tried on each floor (`FLOOR_SIZE`). */
  const FLOOR_SIZE: nat := 15

  /** The depths the deepening loop tries: 3 up to, not including, 20. */
  const FIRST_DEPTH: nat := 3
  const DEPTH_LIMIT: nat := 20

  /** The building operations `process` calls: `is_final`, `item_exists`,
      `try_move_up`, `try_move_down` and the state equality. */
  datatype Rules<!S> = Rules(
    isFinal: S -> bool,
    itemExists: (S, nat) -> bool,
    moveUp: (S, nat, nat) -> Option<S>,
    moveDown: (S, nat, nat) -> Option<S>,
    same: (S, S) -> bool)

  function Min(a: nat, b: nat): nat {
    if a <= b then a else b
  }

  /** The anti-backtracking test: with the current state at index
      `|states| - 1`, a candidate is compared with the state before the
      current one, but only once the current index exceeds 1. */
  predicate Admits<S>(rules: Rules<S>, states: seq<S>, next: S)
    requires 1 <= |states|
  {
    var current := |states| - 1;
    current <= 1 || !rules.same(next, states[current - 1])
  }

  /** Items `i1` and `i2` are both on the elevator's floor of `a`, and
      moving them up or down yields `next`. */
  ghost predicate StepBy<S>(rules: Rules<S>, a: S, next: S, i1: nat, i2: nat) {
    rules.itemExists(a, i1) && rules.itemExists(a, i2)
    && (rules.moveUp(a, i1, i2) == Some(next) || rules.moveDown(a, i1, i2) == Some(next))
  }

  /** One move of the search: some pair `i1 <= i2` below `FLOOR_SIZE`. */
  ghost predicate Step<S>(rules: Rules<S>, a: S, next: S) {
    exists i1: nat, i2: nat :: i1 <= i2 < FLOOR_SIZE && StepBy(rules, a, next, i1, i2)
  }

  /** From index `n` on, every state of `p` is reached by a move from a
      non-final predecessor and passes the anti-backtracking test: the
      paths the search walks. */
  ghost predicate Explored<S>(rules: Rules<S>, p: seq<S>, n: nat) {
    1 <= n <= |p| && forall j :: n <= j < |p| ==> WalkedAt(rules, p, j)
  }

  /** State `j` of `p` follows by a move from a non-final state `j - 1`
      and passes the anti-backtracking test. */
  ghost predicate WalkedAt<S>(rules: Rules<S>, p: seq<S>, j: nat)
    requires 1 <= j < |p|
  {
    !rules.isFinal(p[j - 1]) && Step(rules, p[j - 1], p[j]) && Admits(rules, p[..j], p[j])
  }

  /** `p` extends the stack `states` by walked moves and ends in a final state. */
  ghost predicate Solves<S>(rules: Rules<S>, states: seq<S>, p: seq<S>) {
    1 <= |states| <= |p| && p[..|states|] == states && Explored(rules, p, |states|)
    && rules.isFinal(p[|p| - 1])
  }

  /** `process`: `NO_PATH` once the stack is longer than `maxDepth`, the
      stack length at a final state, and otherwise the least result over
      every admitted move. */
  function Process<S>(rules: Rules<S>, states: seq<S>, maxDepth: nat): (r: nat)
    requires 1 <= |states|
    ensures r == NO_PATH || |states| <= r <= maxDepth
    decreases maxDepth + 1 - |states|, 1, 0, 0
  {
    if |states| > maxDepth then NO_PATH
    else if rules.isFinal(states[|states| - 1]) then |states|
    else Scan(rules, states, maxDepth, 0, 0, NO_PATH)
  }

  /** The two nested loops of `process` over item pairs, from pair
      (`i1`, `i2`) on, with the best result so far in `fewest`. */
  function Scan<S>(rules: Rules<S>, states: seq<S>, maxDepth: nat, i1: nat, i2: nat, fewest: nat): (r: nat)
    requires 1 <= |states| <= maxDepth
    requires i1 <= i2 <= FLOOR_SIZE
    requires fewest == NO_PATH || |states| < fewest <= maxDepth
    ensures r <= fewest
    ensures r == NO_PATH || |states| < r <= maxDepth
    decreases maxDepth + 1 - |states|, 0, FLOOR_SIZE - i1, FLOOR_SIZE - i2
  {
    var current := states[|states| - 1];
    if i1 == FLOOR_SIZE then fewest
    else if i2 == FLOOR_SIZE || !rules.itemExists(current, i1) then
      Scan(rules, states, maxDepth, i1 + 1, i1 + 1, fewest)
    else if !rules.itemExists(current, i2) then
      Scan(rules, states, maxDepth, i1, i2 + 1, fewest)
    else
      var afterUp := Branch(rules, states, maxDepth, rules.moveUp(current, i1, i2), fewest);
      var afterDown := Branch(rules, states, maxDepth, rules.moveDown(current, i1, i2), afterUp);
      Scan(rules, states, maxDepth, i1, i2 + 1, afterDown)
  }

  /** One attempted move: an admitted next state is pushed, searched and
      popped again, and its result folded into `fewest` by minimum. */
  function Branch<S>(rules: Rules<S>, states: seq<S>, maxDepth: nat, next: Option<S>, fewest: nat): (r: nat)
    requires 1 <= |states| <= maxDepth
    requires fewest == NO_PATH || |states| < fewest <= maxDepth
    ensures r <= fewest
    ensures r == NO_PATH || |states| < r <= maxDepth
    decreases maxDepth + 1 - |states|, 0, 0, 0
  {
    if next.Some? && Admits(rules, states, next.value) then
      Min(fewest, Process(rules, states + [next.value], maxDepth))
    else
      fewest
  }

  /** `process_id`: the result of the first depth bound, from 3 to 19, at
      which `process` reaches a final state, or `NO_PATH`. */
  function ProcessId<S>(rules: Rules<S>, states: seq<S>): (r: nat)
    requires 1 <= |states|
    ensures r == NO_PATH || |states| <= r < DEPTH_LIMIT
  {
    DeepenFrom(rules, states, FIRST_DEPTH)
  }

  function DeepenFrom<S>(rules: Rules<S>, states: seq<S>, depth: nat): (r: nat)
    requires 1 <= |states|
    ensures r == NO_PATH || |states| <= r < DEPTH_LIMIT
    decreases DEPTH_LIMIT - depth
  {
    if depth >= DEPTH_LIMIT then NO_PATH
    else
      var steps := Process(rules, states, depth);
      if steps < NO_PATH then steps else DeepenFrom(rules, states, depth + 1)
  }

  // ---------------------------------------------------------------------------
  // Soundness: every result other than NO_PATH is the length of a walked path

  /** A walked path from `states + [next]` is a walked path from `states`
      when `next` is an admitted move from a non-final last state. */
  lemma SolvesExtend<S>(rules: Rules<S>, states: seq<S>, next: S, p: seq<S>)
    requires 1 <= |states|
    requires !rules.isFinal(states[|states| - 1]) && Step(rules, states[|states| - 1], next)
    requires Admits(rules, states, next)
    requires Solves(rules, states + [next], p)
    ensures Solves(rules, states, p)
  {
    var n := |states|;
    assert p[..n + 1] == states + [next];
    assert p[..n] == states by {
      assert p[..n] == p[..n + 1][..n];
    }
    forall j | n <= j < |p|
      ensures WalkedAt(rules, p, j)
    {
      if j == n {
        assert p[..j] == states;
      }
    }
  }

  lemma {:induction false} ProcessSound<S>(rules: Rules<S>, states: seq<S>, maxDepth: nat)
    requires 1 <= |states| && maxDepth < NO_PATH
    ensures Process(rules, states, maxDepth) != NO_PATH ==>
      exists p :: Solves(rules, states, p) && |p| == Process(rules, states, maxDepth)
    decreases maxDepth + 1 - |states|, 1, 0, 0
  {
    if |states| <= maxDepth {
      if rules.isFinal(states[|states| - 1]) {
        assert states[..|states|] == states;
        assert Solves(rules, states, states);
      } else {
        ScanSound(rules, states, maxDepth, 0, 0, NO_PATH);
      }
    }
  }

  lemma {:induction false} ScanSound<S>(rules: Rules<S>, states: seq<S>, maxDepth: nat, i1: nat, i2: nat, fewest: nat)
    requires 1 <= |states| <= maxDepth < NO_PATH && !rules.isFinal(states[|states| - 1])
    requires i1 <= i2 <= FLOOR_SIZE
    requires fewest == NO_PATH || |states| < fewest <= maxDepth
    ensures var r := Scan(rules, states, maxDepth, i1, i2, fewest);
            r == fewest || exists p :: Solves(rules, states, p) && |p| == r
    decreases maxDepth + 1 - |states|, 0, FLOOR_SIZE - i1, FLOOR_SIZE - i2, 1
  {
    var current := states[|states| - 1];
    if i1 == FLOOR_SIZE {
    } else if i2 == FLOOR_SIZE || !rules.itemExists(current, i1) {
      ScanSound(rules, states, maxDepth, i1 + 1, i1 + 1, fewest);
      assert Scan(rules, states, maxDepth, i1, i2, fewest) == Scan(rules, states, maxDepth, i1 + 1, i1 + 1, fewest);
    } else if !rules.itemExists(current, i2) {
      ScanSound(rules, states, maxDepth, i1, i2 + 1, fewest);
      assert Scan(rules, states, maxDepth, i1, i2, fewest) == Scan(rules, states, maxDepth, i1, i2 + 1, fewest);
    } else {
      ScanSoundPair(rules, states, maxDepth, i1, i2, fewest);
    }
  }

  /** `ScanSound` where both items are present and both moves are tried. */
  lemma {:induction false} ScanSoundPair<S>(rules: Rules<S>, states: seq<S>, maxDepth: nat, i1: nat, i2: nat, fewest: nat)
    requires 1 <= |states| <= maxDepth < NO_PATH && !rules.isFinal(states[|states| - 1])
    requires i1 <= i2 <= FLOOR_SIZE
    requires fewest == NO_PATH || |states| < fewest <= maxDepth
    requires i1 <= i2 < FLOOR_SIZE
    requires rules.itemExists(states[|states| - 1], i1) && rules.itemExists(states[|states| - 1], i2)
    ensures var r := Scan(rules, states, maxDepth, i1, i2, fewest);
            r == fewest || exists p :: Solves(rules, states, p) && |p| == r
    decreases maxDepth + 1 - |states|, 0, FLOOR_SIZE - i1, FLOOR_SIZE - i2, 0
  {
    var current := states[|states| - 1];
    var up := rules.moveUp(current, i1, i2);
    var down := rules.moveDown(current, i1, i2);
    var afterUp := Branch(rules, states, maxDepth, up, fewest);
    var afterDown := Branch(rules, states, maxDepth, down, afterUp);
    assert afterUp == fewest || exists p :: Solves(rules, states, p) && |p| == afterUp by {
      if up.Some? {
        assert StepBy(rules, current, up.value, i1, i2);
      }
      BranchSound(rules, states, maxDepth, up, fewest);
    }
    assert afterDown == afterUp || exists p :: Solves(rules, states, p) && |p| == afterDown by {
      if down.Some? {
        assert StepBy(rules, current, down.value, i1, i2);
      }
      BranchSound(rules, states, maxDepth, down, afterUp);
    }
    var r := Scan(rules, states, maxDepth, i1, i2 + 1, afterDown);
    assert r == afterDown || exists p :: Solves(rules, states, p) && |p| == r by {
      ScanSound(rules, states, maxDepth, i1, i2 + 1, afterDown);
    }
    assert Scan(rules, states, maxDepth, i1, i2, fewest) == r;
  }

  lemma {:induction false} BranchSound<S>(rules: Rules<S>, states: seq<S>, maxDepth: nat, next: Option<S>, fewest: nat)
    requires 1 <= |states| <= maxDepth < NO_PATH && !rules.isFinal(states[|states| - 1])
    requires next.Some? ==> Step(rules, states[|states| - 1], next.value)
    requires fewest == NO_PATH || |states| < fewest <= maxDepth
    ensures var r := Branch(rules, states, maxDepth, next, fewest);
            r == fewest || exists p :: Solves(rules, states, p) && |p| == r
    decreases maxDepth + 1 - |states|, 0, 0, 0, 0
  {
    if next.Some? && Admits(rules, states, next.value) {
      var extended := states + [next.value];
      var sub := Process(rules, extended, maxDepth);
      ProcessSound(rules, extended, maxDepth);
      if sub < fewest {
        var p :| Solves(rules, extended, p) && |p| == sub;
        SolvesExtend(rules, states, next.value, p);
      }
    }
  }

  // ---------------------------------------------------------------------------
  // Completeness: no walked path within the bound is shorter than the result

  lemma {:induction false} ProcessComplete<S>(rules: Rules<S>, states: seq<S>, maxDepth: nat, p: seq<S>)
    requires Solves(rules, states, p) && |p| <= maxDepth
    ensures Process(rules, states, maxDepth) <= |p|
    decreases maxDepth + 1 - |states|
  {
    var n := |states|;
    if !rules.isFinal(states[n - 1]) {
      assert p[n - 1] == states[n - 1] by {
        assert p[..n][n - 1] == p[n - 1];
      }
      assert n < |p|;
      assert WalkedAt(rules, p, n);
      var j1: nat, j2: nat :| j1 <= j2 < FLOOR_SIZE && StepBy(rules, p[n - 1], p[n], j1, j2);
      var extended := states + [p[n]];
      assert p[..n] == states;
      assert p[..n + 1] == extended;
      assert Solves(rules, extended, p);
      ProcessComplete(rules, extended, maxDepth, p);
      ScanComplete(rules, states, maxDepth, 0, 0, NO_PATH, p[n], j1, j2, |p|);
    }
  }

  /** The pair loops reach the pair (`j1`, `j2`) that moves to `target`, so
      their result is at most what the search from `target` gives. */
  lemma {:induction false} ScanComplete<S>(rules: Rules<S>, states: seq<S>, maxDepth: nat, i1: nat, i2: nat,
                                           fewest: nat, target: S, j1: nat, j2: nat, bound: nat)
    requires 1 <= |states| <= maxDepth
    requires i1 <= i2 <= FLOOR_SIZE
    requires fewest == NO_PATH || |states| < fewest <= maxDepth
    requires j1 <= j2 < FLOOR_SIZE && StepBy(rules, states[|states| - 1], target, j1, j2)
    requires Admits(rules, states, target) && Process(rules, states + [target], maxDepth) <= bound
    requires i1 < j1 || (i1 == j1 && i2 <= j2)
    ensures Scan(rules, states, maxDepth, i1, i2, fewest) <= bound
    decreases FLOOR_SIZE - i1, FLOOR_SIZE - i2, 1
  {
    var current := states[|states| - 1];
    assert i1 < FLOOR_SIZE;
    if i2 == FLOOR_SIZE || !rules.itemExists(current, i1) {
      ScanCompleteSkip(rules, states, maxDepth, i1, i2, fewest, target, j1, j2, bound);
    } else if !rules.itemExists(current, i2) {
      ScanCompleteNext(rules, states, maxDepth, i1, i2, fewest, target, j1, j2, bound);
    } else {
      ScanCompletePair(rules, states, maxDepth, i1, i2, fewest, target, j1, j2, bound);
    }
  }

  /** `ScanComplete` where item `i1` is absent or `i2` has run out. */
  lemma {:induction false} ScanCompleteSkip<S>(rules: Rules<S>, states: seq<S>, maxDepth: nat, i1: nat, i2: nat,
                                           fewest: nat, target: S, j1: nat, j2: nat, bound: nat)
    requires 1 <= |states| <= maxDepth
    requires i1 <= i2 <= FLOOR_SIZE
    requires fewest == NO_PATH || |states| < fewest <= maxDepth
    requires j1 <= j2 < FLOOR_SIZE && StepBy(rules, states[|states| - 1], target, j1, j2)
    requires Admits(rules, states, target) && Process(rules, states + [target], maxDepth) <= bound
    requires i1 < j1 || (i1 == j1 && i2 <= j2)
    requires i1 < FLOOR_SIZE
    requires i2 == FLOOR_SIZE || !rules.itemExists(states[|states| - 1], i1)
    ensures Scan(rules, states, maxDepth, i1, i2, fewest) <= bound
    decreases FLOOR_SIZE - i1, FLOOR_SIZE - i2, 0
  {
    ScanComplete(rules, states, maxDepth, i1 + 1, i1 + 1, fewest, target, j1, j2, bound);
    assert Scan(rules, states, maxDepth, i1, i2, fewest) == Scan(rules, states, maxDepth, i1 + 1, i1 + 1, fewest);
  }

  /** `ScanComplete` where item `i1` is present and `i2` is absent. */
  lemma {:induction false} ScanCompleteNext<S>(rules: Rules<S>, states: seq<S>, maxDepth: nat, i1: nat, i2: nat,
                                           fewest: nat, target: S, j1: nat, j2: nat, bound: nat)
    requires 1 <= |states| <= maxDepth
    requires i1 <= i2 <= FLOOR_SIZE
    requires fewest == NO_PATH || |states| < fewest <= maxDepth
    requires j1 <= j2 < FLOOR_SIZE && StepBy(rules, states[|states| - 1], target, j1, j2)
    requires Admits(rules, states, target) && Process(rules, states + [target], maxDepth) <= bound
    requires i1 < j1 || (i1 == j1 && i2 <= j2)
    requires i1 <= i2 < FLOOR_SIZE
    requires rules.itemExists(states[|states| - 1], i1) && !rules.itemExists(states[|states| - 1], i2)
    ensures Scan(rules, states, maxDepth, i1, i2, fewest) <= bound
    decreases FLOOR_SIZE - i1, FLOOR_SIZE - i2, 0
  {
    ScanComplete(rules, states, maxDepth, i1, i2 + 1, fewest, target, j1, j2, bound);
    assert Scan(rules, states, maxDepth, i1, i2, fewest) == Scan(rules, states, maxDepth, i1, i2 + 1, fewest);
  }

  /** `ScanComplete` where both items are present and both moves are tried. */
  lemma {:induction false} ScanCompletePair<S>(rules: Rules<S>, states: seq<S>, maxDepth: nat, i1: nat, i2: nat,
                                           fewest: nat, target: S, j1: nat, j2: nat, bound: nat)
    requires 1 <= |states| <= maxDepth
    requires i1 <= i2 <= FLOOR_SIZE
    requires fewest == NO_PATH || |states| < fewest <= maxDepth
    requires j1 <= j2 < FLOOR_SIZE && StepBy(rules, states[|states| - 1], target, j1, j2)
    requires Admits(rules, states, target) && Process(rules, states + [target], maxDepth) <= bound
    requires i1 < j1 || (i1 == j1 && i2 <= j2)
    requires i1 <= i2 < FLOOR_SIZE
    requires rules.itemExists(states[|states| - 1], i1) && rules.itemExists(states[|states| - 1], i2)
    ensures Scan(rules, states, maxDepth, i1, i2, fewest) <= bound
    decreases FLOOR_SIZE - i1, FLOOR_SIZE - i2, 0
  {
    var current := states[|states| - 1];
    var afterUp := Branch(rules, states, maxDepth, rules.moveUp(current, i1, i2), fewest);
    var afterDown := Branch(rules, states, maxDepth, rules.moveDown(current, i1, i2), afterUp);
    assert Scan(rules, states, maxDepth, i1, i2, fewest) == Scan(rules, states, maxDepth, i1, i2 + 1, afterDown);
    if i1 < j1 || i2 < j2 {
      ScanComplete(rules, states, maxDepth, i1, i2 + 1, afterDown, target, j1, j2, bound);
    } else {
      assert afterDown <= bound by {
        if rules.moveUp(current, i1, i2) == Some(target) {
          assert afterUp <= bound;
        } else {
          assert rules.moveDown(current, i1, i2) == Some(target);
        }
      }
    }
  }

  /** `process` finds exactly the shortest walked path within its bound:
      any result other than `NO_PATH` is the length of such a path, and no
      such path within the bound is shorter. */
  lemma ProcessIsShortest<S>(rules: Rules<S>, states: seq<S>, maxDepth: nat)
    requires 1 <= |states| && maxDepth < NO_PATH
    ensures var r := Process(rules, states, maxDepth);
            (r != NO_PATH ==> exists p :: Solves(rules, states, p) && |p| == r)
            && (forall p :: Solves(rules, states, p) && |p| <= maxDepth ==> r <= |p|)
  {
    ProcessSound(rules, states, maxDepth);
    forall p | Solves(rules, states, p) && |p| <= maxDepth
      ensures Process(rules, states, maxDepth) <= |p|
    {
      ProcessComplete(rules, states, maxDepth, p);
    }
  }

  lemma {:induction false} DeepenFromShortest<S>(rules: Rules<S>, states: seq<S>, depth: nat)
    requires 1 <= |states| && FIRST_DEPTH <= depth
    requires forall p :: Solves(rules, states, p) ==> |p| >= depth || depth == FIRST_DEPTH
    ensures var r := DeepenFrom(rules, states, depth);
            (r != NO_PATH ==> (exists p :: Solves(rules, states, p) && |p| == r)
                              && forall p :: Solves(rules, states, p) ==> r <= |p|)
            && (r == NO_PATH ==> forall p :: Solves(rules, states, p) ==> |p| >= DEPTH_LIMIT)
    decreases DEPTH_LIMIT - depth
  {
    if depth < DEPTH_LIMIT {
      ProcessIsShortest(rules, states, depth);
      if Process(rules, states, depth) == NO_PATH {
        DeepenFromShortest(rules, states, depth + 1);
      }
    }
  }

  /** `process_id` returns the length of a shortest walked path, and
      `NO_PATH` only when every walked path has at least 20 states. */
  lemma ProcessIdIsShortest<S>(rules: Rules<S>, states: seq<S>)
    requires 1 <= |states|
    ensures var r := ProcessId(rules, states);
            (r != NO_PATH ==> (exists p :: Solves(rules, states, p) && |p| == r)
                              && forall p :: Solves(rules, states, p) ==> r <= |p|)
            && (r == NO_PATH ==> forall p :: Solves(rules, states, p) ==> |p| >= DEPTH_LIMIT)
  {
    DeepenFromShortest(rules, states, FIRST_DEPTH);
  }

  /** From the third state on, the test refuses to go straight back to the
      previous state, provided the state equality is reflexive. */
  lemma AdmitsRefusesReturn<S>(rules: Rules<S>, states: seq<S>)
    requires 3 <= |states|
    requires rules.same(states[|states| - 2], states[|states| - 2])
    ensures !Admits(rules, states, states[|states| - 2])
  {
  }
}
