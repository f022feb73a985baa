/** Day 10: bots that pass microchips. Each bot holds at most two chips;
    a bot holding two gives its lower chip and its higher chip to the
    destinations named by its rule, and passes over all bots repeat until
    no bot holds two chips. The instructions arrive already parsed. */
module ChipBots {
  import opened Wrappers

  /** Where a bot sends a chip; `NoDest` until a rule names one. */
  datatype Dest = NoDest | ToBot(id: int) | ToOutput(bin: int)

  /** A chip slot holds -1 when empty. */
  datatype Bot = Bot(chipLow: int, chipHigh: int, outputLow: Dest, outputHigh: Dest) {
    predicate HoldsTwo() { chipLow >= 0 && chipHigh >= 0 }
  }

  const EMPTY_BOT := Bot(-1, -1, NoDest, NoDest)

  /** An input line: a value handed to a bot, or a bot's hand-off rule. */
  datatype Instruction =
    | Value(chip: nat, bot: nat)
    | Gives(giver: nat, low: Dest, high: Dest)

  /** `add_chip`: a chip above the higher slot pushes the higher chip down
      into the lower slot (dropping whatever the lower slot held); a chip
      between the two replaces the lower chip; any other chip panics. */
  function AddChip(b: Bot, id: int): (r: Result<Bot>)
    ensures r.Failure? <==> id <= b.chipLow && id <= b.chipHigh
    ensures r.Success? ==> r.value.outputLow == b.outputLow && r.value.outputHigh == b.outputHigh
    ensures r.Success? && id > b.chipHigh ==> r.value.chipLow == b.chipHigh && r.value.chipHigh == id
    ensures r.Success? && id <= b.chipHigh ==> r.value.chipLow == id && r.value.chipHigh == b.chipHigh
  {
    if id > b.chipHigh then Success(b.(chipLow := b.chipHigh, chipHigh := id))
    else if b.chipLow < id then Success(b.(chipLow := id))
    else Failure("Unable to add chip")
  }

  /** The slots stay ordered: the lower chip never exceeds the higher one,
      and they differ unless the same value was added twice. */
  lemma AddChipKeepsOrder(b: Bot, id: int)
    requires b.chipLow <= b.chipHigh && AddChip(b, id).Success?
    ensures AddChip(b, id).value.chipLow <= AddChip(b, id).value.chipHigh
    ensures b.chipLow < b.chipHigh && id != b.chipHigh ==> AddChip(b, id).value.chipLow < AddChip(b, id).value.chipHigh
  {
  }

  /** A chip given to an empty bot lands in the higher slot; the lower
      slot stays empty. */
  lemma AddChipToEmptyBot(id: nat)
    ensures AddChip(EMPTY_BOT, id) == Success(Bot(-1, id, NoDest, NoDest))
  {
  }

  /** Adding the same chip value twice fills both slots with it. */
  lemma AddChipTwice(id: nat)
    ensures AddChip(EMPTY_BOT, id).Success?
    ensures AddChip(AddChip(EMPTY_BOT, id).value, id) == Success(Bot(id, id, NoDest, NoDest))
  {
  }

  /** `require_bot`: grows the list with empty bots to `id + 1` entries,
      but only when `id` is beyond the current length. */
  function RequireBot(bots: seq<Bot>, id: nat): (r: seq<Bot>)
    ensures |r| == if id > |bots| then id + 1 else |bots|
    ensures r[..|bots|] == bots
    ensures forall k :: |bots| <= k < |r| ==> r[k] == EMPTY_BOT
  {
    if id > |bots| then bots + seq(id + 1 - |bots|, k => EMPTY_BOT) else bots
  }

  /** The resize test is `>` where `>=` was needed: naming the bot just
      past the end leaves the list as it is, so that bot does not exist. */
  lemma RequireBotAtLength(bots: seq<Bot>)
    ensures RequireBot(bots, |bots|) == bots
    ensures |RequireBot(bots, |bots|)| <= |bots|
  {
  }

  /** One instruction of the set-up phase. Indexing a bot that
      `require_bot` did not create panics. */
  function Apply(bots: seq<Bot>, ins: Instruction): (r: Result<seq<Bot>>)
    ensures r.Success? ==> |r.value| >= |bots|
    ensures r.Failure? <==> (var id := if ins.Value? then ins.bot else ins.giver;
                             id == |bots| || (ins.Value? && id < |bots| && AddChip(bots[id], ins.chip).Failure?)
                             || (ins.Value? && id > |bots| && AddChip(EMPTY_BOT, ins.chip).Failure?))
  {
    match ins
    case Value(chip, id) =>
      var grown := RequireBot(bots, id);
      if id >= |grown| then Failure("bot index out of bounds")
      else
        var b :- AddChip(grown[id], chip);
        Success(grown[id := b])
    case Gives(id, low, high) =>
      var grown := RequireBot(bots, id);
      if id >= |grown| then Failure("bot index out of bounds")
      else Success(grown[id := grown[id].(outputLow := low, outputHigh := high)])
  }

  /** The set-up loop over all instructions, in order. */
  function Setup(bots: seq<Bot>, instructions: seq<Instruction>): (r: Result<seq<Bot>>)
    ensures r.Success? ==> |r.value| >= |bots|
    decreases |instructions|
  {
    if instructions == [] then Success(bots)
    else
      var next :- Apply(bots, instructions[0]);
      Setup(next, instructions[1..])
  }

  // ---------------------------------------------------------------------
  // The chip-passing passes

  datatype State = State(bots: seq<Bot>, outputs: map<int, int>, target: int, updated: bool)

  /** Every bot keeps its rule; only chips move. */
  ghost predicate SameRules(a: seq<Bot>, b: seq<Bot>) {
    |a| == |b| && forall k :: 0 <= k < |a| ==> a[k].outputLow == b[k].outputLow && a[k].outputHigh == b[k].outputHigh
  }

  /** Some bot's rule sends chips to output bin `bin`. */
  ghost predicate Named(bots: seq<Bot>, bin: int) {
    exists k :: 0 <= k < |bots| && (bots[k].outputLow == ToOutput(bin) || bots[k].outputHigh == ToOutput(bin))
  }

  /** Moving chips keeps the bins the rules name. */
  lemma NamedSameRules(a: seq<Bot>, b: seq<Bot>, bin: int)
    requires SameRules(a, b) && Named(b, bin)
    ensures Named(a, bin)
  {
    var k :| 0 <= k < |b| && (b[k].outputLow == ToOutput(bin) || b[k].outputHigh == ToOutput(bin));
    assert a[k].outputLow == b[k].outputLow && a[k].outputHigh == b[k].outputHigh;
  }

  /** Hands `chip` to `dest`: another bot through `add_chip` (a negative
      or too large index panics), or an output bin, overwriting what the
      bin held; a missing rule panics. */
  function Deliver(s: State, dest: Dest, chip: int): (r: Result<State>)
    ensures r.Success? ==> SameRules(s.bots, r.value.bots) && r.value.target == s.target && r.value.updated == s.updated
    ensures r.Success? && dest.ToOutput? ==> r.value.bots == s.bots && r.value.outputs == s.outputs[dest.bin := chip]
    ensures r.Success? && dest.ToBot? ==>
              r.value.outputs == s.outputs
              && 0 <= dest.id < |s.bots|
              && Success(r.value.bots[dest.id]) == AddChip(s.bots[dest.id], chip)
              && forall k :: 0 <= k < |s.bots| && k != dest.id ==> r.value.bots[k] == s.bots[k]
    ensures dest.NoDest? ==> r.Failure?
  {
    match dest
    case NoDest => Failure("output unspecified")
    case ToOutput(bin) => Success(s.(outputs := s.outputs[bin := chip]))
    case ToBot(id) =>
      if id < 0 || id >= |s.bots| then Failure("bot index out of bounds")
      else
        var b :- AddChip(s.bots[id], chip);
        Success(s.(bots := s.bots[id := b]))
  }

  /** Bot `i`'s turn within a pass. It becomes the target when it holds
      exactly the two chips asked about; when it holds two chips it gives
      the lower one away, then whatever its higher slot holds, and empties
      both slots. */
  function Turn(s: State, i: nat, lowId: int, highId: int): (r: Result<State>)
    requires i < |s.bots|
    ensures r.Success? ==> SameRules(s.bots, r.value.bots)
    ensures r.Success? ==> r.value.target == (if s.bots[i].chipLow == lowId && s.bots[i].chipHigh == highId then i else s.target)
    ensures r.Success? ==> r.value.updated == (s.updated || s.bots[i].HoldsTwo())
    ensures r.Success? && s.bots[i].HoldsTwo() ==> r.value.bots[i].chipLow == -1 && r.value.bots[i].chipHigh == -1
    ensures !s.bots[i].HoldsTwo() ==> r.Success? && r.value.bots == s.bots && r.value.outputs == s.outputs
    ensures r.Success? ==> !r.value.bots[i].HoldsTwo()
    ensures r.Success? ==> s.outputs.Keys <= r.value.outputs.Keys
    ensures r.Success? ==> forall bin :: bin in r.value.outputs && bin !in s.outputs ==>
              s.bots[i].outputLow == ToOutput(bin) || s.bots[i].outputHigh == ToOutput(bin)
  {
    var bot := s.bots[i];
    var s1 := if bot.chipLow == lowId && bot.chipHigh == highId then s.(target := i) else s;
    if !bot.HoldsTwo() then Success(s1)
    else
      var s2 :- Deliver(s1.(updated := true), bot.outputLow, bot.chipLow);
      var s3 :- Deliver(s2, bot.outputHigh, s2.bots[i].chipHigh);
      var emptied := s3.bots[i].(chipLow := -1, chipHigh := -1);
      Success(s3.(bots := s3.bots[i := emptied]))
  }

  /** The turns of bots `i` onwards in one pass. */
  function PassFrom(s: State, i: nat, lowId: int, highId: int): (r: Result<State>)
    requires i <= |s.bots|
    ensures r.Success? ==> SameRules(s.bots, r.value.bots)
    ensures r.Success? && !r.value.updated ==>
              !s.updated && forall k :: i <= k < |s.bots| ==> !s.bots[k].HoldsTwo()
    ensures r.Success? && !r.value.updated ==> r.value.bots == s.bots && r.value.outputs == s.outputs
    ensures r.Success? ==> r.value.target == s.target || i <= r.value.target < |s.bots|
    ensures r.Success? ==> s.outputs.Keys <= r.value.outputs.Keys
    ensures r.Success? ==> forall bin :: bin in r.value.outputs && bin !in s.outputs ==> Named(s.bots, bin)
    decreases |s.bots| - i
  {
    if i == |s.bots| then Success(s)
    else
      var next :- Turn(s, i, lowId, highId);
      var r := PassFrom(next, i + 1, lowId, highId);
      if r.Success? then
        assert forall bin :: bin in r.value.outputs && bin !in s.outputs ==> Named(s.bots, bin) by {
          forall bin | bin in r.value.outputs && bin !in s.outputs
            ensures Named(s.bots, bin)
          {
            if bin in next.outputs {
              assert 0 <= i < |s.bots| && (s.bots[i].outputLow == ToOutput(bin) || s.bots[i].outputHigh == ToOutput(bin));
            } else {
              NamedSameRules(s.bots, next.bots, bin);
            }
          }
        }
        r
      else r
  }

  datatype Outcome = Finished(outputs: map<int, int>, target: int, bots: seq<Bot>) | Panicked(message: string) | Unfinished

  /** The `while had_update` loop, with `fuel` bounding the number of
      passes: chips can circle between bots forever. */
  function Run(s: State, lowId: int, highId: int, fuel: nat): (r: Outcome)
    ensures r.Finished? ==> SameRules(s.bots, r.bots)
    ensures r.Finished? ==> forall k :: 0 <= k < |r.bots| ==> !r.bots[k].HoldsTwo()
    ensures r.Finished? ==> r.target == s.target || 0 <= r.target < |s.bots|
    ensures r.Finished? ==> s.outputs.Keys <= r.outputs.Keys
    ensures r.Finished? ==> forall bin :: bin in r.outputs && bin !in s.outputs ==> Named(s.bots, bin)
    decreases fuel
  {
    if fuel == 0 then Unfinished
    else
      match PassFrom(s.(updated := false), 0, lowId, highId)
      case Failure(e) => Panicked(e)
      case Success(next) =>
        if !next.updated then Finished(next.outputs, next.target, next.bots)
        else
          var r := Run(next, lowId, highId, fuel - 1);
          if r.Finished? then
            assert forall bin :: bin in r.outputs && bin !in s.outputs ==> Named(s.bots, bin) by {
              forall bin | bin in r.outputs && bin !in s.outputs
                ensures Named(s.bots, bin)
              {
                if bin in next.outputs {
                  assert Named(s.(updated := false).bots, bin);
                } else {
                  NamedSameRules(s.bots, next.bots, bin);
                }
              }
            }
            r
          else r
  }

  /** `process` over parsed instructions: set-up, then passes until no
      bot holds two chips; the answer is the output bins and the last bot
      seen holding exactly `(lowId, highId)`, or -1. */
  function Process(instructions: seq<Instruction>, lowId: int, highId: int, fuel: nat): (r: Outcome)
    ensures r.Finished? ==> forall k :: 0 <= k < |r.bots| ==> !r.bots[k].HoldsTwo()
    ensures r.Finished? ==> r.target == -1 || 0 <= r.target < |r.bots|
    ensures r.Finished? ==> forall bin :: bin in r.outputs ==> Named(r.bots, bin)
  {
    match Setup([], instructions)
    case Failure(e) => Panicked(e)
    case Success(bots) =>
      var r := Run(State(bots, map[], -1, true), lowId, highId, fuel);
      if r.Finished? then
        assert forall bin :: bin in r.outputs ==> Named(r.bots, bin) by {
          forall bin | bin in r.outputs
            ensures Named(r.bots, bin)
          {
            NamedSameRules(r.bots, bots, bin);
          }
        }
        r
      else r
  }

  // ---------------------------------------------------------------------
  // The worked example

  function ExampleInstructions(): seq<Instruction> {
    [Value(5, 2), Gives(2, ToBot(1), ToBot(0)), Value(3, 1),
     Gives(1, ToOutput(1), ToBot(0)), Gives(0, ToOutput(2), ToOutput(0)), Value(2, 2)]
  }

  function ExampleRule(id: nat): Bot
    requires id < 3
  {
    if id == 0 then Bot(-1, -1, ToOutput(2), ToOutput(0))
    else if id == 1 then Bot(-1, -1, ToOutput(1), ToBot(0))
    else Bot(-1, -1, ToBot(1), ToBot(0))
  }

  /** One instruction applied to bots that already exist. */
  lemma ApplyValue(bots: seq<Bot>, chip: nat, id: nat)
    requires id < |bots| && AddChip(bots[id], chip).Success?
    ensures Apply(bots, Value(chip, id)) == Success(bots[id := AddChip(bots[id], chip).value])
  {
    assert RequireBot(bots, id) == bots;
  }

  lemma ApplyGives(bots: seq<Bot>, id: nat, low: Dest, high: Dest)
    requires id < |bots|
    ensures Apply(bots, Gives(id, low, high)) == Success(bots[id := bots[id].(outputLow := low, outputHigh := high)])
  {
    assert RequireBot(bots, id) == bots;
  }

  lemma SetupStep(bots: seq<Bot>, instructions: seq<Instruction>, next: seq<Bot>)
    requires |instructions| > 0 && Apply(bots, instructions[0]) == Success(next)
    ensures Setup(bots, instructions) == Setup(next, instructions[1..])
  {
  }

  /** A turn of a bot holding two chips, given the two deliveries. */
  lemma TurnGiving(s: State, i: nat, lowId: int, highId: int, s2: State, s3: State)
    requires i < |s.bots| && s.bots[i].HoldsTwo()
    requires Deliver((if s.bots[i].chipLow == lowId && s.bots[i].chipHigh == highId then s.(target := i) else s).(updated := true),
                     s.bots[i].outputLow, s.bots[i].chipLow) == Success(s2)
    requires i < |s2.bots| && Deliver(s2, s.bots[i].outputHigh, s2.bots[i].chipHigh) == Success(s3)
    requires i < |s3.bots|
    ensures Turn(s, i, lowId, highId) == Success(s3.(bots := s3.bots[i := s3.bots[i].(chipLow := -1, chipHigh := -1)]))
  {
  }

  /** After set-up bot 1 holds chip 3 and bot 2 holds chips 2 and 5. */
  /** The last three instructions of the example, from the state reached
      after the first three. */
  lemma ExampleSetupLate()
    ensures var b3 := [EMPTY_BOT, Bot(-1, 3, NoDest, NoDest), Bot(-1, 5, ToBot(1), ToBot(0))];
            Setup(b3, ExampleInstructions()[3..])
            == Success([ExampleRule(0), ExampleRule(1).(chipHigh := 3), ExampleRule(2).(chipLow := 2, chipHigh := 5)])
  {
    var b3 := [EMPTY_BOT, Bot(-1, 3, NoDest, NoDest), Bot(-1, 5, ToBot(1), ToBot(0))];
    var b4 := [EMPTY_BOT, Bot(-1, 3, ToOutput(1), ToBot(0)), Bot(-1, 5, ToBot(1), ToBot(0))];
    var b5 := [ExampleRule(0), Bot(-1, 3, ToOutput(1), ToBot(0)), Bot(-1, 5, ToBot(1), ToBot(0))];
    var b6 := [ExampleRule(0), Bot(-1, 3, ToOutput(1), ToBot(0)), Bot(2, 5, ToBot(1), ToBot(0))];
    var g1, g0, v := Gives(1, ToOutput(1), ToBot(0)), Gives(0, ToOutput(2), ToOutput(0)), Value(2, 2);
    assert Setup(b5, [v]) == Success(b6) by {
      assert AddChip(b5[2], 2) == Success(Bot(2, 5, ToBot(1), ToBot(0)));
      ApplyValue(b5, 2, 2);
      assert b5[2 := Bot(2, 5, ToBot(1), ToBot(0))] == b6;
      SetupStep(b5, [v], b6);
      assert [v][1..] == [];
    }
    assert Setup(b4, [g0, v]) == Success(b6) by {
      ApplyGives(b4, 0, ToOutput(2), ToOutput(0));
      assert b4[0 := b4[0].(outputLow := ToOutput(2), outputHigh := ToOutput(0))] == b5;
      SetupStep(b4, [g0, v], b5);
      assert [g0, v][1..] == [v];
    }
    assert Setup(b3, [g1, g0, v]) == Success(b6) by {
      ApplyGives(b3, 1, ToOutput(1), ToBot(0));
      assert b3[1 := b3[1].(outputLow := ToOutput(1), outputHigh := ToBot(0))] == b4;
      SetupStep(b3, [g1, g0, v], b4);
      assert [g1, g0, v][1..] == [g0, v];
    }
    assert ExampleInstructions()[3..] == [g1, g0, v];
  }

  lemma ExampleSetup()
    ensures Setup([], ExampleInstructions())
            == Success([ExampleRule(0), ExampleRule(1).(chipHigh := 3), ExampleRule(2).(chipLow := 2, chipHigh := 5)])
  {
    var ins := ExampleInstructions();
    var b1 := [EMPTY_BOT, EMPTY_BOT, Bot(-1, 5, NoDest, NoDest)];
    var b2 := [EMPTY_BOT, EMPTY_BOT, Bot(-1, 5, ToBot(1), ToBot(0))];
    var b3 := [EMPTY_BOT, Bot(-1, 3, NoDest, NoDest), Bot(-1, 5, ToBot(1), ToBot(0))];
    ExampleSetupLate();
    assert Setup(b2, ins[2..]) == Setup(b3, ins[3..]) by {
      assert AddChip(EMPTY_BOT, 3) == Success(Bot(-1, 3, NoDest, NoDest));
      ApplyValue(b2, 3, 1);
      assert b2[1 := Bot(-1, 3, NoDest, NoDest)] == b3;
      SetupStep(b2, ins[2..], b3);
      assert ins[2..][1..] == ins[3..];
    }
    assert Setup(b1, ins[1..]) == Setup(b2, ins[2..]) by {
      ApplyGives(b1, 2, ToBot(1), ToBot(0));
      assert b1[2 := b1[2].(outputLow := ToBot(1), outputHigh := ToBot(0))] == b2;
      SetupStep(b1, ins[1..], b2);
      assert ins[1..][1..] == ins[2..];
    }
    assert Setup([], ins) == Setup(b1, ins[1..]) by {
      assert RequireBot([], 2) == [EMPTY_BOT, EMPTY_BOT, EMPTY_BOT];
      assert [EMPTY_BOT, EMPTY_BOT, EMPTY_BOT][2 := Bot(-1, 5, NoDest, NoDest)] == b1;
      assert Apply([], ins[0]) == Success(b1);
      SetupStep([], ins, b1);
    }
  }


  /** A pass over three bots is their three turns in order. */
  lemma PassOfThree(s: State, t0: State, t1: State, t2: State, lowId: int, highId: int)
    requires |s.bots| == 3
    requires Turn(s, 0, lowId, highId) == Success(t0)
    requires Turn(t0, 1, lowId, highId) == Success(t1)
    requires Turn(t1, 2, lowId, highId) == Success(t2)
    ensures PassFrom(s, 0, lowId, highId) == Success(t2)
  {
    assert PassFrom(t2, 3, lowId, highId) == Success(t2);
    assert PassFrom(t1, 2, lowId, highId) == Success(t2);
    assert PassFrom(t0, 1, lowId, highId) == Success(t2);
  }

  /** First pass: bot 2 compares 2 and 5 and becomes the target, giving 2
      to bot 1 and 5 to bot 0. */
  lemma ExampleFirstPass()
    ensures PassFrom(State([ExampleRule(0), ExampleRule(1).(chipHigh := 3), ExampleRule(2).(chipLow := 2, chipHigh := 5)], map[], -1, false), 0, 2, 5)
            == Success(State([ExampleRule(0).(chipHigh := 5), ExampleRule(1).(chipLow := 2, chipHigh := 3), ExampleRule(2)], map[], 2, true))
  {
    var b0 := Bot(-1, -1, ToOutput(2), ToOutput(0));
    var b1 := Bot(-1, 3, ToOutput(1), ToBot(0));
    var b2 := Bot(2, 5, ToBot(1), ToBot(0));
    var s := State([b0, b1, b2], map[], -1, false);
    assert Turn(s, 0, 2, 5) == Success(s);
    assert Turn(s, 1, 2, 5) == Success(s);
    var c1 := Bot(2, 3, ToOutput(1), ToBot(0));
    assert AddChip(b1, 2) == Success(c1);
    var s2 := State([b0, c1, b2], map[], 2, true);
    assert [b0, b1, b2][1 := c1] == s2.bots;
    var c0 := Bot(-1, 5, ToOutput(2), ToOutput(0));
    assert AddChip(b0, 5) == Success(c0);
    var s3 := State([c0, c1, b2], map[], 2, true);
    assert s2.bots[0 := c0] == s3.bots;
    TurnGiving(s, 2, 2, 5, s2, s3);
    var t2 := State([c0, c1, Bot(-1, -1, ToBot(1), ToBot(0))], map[], 2, true);
    assert s3.bots[2 := s3.bots[2].(chipLow := -1, chipHigh := -1)] == t2.bots;
    PassOfThree(s, s, s, t2, 2, 5);
  }

  /** Second pass: bot 1 gives 2 to output 1 and 3 to bot 0. */
  lemma ExampleSecondPass()
    ensures PassFrom(State([ExampleRule(0).(chipHigh := 5), ExampleRule(1).(chipLow := 2, chipHigh := 3), ExampleRule(2)], map[], 2, false), 0, 2, 5)
            == Success(State([ExampleRule(0).(chipLow := 3, chipHigh := 5), ExampleRule(1), ExampleRule(2)], map[1 := 2], 2, true))
  {
    var b0 := Bot(-1, 5, ToOutput(2), ToOutput(0));
    var b1 := Bot(2, 3, ToOutput(1), ToBot(0));
    var b2 := Bot(-1, -1, ToBot(1), ToBot(0));
    var s := State([b0, b1, b2], map[], 2, false);
    assert Turn(s, 0, 2, 5) == Success(s);
    var s2 := State([b0, b1, b2], map[1 := 2], 2, true);
    var c0 := Bot(3, 5, ToOutput(2), ToOutput(0));
    assert AddChip(b0, 3) == Success(c0);
    var s3 := State([c0, b1, b2], map[1 := 2], 2, true);
    assert s2.bots[0 := c0] == s3.bots;
    TurnGiving(s, 1, 2, 5, s2, s3);
    var t1 := State([c0, Bot(-1, -1, ToOutput(1), ToBot(0)), b2], map[1 := 2], 2, true);
    assert s3.bots[1 := s3.bots[1].(chipLow := -1, chipHigh := -1)] == t1.bots;
    assert Turn(t1, 2, 2, 5) == Success(t1);
    PassOfThree(s, s, t1, t1, 2, 5);
  }

  /** Third pass: bot 0 gives 3 to output 2 and 5 to output 0. */
  lemma ExampleThirdPass()
    ensures PassFrom(State([ExampleRule(0).(chipLow := 3, chipHigh := 5), ExampleRule(1), ExampleRule(2)], map[1 := 2], 2, false), 0, 2, 5)
            == Success(State([ExampleRule(0), ExampleRule(1), ExampleRule(2)], map[1 := 2, 2 := 3, 0 := 5], 2, true))
  {
    var b0 := Bot(3, 5, ToOutput(2), ToOutput(0));
    var b1 := Bot(-1, -1, ToOutput(1), ToBot(0));
    var b2 := Bot(-1, -1, ToBot(1), ToBot(0));
    var s := State([b0, b1, b2], map[1 := 2], 2, false);
    var s2 := State([b0, b1, b2], map[1 := 2, 2 := 3], 2, true);
    var s3 := State([b0, b1, b2], map[1 := 2, 2 := 3, 0 := 5], 2, true);
    TurnGiving(s, 0, 2, 5, s2, s3);
    var t0 := State([Bot(-1, -1, ToOutput(2), ToOutput(0)), b1, b2], map[1 := 2, 2 := 3, 0 := 5], 2, true);
    assert s3.bots[0 := s3.bots[0].(chipLow := -1, chipHigh := -1)] == t0.bots;
    assert Turn(t0, 1, 2, 5) == Success(t0);
    assert Turn(t0, 2, 2, 5) == Success(t0);
    PassOfThree(s, t0, t0, t0, 2, 5);
  }

  /** The fourth pass finds no bot holding two chips. */
  lemma ExampleLastPass()
    ensures PassFrom(State([ExampleRule(0), ExampleRule(1), ExampleRule(2)], map[1 := 2, 2 := 3, 0 := 5], 2, false), 0, 2, 5)
            == Success(State([ExampleRule(0), ExampleRule(1), ExampleRule(2)], map[1 := 2, 2 := 3, 0 := 5], 2, false))
  {
    var s := State([ExampleRule(0), ExampleRule(1), ExampleRule(2)], map[1 := 2, 2 := 3, 0 := 5], 2, false);
    assert Turn(s, 0, 2, 5) == Success(s);
    assert Turn(s, 1, 2, 5) == Success(s);
    assert Turn(s, 2, 2, 5) == Success(s);
    PassOfThree(s, s, s, s, 2, 5);
  }

  /** The worked example: bot 2 is the one comparing chips 2 and 5, and
      the bins end up holding 5, 2 and 3. */
  /** A pass that moved chips hands over to the next pass. */
  lemma RunStep(s: State, lowId: int, highId: int, fuel: nat, next: State)
    requires fuel > 0 && PassFrom(s.(updated := false), 0, lowId, highId) == Success(next) && next.updated
    ensures Run(s, lowId, highId, fuel) == Run(next, lowId, highId, fuel - 1)
  {
  }

  /** The puzzle's worked example: outputs 0, 1 and 2 end up holding 5, 2
      and 3, and bot 2 is the one that compares chips 2 and 5. */
  lemma Example()
    ensures Process(ExampleInstructions(), 2, 5, 4) == Finished(map[1 := 2, 2 := 3, 0 := 5], 2, [ExampleRule(0), ExampleRule(1), ExampleRule(2)])
  {
    var rules := [ExampleRule(0), ExampleRule(1), ExampleRule(2)];
    ExampleSetup();
    var s0 := State([ExampleRule(0), ExampleRule(1).(chipHigh := 3), ExampleRule(2).(chipLow := 2, chipHigh := 5)], map[], -1, true);
    assert Process(ExampleInstructions(), 2, 5, 4) == Run(s0, 2, 5, 4);
    ExampleFirstPass();
    var s1 := State([ExampleRule(0).(chipHigh := 5), ExampleRule(1).(chipLow := 2, chipHigh := 3), ExampleRule(2)], map[], 2, true);
    RunStep(s0, 2, 5, 4, s1);
    ExampleSecondPass();
    var s2 := State([ExampleRule(0).(chipLow := 3, chipHigh := 5), ExampleRule(1), ExampleRule(2)], map[1 := 2], 2, true);
    RunStep(s1, 2, 5, 3, s2);
    ExampleThirdPass();
    var s3 := State(rules, map[1 := 2, 2 := 3, 0 := 5], 2, true);
    RunStep(s2, 2, 5, 2, s3);
    ExampleLastPass();
    assert Run(s3, 2, 5, 1) == Finished(map[1 := 2, 2 := 3, 0 := 5], 2, rules);
  }
}
