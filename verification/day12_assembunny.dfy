/** Day 12: the assembunny interpreter. Four 32-bit registers, a program
    counter, and the instructions `cpy`, `inc`, `dec` and `jnz`.

    Register arithmetic follows a debug build: an `inc` or `dec` that
    leaves the 32-bit range, or a jump target that does, is a panic. A
    negative jump target converted to `usize` wraps to a huge counter, so
    the program halts. */
module Assembunny {
  import opened Wrappers
  import opened Text

  datatype Register = A | B | C | D

  function Slot(r: Register): (k: nat)
    ensures k < 4
  {
    match r
    case A => 0
    case B => 1
    case C => 2
    case D => 3
  }

  datatype Source = Reg(register: Register) | Val(value: int)

  datatype Instruction =
    | Cpy(src: Source, dst: Register)
    | Inc(dst: Register)
    | Dec(dst: Register)
    | Jnz(cond: Source, offset: int)


  /** Four registers holding 32-bit values. */
  predicate ValidRegisters(regs: seq<int>) {
    |regs| == 4 && forall k :: 0 <= k < 4 ==> IsI32(regs[k])
  }

  datatype Machine = Machine(pc: nat, registers: seq<int>)

  // ---------------------------------------------------------------------------
  // Parsing

  /** `Register::from_str`: exactly "a" to "d". */
  function ParseRegister(s: string): (r: Result<Register>)
    ensures r.Success? <==> s in {"a", "b", "c", "d"}
  {
    if s == "a" then Success(A)
    else if s == "b" then Success(B)
    else if s == "c" then Success(C)
    else if s == "d" then Success(D)
    else Failure("Unknown register string")
  }

  /** `Source::from_str`: a register name if it is one, else a 32-bit integer. */
  function ParseSource(s: string): (r: Result<Source>)
    ensures ParseRegister(s).Success? ==> r == Success(Reg(ParseRegister(s).value))
    ensures ParseRegister(s).Failure? ==> (r.Success? <==> ParseI32(s).Some?)
    ensures ParseRegister(s).Failure? && ParseI32(s).Some? ==> r == Success(Val(ParseI32(s).value))
    ensures r.Success? && r.value.Val? ==> IsI32(r.value.value)
  {
    match ParseRegister(s)
    case Success(reg) => Success(Reg(reg))
    case Failure(_) =>
      match ParseI32(s)
      case Some(i) => Success(Val(i))
      case None => Failure("Failed to parse int")
  }

  /** Token `k` of an instruction; a missing token is an indexing panic. */
  function Token(tokens: seq<string>, k: nat): (r: Result<string>)
    ensures r.Success? <==> k < |tokens|
    ensures r.Success? ==> r.value == tokens[k]
  {
    if k < |tokens| then Success(tokens[k]) else Failure("index out of bounds")
  }

  /** `Instruction::from_str` on the tokens of a line split at single spaces. */
  function ParseTokens(tokens: seq<string>): (r: Result<Instruction>)
    requires |tokens| >= 1
    ensures tokens[0] !in {"cpy", "inc", "dec", "jnz"} ==> r.Failure?
    ensures r.Success? ==> (r.value.Cpy? <==> tokens[0] == "cpy") && (r.value.Inc? <==> tokens[0] == "inc")
    ensures r.Success? ==> (r.value.Dec? <==> tokens[0] == "dec") && (r.value.Jnz? <==> tokens[0] == "jnz")
    ensures r.Success? ==> Representable(r.value)
  {
    var op := tokens[0];
    if op == "cpy" then
      var s :- Token(tokens, 1);
      var src :- ParseSource(s);
      var d :- Token(tokens, 2);
      var dst :- ParseRegister(d);
      Success(Cpy(src, dst))
    else if op == "inc" then
      var d :- Token(tokens, 1);
      var dst :- ParseRegister(d);
      Success(Inc(dst))
    else if op == "dec" then
      var d :- Token(tokens, 1);
      var dst :- ParseRegister(d);
      Success(Dec(dst))
    else if op == "jnz" then
      var s :- Token(tokens, 1);
      var cond :- ParseSource(s);
      var o :- Token(tokens, 2);
      var offset :- Need(ParseI32(o), "Failed to parse int");
      Success(Jnz(cond, offset))
    else Failure("Unable to parse instruction")
  }

  function ParseInstruction(line: string): (r: Result<Instruction>)
    ensures Split(line, ' ')[0] !in {"cpy", "inc", "dec", "jnz"} ==> r.Failure?
    ensures r.Success? ==> Representable(r.value)
  {
    ParseTokens(Split(line, ' '))
  }

  /** Every line of the program text parsed in order. */
  function ParseProgram(lines: seq<string>): (r: Result<seq<Instruction>>)
    ensures r.Success? ==> |r.value| == |lines| && ValidProgram(r.value)
    ensures r.Success? ==> forall k :: 0 <= k < |lines| ==> ParseInstruction(lines[k]) == Success(r.value[k])
    ensures (forall k :: 0 <= k < |lines| ==> ParseInstruction(lines[k]).Success?) ==> r.Success?
  {
    if lines == [] then Success([])
    else
      var head :- ParseInstruction(lines[0]);
      var tail :- ParseProgram(lines[1..]);
      Success([head] + tail)
  }

  // ---------------------------------------------------------------------------
  // Rendering, the partner of parsing

  function RegisterName(r: Register): string {
    match r
    case A => "a"
    case B => "b"
    case C => "c"
    case D => "d"
  }

  function SourceText(s: Source): string {
    match s
    case Reg(r) => RegisterName(r)
    case Val(i) => IntToString(i)
  }

  function InstructionText(ins: Instruction): string {
    match ins
    case Cpy(src, dst) => "cpy " + SourceText(src) + " " + RegisterName(dst)
    case Inc(dst) => "inc " + RegisterName(dst)
    case Dec(dst) => "dec " + RegisterName(dst)
    case Jnz(cond, offset) => "jnz " + SourceText(cond) + " " + IntToString(offset)
  }

  /** Literals and offsets fit in an `i32`. */
  predicate Representable(ins: Instruction) {
    match ins
    case Cpy(src, _) => src.Val? ==> IsI32(src.value)
    case Jnz(cond, offset) => (cond.Val? ==> IsI32(cond.value)) && IsI32(offset)
    case _ => true
  }

  lemma NoSpaceInNumber(i: int)
    ensures ' ' !in IntToString(i)
  {
    var digits := NatToString(if i < 0 then -i else i);
    assert ' ' !in digits by {
      assert forall k :: 0 <= k < |digits| ==> IsDigit(digits[k]);
    }
    if i < 0 {
      assert IntToString(i) == "-" + digits;
    }
  }

  lemma NumberIsNoRegister(i: int)
    ensures ParseRegister(IntToString(i)).Failure?
  {
    var s := IntToString(i);
    var digits := NatToString(if i < 0 then -i else i);
    assert IsDigit(digits[0]);
    if i < 0 {
      assert s[0] == '-';
    } else {
      assert s[0] == digits[0];
    }
  }

  lemma ParseSourceText(src: Source)
    requires src.Val? ==> IsI32(src.value)
    ensures ParseSource(SourceText(src)) == Success(src)
    ensures ' ' !in SourceText(src)
  {
    if src.Val? {
      NumberIsNoRegister(src.value);
      ParseIntToString(src.value);
      NoSpaceInNumber(src.value);
    }
  }

  lemma TwoTokens(a: string, b: string)
    requires ' ' !in a && ' ' !in b
    ensures Split(a + " " + b, ' ') == [a, b]
  {
    assert a + " " + b == a + [' '] + b;
    SplitAround(a, b, ' ');
  }

  lemma ThreeTokens(a: string, b: string, c: string)
    requires ' ' !in a && ' ' !in b && ' ' !in c
    ensures Split(a + " " + b + " " + c, ' ') == [a, b, c]
  {
    assert a + " " + b + " " + c == a + [' '] + (b + [' '] + c);
    SplitFirst(a, b + [' '] + c, ' ');
    SplitAround(b, c, ' ');
  }

  lemma ParseCpyText(src: Source, dst: Register)
    requires Representable(Cpy(src, dst))
    ensures ParseInstruction(InstructionText(Cpy(src, dst))) == Success(Cpy(src, dst))
  {
    var s, d := SourceText(src), RegisterName(dst);
    ParseSourceText(src);
    CpyTokens(s, d, src, dst);
    ParseThree("cpy", s, d, InstructionText(Cpy(src, dst)));
  }

  lemma CpyTokens(s: string, d: string, src: Source, dst: Register)
    requires ParseSource(s) == Success(src) && ParseRegister(d) == Success(dst)
    ensures ParseTokens(["cpy", s, d]) == Success(Cpy(src, dst))
  {
    var t := ["cpy", s, d];
    assert t[0] == "cpy" && Token(t, 1) == Success(s) && Token(t, 2) == Success(d);
  }

  lemma JnzTokens(s: string, o: string, cond: Source, offset: int)
    requires ParseSource(s) == Success(cond) && ParseI32(o) == Some(offset)
    ensures ParseTokens(["jnz", s, o]) == Success(Jnz(cond, offset))
  {
    var t := ["jnz", s, o];
    assert t[0] == "jnz" && Token(t, 1) == Success(s) && Token(t, 2) == Success(o);
    assert "jnz" != "cpy" && "jnz" != "inc" && "jnz" != "dec";
  }

  lemma ParseJnzText(cond: Source, offset: int)
    requires Representable(Jnz(cond, offset))
    ensures ParseInstruction(InstructionText(Jnz(cond, offset))) == Success(Jnz(cond, offset))
  {
    var s, o := SourceText(cond), IntToString(offset);
    var line := InstructionText(Jnz(cond, offset));
    assert ParseTokens(["jnz", s, o]) == Success(Jnz(cond, offset)) by {
      ParseSourceText(cond);
      ParseIntToString(offset);
      JnzTokens(s, o, cond, offset);
    }
    assert ParseInstruction(line) == ParseTokens(["jnz", s, o]) by {
      assert line == "jnz" + " " + s + " " + o;
      ParseSourceText(cond);
      NoSpaceInNumber(offset);
      ParseThree("jnz", s, o, line);
    }
  }

  /** A line of three space-free words parses as its three tokens. */
  lemma ParseThree(op: string, a: string, b: string, line: string)
    requires ' ' !in op && ' ' !in a && ' ' !in b && |op| >= 1
    requires line == op + " " + a + " " + b
    ensures ParseInstruction(line) == ParseTokens([op, a, b])
  {
    ThreeTokens(op, a, b);
  }

  /** Parsing the text of an instruction gives the instruction back. */
  lemma ParseInstructionText(ins: Instruction)
    requires Representable(ins)
    ensures ParseInstruction(InstructionText(ins)) == Success(ins)
  {
    match ins
    case Cpy(src, dst) => ParseCpyText(src, dst);
    case Inc(dst) => ParseStepText(dst, true);
    case Dec(dst) => ParseStepText(dst, false);
    case Jnz(cond, offset) => ParseJnzText(cond, offset);
  }

  lemma ParseStepText(dst: Register, up: bool)
    ensures var ins := if up then Inc(dst) else Dec(dst);
            ParseInstruction(InstructionText(ins)) == Success(ins)
  {
    var op := if up then "inc" else "dec";
    assert InstructionText(if up then Inc(dst) else Dec(dst)) == op + " " + RegisterName(dst);
    TwoTokens(op, RegisterName(dst));
  }

  // ---------------------------------------------------------------------------
  // Execution

  function Read(regs: seq<int>, src: Source): (v: int)
    requires ValidRegisters(regs)
    ensures src.Reg? ==> v == regs[Slot(src.register)]
    ensures src.Val? ==> v == src.value
  {
    match src
    case Reg(r) => regs[Slot(r)]
    case Val(i) => i
  }


  /** `new_pc as usize`: a negative value wraps around to a huge counter. */
  function AsUsize(i: int): (n: nat)
    requires IsI32(i)
    ensures i >= 0 ==> n == i
    ensures i < 0 ==> n >= USIZE_LIMIT - 0x8000_0000
  {
    if i >= 0 then i else USIZE_LIMIT + i
  }

  /** One instruction of `run_until_halt`: `cpy` writes the source value
      into `dst`, `inc`/`dec` add or subtract one, and all three advance by
      one and touch no other register; `jnz` moves by `offset` exactly when
      its source is not zero and otherwise advances by one. Leaving the
      32-bit range is a panic. */
  function Step(program: seq<Instruction>, m: Machine): (r: Result<Machine>)
    requires ValidProgram(program) && m.pc < |program| && ValidRegisters(m.registers)
    ensures r.Success? ==> ValidRegisters(r.value.registers)
    ensures r.Success? ==>
            var n := r.value;
            var regs := m.registers;
            match program[m.pc]
            case Cpy(src, dst) =>
              n.pc == m.pc + 1 && n.registers[Slot(dst)] == Read(regs, src)
              && OthersUnchanged(regs, n.registers, dst)
            case Inc(dst) =>
              n.pc == m.pc + 1 && n.registers[Slot(dst)] == regs[Slot(dst)] + 1
              && OthersUnchanged(regs, n.registers, dst)
            case Dec(dst) =>
              n.pc == m.pc + 1 && n.registers[Slot(dst)] == regs[Slot(dst)] - 1
              && OthersUnchanged(regs, n.registers, dst)
            case Jnz(cond, offset) =>
              n.registers == regs
              && (Read(regs, cond) == 0 ==> n.pc == m.pc + 1)
              && (Read(regs, cond) != 0 && m.pc <= I32_MAX && m.pc + offset >= 0 ==> n.pc == m.pc + offset)
              && (Read(regs, cond) != 0 && m.pc <= I32_MAX && m.pc + offset < 0 ==> n.pc >= USIZE_LIMIT - 0x8000_0000)
    ensures r.Failure? <==>
            match program[m.pc]
            case Inc(dst) => m.registers[Slot(dst)] == I32_MAX
            case Dec(dst) => m.registers[Slot(dst)] == I32_MIN
            case Jnz(cond, offset) => Read(m.registers, cond) != 0 && !IsI32(AsI32(m.pc) + offset)
            case Cpy(_, _) => false
  {
    var regs := m.registers;
    match program[m.pc]
    case Cpy(src, dst) => Success(Machine(m.pc + 1, regs[Slot(dst) := Read(regs, src)]))
    case Inc(dst) =>
      var v := regs[Slot(dst)] + 1;
      if IsI32(v) then Success(Machine(m.pc + 1, regs[Slot(dst) := v]))
      else Failure("attempt to add with overflow")
    case Dec(dst) =>
      var v := regs[Slot(dst)] - 1;
      if IsI32(v) then Success(Machine(m.pc + 1, regs[Slot(dst) := v]))
      else Failure("attempt to subtract with overflow")
    case Jnz(cond, offset) =>
      if Read(regs, cond) != 0 then
        var target := AsI32(m.pc) + offset;
        if IsI32(target) then Success(Machine(AsUsize(target), regs))
        else Failure("attempt to add with overflow")
      else Success(Machine(m.pc + 1, regs))
  }

  /** Every literal of the program is a 32-bit value, as parsing ensures. */
  predicate ValidProgram(program: seq<Instruction>) {
    forall k :: 0 <= k < |program| ==> Representable(program[k])
  }

  /** The registers other than `dst` agree. */
  predicate OthersUnchanged(before: seq<int>, after: seq<int>, dst: Register)
    requires |before| == 4 && |after| == 4
  {
    forall k :: 0 <= k < 4 && k != Slot(dst) ==> after[k] == before[k]
  }

  /** How `run_until_halt` ends within `fuel` steps. */
  datatype Outcome = Halted(registers: seq<int>) | Panicked(message: string) | Unfinished(machine: Machine)

  /** `run_until_halt`: steps while the counter is inside the program. The
      source loop need not stop; `fuel` bounds the steps taken. */
  function Run(program: seq<Instruction>, m: Machine, fuel: nat): (r: Outcome)
    requires ValidProgram(program) && ValidRegisters(m.registers)
    ensures m.pc >= |program| ==> r == Halted(m.registers)
    ensures r.Halted? ==> ValidRegisters(r.registers)
    ensures r.Unfinished? ==> ValidRegisters(r.machine.registers) && r.machine.pc < |program|
    decreases fuel
  {
    if m.pc >= |program| then Halted(m.registers)
    else if fuel == 0 then Unfinished(m)
    else
      match Step(program, m)
      case Failure(e) => Panicked(e)
      case Success(next) => Run(program, next, fuel - 1)
  }

  /** More fuel never changes a finished run: the interpreter is
      deterministic and a halt or panic is final. */
  lemma {:induction false} RunWithMoreFuel(program: seq<Instruction>, m: Machine, fuel: nat, more: nat)
    requires ValidProgram(program) && ValidRegisters(m.registers)
    requires !Run(program, m, fuel).Unfinished?
    requires fuel <= more
    ensures Run(program, m, more) == Run(program, m, fuel)
    decreases fuel
  {
    if m.pc < |program| && fuel > 0 {
      match Step(program, m)
      case Failure(e) =>
        assert Run(program, m, fuel) == Panicked(e);
        assert Run(program, m, more) == Panicked(e);
      case Success(next) =>
        assert Run(program, m, fuel) == Run(program, next, fuel - 1);
        assert Run(program, m, more) == Run(program, next, more - 1);
        RunWithMoreFuel(program, next, fuel - 1, more - 1);
    } else {
      assert m.pc >= |program|;
      assert Run(program, m, fuel) == Halted(m.registers);
      assert Run(program, m, more) == Halted(m.registers);
    }
  }

  /** A run that is not finished after `fuel` steps continues from the
      machine it stopped at. */
  lemma {:induction false} RunSplits(program: seq<Instruction>, m: Machine, fuel: nat, more: nat)
    requires ValidProgram(program) && ValidRegisters(m.registers)
    requires Run(program, m, fuel).Unfinished?
    ensures Run(program, m, fuel + more) == Run(program, Run(program, m, fuel).machine, more)
    decreases fuel
  {
    assert m.pc < |program|;
    if fuel == 0 {
      assert Run(program, m, fuel).machine == m;
    } else {
      match Step(program, m)
      case Failure(_) =>
        assert false;
      case Success(next) =>
        assert Run(program, m, fuel) == Run(program, next, fuel - 1);
        RunSplits(program, next, fuel - 1, more);
        assert Run(program, m, fuel + more) == Run(program, next, fuel - 1 + more);
    }
  }

  /** A small program: `cpy 41 a`, `inc a`, `inc a`, `dec a`, `jnz a 2`,
      `dec a` halts after five steps with 42 in register a. */
  lemma ExampleProgram()
    ensures Run([Cpy(Val(41), A), Inc(A), Inc(A), Dec(A), Jnz(Reg(A), 2), Dec(A)],
                Machine(0, [0, 0, 0, 0]), 5)
            == Halted([42, 0, 0, 0])
  {
    var p := [Cpy(Val(41), A), Inc(A), Inc(A), Dec(A), Jnz(Reg(A), 2), Dec(A)];
    var m0, m1, m2 := Machine(0, [0, 0, 0, 0]), Machine(1, [41, 0, 0, 0]), Machine(2, [42, 0, 0, 0]);
    var m3, m4, m5 := Machine(3, [43, 0, 0, 0]), Machine(4, [42, 0, 0, 0]), Machine(6, [42, 0, 0, 0]);
    assert m0.registers[Slot(A) := 41] == m1.registers;
    assert Step(p, m0) == Success(m1);
    assert m1.registers[Slot(A) := 42] == m2.registers;
    assert Step(p, m1) == Success(m2);
    assert m2.registers[Slot(A) := 43] == m3.registers;
    assert Step(p, m2) == Success(m3);
    assert m3.registers[Slot(A) := 42] == m4.registers;
    assert Step(p, m3) == Success(m4);
    assert Step(p, m4) == Success(m5);
    assert Run(p, m5, 0) == Halted([42, 0, 0, 0]);
    assert Run(p, m4, 1) == Run(p, m5, 0);
    assert Run(p, m3, 2) == Run(p, m4, 1);
    assert Run(p, m2, 3) == Run(p, m3, 2);
    assert Run(p, m1, 4) == Run(p, m2, 3);
    assert Run(p, m0, 5) == Run(p, m1, 4);
  }
}
