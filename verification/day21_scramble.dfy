/** Day 21: the password scrambler. A password is a sequence of letters and
    every instruction rearranges it in place.

    The slice `rotate(mid)` of the source is the old unstable API, which
    rotates left by `mid` and requires `mid <= len`. */
module Scrambler {
  import opened Wrappers
  import opened Text

  type Password = seq<char>

  /** The same letters with the same multiplicities, so the same length too. */
  predicate SameLetters(a: Password, b: Password) {
    |a| == |b| && multiset(a) == multiset(b)
  }

  /** `rotate(mid)`: the first `mid` letters move to the back. */
  function RotateLeftBy(s: Password, mid: nat): (r: Password)
    requires mid <= |s|
    ensures SameLetters(r, s)
    ensures forall i :: 0 <= i < |s| - mid ==> r[i] == s[i + mid]
    ensures forall i :: |s| - mid <= i < |s| ==> r[i] == s[i + mid - |s|]
  {
    assert s == s[..mid] + s[mid..];
    s[mid..] + s[..mid]
  }

  /** `swap_pos`: the letters at `x` and `y` trade places. */
  function SwapPos(s: Password, x: nat, y: nat): (r: Password)
    requires x < |s| && y < |s|
    ensures SameLetters(r, s)
    ensures r[x] == s[y] && r[y] == s[x]
    ensures forall k :: 0 <= k < |s| && k != x && k != y ==> r[k] == s[k]
  {
    s[x := s[y]][y := s[x]]
  }

  /** `swap_letter`: the first occurrences of `a` and `b` trade places. */
  function SwapLetter(s: Password, a: char, b: char): (r: Password)
    requires a in s && b in s
    ensures SameLetters(r, s)
    ensures r[IndexOf(s, a)] == b && r[IndexOf(s, b)] == a
    ensures forall k :: 0 <= k < |s| && k != IndexOf(s, a) && k != IndexOf(s, b) ==> r[k] == s[k]
  {
    SwapPos(s, IndexOf(s, a), IndexOf(s, b))
  }

  /** The letter at `i` of `s` sits at `(i + k) mod len` in `r`. */
  ghost predicate TurnedRight(r: Password, s: Password, k: nat)
    requires |r| == |s| && k < |s|
  {
    (forall i :: 0 <= i < |s| - k ==> r[i + k] == s[i])
    && (forall i :: |s| - k <= i < |s| ==> r[i + k - |s|] == s[i])
  }

  /** `rotate_right`: the letter at `i` moves to `(i + amount) mod len`. */
  function RotateRight(s: Password, amount: nat): (r: Password)
    requires |s| > 0
    ensures SameLetters(r, s)
    ensures TurnedRight(r, s, amount % |s|)
  {
    RotateLeftBy(s, |s| - amount % |s|)
  }

  /** `rotate_left`: `amount` may not exceed the length. */
  function RotateLeft(s: Password, amount: nat): (r: Password)
    requires amount <= |s|
    ensures SameLetters(r, s)
    ensures forall i :: 0 <= i < |s| - amount ==> r[i] == s[i + amount]
    ensures forall i :: |s| - amount <= i < |s| ==> r[i] == s[i + amount - |s|]
  {
    RotateLeftBy(s, amount)
  }

  /** How far `rotate_by_index` turns right for a letter at `index`. */
  function BasedAmount(index: nat): (n: nat)
    ensures n == index + 1 || (index >= 4 && n == index + 2)
    ensures index >= 4 <==> n == index + 2
  {
    if index >= 4 then index + 2 else index + 1
  }

  /** `rotate_by_index`: rotate right by the position of the first `c`,
      plus one, plus one more from position 4 on. */
  function RotateBased(s: Password, c: char): (r: Password)
    requires c in s
    ensures SameLetters(r, s)
    ensures TurnedRight(r, s, BasedAmount(IndexOf(s, c)) % |s|)
  {
    RotateRight(s, BasedAmount(IndexOf(s, c)))
  }

  /** The letters of `t` in reverse order. */
  function Reversed(t: Password): (r: Password)
    ensures SameLetters(r, t)
    ensures forall i :: 0 <= i < |t| ==> r[i] == t[|t| - 1 - i]
  {
    if t == [] then []
    else
      assert t == [t[0]] + t[1..];
      Reversed(t[1..]) + [t[0]]
  }

  /** `reverse_range`: positions `x` through `y`, both included, in reverse. */
  function ReverseRange(s: Password, x: nat, y: nat): (r: Password)
    requires x <= y + 1 <= |s|
    ensures SameLetters(r, s)
    ensures r[..x] == s[..x] && r[y + 1..] == s[y + 1..]
    ensures forall i :: x <= i <= y ==> r[i] == s[x + y - i]
  {
    assert s == s[..x] + s[x..y + 1] + s[y + 1..];
    s[..x] + Reversed(s[x..y + 1]) + s[y + 1..]
  }

  /** The letter at `x` taken out and put back so that it lands at `y`. */
  function Relocated(s: Password, x: nat, y: nat): (r: Password)
    requires x < |s| && y < |s|
  {
    var rest := s[..x] + s[x + 1..];
    rest[..y] + [s[x]] + rest[y..]
  }

  /** `move_to_pos`: the letter walks from `x` to `y` by adjacent swaps,
      first forwards while it is before `y`, then backwards while after. */
  method MoveToPos(s: Password, x: nat, y: nat) returns (r: Password)
    requires x == y || (x < |s| && y < |s|)
    ensures SameLetters(r, s)
    ensures x < |s| ==> r == Relocated(s, x, y)
    ensures x == y ==> r == s
  {
    if x < y {
      r := WalkForward(s, x, y);
      var rest := s[..x] + s[x + 1..];
      assert rest[..y] == s[..x] + s[x + 1..y + 1];
      assert rest[y..] == s[y + 1..];
    } else if x > y {
      r := WalkBack(s, x, y);
      var rest := s[..x] + s[x + 1..];
      assert rest[..y] == s[..y];
      assert rest[y..] == s[y..x] + s[x + 1..];
    } else {
      r := s;
      if x < |s| {
        assert s[..x] + s[x + 1..] == s[..x] + s[x..][1..];
        assert s == s[..x] + [s[x]] + s[x + 1..];
      }
    }
  }

  /** The first loop of `move_to_pos`. */
  method WalkForward(s: Password, x: nat, y: nat) returns (r: Password)
    requires x <= y < |s|
    ensures SameLetters(r, s)
    ensures r == s[..x] + s[x + 1..y + 1] + [s[x]] + s[y + 1..]
  {
    r := s;
    var i := x;
    while i < y
      invariant x <= i <= y
      invariant SameLetters(r, s)
      invariant forall k :: 0 <= k < x ==> r[k] == s[k]
      invariant forall k :: x <= k < i ==> r[k] == s[k + 1]
      invariant r[i] == s[x]
      invariant forall k :: i < k < |s| ==> r[k] == s[k]
    {
      r := SwapPos(r, i, i + 1);
      i := i + 1;
    }
    var t := s[..x] + s[x + 1..y + 1] + [s[x]] + s[y + 1..];
    assert |t| == |r|;
    forall k | 0 <= k < |r|
      ensures r[k] == t[k]
    {
      if k < x {
        assert t[k] == s[k];
      } else if k < y {
        assert t[k] == s[x + 1..y + 1][k - x];
      } else if k > y {
        assert t[k] == s[y + 1..][k - y - 1];
      }
    }
  }

  /** The second loop of `move_to_pos`. */
  method WalkBack(s: Password, x: nat, y: nat) returns (r: Password)
    requires y <= x < |s|
    ensures SameLetters(r, s)
    ensures r == s[..y] + [s[x]] + s[y..x] + s[x + 1..]
  {
    r := s;
    var i := x;
    while i > y
      invariant y <= i <= x
      invariant SameLetters(r, s)
      invariant forall k :: 0 <= k < i ==> r[k] == s[k]
      invariant r[i] == s[x]
      invariant forall k :: i < k <= x ==> r[k] == s[k - 1]
      invariant forall k :: x < k < |s| ==> r[k] == s[k]
    {
      r := SwapPos(r, i, i - 1);
      i := i - 1;
    }
    var t := s[..y] + [s[x]] + s[y..x] + s[x + 1..];
    assert |t| == |r|;
    forall k | 0 <= k < |r|
      ensures r[k] == t[k]
    {
      if k < y {
        assert t[k] == s[k];
      } else if y < k <= x {
        assert t[k] == s[y..x][k - y - 1];
      } else if k > x {
        assert t[k] == s[x + 1..][k - x - 1];
      }
    }
  }

  /** The relocation `move_to_pos` performs, as a function; no move at all
      when the two positions agree. */
  function Moved(s: Password, x: nat, y: nat): (r: Password)
    requires x == y || (x < |s| && y < |s|)
  {
    if x == y then s else Relocated(s, x, y)
  }

  /** The method and the relocation agree. */
  method MoveMatchesRelocation(s: Password, x: nat, y: nat) returns (r: Password)
    requires x == y || (x < |s| && y < |s|)
    ensures r == Moved(s, x, y)
  {
    r := MoveToPos(s, x, y);
    if x == y && x < |s| {
      assert r == s;
    }
  }

  // ---------------------------------------------------------------------------
  // Inverses

  lemma SwapPosInvolution(s: Password, x: nat, y: nat)
    requires x < |s| && y < |s|
    ensures SwapPos(SwapPos(s, x, y), x, y) == s
  {
  }

  /** `rotate_left` by `n` undoes `rotate_right` by `n` when `n <= len`. */
  lemma RotateLeftUndoesRight(s: Password, n: nat)
    requires 0 < |s| && n <= |s|
    ensures RotateLeft(RotateRight(s, n), n) == s
  {
    var r := RotateRight(s, n);
    if n == |s| {
      assert n % |s| == 0;
      assert r == s[|s|..] + s[..|s|] == s;
    } else {
      var m := |s| - n;
      ModBelow(n, |s|);
      assert r == s[m..] + s[..m];
      assert r[n..] == s[..m] && r[..n] == s[m..];
      assert s[..m] + s[m..] == s;
    }
  }

  lemma ReverseRangeInvolution(s: Password, x: nat, y: nat)
    requires x <= y + 1 <= |s|
    ensures ReverseRange(ReverseRange(s, x, y), x, y) == s
  {
    var t := ReverseRange(s, x, y);
    var r := ReverseRange(t, x, y);
    assert |r| == |t| == |s|;
    forall i | 0 <= i < |s|
      ensures r[i] == s[i]
    {
      if i < x {
        assert r[i] == r[..x][i] && s[i] == s[..x][i];
      } else if i <= y {
        assert r[i] == t[x + y - i];
      } else {
        assert r[i] == r[y + 1..][i - y - 1] && s[i] == s[y + 1..][i - y - 1];
      }
    }
  }

  /** Moving the letter back from `y` to `x` restores the password. */
  lemma MoveBack(s: Password, x: nat, y: nat)
    requires x < |s| && y < |s|
    ensures Moved(Moved(s, x, y), y, x) == s
  {
    if x != y {
      var rest := s[..x] + s[x + 1..];
      var t := Relocated(s, x, y);
      assert t[y] == s[x];
      assert t[..y] + t[y + 1..] == rest;
      assert rest[..x] + [s[x]] + rest[x..] == s;
    }
  }

  // ---------------------------------------------------------------------------
  // Instructions

  datatype Instruction =
    | SwapPosition(x: nat, y: nat)
    | SwapLetters(a: char, b: char)
    | RotateOnLetter(c: char)
    | RotateRightSteps(n: nat)
    | RotateLeftSteps(n: nat)
    | ReversePositions(x: nat, y: nat)
    | MovePosition(x: nat, y: nat)

  /** The password satisfies what the instruction's operation demands:
      positions in range, letters present, a non-empty password to rotate. */
  predicate Applicable(s: Password, ins: Instruction) {
    match ins
    case SwapPosition(x, y) => x < |s| && y < |s|
    case SwapLetters(a, b) => a in s && b in s
    case RotateOnLetter(c) => c in s
    case RotateRightSteps(_) => |s| > 0
    case RotateLeftSteps(n) => n <= |s|
    case ReversePositions(x, y) => x <= y + 1 <= |s|
    case MovePosition(x, y) => x == y || (x < |s| && y < |s|)
  }

  /** One instruction applied; a violated demand is the panic of the source. */
  function Execute(s: Password, ins: Instruction): (r: Result<Password>)
    ensures r.Success? <==> Applicable(s, ins)
    ensures r.Success? ==> SameLetters(r.value, s)
  {
    if !Applicable(s, ins) then Failure("instruction does not fit the password")
    else
      match ins
      case SwapPosition(x, y) => Success(SwapPos(s, x, y))
      case SwapLetters(a, b) => Success(SwapLetter(s, a, b))
      case RotateOnLetter(c) => Success(RotateBased(s, c))
      case RotateRightSteps(n) => Success(RotateRight(s, n))
      case RotateLeftSteps(n) => Success(RotateLeft(s, n))
      case ReversePositions(x, y) => Success(ReverseRange(s, x, y))
      case MovePosition(x, y) =>
        if x == y then Success(s)
        else
          RelocatedSameLetters(s, x, y);
          Success(Relocated(s, x, y))
  }

  lemma RelocatedSameLetters(s: Password, x: nat, y: nat)
    requires x < |s| && y < |s|
    ensures SameLetters(Relocated(s, x, y), s)
  {
    var rest := s[..x] + s[x + 1..];
    assert s == s[..x] + [s[x]] + s[x + 1..];
    assert multiset(s) == multiset(s[..x]) + multiset{s[x]} + multiset(s[x + 1..]);
    assert rest == rest[..y] + rest[y..];
    assert multiset(rest) == multiset(rest[..y]) + multiset(rest[y..]);
    assert multiset(rest) == multiset(s[..x]) + multiset(s[x + 1..]);
    var r := Relocated(s, x, y);
    assert r == rest[..y] + [s[x]] + rest[y..];
    assert multiset(r) == multiset(rest[..y]) + multiset{s[x]} + multiset(rest[y..]);
    assert multiset(r) == multiset(rest) + multiset{s[x]};
    assert multiset(s) == multiset(s[..x]) + multiset(s[x + 1..]) + multiset{s[x]};
  }

  /** Word `k` of a split line; a missing word is an indexing panic. */
  function Word(words: seq<string>, k: nat): (r: Result<string>)
    ensures r.Success? <==> k < |words|
    ensures r.Success? ==> r.value == words[k]
  {
    if k < |words| then Success(words[k]) else Failure("index out of bounds")
  }

  /** Word `k` parsed as a `usize`; a bad number is the `ParseIntError`. */
  function Number(words: seq<string>, k: nat): (r: Result<nat>)
    ensures r.Success? <==> k < |words| && ParseUnsigned(words[k], USIZE_LIMIT).Some?
    ensures r.Success? ==> ParseUnsigned(words[k], USIZE_LIMIT) == Some(r.value)
  {
    var word :- Word(words, k);
    Need(ParseUnsigned(word, USIZE_LIMIT), "invalid digit found in string")
  }

  /** The first letter of word `k`. Words are never empty. */
  function Letter(words: seq<string>, k: nat): (r: Result<char>)
    requires forall j :: 0 <= j < |words| ==> |words[j]| > 0
    ensures r.Success? <==> k < |words|
    ensures r.Success? ==> r.value == words[k][0]
  {
    var word :- Word(words, k);
    Success(word[0])
  }

  /** The keyword tests of `parse_instructions` on the words of one line:
      an instruction read has the line's first word as its keyword and
      numbers that fit in a `usize`. */
  function ParseWords(w: seq<string>): (r: Result<Instruction>)
    requires forall j :: 0 <= j < |w| ==> |w[j]| > 0
    ensures r.Success? ==> |w| > 0 && w[0] == Words(r.value)[0]
    ensures r.Success? ==> Representable(r.value)
    ensures |w| == 0 || w[0] !in {"swap", "rotate", "reverse", "move"} ==> r.Failure?
  {
    var first :- Word(w, 0);
    if first == "swap" then
      var second :- Word(w, 1);
      if second == "position" then
        var x :- Number(w, 2);
        var y :- Number(w, 5);
        Success(SwapPosition(x, y))
      else if second == "letter" then
        var a :- Letter(w, 2);
        var b :- Letter(w, 5);
        Success(SwapLetters(a, b))
      else Failure("Unknown instruction!")
    else if first == "rotate" then
      var second :- Word(w, 1);
      if second == "based" then
        var c :- Letter(w, 6);
        Success(RotateOnLetter(c))
      else if second == "right" then
        var n :- Number(w, 2);
        Success(RotateRightSteps(n))
      else if second == "left" then
        var n :- Number(w, 2);
        Success(RotateLeftSteps(n))
      else Failure("Unknown instruction!")
    else if first == "reverse" then
      var x :- Number(w, 2);
      var y :- Number(w, 4);
      Success(ReversePositions(x, y))
    else if first == "move" then
      var x :- Number(w, 2);
      var y :- Number(w, 5);
      Success(MovePosition(x, y))
    else Failure("Unknown instruction!")
  }

  function ParseInstruction(line: string): Result<Instruction> {
    ParseWords(SplitWhitespace(line))
  }

  /** `parse_instructions`: every line parsed and applied in order. */
  function Scramble(lines: seq<string>, s: Password): (r: Result<Password>)
    ensures r.Success? ==> SameLetters(r.value, s)
  {
    if lines == [] then Success(s)
    else
      var ins :- ParseInstruction(lines[0]);
      var next :- Execute(s, ins);
      Scramble(lines[1..], next)
  }

  function ParseInstructions(instructions: string, input: Password): (r: Result<Password>)
    ensures r.Success? ==> SameLetters(r.value, input)
  {
    Scramble(Lines(instructions), input)
  }

  // ---------------------------------------------------------------------------
  // The instruction text

  /** The words of an instruction as the puzzle writes it. */
  function Words(ins: Instruction): (w: seq<string>)
    ensures forall j :: 0 <= j < |w| ==> |w[j]| > 0
  {
    match ins
    case SwapPosition(x, y) => ["swap", "position", NatToString(x), "with", "position", NatToString(y)]
    case SwapLetters(a, b) => ["swap", "letter", [a], "with", "letter", [b]]
    case RotateOnLetter(c) => ["rotate", "based", "on", "position", "of", "letter", [c]]
    case RotateRightSteps(n) => ["rotate", "right", NatToString(n), "steps"]
    case RotateLeftSteps(n) => ["rotate", "left", NatToString(n), "steps"]
    case ReversePositions(x, y) => ["reverse", "positions", NatToString(x), "through", NatToString(y)]
    case MovePosition(x, y) => ["move", "position", NatToString(x), "to", "position", NatToString(y)]
  }

  /** The numbers of an instruction fit in a `usize`. */
  predicate Representable(ins: Instruction) {
    match ins
    case SwapPosition(x, y) => x < USIZE_LIMIT && y < USIZE_LIMIT
    case RotateRightSteps(n) => n < USIZE_LIMIT
    case RotateLeftSteps(n) => n < USIZE_LIMIT
    case ReversePositions(x, y) => x < USIZE_LIMIT && y < USIZE_LIMIT
    case MovePosition(x, y) => x < USIZE_LIMIT && y < USIZE_LIMIT
    case _ => true
  }

  /** Reading the words of an instruction gives the instruction back. */
  lemma ParseWordsOfInstruction(ins: Instruction)
    requires Representable(ins)
    ensures ParseWords(Words(ins)) == Success(ins)
  {
    match ins
    case SwapPosition(x, y) => ParseSwapPosition(x, y);
    case SwapLetters(a, b) => ParseSwapLetters(a, b);
    case RotateOnLetter(c) => ParseRotateOnLetter(c);
    case RotateRightSteps(n) => ParseRotateSteps(n, true);
    case RotateLeftSteps(n) => ParseRotateSteps(n, false);
    case ReversePositions(x, y) => ParseReversePositions(x, y);
    case MovePosition(x, y) => ParseMovePosition(x, y);
  }

  lemma ParseSwapPosition(x: nat, y: nat)
    requires x < USIZE_LIMIT && y < USIZE_LIMIT
    ensures ParseWords(Words(SwapPosition(x, y))) == Success(SwapPosition(x, y))
  {
    ParseNatToString(x, USIZE_LIMIT);
    ParseNatToString(y, USIZE_LIMIT);
  }

  lemma ParseSwapLetters(a: char, b: char)
    ensures ParseWords(Words(SwapLetters(a, b))) == Success(SwapLetters(a, b))
  {
  }

  lemma ParseRotateOnLetter(c: char)
    ensures ParseWords(Words(RotateOnLetter(c))) == Success(RotateOnLetter(c))
  {
  }

  lemma ParseRotateSteps(n: nat, right: bool)
    requires n < USIZE_LIMIT
    ensures var ins := if right then RotateRightSteps(n) else RotateLeftSteps(n);
            ParseWords(Words(ins)) == Success(ins)
  {
    ParseNatToString(n, USIZE_LIMIT);
  }

  lemma ParseReversePositions(x: nat, y: nat)
    requires x < USIZE_LIMIT && y < USIZE_LIMIT
    ensures ParseWords(Words(ReversePositions(x, y))) == Success(ReversePositions(x, y))
  {
    ParseNatToString(x, USIZE_LIMIT);
    ParseNatToString(y, USIZE_LIMIT);
  }

  lemma ParseMovePosition(x: nat, y: nat)
    requires x < USIZE_LIMIT && y < USIZE_LIMIT
    ensures ParseWords(Words(MovePosition(x, y))) == Success(MovePosition(x, y))
  {
    ParseNatToString(x, USIZE_LIMIT);
    ParseNatToString(y, USIZE_LIMIT);
  }
}
