/** Day 2: walking a finger over the 3x3 bathroom keypad
      1 2 3
      4 5 6
      7 8 9
    A position is an `i32` pair measured from the centre key, with +y up;
    each move is clamped so that the finger never leaves the pad. */
module Keypad {
  import opened Wrappers
  import opened Text

  datatype State = State(x: int, y: int)

  /** Both coordinates fit in `i32`. */
  predicate Valid(s: State) {
    IsI32(s.x) && IsI32(s.y)
  }

  /** The finger rests on one of the nine keys. */
  predicate OnPad(s: State) {
    -1 <= s.x <= 1 && -1 <= s.y <= 1
  }

  function Max(a: int, b: int): int { if a >= b then a else b }

  function Min(a: int, b: int): int { if a <= b then a else b }

  /** `clamp`: `min(max(val, lower), upper)`. With `lower <= upper` this is
      the point of `[lower, upper]` nearest to `val`; with the bounds the
      wrong way round it is always `upper`. */
  function Clamp(val: int, lower: int, upper: int): (r: int)
    ensures r <= upper
    ensures lower <= upper ==> lower <= r
    ensures r == val || r == lower || r == upper
    ensures lower <= upper && val < lower ==> r == lower
    ensures val > upper ==> r == upper
    ensures lower <= val <= upper ==> r == val
  {
    Min(Max(val, lower), upper)
  }

  /** Clamping twice to the same bounds changes nothing more. */
  lemma ClampIdempotent(val: int, lower: int, upper: int)
    requires lower <= upper
    ensures Clamp(Clamp(val, lower, upper), lower, upper) == Clamp(val, lower, upper)
  {
  }

  /** The four letters `advance_state` understands. */
  predicate IsMove(c: char) {
    c == 'U' || c == 'D' || c == 'L' || c == 'R'
  }

  /** `advance_state`: one step up, down, left or right (the coordinate
      addition panics on `i32` overflow in a debug build), then both
      coordinates clamped to `[-1, 1]`. Any other letter panics with
      "unknown input". */
  function Advance(prev: State, input: char): (r: Result<State>)
    requires Valid(prev)
    ensures !IsMove(input) ==> r == Failure("unknown input")
    ensures IsMove(input) && OnPad(prev) ==> r.Success?
    ensures r.Success? ==> OnPad(r.value) && Valid(r.value)
  {
    var next :-
      match input
      case 'U' => var y :- CheckedI32(prev.y + 1); Success(State(prev.x, y))
      case 'D' => var y :- CheckedI32(prev.y - 1); Success(State(prev.x, y))
      case 'L' => var x :- CheckedI32(prev.x - 1); Success(State(x, prev.y))
      case 'R' => var x :- CheckedI32(prev.x + 1); Success(State(x, prev.y))
      case _ => Failure("unknown input");
    Success(State(Clamp(next.x, -1, 1), Clamp(next.y, -1, 1)))
  }

  /** `get_key`: the nine positions numbered 1 to 9 row by row from the
      top-left corner; anywhere else panics with "Invalid state". */
  function Key(s: State): (r: Result<int>)
    ensures r.Success? <==> OnPad(s)
    ensures r.Failure? ==> r.error == "Invalid state"
    ensures r.Success? ==> 1 <= r.value <= 9
    ensures r.Success? ==> r.value == 3 * (1 - s.y) + (s.x + 1) + 1
  {
    if s.x == -1 && s.y == 1 then Success(1)
    else if s.x == 0 && s.y == 1 then Success(2)
    else if s.x == 1 && s.y == 1 then Success(3)
    else if s.x == -1 && s.y == 0 then Success(4)
    else if s.x == 0 && s.y == 0 then Success(5)
    else if s.x == 1 && s.y == 0 then Success(6)
    else if s.x == -1 && s.y == -1 then Success(7)
    else if s.x == 0 && s.y == -1 then Success(8)
    else if s.x == 1 && s.y == -1 then Success(9)
    else Failure("Invalid state")
  }

  /** The position of key `k`: row `(k - 1) / 3` from the top, column
      `(k - 1) % 3` from the left. */
  function Position(k: int): State
    requires 1 <= k <= 9
  {
    State((k - 1) % 3 - 1, 1 - (k - 1) / 3)
  }

  /** `Key` and `Position` are inverse: every key sits at exactly one
      position on the pad. */
  lemma KeyPosition(s: State, k: int)
    ensures 1 <= k <= 9 ==> OnPad(Position(k)) && Key(Position(k)) == Success(k)
    ensures OnPad(s) ==> Position(Key(s).value) == s
  {
  }

  /** An independent description of the pad as a digit automaton: the key
      reached from key `k` by one move, staying put at an edge. */
  function NextKey(k: int, c: char): int
    requires 1 <= k <= 9 && IsMove(c)
  {
    match c
    case 'U' => if k <= 3 then k else k - 3
    case 'D' => if k >= 7 then k else k + 3
    case 'L' => if k % 3 == 1 then k else k - 1
    case 'R' => if k % 3 == 0 then k else k + 1
  }

  /** A move from a key lands on the key the digit automaton predicts. */
  lemma AdvanceIsNextKey(s: State, c: char)
    requires OnPad(s) && IsMove(c)
    ensures Valid(s) && Advance(s, c).Success?
    ensures Key(Advance(s, c).value) == Success(NextKey(Key(s).value, c))
  {
  }

  /** The inner loop of `process_sequence`: every letter of one line
      applied in order. */
  function Walk(s: State, line: string): (r: Result<State>)
    requires Valid(s)
    ensures r.Success? ==> Valid(r.value)
    ensures r.Success? && line != [] ==> OnPad(r.value)
    decreases |line|
  {
    if line == [] then Success(s)
    else
      var next :- Advance(s, line[0]);
      Walk(next, line[1..])
  }

  /** Every letter of `line` is one of U, D, L, R. */
  predicate AllMoves(line: string)
    decreases |line|
  {
    line == [] || (IsMove(line[0]) && AllMoves(line[1..]))
  }

  /** The digit automaton run over a whole line. */
  function KeyWalk(k: int, line: string): (e: int)
    requires 1 <= k <= 9 && AllMoves(line)
    ensures 1 <= e <= 9
    decreases |line|
  {
    if line == [] then k else KeyWalk(NextKey(k, line[0]), line[1..])
  }

  /** From a key, a line walks without panicking exactly when every letter
      is a move, and it ends on the key the automaton reaches. */
  lemma {:induction false} WalkIsKeyWalk(s: State, line: string)
    requires OnPad(s)
    ensures Valid(s)
    ensures Walk(s, line).Success? <==> AllMoves(line)
    ensures AllMoves(line) ==> OnPad(Walk(s, line).value) && Key(Walk(s, line).value) == Success(KeyWalk(Key(s).value, line))
    decreases |line|
  {
    if line != [] {
      var c := line[0];
      if IsMove(c) {
        AdvanceIsNextKey(s, c);
        var next := Advance(s, c).value;
        WalkIsKeyWalk(next, line[1..]);
      }
    }
  }

  /** `process_sequence` over its lines, carrying the finger from one line
      to the next and writing the key where each line ends. */
  function Digits(lines: seq<string>, s: State): (r: Result<string>)
    requires Valid(s)
    ensures r.Success? ==> |r.value| == |lines|
    ensures r.Success? ==> forall i :: 0 <= i < |r.value| ==> '1' <= r.value[i] <= '9'
    decreases |lines|
  {
    if lines == [] then Success([])
    else
      var last :- Walk(s, lines[0]);
      var key :- Key(last);
      var rest :- Digits(lines[1..], last);
      Success([DigitChar(key)] + rest)
  }

  /** `process_sequence`: start on key 5, one digit per line of `input`. */
  function ProcessSequence(input: string): (r: Result<string>)
    ensures r.Success? ==> |r.value| == |Lines(input)|
  {
    Digits(Lines(input), State(0, 0))
  }

  /** Every line holds only moves. */
  predicate AllLinesMoves(lines: seq<string>)
    decreases |lines|
  {
    lines == [] || (AllMoves(lines[0]) && AllLinesMoves(lines[1..]))
  }

  /** The code the digit automaton types, starting on key `k`. */
  function KeyDigits(lines: seq<string>, k: int): (code: string)
    requires 1 <= k <= 9 && AllLinesMoves(lines)
    decreases |lines|
  {
    if lines == [] then []
    else
      var e := KeyWalk(k, lines[0]);
      [DigitChar(e)] + KeyDigits(lines[1..], e)
  }

  /** From a key, the lines type a code exactly when every letter is a
      move, and the code is the one the digit automaton types. */
  lemma {:induction false} DigitsIsKeyDigits(lines: seq<string>, s: State)
    requires OnPad(s)
    ensures Valid(s)
    ensures Digits(lines, s).Success? <==> AllLinesMoves(lines)
    ensures AllLinesMoves(lines) ==> Digits(lines, s).value == KeyDigits(lines, Key(s).value)
    decreases |lines|
  {
    if lines != [] {
      WalkIsKeyWalk(s, lines[0]);
      if AllMoves(lines[0]) {
        var last := Walk(s, lines[0]).value;
        DigitsIsKeyDigits(lines[1..], last);
      }
    }
  }

  /** The whole keypad code: it is typed exactly when every letter of every
      line is one of U, D, L, R, and it is the automaton's code from key 5. */
  lemma ProcessIsKeyDigits(input: string)
    ensures ProcessSequence(input).Success? <==> AllLinesMoves(Lines(input))
    ensures AllLinesMoves(Lines(input)) ==> ProcessSequence(input).value == KeyDigits(Lines(input), 5)
  {
    DigitsIsKeyDigits(Lines(input), State(0, 0));
  }

  /** One line of the automaton's code, given the key it ends on and
      the code of the lines after it. */
  lemma KeyDigitsCons(line: string, rest: seq<string>, k: int, e: int, code: string)
    requires 1 <= k <= 9 && AllMoves(line) && AllLinesMoves(rest)
    requires e == KeyWalk(k, line)
    requires |code| > 0 && code[0] == DigitChar(e) && code[1..] == KeyDigits(rest, e)
    ensures AllLinesMoves([line] + rest)
    ensures KeyDigits([line] + rest, k) == code
  {
    assert ([line] + rest)[1..] == rest;
    assert code == [code[0]] + code[1..];
  }

  /** Four pieces joined by '\n'. */
  lemma JoinFour(a: string, b: string, c: string, d: string)
    ensures Join([a, b, c, d], '\n') == a + "\n" + (b + "\n" + (c + "\n" + d))
  {
    assert [c, d][1..] == [d];
    assert Join([c, d], '\n') == c + "\n" + d;
    assert [b, c, d][1..] == [c, d];
    assert Join([b, c, d], '\n') == b + "\n" + (c + "\n" + d);
    assert [a, b, c, d][1..] == [b, c, d];
  }

  /** The four lines of the worked example. */
  lemma ExampleLines()
    ensures Lines("ULL\nRRDDD\nLURDL\nUUUUD") == ["ULL", "RRDDD", "LURDL", "UUUUD"]
  {
    var lines := ["ULL", "RRDDD", "LURDL", "UUUUD"];
    JoinFour("ULL", "RRDDD", "LURDL", "UUUUD");
    assert "ULL" + "\n" + ("RRDDD" + "\n" + ("LURDL" + "\n" + "UUUUD")) == "ULL\nRRDDD\nLURDL\nUUUUD";
    LinesOfJoin(lines);
  }

  /** Where each line of the worked example leaves the finger. */
  lemma ExampleWalks()
    ensures AllMoves("ULL") && KeyWalk(5, "ULL") == 1
    ensures AllMoves("RRDDD") && KeyWalk(1, "RRDDD") == 9
    ensures AllMoves("LURDL") && KeyWalk(9, "LURDL") == 8
    ensures AllMoves("UUUUD") && KeyWalk(8, "UUUUD") == 5
  {
    assert "ULL"[1..] == "LL" && "LL"[1..] == "L";
    assert KeyWalk(1, "L") == 1;
    assert KeyWalk(2, "LL") == 1;
  }

  /** The worked example: "ULL", "RRDDD", "LURDL", "UUUUD" type "1985". */
  lemma Example1985()
    ensures ProcessSequence("ULL\nRRDDD\nLURDL\nUUUUD") == Success("1985")
  {
    ExampleLines();
    ExampleWalks();
    KeyDigitsCons("UUUUD", [], 8, 5, "5");
    KeyDigitsCons("LURDL", ["UUUUD"], 9, 8, "85");
    KeyDigitsCons("RRDDD", ["LURDL", "UUUUD"], 1, 9, "985");
    KeyDigitsCons("ULL", ["RRDDD", "LURDL", "UUUUD"], 5, 1, "1985");
    ProcessIsKeyDigits("ULL\nRRDDD\nLURDL\nUUUUD");
  }
}

/** The row-major matrix type of day 2's `matrix` module. */
module KeypadMatrix {
  import opened Wrappers
  import opened Text

  /** `Matrix<T>`: a row-major vector with its width and height. A `Vec`
      never holds `usize::MAX + 1` elements. */
  datatype Matrix<T> = Matrix(data: seq<T>, width: nat, height: nat)

  predicate Sized<T>(m: Matrix<T>) {
    |m.data| < USIZE_LIMIT && m.width < USIZE_LIMIT && m.height < USIZE_LIMIT
  }

  /** `from_array`: the dimensions as given and a copy of `source`, which
      is not checked against them. */
  function FromArray<T>(width: nat, height: nat, source: seq<T>): (m: Matrix<T>)
    ensures m.width == width && m.height == height && m.data == source
  {
    Matrix(source, width, height)
  }

  /** `at`: element `column + row * width` of the data; the index panics
      when it overflows `usize` or lies past the data. */
  function At<T>(m: Matrix<T>, row: nat, column: nat): (r: Result<T>)
    requires Sized(m) && row < USIZE_LIMIT && column < USIZE_LIMIT
    ensures r.Success? <==> column + row * m.width < |m.data|
  {
    if row * m.width >= USIZE_LIMIT then Failure("attempt to multiply with overflow")
    else if column + row * m.width >= USIZE_LIMIT then Failure("attempt to add with overflow")
    else if column + row * m.width >= |m.data| then Failure("index out of bounds")
    else Success(m.data[column + row * m.width])
  }

  /** Multiplying by a natural number keeps the order. */
  lemma MulMonotone(a: nat, b: nat, w: nat)
    ensures a <= b ==> a * w <= b * w
  {
    if a <= b {
      var d := b - a;
      assert b * w == a * w + d * w;
    }
  }

  /** In a matrix whose data fills its rectangle exactly, every element
      is read by an in-range (row, column): element `i` lies at row
      `i / width`, column `i % width`. */
  lemma AtRowMajor<T>(m: Matrix<T>, i: nat) returns (row: nat, column: nat)
    requires Sized(m) && |m.data| == m.width * m.height && i < |m.data|
    ensures row < m.height && column < m.width && i == row * m.width + column
    ensures row == i / m.width && column == i % m.width
    ensures At(m, row, column) == Success(m.data[i])
  {
    RowOfIndex(i, m.width, m.height);
    row, column := i / m.width, i % m.width;
  }

  /** Element `i` of a `width` x `height` rectangle lies in row `i / width`. */
  lemma RowOfIndex(i: nat, w: nat, h: nat)
    requires i < w * h
    ensures w > 0 && 0 <= i / w < h && i == i % w + (i / w) * w
  {
    assert w > 0;
    var row := i / w;
    assert row >= 0;
    assert i == i % w + row * w;
    MulMonotone(h, row, w);
  }

  /** Conversely, an in-range (row, column) reads element `row * width + column`. */
  lemma AtInRange<T>(m: Matrix<T>, row: nat, column: nat)
    requires Sized(m) && |m.data| == m.width * m.height
    requires row < m.height && column < m.width
    ensures row * m.width + column < |m.data|
    ensures At(m, row, column) == Success(m.data[row * m.width + column])
  {
    var w := m.width;
    MulMonotone(row + 1, m.height, w);
    assert (row + 1) * w == row * w + w;
  }

  /** `is_valid`: the row and column are non-negative and below the height
      and width taken `as i32` (wrapping), and the cell differs from
      `empty_val`; the checks stop at the first that fails. */
  function IsValid<T(==)>(m: Matrix<T>, row: int, column: int, empty: T): (r: Result<bool>)
    requires Sized(m) && IsI32(row) && IsI32(column)
    ensures row < 0 || row >= AsI32(m.height) ==> r == Success(false)
    ensures column < 0 || column >= AsI32(m.width) ==> r == Success(false)
    ensures r == Success(true) <==> 0 <= row < AsI32(m.height) && 0 <= column < AsI32(m.width) && At(m, row, column).Success? && At(m, row, column).value != empty
  {
    if row >= 0 && row < AsI32(m.height) && column >= 0 && column < AsI32(m.width) then
      var cell :- At(m, row, column);
      Success(cell != empty)
    else Success(false)
  }

  /** On a matrix whose data fills its rectangle and whose sides fit in
      `i32`, `is_valid` never panics: it says whether the cell lies inside
      the rectangle and holds something other than `empty`. */
  lemma IsValidInRectangle<T>(m: Matrix<T>, row: int, column: int, empty: T)
    requires Sized(m) && IsI32(row) && IsI32(column)
    requires |m.data| == m.width * m.height && m.height <= I32_MAX && m.width <= I32_MAX
    ensures !(0 <= row < m.height && 0 <= column < m.width) ==> IsValid(m, row, column, empty) == Success(false)
    ensures 0 <= row < m.height && 0 <= column < m.width ==>
      row * m.width + column < |m.data| && IsValid(m, row, column, empty) == Success(m.data[row * m.width + column] != empty)
  {
    if 0 <= row < m.height && 0 <= column < m.width {
      AtInRange(m, row, column);
    }
  }

  /** A height of 2^31 or more wraps to a negative `i32`, so no row is
      valid even though the matrix has rows. */
  lemma WrappedHeightRejectsEveryRow<T>(m: Matrix<T>, row: int, column: int, empty: T)
    requires Sized(m) && IsI32(row) && IsI32(column)
    requires m.height == 0x8000_0000
    ensures IsValid(m, row, column, empty) == Success(false)
  {
    assert AsI32(m.height) == I32_MIN;
  }
}
