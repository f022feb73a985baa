/** Day 8's screen: a grid of pixels, all off at first, driven by
    already-parsed commands. `rect AxB` lights the top-left B rows of A
    columns, `rotate column x=i by n` turns column i down, `rotate row
    y=i by n` turns row i right, and any other line panics. */
module Screen {
  import opened Wrappers
  import opened Matrix2D
  import opened Text

  datatype Command =
    | Rect(width: nat, height: nat)
    | RotateColumn(col: nat, amount: nat)
    | RotateRow(row: nat, amount: nat)
    | Unrecognised

  /** The commands a `rows` by `cols` screen can carry out without a panic. */
  predicate Fits(cmd: Command, rows: nat, cols: nat) {
    match cmd
    case Rect(width, height) => width <= cols && height <= rows
    case RotateColumn(col, amount) => col < cols && 0 <= AsI32(amount) < rows
    case RotateRow(row, amount) => row < rows && 0 <= AsI32(amount) < cols
    case Unrecognised => false
  }

  /** Whether pixel (r, c) is on after `commands`, traced back through the
      commands one at a time: `rect` lights its rectangle, and a turned
      row or column shows the pixel that sat `amount` cells before it. */
  function Lit(commands: seq<Command>, rows: nat, cols: nat, r: nat, c: nat): bool
    decreases |commands|
  {
    if commands == [] then false
    else
      var before := commands[..|commands| - 1];
      match commands[|commands| - 1]
      case Rect(width, height) =>
        (r < height && c < width) || Lit(before, rows, cols, r, c)
      case RotateColumn(col, amount) =>
        if c == col && rows > 0 then Lit(before, rows, cols, (r - AsI32(amount)) % rows, c)
        else Lit(before, rows, cols, r, c)
      case RotateRow(row, amount) =>
        if r == row && cols > 0 then Lit(before, rows, cols, r, (c - AsI32(amount)) % cols)
        else Lit(before, rows, cols, r, c)
      case Unrecognised => Lit(before, rows, cols, r, c)
  }

  /** Turning back by `s` and then forward by `s` lands where it started. */
  lemma TurnBack(r: nat, s: nat, n: nat)
    requires r < n && s < n
    ensures 0 <= (r - s) % n < n && Turn((r - s) % n, s, n) == r
  {
    if r < s {
      ModUnique(r - s, n, -1, r - s + n);
      ModOnce(r - s + n + s, n);
    } else {
      ModBelow(r - s, n);
      ModBelow(r - s + s, n);
    }
  }

  /** Inside the grid, `rect` writes exactly the cells of the rectangle. */
  lemma RectCell(cols: nat, width: nat, height: nat, row: nat, c: nat)
    requires width <= cols && c < cols
    ensures WrittenIn(cols, 0, height, 0, width, Pos(cols, row, c)) <==> row < height && c < width
  {
    if WrittenIn(cols, 0, height, 0, width, Pos(cols, row, c)) {
      var r': nat, c': nat :| r' < height && c' < width && Pos(cols, row, c) == Pos(cols, r', c');
      PosUnique(cols, row, c, r', c');
    }
  }

  lemma RectFits(rows: nat, cols: nat, width: nat, height: nat)
    requires width <= cols && height <= rows
    ensures WritesInBounds(cols, rows * cols, 0, height, 0, width)
  {
    forall r: nat, c: nat | r < height && c < width
      ensures Pos(cols, r, c) < rows * cols
    {
      PosInGrid(rows, cols, r, c);
    }
  }

  /** One command of `process_instructions`. */
  method Execute(screen: Matrix<bool>, cmd: Command) returns (r: Result<Matrix<bool>>)
    ensures cmd.Unrecognised? ==> r.Failure?
    ensures screen.Valid() ==> (r.Success? <== Fits(cmd, screen.rows, screen.cols))
    ensures r.Success? ==> r.value.rows == screen.rows && r.value.cols == screen.cols && |r.value.data| == |screen.data|
    ensures r.Success? && !cmd.Rect? ==> multiset(r.value.data) == multiset(screen.data)
    ensures r.Success? && screen.Valid() && cmd.Rect? && cmd.width <= screen.cols ==>
              forall row, c :: 0 <= row < screen.rows && 0 <= c < screen.cols ==>
                At(r.value, row, c) == if row < cmd.height && c < cmd.width then Success(true) else At(screen, row, c)
    ensures r.Success? && screen.Valid() && cmd.RotateColumn? && cmd.col < screen.cols ==>
              (forall row :: 0 <= row < screen.rows ==>
                 At(r.value, Turn(row, AsI32(cmd.amount), screen.rows), cmd.col) == At(screen, row, cmd.col))
              && forall row, c :: 0 <= row < screen.rows && 0 <= c < screen.cols && c != cmd.col ==>
                   At(r.value, row, c) == At(screen, row, c)
    ensures r.Success? && screen.Valid() && cmd.RotateRow? && cmd.row < screen.rows ==>
              (forall c :: 0 <= c < screen.cols ==>
                 At(r.value, cmd.row, Turn(c, AsI32(cmd.amount), screen.cols)) == At(screen, cmd.row, c))
              && forall row, c :: 0 <= row < screen.rows && row != cmd.row && 0 <= c < screen.cols ==>
                   At(r.value, row, c) == At(screen, row, c)
  {
    match cmd
    case Rect(width, height) =>
      if screen.Valid() && width <= screen.cols && height <= screen.rows {
        RectFits(screen.rows, screen.cols, width, height);
      }
      r := Set(screen, (0, 0), height, width, true);
      if r.Success? && screen.Valid() && width <= screen.cols {
        forall row, c | 0 <= row < screen.rows && 0 <= c < screen.cols
          ensures At(r.value, row, c) == if row < height && c < width then Success(true) else At(screen, row, c)
        {
          RectCell(screen.cols, width, height, row, c);
          AtInGrid(screen, row, c);
        }
      }
    case RotateColumn(col, amount) =>
      r := RotateColDown(screen, col, amount);
    case RotateRow(row, amount) =>
      r := RotateRowRight(screen, row, amount);
    case Unrecognised =>
      r := Failure("Unable to parse input");
  }

  /** One command's step of `Lit`: a screen that shows `done` shows
      `done + [cmd]` once `cmd` has been carried out. */
  lemma ExecuteTraces(screen: Matrix<bool>, done: seq<Command>, cmd: Command, next: Matrix<bool>)
    requires screen.Valid() && Fits(cmd, screen.rows, screen.cols)
    requires forall row, c :: 0 <= row < screen.rows && 0 <= c < screen.cols ==>
               At(screen, row, c) == Success(Lit(done, screen.rows, screen.cols, row, c))
    requires next.rows == screen.rows && next.cols == screen.cols
    requires cmd.Rect? ==> forall row, c :: 0 <= row < screen.rows && 0 <= c < screen.cols ==>
               At(next, row, c) == if row < cmd.height && c < cmd.width then Success(true) else At(screen, row, c)
    requires cmd.RotateColumn? ==>
               (forall row :: 0 <= row < screen.rows ==>
                  At(next, Turn(row, AsI32(cmd.amount), screen.rows), cmd.col) == At(screen, row, cmd.col))
               && forall row, c :: 0 <= row < screen.rows && 0 <= c < screen.cols && c != cmd.col ==>
                    At(next, row, c) == At(screen, row, c)
    requires cmd.RotateRow? ==>
               (forall c :: 0 <= c < screen.cols ==>
                  At(next, cmd.row, Turn(c, AsI32(cmd.amount), screen.cols)) == At(screen, cmd.row, c))
               && forall row, c :: 0 <= row < screen.rows && row != cmd.row && 0 <= c < screen.cols ==>
                    At(next, row, c) == At(screen, row, c)
    ensures forall row, c :: 0 <= row < screen.rows && 0 <= c < screen.cols ==>
              At(next, row, c) == Success(Lit(done + [cmd], screen.rows, screen.cols, row, c))
  {
    var rows, cols := screen.rows, screen.cols;
    assert (done + [cmd])[..|done + [cmd]| - 1] == done;
    forall row, c | 0 <= row < rows && 0 <= c < cols
      ensures At(next, row, c) == Success(Lit(done + [cmd], rows, cols, row, c))
    {
      match cmd
      case Rect(width, height) =>
      case RotateColumn(col, amount) =>
        if c == col {
          var s: nat := AsI32(amount);
          TurnBack(row, s, rows);
          var from := (row - s) % rows;
          assert At(next, Turn(from, s, rows), col) == At(screen, from, col);
        }
      case RotateRow(r, amount) =>
        if row == r {
          var s: nat := AsI32(amount);
          TurnBack(c, s, cols);
          var from := (c - s) % cols;
          assert At(next, r, Turn(from, s, cols)) == At(screen, r, from);
        }
    }
  }

  /** `process_instructions`: a blank screen, then each command in turn;
      the first panic ends the run. */
  method ProcessInstructions(commands: seq<Command>, rows: nat, cols: nat) returns (r: Result<Matrix<bool>>)
    ensures (forall k :: 0 <= k < |commands| ==> Fits(commands[k], rows, cols)) ==>
              r.Success? && forall row, c :: 0 <= row < rows && 0 <= c < cols ==>
                At(r.value, row, c) == Success(Lit(commands, rows, cols, row, c))
    ensures (exists k :: 0 <= k < |commands| && commands[k].Unrecognised?) ==> r.Failure?
    ensures r.Success? ==> r.value.rows == rows && r.value.cols == cols && r.value.Valid()
    ensures commands == [] ==> r == Success(NewWithDefault(rows, cols, false))
  {
    var screen := NewWithDefault(rows, cols, false);
    forall row, c | 0 <= row < rows && 0 <= c < cols
      ensures At(screen, row, c) == Success(Lit([], rows, cols, row, c))
    {
      AtInGrid(screen, row, c);
    }
    var i := 0;
    while i < |commands|
      invariant i <= |commands|
      invariant screen.rows == rows && screen.cols == cols && screen.Valid()
      invariant forall k :: 0 <= k < i ==> !commands[k].Unrecognised?
      invariant commands == [] ==> screen == NewWithDefault(rows, cols, false)
      invariant (forall k :: 0 <= k < |commands| ==> Fits(commands[k], rows, cols)) ==>
                  forall row, c :: 0 <= row < rows && 0 <= c < cols ==>
                    At(screen, row, c) == Success(Lit(commands[..i], rows, cols, row, c))
    {
      var next := Execute(screen, commands[i]);
      if next.Failure? {
        return Failure(next.error);
      }
      if forall k :: 0 <= k < |commands| ==> Fits(commands[k], rows, cols) {
        ExecuteTraces(screen, commands[..i], commands[i], next.value);
      }
      assert commands[..i + 1] == commands[..i] + [commands[i]];
      screen := next.value;
      i := i + 1;
    }
    assert commands[..i] == commands;
    return Success(screen);
  }

  /** `count_lit`: the number of pixels that are on. */
  method CountLit(screen: Matrix<bool>) returns (lit: nat)
    ensures lit == multiset(screen.data)[true]
    ensures lit <= |screen.data|
  {
    lit := 0;
    var i := 0;
    while i < |screen.data|
      invariant i <= |screen.data|
      invariant lit == multiset(screen.data[..i])[true] && lit <= i
    {
      assert screen.data[..i + 1] == screen.data[..i] + [screen.data[i]];
      if screen.data[i] {
        lit := lit + 1;
      }
      i := i + 1;
    }
    assert screen.data[..i] == screen.data;
  }
}
