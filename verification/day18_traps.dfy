/** Day 18: rows of safe ('.') and trapped ('^') floor tiles. Each new row
    is computed from the one before it, a tile beyond either end counting
    as safe, and the solver counts the safe tiles over a number of rows.
    Tile positions are computed in `i32`. */
module TrapRows {
  import opened Wrappers
  import opened Text

  /** `get_checked`: the tile at `index`, or '.' when `index` is negative
      or not below the row length taken `as i32`. */
  function GetChecked(row: string, index: int): (c: char)
    requires IsI32(index)
    ensures |row| <= I32_MAX && 0 <= index < |row| ==> c == row[index]
    ensures index < 0 || index >= |row| ==> c == '.'
  {
    if index < 0 || index >= AsI32(|row|) then '.'
    else
      assert AsI32(|row|) <= |row| by { WrappedBelow(|row|); }
      row[index]
  }

  /** Reading a length `as i32` never makes it larger. */
  lemma WrappedBelow(n: nat)
    ensures AsI32(n) <= n
  {
    assert n % 0x1_0000_0000 <= n;
  }

  /** The four trap patterns of the puzzle, over (left, centre, right). */
  predicate IsTrap(left: bool, center: bool, right: bool) {
    (left && center && !right)
    || (center && right && !left)
    || (left && !center && !right)
    || (right && !left && !center)
  }

  /** The centre tile never matters: a tile is a trap exactly when its
      left and right neighbours differ. */
  lemma TrapRule(left: bool, center: bool, right: bool)
    ensures IsTrap(left, center, right) <==> left != right
  {
  }

  predicate Trapped(row: string, index: int)
    requires IsI32(index)
  {
    GetChecked(row, index) == '^'
  }

  /** An independent view of the row above: tile `j` exists and is a trap. */
  predicate Above(row: string, j: int) {
    0 <= j < |row| && row[j] == '^'
  }

  /** The inner loop of `count_safe`: one tile below each tile of `row`.
      The index `i` and `i + 1` must fit in `i32`. */
  function NextRow(row: string): (next: string)
    requires |row| <= I32_MAX
    ensures |next| == |row|
    ensures forall i :: 0 <= i < |next| ==> next[i] == '^' || next[i] == '.'
    ensures forall i :: 0 <= i < |next| ==> (next[i] == '^' <==> Above(row, i - 1) != Above(row, i + 1))
  {
    var next := seq(|row|, i requires 0 <= i < |row| =>
      if IsTrap(Trapped(row, i - 1), Trapped(row, i), Trapped(row, i + 1)) then '^' else '.');
    assert forall i :: 0 <= i < |next| ==> (next[i] == '^' <==> Above(row, i - 1) != Above(row, i + 1)) by {
      forall i | 0 <= i < |next|
        ensures next[i] == '^' <==> Above(row, i - 1) != Above(row, i + 1)
      {
        TrapRule(Trapped(row, i - 1), Trapped(row, i), Trapped(row, i + 1));
      }
    }
    next
  }

  /** `row.iter().filter(|&c| c == &'.').count()`. */
  function SafeCount(row: string): (n: nat)
    ensures n <= |row|
  {
    if row == [] then 0 else (if row[0] == '.' then 1 else 0) + SafeCount(row[1..])
  }

  /** Row `k` below `first`. */
  function Generation(first: string, k: nat): (row: string)
    requires |first| <= I32_MAX
    ensures |row| == |first|
  {
    if k == 0 then first else NextRow(Generation(first, k - 1))
  }

  /** The safe tiles in the first `n` rows. */
  function Total(first: string, n: nat): (total: nat)
    requires |first| <= I32_MAX
  {
    if n == 0 then 0 else Total(first, n - 1) + SafeCount(Generation(first, n - 1))
  }

  /** No more safe tiles than tiles. */
  lemma {:induction false} TotalBound(first: string, n: nat)
    requires |first| <= I32_MAX
    ensures Total(first, n) <= n * |first|
  {
    if n > 0 {
      TotalBound(first, n - 1);
      assert (n - 1) * |first| + |first| == n * |first|;
    }
  }

  /** One more row: the row below row `k - 1` is row `k`, and its safe
      tiles extend the total. */
  lemma TotalStep(first: string, k: nat, row: string, next: string)
    requires |first| <= I32_MAX && k >= 1
    requires row == Generation(first, k - 1) && next == NextRow(row)
    ensures next == Generation(first, k)
    ensures Total(first, k + 1) == Total(first, k) + SafeCount(next)
  {
  }

  /** Builds the row below `row` tile by tile, as the inner loop pushes them. */
  method GenerateRow(row: string) returns (next: string)
    requires |row| <= I32_MAX
    ensures next == NextRow(row)
  {
    next := [];
    var idx := 0;
    while idx < |row|
      invariant 0 <= idx <= |row|
      invariant next == NextRow(row)[..idx]
    {
      var left := GetChecked(row, idx - 1) == '^';
      var center := GetChecked(row, idx) == '^';
      var right := GetChecked(row, idx + 1) == '^';
      var isTrap := IsTrap(left, center, right);
      next := next + [if isTrap then '^' else '.'];
      idx := idx + 1;
    }
    assert NextRow(row)[..|row|] == NextRow(row);
  }

  /** `count_safe`: the safe tiles of `first` and of the `num_rows - 1`
      rows below it; with `num_rows <= 1` only the first row counts. A
      row of 2^31 tiles or more overflows `i32` while the second row is
      built. */
  method CountSafe(first: string, numRows: int) returns (r: Result<nat>)
    requires IsI32(numRows)
    ensures r.Failure? <==> numRows > 1 && |first| > I32_MAX
    ensures numRows <= 1 ==> r == Success(SafeCount(first))
    ensures numRows > 1 && |first| <= I32_MAX ==> r == Success(Total(first, numRows))
  {
    if numRows > 1 && |first| > I32_MAX {
      return Failure("attempt to add with overflow");
    }
    if numRows <= 1 {
      return Success(SafeCount(first));
    }
    var total := SumRows(first, numRows);
    return Success(total);
  }

  /** The loop of `count_safe` over rows `1..num_rows`, each row built from
      the one before it and its safe tiles added to the count. */
  method SumRows(first: string, numRows: nat) returns (numSafe: nat)
    requires |first| <= I32_MAX && numRows >= 1
    ensures numSafe == Total(first, numRows)
  {
    var row := first;
    numSafe := SafeCount(row);
    var k := 1;
    while k < numRows
      invariant 1 <= k <= numRows
      invariant row == Generation(first, k - 1)
      invariant numSafe == Total(first, k)
    {
      var next := GenerateRow(row);
      TotalStep(first, k, row, next);
      row, numSafe, k := next, numSafe + SafeCount(next), k + 1;
    }
  }

  /** The first worked example: "..^^." grows into ".^^^^" and "^^..^",
      which hold 6 safe tiles between them. */
  lemma SmallExample()
    ensures Total("..^^.", 3) == 6
  {
    assert NextRow("..^^.") == ".^^^^";
    assert NextRow(".^^^^") == "^^..^";
  }
}
