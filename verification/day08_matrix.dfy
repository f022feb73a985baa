/** Day 8's `Matrix2D`: a row-major grid of cells in one flat vector.
    Cell (r, c) lives at position `r * cols + c`; the column is not
    checked against `cols`, so an over-wide column spills into the next
    row, and only a position past the end of the data panics. */
module Matrix2D {
  import opened Wrappers
  import opened Text

  datatype Matrix<T> = Matrix(rows: nat, cols: nat, data: seq<T>)
  {
    /** What `new_with_default` establishes: one cell per row and column. */
    ghost predicate Valid() { |data| == rows * cols }
  }

  /** The flat position of cell (r, c), as both `Index` impls compute it. */
  function Pos(cols: nat, r: nat, c: nat): nat { r * cols + c }

  /** Two cells whose columns lie inside the row have the same position
      only when they are the same cell. */
  lemma PosUnique(cols: nat, r1: nat, c1: nat, r2: nat, c2: nat)
    requires c1 < cols && c2 < cols && Pos(cols, r1, c1) == Pos(cols, r2, c2)
    ensures r1 == r2 && c1 == c2
  {
    if r1 < r2 {
      MulMonotone(r1 + 1, r2, cols);
    } else if r2 < r1 {
      MulMonotone(r2 + 1, r1, cols);
    }
  }

  lemma MulMonotone(a: nat, b: nat, k: nat)
    requires a <= b
    ensures a * k <= b * k
  {
  }

  /** Every cell of a valid matrix has a position inside the data. */
  lemma PosInGrid(rows: nat, cols: nat, r: nat, c: nat)
    requires r < rows && c < cols
    ensures Pos(cols, r, c) < rows * cols
  {
    MulMonotone(r + 1, rows, cols);
    assert (r + 1) * cols == r * cols + cols;
  }

  /** `new_with_default`: `rows * cols` copies of `default`. */
  function NewWithDefault<T>(rows: nat, cols: nat, default: T): (m: Matrix<T>)
    ensures m.rows == rows && m.cols == cols && m.Valid()
    ensures forall p :: 0 <= p < |m.data| ==> m.data[p] == default
  {
    Matrix(rows, cols, seq(rows * cols, _ => default))
  }

  /** Indexing by (row, column); a position past the end panics. */
  function At<T>(m: Matrix<T>, r: nat, c: nat): (x: Result<T>)
    ensures x.Success? <==> Pos(m.cols, r, c) < |m.data|
  {
    var p := Pos(m.cols, r, c);
    if p < |m.data| then Success(m.data[p]) else Failure("index out of bounds")
  }

  /** In a valid matrix every cell of the grid can be read, and it is the
      cell the row-major layout puts there. */
  lemma AtInGrid<T>(m: Matrix<T>, r: nat, c: nat)
    requires m.Valid() && r < m.rows && c < m.cols
    ensures At(m, r, c).Success?
  {
    PosInGrid(m.rows, m.cols, r, c);
  }

  /** A column index is not checked: column `cols + c` of row `r` is
      column `c` of row `r + 1`. */
  lemma AtSpills<T>(m: Matrix<T>, r: nat, c: nat)
    ensures At(m, r, m.cols + c) == At(m, r + 1, c)
  {
    assert Pos(m.cols, r, m.cols + c) == Pos(m.cols, r + 1, c);
  }

  /** Exchanging two flat positions, as `swap` does through `tmp`. */
  function SwapAt<T>(s: seq<T>, a: nat, b: nat): (t: seq<T>)
    requires a < |s| && b < |s|
    ensures |t| == |s| && t[a] == s[b] && t[b] == s[a]
  {
    s[b := s[a]][a := s[b]]
  }

  lemma SwapAtKeepsMultiset<T>(s: seq<T>, a: nat, b: nat)
    requires a < |s| && b < |s|
    ensures multiset(SwapAt(s, a, b)) == multiset(s)
  {
    var t := s[b := s[a]];
    assert multiset(t) == multiset(s) - multiset{s[b]} + multiset{s[a]};
  }

  /** `swap`: exchanges cells `a` and `b`; either position past the end
      panics. */
  function Swap<T>(m: Matrix<T>, a: (nat, nat), b: (nat, nat)): (r: Result<Matrix<T>>)
    ensures r.Success? <==> Pos(m.cols, a.0, a.1) < |m.data| && Pos(m.cols, b.0, b.1) < |m.data|
    ensures r.Success? ==> r.value.rows == m.rows && r.value.cols == m.cols && |r.value.data| == |m.data|
    ensures r.Success? ==> r.value.data[Pos(m.cols, a.0, a.1)] == m.data[Pos(m.cols, b.0, b.1)]
    ensures r.Success? ==> r.value.data[Pos(m.cols, b.0, b.1)] == m.data[Pos(m.cols, a.0, a.1)]
    ensures r.Success? ==> forall p :: 0 <= p < |m.data| && p != Pos(m.cols, a.0, a.1) && p != Pos(m.cols, b.0, b.1) ==> r.value.data[p] == m.data[p]
    ensures r.Success? ==> multiset(r.value.data) == multiset(m.data)
  {
    var pa := Pos(m.cols, a.0, a.1);
    var pb := Pos(m.cols, b.0, b.1);
    if pa < |m.data| && pb < |m.data| then
      SwapAtKeepsMultiset(m.data, pa, pb);
      Success(m.(data := SwapAt(m.data, pa, pb)))
    else Failure("index out of bounds")
  }

  // ---------------------------------------------------------------------
  // set

  /** Position `p` is one that `set` writes: rows `r0 .. r1` and columns
      `c0 .. c1`, both with exclusive ends. */
  ghost predicate WrittenIn(cols: nat, r0: nat, r1: nat, c0: nat, c1: nat, p: nat) {
    exists r: nat, c: nat :: r0 <= r < r1 && c0 <= c < c1 && p == Pos(cols, r, c)
  }

  ghost predicate WritesInBounds(cols: nat, len: nat, r0: nat, r1: nat, c0: nat, c1: nat) {
    forall r: nat, c: nat :: r0 <= r < r1 && c0 <= c < c1 ==> Pos(cols, r, c) < len
  }

  lemma WrittenInNextRow(cols: nat, r0: nat, r: nat, c0: nat, c1: nat, p: nat)
    requires r0 <= r
    ensures WrittenIn(cols, r0, r + 1, c0, c1, p)
            <==> WrittenIn(cols, r0, r, c0, c1, p) || exists c: nat :: c0 <= c < c1 && p == Pos(cols, r, c)
  {
    if WrittenIn(cols, r0, r + 1, c0, c1, p) {
      var r': nat, c': nat :| r0 <= r' < r + 1 && c0 <= c' < c1 && p == Pos(cols, r', c');
      if r' < r {
        assert WrittenIn(cols, r0, r, c0, c1, p);
      }
    }
  }

  /** `set`: every cell in rows `pos.0 .. numRows` and columns
      `pos.1 .. numCols` (exclusive ends, not extents) becomes `value`;
      writing past the end of the data panics. */
  method Set<T>(m: Matrix<T>, pos: (nat, nat), numRows: nat, numCols: nat, value: T) returns (res: Result<Matrix<T>>)
    ensures res.Success? <==> WritesInBounds(m.cols, |m.data|, pos.0, numRows, pos.1, numCols)
    ensures res.Success? ==> res.value.rows == m.rows && res.value.cols == m.cols && |res.value.data| == |m.data|
    ensures res.Success? ==> forall p :: 0 <= p < |m.data| ==>
              res.value.data[p] == if WrittenIn(m.cols, pos.0, numRows, pos.1, numCols, p) then value else m.data[p]
  {
    var data := m.data;
    var r := pos.0;
    while r < numRows
      invariant pos.0 <= r && (r <= numRows || r == pos.0)
      invariant |data| == |m.data|
      invariant WritesInBounds(m.cols, |m.data|, pos.0, r, pos.1, numCols)
      invariant forall p :: 0 <= p < |data| ==>
                  data[p] == if WrittenIn(m.cols, pos.0, r, pos.1, numCols, p) then value else m.data[p]
    {
      var c := pos.1;
      while c < numCols
        invariant pos.1 <= c && (c <= numCols || c == pos.1)
        invariant |data| == |m.data|
        invariant WritesInBounds(m.cols, |m.data|, pos.0, r, pos.1, numCols)
        invariant forall k: nat :: pos.1 <= k < c ==> Pos(m.cols, r, k) < |data|
        invariant forall p :: 0 <= p < |data| ==>
                    data[p] == if WrittenIn(m.cols, pos.0, r, pos.1, numCols, p)
                                  || exists k: nat :: pos.1 <= k < c && p == Pos(m.cols, r, k)
                               then value else m.data[p]
      {
        var p := Pos(m.cols, r, c);
        if p >= |data| {
          return Failure("index out of bounds");
        }
        data := data[p := value];
        c := c + 1;
      }
      forall q | 0 <= q < |data|
        ensures data[q] == if WrittenIn(m.cols, pos.0, r + 1, pos.1, numCols, q) then value else m.data[q]
      {
        WrittenInNextRow(m.cols, pos.0, r, pos.1, numCols, q);
      }
      r := r + 1;
    }
    return Success(m.(data := data));
  }

  // ---------------------------------------------------------------------
  // Rotations

  /** A line of cells (one row or one column), given by flat positions. */
  ghost predicate Distinct(line: seq<nat>) {
    |line| == 0 || (line[0] !in line[1..] && Distinct(line[1..]))
  }

  lemma {:induction false} DistinctIndices(line: seq<nat>, i: nat, j: nat)
    requires Distinct(line) && i < |line| && j < |line| && i != j
    ensures line[i] != line[j]
  {
    if i > 0 && j > 0 {
      DistinctIndices(line[1..], i - 1, j - 1);
    } else if i == 0 {
      assert line[j] == line[1..][j - 1];
    } else {
      assert line[i] == line[1..][i - 1];
    }
  }

  lemma {:induction false} IndicesDistinct(line: seq<nat>)
    requires forall i, j :: 0 <= i < j < |line| ==> line[i] != line[j]
    ensures Distinct(line)
  {
    if |line| > 0 {
      IndicesDistinct(line[1..]);
    }
  }

  predicate InBounds(line: seq<nat>, len: nat) {
    forall k :: 0 <= k < |line| ==> line[k] < len
  }

  /** The values a line of positions holds. */
  function View<T>(s: seq<T>, line: seq<nat>): (v: seq<T>)
    requires InBounds(line, |s|)
    ensures |v| == |line| && forall k :: 0 <= k < |line| ==> v[k] == s[line[k]]
  {
    seq(|line|, k requires 0 <= k < |line| => s[line[k]])
  }

  /** The line rotated right by `d`: its last `d` values come first. */
  function RotateRight<T>(v: seq<T>, d: nat): seq<T>
    requires d <= |v|
  {
    v[|v| - d..] + v[..|v| - d]
  }

  /** Rotating right by `d` moves the value at `k` to `(k + d) mod n`. */
  lemma RotateRightMoves<T>(v: seq<T>, d: nat, k: nat)
    requires d < |v| && k < |v|
    ensures RotateRight(v, d)[(k + d) % |v|] == v[k]
  {
    if k + d < |v| {
      ModBelow(k + d, |v|);
    } else {
      ModOnce(k + d, |v|);
    }
  }

  /** What the cells of the line still have to become, while the loop
      runs: with `e`, `m` and `x` the loop's `end`, `middle` and `next`
      each plus one, the segments `[m, e)`, `[x, m)`, `[0, x)` and the
      finished tail `[e, n)`, in that order. */
  function Pending<T>(v: seq<T>, e: nat, m: nat, x: nat): seq<T>
    requires x <= m <= e <= |v|
  {
    v[m..e] + v[x..m] + v[..x] + v[e..]
  }

  lemma PendingSwap<T>(v: seq<T>, e: nat, m: nat, x: nat)
    requires 0 < x <= m < e <= |v|
    ensures Pending(v[x - 1 := v[e - 1]][e - 1 := v[x - 1]], e - 1, m, x - 1) == Pending(v, e, m, x)
  {
    var w := v[x - 1 := v[e - 1]][e - 1 := v[x - 1]];
    assert w[m..e - 1] + [w[e - 1]] == v[m..e - 1] + [v[x - 1]];
    assert w[m..e - 1] == v[m..e - 1];
    assert w[x - 1..m] == [v[e - 1]] + v[x..m];
    assert w[..x - 1] == v[..x - 1];
    assert w[e - 1..] == [v[x - 1]] + v[e..];
    assert v[m..e] == v[m..e - 1] + [v[e - 1]];
    assert v[..x] == v[..x - 1] + [v[x - 1]];
  }

  lemma PendingRestart<T>(v: seq<T>, e: nat, m: nat)
    requires m <= e <= |v|
    ensures Pending(v, e, m, 0) == Pending(v, e, m, m)
  {
    assert v[0..m] == v[..m];
  }

  lemma PendingDone<T>(v: seq<T>, e: nat)
    requires e <= |v|
    ensures Pending(v, e, e, e) == v
  {
    assert v[..e] + v[e..] == v;
  }

  /** Before the first swap, the whole line is pending rotation. */
  lemma PendingStart<T>(v: seq<T>, d: nat)
    requires d <= |v|
    ensures Pending(v, |v|, |v| - d, |v| - d) == RotateRight(v, d)
  {
    assert v[|v| - d..|v|] == v[|v| - d..];
    assert v[|v|..] == [] && v[|v| - d..|v| - d] == [];
  }

  lemma PendingShift<T>(v: seq<T>, e: nat, x: nat)
    requires x <= e <= |v|
    ensures Pending(v, e, e, x) == Pending(v, e, x, x)
  {
    assert v[e..e] == [] && v[x..x] == [];
  }

  /** One swap of the loop, at `e - 1` and `x - 1`, keeps the pending
      arrangement; when the two coincide the line is already finished. */
  lemma PendingStep<T>(v: seq<T>, e: nat, m: nat, x: nat, target: seq<T>)
    requires 0 < x <= m <= e <= |v| && (m < e || x == e)
    requires target == Pending(v, e, m, x)
    ensures m <= e - 1 ==> target == Pending(v[x - 1 := v[e - 1]][e - 1 := v[x - 1]], e - 1, m, x - 1)
    ensures e - 1 < m ==> target == v[x - 1 := v[e - 1]][e - 1 := v[x - 1]]
  {
    if m < e {
      PendingSwap(v, e, m, x);
    } else {
      PendingDone(v, e);
      assert v[x - 1 := v[e - 1]][e - 1 := v[x - 1]] == v;
    }
  }

  /** The view of a line after swapping two of its positions is the view
      with the two entries exchanged. */
  lemma ViewSwap<T>(s: seq<T>, line: seq<nat>, i: nat, j: nat)
    requires Distinct(line) && InBounds(line, |s|) && i < |line| && j < |line|
    ensures View(SwapAt(s, line[i], line[j]), line)
            == View(s, line)[j := View(s, line)[i]][i := View(s, line)[j]]
  {
    forall k | 0 <= k < |line| && k != i && k != j
      ensures line[k] != line[i] && line[k] != line[j]
    {
      DistinctIndices(line, k, i);
      DistinctIndices(line, k, j);
    }
  }

  /** The rotation loop shared by `rotate_row_right` and
      `rotate_col_down`, from one state on. The `end`/`middle`/`next` walk
      runs from the far end of the line down, with `-1` as the sentinel
      `first`; here each of the three is kept one higher (`e`, `m`, `x`),
      so the sentinel is 0. A swap at a negative index, or at a position
      past the end of the data, panics. */
  function RotateFrom<T>(cur: seq<T>, line: seq<nat>, e: int, m: int, x: int): (r: Result<seq<T>>)
    requires e <= |line| && x <= e && x <= m && (m <= e || x == e)
    decreases e
  {
    if e == x then Success(cur)
    else
      var x1 := if x == 0 then m else x;
      var m1 := if x == 0 || e != m then m else x;
      if x1 - 1 < 0 then Failure("index out of bounds")
      else
        var a := line[e - 1];
        var b := line[x1 - 1];
        if a >= |cur| || b >= |cur| then Failure("index out of bounds")
        else RotateFrom(SwapAt(cur, a, b), line, e - 1, m1, x1 - 1)
  }

  /** One step of the loop, for a state that does not stop or panic. */
  lemma RotateFromStep<T>(cur: seq<T>, line: seq<nat>, e: int, m: int, x: int, x1: int, m1: int)
    requires e <= |line| && x <= e && x <= m && (m <= e || x == e) && e != x
    requires x1 == (if x == 0 then m else x) && m1 == (if x == 0 || e != m then m else x)
    requires 1 <= x1 && line[e - 1] < |cur| && line[x1 - 1] < |cur|
    ensures RotateFrom(cur, line, e, m, x) == RotateFrom(SwapAt(cur, line[e - 1], line[x1 - 1]), line, e - 1, m1, x1 - 1)
  {
  }

  /** The loop only swaps cells of the line: it keeps the length, the
      multiset of cells and every cell outside the line. */
  lemma {:induction false} RotateFromKeeps<T>(cur: seq<T>, line: seq<nat>, e: int, m: int, x: int)
    requires e <= |line| && x <= e && x <= m && (m <= e || x == e)
    requires RotateFrom(cur, line, e, m, x).Success?
    ensures var out := RotateFrom(cur, line, e, m, x).value;
            |out| == |cur| && multiset(out) == multiset(cur)
            && forall p :: 0 <= p < |cur| && p !in line ==> out[p] == cur[p]
    decreases e, 1
  {
    if e != x {
      RotateFromKeepsVia(cur, line, e, m, x, if x == 0 then m else x, if x == 0 || e != m then m else x);
    }
  }

  /** `RotateFromKeeps` for a state that steps to `x1`, `m1`. */
  lemma {:induction false} RotateFromKeepsVia<T>(cur: seq<T>, line: seq<nat>, e: int, m: int, x: int, x1: int, m1: int)
    requires e <= |line| && x <= e && x <= m && (m <= e || x == e) && e != x
    requires x1 == (if x == 0 then m else x) && m1 == (if x == 0 || e != m then m else x)
    requires RotateFrom(cur, line, e, m, x).Success?
    ensures var out := RotateFrom(cur, line, e, m, x).value;
            |out| == |cur| && multiset(out) == multiset(cur)
            && forall p :: 0 <= p < |cur| && p !in line ==> out[p] == cur[p]
    decreases e, 0
  {
    assert 1 <= x1 && line[e - 1] < |cur| && line[x1 - 1] < |cur|;
    var a := line[e - 1];
    var b := line[x1 - 1];
    var next := SwapAt(cur, a, b);
    assert RotateFrom(cur, line, e, m, x) == RotateFrom(next, line, e - 1, m1, x1 - 1) by {
      RotateFromStep(cur, line, e, m, x, x1, m1);
    }
    SwapAtKeepsMultiset(cur, a, b);
    RotateFromKeeps(next, line, e - 1, m1, x1 - 1);
    var out := RotateFrom(next, line, e - 1, m1, x1 - 1).value;
    assert |out| == |next| == |cur|;
    assert multiset(out) == multiset(next) == multiset(cur);
    forall p | 0 <= p < |cur| && p !in line
      ensures out[p] == cur[p]
    {
      assert p != a && p != b;
      assert next[p] == cur[p];
    }
  }

  /** A loop state that cannot panic: the sentinel is never swapped. */
  ghost predicate Running(n: int, e: int, m: int, x: int) {
    0 <= x <= e <= n && 1 <= m <= n && x <= m && (m <= e || x == e)
  }

  /** A running state that has not stopped steps to a running state. */
  lemma RunningStep(n: int, e: int, m: int, x: int)
    requires Running(n, e, m, x) && e != x
    ensures var x1 := if x == 0 then m else x;
            var m1 := if x == 0 || e != m then m else x;
            1 <= x1 <= e && Running(n, e - 1, m1, x1 - 1)
  {
  }

  /** With every position of the line inside the data, the loop from a
      running state finishes without a panic. */
  lemma {:induction false} RotateFromSucceeds<T>(cur: seq<T>, line: seq<nat>, e: int, m: int, x: int)
    requires InBounds(line, |cur|) && Running(|line|, e, m, x)
    ensures RotateFrom(cur, line, e, m, x).Success? && |RotateFrom(cur, line, e, m, x).value| == |cur|
    decreases e
  {
    if e != x {
      var x1 := if x == 0 then m else x;
      var m1 := if x == 0 || e != m then m else x;
      RotateFromStep(cur, line, e, m, x, x1, m1);
      RotateFromSucceeds(SwapAt(cur, line[e - 1], line[x1 - 1]), line, e - 1, m1, x1 - 1);
    }
  }

  /** The same loop on the values of the line alone. */
  function RotateValues<T>(v: seq<T>, e: int, m: int, x: int): (w: seq<T>)
    requires Running(|v|, e, m, x)
    ensures |w| == |v|
    decreases e
  {
    if e == x then v
    else
      var x1 := if x == 0 then m else x;
      var m1 := if x == 0 || e != m then m else x;
      RotateValues(v[x1 - 1 := v[e - 1]][e - 1 := v[x1 - 1]], e - 1, m1, x1 - 1)
  }

  /** The loop turns the pending arrangement into the finished line. */
  lemma {:induction false} RotateValuesFinish<T>(v: seq<T>, e: int, m: int, x: int, target: seq<T>)
    requires Running(|v|, e, m, x)
    requires m <= e ==> target == Pending(v, e, m, x)
    requires e < m ==> target == v
    ensures RotateValues(v, e, m, x) == target
    decreases e, 1
  {
    if e == x {
      if m <= e {
        PendingDone(v, e);
      }
    } else {
      RunningStep(|v|, e, m, x);
      RotateValuesFinishVia(v, e, m, x, if x == 0 then m else x, if x == 0 || e != m then m else x, target);
    }
  }

  /** `RotateValuesFinish` for a state that steps to `x1`, `m1`. */
  lemma {:induction false} RotateValuesFinishVia<T>(v: seq<T>, e: int, m: int, x: int, x1: int, m1: int, target: seq<T>)
    requires Running(|v|, e, m, x) && e != x
    requires x1 == (if x == 0 then m else x) && m1 == (if x == 0 || e != m then m else x)
    requires 1 <= x1 <= e && Running(|v|, e - 1, m1, x1 - 1)
    requires m <= e ==> target == Pending(v, e, m, x)
    requires e < m ==> target == v
    ensures RotateValues(v, e, m, x) == target
    decreases e, 0
  {
    assert target == Pending(v, e, m1, x1) by {
      if x == 0 {
        PendingRestart(v, e, m);
      } else if e == m {
        PendingShift(v, e, x);
      }
    }
    var next := v[x1 - 1 := v[e - 1]][e - 1 := v[x1 - 1]];
    PendingStep(v, e, m1, x1, target);
    RotateValuesStep(v, e, m, x, x1, m1);
    RotateValuesFinish(next, e - 1, m1, x1 - 1, target);
  }

  /** On a line of distinct in-bounds positions, swapping cells of the
      data is swapping values of the line. */
  lemma {:induction false} RotateFromValues<T>(cur: seq<T>, line: seq<nat>, e: int, m: int, x: int)
    requires Distinct(line) && InBounds(line, |cur|) && Running(|line|, e, m, x)
    ensures RotateFrom(cur, line, e, m, x).Success? && |RotateFrom(cur, line, e, m, x).value| == |cur|
    ensures View(RotateFrom(cur, line, e, m, x).value, line) == RotateValues(View(cur, line), e, m, x)
    decreases e, 1
  {
    if e != x {
      RunningStep(|line|, e, m, x);
      RotateFromValuesVia(cur, line, e, m, x, if x == 0 then m else x, if x == 0 || e != m then m else x);
    } else {
      assert RotateFrom(cur, line, e, m, x) == Success(cur);
    }
  }

  /** `RotateFromValues` for a state that steps to `x1`, `m1`. */
  lemma {:induction false} RotateFromValuesVia<T>(cur: seq<T>, line: seq<nat>, e: int, m: int, x: int, x1: int, m1: int)
    requires Distinct(line) && InBounds(line, |cur|) && Running(|line|, e, m, x) && e != x
    requires x1 == (if x == 0 then m else x) && m1 == (if x == 0 || e != m then m else x)
    requires 1 <= x1 <= e && Running(|line|, e - 1, m1, x1 - 1)
    ensures RotateFrom(cur, line, e, m, x).Success? && |RotateFrom(cur, line, e, m, x).value| == |cur|
    ensures View(RotateFrom(cur, line, e, m, x).value, line) == RotateValues(View(cur, line), e, m, x)
    decreases e, 0
  {
    var next := SwapAt(cur, line[e - 1], line[x1 - 1]);
    assert InBounds(line, |next|);
    RotateFromValues(next, line, e - 1, m1, x1 - 1);
    RotateFromValuesStep(cur, line, e, m, x, x1, m1, next);
  }

  /** One swap of the rotation, given the values the rest of it leaves. */
  lemma RotateFromValuesStep<T>(cur: seq<T>, line: seq<nat>, e: int, m: int, x: int, x1: int, m1: int, next: seq<T>)
    requires Distinct(line) && InBounds(line, |cur|) && Running(|line|, e, m, x) && e != x
    requires x1 == (if x == 0 then m else x) && m1 == (if x == 0 || e != m then m else x)
    requires next == SwapAt(cur, line[e - 1], line[x1 - 1])
    requires RotateFrom(next, line, e - 1, m1, x1 - 1).Success?
    requires |RotateFrom(next, line, e - 1, m1, x1 - 1).value| == |cur|
    requires View(RotateFrom(next, line, e - 1, m1, x1 - 1).value, line) == RotateValues(View(next, line), e - 1, m1, x1 - 1)
    ensures RotateFrom(cur, line, e, m, x).Success? && |RotateFrom(cur, line, e, m, x).value| == |cur|
    ensures View(RotateFrom(cur, line, e, m, x).value, line) == RotateValues(View(cur, line), e, m, x)
  {
    var v := View(cur, line);
    var w := v[x1 - 1 := v[e - 1]][e - 1 := v[x1 - 1]];
    assert RotateFrom(cur, line, e, m, x) == RotateFrom(next, line, e - 1, m1, x1 - 1) by {
      RotateFromStep(cur, line, e, m, x, x1, m1);
    }
    assert View(next, line) == w by {
      ViewSwap(cur, line, e - 1, x1 - 1);
    }
    assert RotateValues(v, e, m, x) == RotateValues(w, e - 1, m1, x1 - 1) by {
      RotateValuesStep(v, e, m, x, x1, m1);
    }
  }

  lemma RotateValuesStep<T>(v: seq<T>, e: int, m: int, x: int, x1: int, m1: int)
    requires Running(|v|, e, m, x) && e != x
    requires x1 == (if x == 0 then m else x) && m1 == (if x == 0 || e != m then m else x)
    requires 1 <= x1 <= e
    ensures RotateValues(v, e, m, x) == RotateValues(v[x1 - 1 := v[e - 1]][e - 1 := v[x1 - 1]], e - 1, m1, x1 - 1)
  {
  }

  /** The loop of the three-pointer rotation, from end `e` and split
      `m`: it computes exactly `RotateFrom`. */
  method RunRotation<T>(data: seq<T>, line: seq<nat>, n: int, m0: int) returns (r: Result<seq<T>>)
    requires n <= |line| && m0 <= n
    ensures r == RotateFrom(data, line, n, m0, m0)
    ensures r.Success? ==> |r.value| == |data| && multiset(r.value) == multiset(data)
    ensures r.Success? ==> forall p :: 0 <= p < |data| && p !in line ==> r.value[p] == data[p]
  {
    var e, m, x := n, m0, m0;
    var cur := data;
    ghost var result := RotateFrom(data, line, e, m, x);
    while e != x
      invariant e <= n && x <= e && x <= m && (m <= e || x == e)
      invariant RotateFrom(cur, line, e, m, x) == result
      decreases e
    {
      var x1 := if x == 0 then m else x;
      var m1 := if x == 0 || e != m then m else x;
      if x1 - 1 < 0 {
        return Failure("index out of bounds");
      }
      var a := line[e - 1];
      var b := line[x1 - 1];
      if a >= |cur| || b >= |cur| {
        return Failure("index out of bounds");
      }
      cur := SwapAt(cur, a, b);
      e, m, x := e - 1, m1, x1 - 1;
    }
    r := Success(cur);
    RotateFromKeeps(data, line, n, m0, m0);
  }

  /** The whole rotation of one line right by `distance`. The source
      starts from `end = (len - 1) as i32` and `middle = end - distance as
      i32`; `len - 1` on an empty line underflows. The cast keeps the low
      32 bits of the distance, so a distance of 2^32 + 1 turns the line by
      one. When the cast comes out negative, `middle` lies past `end`:
      `next` stays above `end` until `end` reaches -1 and is used as an
      index, which panics (as does the `i32` subtraction when it
      overflows first). */
  method RotateLine<T>(data: seq<T>, line: seq<nat>, distance: nat) returns (r: Result<seq<T>>)
    ensures |line| == 0 || AsI32(distance) < 0 || AsI32(distance) >= |line| ==> r.Failure?
    ensures 0 < AsI32(distance) < |line| && line[|line| - 1] >= |data| ==> r.Failure?
    ensures AsI32(distance) == 0 < |line| ==> r == Success(data)
    ensures Distinct(line) && InBounds(line, |data|) ==> (r.Success? <==> 0 <= AsI32(distance) < |line|)
    ensures r.Success? ==> |r.value| == |data| && multiset(r.value) == multiset(data)
    ensures r.Success? ==> forall p :: 0 <= p < |data| && p !in line ==> r.value[p] == data[p]
    ensures r.Success? && Distinct(line) && InBounds(line, |data|) ==>
              View(r.value, line) == RotateRight(View(data, line), AsI32(distance))
  {
    if |line| == 0 {
      return Failure("attempt to subtract with overflow");
    }
    if AsI32(distance) < 0 {
      return Failure("index out of bounds");
    }
    var n := |line|;
    var shift: nat := AsI32(distance);
    r := RunRotation(data, line, n, n - shift);
    if shift == 0 {
      RotateLineZero(data, line);
    } else if shift >= n || line[n - 1] >= |data| {
      RotateLineFails(data, line, shift);
    }
    if shift < n && Distinct(line) && InBounds(line, |data|) {
      RotateLineView(data, line, shift);
    }
  }

  /** The first step of the loop panics when the distance is the whole
      line or more, or when the last position is outside the data. */
  lemma RotateLineFails<T>(data: seq<T>, line: seq<nat>, distance: nat)
    requires |line| > 0
    requires distance >= |line| || line[|line| - 1] >= |data|
    requires distance > 0
    ensures RotateFrom(data, line, |line|, |line| - distance, |line| - distance).Failure?
  {
  }

  /** A distance of zero leaves the data as it was. */
  lemma RotateLineZero<T>(data: seq<T>, line: seq<nat>)
    ensures RotateFrom(data, line, |line|, |line|, |line|) == Success(data)
  {
  }

  /** On distinct in-bounds positions the loop succeeds and rotates the
      view of the line. */
  lemma RotateLineView<T>(data: seq<T>, line: seq<nat>, distance: nat)
    requires Distinct(line) && InBounds(line, |data|) && distance < |line|
    ensures var r := RotateFrom(data, line, |line|, |line| - distance, |line| - distance);
      r.Success? && |r.value| == |data| && View(r.value, line) == RotateRight(View(data, line), distance)
  {
    var n := |line|;
    PendingStart(View(data, line), distance);
    RotateFromValues(data, line, n, n - distance, n - distance);
    RotateValuesFinish(View(data, line), n, n - distance, n - distance, RotateRight(View(data, line), distance));
  }

  // ---------------------------------------------------------------------
  // The two rotations of the grid

  /** The positions of row `row`, left to right. */
  function RowLine(cols: nat, row: nat): (line: seq<nat>)
    ensures |line| == cols && forall c :: 0 <= c < cols ==> line[c] == Pos(cols, row, c)
  {
    seq(cols, c requires 0 <= c => Pos(cols, row, c))
  }

  /** The positions of column `col`, top to bottom. */
  function ColLine(rows: nat, cols: nat, col: nat): (line: seq<nat>)
    ensures |line| == rows && forall r :: 0 <= r < rows ==> line[r] == Pos(cols, r, col)
  {
    seq(rows, r requires 0 <= r => Pos(cols, r, col))
  }

  lemma RowLineFits<T>(m: Matrix<T>, row: nat)
    requires m.Valid() && row < m.rows
    ensures Distinct(RowLine(m.cols, row)) && InBounds(RowLine(m.cols, row), |m.data|)
  {
    var line := RowLine(m.cols, row);
    IndicesDistinct(line);
    forall c | 0 <= c < m.cols
      ensures line[c] < |m.data|
    {
      PosInGrid(m.rows, m.cols, row, c);
    }
  }

  lemma ColLineFits<T>(m: Matrix<T>, col: nat)
    requires m.Valid() && col < m.cols
    ensures Distinct(ColLine(m.rows, m.cols, col)) && InBounds(ColLine(m.rows, m.cols, col), |m.data|)
  {
    var line := ColLine(m.rows, m.cols, col);
    forall i, j | 0 <= i < j < m.rows
      ensures line[i] != line[j]
    {
      if line[i] == line[j] {
        PosUnique(m.cols, i, col, j, col);
      }
    }
    IndicesDistinct(line);
    forall r | 0 <= r < m.rows
      ensures line[r] < |m.data|
    {
      PosInGrid(m.rows, m.cols, r, col);
    }
  }

  /** A cell of another row is not on the line of `row`. */
  lemma OffRowLine(cols: nat, row: nat, r: nat, c: nat)
    requires c < cols && r != row
    ensures Pos(cols, r, c) !in RowLine(cols, row)
  {
    if Pos(cols, r, c) in RowLine(cols, row) {
      var k :| 0 <= k < cols && RowLine(cols, row)[k] == Pos(cols, r, c);
      PosUnique(cols, r, c, row, k);
    }
  }

  /** A cell of another column is not on the line of `col`. */
  lemma OffColLine(rows: nat, cols: nat, col: nat, r: nat, c: nat)
    requires c < cols && col < cols && c != col
    ensures Pos(cols, r, c) !in ColLine(rows, cols, col)
  {
    if Pos(cols, r, c) in ColLine(rows, cols, col) {
      var k :| 0 <= k < rows && ColLine(rows, cols, col)[k] == Pos(cols, r, c);
      PosUnique(cols, r, c, k, col);
    }
  }

  /** Past the last row, the last cell of a row lies past the data. */
  lemma PastLastRow(rows: nat, cols: nat, row: nat)
    requires rows <= row && 0 < cols
    ensures Pos(cols, row, cols - 1) >= rows * cols
  {
    MulMonotone(rows, row, cols);
  }

  /** Past the last column, the bottom cell of a column lies past the data. */
  lemma PastLastCol(rows: nat, cols: nat, col: nat)
    requires cols <= col && 0 < rows
    ensures Pos(cols, rows - 1, col) >= rows * cols
  {
    assert (rows - 1) * cols + cols == rows * cols;
  }

  /** Reading a cell whose position is off the rotated line gives the
      same result before and after. */
  lemma AtOffLine<T>(m: Matrix<T>, data: seq<T>, line: seq<nat>, r: nat, c: nat)
    requires |data| == |m.data| && Pos(m.cols, r, c) !in line
    requires forall p :: 0 <= p < |m.data| && p !in line ==> data[p] == m.data[p]
    ensures At(m.(data := data), r, c) == At(m, r, c)
  {
  }

  /** Reading a cell of the rotated line gives the value rotated into it. */
  lemma AtOnLine<T>(m: Matrix<T>, data: seq<T>, line: seq<nat>, distance: nat, k: nat, r: nat, c: nat, r': nat, c': nat)
    requires InBounds(line, |m.data|) && |data| == |m.data| && distance < |line| && k < |line|
    requires View(data, line) == RotateRight(View(m.data, line), distance)
    requires line[(k + distance) % |line|] == Pos(m.cols, r', c') && line[k] == Pos(m.cols, r, c)
    ensures At(m.(data := data), r', c') == At(m, r, c)
  {
    RotateRightMoves(View(m.data, line), distance, k);
  }

  /** Where index `k` of a line of `n` cells lands when the line is
      turned forward by `s`, wrapping past the end. */
  function Turn(k: nat, s: int, n: nat): (to: nat)
    requires n > 0
    ensures to < n
  {
    (k + s) % n
  }

  /** After a row's line has been rotated by `shift`, cell (row, c) of the
      old grid is cell (row, (c + shift) mod cols) of the new one. */
  lemma RowTurned<T>(m: Matrix<T>, data: seq<T>, line: seq<nat>, row: nat, shift: nat)
    requires line == RowLine(m.cols, row) && InBounds(line, |m.data|)
    requires |data| == |m.data| && shift < m.cols
    requires View(data, line) == RotateRight(View(m.data, line), shift)
    ensures forall c :: 0 <= c < m.cols ==> At(m.(data := data), row, Turn(c, shift, m.cols)) == At(m, row, c)
  {
    forall c | 0 <= c < m.cols
      ensures At(m.(data := data), row, Turn(c, shift, m.cols)) == At(m, row, c)
    {
      var to := Turn(c, shift, m.cols);
      assert |line| == m.cols && (c + shift) % |line| == to;
      assert line[to] == Pos(m.cols, row, to) && line[c] == Pos(m.cols, row, c);
      AtOnLine(m, data, line, shift, c, row, c, row, to);
    }
  }

  /** After a column's line has been rotated by `shift`, cell (r, col) of
      the old grid is cell ((r + shift) mod rows, col) of the new one. */
  lemma ColTurned<T>(m: Matrix<T>, data: seq<T>, line: seq<nat>, col: nat, shift: nat)
    requires line == ColLine(m.rows, m.cols, col) && InBounds(line, |m.data|)
    requires |data| == |m.data| && shift < m.rows
    requires View(data, line) == RotateRight(View(m.data, line), shift)
    ensures forall r :: 0 <= r < m.rows ==> At(m.(data := data), Turn(r, shift, m.rows), col) == At(m, r, col)
  {
    forall r | 0 <= r < m.rows
      ensures At(m.(data := data), Turn(r, shift, m.rows), col) == At(m, r, col)
    {
      var to := Turn(r, shift, m.rows);
      assert |line| == m.rows && (r + shift) % |line| == to;
      assert line[to] == Pos(m.cols, to, col) && line[r] == Pos(m.cols, r, col);
      AtOnLine(m, data, line, shift, r, r, col, to, col);
    }
  }

  /** `rotate_row_right`: cell (row, c) moves to (row, (c + distance) mod
      cols) and the other rows stay as they were. A distance of `cols` or
      more, or one whose i32 cast is negative, reaches the sentinel and
      panics. */
  method RotateRowRight<T>(m: Matrix<T>, row: nat, distance: nat) returns (res: Result<Matrix<T>>)
    ensures AsI32(distance) < 0 || AsI32(distance) >= m.cols ==> res.Failure?
    ensures m.Valid() && 0 < AsI32(distance) < m.cols && row >= m.rows ==> res.Failure?
    ensures m.Valid() && row < m.rows ==> (res.Success? <==> 0 <= AsI32(distance) < m.cols)
    ensures res.Success? ==> res.value.rows == m.rows && res.value.cols == m.cols && |res.value.data| == |m.data|
    ensures res.Success? ==> multiset(res.value.data) == multiset(m.data)
    ensures res.Success? && m.Valid() && row < m.rows ==>
              forall c :: 0 <= c < m.cols ==> At(res.value, row, Turn(c, AsI32(distance), m.cols)) == At(m, row, c)
    ensures res.Success? && m.Valid() ==>
              forall r, c :: 0 <= r < m.rows && r != row && 0 <= c < m.cols ==> At(res.value, r, c) == At(m, r, c)
  {
    var line := RowLine(m.cols, row);
    if m.Valid() && 0 < AsI32(distance) < m.cols && row >= m.rows {
      PastLastRow(m.rows, m.cols, row);
    }
    if m.Valid() && row < m.rows {
      RowLineFits(m, row);
    }
    var r := RotateLine(m.data, line, distance);
    if r.Failure? {
      return Failure(r.error);
    }
    res := Success(m.(data := r.value));
    if m.Valid() {
      forall rr, c | 0 <= rr < m.rows && rr != row && 0 <= c < m.cols
        ensures At(res.value, rr, c) == At(m, rr, c)
      {
        OffRowLine(m.cols, row, rr, c);
        AtOffLine(m, r.value, line, rr, c);
      }
      if row < m.rows {
        var shift: nat := AsI32(distance);
        RowTurned(m, r.value, line, row, shift);

      }
    }
  }

  /** `rotate_col_down`: cell (r, col) moves to ((r + distance) mod rows,
      col) and the other columns stay as they were. A distance of `rows`
      or more, or one whose i32 cast is negative, reaches the sentinel and
      panics. */
  method RotateColDown<T>(m: Matrix<T>, col: nat, distance: nat) returns (res: Result<Matrix<T>>)
    ensures AsI32(distance) < 0 || AsI32(distance) >= m.rows ==> res.Failure?
    ensures m.Valid() && 0 < AsI32(distance) < m.rows && col >= m.cols ==> res.Failure?
    ensures m.Valid() && col < m.cols ==> (res.Success? <==> 0 <= AsI32(distance) < m.rows)
    ensures res.Success? ==> res.value.rows == m.rows && res.value.cols == m.cols && |res.value.data| == |m.data|
    ensures res.Success? ==> multiset(res.value.data) == multiset(m.data)
    ensures res.Success? && m.Valid() && col < m.cols ==>
              forall r :: 0 <= r < m.rows ==> At(res.value, Turn(r, AsI32(distance), m.rows), col) == At(m, r, col)
    ensures res.Success? && m.Valid() && col < m.cols ==>
              forall r, c :: 0 <= r < m.rows && 0 <= c < m.cols && c != col ==> At(res.value, r, c) == At(m, r, c)
  {
    var line := ColLine(m.rows, m.cols, col);
    if m.Valid() && 0 < AsI32(distance) < m.rows && col >= m.cols {
      PastLastCol(m.rows, m.cols, col);
    }
    if m.Valid() && col < m.cols {
      ColLineFits(m, col);
    }
    var r := RotateLine(m.data, line, distance);
    if r.Failure? {
      return Failure(r.error);
    }
    res := Success(m.(data := r.value));
    if m.Valid() && col < m.cols {
      forall rr, c | 0 <= rr < m.rows && 0 <= c < m.cols && c != col
        ensures At(res.value, rr, c) == At(m, rr, c)
      {
        OffColLine(m.rows, m.cols, col, rr, c);
        AtOffLine(m, r.value, line, rr, c);
      }
      var shift: nat := AsI32(distance);
      ColTurned(m, r.value, line, col, shift);

    }
  }
}
