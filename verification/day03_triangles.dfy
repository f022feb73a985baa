/** Day 3: which triples of side lengths can be triangles. The rows of the
    input are read either one triple per line or, in blocks of three
    lines, one triple per column. Side lengths are `u32`, so the sums of
    two sides can overflow, which panics. */
module Triangles {
  import opened Wrappers
  import opened Text

  datatype Triple = Triple(a: nat, b: nat, c: nat)

  /** The geometric condition: each side is shorter than the other two
      together. */
  predicate IsTriangle(a: nat, b: nat, c: nat) {
    a + b > c && a + c > b && b + c > a
  }

  /** `valid_triangle`: the three `u32` sums evaluated left to right, the
      `&&` stopping at the first false comparison, each sum panicking on
      overflow. */
  function ValidTriangle(a: nat, b: nat, c: nat): (r: Result<bool>)
    ensures r.Success? ==> r.value == IsTriangle(a, b, c)
    ensures r.Failure? <==>
      a + b >= U32_LIMIT
      || (a + b > c && a + c >= U32_LIMIT)
      || (a + b > c && a + c > b && b + c >= U32_LIMIT)
  {
    if a + b >= U32_LIMIT then Failure("attempt to add with overflow")
    else if a + b <= c then Success(false)
    else if a + c >= U32_LIMIT then Failure("attempt to add with overflow")
    else if a + c <= b then Success(false)
    else if b + c >= U32_LIMIT then Failure("attempt to add with overflow")
    else Success(b + c > a)
  }

  /** When no two sides overflow, the order of the sides does not matter. */
  lemma ValidTrianglePermuted(a: nat, b: nat, c: nat)
    requires a + b < U32_LIMIT && a + c < U32_LIMIT && b + c < U32_LIMIT
    ensures ValidTriangle(a, b, c) == Success(IsTriangle(a, b, c))
    ensures ValidTriangle(a, c, b) == ValidTriangle(a, b, c)
    ensures ValidTriangle(b, a, c) == ValidTriangle(a, b, c)
    ensures ValidTriangle(b, c, a) == ValidTriangle(a, b, c)
    ensures ValidTriangle(c, a, b) == ValidTriangle(a, b, c)
    ensures ValidTriangle(c, b, a) == ValidTriangle(a, b, c)
  {
  }

  /** With overflow the order does matter: the same sides panic in one
      order and are rejected without overflowing in another. */
  lemma OverflowDependsOnOrder()
    ensures ValidTriangle(0x8000_0000, 0x8000_0000, 0).Failure?
    ensures ValidTriangle(0, 0x8000_0000, 0x8000_0000) == Success(false)
  {
  }

  function Check(t: Triple): Result<bool> {
    ValidTriangle(t.a, t.b, t.c)
  }

  /** The number of triples that are triangles. */
  function TriangleCount(ts: seq<Triple>): (n: nat)
    ensures n <= |ts|
  {
    if ts == [] then 0
    else (if IsTriangle(ts[0].a, ts[0].b, ts[0].c) then 1 else 0) + TriangleCount(ts[1..])
  }

  /** `valid += 1` for each triple that passes, in order; the first panic
      ends the count. */
  function CountValid(ts: seq<Triple>): (r: Result<nat>)
    ensures r.Success? <==> forall i :: 0 <= i < |ts| ==> Check(ts[i]).Success?
  {
    if ts == [] then Success(0)
    else
      match Check(ts[0])
      case Failure(e) => Failure(e)
      case Success(valid) =>
        match CountValid(ts[1..])
        case Failure(e) => Failure(e)
        case Success(n) => Success(n + if valid then 1 else 0)
  }

  /** A count that comes out is the number of triangles. */
  lemma {:induction false} CountValidIsTriangleCount(ts: seq<Triple>)
    requires CountValid(ts).Success?
    ensures CountValid(ts).value == TriangleCount(ts)
  {
    if ts != [] {
      assert Check(ts[0]).Success?;
      CountValidIsTriangleCount(ts[1..]);
    }
  }

  predicate IsSeparator(c: char) { c == ' ' || c == '\n' }

  /** `split(' ')` or `split(|c| c == ' ' || c == '\n')` followed by
      `filter(|val| val.len() > 0)`: the maximal runs of non-separators. */
  function Tokens(s: string): (tokens: seq<string>)
    ensures forall k :: 0 <= k < |tokens| ==> |tokens[k]| > 0
    ensures forall k, m :: 0 <= k < |tokens| && 0 <= m < |tokens[k]| ==> !IsSeparator(tokens[k][m])
    decreases |s|
  {
    if s == [] then []
    else if IsSeparator(s[0]) then Tokens(s[1..])
    else
      var i := TokenEnd(s);
      [s[..i]] + Tokens(s[i..])
  }

  function TokenEnd(s: string): (i: nat)
    requires |s| > 0 && !IsSeparator(s[0])
    ensures 0 < i <= |s|
    ensures forall k :: 0 <= k < i ==> !IsSeparator(s[k])
    ensures i < |s| ==> IsSeparator(s[i])
    decreases |s|
  {
    if |s| == 1 || IsSeparator(s[1]) then 1 else 1 + TokenEnd(s[1..])
  }

  /** `map(|val| val.parse().unwrap())` into `u32`, in order. */
  function ParseAll(tokens: seq<string>): (r: Result<seq<nat>>)
    ensures r.Success? ==> |r.value| == |tokens|
    ensures r.Success? ==> forall k :: 0 <= k < |tokens| ==> ParseUnsigned(tokens[k], U32_LIMIT) == Some(r.value[k])
    ensures r.Success? <==> forall k :: 0 <= k < |tokens| ==> ParseUnsigned(tokens[k], U32_LIMIT).Some?
  {
    if tokens == [] then Success([])
    else
      match ParseUnsigned(tokens[0], U32_LIMIT)
      case None => Failure("called `Result::unwrap()` on an `Err` value")
      case Some(v) =>
        match ParseAll(tokens[1..])
        case Failure(e) =>
          assert forall k :: 0 <= k < |tokens| - 1 ==> tokens[1..][k] == tokens[k + 1];
          Failure(e)
        case Success(rest) => Success([v] + rest)
  }

  /** One line of part 1: its values, of which the first three are the
      sides; fewer than three is an out-of-bounds index. */
  function RowTriple(line: string): (r: Result<Triple>)
    ensures r.Success? ==>
      var values := ParseAll(Tokens(line));
      values.Success? && |values.value| >= 3 && r.value == Triple(values.value[0], values.value[1], values.value[2])
  {
    match ParseAll(Tokens(line))
    case Failure(e) => Failure(e)
    case Success(values) =>
      if |values| < 3 then Failure("index out of bounds") else Success(Triple(values[0], values[1], values[2]))
  }

  /** Part 1: the lines in order, each parsed and then checked. */
  function RowCount(lines: seq<string>): (r: Result<nat>)
    ensures r.Success? ==> r.value <= |lines|
  {
    if lines == [] then Success(0)
    else
      match RowTriple(lines[0])
      case Failure(e) => Failure(e)
      case Success(t) =>
        match Check(t)
        case Failure(e) => Failure(e)
        case Success(valid) =>
          match RowCount(lines[1..])
          case Failure(e) => Failure(e)
          case Success(n) => Success(n + if valid then 1 else 0)
  }

  /** The triples of part 1, one per line. */
  function RowTriples(lines: seq<string>): (r: Result<seq<Triple>>)
    ensures r.Success? ==> |r.value| == |lines|
  {
    if lines == [] then Success([])
    else
      match RowTriple(lines[0])
      case Failure(e) => Failure(e)
      case Success(t) =>
        match RowTriples(lines[1..])
        case Failure(e) => Failure(e)
        case Success(ts) => Success([t] + ts)
  }

  /** Part 1 counts the triangles among the lines' triples, and fails
      exactly when a line does not parse or a check overflows. */
  lemma {:induction false} RowCountIsTriangleCount(lines: seq<string>)
    ensures RowCount(lines).Success? <==> RowTriples(lines).Success? && CountValid(RowTriples(lines).value).Success?
    ensures RowCount(lines).Success? ==> RowCount(lines).value == TriangleCount(RowTriples(lines).value)
  {
    if lines != [] {
      RowCountIsTriangleCount(lines[1..]);
      match RowTriple(lines[0])
      case Failure(_) =>
      case Success(t) =>
        if RowTriples(lines[1..]).Success? {
          var ts := RowTriples(lines[1..]).value;
          assert RowTriples(lines).value == [t] + ts;
          assert ([t] + ts)[0] == t && ([t] + ts)[1..] == ts;
        }
    }
  }

  /** Part 2: each block of nine values, three rows of three, gives the
      three column triples; values after the last full block are unused. */
  function Columns(values: seq<nat>): (ts: seq<Triple>)
    ensures |ts| == 3 * (|values| / 9)
    decreases |values|
  {
    if |values| < 9 then []
    else
      [ Triple(values[0], values[3], values[6]),
        Triple(values[1], values[4], values[7]),
        Triple(values[2], values[5], values[8]) ] + Columns(values[9..])
  }

  /** The triple at column `k` of block `b` reads the values at
      `9b + k`, `9b + k + 3` and `9b + k + 6`. */
  lemma {:induction false} ColumnsAt(values: seq<nat>, b: nat, k: nat)
    requires k < 3 && 9 * b + 9 <= |values|
    ensures 3 * b + k < |Columns(values)|
    ensures Columns(values)[3 * b + k] == Triple(values[9 * b + k], values[9 * b + k + 3], values[9 * b + k + 6])
    decreases b
  {
    if b > 0 {
      ColumnsAt(values[9..], b - 1, k);
      assert values[9..][9 * (b - 1) + k] == values[9 * b + k];
      assert values[9..][9 * (b - 1) + k + 3] == values[9 * b + k + 3];
      assert values[9..][9 * (b - 1) + k + 6] == values[9 * b + k + 6];
    }
  }

  /** Values after the last full block of nine change nothing. */
  lemma {:induction false} ColumnsIgnoreTail(values: seq<nat>, tail: seq<nat>)
    requires |values| % 9 == 0 && |tail| < 9
    ensures Columns(values + tail) == Columns(values)
    decreases |values|
  {
    if |values| >= 9 {
      assert (values + tail)[9..] == values[9..] + tail;
      ColumnsIgnoreTail(values[9..], tail);
    } else {
      assert |values| == 0;
    }
  }

  /** The part-2 loops: block by block, column by column. */
  method ByColumn(values: seq<nat>) returns (r: Result<nat>)
    ensures r == CountValid(Columns(values))
  {
    var count := 0;
    var block := 0;
    ghost var ts := Columns(values);
    while block < |values| / 9
      invariant 0 <= block <= |values| / 9
      invariant CountValid(ts) == Shift(CountValid(ts[3 * block..]), count)
    {
      assert 9 * block + 9 <= |values| by {
        BlockFits(block, |values|);
      }
      var stride := 0;
      ghost var j := 3 * block;
      while stride < 3
        invariant 0 <= stride <= 3 && j == 3 * block + stride
        invariant CountValid(ts) == Shift(CountValid(ts[j..]), count)
      {
        ColumnsAt(values, block, stride);
        var t := Triple(values[9 * block + stride], values[9 * block + stride + 3], values[9 * block + stride + 6]);
        assert t == ts[j];
        var valid := Check(t);
        CountStep(ts, j, count);
        if valid.Failure? {
          return Failure(valid.error);
        }
        if valid.value {
          count := count + 1;
        }
        stride, j := stride + 1, j + 1;
      }
      block := block + 1;
    }
    assert 3 * block == |ts|;
    assert ts[3 * block..] == [];
    return Success(count);
  }

  /** One more triple checked: a failure ends the count, a triangle adds one. */
  lemma CountStep(ts: seq<Triple>, j: nat, count: nat)
    requires j < |ts|
    ensures Check(ts[j]).Failure? ==> Shift(CountValid(ts[j..]), count) == Failure(Check(ts[j]).error)
    ensures Check(ts[j]).Success? ==>
      Shift(CountValid(ts[j..]), count) == Shift(CountValid(ts[j + 1..]), count + if Check(ts[j]).value then 1 else 0)
  {
    assert ts[j..][0] == ts[j] && ts[j..][1..] == ts[j + 1..];
  }

  /** `count` more valid triples on top of a count that came out. */
  function Shift(r: Result<nat>, count: nat): Result<nat> {
    match r
    case Failure(e) => Failure(e)
    case Success(n) => Success(n + count)
  }

  lemma BlockFits(block: nat, n: nat)
    requires block < n / 9
    ensures 9 * block + 9 <= n
  {
  }

  /** Part 2's input: every value of the file, lines and all. */
  function ColumnCount(input: string): Result<nat> {
    match ParseAll(Tokens(input))
    case Failure(e) => Failure(e)
    case Success(values) => CountValid(Columns(values))
  }
}
