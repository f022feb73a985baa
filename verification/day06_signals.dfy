/** Day 6: a repeated message garbled by noise. For each of the eight
    columns the solver counts how often each ASCII byte appears there,
    then reads the message from the most common byte of each column and,
    for the second part, from the least common byte that appears at all.
    Only letters 'a'..'z' make it into the answers. */
module Signals {
  import opened Wrappers

  /** `MAX_LENGTH`: the columns a line may use. */
  const COLUMNS: nat := 8
  /** The bytes counted per column. */
  const BYTES: nat := 128

  /** `histograms[i][b]`: how often byte `b` was seen at column `i`. */
  type Histograms = seq<seq<nat>>

  predicate Shaped(h: Histograms) {
    |h| == COLUMNS && forall i :: 0 <= i < COLUMNS ==> |h[i]| == BYTES
  }

  /** A line whose bytes all index into the table: at most eight of them,
      each ASCII. A longer line or a non-ASCII character (whose UTF-8
      bytes are all 128 or more) panics with an out-of-bounds index. */
  predicate Fits(line: string) {
    |line| <= COLUMNS && forall k :: 0 <= k < |line| ==> (line[k] as int) < BYTES
  }

  /** The independent count: lines whose column `i` holds byte `b`. */
  function Count(lines: seq<string>, i: nat, b: nat): (n: nat)
    ensures n <= |lines|
  {
    if lines == [] then 0
    else
      var last := lines[|lines| - 1];
      Count(lines[..|lines| - 1], i, b) + if i < |last| && last[i] as int == b then 1 else 0
  }

  /** `histograms[i][bytes[i] as usize] += 1` for every byte of one line. */
  function Tally(h: Histograms, line: string): (next: Histograms)
    requires Shaped(h) && Fits(line)
    ensures Shaped(next)
    ensures forall i, b :: 0 <= i < COLUMNS && 0 <= b < BYTES ==>
      next[i][b] == h[i][b] + if i < |line| && line[i] as int == b then 1 else 0
  {
    seq(COLUMNS, i requires 0 <= i < COLUMNS =>
      seq(BYTES, b requires 0 <= b < BYTES =>
        h[i][b] + if i < |line| && line[i] as int == b then 1 else 0))
  }

  function Empty(): (h: Histograms)
    ensures Shaped(h)
    ensures forall i, b :: 0 <= i < COLUMNS && 0 <= b < BYTES ==> h[i][b] == 0
  {
    seq(COLUMNS, i => seq(BYTES, b => 0))
  }

  /** The counting loop over the lines in order; the first line that does
      not fit panics. */
  function Build(lines: seq<string>): (r: Result<Histograms>)
    ensures r.Success? ==> Shaped(r.value)
  {
    if lines == [] then Success(Empty())
    else
      match Build(lines[..|lines| - 1])
      case Failure(e) => Failure(e)
      case Success(h) =>
        if Fits(lines[|lines| - 1]) then Success(Tally(h, lines[|lines| - 1]))
        else Failure("index out of bounds")
  }

  /** The table comes out exactly when every line fits, and then holds the
      counts. */
  lemma {:induction false} BuildCounts(lines: seq<string>)
    ensures Build(lines).Success? <==> forall n :: 0 <= n < |lines| ==> Fits(lines[n])
    ensures Build(lines).Success? ==>
      forall i, b :: 0 <= i < COLUMNS && 0 <= b < BYTES ==> Build(lines).value[i][b] == Count(lines, i, b)
  {
    if lines != [] {
      var front := lines[..|lines| - 1];
      BuildCounts(front);
      assert forall n :: 0 <= n < |front| ==> front[n] == lines[n];
    }
  }

  /** The order of `(count, byte)` pairs that the iterator's `max` and
      `min` use: by count, then by byte. */
  predicate Below(c1: nat, b1: nat, c2: nat, b2: nat) {
    c1 < c2 || (c1 == c2 && b1 < b2)
  }

  lemma BelowTransitive(c1: nat, b1: nat, c2: nat, b2: nat, c3: nat, b3: nat)
    requires Below(c1, b1, c2, b2) && Below(c2, b2, c3, b3)
    ensures Below(c1, b1, c3, b3)
  {
  }

  /** `max` over `(count, byte)` from byte `k` on, `best` the maximum so far. */
  function MaxFrom(counts: seq<nat>, k: nat, best: nat): (b: nat)
    requires best < k <= |counts|
    requires forall j :: 0 <= j < k && j != best ==> Below(counts[j], j, counts[best], best)
    ensures b < |counts|
    ensures forall j :: 0 <= j < |counts| && j != b ==> Below(counts[j], j, counts[b], b)
    decreases |counts| - k
  {
    if k == |counts| then best
    else if Below(counts[best], best, counts[k], k) then
      assert forall j :: 0 <= j < k && j != best ==> Below(counts[j], j, counts[k], k) by {
        forall j | 0 <= j < k && j != best
          ensures Below(counts[j], j, counts[k], k)
        {
          BelowTransitive(counts[j], j, counts[best], best, counts[k], k);
        }
      }
      MaxFrom(counts, k + 1, k)
    else MaxFrom(counts, k + 1, best)
  }

  /** The most common byte of a column, ties going to the larger byte. */
  function MostCommon(counts: seq<nat>): (b: nat)
    requires |counts| > 0
    ensures b < |counts|
    ensures forall j :: 0 <= j < |counts| && j != b ==> Below(counts[j], j, counts[b], b)
  {
    MaxFrom(counts, 1, 0)
  }

  /** `filter(count > 0).min()` from byte `k` on, `best` the minimum so far. */
  function MinFrom(counts: seq<nat>, k: nat, best: Option<nat>): (r: Option<nat>)
    requires k <= |counts|
    requires best.None? ==> forall j :: 0 <= j < k ==> counts[j] == 0
    requires best.Some? ==> best.value < k && counts[best.value] > 0
    requires best.Some? ==> forall j :: 0 <= j < k && j != best.value && counts[j] > 0 ==> Below(counts[best.value], best.value, counts[j], j)
    ensures r.None? <==> forall j :: 0 <= j < |counts| ==> counts[j] == 0
    ensures r.Some? ==> r.value < |counts| && counts[r.value] > 0
    ensures r.Some? ==> forall j :: 0 <= j < |counts| && j != r.value && counts[j] > 0 ==> Below(counts[r.value], r.value, counts[j], j)
    decreases |counts| - k
  {
    if k == |counts| then best
    else if counts[k] > 0 && (best.None? || Below(counts[k], k, counts[best.value], best.value)) then
      assert forall j :: 0 <= j < k && counts[j] > 0 ==> Below(counts[k], k, counts[j], j) by {
        forall j | 0 <= j < k && counts[j] > 0
          ensures Below(counts[k], k, counts[j], j)
        {
          if j != best.value {
            BelowTransitive(counts[k], k, counts[best.value], best.value, counts[j], j);
          }
        }
      }
      MinFrom(counts, k + 1, Some(k))
    else MinFrom(counts, k + 1, best)
  }

  /** The least common byte that appears in a column, ties going to the
      smaller byte; none when the column is empty. */
  function LeastCommon(counts: seq<nat>): (r: Option<nat>)
    ensures r.None? <==> forall j :: 0 <= j < |counts| ==> counts[j] == 0
    ensures r.Some? ==> r.value < |counts| && counts[r.value] > 0
    ensures r.Some? ==> forall j :: 0 <= j < |counts| && j != r.value && counts[j] > 0 ==> Below(counts[r.value], r.value, counts[j], j)
  {
    MinFrom(counts, 0, None)
  }

  /** The `(count, byte)` order is strict and total on distinct bytes, so
      the extreme byte is unique: a byte beating all others is the one
      `MostCommon` returns. */
  lemma MostCommonUnique(counts: seq<nat>, b: nat)
    requires b < |counts|
    requires forall j :: 0 <= j < |counts| && j != b ==> Below(counts[j], j, counts[b], b)
    ensures MostCommon(counts) == b
  {
  }

  predicate IsLower(c: char) { 'a' <= c <= 'z' }

  /** `push` of a column's byte as a character, only when it is a letter. */
  function Keep(answer: string, b: nat): (r: string)
    requires b < BYTES
    ensures IsLower(b as char) ==> r == answer + [b as char]
    ensures !IsLower(b as char) ==> r == answer
  {
    if 'a' as int <= b <= 'z' as int then answer + [b as char] else answer
  }

  /** Part 1 over columns `0..i`: the most common bytes that are letters. */
  function Most(h: Histograms, i: nat): (s: string)
    requires Shaped(h) && i <= COLUMNS
    ensures |s| <= i
    ensures forall k :: 0 <= k < |s| ==> IsLower(s[k])
  {
    if i == 0 then [] else Keep(Most(h, i - 1), MostCommon(h[i - 1]))
  }

  /** Part 2 over columns `0..i`: the least common bytes present that are
      letters. */
  function Least(h: Histograms, i: nat): (s: string)
    requires Shaped(h) && i <= COLUMNS
    ensures |s| <= i
    ensures forall k :: 0 <= k < |s| ==> IsLower(s[k])
  {
    if i == 0 then []
    else
      match LeastCommon(h[i - 1])
      case None => Least(h, i - 1)
      case Some(b) => Keep(Least(h, i - 1), b)
  }

  /** When every column's most common byte is a letter, part 1 reads one
      letter per column, in column order. */
  lemma {:induction false} MostReadsEveryColumn(h: Histograms, i: nat)
    requires Shaped(h) && i <= COLUMNS
    requires forall k :: 0 <= k < i ==> IsLower(MostCommon(h[k]) as char)
    ensures |Most(h, i)| == i
    ensures forall k :: 0 <= k < i ==> Most(h, i)[k] == MostCommon(h[k]) as char
  {
    if i > 0 {
      MostReadsEveryColumn(h, i - 1);
    }
  }

  /** When every column holds some byte and its least common one is a
      letter, part 2 reads one letter per column, in column order. */
  lemma {:induction false} LeastReadsEveryColumn(h: Histograms, i: nat)
    requires Shaped(h) && i <= COLUMNS
    requires forall k :: 0 <= k < i ==> LeastCommon(h[k]).Some? && IsLower(LeastCommon(h[k]).value as char)
    ensures |Least(h, i)| == i
    ensures forall k :: 0 <= k < i ==> Least(h, i)[k] == LeastCommon(h[k]).value as char
  {
    if i > 0 {
      LeastReadsEveryColumn(h, i - 1);
    }
  }

  /** The whole solver: both answers, or the panic of a line that does not
      fit. */
  function Solve(lines: seq<string>): (r: Result<(string, string)>)
    ensures r.Success? <==> forall n :: 0 <= n < |lines| ==> Fits(lines[n])
  {
    BuildCounts(lines);
    match Build(lines)
    case Failure(e) => Failure(e)
    case Success(h) => Success((Most(h, COLUMNS), Least(h, COLUMNS)))
  }
}
