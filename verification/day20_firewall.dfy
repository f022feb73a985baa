/** Day 20: a firewall blacklist of closed ranges of 32-bit addresses.
    The ranges are parsed from "low-high" lines, sorted by their start and
    merged wherever they overlap or touch, and the addresses left open
    between them are counted. */
module Firewall {
  import opened Wrappers
  import opened Text

  /** A closed range `[lo, hi]`; a range with `hi < lo` is empty. */
  datatype Range = Range(lo: nat, hi: nat)

  predicate InRange(r: Range, x: int) { r.lo <= x <= r.hi }

  /** Some range of `rs` contains `x`. */
  ghost predicate Covered(rs: seq<Range>, x: int) {
    exists k :: 0 <= k < |rs| && InRange(rs[k], x)
  }

  predicate AllWellFormed(rs: seq<Range>) {
    forall k :: 0 <= k < |rs| ==> rs[k].lo <= rs[k].hi
  }

  predicate AllU32(rs: seq<Range>) {
    forall k :: 0 <= k < |rs| ==> rs[k].lo < U32_LIMIT && rs[k].hi < U32_LIMIT
  }

  predicate SortedByStart(rs: seq<Range>) {
    forall i, j :: 0 <= i < j < |rs| ==> rs[i].lo <= rs[j].lo
  }

  /** Consecutive ranges leave at least one address between them. */
  predicate Separated(rs: seq<Range>) {
    forall i :: 0 <= i < |rs| - 1 ==> rs[i].hi + 1 < rs[i + 1].lo
  }

  // ---------------------------------------------------------------------
  // Parsing

  /** `filter_map(|s| s.parse::<u32>().ok())`: the pieces that parse as
      32-bit unsigned numbers, in order; the others are dropped. */
  function ParsedValues(pieces: seq<string>): (values: seq<nat>)
    ensures |values| <= |pieces|
    ensures forall k :: 0 <= k < |values| ==> values[k] < U32_LIMIT
  {
    if pieces == [] then []
    else
      match ParseUnsigned(pieces[0], U32_LIMIT)
      case Some(v) => [v] + ParsedValues(pieces[1..])
      case None => ParsedValues(pieces[1..])
  }

  /** One line of the blacklist: the first two numbers between '-'
      separators; fewer than two numbers is an out-of-bounds index. */
  function ParseRange(line: string): (r: Result<Range>)
    ensures r.Success? ==> r.value.lo < U32_LIMIT && r.value.hi < U32_LIMIT
    ensures r.Failure? <==> |ParsedValues(Split(line, '-'))| < 2
  {
    var values := ParsedValues(Split(line, '-'));
    if |values| < 2 then Failure("a range line needs two numbers")
    else Success(Range(values[0], values[1]))
  }

  /** `parse_ranges`: one range per line, in input order. */
  function ParseRanges(text: string): (r: Result<seq<Range>>)
    ensures r.Success? ==> AllU32(r.value)
    ensures r.Success? ==> |r.value| == |Lines(text)|
                           && forall k :: 0 <= k < |r.value| ==> ParseRange(Lines(text)[k]) == Success(r.value[k])
    ensures r.Failure? ==> exists k :: 0 <= k < |Lines(text)| && ParseRange(Lines(text)[k]).Failure?
  {
    var lines := Lines(text);
    var each := ParseEach(lines);
    CollectSpec(each);
    Collect(each)
  }

  /** The parse of every line, in order. */
  function ParseEach(lines: seq<string>): (each: seq<Result<Range>>)
    ensures |each| == |lines|
    ensures forall k :: 0 <= k < |lines| ==> each[k] == ParseRange(lines[k])
  {
    seq(|lines|, k requires 0 <= k < |lines| => ParseRange(lines[k]))
  }

  /** Indexing `values[0]` panics on a bad line, which ends the parse: the
      first failure wins, otherwise all the ranges in order. */
  function Collect(each: seq<Result<Range>>): (r: Result<seq<Range>>)
    ensures r.Success? ==> |r.value| == |each|
  {
    if each == [] then Success([])
    else if each[0].Failure? then Failure(each[0].error)
    else
      var rest := Collect(each[1..]);
      if rest.Failure? then Failure(rest.error)
      else Success([each[0].value] + rest.value)
  }

  /** `Collect` succeeds exactly when every parse does, and then holds
      each parsed range at its own position. */
  lemma {:induction false} CollectSpec(each: seq<Result<Range>>)
    ensures var r := Collect(each);
            (r.Success? <==> forall k :: 0 <= k < |each| ==> each[k].Success?)
            && (r.Success? ==> forall k :: 0 <= k < |each| ==> each[k] == Success(r.value[k]))
  {
    if each != [] {
      var tail := each[1..];
      CollectSpec(tail);
      assert forall k :: 1 <= k < |each| ==> each[k] == tail[k - 1];
      if each[0].Success? && Collect(tail).Failure? {
        var k :| 0 <= k < |tail| && tail[k].Failure?;
        assert each[k + 1].Failure?;
      }
    }
  }

  /** The text of a range as the blacklist writes it. */
  function RangeText(r: Range): (s: string)
    ensures |s| > 0 && '\n' !in s && s[|s| - 1] != '\r'
  {
    var s := NatToString(r.lo) + "-" + NatToString(r.hi);
    assert s[|s| - 1] == NatToString(r.hi)[|NatToString(r.hi)| - 1];
    assert forall k :: 0 <= k < |s| ==> s[k] == '-' || IsDigit(s[k]);
    s
  }

  /** Every 32-bit range is read back from its text. */
  lemma ParseRangeText(r: Range)
    requires r.lo < U32_LIMIT && r.hi < U32_LIMIT
    ensures ParseRange(RangeText(r)) == Success(r)
  {
    var a := NatToString(r.lo);
    var b := NatToString(r.hi);
    assert '-' !in a && '-' !in b;
    assert RangeText(r) == a + ['-'] + b;
    SplitAround(a, b, '-');
    ParseNatToString(r.lo, U32_LIMIT);
    ParseNatToString(r.hi, U32_LIMIT);
    assert ParsedValues([b]) == [r.hi];
  }

  function RangeLines(rs: seq<Range>): (lines: seq<string>)
    ensures |lines| == |rs|
    ensures forall k :: 0 <= k < |rs| ==> lines[k] == RangeText(rs[k])
  {
    if rs == [] then [] else [RangeText(rs[0])] + RangeLines(rs[1..])
  }

  /** A blacklist written one range per line parses back to the same
      ranges, in the same order. */
  lemma {:induction false} ParseBlacklistText(rs: seq<Range>)
    requires |rs| >= 1 && AllU32(rs)
    ensures ParseRanges(Join(RangeLines(rs), '\n')) == Success(rs)
  {
    var lines := RangeLines(rs);
    var text := Join(lines, '\n');
    assert Lines(text) == lines by {
      LinesOfJoin(lines);
    }
    var each := ParseEach(lines);
    assert forall k :: 0 <= k < |each| ==> each[k] == Success(rs[k]) by {
      forall k | 0 <= k < |rs|
        ensures ParseRange(lines[k]) == Success(rs[k])
      {
        ParseRangeText(rs[k]);
      }
    }
    CollectSpec(each);
    var r := Collect(each);
    assert r.Success?;
    assert r.value == rs;
  }

  // ---------------------------------------------------------------------
  // Sorting

  /** Places `r` after every range of `t` that starts no later than it,
      so that ranges with equal starts keep their order. */
  function Insert(r: Range, t: seq<Range>): (u: seq<Range>)
    requires SortedByStart(t)
    ensures SortedByStart(u)
    ensures multiset(u) == multiset(t) + multiset{r}
    ensures |u| == |t| + 1
    ensures u[0] == if t == [] || r.lo < t[0].lo then r else t[0]
  {
    if t == [] then [r]
    else if r.lo < t[0].lo then
      SortedCons(r, t);
      [r] + t
    else
      var rest := Insert(r, t[1..]);
      InsertStep(r, t, rest);
      [t[0]] + rest
  }

  /** Keeping the head of `t` in front of the insertion into its tail. */
  lemma InsertStep(r: Range, t: seq<Range>, rest: seq<Range>)
    requires SortedByStart(t) && t != [] && t[0].lo <= r.lo
    requires SortedByStart(rest) && |rest| == |t|
    requires multiset(rest) == multiset(t[1..]) + multiset{r}
    requires rest[0] == if t[1..] == [] || r.lo < t[1].lo then r else t[1]
    ensures SortedByStart([t[0]] + rest)
    ensures multiset([t[0]] + rest) == multiset(t) + multiset{r}
  {
    assert t == [t[0]] + t[1..];
    SortedCons(t[0], rest);
  }

  /** A range that starts no later than a sorted list's head can go in
      front of it. */
  lemma SortedCons(x: Range, u: seq<Range>)
    requires SortedByStart(u) && (u == [] || x.lo <= u[0].lo)
    ensures SortedByStart([x] + u)
  {
    var v := [x] + u;
    forall i, j | 0 <= i < j < |v|
      ensures v[i].lo <= v[j].lo
    {
      if i > 0 {
        assert v[i] == u[i - 1] && v[j] == u[j - 1];
      } else {
        assert v[j] == u[j - 1];
      }
    }
  }

  /** `sort_by_key(|k| k.0)`: a stable sort by start. */
  function SortByStart(s: seq<Range>): (r: seq<Range>)
    ensures SortedByStart(r)
    ensures multiset(r) == multiset(s)
    ensures |r| == |s|
  {
    if s == [] then []
    else
      var last := s[|s| - 1];
      assert s == s[..|s| - 1] + [last];
      Insert(last, SortByStart(s[..|s| - 1]))
  }

  /** The ranges of `s` that start at `key`, in order. */
  function StartingAt(s: seq<Range>, key: nat): seq<Range> {
    if s == [] then []
    else (if s[0].lo == key then [s[0]] else []) + StartingAt(s[1..], key)
  }

  lemma {:induction false} StartingAtConcat(a: seq<Range>, b: seq<Range>, key: nat)
    ensures StartingAt(a + b, key) == StartingAt(a, key) + StartingAt(b, key)
  {
    if a != [] {
      assert (a + b)[1..] == a[1..] + b;
      StartingAtConcat(a[1..], b, key);
    } else {
      assert a + b == b;
    }
  }

  lemma {:induction false} StartingAtAbove(t: seq<Range>, key: nat)
    requires forall k :: 0 <= k < |t| ==> key < t[k].lo
    ensures StartingAt(t, key) == []
  {
    if t != [] {
      StartingAtAbove(t[1..], key);
    }
  }

  lemma StartingAtSingle(r: Range, key: nat)
    ensures StartingAt([r], key) == if r.lo == key then [r] else []
  {
    assert [r][1..] == [];
  }

  /** Inserting in front of ranges that all start later. */
  lemma InsertFrontIsStable(r: Range, t: seq<Range>, key: nat)
    requires SortedByStart(t) && t != [] && r.lo < t[0].lo
    ensures StartingAt([r] + t, key) == StartingAt(t, key) + StartingAt([r], key)
  {
    StartingAtSingle(r, key);
    StartingAtConcat([r], t, key);
    if r.lo == key {
      StartingAtAbove(t, key);
    }
  }

  /** Putting the same range in front of two lists keeps a stability
      relation between them. */
  lemma ConsIsStable(h: Range, tail: seq<Range>, rest: seq<Range>, r: Range, key: nat)
    requires StartingAt(rest, key) == StartingAt(tail, key) + StartingAt([r], key)
    ensures StartingAt([h] + rest, key) == StartingAt([h] + tail, key) + StartingAt([r], key)
  {
    var head: seq<Range> := if h.lo == key then [h] else [];
    var tl, one := StartingAt(tail, key), StartingAt([r], key);
    assert ([h] + rest)[1..] == rest;
    assert ([h] + tail)[1..] == tail;
    assert StartingAt([h] + rest, key) == head + (tl + one);
    assert StartingAt([h] + tail, key) == head + tl;
    assert head + (tl + one) == (head + tl) + one;
  }

  lemma {:induction false} InsertIsStable(r: Range, t: seq<Range>, key: nat)
    requires SortedByStart(t)
    ensures StartingAt(Insert(r, t), key) == StartingAt(t, key) + StartingAt([r], key)
  {
    if t == [] {
      assert Insert(r, t) == [r];
    } else if r.lo < t[0].lo {
      InsertFrontIsStable(r, t, key);
    } else {
      var rest := Insert(r, t[1..]);
      assert Insert(r, t) == [t[0]] + rest;
      InsertIsStable(r, t[1..], key);
      ConsIsStable(t[0], t[1..], rest, r, key);
      assert t == [t[0]] + t[1..];
    }
  }

  /** Appending a range to a list whose selection matches `sorted`. */
  lemma SnocIsStable(init: seq<Range>, last: Range, sorted: seq<Range>, key: nat)
    requires StartingAt(sorted, key) == StartingAt(init, key)
    ensures StartingAt(init + [last], key) == StartingAt(sorted, key) + StartingAt([last], key)
  {
    StartingAtConcat(init, [last], key);
  }

  /** The sort is stable: for every start value, the ranges with that
      start appear in the same order as in the input. */
  lemma {:induction false} SortIsStable(s: seq<Range>, key: nat)
    ensures StartingAt(SortByStart(s), key) == StartingAt(s, key)
  {
    if s != [] {
      var init := s[..|s| - 1];
      var last := s[|s| - 1];
      var sorted := SortByStart(init);
      assert SortByStart(s) == Insert(last, sorted);
      SortIsStable(init, key);
      InsertIsStable(last, sorted, key);
      SnocIsStable(init, last, sorted, key);
      assert s == init + [last];
    }
  }

  // ---------------------------------------------------------------------
  // Merging

  function Max(a: nat, b: nat): nat { if a >= b then a else b }

  /** Replaces ranges `i` and `i + 1` by one range from the first start to
      the larger end. */
  function Absorb(rs: seq<Range>, i: nat): (r: seq<Range>)
    requires i + 1 < |rs|
    ensures |r| == |rs| - 1
  {
    seq(|rs| - 1, k requires 0 <= k < |rs| - 1 =>
      if k < i then rs[k] else if k == i then Range(rs[i].lo, Max(rs[i].hi, rs[i + 1].hi)) else rs[k + 1])
  }

  /** Absorbing a range that starts inside, or right after, its
      predecessor covers the same addresses. */
  lemma AbsorbCovers(rs: seq<Range>, i: nat)
    requires i + 1 < |rs|
    requires rs[i].lo <= rs[i + 1].lo <= rs[i].hi + 1
    ensures forall x :: Covered(Absorb(rs, i), x) <==> Covered(rs, x)
  {
    var a := Absorb(rs, i);
    var merged := a[i];
    forall x | Covered(rs, x)
      ensures Covered(a, x)
    {
      var k :| 0 <= k < |rs| && InRange(rs[k], x);
      if k < i {
        assert a[k] == rs[k];
      } else if k > i + 1 {
        assert a[k - 1] == rs[k];
      } else {
        assert InRange(merged, x);
      }
    }
    forall x | Covered(a, x)
      ensures Covered(rs, x)
    {
      var k :| 0 <= k < |a| && InRange(a[k], x);
      if k < i {
        assert a[k] == rs[k];
      } else if k > i {
        assert a[k] == rs[k + 1];
      } else if x <= rs[i].hi {
        assert InRange(rs[i], x);
      } else {
        assert InRange(rs[i + 1], x);
      }
    }
  }

  /** A permutation covers the same addresses. */
  lemma PermutationCovers(s: seq<Range>, t: seq<Range>)
    requires multiset(s) == multiset(t)
    ensures forall x :: Covered(s, x) <==> Covered(t, x)
  {
    forall x | Covered(s, x)
      ensures Covered(t, x)
    {
      var k :| 0 <= k < |s| && InRange(s[k], x);
      assert s[k] in multiset(t);
      var j :| 0 <= j < |t| && t[j] == s[k];
    }
    forall x | Covered(t, x)
      ensures Covered(s, x)
    {
      var k :| 0 <= k < |t| && InRange(t[k], x);
      assert t[k] in multiset(s);
      var j :| 0 <= j < |s| && s[j] == t[k];
    }
  }

  /** A permutation keeps every per-range property. */
  lemma PermutationKeeps(s: seq<Range>, t: seq<Range>)
    requires multiset(s) == multiset(t)
    ensures AllWellFormed(t) ==> AllWellFormed(s)
    ensures AllU32(t) ==> AllU32(s)
  {
    forall k | 0 <= k < |s|
      ensures s[k] in t
    {
      assert s[k] in multiset(s);
    }
  }

  /** What absorbing range `i + 1` into range `i` keeps: the order by
      start, the separation of the ranges before `i`, the lower bound on
      later starts, and the per-range properties. */
  lemma AbsorbKeeps(rs: seq<Range>, i: nat, bound: nat)
    requires i + 1 < |rs| && SortedByStart(rs)
    requires forall k :: 0 <= k < i ==> rs[k].hi + 1 < rs[k + 1].lo
    requires forall k :: 1 <= k < |rs| ==> bound <= rs[k].lo
    ensures var a := Absorb(rs, i);
            SortedByStart(a)
            && (forall k :: 0 <= k < i ==> a[k].hi + 1 < a[k + 1].lo)
            && (forall k :: 1 <= k < |a| ==> bound <= a[k].lo)
            && (AllWellFormed(rs) ==> AllWellFormed(a))
            && (AllU32(rs) ==> AllU32(a))
  {
    AbsorbKeepsSorted(rs, i);
    AbsorbKeepsSeparated(rs, i);
    AbsorbKeepsBound(rs, i, bound);
  }

  lemma AbsorbKeepsSorted(rs: seq<Range>, i: nat)
    requires i + 1 < |rs| && SortedByStart(rs)
    ensures SortedByStart(Absorb(rs, i))
  {
    var a := Absorb(rs, i);
    forall j, k | 0 <= j < k < |a|
      ensures a[j].lo <= a[k].lo
    {
      var j' := if j <= i then j else j + 1;
      var k' := if k <= i then k else k + 1;
      assert a[j].lo == rs[j'].lo && a[k].lo == rs[k'].lo;
    }
  }

  lemma AbsorbKeepsSeparated(rs: seq<Range>, i: nat)
    requires i + 1 < |rs|
    requires forall k :: 0 <= k < i ==> rs[k].hi + 1 < rs[k + 1].lo
    ensures var a := Absorb(rs, i);
            forall k :: 0 <= k < i ==> a[k].hi + 1 < a[k + 1].lo
  {
    var a := Absorb(rs, i);
    forall k | 0 <= k < i
      ensures a[k].hi + 1 < a[k + 1].lo
    {
      assert a[k] == rs[k];
      assert a[k + 1].lo == rs[k + 1].lo;
    }
  }

  lemma AbsorbKeepsBound(rs: seq<Range>, i: nat, bound: nat)
    requires i + 1 < |rs|
    requires forall k :: 1 <= k < |rs| ==> bound <= rs[k].lo
    ensures var a := Absorb(rs, i);
            forall k :: 1 <= k < |a| ==> bound <= a[k].lo
  {
    var a := Absorb(rs, i);
    forall k | 1 <= k < |a|
      ensures bound <= a[k].lo
    {
      if k > i {
        assert a[k] == rs[k + 1];
      } else {
        assert a[k].lo == rs[k].lo;
      }
    }
  }

  /** What the merge loop keeps: the ranges before `i` are separated, the
      list stays sorted and covers what the sorted input covers, and every
      range after the first starts at or above `bound`. */
  ghost predicate MergeInvariant(ranges: seq<Range>, sorted: seq<Range>, i: nat, bound: nat) {
    && i < |ranges|
    && SortedByStart(ranges)
    && (forall k :: 0 <= k < i ==> ranges[k].hi + 1 < ranges[k + 1].lo)
    && (forall x :: Covered(ranges, x) <==> Covered(sorted, x))
    && (forall k :: 1 <= k < |ranges| ==> bound <= ranges[k].lo)
    && (AllWellFormed(sorted) ==> AllWellFormed(ranges))
    && (AllU32(sorted) ==> AllU32(ranges))
  }

  /** Absorbing an overlapping or touching neighbour keeps the loop's
      invariant. */
  lemma MergeAbsorbStep(ranges: seq<Range>, sorted: seq<Range>, i: nat, bound: nat)
    requires MergeInvariant(ranges, sorted, i, bound) && i + 1 < |ranges|
    requires ranges[i].hi >= ranges[i + 1].lo - 1
    ensures MergeInvariant(Absorb(ranges, i), sorted, i, bound)
  {
    AbsorbCovers(ranges, i);
    AbsorbKeeps(ranges, i, bound);
  }

  /** Stepping past a neighbour that starts beyond the gap keeps the
      loop's invariant. */
  lemma MergeSkipStep(ranges: seq<Range>, sorted: seq<Range>, i: nat, bound: nat)
    requires MergeInvariant(ranges, sorted, i, bound) && i + 1 < |ranges|
    requires ranges[i].hi < ranges[i + 1].lo - 1
    ensures MergeInvariant(ranges, sorted, i + 1, bound)
  {
  }

  /** `merge_ranges`. The list is sorted by start and then merged. */
  method MergeRanges(input: seq<Range>) returns (r: Result<seq<Range>>)
    ensures r.Failure? <==> |input| == 0 || (|input| >= 2 && SortByStart(input)[1].lo == 0)
    ensures r.Success? ==> 1 <= |r.value| <= |input|
    ensures r.Success? ==> SortedByStart(r.value) && Separated(r.value)
    ensures r.Success? ==> forall x :: Covered(r.value, x) <==> Covered(input, x)
    ensures r.Success? && AllWellFormed(input) ==> AllWellFormed(r.value)
    ensures r.Success? && AllU32(input) ==> AllU32(r.value)
  {
    var sorted := SortByStart(input);
    PermutationCovers(sorted, input);
    PermutationKeeps(sorted, input);
    r := MergeSorted(sorted);
  }

  /** The merge walk over a sorted list: a range that starts at or before
      the current range's end plus one is absorbed, and otherwise the walk
      moves on. An empty list underflows `len() - 1`, and a second range
      starting at 0 underflows `start - 1`. */
  method MergeSorted(sorted: seq<Range>) returns (r: Result<seq<Range>>)
    requires SortedByStart(sorted)
    ensures r.Failure? <==> |sorted| == 0 || (|sorted| >= 2 && sorted[1].lo == 0)
    ensures r.Success? ==> 1 <= |r.value| <= |sorted|
    ensures r.Success? ==> SortedByStart(r.value) && Separated(r.value)
    ensures r.Success? ==> forall x :: Covered(r.value, x) <==> Covered(sorted, x)
    ensures r.Success? && AllWellFormed(sorted) ==> AllWellFormed(r.value)
    ensures r.Success? && AllU32(sorted) ==> AllU32(r.value)
  {
    if |sorted| == 0 {
      return Failure("merging needs at least one range");
    }
    var bound := if |sorted| >= 2 then sorted[1].lo else 0;
    var ranges := sorted;
    var i := 0;
    while i < |ranges| - 1
      invariant 0 <= i < |ranges| <= |sorted|
      invariant MergeInvariant(ranges, sorted, i, bound)
      invariant |sorted| >= 2 && bound == 0 ==> i == 0 && ranges == sorted
      decreases |ranges| - i
    {
      if ranges[i + 1].lo == 0 {
        return Failure("a second range starts at 0");
      }
      if ranges[i].hi >= ranges[i + 1].lo - 1 {
        MergeAbsorbStep(ranges, sorted, i, bound);
        ranges := Absorb(ranges, i);
      } else {
        MergeSkipStep(ranges, sorted, i, bound);
        i := i + 1;
      }
    }
    return Success(ranges);
  }

  // ---------------------------------------------------------------------
  // Counting open addresses

  /** Number of addresses below `n` that no range covers. */
  ghost function OpenBelow(rs: seq<Range>, n: nat): (count: nat)
    ensures count <= n
  {
    if n == 0 then 0 else OpenBelow(rs, n - 1) + (if Covered(rs, n - 1) then 0 else 1)
  }

  lemma {:induction false} OpenRun(rs: seq<Range>, a: nat, b: nat)
    requires a <= b
    requires forall x :: a <= x < b ==> !Covered(rs, x)
    ensures OpenBelow(rs, b) == OpenBelow(rs, a) + (b - a)
    decreases b - a
  {
    if a < b {
      OpenRun(rs, a, b - 1);
    }
  }

  lemma {:induction false} BlockedRun(rs: seq<Range>, a: nat, b: nat)
    requires a <= b
    requires forall x :: a <= x < b ==> Covered(rs, x)
    ensures OpenBelow(rs, b) == OpenBelow(rs, a)
    decreases b - a
  {
    if a < b {
      BlockedRun(rs, a, b - 1);
    }
  }

  /** In a separated list of non-empty ranges every range ends before
      every later range starts. */
  lemma {:induction false} EndsBeforeLaterStarts(rs: seq<Range>, i: nat, j: nat)
    requires AllWellFormed(rs) && Separated(rs)
    requires i < j < |rs|
    ensures rs[i].hi + 1 < rs[j].lo
    decreases j - i
  {
    if i + 1 < j {
      EndsBeforeLaterStarts(rs, i + 1, j);
    }
  }

  /** Which addresses a merged blacklist leaves open: those between two
      consecutive ranges. */
  lemma GapIsOpen(rs: seq<Range>, i: nat, x: int)
    requires AllWellFormed(rs) && Separated(rs)
    requires i < |rs|
    requires rs[i].hi < x && (i + 1 < |rs| ==> x < rs[i + 1].lo)
    ensures !Covered(rs, x)
  {
    forall k | 0 <= k < |rs|
      ensures !InRange(rs[k], x)
    {
      if k < i {
        EndsBeforeLaterStarts(rs, k, i);
      } else if k > i + 1 {
        EndsBeforeLaterStarts(rs, i + 1, k);
      }
    }
  }

  lemma FrontIsOpen(rs: seq<Range>, x: int)
    requires AllWellFormed(rs) && Separated(rs)
    requires 0 < |rs| && x < rs[0].lo
    ensures !Covered(rs, x)
  {
    forall k | 0 < k < |rs|
      ensures x < rs[k].lo
    {
      EndsBeforeLaterStarts(rs, 0, k);
    }
  }

  /** The addresses up to the end of the first range: all before its
      start are open, all within it blocked. */
  lemma FrontCount(rs: seq<Range>)
    requires |rs| >= 1 && AllWellFormed(rs) && Separated(rs)
    ensures OpenBelow(rs, rs[0].hi + 1) == rs[0].lo
  {
    forall x | 0 <= x < rs[0].lo
      ensures !Covered(rs, x)
    {
      FrontIsOpen(rs, x);
    }
    OpenRun(rs, 0, rs[0].lo);
    forall x | rs[0].lo <= x < rs[0].hi + 1
      ensures Covered(rs, x)
    {
      assert InRange(rs[0], x);
    }
    BlockedRun(rs, rs[0].lo, rs[0].hi + 1);
  }

  /** From the end of range `i` to the end of range `i + 1`: the gap is
      open and range `i + 1` is blocked. */
  lemma GapCount(rs: seq<Range>, i: nat)
    requires i + 1 < |rs| && AllWellFormed(rs) && Separated(rs)
    ensures OpenBelow(rs, rs[i + 1].hi + 1) == OpenBelow(rs, rs[i].hi + 1) + (rs[i + 1].lo - (rs[i].hi + 1))
  {
    var lhs := rs[i].hi + 1;
    var rhs := rs[i + 1].lo;
    forall x | lhs <= x < rhs
      ensures !Covered(rs, x)
    {
      GapIsOpen(rs, i, x);
    }
    OpenRun(rs, lhs, rhs);
    forall x | rhs <= x < rs[i + 1].hi + 1
      ensures Covered(rs, x)
    {
      assert InRange(rs[i + 1], x);
    }
    BlockedRun(rs, rhs, rs[i + 1].hi + 1);
  }

  /** After the last range every address is open. */
  lemma TailCount(rs: seq<Range>, max: nat)
    requires |rs| >= 1 && AllWellFormed(rs) && Separated(rs)
    requires rs[|rs| - 1].hi < max
    ensures OpenBelow(rs, max + 1) == OpenBelow(rs, rs[|rs| - 1].hi + 1) + (max - rs[|rs| - 1].hi)
  {
    var last := rs[|rs| - 1];
    forall x | last.hi + 1 <= x < max + 1
      ensures !Covered(rs, x)
    {
      GapIsOpen(rs, |rs| - 1, x);
    }
    OpenRun(rs, last.hi + 1, max + 1);
  }

  /** Below any covered address, some address is not open. */
  lemma {:induction false} OpenBelowCovered(rs: seq<Range>, x: nat, n: nat)
    requires x < n && Covered(rs, x)
    ensures OpenBelow(rs, n) < n
    decreases n
  {
    if n > x + 1 {
      OpenBelowCovered(rs, x, n - 1);
    }
  }

  /** `count_open`: the addresses before the first range, in each gap,
      and after the last range up to `max`, each step in `u32` arithmetic
      that panics on overflow. On a merged blacklist this is the number of
      open addresses up to `max`, or up to the end of the last range when
      that lies beyond `max`, and it never overflows. An empty list
      panics. */
  method CountOpen(ranges: seq<Range>, max: nat) returns (r: Result<nat>)
    requires AllU32(ranges) && max < U32_LIMIT
    ensures ranges == [] ==> r.Failure?
    ensures r.Success? ==> r.value < U32_LIMIT
    ensures |ranges| >= 1 && AllWellFormed(ranges) && Separated(ranges) ==>
              r == Success(OpenBelow(ranges, Max(max, ranges[|ranges| - 1].hi) + 1))
  {
    if |ranges| == 0 {
      return Failure("index out of bounds");
    }
    ghost var merged := AllWellFormed(ranges) && Separated(ranges);
    if merged {
      FrontCount(ranges);
    }
    var count: nat := ranges[0].lo;
    for i := 0 to |ranges| - 1
      invariant count < U32_LIMIT
      invariant merged ==> count == OpenBelow(ranges, ranges[i].hi + 1)
    {
      var lhs := ranges[i].hi + 1;
      assert merged ==> lhs < ranges[i + 1].lo < U32_LIMIT;
      if lhs >= U32_LIMIT {
        return Failure("attempt to add with overflow");
      }
      var rhs := ranges[i + 1].lo;
      if rhs < lhs {
        return Failure("attempt to subtract with overflow");
      }
      if merged {
        GapCount(ranges, i);
        assert InRange(ranges[i + 1], ranges[i + 1].hi);
        OpenBelowCovered(ranges, ranges[i + 1].hi, ranges[i + 1].hi + 1);
      }
      if count + (rhs - lhs) >= U32_LIMIT {
        return Failure("attempt to add with overflow");
      }
      count := count + (rhs - lhs);
    }
    var last := ranges[|ranges| - 1];
    if last.hi < max {
      if merged {
        TailCount(ranges, max);
        assert InRange(last, last.hi);
        OpenBelowCovered(ranges, last.hi, max + 1);
      }
      if count + (max - last.hi) >= U32_LIMIT {
        return Failure("attempt to add with overflow");
      }
      count := count + (max - last.hi);
    }
    return Success(count);
  }

  /** The blacklist answers: the lowest open address is the one right
      after the first merged range, when that range starts at 0. */
  lemma LowestOpenAddress(rs: seq<Range>)
    requires |rs| >= 1 && AllWellFormed(rs) && Separated(rs)
    requires rs[0].lo == 0
    ensures !Covered(rs, rs[0].hi + 1)
    ensures forall x :: 0 <= x <= rs[0].hi ==> Covered(rs, x)
  {
    GapIsOpen(rs, 0, rs[0].hi + 1);
    forall x | 0 <= x <= rs[0].hi
      ensures Covered(rs, x)
    {
      assert InRange(rs[0], x);
    }
  }
}
