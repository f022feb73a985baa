/** Day 9: the experimental compression format. A marker `(WxC)` repeats
    the next `W` characters `C` times; characters with code 32 or below
    outside markers are dropped, everything else is copied.

    Every panic of the source (a `(` without a later `)`, a field of the
    marker that is not a number, a marker with fewer than two fields, a
    block running past the end of the input, a `usize` size that
    overflows) is a `Failure` here. */
module Decompression {
  import opened Wrappers
  import opened Text

  /** A parsed marker: block width, repeat count, and where the block starts. */
  datatype Marker = Marker(width: nat, count: nat, blockStart: nat)

  /** Characters with code 32 or below are skipped outside markers. */
  predicate IsSkipped(c: char) { c as int <= 32 }

  /** `a` copies of `b` added up, the product `a * b` kept out of linear
      arithmetic. */
  function Mul(a: nat, b: nat): nat {
    if a == 0 then 0 else Mul(a - 1, b) + b
  }

  lemma {:induction false} MulIsProduct(a: nat, b: nat)
    ensures Mul(a, b) == a * b
  {
    if a > 0 {
      MulIsProduct(a - 1, b);
      assert (a - 1) * b + b == a * b;
    }
  }

  /** `block` written `count` times in a row. */
  function Repeat(block: string, count: nat): (r: string)
    ensures |r| == Mul(count, |block|)
  {
    if count == 0 then [] else Repeat(block, count - 1) + block
  }

  /** Copy `i` of the block occupies positions `i * |block|` onwards. */
  lemma {:induction false} RepeatCopies(block: string, count: nat, i: nat)
    requires i < count
    ensures Mul(i + 1, |block|) <= |Repeat(block, count)|
    ensures Repeat(block, count)[Mul(i, |block|)..Mul(i + 1, |block|)] == block
  {
    var r := Repeat(block, count);
    var before := Repeat(block, count - 1);
    assert r == before + block;
    var lo, hi := Mul(i, |block|), Mul(i + 1, |block|);
    assert hi == lo + |block|;
    if i == count - 1 {
      assert lo == |before|;
    } else {
      RepeatCopies(block, count - 1, i);
      assert r[lo..hi] == before[lo..hi];
    }
  }

  /** Every field of a marker parsed as a `usize`. */
  function ParseFields(fields: seq<string>): (r: Result<seq<nat>>)
    ensures r.Success? ==> |r.value| == |fields|
  {
    if fields == [] then Success([])
    else
      var head :- Need(ParseUnsigned(fields[0], USIZE_LIMIT), "marker field is not a number");
      var tail :- ParseFields(fields[1..]);
      Success([head] + tail)
  }

  /** Reads the marker that opens `s`: the text up to the first `)` split
      at `x`, every field a number, the first two taken as width and count,
      and the block must lie inside `s`. */
  function ReadMarker(s: string): (r: Result<Marker>)
    requires |s| > 0 && s[0] == '('
    ensures r.Success? ==> 2 <= r.value.blockStart && r.value.blockStart + r.value.width <= |s|
    ensures r.Success? ==> s[r.value.blockStart - 1] == ')' && ')' !in s[..r.value.blockStart - 1]
    ensures IndexOf(s, ')') == |s| ==> r.Failure?
  {
    var close := IndexOf(s, ')');
    if close == |s| then Failure("Unable to parse tag")
    else
      var values :- ParseFields(Split(s[1..close], 'x'));
      if |values| < 2 then Failure("marker needs a width and a count")
      else if close + 1 + values[0] > |s| then Failure("block runs past the end of the input")
      else Success(Marker(values[0], values[1], close + 1))
  }

  /** `decompress`: one pass, markers inside a repeated block are copied
      as plain text. */
  function Decompress(s: string): (r: Result<string>)
    decreases |s|
  {
    if s == [] then Success([])
    else if s[0] == '(' then
      var m :- ReadMarker(s);
      var rest :- Decompress(s[m.blockStart + m.width..]);
      Success(Repeat(s[m.blockStart..m.blockStart + m.width], m.count) + rest)
    else if IsSkipped(s[0]) then Decompress(s[1..])
    else
      var rest :- Decompress(s[1..]);
      Success([s[0]] + rest)
  }


  /** `simulate_decompress_v2`: the length of the full expansion, counting
      one per copied character and `count` times the block's own size per
      marker. The sizes are `usize`, so a size of 2^64 or more, of the
      whole text or of any block inside it, panics. */
  function DecompressedSize(s: string): (r: Result<nat>)
    ensures r.Success? ==> r.value < USIZE_LIMIT
    decreases |s|, 1
  {
    if s == [] then Success(0)
    else if s[0] == '(' then
      var m :- ReadMarker(s);
      MarkerSize(s, m)
    else if IsSkipped(s[0]) then DecompressedSize(s[1..])
    else
      var rest :- DecompressedSize(s[1..]);
      Checked(1 + rest)
  }

  /** The size of a text that opens with marker `m`: `count` times the
      block's size, then the size of the text after the block. */
  function MarkerSize(s: string, m: Marker): (r: Result<nat>)
    requires |s| > 0 && s[0] == '(' && ReadMarker(s) == Success(m)
    ensures r.Success? ==> r.value < USIZE_LIMIT
    decreases |s|, 0
  {
    var block :- DecompressedSize(s[m.blockStart..m.blockStart + m.width]);
    var rest :- DecompressedSize(s[m.blockStart + m.width..]);
    MarkerTotal(m.count, block, rest)
  }

  /** `count` copies of a block of size `block`, then `rest` more. */
  function MarkerTotal(count: nat, block: nat, rest: nat): (r: Result<nat>)
    ensures r.Success? <==> Mul(count, block) + rest < USIZE_LIMIT
    ensures r.Success? ==> r.value == Mul(count, block) + rest
  {
    Checked(Mul(count, block) + rest)
  }

  /** A `usize` total: the running sum of the source only grows, so it
      overflows at some step exactly when the whole total does not fit. */
  function Checked(total: nat): (r: Result<nat>)
    ensures r.Success? <==> total < USIZE_LIMIT
    ensures r.Success? ==> r.value == total
  {
    if total < USIZE_LIMIT then Success(total) else Failure("attempt to add with overflow")
  }

  /** The full version 2 expansion that `simulate_decompress_v2` measures:
      a block is itself expanded before it is repeated. */
  function Expand(s: string): Result<string>
    decreases |s|
  {
    if s == [] then Success([])
    else if s[0] == '(' then
      var m :- ReadMarker(s);
      var block :- Expand(s[m.blockStart..m.blockStart + m.width]);
      var rest :- Expand(s[m.blockStart + m.width..]);
      Success(Repeat(block, m.count) + rest)
    else if IsSkipped(s[0]) then Expand(s[1..])
    else
      var rest :- Expand(s[1..]);
      Success([s[0]] + rest)
  }

  /** `decompress_v2`: `decompress` repeated until a pass leaves the length
      unchanged. The source loop need not stop; `fuel` bounds the passes. */
  function DecompressV2(s: string, fuel: nat): (r: Result<string>)
    ensures r.Success? ==> exists prev :: Decompress(prev) == Success(r.value) && |prev| == |r.value|
  {
    var first :- Decompress(s);
    Settle(s, first, fuel)
  }

  function Settle(previous: string, output: string, fuel: nat): (r: Result<string>)
    requires Decompress(previous) == Success(output)
    ensures r.Success? ==> exists prev :: Decompress(prev) == Success(r.value) && |prev| == |r.value|
    decreases fuel
  {
    if |previous| == |output| then Success(output)
    else if fuel == 0 then Failure("decompression did not settle")
    else
      var next :- Decompress(output);
      Settle(output, next, fuel - 1)
  }

  // ---------------------------------------------------------------------------
  // Properties

  /** The characters of `s` that are not skipped, in order. */
  function Printable(s: string): (r: string)
    ensures forall k :: 0 <= k < |r| ==> !IsSkipped(r[k])
  {
    if s == [] then []
    else if IsSkipped(s[0]) then Printable(s[1..])
    else [s[0]] + Printable(s[1..])
  }

  /** Without markers, decompression only drops the skipped characters. */
  lemma {:induction false} DecompressWithoutMarkers(s: string)
    requires '(' !in s
    ensures Decompress(s) == Success(Printable(s))
    decreases |s|
  {
    if s != [] {
      assert '(' !in s[1..];
      DecompressWithoutMarkers(s[1..]);
    }
  }

  /** Text with neither markers nor skipped characters comes back unchanged. */
  lemma PlainTextUnchanged(s: string)
    requires '(' !in s && forall k :: 0 <= k < |s| ==> !IsSkipped(s[k])
    ensures Decompress(s) == Success(s)
  {
    DecompressWithoutMarkers(s);
    PrintableOfPrintable(s);
  }

  lemma {:induction false} PrintableOfPrintable(s: string)
    requires forall k :: 0 <= k < |s| ==> !IsSkipped(s[k])
    ensures Printable(s) == s
  {
    if s != [] {
      PrintableOfPrintable(s[1..]);
    }
  }

  /** The text of the marker `(WxC)`. */
  function MarkerText(width: nat, count: nat): (t: string)
    ensures |t| > 0 && t[0] == '('
  {
    "(" + NatToString(width) + "x" + NatToString(count) + ")"
  }

  lemma NoSeparatorInDigits(s: string, c: char)
    requires AllDigits(s) && !IsDigit(c)
    ensures c !in s
  {
  }

  /** The fields of the marker text `WxC` parse back to `W` and `C`. */
  lemma MarkerFields(width: nat, count: nat)
    requires width < USIZE_LIMIT && count < USIZE_LIMIT
    ensures ParseFields(Split(NatToString(width) + "x" + NatToString(count), 'x')) == Success([width, count])
  {
    var w := NatToString(width);
    var c := NatToString(count);
    NoSeparatorInDigits(w, 'x');
    NoSeparatorInDigits(c, 'x');
    SplitAround(w, c, 'x');
    assert w + "x" + c == w + ['x'] + c;
    ParseNatToString(width, USIZE_LIMIT);
    ParseNatToString(count, USIZE_LIMIT);
    ParseTwoFields(w, c, width, count);
  }

  lemma ParseTwoFields(w: string, c: string, width: nat, count: nat)
    requires ParseUnsigned(w, USIZE_LIMIT) == Some(width) && ParseUnsigned(c, USIZE_LIMIT) == Some(count)
    ensures ParseFields([w, c]) == Success([width, count])
  {
    assert Need(ParseUnsigned(c, USIZE_LIMIT), "marker field is not a number") == Success(count);
    assert Need(ParseUnsigned(w, USIZE_LIMIT), "marker field is not a number") == Success(width);
    assert [c][1..] == [];
    assert ParseFields([]) == Success([]);
    assert [c][0] == c && [count] + [] == [count];
    assert ParseFields([c]) == Success([count]);
    assert [w, c][0] == w && [w, c][1..] == [c];
    assert [width] + [count] == [width, count];
  }

  /** The first `)` after the marker text is its own. */
  lemma MarkerClose(width: nat, count: nat, tail: string)
    ensures var t := MarkerText(width, count);
            IndexOf(t + tail, ')') == |t| - 1
            && (t + tail)[1..|t| - 1] == NatToString(width) + "x" + NatToString(count)
  {
    var w := NatToString(width);
    var c := NatToString(count);
    var t := MarkerText(width, count);
    var s := t + tail;
    var close := |t| - 1;
    assert s[..close] == "(" + w + "x" + c;
    NoSeparatorInDigits(w, ')');
    NoSeparatorInDigits(c, ')');
    IndexOfFirst(s, ')', close);
    assert s[1..close] == w + "x" + c;
  }

  /** The marker text `(WxC)` reads back as width `W` and count `C`, with
      the block right after the `)`, whenever the block fits. */
  lemma ReadMarkerText(width: nat, count: nat, tail: string)
    requires width < USIZE_LIMIT && count < USIZE_LIMIT && width <= |tail|
    ensures var t := MarkerText(width, count);
            ReadMarker(t + tail) == Success(Marker(width, count, |t|))
  {
    var t := MarkerText(width, count);
    var s := t + tail;
    var close := |t| - 1;
    MarkerClose(width, count, tail);
    MarkerFields(width, count);
    assert IndexOf(s, ')') == close;
    assert ParseFields(Split(s[1..close], 'x')) == Success([width, count]);
    ReadMarkerWhen(s, close, width, count);
  }

  /** A marker whose `)` is at `close`, whose fields read as `width` and
      `count`, and whose block fits. */
  lemma ReadMarkerWhen(s: string, close: nat, width: nat, count: nat)
    requires |s| > 0 && s[0] == '(' && close < |s| && IndexOf(s, ')') == close
    requires ParseFields(Split(s[1..close], 'x')) == Success([width, count])
    requires close + 1 + width <= |s|
    ensures ReadMarker(s) == Success(Marker(width, count, close + 1))
  {
    var values := [width, count];
    assert |values| == 2 && values[0] == width && values[1] == count;
    assert close != |s|;
  }

  /** A marker `(WxC)` followed by a `W`-character block writes the block
      `C` times and resumes after it: the block is copied as it is, so
      markers inside it are not expanded. */
  lemma DecompressMarker(width: nat, count: nat, block: string, rest: string)
    requires width < USIZE_LIMIT && count < USIZE_LIMIT && |block| == width
    ensures var s := MarkerText(width, count) + block + rest;
            Decompress(s) == (match Decompress(rest)
                              case Success(tail) => Success(Repeat(block, count) + tail)
                              case Failure(e) => Failure(e))
  {
    var t := MarkerText(width, count);
    var s := t + block + rest;
    assert s == t + (block + rest);
    ReadMarkerText(width, count, block + rest);
    assert s[|t|..|t| + width] == block;
    assert s[|t| + width..] == rest;
  }

  /** A `(` with no `)` anywhere after it is an error. */
  lemma UnclosedMarkerFails(s: string)
    requires |s| > 0 && s[0] == '(' && ')' !in s
    ensures Decompress(s).Failure? && DecompressedSize(s).Failure?
  {
    IndexOfAbsent(s, ')');
  }

  /** `simulate_decompress_v2` is the length of the full expansion when it
      succeeds, and fails when the expansion fails or does not fit a
      `usize`. */
  lemma {:induction false} SizeIsExpandedLength(s: string)
    ensures SizeMatches(s)
    decreases |s|
  {
    if s == [] {
    } else if s[0] == '(' {
      var m := ReadMarker(s);
      if m.Success? {
        var mk := m.value;
        SizeIsExpandedLength(s[mk.blockStart..mk.blockStart + mk.width]);
        SizeIsExpandedLength(s[mk.blockStart + mk.width..]);
        SizeMatchesAtMarker(s, mk);
      } else {
        assert Expand(s).Failure? && DecompressedSize(s).Failure?;
      }
    } else {
      SizeIsExpandedLength(s[1..]);
      assert Expand(s).Success? ==> Expand(s).value == Expand(s[1..]).value
                                     || Expand(s).value == [s[0]] + Expand(s[1..]).value;
    }
  }

  /** A size computed for `s` is the length of its full expansion, which
      then fits a `usize`; a failing expansion, or one of 2^64 characters
      or more, has no size. */
  ghost predicate SizeMatches(s: string) {
    (DecompressedSize(s).Success? ==>
       Expand(s).Success? && DecompressedSize(s).value == |Expand(s).value| < USIZE_LIMIT)
    && (Expand(s).Failure? ==> DecompressedSize(s).Failure?)
    && (Expand(s).Success? && |Expand(s).value| >= USIZE_LIMIT ==> DecompressedSize(s).Failure?)
  }

  /** At a marker, the size matches when it matches for the block and for
      the text after it. */
  lemma SizeMatchesAtMarker(s: string, mk: Marker)
    requires s != [] && s[0] == '(' && ReadMarker(s) == Success(mk)
    requires SizeMatches(s[mk.blockStart..mk.blockStart + mk.width])
    requires SizeMatches(s[mk.blockStart + mk.width..])
    ensures SizeMatches(s)
  {
    var inner := s[mk.blockStart..mk.blockStart + mk.width];
    var after := s[mk.blockStart + mk.width..];
    SizeAtOpen(s, mk);
    if Expand(inner).Success? && Expand(after).Success? {
      var block, rest := Expand(inner).value, Expand(after).value;
      ExpandAtMarker(s, mk, inner, after, block, rest);
      if DecompressedSize(inner).Success? && DecompressedSize(after).Success? {
        SizeAtMarker(s, mk, inner, after, |block|, |rest|);
      } else {
        SizeFailsAtMarker(s, mk, inner, after);
      }
    } else {
      ExpandFailsAtMarker(s, mk, inner, after);
      SizeFailsAtMarker(s, mk, inner, after);
    }
  }

  lemma ExpandAtMarker(s: string, mk: Marker, inner: string, after: string, block: string, rest: string)
    requires s != [] && s[0] == '(' && ReadMarker(s) == Success(mk)
    requires inner == s[mk.blockStart..mk.blockStart + mk.width] && after == s[mk.blockStart + mk.width..]
    requires Expand(inner) == Success(block) && Expand(after) == Success(rest)
    ensures Expand(s) == Success(Repeat(block, mk.count) + rest)
  {
  }

  lemma SizeAtMarker(s: string, mk: Marker, inner: string, after: string, block: nat, rest: nat)
    requires s != [] && s[0] == '(' && ReadMarker(s) == Success(mk)
    requires inner == s[mk.blockStart..mk.blockStart + mk.width] && after == s[mk.blockStart + mk.width..]
    requires DecompressedSize(inner) == Success(block) && DecompressedSize(after) == Success(rest)
    ensures MarkerSize(s, mk) == MarkerTotal(mk.count, block, rest)
  {
  }

  /** At a marker, the size is the marker's size. */
  lemma SizeAtOpen(s: string, mk: Marker)
    requires s != [] && s[0] == '(' && ReadMarker(s) == Success(mk)
    ensures DecompressedSize(s) == MarkerSize(s, mk)
  {
  }

  lemma ExpandFailsAtMarker(s: string, mk: Marker, inner: string, after: string)
    requires s != [] && s[0] == '(' && ReadMarker(s) == Success(mk)
    requires inner == s[mk.blockStart..mk.blockStart + mk.width] && after == s[mk.blockStart + mk.width..]
    requires Expand(inner).Failure? || Expand(after).Failure?
    ensures Expand(s).Failure?
  {
    if Expand(inner).Failure? {
      ExpandFailsInside(s, mk, inner, Expand(inner).error);
    } else {
      ExpandFailsAfter(s, mk, inner, after, Expand(inner).value, Expand(after).error);
    }
  }

  lemma ExpandFailsInside(s: string, mk: Marker, inner: string, e: string)
    requires s != [] && s[0] == '(' && ReadMarker(s) == Success(mk)
    requires inner == s[mk.blockStart..mk.blockStart + mk.width] && Expand(inner) == Failure(e)
    ensures Expand(s) == Failure(e)
  {
  }

  lemma ExpandFailsAfter(s: string, mk: Marker, inner: string, after: string, block: string, e: string)
    requires s != [] && s[0] == '(' && ReadMarker(s) == Success(mk)
    requires inner == s[mk.blockStart..mk.blockStart + mk.width] && after == s[mk.blockStart + mk.width..]
    requires Expand(inner) == Success(block) && Expand(after) == Failure(e)
    ensures Expand(s) == Failure(e)
  {
  }

  lemma SizeFailsAtMarker(s: string, mk: Marker, inner: string, after: string)
    requires s != [] && s[0] == '(' && ReadMarker(s) == Success(mk)
    requires inner == s[mk.blockStart..mk.blockStart + mk.width] && after == s[mk.blockStart + mk.width..]
    requires DecompressedSize(inner).Failure? || DecompressedSize(after).Failure?
    ensures DecompressedSize(s).Failure?
  {
    SizeAtOpen(s, mk);
    if DecompressedSize(inner).Failure? {
      SizeFailsInside(s, mk, inner, DecompressedSize(inner).error);
    } else {
      SizeFailsAfter(s, mk, inner, after, DecompressedSize(inner).value, DecompressedSize(after).error);
    }
  }

  lemma SizeFailsInside(s: string, mk: Marker, inner: string, e: string)
    requires s != [] && s[0] == '(' && ReadMarker(s) == Success(mk)
    requires inner == s[mk.blockStart..mk.blockStart + mk.width] && DecompressedSize(inner) == Failure(e)
    ensures MarkerSize(s, mk) == Failure(e)
  {
  }

  lemma SizeFailsAfter(s: string, mk: Marker, inner: string, after: string, block: nat, e: string)
    requires s != [] && s[0] == '(' && ReadMarker(s) == Success(mk)
    requires inner == s[mk.blockStart..mk.blockStart + mk.width] && after == s[mk.blockStart + mk.width..]
    requires DecompressedSize(inner) == Success(block) && DecompressedSize(after) == Failure(e)
    ensures MarkerSize(s, mk) == Failure(e)
  {
  }

  /** The first worked example: plain text comes back unchanged. */
  lemma PlainExample()
    ensures Decompress("ADVENT") == Success("ADVENT")
  {
    PlainTextUnchanged("ADVENT");
  }
}
