/** The small pieces of Rust's `str` API that the solvers lean on:
    `lines()`, `split(c)`, `split_whitespace()` and `parse()` of decimal
    integers. Strings are sequences of characters; every solver works on
    ASCII input, so one character stands for one byte. */
module Text {
  import opened Wrappers

  predicate IsDigit(c: char) { '0' <= c <= '9' }

  function DigitValue(c: char): nat
    requires IsDigit(c)
  {
    c as int - '0' as int
  }

  function DigitChar(d: nat): (c: char)
    requires d < 10
    ensures IsDigit(c) && DigitValue(c) == d
  {
    ('0' as int + d) as char
  }

  predicate AllDigits(s: string) {
    forall i :: 0 <= i < |s| ==> IsDigit(s[i])
  }

  /** Value of a string of decimal digits, most significant digit first. */
  function DigitsValue(s: string): nat
    requires AllDigits(s)
  {
    if s == [] then 0 else DigitsValue(s[..|s| - 1]) * 10 + DigitValue(s[|s| - 1])
  }

  /** Rust's `str::parse` for an unsigned integer type whose values lie
      below `limit`: an optional '+', then at least one digit and nothing
      else; a value at or above `limit` is an overflow error. */
  function ParseUnsigned(s: string, limit: nat): (r: Option<nat>)
    ensures r.Some? ==> r.value < limit
    ensures r.Some? ==> exists k :: 0 <= k <= 1 && |s| > k && AllDigits(s[k..])
  {
    var digits := if |s| > 0 && s[0] == '+' then s[1..] else s;
    if |digits| == 0 || !AllDigits(digits) then None
    else
      var v := DigitsValue(digits);
      if v < limit then
        assert |s| > |s| - |digits| && s[|s| - |digits|..] == digits;
        Some(v)
      else None
  }

  const U32_LIMIT: nat := 0x1_0000_0000
  const USIZE_LIMIT: nat := 0x1_0000_0000_0000_0000
  const I32_MIN: int := -0x8000_0000
  const I32_MAX: int := 0x7FFF_FFFF

  predicate IsI32(v: int) { I32_MIN <= v <= I32_MAX }

  /** `n as i32`: the low 32 bits of a non-negative number read as a
      signed number. */
  function AsI32(n: nat): (i: int)
    ensures IsI32(i)
    ensures n <= I32_MAX ==> i == n
    ensures (i - n) % 0x1_0000_0000 == 0
  {
    var low := n % 0x1_0000_0000;
    if low > I32_MAX then low - 0x1_0000_0000 else low
  }

  /** An `i32` operation as a debug build performs it: the exact value,
      or the overflow panic when it leaves the 32-bit signed range. */
  function CheckedI32(v: int): (r: Result<int>)
    ensures r.Success? <==> I32_MIN <= v <= I32_MAX
    ensures r.Success? ==> r.value == v
  {
    if I32_MIN <= v <= I32_MAX then Success(v) else Failure("attempt to compute with overflow")
  }

  /** Rust's `str::parse::<i32>`: an optional sign, then at least one
      digit; values outside the 32-bit signed range are errors. */
  function ParseI32(s: string): (r: Option<int>)
    ensures r.Some? ==> I32_MIN <= r.value <= I32_MAX
  {
    if |s| > 0 && s[0] == '-' then
      var digits := s[1..];
      if |digits| == 0 || !AllDigits(digits) then None
      else
        var v := -(DigitsValue(digits) as int);
        if I32_MIN <= v then Some(v) else None
    else
      match ParseUnsigned(s, I32_MAX + 1)
      case Some(v) => Some(v as int)
      case None => None
  }

  /** Decimal rendering of a natural number, as `format!("{}", n)` writes it. */
  function NatToString(n: nat): (s: string)
    ensures |s| > 0 && AllDigits(s)
  {
    if n < 10 then [DigitChar(n)] else NatToString(n / 10) + [DigitChar(n % 10)]
  }

  lemma {:induction false} DigitsOfNatToString(n: nat)
    ensures DigitsValue(NatToString(n)) == n
  {
    if n >= 10 {
      var s := NatToString(n);
      var prefix := NatToString(n / 10);
      assert s[..|s| - 1] == prefix;
      DigitsOfNatToString(n / 10);
    }
  }

  /** Parsing the rendering of a number gives the number back. */
  lemma ParseNatToString(n: nat, limit: nat)
    requires n < limit
    ensures ParseUnsigned(NatToString(n), limit) == Some(n)
  {
    DigitsOfNatToString(n);
  }

  function IndexOf(s: string, c: char): (i: nat)
    ensures i <= |s|
    ensures i < |s| ==> s[i] == c
    ensures forall k :: 0 <= k < i ==> s[k] != c
  {
    if s == [] then 0 else if s[0] == c then 0 else 1 + IndexOf(s[1..], c)
  }

  /** Rust's `str::split(c)`: the pieces between occurrences of `c`; there
      is always at least one piece, and joining them with `c` gives `s` back. */
  function Split(s: string, c: char): (pieces: seq<string>)
    ensures |pieces| >= 1
    ensures forall k :: 0 <= k < |pieces| ==> c !in pieces[k]
    decreases |s|
  {
    var i := IndexOf(s, c);
    if i == |s| then [s] else [s[..i]] + Split(s[i + 1..], c)
  }

  function Join(pieces: seq<string>, c: char): string
    requires |pieces| >= 1
  {
    if |pieces| == 1 then pieces[0] else pieces[0] + [c] + Join(pieces[1..], c)
  }

  lemma {:induction false} SplitJoin(s: string, c: char)
    ensures Join(Split(s, c), c) == s
    decreases |s|
  {
    var i := IndexOf(s, c);
    if i < |s| {
      var rest := Split(s[i + 1..], c);
      SplitJoin(s[i + 1..], c);
      var pieces := [s[..i]] + rest;
      assert Split(s, c) == pieces;
      assert pieces[1..] == rest;
      assert Join(pieces, c) == s[..i] + [c] + Join(rest, c);
      assert s == s[..i] + [c] + s[i + 1..];
    }
  }

  function StripCarriageReturn(line: string): string {
    if |line| > 0 && line[|line| - 1] == '\r' then line[..|line| - 1] else line
  }

  /** Rust's `str::lines()`: pieces ending at '\n' (a final line needs no
      terminator, and an empty final piece is not a line); each line loses
      one trailing '\r'. */
  function Lines(s: string): (lines: seq<string>)
    ensures forall k :: 0 <= k < |lines| ==> '\n' !in lines[k]
    ensures s == [] <==> lines == []
    decreases |s|
  {
    if s == [] then []
    else
      var i := IndexOf(s, '\n');
      var line := StripCarriageReturn(s[..i]);
      assert forall k :: 0 <= k < |line| ==> line[k] == s[k];
      if i == |s| then [line] else [line] + Lines(s[i + 1..])
  }

  /** Joining non-empty lines that hold no '\n' and do not end in '\r'
      with '\n' and reading them back with `lines()` gives the same lines. */
  lemma {:induction false} LinesOfJoin(pieces: seq<string>)
    requires |pieces| >= 1
    requires forall k :: 0 <= k < |pieces| ==> |pieces[k]| > 0 && '\n' !in pieces[k] && pieces[k][|pieces[k]| - 1] != '\r'
    ensures Lines(Join(pieces, '\n')) == pieces
  {
    var p := pieces[0];
    if |pieces| == 1 {
      IndexOfAbsent(p, '\n');
      assert p[..|p|] == p;
      assert StripCarriageReturn(p) == p;
    } else {
      var rest := Join(pieces[1..], '\n');
      var s := p + ['\n'] + rest;
      assert Join(pieces, '\n') == s;
      assert s[..|p|] == p;
      IndexOfFirst(s, '\n', |p|);
      assert StripCarriageReturn(p) == p;
      assert s[|p| + 1..] == rest;
      LinesOfJoin(pieces[1..]);
      assert pieces == [p] + pieces[1..];
    }
  }

  /** Rust's `char::is_whitespace`: the characters with the Unicode
      White_Space property. */
  predicate IsWhitespace(c: char) {
    ('\U{9}' <= c <= '\U{D}') || c == ' ' || c == '\U{85}' || c == '\U{A0}' || c == '\U{1680}'
    || ('\U{2000}' <= c <= '\U{200A}') || c == '\U{2028}' || c == '\U{2029}' || c == '\U{202F}'
    || c == '\U{205F}' || c == '\U{3000}'
  }

  function SkipWhitespace(s: string): (t: string)
    ensures |t| <= |s|
    ensures |t| > 0 ==> !IsWhitespace(t[0])
  {
    if |s| > 0 && IsWhitespace(s[0]) then SkipWhitespace(s[1..]) else s
  }

  function WordEnd(s: string): (i: nat)
    ensures i <= |s|
    ensures forall k :: 0 <= k < i ==> !IsWhitespace(s[k])
    ensures i < |s| ==> IsWhitespace(s[i])
  {
    if s == [] || IsWhitespace(s[0]) then 0 else 1 + WordEnd(s[1..])
  }

  /** Rust's `str::split_whitespace()` over the Unicode whitespace of
      `char::is_whitespace` (`IsWhitespace`): the maximal runs of
      non-whitespace characters, in order; never an empty word. */
  function SplitWhitespace(s: string): (words: seq<string>)
    ensures forall k :: 0 <= k < |words| ==> |words[k]| > 0
    decreases |s|
  {
    var t := SkipWhitespace(s);
    if t == [] then []
    else
      var i := WordEnd(t);
      assert i > 0;
      var rest := t[i..];
      assert |rest| == |t| - i < |s|;
      [t[..i]] + SplitWhitespace(rest)
  }

  /** Splitting at a separator that occurs exactly once gives the two sides. */
  lemma SplitAround(a: string, b: string, c: char)
    requires c !in a && c !in b
    ensures Split(a + [c] + b, c) == [a, b]
  {
    var s := a + [c] + b;
    assert s[..|a|] == a;
    assert IndexOf(s, c) == |a| by {
      assert s[|a|] == c;
      IndexOfFirst(s, c, |a|);
    }
    assert s[|a| + 1..] == b;
    IndexOfAbsent(b, c);
    assert Split(b, c) == [b];
  }

  /** A position holding `c` with no `c` before it is the first occurrence. */
  lemma IndexOfFirst(s: string, c: char, i: nat)
    requires i < |s| && s[i] == c && c !in s[..i]
    ensures IndexOf(s, c) == i
  {
    assert forall k :: 0 <= k < i ==> s[k] == s[..i][k];
  }

  lemma IndexOfAbsent(s: string, c: char)
    requires c !in s
    ensures IndexOf(s, c) == |s|
  {
  }

  /** Splitting at the first separator peels off the piece before it. */
  lemma SplitFirst(a: string, rest: string, c: char)
    requires c !in a
    ensures Split(a + [c] + rest, c) == [a] + Split(rest, c)
  {
    var s := a + [c] + rest;
    assert s[..|a|] == a;
    IndexOfFirst(s, c, |a|);
    assert s[|a| + 1..] == rest;
  }

  /** Decimal rendering of an integer, with a leading '-' when negative. */
  function IntToString(i: int): (s: string)
    ensures |s| > 0
  {
    if i < 0 then "-" + NatToString(-i) else NatToString(i)
  }

  /** Parsing the rendering of a 32-bit integer gives it back. */
  lemma ParseIntToString(i: int)
    requires I32_MIN <= i <= I32_MAX
    ensures ParseI32(IntToString(i)) == Some(i)
  {
    if i < 0 {
      var s := IntToString(i);
      assert s[1..] == NatToString(-i);
      DigitsOfNatToString(-i);
    } else {
      ParseNatToString(i, I32_MAX + 1);
      assert NatToString(i)[0] != '-';
    }
  }

  /** A remainder by a larger divisor is the number itself. */
  lemma ModBelow(a: nat, b: nat)
    requires a < b
    ensures a % b == a
  {
  }

  lemma ModOnce(a: nat, b: nat)
    requires b <= a < b + b
    ensures a % b == a - b
  {
  }

  /** The remainder is the only `r` in `[0, m)` that leaves a multiple of `m`. */
  lemma ModUnique(a: int, m: int, q: int, r: int)
    requires m > 0 && a == m * q + r && 0 <= r < m
    ensures a % m == r
  {
    var t := q - a / m;
    assert m * t == a % m - r;
  }

  /** Only the remainder of `k` matters when adding it mod `m`. */
  lemma ModOfSum(x: nat, k: nat, m: nat)
    requires m > 0
    ensures (x + k) % m == (x + k % m) % m
  {
    var sum := x + k % m;
    assert x + k == m * (k / m + sum / m) + sum % m;
    ModUnique(x + k, m, k / m + sum / m, sum % m);
  }
}
