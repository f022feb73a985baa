/** Day 7: IPv7 addresses. A "TLS" address has an ABBA outside brackets
    and none inside; an "SSL" address has an ABA outside brackets whose
    BAB appears inside. Both checks slide a fixed-width window over the
    address bytes and track whether the window is inside brackets with a
    single flag. Addresses are ASCII text, so one character is one byte. */
module Ipv7 {
  import opened Wrappers

  const OPEN: char := '['
  const CLOSE: char := ']'

  /** Whether the `width`-wide window at `i` holds the byte `ch`. */
  predicate Holds(b: string, i: nat, width: nat, ch: char)
    requires i + width <= |b|
  {
    width > 0 && (b[i + width - 1] == ch || Holds(b, i, width - 1, ch))
  }

  /** The bracket flag after a window: it is raised by an opening bracket
      and lowered by a closing one seen while raised. */
  function Bracket(inside: bool, hasStart: bool, hasEnd: bool): bool {
    (inside || hasStart) && !(inside && hasEnd)
  }

  /** The bracket flag after the window at `i` has been looked at. */
  function InsideAfter(b: string, width: nat, i: nat): bool
    requires i + width <= |b|
    decreases i, 1
  {
    Bracket(InsideBefore(b, width, i), Holds(b, i, width, OPEN), Holds(b, i, width, CLOSE))
  }

  /** The bracket flag before the window at `i`: down at the start. */
  function InsideBefore(b: string, width: nat, i: nat): bool
    requires i + width <= |b|
    decreases i, 0
  {
    if i == 0 then false else InsideAfter(b, width, i - 1)
  }

  // ---------------------------------------------------------------
  // valid_abba
  // ---------------------------------------------------------------

  /** The window at `i` reads `abba` with `a != b`. */
  predicate IsAbba(b: string, i: nat)
    requires i + 4 <= |b|
  {
    b[i] == b[i + 3] && b[i + 1] == b[i + 2] && b[i] != b[i + 1]
  }

  /** A four-wide window holding both brackets trips the solver's assertion. */
  predicate Clash(b: string, i: nat)
    requires i + 4 <= |b|
  {
    Holds(b, i, 4, OPEN) && Holds(b, i, 4, CLOSE)
  }

  /** An ABBA seen while the bracket flag is up. */
  predicate Hidden(b: string, i: nat)
    requires i + 4 <= |b|
  {
    IsAbba(b, i) && InsideAfter(b, 4, i)
  }

  /** The loop of `valid_abba` from window `i` on; `has` records an ABBA
      in an earlier window. */
  function AbbaFrom(b: string, i: nat, has: bool): Result<bool>
    requires 3 <= |b| && i <= |b| - 3
    decreases |b| - i
  {
    if i == |b| - 3 then Success(has)
    else if Clash(b, i) then Failure("assertion failed: !(has_start && has_end)")
    else if Hidden(b, i) then Success(false)
    else AbbaFrom(b, i + 1, has || IsAbba(b, i))
  }

  /** `valid_abba`: an address of fewer than 3 characters underflows the
      window count; one of exactly 3 has no window and is rejected. An
      address is accepted exactly when no window trips the assertion or
      shows an ABBA inside brackets and some window is an ABBA; it
      panics exactly when a window holds both brackets before any window
      has shown an ABBA inside brackets. */
  function ValidAbba(b: string): (r: Result<bool>)
    ensures r == Success(true) <==> 3 <= |b| && CleanFrom(b, 0) && SomeAbbaFrom(b, 0)
    ensures r.Failure? <==>
              |b| < 3 || exists k :: 0 <= k < |b| - 3 && Clash(b, k) && forall j :: 0 <= j < k ==> !Hidden(b, j)
  {
    if |b| < 3 then Failure("attempt to subtract with overflow")
    else
      AbbaFromAccepts(b, 0, false);
      AbbaFromFails(b, 0, false);
      AbbaFrom(b, 0, false)
  }

  /** Windows `i` up to the last cause neither the assertion nor an early
      rejection. */
  ghost predicate CleanFrom(b: string, i: nat)
    requires 3 <= |b|
  {
    forall j :: i <= j < |b| - 3 ==> !Clash(b, j) && !Hidden(b, j)
  }

  ghost predicate SomeAbbaFrom(b: string, i: nat)
    requires 3 <= |b|
  {
    exists j :: i <= j < |b| - 3 && IsAbba(b, j)
  }

  /** From window `i`, the loop accepts exactly when no later window clashes
      or hides an ABBA and some ABBA was or will be seen. */
  lemma {:induction false} AbbaFromAccepts(b: string, i: nat, has: bool)
    requires 3 <= |b| && i <= |b| - 3
    ensures AbbaFrom(b, i, has) == Success(true) <==> CleanFrom(b, i) && (has || SomeAbbaFrom(b, i))
    decreases |b| - i
  {
    if i < |b| - 3 && !Clash(b, i) && !Hidden(b, i) {
      AbbaFromAccepts(b, i + 1, has || IsAbba(b, i));
      if CleanFrom(b, i + 1) {
        assert CleanFrom(b, i);
      }
      if SomeAbbaFrom(b, i) && !IsAbba(b, i) {
        var j :| i <= j < |b| - 3 && IsAbba(b, j);
        assert SomeAbbaFrom(b, i + 1);
      }
    }
  }

  /** From window `i`, the assertion trips exactly when some window clashes
      before any window has hidden an ABBA. */
  lemma {:induction false} AbbaFromFails(b: string, i: nat, has: bool)
    requires 3 <= |b| && i <= |b| - 3
    ensures AbbaFrom(b, i, has).Failure? <==>
              exists k :: i <= k < |b| - 3 && Clash(b, k) && forall j :: i <= j < k ==> !Hidden(b, j)
    decreases |b| - i
  {
    if i < |b| - 3 && !Clash(b, i) && !Hidden(b, i) {
      AbbaFromFails(b, i + 1, has || IsAbba(b, i));
      if exists k :: i <= k < |b| - 3 && Clash(b, k) && forall j :: i <= j < k ==> !Hidden(b, j) {
        var k :| i <= k < |b| - 3 && Clash(b, k) && forall j :: i <= j < k ==> !Hidden(b, j);
        assert k != i;
        assert forall j :: i + 1 <= j < k ==> !Hidden(b, j);
      }
    } else if i < |b| - 3 && !Clash(b, i) {
      forall k | i <= k < |b| - 3 && Clash(b, k)
        ensures !(forall j :: i <= j < k ==> !Hidden(b, j))
      {
        assert k != i && Hidden(b, i);
      }
    }
  }

  /** The first window that hides an ABBA rejects the address, unless a
      clashing window came first. */
  lemma ValidAbbaRejectsHidden(b: string, k: nat)
    requires k + 4 <= |b| && Hidden(b, k)
    ensures ValidAbba(b) != Success(true)
  {
  }

  // ---------------------------------------------------------------
  // valid_ssl
  // ---------------------------------------------------------------

  /** The three bytes of the window at `i`. */
  function Window(b: string, i: nat): (w: string)
    requires i + 3 <= |b|
    ensures |w| == 3 && w[0] == b[i] && w[1] == b[i + 1] && w[2] == b[i + 2]
  {
    b[i..i + 3]
  }

  /** The window at `i` reads `xyx` with `x != y`. */
  predicate IsXyx(b: string, i: nat)
    requires i + 3 <= |b|
  {
    b[i] == b[i + 2] && b[i] != b[i + 1]
  }

  /** The pattern an `xyx` window pairs with: `yxy`. */
  function Inverse(b: string, i: nat): (w: string)
    requires i + 3 <= |b|
    ensures |w| == 3 && w[0] == w[2] == b[i + 1] && w[1] == b[i]
  {
    [b[i + 1], b[i], b[i + 1]]
  }

  /** Window `k` completes an ABA/BAB pair with an earlier window on the
      other side of the bracket flag. */
  ghost predicate ClosesPair(b: string, k: nat)
    requires k + 3 <= |b|
  {
    IsXyx(b, k) &&
    exists j :: 0 <= j < k && IsXyx(b, j) && InsideAfter(b, 3, j) != InsideAfter(b, 3, k)
                && Window(b, j) == Inverse(b, k)
  }

  /** The patterns collected before window `i` on one side of the flag. */
  ghost predicate Collected(b: string, i: nat, inside: bool, seen: set<string>)
    requires i + 2 <= |b|
  {
    forall t :: t in seen <==>
      exists j :: 0 <= j < i && IsXyx(b, j) && InsideAfter(b, 3, j) == inside && Window(b, j) == t
  }

  /** The loop of `valid_ssl` from window `i` on, with the ABA patterns seen
      outside brackets and the BAB patterns seen inside. */
  function SslFrom(b: string, i: nat, aba: set<string>, bab: set<string>): bool
    requires 2 <= |b| && i <= |b| - 2
    decreases |b| - i
  {
    if i == |b| - 2 then false
    else if IsXyx(b, i) then
      if InsideAfter(b, 3, i) then
        if Inverse(b, i) in aba then true
        else SslFrom(b, i + 1, aba, bab + {Window(b, i)})
      else
        if Inverse(b, i) in bab then true
        else SslFrom(b, i + 1, aba + {Window(b, i)}, bab)
    else SslFrom(b, i + 1, aba, bab)
  }

  /** `valid_ssl`: an address of fewer than 2 characters underflows the
      window count; a longer one is accepted exactly when some window
      closes an ABA/BAB pair. */
  function ValidSsl(b: string): (r: Result<bool>)
    ensures r.Failure? <==> |b| < 2
    ensures 2 <= |b| ==> r == Success(exists k :: 0 <= k < |b| - 2 && ClosesPair(b, k))
  {
    if |b| < 2 then Failure("attempt to subtract with overflow")
    else
      SslFromAccepts(b, 0, {}, {});
      Success(SslFrom(b, 0, {}, {}))
  }

  lemma CollectedStep(b: string, i: nat, inside: bool, seen: set<string>)
    requires i + 3 <= |b| && Collected(b, i, inside, seen)
    ensures IsXyx(b, i) && InsideAfter(b, 3, i) == inside ==> Collected(b, i + 1, inside, seen + {Window(b, i)})
    ensures !(IsXyx(b, i) && InsideAfter(b, 3, i) == inside) ==> Collected(b, i + 1, inside, seen)
  {
    var extra := IsXyx(b, i) && InsideAfter(b, 3, i) == inside;
    var next := if extra then seen + {Window(b, i)} else seen;
    forall t
      ensures t in next <==>
        exists j :: 0 <= j < i + 1 && IsXyx(b, j) && InsideAfter(b, 3, j) == inside && Window(b, j) == t
    {
      if t in seen {
        var j :| 0 <= j < i && IsXyx(b, j) && InsideAfter(b, 3, j) == inside && Window(b, j) == t;
        assert 0 <= j < i + 1;
      }
      if exists j :: 0 <= j < i + 1 && IsXyx(b, j) && InsideAfter(b, 3, j) == inside && Window(b, j) == t {
        var j :| 0 <= j < i + 1 && IsXyx(b, j) && InsideAfter(b, 3, j) == inside && Window(b, j) == t;
        if j < i {
          assert t in seen;
        }
      }
    }
  }

  /** The window at `i` closes a pair exactly when its inverse was
      collected on the other side. */
  lemma ClosesPairAt(b: string, i: nat, aba: set<string>, bab: set<string>)
    requires i + 3 <= |b| && Collected(b, i, false, aba) && Collected(b, i, true, bab)
    requires IsXyx(b, i)
    ensures ClosesPair(b, i) <==> Inverse(b, i) in (if InsideAfter(b, 3, i) then aba else bab)
  {
    var other := !InsideAfter(b, 3, i);
    var seen := if other then bab else aba;
    if Inverse(b, i) in seen {
      var j :| 0 <= j < i && IsXyx(b, j) && InsideAfter(b, 3, j) == other && Window(b, j) == Inverse(b, i);
      assert ClosesPair(b, i);
    }
  }

  /** From window `i`, the loop accepts exactly when some window from `i`
      on closes a pair. */
  lemma {:induction false} SslFromAccepts(b: string, i: nat, aba: set<string>, bab: set<string>)
    requires 2 <= |b| && i <= |b| - 2
    requires Collected(b, i, false, aba) && Collected(b, i, true, bab)
    ensures SslFrom(b, i, aba, bab) <==> exists k :: i <= k < |b| - 2 && ClosesPair(b, k)
    decreases |b| - i
  {
    if i < |b| - 2 {
      CollectedStep(b, i, false, aba);
      CollectedStep(b, i, true, bab);
      var aba', bab' := aba, bab;
      if IsXyx(b, i) {
        ClosesPairAt(b, i, aba, bab);
        if InsideAfter(b, 3, i) {
          bab' := bab + {Window(b, i)};
        } else {
          aba' := aba + {Window(b, i)};
        }
      }
      SslFromAccepts(b, i + 1, aba', bab');
      if exists k :: i <= k < |b| - 2 && ClosesPair(b, k) {
        var k :| i <= k < |b| - 2 && ClosesPair(b, k);
        if k != i {
          assert exists k :: i + 1 <= k < |b| - 2 && ClosesPair(b, k);
        }
      }
    }
  }

  /** The bytes a four-wide window holds, spelled out. */
  lemma HoldsFour(b: string, i: nat)
    requires i + 4 <= |b|
    ensures forall ch :: Holds(b, i, 4, ch) <==> b[i] == ch || b[i + 1] == ch || b[i + 2] == ch || b[i + 3] == ch
  {
    forall ch
      ensures Holds(b, i, 4, ch) <==> b[i] == ch || b[i + 1] == ch || b[i + 2] == ch || b[i + 3] == ch
    {
      HoldsThree(b, i);
    }
  }

  lemma AbbaRun1Part0(b: string)
    requires |b| == 14 && b[0] == 'a' && b[1] == 'b' && b[2] == 'b' && b[3] == 'a' && b[4] == '[' && b[5] == 'm' && b[6] == 'n' && b[7] == 'o' && b[8] == 'p' && b[9] == ']' && b[10] == 'q' && b[11] == 'r' && b[12] == 's' && b[13] == 't'
    ensures InsideAfter(b, 4, 3) == true
    ensures AbbaFrom(b, 0, false) == AbbaFrom(b, 4, true)
  {
    HoldsFour(b, 0);
    assert InsideAfter(b, 4, 0) == false;
    assert AbbaFrom(b, 0, false) == AbbaFrom(b, 1, true);
    HoldsFour(b, 1);
    assert InsideAfter(b, 4, 1) == true;
    assert AbbaFrom(b, 1, true) == AbbaFrom(b, 2, true);
    HoldsFour(b, 2);
    assert InsideAfter(b, 4, 2) == true;
    assert AbbaFrom(b, 2, true) == AbbaFrom(b, 3, true);
    HoldsFour(b, 3);
    assert InsideAfter(b, 4, 3) == true;
    assert AbbaFrom(b, 3, true) == AbbaFrom(b, 4, true);
  }

  lemma AbbaRun1Part1(b: string)
    requires |b| == 14 && b[0] == 'a' && b[1] == 'b' && b[2] == 'b' && b[3] == 'a' && b[4] == '[' && b[5] == 'm' && b[6] == 'n' && b[7] == 'o' && b[8] == 'p' && b[9] == ']' && b[10] == 'q' && b[11] == 'r' && b[12] == 's' && b[13] == 't'
    requires InsideAfter(b, 4, 3) == true
    ensures InsideAfter(b, 4, 7) == false
    ensures AbbaFrom(b, 4, true) == AbbaFrom(b, 8, true)
  {
    HoldsFour(b, 4);
    assert InsideAfter(b, 4, 4) == true;
    assert AbbaFrom(b, 4, true) == AbbaFrom(b, 5, true);
    HoldsFour(b, 5);
    assert InsideAfter(b, 4, 5) == true;
    assert AbbaFrom(b, 5, true) == AbbaFrom(b, 6, true);
    HoldsFour(b, 6);
    assert InsideAfter(b, 4, 6) == false;
    assert AbbaFrom(b, 6, true) == AbbaFrom(b, 7, true);
    HoldsFour(b, 7);
    assert InsideAfter(b, 4, 7) == false;
    assert AbbaFrom(b, 7, true) == AbbaFrom(b, 8, true);
  }

  lemma AbbaRun1Part2(b: string)
    requires |b| == 14 && b[0] == 'a' && b[1] == 'b' && b[2] == 'b' && b[3] == 'a' && b[4] == '[' && b[5] == 'm' && b[6] == 'n' && b[7] == 'o' && b[8] == 'p' && b[9] == ']' && b[10] == 'q' && b[11] == 'r' && b[12] == 's' && b[13] == 't'
    requires InsideAfter(b, 4, 7) == false
    ensures InsideAfter(b, 4, 10) == false
    ensures AbbaFrom(b, 8, true) == Success(true)
  {
    HoldsFour(b, 8);
    assert InsideAfter(b, 4, 8) == false;
    assert AbbaFrom(b, 8, true) == AbbaFrom(b, 9, true);
    HoldsFour(b, 9);
    assert InsideAfter(b, 4, 9) == false;
    assert AbbaFrom(b, 9, true) == AbbaFrom(b, 10, true);
    HoldsFour(b, 10);
    assert InsideAfter(b, 4, 10) == false;
    assert AbbaFrom(b, 10, true) == Success(true);
  }

  /** A verdict of the puzzle's TLS examples. */
  lemma AbbaExample1()
    ensures ValidAbba("abba[mnop]qrst") == Success(true)
  {
    var b := "abba[mnop]qrst";
    AbbaRun1Part0(b);
    AbbaRun1Part1(b);
    AbbaRun1Part2(b);
  }

  lemma AbbaRun2Part0(b: string)
    requires |b| == 14 && b[0] == 'a' && b[1] == 'b' && b[2] == 'c' && b[3] == 'd' && b[4] == '[' && b[5] == 'b' && b[6] == 'd' && b[7] == 'd' && b[8] == 'b' && b[9] == ']' && b[10] == 'x' && b[11] == 'y' && b[12] == 'y' && b[13] == 'x'
    ensures InsideAfter(b, 4, 3) == true
    ensures AbbaFrom(b, 0, false) == AbbaFrom(b, 4, false)
  {
    HoldsFour(b, 0);
    assert InsideAfter(b, 4, 0) == false;
    assert AbbaFrom(b, 0, false) == AbbaFrom(b, 1, false);
    HoldsFour(b, 1);
    assert InsideAfter(b, 4, 1) == true;
    assert AbbaFrom(b, 1, false) == AbbaFrom(b, 2, false);
    HoldsFour(b, 2);
    assert InsideAfter(b, 4, 2) == true;
    assert AbbaFrom(b, 2, false) == AbbaFrom(b, 3, false);
    HoldsFour(b, 3);
    assert InsideAfter(b, 4, 3) == true;
    assert AbbaFrom(b, 3, false) == AbbaFrom(b, 4, false);
  }

  lemma AbbaRun2Part1(b: string)
    requires |b| == 14 && b[0] == 'a' && b[1] == 'b' && b[2] == 'c' && b[3] == 'd' && b[4] == '[' && b[5] == 'b' && b[6] == 'd' && b[7] == 'd' && b[8] == 'b' && b[9] == ']' && b[10] == 'x' && b[11] == 'y' && b[12] == 'y' && b[13] == 'x'
    requires InsideAfter(b, 4, 3) == true
    ensures InsideAfter(b, 4, 5) == true
    ensures AbbaFrom(b, 4, false) == Success(false)
  {
    HoldsFour(b, 4);
    assert InsideAfter(b, 4, 4) == true;
    assert AbbaFrom(b, 4, false) == AbbaFrom(b, 5, false);
    HoldsFour(b, 5);
    assert InsideAfter(b, 4, 5) == true;
    assert AbbaFrom(b, 5, false) == Success(false);
  }

  /** A verdict of the puzzle's TLS examples. */
  lemma AbbaExample2()
    ensures ValidAbba("abcd[bddb]xyyx") == Success(false)
  {
    var b := "abcd[bddb]xyyx";
    AbbaRun2Part0(b);
    AbbaRun2Part1(b);
  }

  lemma AbbaRun3Part0(b: string)
    requires |b| == 14 && b[0] == 'a' && b[1] == 'a' && b[2] == 'a' && b[3] == 'a' && b[4] == '[' && b[5] == 'q' && b[6] == 'w' && b[7] == 'e' && b[8] == 'r' && b[9] == ']' && b[10] == 't' && b[11] == 'y' && b[12] == 'u' && b[13] == 'i'
    ensures InsideAfter(b, 4, 3) == true
    ensures AbbaFrom(b, 0, false) == AbbaFrom(b, 4, false)
  {
    HoldsFour(b, 0);
    assert InsideAfter(b, 4, 0) == false;
    assert AbbaFrom(b, 0, false) == AbbaFrom(b, 1, false);
    HoldsFour(b, 1);
    assert InsideAfter(b, 4, 1) == true;
    assert AbbaFrom(b, 1, false) == AbbaFrom(b, 2, false);
    HoldsFour(b, 2);
    assert InsideAfter(b, 4, 2) == true;
    assert AbbaFrom(b, 2, false) == AbbaFrom(b, 3, false);
    HoldsFour(b, 3);
    assert InsideAfter(b, 4, 3) == true;
    assert AbbaFrom(b, 3, false) == AbbaFrom(b, 4, false);
  }

  lemma AbbaRun3Part1(b: string)
    requires |b| == 14 && b[0] == 'a' && b[1] == 'a' && b[2] == 'a' && b[3] == 'a' && b[4] == '[' && b[5] == 'q' && b[6] == 'w' && b[7] == 'e' && b[8] == 'r' && b[9] == ']' && b[10] == 't' && b[11] == 'y' && b[12] == 'u' && b[13] == 'i'
    requires InsideAfter(b, 4, 3) == true
    ensures InsideAfter(b, 4, 7) == false
    ensures AbbaFrom(b, 4, false) == AbbaFrom(b, 8, false)
  {
    HoldsFour(b, 4);
    assert InsideAfter(b, 4, 4) == true;
    assert AbbaFrom(b, 4, false) == AbbaFrom(b, 5, false);
    HoldsFour(b, 5);
    assert InsideAfter(b, 4, 5) == true;
    assert AbbaFrom(b, 5, false) == AbbaFrom(b, 6, false);
    HoldsFour(b, 6);
    assert InsideAfter(b, 4, 6) == false;
    assert AbbaFrom(b, 6, false) == AbbaFrom(b, 7, false);
    HoldsFour(b, 7);
    assert InsideAfter(b, 4, 7) == false;
    assert AbbaFrom(b, 7, false) == AbbaFrom(b, 8, false);
  }

  lemma AbbaRun3Part2(b: string)
    requires |b| == 14 && b[0] == 'a' && b[1] == 'a' && b[2] == 'a' && b[3] == 'a' && b[4] == '[' && b[5] == 'q' && b[6] == 'w' && b[7] == 'e' && b[8] == 'r' && b[9] == ']' && b[10] == 't' && b[11] == 'y' && b[12] == 'u' && b[13] == 'i'
    requires InsideAfter(b, 4, 7) == false
    ensures InsideAfter(b, 4, 10) == false
    ensures AbbaFrom(b, 8, false) == Success(false)
  {
    HoldsFour(b, 8);
    assert InsideAfter(b, 4, 8) == false;
    assert AbbaFrom(b, 8, false) == AbbaFrom(b, 9, false);
    HoldsFour(b, 9);
    assert InsideAfter(b, 4, 9) == false;
    assert AbbaFrom(b, 9, false) == AbbaFrom(b, 10, false);
    HoldsFour(b, 10);
    assert InsideAfter(b, 4, 10) == false;
    assert AbbaFrom(b, 10, false) == Success(false);
  }

  /** A verdict of the puzzle's TLS examples. */
  lemma AbbaExample3()
    ensures ValidAbba("aaaa[qwer]tyui") == Success(false)
  {
    var b := "aaaa[qwer]tyui";
    AbbaRun3Part0(b);
    AbbaRun3Part1(b);
    AbbaRun3Part2(b);
  }

  lemma AbbaRun4Part0(b: string)
    requires |b| == 20 && b[0] == 'i' && b[1] == 'o' && b[2] == 'x' && b[3] == 'x' && b[4] == 'o' && b[5] == 'j' && b[6] == '[' && b[7] == 'a' && b[8] == 's' && b[9] == 'd' && b[10] == 'f' && b[11] == 'g' && b[12] == 'h' && b[13] == ']' && b[14] == 'z' && b[15] == 'x' && b[16] == 'c' && b[17] == 'v' && b[18] == 'b' && b[19] == 'n'
    ensures InsideAfter(b, 4, 3) == true
    ensures AbbaFrom(b, 0, false) == AbbaFrom(b, 4, true)
  {
    HoldsFour(b, 0);
    assert InsideAfter(b, 4, 0) == false;
    assert AbbaFrom(b, 0, false) == AbbaFrom(b, 1, false);
    HoldsFour(b, 1);
    assert InsideAfter(b, 4, 1) == false;
    assert AbbaFrom(b, 1, false) == AbbaFrom(b, 2, true);
    HoldsFour(b, 2);
    assert InsideAfter(b, 4, 2) == false;
    assert AbbaFrom(b, 2, true) == AbbaFrom(b, 3, true);
    HoldsFour(b, 3);
    assert InsideAfter(b, 4, 3) == true;
    assert AbbaFrom(b, 3, true) == AbbaFrom(b, 4, true);
  }

  lemma AbbaRun4Part1(b: string)
    requires |b| == 20 && b[0] == 'i' && b[1] == 'o' && b[2] == 'x' && b[3] == 'x' && b[4] == 'o' && b[5] == 'j' && b[6] == '[' && b[7] == 'a' && b[8] == 's' && b[9] == 'd' && b[10] == 'f' && b[11] == 'g' && b[12] == 'h' && b[13] == ']' && b[14] == 'z' && b[15] == 'x' && b[16] == 'c' && b[17] == 'v' && b[18] == 'b' && b[19] == 'n'
    requires InsideAfter(b, 4, 3) == true
    ensures InsideAfter(b, 4, 7) == true
    ensures AbbaFrom(b, 4, true) == AbbaFrom(b, 8, true)
  {
    HoldsFour(b, 4);
    assert InsideAfter(b, 4, 4) == true;
    assert AbbaFrom(b, 4, true) == AbbaFrom(b, 5, true);
    HoldsFour(b, 5);
    assert InsideAfter(b, 4, 5) == true;
    assert AbbaFrom(b, 5, true) == AbbaFrom(b, 6, true);
    HoldsFour(b, 6);
    assert InsideAfter(b, 4, 6) == true;
    assert AbbaFrom(b, 6, true) == AbbaFrom(b, 7, true);
    HoldsFour(b, 7);
    assert InsideAfter(b, 4, 7) == true;
    assert AbbaFrom(b, 7, true) == AbbaFrom(b, 8, true);
  }

  lemma AbbaRun4Part2(b: string)
    requires |b| == 20 && b[0] == 'i' && b[1] == 'o' && b[2] == 'x' && b[3] == 'x' && b[4] == 'o' && b[5] == 'j' && b[6] == '[' && b[7] == 'a' && b[8] == 's' && b[9] == 'd' && b[10] == 'f' && b[11] == 'g' && b[12] == 'h' && b[13] == ']' && b[14] == 'z' && b[15] == 'x' && b[16] == 'c' && b[17] == 'v' && b[18] == 'b' && b[19] == 'n'
    requires InsideAfter(b, 4, 7) == true
    ensures InsideAfter(b, 4, 11) == false
    ensures AbbaFrom(b, 8, true) == AbbaFrom(b, 12, true)
  {
    HoldsFour(b, 8);
    assert InsideAfter(b, 4, 8) == true;
    assert AbbaFrom(b, 8, true) == AbbaFrom(b, 9, true);
    HoldsFour(b, 9);
    assert InsideAfter(b, 4, 9) == true;
    assert AbbaFrom(b, 9, true) == AbbaFrom(b, 10, true);
    HoldsFour(b, 10);
    assert InsideAfter(b, 4, 10) == false;
    assert AbbaFrom(b, 10, true) == AbbaFrom(b, 11, true);
    HoldsFour(b, 11);
    assert InsideAfter(b, 4, 11) == false;
    assert AbbaFrom(b, 11, true) == AbbaFrom(b, 12, true);
  }

  lemma AbbaRun4Part3(b: string)
    requires |b| == 20 && b[0] == 'i' && b[1] == 'o' && b[2] == 'x' && b[3] == 'x' && b[4] == 'o' && b[5] == 'j' && b[6] == '[' && b[7] == 'a' && b[8] == 's' && b[9] == 'd' && b[10] == 'f' && b[11] == 'g' && b[12] == 'h' && b[13] == ']' && b[14] == 'z' && b[15] == 'x' && b[16] == 'c' && b[17] == 'v' && b[18] == 'b' && b[19] == 'n'
    requires InsideAfter(b, 4, 11) == false
    ensures InsideAfter(b, 4, 15) == false
    ensures AbbaFrom(b, 12, true) == AbbaFrom(b, 16, true)
  {
    HoldsFour(b, 12);
    assert InsideAfter(b, 4, 12) == false;
    assert AbbaFrom(b, 12, true) == AbbaFrom(b, 13, true);
    HoldsFour(b, 13);
    assert InsideAfter(b, 4, 13) == false;
    assert AbbaFrom(b, 13, true) == AbbaFrom(b, 14, true);
    HoldsFour(b, 14);
    assert InsideAfter(b, 4, 14) == false;
    assert AbbaFrom(b, 14, true) == AbbaFrom(b, 15, true);
    HoldsFour(b, 15);
    assert InsideAfter(b, 4, 15) == false;
    assert AbbaFrom(b, 15, true) == AbbaFrom(b, 16, true);
  }

  lemma AbbaRun4Part4(b: string)
    requires |b| == 20 && b[0] == 'i' && b[1] == 'o' && b[2] == 'x' && b[3] == 'x' && b[4] == 'o' && b[5] == 'j' && b[6] == '[' && b[7] == 'a' && b[8] == 's' && b[9] == 'd' && b[10] == 'f' && b[11] == 'g' && b[12] == 'h' && b[13] == ']' && b[14] == 'z' && b[15] == 'x' && b[16] == 'c' && b[17] == 'v' && b[18] == 'b' && b[19] == 'n'
    requires InsideAfter(b, 4, 15) == false
    ensures InsideAfter(b, 4, 16) == false
    ensures AbbaFrom(b, 16, true) == Success(true)
  {
    HoldsFour(b, 16);
    assert InsideAfter(b, 4, 16) == false;
    assert AbbaFrom(b, 16, true) == Success(true);
  }

  /** A verdict of the puzzle's TLS examples. */
  lemma AbbaExample4()
    ensures ValidAbba("ioxxoj[asdfgh]zxcvbn") == Success(true)
  {
    var b := "ioxxoj[asdfgh]zxcvbn";
    AbbaRun4Part0(b);
    AbbaRun4Part1(b);
    AbbaRun4Part2(b);
    AbbaRun4Part3(b);
    AbbaRun4Part4(b);
  }

  /** The bytes a three-wide window holds, spelled out. */
  lemma HoldsThree(b: string, i: nat)
    requires i + 3 <= |b|
    ensures forall ch :: Holds(b, i, 3, ch) <==> b[i] == ch || b[i + 1] == ch || b[i + 2] == ch
  {
    forall ch
      ensures Holds(b, i, 3, ch) <==> b[i] == ch || b[i + 1] == ch || b[i + 2] == ch
    {
      assert Holds(b, i, 1, ch) <==> b[i] == ch;
    }
  }

  lemma SslRun1(b: string)
    requires |b| == 11 && b[0] == 'a' && b[1] == 'b' && b[2] == 'a' && b[3] == '[' && b[4] == 'b' && b[5] == 'a' && b[6] == 'b' && b[7] == ']' && b[8] == 'x' && b[9] == 'y' && b[10] == 'z'
    ensures ClosesPair(b, 4)
  {
    HoldsThree(b, 0);
    assert InsideAfter(b, 3, 0) == false;
    HoldsThree(b, 1);
    assert InsideAfter(b, 3, 1) == true;
    HoldsThree(b, 2);
    assert InsideAfter(b, 3, 2) == true;
    HoldsThree(b, 3);
    assert InsideAfter(b, 3, 3) == true;
    HoldsThree(b, 4);
    assert InsideAfter(b, 3, 4) == true;
    assert IsXyx(b, 0) && Window(b, 0) == Inverse(b, 4);
  }

  /** A verdict of the puzzle's SSL examples. */
  lemma SslExample1()
    ensures ValidSsl("aba[bab]xyz") == Success(true)
  {
    var b := "aba[bab]xyz";
    SslRun1(b);
  }

  /** A verdict of the puzzle's SSL examples. */
  lemma SslExample2()
    ensures ValidSsl("xyx[xyx]xyx") == Success(false)
  {
  }

  lemma SslRun3(b: string)
    requires |b| == 11 && b[0] == 'a' && b[1] == 'a' && b[2] == 'a' && b[3] == '[' && b[4] == 'k' && b[5] == 'e' && b[6] == 'k' && b[7] == ']' && b[8] == 'e' && b[9] == 'k' && b[10] == 'e'
    ensures ClosesPair(b, 8)
  {
    HoldsThree(b, 0);
    assert InsideAfter(b, 3, 0) == false;
    HoldsThree(b, 1);
    assert InsideAfter(b, 3, 1) == true;
    HoldsThree(b, 2);
    assert InsideAfter(b, 3, 2) == true;
    HoldsThree(b, 3);
    assert InsideAfter(b, 3, 3) == true;
    HoldsThree(b, 4);
    assert InsideAfter(b, 3, 4) == true;
    HoldsThree(b, 5);
    assert InsideAfter(b, 3, 5) == false;
    HoldsThree(b, 6);
    assert InsideAfter(b, 3, 6) == false;
    HoldsThree(b, 7);
    assert InsideAfter(b, 3, 7) == false;
    HoldsThree(b, 8);
    assert InsideAfter(b, 3, 8) == false;
    assert IsXyx(b, 4) && Window(b, 4) == Inverse(b, 8);
  }

  /** A verdict of the puzzle's SSL examples. */
  lemma SslExample3()
    ensures ValidSsl("aaa[kek]eke") == Success(true)
  {
    var b := "aaa[kek]eke";
    SslRun3(b);
  }

  lemma SslRun4(b: string)
    requires |b| == 13 && b[0] == 'z' && b[1] == 'a' && b[2] == 'z' && b[3] == 'b' && b[4] == 'z' && b[5] == '[' && b[6] == 'b' && b[7] == 'z' && b[8] == 'b' && b[9] == ']' && b[10] == 'c' && b[11] == 'd' && b[12] == 'b'
    ensures ClosesPair(b, 6)
  {
    HoldsThree(b, 0);
    assert InsideAfter(b, 3, 0) == false;
    HoldsThree(b, 1);
    assert InsideAfter(b, 3, 1) == false;
    HoldsThree(b, 2);
    assert InsideAfter(b, 3, 2) == false;
    HoldsThree(b, 3);
    assert InsideAfter(b, 3, 3) == true;
    HoldsThree(b, 4);
    assert InsideAfter(b, 3, 4) == true;
    HoldsThree(b, 5);
    assert InsideAfter(b, 3, 5) == true;
    HoldsThree(b, 6);
    assert InsideAfter(b, 3, 6) == true;
    assert IsXyx(b, 2) && Window(b, 2) == Inverse(b, 6);
  }

  /** A verdict of the puzzle's SSL examples. */
  lemma SslExample4()
    ensures ValidSsl("zazbz[bzb]cdb") == Success(true)
  {
    var b := "zazbz[bzb]cdb";
    SslRun4(b);
  }
}
