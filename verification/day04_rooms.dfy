/** Day 4: room names with checksums. A room is real when its stored
    checksum is the five most common letters of its name, more common
    letters first and ties broken alphabetically; its name is decrypted
    by a Caesar shift of the sector id. The regular expression that splits
    a line into name, sector id and checksum is not modelled: the three
    parts arrive already split. */
module RoomChecksum {
  import opened Wrappers
  import opened Text

  predicate IsLower(c: char) { 'a' <= c <= 'z' }

  /** Occurrences of `c` in `s`: the histogram entry of `c`. */
  function Count(s: string, c: char): (n: nat)
    ensures n == multiset(s)[c]
  {
    if s == [] then 0
    else
      assert s == [s[0]] + s[1..];
      (if s[0] == c then 1 else 0) + Count(s[1..], c)
  }

  /** The checksum order: more occurrences first, then the earlier letter. */
  predicate Ahead(s: string, a: char, b: char) {
    Count(s, a) > Count(s, b) || (Count(s, a) == Count(s, b) && a < b)
  }

  /** Two different letters are always ordered one way or the other, and
      never both ways. */
  lemma AheadTotal(s: string, a: char, b: char)
    ensures a != b ==> Ahead(s, a, b) || Ahead(s, b, a)
    ensures !(Ahead(s, a, b) && Ahead(s, b, a))
    ensures !Ahead(s, a, a)
  {
  }

  predicate Ranked(s: string, t: seq<char>) {
    forall i, j :: 0 <= i < j < |t| ==> Ahead(s, t[i], t[j])
  }

  predicate Distinct(t: seq<char>) {
    forall i, j :: 0 <= i < j < |t| ==> t[i] != t[j]
  }

  /** The `k`-th letter of the alphabet. */
  function Letter(k: nat): (c: char)
    requires k < 26
    ensures IsLower(c) && c as int == 'a' as int + k
  {
    ('a' as int + k) as char
  }

  /** `r` lists, in increasing order, exactly the letters from the `k`-th
      on that occur in `s`. */
  ghost predicate LettersAbove(s: string, k: nat, r: seq<char>) {
    (forall i :: 0 <= i < |r| ==> IsLower(r[i]) && Count(s, r[i]) > 0 && r[i] as int >= 'a' as int + k)
    && (forall i, j :: 0 <= i < j < |r| ==> r[i] < r[j])
    && (forall c :: IsLower(c) && c as int >= 'a' as int + k && Count(s, c) > 0 ==> c in r)
  }

  /** The letters from the `k`-th on that occur in `s`, alphabetically. */
  function LettersFrom(s: string, k: nat): (r: seq<char>)
    requires k <= 26
    ensures LettersAbove(s, k, r)
    decreases 26 - k
  {
    if k == 26 then []
    else
      var rest := LettersFrom(s, k + 1);
      LettersAboveStep(s, k, rest);
      if Count(s, Letter(k)) > 0 then [Letter(k)] + rest else rest
  }

  /** Adding the `k`-th letter in front when it occurs. */
  lemma LettersAboveStep(s: string, k: nat, rest: seq<char>)
    requires k < 26 && LettersAbove(s, k + 1, rest)
    ensures LettersAbove(s, k, if Count(s, Letter(k)) > 0 then [Letter(k)] + rest else rest)
  {
    var l := Letter(k);
    forall c | IsLower(c) && c as int >= 'a' as int + k && Count(s, c) > 0 && c != l
      ensures c in rest
    {
      assert c as int >= 'a' as int + k + 1;
    }
    if Count(s, l) > 0 {
      var r := [l] + rest;
      forall i | 0 <= i < |r|
        ensures IsLower(r[i]) && Count(s, r[i]) > 0 && r[i] as int >= 'a' as int + k
      {
        if i > 0 {
          assert r[i] == rest[i - 1];
        }
      }
      forall i, j | 0 <= i < j < |r|
        ensures r[i] < r[j]
      {
        assert r[j] == rest[j - 1];
        if i > 0 {
          assert r[i] == rest[i - 1];
        }
      }
    }
  }

  /** The keys of the histogram: every lower-case letter of `s`, once. */
  function Letters(s: string): (r: seq<char>)
    ensures forall c :: c in r <==> IsLower(c) && Count(s, c) > 0
    ensures Distinct(r)
  {
    LettersFrom(s, 0)
  }

  /** Inserting a letter before the first letter it is ahead of. */
  function Insert(s: string, c: char, t: seq<char>): (u: seq<char>)
    ensures multiset(u) == multiset(t) + multiset{c}
  {
    if t == [] then [c]
    else if Ahead(s, c, t[0]) then [c] + t
    else
      assert t == [t[0]] + t[1..];
      [t[0]] + Insert(s, c, t[1..])
  }

  /** Insertion keeps a sequence ranked. */
  lemma {:induction false} InsertRanked(s: string, c: char, t: seq<char>)
    requires Ranked(s, t) && c !in t
    ensures Ranked(s, Insert(s, c, t))
  {
    if t != [] && !Ahead(s, c, t[0]) {
      AheadTotal(s, c, t[0]);
      InsertRanked(s, c, t[1..]);
      var rest := Insert(s, c, t[1..]);
      forall j | 0 <= j < |rest|
        ensures Ahead(s, t[0], rest[j])
      {
        assert rest[j] in multiset(t[1..]) + multiset{c};
        if rest[j] != c {
          var k :| 0 <= k < |t[1..]| && t[1..][k] == rest[j];
          assert t[k + 1] == rest[j];
        }
      }
    }
  }

  /** `sort_by` on the histogram: letters in checksum order. */
  function Rank(s: string, t: seq<char>): (u: seq<char>)
    ensures multiset(u) == multiset(t)
  {
    if t == [] then []
    else
      assert t == [t[0]] + t[1..];
      Insert(s, t[0], Rank(s, t[1..]))
  }

  /** Ranking distinct letters puts them in checksum order. */
  lemma {:induction false} RankRanked(s: string, t: seq<char>)
    requires Distinct(t)
    ensures Ranked(s, Rank(s, t))
  {
    if t != [] {
      assert t == [t[0]] + t[1..];
      RankRanked(s, t[1..]);
      assert t[0] !in multiset(Rank(s, t[1..]));
      InsertRanked(s, t[0], Rank(s, t[1..]));
    }
  }

  function Min(a: nat, b: nat): nat { if a <= b then a else b }

  /** Every letter of `t` occurs in `s`. */
  predicate FromName(s: string, t: string) {
    forall i :: 0 <= i < |t| ==> IsLower(t[i]) && Count(s, t[i]) > 0
  }

  /** Every letter of `s` that `t` leaves out ranks behind all of `t`. */
  ghost predicate Maximal(s: string, t: string) {
    forall x :: IsLower(x) && Count(s, x) > 0 && x !in t ==> forall i :: 0 <= i < |t| ==> Ahead(s, t[i], x)
  }

  /** What a correct checksum of `s` is: up to five letters of `s`, ranked,
      and ahead of every letter of `s` they leave out. */
  ghost predicate IsChecksum(s: string, t: string) {
    |t| == Min(5, |Letters(s)|) && FromName(s, t) && Ranked(s, t) && Maximal(s, t)
  }

  lemma RankedDistinct(s: string, t: seq<char>)
    requires Ranked(s, t)
    ensures Distinct(t)
  {
    forall i, j | 0 <= i < j < |t|
      ensures t[i] != t[j]
    {
      AheadTotal(s, t[i], t[j]);
    }
  }

  /** The first five letters of a ranked arrangement of every letter of
      `s` meet the checksum rule. */
  lemma TopFive(s: string, r: seq<char>)
    requires multiset(r) == multiset(Letters(s)) && Ranked(s, r)
    ensures IsChecksum(s, if |r| <= 5 then r else r[..5])
  {
    var c := if |r| <= 5 then r else r[..5];
    assert |r| == |Letters(s)| by {
      assert |multiset(r)| == |multiset(Letters(s))|;
    }
    TopFiveFromName(s, r, c);
    TopFiveMaximal(s, r, c);
  }

  lemma TopFiveFromName(s: string, r: seq<char>, c: string)
    requires multiset(r) == multiset(Letters(s)) && c <= r
    ensures FromName(s, c)
  {
    forall i | 0 <= i < |c|
      ensures IsLower(c[i]) && Count(s, c[i]) > 0
    {
      assert c[i] == r[i];
      assert r[i] in multiset(Letters(s));
    }
  }

  lemma TopFiveMaximal(s: string, r: seq<char>, c: string)
    requires multiset(r) == multiset(Letters(s)) && Ranked(s, r) && c <= r
    ensures Maximal(s, c)
  {
    forall x | IsLower(x) && Count(s, x) > 0 && x !in c
      ensures forall i :: 0 <= i < |c| ==> Ahead(s, c[i], x)
    {
      assert x in multiset(r);
      var k :| 0 <= k < |r| && r[k] == x;
      assert k >= |c|;
    }
  }

  /** `compute_checksum`: the first five letters of the ranked histogram. */
  function ComputeChecksum(s: string): (c: string)
    ensures IsChecksum(s, c)
  {
    var r := Rank(s, Letters(s));
    RankRanked(s, Letters(s));
    TopFive(s, r);
    if |r| <= 5 then r else r[..5]
  }

  /** Where a correct checksum `t` first differs from a ranked arrangement
      `c` of letters of `s`, the letter of `t` is ahead. */
  lemma AheadAtDifference(s: string, t: string, c: string, k: nat)
    requires IsChecksum(s, t) && Distinct(c)
    requires k < |t| && k < |c| && t[..k] == c[..k] && t[k] != c[k]
    requires IsLower(c[k]) && Count(s, c[k]) > 0
    ensures Ahead(s, t[k], c[k])
  {
    forall m | 0 <= m < k
      ensures t[m] == c[m]
    {
      assert t[..k][m] == c[..k][m];
    }
  }

  /** Two correct checksums that agree before position `k` agree at `k`. */
  lemma ChecksumAgreeAt(s: string, t: string, c: string, k: nat)
    requires IsChecksum(s, t) && IsChecksum(s, c) && k < |t| && t[..k] == c[..k]
    ensures t[k] == c[k]
  {
    RankedDistinct(s, t);
    RankedDistinct(s, c);
    if t[k] != c[k] {
      AheadAtDifference(s, t, c, k);
      AheadAtDifference(s, c, t, k);
    }
  }

  /** Two strings of one length that agree at each position where their
      prefixes agree agree up to position `i`. */
  lemma {:induction false} AgreeUpTo(t: string, c: string, i: nat)
    requires |t| == |c| && i <= |t|
    requires forall k :: 0 <= k < |t| && t[..k] == c[..k] ==> t[k] == c[k]
    ensures t[..i] == c[..i]
    decreases i
  {
    if i > 0 {
      AgreeUpTo(t, c, i - 1);
      assert t[..i] == t[..i - 1] + [t[i - 1]];
      assert c[..i] == c[..i - 1] + [c[i - 1]];
    }
  }

  /** The checksum is the only string meeting the checksum rule. */
  lemma ChecksumUnique(s: string, t: string)
    ensures IsChecksum(s, t) <==> t == ComputeChecksum(s)
  {
    if IsChecksum(s, t) {
      var c := ComputeChecksum(s);
      forall k | 0 <= k < |t| && t[..k] == c[..k]
        ensures t[k] == c[k]
      {
        ChecksumAgreeAt(s, t, c, k);
      }
      AgreeUpTo(t, c, |t|);
      assert t == t[..|t|] && c == c[..|c|];
    }
  }

  /** `verify_checksum`: the sector id of a real room, nothing otherwise. */
  function VerifyChecksum(name: string, sectorId: int, stored: string): (r: Option<int>)
    ensures r == Some(sectorId) <==> IsChecksum(name, stored)
    ensures r.None? <==> !IsChecksum(name, stored)
  {
    ChecksumUnique(name, stored);
    if ComputeChecksum(name) == stored then Some(sectorId) else None
  }

  /** Multiplication by a positive number keeps a non-zero factor away
      from zero by at least that number. */
  lemma MulSign(n: int, d: int)
    requires n > 0
    ensures d >= 1 ==> n * d >= n
    ensures d <= -1 ==> n * d <= -n
  {
  }

  /** A multiple of `n` leaves no remainder. */
  lemma MultipleMod(n: int, k: int)
    requires n > 0
    ensures (n * k) % n == 0
  {
    var x := n * k;
    assert x == n * (x / n) + x % n;
    assert n * (k - x / n) == x % n;
    MulSign(n, k - x / n);
  }

  /** Taking the remainder of `b` back off `-b` leaves a multiple of `n`. */
  lemma NegRem(b: int, n: int)
    requires n > 0 && b > 0
    ensures (-b + b % n) % n == 0
  {
    var q := b / n;
    assert b == n * q + b % n;
    assert -b + b % n == n * -q;
    MultipleMod(n, -q);
  }

  /** Rust's `%` on `i32`: the remainder takes the sign of the dividend. */
  function TruncRem(a: int, n: nat): (r: int)
    requires n > 0
    ensures -(n as int) < r < n
    ensures (a - r) % n == 0
    ensures a >= 0 ==> r == a % n
    ensures a < 0 ==> r <= 0
  {
    if a >= 0 then
      MultipleMod(n, a / n);
      a % n
    else
      NegRem(-a, n);
      -((-a) % n)
  }

  /** `shift_char`: the alphabet offset of `c` plus `shift`, reduced mod 26
      with Rust's remainder, back from `'a'`. The sum is computed in
      `i32`, so it overflows for a shift near the top of the range. The
      reduced code always lies between `'a' - 25` and `'z'`, so the
      conversion back to a character always succeeds. */
  function ShiftChar(c: char, shift: int): (r: Result<char>)
    requires I32_MIN <= shift <= I32_MAX
    ensures r.Failure? <==> !(I32_MIN <= c as int - 'a' as int + shift <= I32_MAX)
    ensures r.Success? && IsLower(c) && shift >= 0 ==>
              IsLower(r.value) && r.value as int - 'a' as int == (c as int - 'a' as int + shift) % 26
  {
    var v := c as int - 'a' as int + shift;
    if v < I32_MIN || v > I32_MAX then Failure("attempt to add with overflow")
    else Success((TruncRem(v, 26) + 'a' as int) as char)
  }

  /** Shifting a letter by `k` and then by the rest of the alphabet gives
      the letter back. */
  lemma ShiftCharBack(c: char, k: int)
    requires IsLower(c) && 0 <= k <= I32_MAX - 25
    ensures ShiftChar(c, k).Success?
    ensures ShiftChar(ShiftChar(c, k).value, 26 - k % 26) == Success(c)
  {
    var x: nat := c as int - 'a' as int;
    var q := k % 26;
    var d := ShiftChar(c, k).value;
    ModOfSum(x, k, 26);
    assert d as int - 'a' as int == (x + q) % 26;
    var back := d as int - 'a' as int + (26 - q);
    if x + q < 26 {
      ModBelow(x + q, 26);
      ModOnce(back, 26);
    } else {
      ModOnce(x + q, 26);
      ModBelow(back, 26);
    }
  }

  /** `decrypt`: dashes become spaces, every other character is shifted by
      the sector id. */
  function Decrypt(name: string, shift: int): (r: Result<string>)
    requires I32_MIN <= shift <= I32_MAX
    ensures r.Success? ==> |r.value| == |name|
    ensures r.Success? ==> forall i :: 0 <= i < |name| ==>
              if name[i] == '-' then r.value[i] == ' ' else ShiftChar(name[i], shift) == Success(r.value[i])
    ensures r.Failure? <==> exists i :: 0 <= i < |name| && name[i] != '-' && ShiftChar(name[i], shift).Failure?
  {
    if name == [] then Success([])
    else
      var head: Result<char> := if name[0] == '-' then Success(' ') else ShiftChar(name[0], shift);
      var tail := Decrypt(name[1..], shift);
      if head.Failure? then Failure(head.error)
      else if tail.Failure? then
        var i :| 0 <= i < |name[1..]| && name[1..][i] != '-' && ShiftChar(name[1..][i], shift).Failure?;
        assert name[i + 1] == name[1..][i];
        Failure(tail.error)
      else
        assert forall i :: 1 <= i < |name| ==> name[i] == name[1..][i - 1];
        Success([head.value] + tail.value)
  }

  /** Decrypting a dash-free lower-case name by `k` and then by the rest of
      the alphabet gives the name back. */
  lemma DecryptBack(name: string, k: int)
    requires forall i :: 0 <= i < |name| ==> IsLower(name[i])
    requires 0 <= k <= I32_MAX - 25
    ensures Decrypt(name, k).Success?
    ensures Decrypt(Decrypt(name, k).value, 26 - k % 26) == Success(name)
  {
    forall i | 0 <= i < |name|
      ensures ShiftChar(name[i], k).Success?
    {
      ShiftCharBack(name[i], k);
    }
    var d := Decrypt(name, k).value;
    forall i | 0 <= i < |d|
      ensures d[i] != '-' && ShiftChar(d[i], 26 - k % 26) == Success(name[i])
    {
      ShiftCharBack(name[i], k);
    }
    var e := Decrypt(d, 26 - k % 26);
    assert e.Success?;
    assert e.value == name;
  }

  /** The elements of a sequence without repeats number its length. */
  lemma {:induction false} DistinctCard(t: seq<char>)
    requires Distinct(t)
    ensures |set c | c in t| == |t|
  {
    if t != [] {
      DistinctCard(t[1..]);
      assert (set c | c in t) == (set c | c in t[1..]) + {t[0]};
      assert t[0] !in t[1..];
    }
  }

  /** Any repeat-free list of exactly the letters of `s` is as long as the
      histogram. */
  lemma LettersLength(s: string, t: seq<char>)
    requires Distinct(t) && forall c :: c in t <==> IsLower(c) && Count(s, c) > 0
    ensures |Letters(s)| == |t|
  {
    assert (set c | c in t) == (set c | c in Letters(s));
    DistinctCard(t);
    DistinctCard(Letters(s));
  }

  lemma DecryptRun(name: string)
    requires |name| == 19 && name[0] == 'q' && name[1] == 'z' && name[2] == 'm' && name[3] == 't' && name[4] == '-' && name[5] == 'z' && name[6] == 'i' && name[7] == 'x' && name[8] == 'm' && name[9] == 't' && name[10] == 'k' && name[11] == 'o' && name[12] == 'z' && name[13] == 'y' && name[14] == '-' && name[15] == 'i' && name[16] == 'v' && name[17] == 'h' && name[18] == 'z'
    ensures Decrypt(name, 343) == Success("very encrypted name")
  {
    Shifts343();
    var r := Decrypt(name, 343);
    assert r.Success?;
    assert r.value == "very encrypted name";
  }

  /** The letters of the example shifted by 343. */
  lemma Shifts343()
    ensures ShiftChar('q', 343) == Success('v') && ShiftChar('z', 343) == Success('e')
    ensures ShiftChar('m', 343) == Success('r') && ShiftChar('t', 343) == Success('y')
    ensures ShiftChar('i', 343) == Success('n') && ShiftChar('x', 343) == Success('c')
    ensures ShiftChar('k', 343) == Success('p') && ShiftChar('o', 343) == Success('t')
    ensures ShiftChar('y', 343) == Success('d') && ShiftChar('v', 343) == Success('a')
    ensures ShiftChar('h', 343) == Success('m')
  {
  }

  /** The puzzle's decryption example. */
  lemma DecryptExample()
    ensures Decrypt("qzmt-zixmtkozy-ivhz", 343) == Success("very encrypted name")
  {
    DecryptRun("qzmt-zixmtkozy-ivhz");
  }

  /** The puzzle's decoy: its stored checksum names a letter the name
      lacks. The name is spelled out character by character. */
  lemma VerifyDecoyExample(s: string)
    requires |s| == 17 && s[0] == 't' && s[1] == 'o' && s[2] == 't' && s[3] == 'a' && s[4] == 'l' && s[5] == 'l' && s[6] == 'y' && s[7] == '-' && s[8] == 'r' && s[9] == 'e' && s[10] == 'a' && s[11] == 'l' && s[12] == '-' && s[13] == 'r' && s[14] == 'o' && s[15] == 'o' && s[16] == 'm'
    ensures VerifyChecksum(s, 200, "decoy") == None
  {
    forall i | 0 <= i < |s|
      ensures s[i] != 'd'
    {
      assert i == 0 || i == 1 || i == 2 || i == 3 || i == 4 || i == 5 || i == 6 || i == 7 || i == 8 || i == 9 || i == 10 || i == 11 || i == 12 || i == 13 || i == 14 || i == 15 || i == 16;
    }
    assert Count(s, 'd') == 0;
    var t := "decoy";
    assert t[0] == 'd' && Count(s, t[0]) == 0;
  }
}
