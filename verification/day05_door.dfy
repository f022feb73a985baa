/** Day 5: a door password read from digests. The digest of the door id
    followed by each counter value is tested for five leading hex zeros;
    part 1 takes the sixth hex character of each such digest, part 2 reads
    the sixth as a slot position and the seventh as the character to put
    there. The digests themselves (MD5) are not part of this model: the
    solvers take the sequence of digests, one per counter value. */
module DoorPassword {
  import opened Wrappers
  import opened HexRuns

  /** A `[u8; 16]` digest. */
  predicate IsDigest(d: seq<nat>) {
    |d| == 16 && forall k :: 0 <= k < 16 ==> IsByte(d[k])
  }

  predicate AllDigests(ds: seq<seq<nat>>) {
    forall i :: 0 <= i < |ds| ==> IsDigest(ds[i])
  }

  /** `first_five_hex_zero`: the `u32` sum of the first two bytes and the
      high nibble of the third is zero. The sum is at most 525, so it
      cannot overflow. */
  function FirstFiveHexZero(d: seq<nat>): (zero: bool)
    requires IsDigest(d)
    ensures zero <==> d[0] == 0 && d[1] == 0 && d[2] < 16
  {
    d[0] + d[1] + High(d[2]) == 0
  }

  /** The test says what its name says: the digest's hex text starts with
      five zeros. */
  lemma FiveZerosInHex(d: seq<nat>)
    requires IsDigest(d)
    ensures FirstFiveHexZero(d) <==> ToHex(d)[..5] == "00000"
  {
    var s := ToHex(d);
    assert s[0] == HexDigit(High(d[0])) && s[1] == HexDigit(d[0] % 16);
    assert s[2] == HexDigit(High(d[1])) && s[3] == HexDigit(d[1] % 16);
    assert s[4] == HexDigit(High(d[2]));
    if s[..5] == "00000" {
      assert s[0] == '0' && s[1] == '0' && s[2] == '0' && s[3] == '0' && s[4] == '0';
      HexValueOfDigit(High(d[0]));
      HexValueOfDigit(d[0] % 16);
      HexValueOfDigit(High(d[1]));
      HexValueOfDigit(d[1] % 16);
      HexValueOfDigit(High(d[2]));
    }
  }

  /** `{:x}`: a number in lower-case hex, without leading zeros. */
  function LowerHex(n: nat): (s: string)
    ensures 1 <= |s| && IsHex(s)
    ensures n > 0 ==> s[0] != '0'
  {
    if n < 16 then [HexDigit(n)] else LowerHex(n / 16) + [HexDigit(n % 16)]
  }

  /** The value of a string of hex digits, most significant first. */
  function HexNumber(s: string): (n: nat)
    requires IsHex(s)
  {
    if s == [] then 0 else HexNumber(s[..|s| - 1]) * 16 + HexValue(s[|s| - 1])
  }

  /** `{:x}` reads back as the number it wrote. */
  lemma {:induction false} LowerHexRoundTrip(n: nat)
    ensures HexNumber(LowerHex(n)) == n
  {
    HexValueOfDigit(n % 16);
    if n >= 16 {
      LowerHexRoundTrip(n / 16);
      var s := LowerHex(n);
      assert s[..|s| - 1] == LowerHex(n / 16);
    }
  }

  /** `{:x}` of a byte is one digit below 16 and two digits from 16 on. */
  lemma ByteHexLength(b: nat)
    requires IsByte(b)
    ensures b < 16 ==> LowerHex(b) == [HexDigit(b)]
    ensures b >= 16 ==> LowerHex(b) == [HexDigit(High(b)), HexDigit(b % 16)]
  {
  }

  /** `get_sixth_hex_char`: the first character of `{:x}` of byte 2. */
  function SixthHexChar(d: seq<nat>): (c: char)
    requires IsDigest(d)
    ensures d[2] < 16 ==> c == HexDigit(d[2])
    ensures d[2] >= 16 ==> c == HexDigit(High(d[2]))
  {
    ByteHexLength(d[2]);
    LowerHex(d[2])[0]
  }

  /** On a digest that passes the test, the first character of byte 2 is
      the sixth character of the digest's hex text. */
  lemma SixthOfPassing(d: seq<nat>)
    requires IsDigest(d) && FirstFiveHexZero(d)
    ensures SixthHexChar(d) == ToHex(d)[5]
  {
    assert ToHex(d)[2 * 2 + 1] == HexDigit(d[2] % 16);
  }

  /** `get_seventh_hex_char`: `{:x}` of the high nibble of byte 3, always
      a single digit, the seventh character of the digest's hex text. */
  function SeventhHexChar(d: seq<nat>): (c: char)
    requires IsDigest(d)
    ensures c == ToHex(d)[6]
    ensures '0' <= c <= '9' || 'a' <= c <= 'f'
  {
    assert ToHex(d)[2 * 3] == HexDigit(High(d[3]));
    LowerHex(High(d[3]))[0]
  }

  /** The independent reading of part 1: the sixth characters of the
      passing digests, in order. */
  function Sixths(ds: seq<seq<nat>>): (s: string)
    requires AllDigests(ds)
    ensures |s| <= |ds|
  {
    if ds == [] then []
    else
      var front := ds[..|ds| - 1];
      var last := ds[|ds| - 1];
      Sixths(front) + if FirstFiveHexZero(last) then [SixthHexChar(last)] else []
  }

  /** The characters from a prefix of the digests start the characters
      from all of them. */
  lemma {:induction false} SixthsPrefix(ds: seq<seq<nat>>, i: nat)
    requires AllDigests(ds) && i <= |ds|
    ensures Sixths(ds[..i]) <= Sixths(ds)
    decreases |ds| - i
  {
    if i < |ds| {
      assert ds[..|ds| - 1][..i] == ds[..i];
      SixthsPrefix(ds[..|ds| - 1], i);
    } else {
      assert ds[..i] == ds;
    }
  }

  /** Part 1's loop: push the sixth character of each passing digest and
      stop once the password has eight characters. */
  method FirstPassword(ds: seq<seq<nat>>) returns (password: string)
    requires AllDigests(ds)
    ensures |Sixths(ds)| >= 8 ==> password == Sixths(ds)[..8]
    ensures |Sixths(ds)| < 8 ==> password == Sixths(ds)
  {
    password := [];
    var i := 0;
    while i < |ds|
      invariant 0 <= i <= |ds|
      invariant password == Sixths(ds[..i]) && |password| < 8
    {
      assert ds[..i + 1][..i] == ds[..i];
      if FirstFiveHexZero(ds[i]) {
        password := password + [SixthHexChar(ds[i])];
      }
      if |password| >= 8 {
        SixthsPrefix(ds, i + 1);
        return;
      }
      i := i + 1;
    }
    assert ds[..i] == ds;
  }

  /** The slot a passing digest names: its sixth character as a decimal
      digit (`to_digit(10)`), when that is below 8. */
  function Position(d: seq<nat>): (r: Option<nat>)
    requires IsDigest(d)
    ensures r.Some? ==> r.value < 8 && FirstFiveHexZero(d)
  {
    if !FirstFiveHexZero(d) then None
    else
      var c := SixthHexChar(d);
      if '0' <= c <= '7' then Some(c as int - '0' as int) else None
  }

  /** Only the digits '0' to '7' name a slot, '8', '9' and the letters do
      not. */
  lemma PositionIsDigit(d: seq<nat>)
    requires IsDigest(d) && FirstFiveHexZero(d)
    ensures Position(d).Some? <==> d[2] < 8
  {
  }

  /** The independent reading of part 2: slot `k` gets the seventh
      character of the first digest that names it. */
  function FirstFor(ds: seq<seq<nat>>, k: nat): (r: Option<char>)
    requires AllDigests(ds)
    ensures r.Some? ==> exists i :: 0 <= i < |ds| && Position(ds[i]) == Some(k) && r.value == SeventhHexChar(ds[i])
    ensures r.Some? ==> '0' <= r.value <= '9' || 'a' <= r.value <= 'f'
    ensures r.None? <==> forall i :: 0 <= i < |ds| ==> Position(ds[i]) != Some(k)
  {
    if ds == [] then None
    else
      var front := ds[..|ds| - 1];
      var last := ds[|ds| - 1];
      assert forall i :: 0 <= i < |front| ==> front[i] == ds[i];
      var prev := FirstFor(front, k);
      if prev.Some? then prev
      else if Position(last) == Some(k) then Some(SeventhHexChar(last))
      else None
  }

  /** Once a slot is claimed, later digests do not change it. */
  lemma {:induction false} FirstForSettled(ds: seq<seq<nat>>, i: nat, k: nat)
    requires AllDigests(ds) && i <= |ds| && FirstFor(ds[..i], k).Some?
    ensures FirstFor(ds, k) == FirstFor(ds[..i], k)
    decreases |ds| - i
  {
    if i < |ds| {
      assert ds[..|ds| - 1][..i] == ds[..i];
      FirstForSettled(ds[..|ds| - 1], i, k);
    } else {
      assert ds[..i] == ds;
    }
  }

  /** The byte a slot holds: 0 while empty. */
  function SlotByte(c: Option<char>): nat {
    if c.Some? then c.value as int else 0
  }

  /** The slots holding a byte other than 0. */
  function Filled(slots: seq<nat>): (n: nat)
    ensures n <= |slots|
  {
    if slots == [] then 0 else Filled(slots[..|slots| - 1]) + if slots[|slots| - 1] != 0 then 1 else 0
  }

  /** Writing a non-zero byte into an empty slot fills one more slot. */
  lemma {:induction false} FillOne(slots: seq<nat>, k: nat, b: nat)
    requires k < |slots| && slots[k] == 0 && b != 0
    ensures Filled(slots[k := b]) == Filled(slots) + 1
  {
    var last := |slots| - 1;
    if k < last {
      assert slots[k := b][..last] == slots[..last][k := b];
      FillOne(slots[..last], k, b);
    } else {
      assert slots[k := b][..last] == slots[..last];
    }
  }

  /** Empty slots fill nothing. */
  lemma {:induction false} NoneFilled(slots: seq<nat>)
    requires forall k :: 0 <= k < |slots| ==> slots[k] == 0
    ensures Filled(slots) == 0
  {
    if slots != [] {
      NoneFilled(slots[..|slots| - 1]);
    }
  }

  /** All slots are filled only when none is empty. */
  lemma {:induction false} AllFilled(slots: seq<nat>)
    requires Filled(slots) == |slots|
    ensures forall k :: 0 <= k < |slots| ==> slots[k] != 0
  {
    if slots != [] {
      AllFilled(slots[..|slots| - 1]);
    }
  }

  /** The slots read off the first `i` digests. */
  predicate SlotsAfter(ds: seq<seq<nat>>, i: nat, slots: seq<nat>)
    requires AllDigests(ds) && i <= |ds|
  {
    |slots| == 8 && forall k :: 0 <= k < 8 ==> slots[k] == SlotByte(FirstFor(ds[..i], k))
  }

  /** `FirstFor` over one digest more. */
  lemma FirstForSnoc(ds: seq<seq<nat>>, i: nat, k: nat)
    requires AllDigests(ds) && i < |ds|
    ensures FirstFor(ds[..i + 1], k) ==
      if FirstFor(ds[..i], k).Some? then FirstFor(ds[..i], k)
      else if Position(ds[i]) == Some(k) then Some(SeventhHexChar(ds[i]))
      else None
  {
    assert ds[..i + 1][..i] == ds[..i];
  }

  /** One digest more: a claim on an empty slot writes the seventh
      character there, and anything else leaves the slots as they are. */
  lemma PlaceStep(ds: seq<seq<nat>>, i: nat, slots: seq<nat>, next: seq<nat>)
    requires AllDigests(ds) && i < |ds| && SlotsAfter(ds, i, slots)
    requires Position(ds[i]).Some? && slots[Position(ds[i]).value] == 0
    requires next == slots[Position(ds[i]).value := SeventhHexChar(ds[i]) as int]
    ensures SlotsAfter(ds, i + 1, next)
    ensures Filled(next) == Filled(slots) + 1
  {
    var p := Position(ds[i]).value;
    var c := SeventhHexChar(ds[i]);
    assert c as int != 0 by {
      assert '0' <= c <= '9' || 'a' <= c <= 'f';
    }
    forall k | 0 <= k < 8
      ensures next[k] == SlotByte(FirstFor(ds[..i + 1], k))
    {
      FirstForSnoc(ds, i, k);
    }
    FillOne(slots, p, c as int);
  }

  /** A digest that claims no empty slot changes nothing. */
  lemma SkipStep(ds: seq<seq<nat>>, i: nat, slots: seq<nat>)
    requires AllDigests(ds) && i < |ds| && SlotsAfter(ds, i, slots)
    requires Position(ds[i]).Some? ==> slots[Position(ds[i]).value] != 0
    ensures SlotsAfter(ds, i + 1, slots)
  {
    forall k | 0 <= k < 8
      ensures slots[k] == SlotByte(FirstFor(ds[..i + 1], k))
    {
      FirstForSnoc(ds, i, k);
    }
  }

  /** With every slot set, the rest of the digests change nothing. */
  lemma AllSettled(ds: seq<seq<nat>>, i: nat, slots: seq<nat>)
    requires AllDigests(ds) && i <= |ds| && SlotsAfter(ds, i, slots)
    requires Filled(slots) == 8
    ensures forall k :: 0 <= k < 8 ==> slots[k] == SlotByte(FirstFor(ds, k))
  {
    AllFilled(slots);
    forall k | 0 <= k < 8
      ensures slots[k] == SlotByte(FirstFor(ds, k))
    {
      FirstForSettled(ds, i, k);
    }
  }

  /** Part 2's loop: a passing digest whose position digit is below 8 and
      whose slot is still 0 writes its seventh character there and counts
      one more set character; the loop stops when all eight are set.
      Stopping early changes nothing, since every slot is settled by then. */
  method SecondPassword(ds: seq<seq<nat>>) returns (slots: seq<nat>, setCount: nat)
    requires AllDigests(ds)
    ensures |slots| == 8 && setCount == Filled(slots) && setCount <= 8
    ensures forall k :: 0 <= k < 8 ==> slots[k] == SlotByte(FirstFor(ds, k))
  {
    slots := [0, 0, 0, 0, 0, 0, 0, 0];
    setCount := 0;
    NoneFilled(slots);
    var i := 0;
    while i < |ds|
      invariant 0 <= i <= |ds|
      invariant SlotsAfter(ds, i, slots) && setCount == Filled(slots) && setCount < 8
    {
      slots, setCount := Place(ds, i, slots, setCount);
      if setCount == 8 {
        AllSettled(ds, i + 1, slots);
        return;
      }
      i := i + 1;
    }
    assert ds[..i] == ds;
  }

  /** The body of part 2's loop for digest `i`. */
  method Place(ds: seq<seq<nat>>, i: nat, slots: seq<nat>, setCount: nat) returns (next: seq<nat>, nextCount: nat)
    requires AllDigests(ds) && i < |ds| && SlotsAfter(ds, i, slots) && setCount == Filled(slots)
    ensures SlotsAfter(ds, i + 1, next) && nextCount == Filled(next)
  {
    var position := Position(ds[i]);
    if position.Some? && slots[position.value] == 0 {
      next := slots[position.value := SeventhHexChar(ds[i]) as int];
      PlaceStep(ds, i, slots, next);
      nextCount := setCount + 1;
    } else {
      SkipStep(ds, i, slots);
      next, nextCount := slots, setCount;
    }
  }
}
