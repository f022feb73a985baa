/** Day 14: the string helpers of the one-time-pad key search. A digest is
    written as hex, then scanned for the first run of three equal
    characters and for every character that runs five times. The digest
    itself (MD5) is not part of this model. Strings are read byte by byte;
    the model takes one character per byte, as for the ASCII hex digests
    these helpers receive. */
module HexRuns {
  import opened Wrappers

  predicate IsByte(b: nat) { b < 256 }

  /** A lower-case hex digit, as `{:x}` writes it. */
  function HexDigit(n: nat): (c: char)
    requires n < 16
    ensures ('0' <= c <= '9') || ('a' <= c <= 'f')
  {
    if n < 10 then ('0' as int + n) as char else ('a' as int + n - 10) as char
  }

  /** The value of a lower-case hex digit. */
  function HexValue(c: char): (n: nat)
    requires ('0' <= c <= '9') || ('a' <= c <= 'f')
    ensures n < 16
  {
    if c <= '9' then c as int - '0' as int else c as int - 'a' as int + 10
  }

  /** The high nibble of a byte. */
  function High(b: nat): (n: nat)
    requires IsByte(b)
    ensures n < 16 && n * 16 <= b < n * 16 + 16
  {
    b / 16
  }

  lemma HexValueOfDigit(n: nat)
    requires n < 16
    ensures HexValue(HexDigit(n)) == n
  {
  }

  /** `to_hex_string`: `{:02x}` for each byte in turn, high nibble first.
      Writing into a `String` cannot fail, so the `Err` case never occurs. */
  function ToHex(bytes: seq<nat>): (s: string)
    requires forall k :: 0 <= k < |bytes| ==> IsByte(bytes[k])
    ensures |s| == 2 * |bytes|
    ensures forall k :: 0 <= k < |bytes| ==> s[2 * k] == HexDigit(High(bytes[k])) && s[2 * k + 1] == HexDigit(bytes[k] % 16)
  {
    if bytes == [] then []
    else
      var rest := ToHex(bytes[1..]);
      var head := [HexDigit(High(bytes[0])), HexDigit(bytes[0] % 16)];
      forall k | 1 <= k < |bytes|
        ensures (head + rest)[2 * k] == rest[2 * (k - 1)] && (head + rest)[2 * k + 1] == rest[2 * (k - 1) + 1]
      {
        PairShift(head, rest, k);
      }
      head + rest
  }

  /** Behind a two-character head, pair `k` is pair `k - 1` of the rest. */
  lemma PairShift(head: string, rest: string, k: nat)
    requires |head| == 2 && 1 <= k && 2 * k + 1 < |head| + |rest|
    ensures (head + rest)[2 * k] == rest[2 * (k - 1)] && (head + rest)[2 * k + 1] == rest[2 * (k - 1) + 1]
  {
  }

  predicate IsHex(s: string) {
    forall k :: 0 <= k < |s| ==> ('0' <= s[k] <= '9') || ('a' <= s[k] <= 'f')
  }

  /** Reading pairs of hex digits back into bytes. */
  function FromHex(s: string): (bytes: seq<nat>)
    requires |s| % 2 == 0 && IsHex(s)
    ensures |bytes| == |s| / 2
    decreases |s|
  {
    if s == [] then [] else [HexValue(s[0]) * 16 + HexValue(s[1])] + FromHex(s[2..])
  }

  /** The hex text of a digest reads back as the digest: no two byte
      strings share a hex form. */
  lemma {:induction false} FromToHex(bytes: seq<nat>)
    requires forall k :: 0 <= k < |bytes| ==> IsByte(bytes[k])
    ensures IsHex(ToHex(bytes)) && FromHex(ToHex(bytes)) == bytes
  {
    var s := ToHex(bytes);
    assert IsHex(s) by {
      forall k | 0 <= k < |s|
        ensures ('0' <= s[k] <= '9') || ('a' <= s[k] <= 'f')
      {
        var m := k / 2;
        assert k == 2 * m || k == 2 * m + 1;
        assert s[2 * m] == HexDigit(High(bytes[m])) && s[2 * m + 1] == HexDigit(bytes[m] % 16);
      }
    }
    if bytes != [] {
      FromToHex(bytes[1..]);
      assert s[2..] == ToHex(bytes[1..]);
      HexValueOfDigit(High(bytes[0]));
      HexValueOfDigit(bytes[0] % 16);
    }
  }

  /** A 16-byte digest gives 32 hex characters. */
  lemma DigestHexLength(bytes: seq<nat>)
    requires |bytes| == 16 && forall k :: 0 <= k < 16 ==> IsByte(bytes[k])
    ensures |ToHex(bytes)| == 32 && IsHex(ToHex(bytes))
  {
    FromToHex(bytes);
  }

  /** Three equal characters centred on `i`. */
  predicate TripleAt(s: string, i: nat) {
    1 <= i && i + 1 < |s| && s[i - 1] == s[i] && s[i] == s[i + 1]
  }

  /** The loop of `get_first_triplet` from `i`: the first centre of a run
      of three. */
  function FirstTripleFrom(s: string, i: nat): (r: Option<nat>)
    requires 1 <= i
    ensures r.Some? ==> i <= r.value && TripleAt(s, r.value)
    ensures r.Some? ==> forall j :: i <= j < r.value ==> !TripleAt(s, j)
    ensures r.None? ==> forall j :: i <= j ==> !TripleAt(s, j)
    decreases |s| - i
  {
    if i + 1 >= |s| then None
    else if s[i - 1] == s[i] && s[i] == s[i + 1] then Some(i)
    else FirstTripleFrom(s, i + 1)
  }

  /** `get_first_triplet`: the character of the first run of three. The
      range `1..len - 1` underflows on an empty string. */
  function FirstTriplet(s: string): (r: Result<Option<char>>)
    ensures r.Failure? <==> |s| == 0
    ensures r.Success? && r.value.Some? ==>
      exists i: nat :: TripleAt(s, i) && s[i] == r.value.value && forall j :: 0 <= j < i ==> !TripleAt(s, j)
    ensures r.Success? && r.value.None? ==> forall j :: !TripleAt(s, j)
  {
    if |s| == 0 then Failure("attempt to subtract with overflow")
    else
      match FirstTripleFrom(s, 1)
      case None => Success(None)
      case Some(i) => Success(Some(s[i]))
  }

  /** Five equal characters starting at `i`. */
  predicate RunAt(s: string, i: nat) {
    i + 4 < |s| && s[i] == s[i + 1] && s[i] == s[i + 2] && s[i] == s[i + 3] && s[i] == s[i + 4]
  }

  /** The characters pushed by the loop `for i in 0..len - 5`, in order of
      their windows, from window `i` to window `end - 1`. */
  function RunsFrom(s: string, i: nat, end: nat): (found: seq<char>)
    requires i <= end && end + 5 <= |s|
    ensures forall c :: c in found <==> exists j :: i <= j < end && RunAt(s, j) && s[j] == c
    decreases end - i
  {
    if i == end then []
    else
      var rest := RunsFrom(s, i + 1, end);
      if RunAt(s, i) then [s[i]] + rest else rest
  }

  predicate StrictlyAscending(v: seq<char>) {
    forall a, b :: 0 <= a < b < |v| ==> v[a] < v[b]
  }

  /** `c` put into its place in a strictly ascending sequence, unless
      already there. */
  function Insert(v: seq<char>, c: char): (w: seq<char>)
    requires StrictlyAscending(v)
    ensures StrictlyAscending(w)
    ensures forall x :: x in w <==> x in v || x == c
  {
    if v == [] then [c]
    else if c < v[0] then [c] + v
    else if c == v[0] then v
    else
      var rest := Insert(v[1..], c);
      assert forall x :: x in rest ==> v[0] < x;
      [v[0]] + rest
  }

  /** `sort()` then `dedup()`: the distinct characters, ascending. */
  function SortDedup(v: seq<char>): (w: seq<char>)
    ensures StrictlyAscending(w)
    ensures forall x :: x in w <==> x in v
  {
    if v == [] then [] else Insert(SortDedup(v[1..]), v[0])
  }

  /** A strictly ascending sequence is fixed by its elements. */
  lemma {:induction false} AscendingUnique(v: seq<char>, w: seq<char>)
    requires StrictlyAscending(v) && StrictlyAscending(w)
    requires forall x :: x in v <==> x in w
    ensures v == w
  {
    assert v != [] ==> v[0] in w;
    assert w != [] ==> w[0] in v;
    if v != [] && w != [] {
      assert v[0] == w[0] by {
        assert v[0] in w && w[0] in v;
      }
      assert forall x :: x in v[1..] <==> x in w[1..] by {
        forall x
          ensures x in v[1..] <==> x in w[1..]
        {
          if x in v[1..] {
            assert x in w && x != w[0];
          }
          if x in w[1..] {
            assert x in v && x != v[0];
          }
        }
      }
      AscendingUnique(v[1..], w[1..]);
    }
  }

  /** `get_quintuplets`: the distinct characters that run five times,
      ascending. The windows are `0..len - 5`, which underflows below
      five characters and never looks at the window that ends the string. */
  function Quintuplets(s: string): (r: Result<seq<char>>)
    ensures r.Failure? <==> |s| < 5
    ensures r.Success? ==> StrictlyAscending(r.value)
    ensures r.Success? ==> forall c :: c in r.value <==> exists j :: 0 <= j < |s| - 5 && RunAt(s, j) && s[j] == c
  {
    if |s| < 5 then Failure("attempt to subtract with overflow")
    else Success(SortDedup(RunsFrom(s, 0, |s| - 5)))
  }

  /** The last window is never examined: five equal characters that end
      the string are missed. */
  lemma LastWindowMissed()
    ensures RunAt("xaaaaa", 1)
    ensures Quintuplets("xaaaaa") == Success([])
  {
    assert RunsFrom("xaaaaa", 0, 1) == [];
  }

  /** `get_quintuplets("123aaaaacde")` is `['a']`. */
  lemma QuintupletsExample1()
    ensures Quintuplets("123aaaaacde") == Success(['a'])
  {
    var s := "123aaaaacde";
    var found := RunsFrom(s, 0, 6);
    assert forall c :: c in found <==> c == 'a' by {
      assert RunAt(s, 3) && s[3] == 'a';
      forall j | 0 <= j < 6 && RunAt(s, j)
        ensures s[j] == 'a'
      {
      }
    }
    AscendingUnique(SortDedup(found), ['a']);
  }

  /** `get_quintuplets("123bbbbbcdeeeeeff")` is `['b', 'e']`. */
  lemma QuintupletsExample2()
    ensures Quintuplets("123bbbbbcdeeeeeff") == Success(['b', 'e'])
  {
    var s := "123bbbbbcdeeeeeff";
    var found := RunsFrom(s, 0, 12);
    assert forall c :: c in found <==> c == 'b' || c == 'e' by {
      assert RunAt(s, 3) && s[3] == 'b';
      assert RunAt(s, 10) && s[10] == 'e';
      forall j | 0 <= j < 12 && RunAt(s, j)
        ensures s[j] == 'b' || s[j] == 'e'
      {
      }
    }
    AscendingUnique(SortDedup(found), ['b', 'e']);
  }

  /** `get_quintuplets("3aeeeee1367614f3061d165a5fe3cac3")` starts with `e`. */
  lemma QuintupletsExample4()
    ensures Quintuplets("3aeeeee1367614f3061d165a5fe3cac3") == Success(['e'])
  {
    var s := "3aeeeee1367614f3061d165a5fe3cac3";
    assert RunAt(s, 2) && s[2] == 'e';
    Example4Runs(s);
    SingleRun(s, 2);
  }

  /** A string whose scanned windows of five equal characters all hold
      the character of window `i` yields exactly that character. */
  lemma SingleRun(s: string, i: nat)
    requires 5 <= |s| && i < |s| - 5 && RunAt(s, i)
    requires forall j :: 0 <= j < |s| - 5 && RunAt(s, j) ==> s[j] == s[i]
    ensures Quintuplets(s) == Success([s[i]])
  {
    var r := Quintuplets(s);
    assert forall c :: c in r.value <==> c in [s[i]];
    AscendingUnique(r.value, [s[i]]);
  }

  /** The only windows of the fourth example holding five equal
      characters hold `e`. */
  lemma Example4Runs(s: string)
    requires s == "3aeeeee1367614f3061d165a5fe3cac3"
    ensures forall j :: 0 <= j < 27 && RunAt(s, j) ==> s[j] == 'e'
  {
    forall j | 0 <= j < 27 && RunAt(s, j)
      ensures s[j] == 'e'
    {
      if j < 7 {
        assert s[..7] == "3aeeeee";
      }
    }
  }
}

/** Day 14's `KeyDatabase`: for each character, the indices inserted under
    it, in insertion order. */
module KeyStore {
  import opened Wrappers

  datatype KeyDatabase = KeyDatabase(keys: map<char, seq<nat>>)

  /** What a lookup sees: the stored list, or nothing for a missing key. */
  function Indices(db: KeyDatabase, key: char): seq<nat> {
    if key in db.keys then db.keys[key] else []
  }

  function New(): (db: KeyDatabase)
    ensures forall key :: Indices(db, key) == []
  {
    KeyDatabase(map[])
  }

  /** `insert`: `entry(key).or_insert(Vec::new()).push(index)`. */
  function Insert(db: KeyDatabase, key: char, index: nat): (next: KeyDatabase)
    ensures Indices(next, key) == Indices(db, key) + [index]
    ensures forall other :: other != key ==> Indices(next, other) == Indices(db, other)
  {
    KeyDatabase(db.keys[key := Indices(db, key) + [index]])
  }

  predicate InRange(index: nat, lower: nat, upper: nat) {
    lower <= index <= upper
  }

  /** The scan over one key's indices: the first one in `[lower, upper]`. */
  function FirstInRange(indices: seq<nat>, lower: nat, upper: nat): (r: Option<nat>)
    ensures r.Some? ==> r.value < |indices| && InRange(indices[r.value], lower, upper)
    ensures r.Some? ==> forall j :: 0 <= j < r.value ==> !InRange(indices[j], lower, upper)
    ensures r.None? <==> forall j :: 0 <= j < |indices| ==> !InRange(indices[j], lower, upper)
  {
    if indices == [] then None
    else if InRange(indices[0], lower, upper) then Some(0)
    else
      match FirstInRange(indices[1..], lower, upper)
      case None => None
      case Some(j) => Some(j + 1)
  }

  /** `contains_in_range`: the earliest-inserted index under `key` within
      `[lower, upper]`. Looking up goes through `entry(key).or_insert`, so
      a missing key gains an empty list; no key's indices change. */
  function ContainsInRange(db: KeyDatabase, key: char, lower: nat, upper: nat): (r: (KeyDatabase, Option<nat>))
    ensures key in r.0.keys
    ensures forall k :: Indices(r.0, k) == Indices(db, k)
    ensures forall k :: k != key ==> (k in r.0.keys <==> k in db.keys)
    ensures r.1.Some? ==> r.1.value in Indices(db, key) && InRange(r.1.value, lower, upper)
    ensures r.1.Some? ==>
      exists n :: 0 <= n < |Indices(db, key)| && Indices(db, key)[n] == r.1.value &&
        (forall j :: 0 <= j < n ==> !InRange(Indices(db, key)[j], lower, upper))
    ensures r.1.None? <==> forall i :: i in Indices(db, key) ==> !InRange(i, lower, upper)
  {
    var list := Indices(db, key);
    var next := KeyDatabase(db.keys[key := list]);
    match FirstInRange(list, lower, upper)
    case None => (next, None)
    case Some(n) => (next, Some(list[n]))
  }

  /** An index just inserted is found by any range that holds it. */
  lemma FoundAfterInsert(db: KeyDatabase, key: char, index: nat, lower: nat, upper: nat)
    requires InRange(index, lower, upper)
    ensures ContainsInRange(Insert(db, key, index), key, lower, upper).1.Some?
  {
    assert index in Indices(Insert(db, key, index), key);
  }

  /** Inserting under one key leaves the answers for every other key alone. */
  lemma InsertElsewhere(db: KeyDatabase, key: char, other: char, index: nat, lower: nat, upper: nat)
    requires other != key
    ensures ContainsInRange(Insert(db, key, index), other, lower, upper).1 == ContainsInRange(db, other, lower, upper).1
  {
  }
}
