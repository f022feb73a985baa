/** Day 16: filling a disk with a modified dragon curve and computing its
    checksum. Bits are stored one per byte, as in the solver. */
module DragonChecksum {
  import opened Wrappers
  import opened Text

  /** One byte of the disk image. */
  type Byte = x: nat | x < 256

  predicate IsBit(v: Byte) { v == 0 || v == 1 }

  predicate Binary(s: seq<Byte>) {
    forall k :: 0 <= k < |s| ==> IsBit(s[k])
  }

  /** The inversion used while growing the curve: a 1 becomes 0 and every
      other byte becomes 1. */
  function Invert(v: Byte): (r: Byte)
    ensures IsBit(r)
    ensures IsBit(v) ==> r != v
  {
    if v == 1 then 0 else 1
  }

  /** The copy of `a` appended by one growth step: reversed, then inverted. */
  function Flip(a: seq<Byte>): (b: seq<Byte>)
    ensures |b| == |a| && Binary(b)
  {
    seq(|a|, k requires 0 <= k < |a| => Invert(a[|a| - 1 - k]))
  }

  /** Flipping twice gives a binary sequence back. */
  lemma FlipFlip(a: seq<Byte>)
    requires Binary(a)
    ensures Flip(Flip(a)) == a
  {
    var f := Flip(a);
    var b := Flip(f);
    assert |b| == |f| == |a|;
    forall k | 0 <= k < |a|
      ensures b[k] == a[k]
    {
      var j := |a| - 1 - k;
      assert b[k] == Invert(f[j]);
      assert |a| - 1 - j == k;
      assert f[j] == Invert(a[k]);
      assert IsBit(a[k]);
    }
  }

  /** One growth step: `a`, a 0, then `a` reversed and inverted. */
  function Grow(a: seq<Byte>): (r: seq<Byte>)
    ensures |r| == 2 * |a| + 1
    ensures r[..|a|] == a
  {
    a + [0] + Flip(a)
  }

  /** The appended half of a grown curve and the separating 0 determine
      the original curve. */
  lemma GrowRecoversHalf(a: seq<Byte>)
    requires Binary(a)
    ensures Grow(a)[|a|] == 0
    ensures Flip(Grow(a)[|a| + 1..]) == a
  {
    assert Grow(a)[|a| + 1..] == Flip(a);
    FlipFlip(a);
  }

  /** `generate_dragon`: grow until the curve reaches `target` bytes, then
      truncate to exactly `target`. */
  function GenerateDragon(a: seq<Byte>, target: nat): (r: seq<Byte>)
    ensures |r| == target
    ensures |a| <= target ==> r[..|a|] == a
    ensures |a| > target ==> r == a[..target]
    ensures Binary(a) ==> Binary(r)
    decreases target - |a|
  {
    if |a| >= target then a[..target]
    else
      var g := Grow(a);
      var r := GenerateDragon(g, target);
      assert |g| <= target ==> r[..|a|] == r[..|g|][..|a|];
      assert |g| > target ==> r[..|a|] == g[..|a|];
      r
  }

  /** The first bytes of a disk do not depend on how large the disk is:
      filling a smaller disk gives a prefix of the larger one. */
  lemma {:induction false} DragonPrefix(a: seq<Byte>, small: nat, large: nat)
    requires small <= large
    ensures GenerateDragon(a, small) == GenerateDragon(a, large)[..small]
    decreases large - |a|
  {
    if |a| >= large {
    } else if |a| >= small {
      var g := Grow(a);
      var r := GenerateDragon(g, large);
      if |g| <= large {
        assert r[..|a|] == r[..|g|][..|a|];
      }
      assert r[..small] == r[..|a|][..small];
    } else {
      DragonPrefix(Grow(a), small, large);
    }
  }

  // ---------------------------------------------------------------------
  // Text conversion

  /** `as_vec`: each character's base-2 digit value; any other character
      makes `to_digit(2).unwrap()` panic. */
  function AsVec(s: string): (r: Result<seq<Byte>>)
    ensures r.Success? <==> forall k :: 0 <= k < |s| ==> s[k] == '0' || s[k] == '1'
    ensures r.Success? ==> |r.value| == |s| && Binary(r.value)
    ensures r.Success? ==> forall k :: 0 <= k < |s| ==> (r.value[k] == 1 <==> s[k] == '1')
  {
    if s == [] then Success([])
    else if s[0] != '0' && s[0] != '1' then Failure("not a binary digit")
    else
      var rest := AsVec(s[1..]);
      if rest.Failure? then
        assert exists k :: 0 <= k < |s[1..]| && s[1..][k] != '0' && s[1..][k] != '1';
        Failure(rest.error)
      else
        Success([if s[0] == '1' then 1 else 0] + rest.value)
  }

  /** `as_str`: the decimal rendering of every byte, concatenated. */
  function AsStr(bytes: seq<Byte>): (s: string)
    ensures Binary(bytes) ==> |s| == |bytes|
    ensures Binary(bytes) ==> forall k :: 0 <= k < |s| ==> (s[k] == '1' <==> bytes[k] == 1) && (s[k] == '0' || s[k] == '1')
  {
    if bytes == [] then "" else NatToString(bytes[0]) + AsStr(bytes[1..])
  }

  /** Reading binary digits and writing them back gives the same text. */
  lemma AsStrAsVec(s: string)
    requires AsVec(s).Success?
    ensures AsStr(AsVec(s).value) == s
  {
    var t := AsStr(AsVec(s).value);
    assert forall k :: 0 <= k < |s| ==> t[k] == s[k];
  }

  /** Writing bits and reading them back gives the same bits. */
  lemma {:induction false} AsVecAsStr(bits: seq<Byte>)
    requires Binary(bits)
    ensures AsVec(AsStr(bits)) == Success(bits)
  {
    if bits != [] {
      var d := if bits[0] == 1 then '1' else '0';
      var t := AsStr(bits[1..]);
      assert AsStr(bits) == [d] + t by {
        assert NatToString(bits[0]) == [d];
      }
      AsVecAsStr(bits[1..]);
      AsVecCons(d, t, bits[1..]);
      assert bits == [bits[0]] + bits[1..];
    }
  }

  /** Reading one more leading digit. */
  lemma AsVecCons(d: char, t: string, v: seq<Byte>)
    requires (d == '0' || d == '1') && AsVec(t) == Success(v)
    ensures AsVec([d] + t) == Success([if d == '1' then 1 else 0] + v)
  {
    assert ([d] + t)[1..] == t;
  }

  // ---------------------------------------------------------------------
  // Checksum

  function Same(a: Byte, b: Byte): (r: Byte)
    ensures IsBit(r)
  {
    if a == b then 1 else 0
  }

  /** One checksum round: every pair of bytes becomes 1 when equal and 0
      otherwise. */
  function Reduce(s: seq<Byte>): (r: seq<Byte>)
    requires |s| % 2 == 0
    ensures |r| == |s| / 2 && Binary(r)
    ensures forall k :: 0 <= k < |r| ==> r[k] == Same(s[2 * k], s[2 * k + 1])
  {
    if s == [] then [] else [Same(s[0], s[1])] + Reduce(s[2..])
  }

  /** Number of 1 bytes. */
  function Ones(s: seq<Byte>): nat {
    if s == [] then 0 else (if s[0] == 1 then 1 else 0) + Ones(s[1..])
  }

  lemma {:induction false} OnesConcat(a: seq<Byte>, b: seq<Byte>)
    ensures Ones(a + b) == Ones(a) + Ones(b)
  {
    if a == [] {
      assert a + b == b;
    } else {
      assert (a + b)[1..] == a[1..] + b;
      OnesConcat(a[1..], b);
    }
  }

  /** 1 when the block holds an even number of 1 bytes. */
  function EvenOnes(s: seq<Byte>): Byte {
    if Ones(s) % 2 == 0 then 1 else 0
  }

  /** The parity of each whole block of `size` bytes, in order; bytes
      after the last whole block are ignored. */
  function BlockParities(s: seq<Byte>, size: nat): (r: seq<Byte>)
    requires size > 0
    decreases |s|
  {
    if |s| < size then [] else [EvenOnes(s[..size])] + BlockParities(s[size..], size)
  }

  /** The first round checks pairs, that is blocks of two bits. */
  lemma {:induction false} ReduceIsPairParity(s: seq<Byte>)
    requires |s| % 2 == 0 && Binary(s)
    ensures Reduce(s) == BlockParities(s, 2)
    decreases |s|
  {
    if s != [] {
      var pair := s[..2];
      assert pair[1..] == [s[1]];
      assert [s[1]][1..] == [];
      assert Ones([s[1]]) == (if s[1] == 1 then 1 else 0) + Ones([]);
      assert Ones(pair) == (if s[0] == 1 then 1 else 0) + Ones([s[1]]);
      assert EvenOnes(pair) == Same(s[0], s[1]);
      ReduceIsPairParity(s[2..]);
    }
  }

  /** Two adjacent blocks are equal in parity exactly when their union
      holds an even number of 1 bytes. */
  lemma SameParity(x: seq<Byte>, y: seq<Byte>)
    ensures Same(EvenOnes(x), EvenOnes(y)) == EvenOnes(x + y)
  {
    OnesConcat(x, y);
  }

  /** A further round on block parities gives the parities of blocks
      twice as large. */
  lemma {:induction false} ReduceDoublesBlocks(s: seq<Byte>, size: nat)
    requires size > 0 && |BlockParities(s, size)| % 2 == 0
    ensures Reduce(BlockParities(s, size)) == BlockParities(s, 2 * size)
    decreases |s|
  {
    if |s| >= size {
      var rest := s[size..];
      var bp := BlockParities(s, size);
      assert bp == [EvenOnes(s[..size])] + BlockParities(rest, size);
      assert |rest| >= size;
      var tail := rest[size..];
      assert BlockParities(rest, size) == [EvenOnes(rest[..size])] + BlockParities(tail, size);
      assert bp[2..] == BlockParities(tail, size);
      assert Reduce(bp) == [Same(bp[0], bp[1])] + Reduce(bp[2..]);
      assert tail == s[2 * size..];
      assert s[..2 * size] == s[..size] + rest[..size];
      SameParity(s[..size], rest[..size]);
      ReduceDoublesBlocks(tail, size);
      assert BlockParities(s, 2 * size) == [EvenOnes(s[..2 * size])] + BlockParities(tail, 2 * size);
    }
  }

  predicate IsPowerOfTwo(n: nat)
    decreases n
  {
    n == 1 || (n >= 2 && n % 2 == 0 && IsPowerOfTwo(n / 2))
  }

  /** Halving an even length while doubling the block size keeps the
      number of bytes covered. */
  lemma HalveLength(n: nat, size: nat)
    requires n % 2 == 0
    ensures (n / 2) * (2 * size) == n * size
  {
    var h := n / 2;
    assert n == 2 * h;
  }

  /** What holds after every round of `checksum`: `r` is the current
      checksum and each of its bytes stands for `size` disk bytes. */
  ghost predicate RoundInvariant(s: seq<Byte>, r: seq<Byte>, size: nat) {
    && |r| > 0 && size > 0 && |r| * size == |s| && IsPowerOfTwo(size)
    && (size == 1 ==> r == s)
    && (size >= 2 ==> |s| % 2 == 0 && Binary(r))
    && (size >= 2 && Binary(s) ==> r == BlockParities(s, size))
  }

  /** One more round keeps the invariant with blocks twice as large. */
  lemma RoundStep(s: seq<Byte>, r: seq<Byte>, size: nat)
    requires RoundInvariant(s, r, size) && |r| % 2 == 0
    ensures RoundInvariant(s, Reduce(r), 2 * size)
  {
    if Binary(s) {
      if size == 1 {
        ReduceIsPairParity(s);
      } else {
        ReduceDoublesBlocks(s, size);
      }
    }
    HalveLength(|r|, size);
    assert IsPowerOfTwo(2 * size);
  }

  /** `checksum` on bytes: rounds repeat while the length is even; the
      answer has odd length and, once at least one round ran on a binary
      disk, each of its bits tells whether a block of `size` disk bits
      (a power of two, together covering the disk exactly) holds an even
      number of 1s. The loop never ends on an empty disk. */
  method ChecksumBits(s: seq<Byte>) returns (r: seq<Byte>, size: nat)
    requires |s| > 0
    ensures |r| % 2 == 1 && size > 0 && |r| * size == |s| && IsPowerOfTwo(size)
    ensures |s| % 2 == 1 ==> r == s
    ensures Binary(s) ==> Binary(r)
    ensures |s| % 2 == 0 && Binary(s) ==> size >= 2 && r == BlockParities(s, size)
  {
    r := s;
    size := 1;
    while |r| % 2 == 0
      invariant RoundInvariant(s, r, size)
      decreases |r|
    {
      RoundStep(s, r, size);
      r := Reduce(r);
      size := 2 * size;
    }
  }

  /** `checksum`: the checksum bits written as text. */
  method Checksum(s: seq<Byte>) returns (out: string)
    requires |s| > 0 && Binary(s)
    ensures |out| % 2 == 1
    ensures forall k :: 0 <= k < |out| ==> out[k] == '0' || out[k] == '1'
    ensures |s| % 2 == 1 ==> out == AsStr(s)
    ensures |s| % 2 == 0 ==> exists size: nat ::
              size >= 2 && IsPowerOfTwo(size) && |out| * size == |s| && out == AsStr(BlockParities(s, size))
  {
    var bits, size := ChecksumBits(s);
    out := AsStr(bits);
    if |s| % 2 == 0 {
      assert size >= 2 && IsPowerOfTwo(size) && |out| * size == |s| && out == AsStr(BlockParities(s, size));
    }
  }

  lemma ExampleFirstFlip()
    ensures Flip([1, 0, 0, 0, 0]) == [1, 1, 1, 1, 0]
  {
    var a: seq<Byte> := [1, 0, 0, 0, 0];
    assert forall k :: 0 <= k < 5 ==> Flip(a)[k] == Invert(a[4 - k]);
  }

  lemma ExampleSecondFlip()
    ensures Flip([1, 0, 0, 0, 0, 0, 1, 1, 1, 1, 0]) == [1, 0, 0, 0, 0, 1, 1, 1, 1, 1, 0]
  {
    var a: seq<Byte> := [1, 0, 0, 0, 0, 0, 1, 1, 1, 1, 0];
    assert forall k :: 0 <= k < 11 ==> Flip(a)[k] == Invert(a[10 - k]);
  }

  /** The worked example: "10000" grows twice and is truncated to the 20
      bytes 10000011110010000111. */
  lemma ExampleDisk()
    ensures GenerateDragon([1, 0, 0, 0, 0], 20) == [1, 0, 0, 0] + [0, 0, 1, 1] + [1, 1, 0, 0, 1, 0, 0, 0, 0, 1, 1, 1]
  {
    ExampleFirstFlip();
    ExampleSecondFlip();
    var a: seq<Byte> := [1, 0, 0, 0, 0];
    var g1: seq<Byte> := [1, 0, 0, 0, 0, 0, 1, 1, 1, 1, 0];
    assert Grow(a) == g1;
    var f2: seq<Byte> := [1, 0, 0, 0, 0, 1, 1, 1, 1, 1, 0];
    var g2 := g1 + [0] + f2;
    assert Grow(g1) == g2;
    assert GenerateDragon(a, 20) == GenerateDragon(g1, 20);
    assert GenerateDragon(g1, 20) == g2[..20];
    ExampleTruncation(g1, f2);
  }

  lemma ExampleTruncation(g1: seq<Byte>, f2: seq<Byte>)
    requires g1 == [1, 0, 0, 0, 0, 0, 1, 1, 1, 1, 0] && f2 == [1, 0, 0, 0, 0, 1, 1, 1, 1, 1, 0]
    ensures (g1 + [0] + f2)[..20] == [1, 0, 0, 0] + [0, 0, 1, 1] + [1, 1, 0, 0, 1, 0, 0, 0, 0, 1, 1, 1]
  {
    assert (g1 + [0] + f2)[..20] == g1 + [0] + f2[..8];
    assert f2[..8] == [1, 0, 0, 0, 0, 1, 1, 1];
  }

  lemma OnesOfFour(s: seq<Byte>)
    requires |s| == 4
    ensures Ones(s) == Ones([s[0]]) + Ones([s[1]]) + Ones([s[2]]) + Ones([s[3]])
  {
    assert s == [s[0]] + [s[1]] + [s[2]] + [s[3]];
    OnesConcat([s[0]] + [s[1]] + [s[2]], [s[3]]);
    OnesConcat([s[0]] + [s[1]], [s[2]]);
    OnesConcat([s[0]], [s[1]]);
  }

  lemma ParityOfFour(s: seq<Byte>, ones: nat)
    requires |s| == 4 && ones == (if s[0] == 1 then 1 else 0) + (if s[1] == 1 then 1 else 0)
                                 + (if s[2] == 1 then 1 else 0) + (if s[3] == 1 then 1 else 0)
    ensures EvenOnes(s) == if ones % 2 == 0 then 1 else 0
  {
    OnesOfFour(s);
    assert [s[0]][1..] == [] && [s[1]][1..] == [] && [s[2]][1..] == [] && [s[3]][1..] == [];
  }

  lemma BlockParitiesCons(x: seq<Byte>, rest: seq<Byte>)
    requires |x| > 0
    ensures BlockParities(x + rest, |x|) == [EvenOnes(x)] + BlockParities(rest, |x|)
  {
    assert (x + rest)[..|x|] == x && (x + rest)[|x|..] == rest;
  }

  lemma ExampleLastParities()
    ensures BlockParities([1, 1, 0, 0, 1, 0, 0, 0, 0, 1, 1, 1], 4) == [1, 0, 0]
  {
    var b2: seq<Byte> := [1, 1, 0, 0];
    var b3: seq<Byte> := [1, 0, 0, 0];
    var b4: seq<Byte> := [0, 1, 1, 1];
    ParityOfFour(b2, 2);
    ParityOfFour(b3, 1);
    ParityOfFour(b4, 3);
    BlockParitiesCons(b4, []);
    BlockParitiesCons(b3, b4);
    BlockParitiesCons(b2, b3 + b4);
    assert b2 + (b3 + b4) == [1, 1, 0, 0, 1, 0, 0, 0, 0, 1, 1, 1];
    assert b4 + [] == b4;
  }

  lemma ExampleParities()
    ensures BlockParities([1, 0, 0, 0] + [0, 0, 1, 1] + [1, 1, 0, 0, 1, 0, 0, 0, 0, 1, 1, 1], 4) == [0, 1, 1, 0, 0]
  {
    var b0: seq<Byte> := [1, 0, 0, 0];
    var b1: seq<Byte> := [0, 0, 1, 1];
    var tail: seq<Byte> := [1, 1, 0, 0, 1, 0, 0, 0, 0, 1, 1, 1];
    ExampleLastParities();
    ParityOfFour(b1, 2);
    BlockParitiesStep(b1, tail, b1 + tail, 1, [1, 0, 0]);
    ParityOfFour(b0, 1);
    assert b0 + (b1 + tail) == b0 + b1 + tail;
    BlockParitiesStep(b0, b1 + tail, b0 + b1 + tail, 0, [1] + [1, 0, 0]);
    assert [0] + ([1] + [1, 0, 0]) == [0, 1, 1, 0, 0];
  }

  /** `BlockParitiesCons` with the parities as values. */
  lemma BlockParitiesStep(x: seq<Byte>, rest: seq<Byte>, whole: seq<Byte>, p: Byte, ps: seq<Byte>)
    requires |x| > 0 && whole == x + rest
    requires EvenOnes(x) == p && BlockParities(rest, |x|) == ps
    ensures BlockParities(whole, |x|) == [p] + ps
  {
    BlockParitiesCons(x, rest);
  }

  /** Written as text, these parities are the expected checksum 01100. */
  lemma ExampleChecksum()
    ensures AsStr([0, 1, 1, 0, 0]) == "01100"
  {
    var p: seq<Byte> := [0, 1, 1, 0, 0];
    assert p[1..] == [1, 1, 0, 0] && p[1..][1..] == [1, 0, 0];
  }
}
