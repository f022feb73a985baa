/** Day 1: following turn-and-walk instructions on a city grid, with north
    as +y and east as +x. Coordinates are `i32`, and every arithmetic step
    panics on overflow as a debug build does. */
module Taxicab {
  import opened Wrappers
  import opened Text

  datatype Vec2 = Vec2(x: int, y: int)

  /** Both coordinates fit in `i32`. */
  predicate Valid(v: Vec2) {
    IsI32(v.x) && IsI32(v.y)
  }

  datatype Pose = Pose(direction: Vec2, position: Vec2)

  datatype Turn = Right | Left

  type Int32 = v: int | I32_MIN <= v <= I32_MAX

  /** One captured instruction: the turn letter, and the digits after it
      as `str::parse::<i32>` reads them (`None` when they overflow). */
  datatype Capture = Capture(letter: Option<string>, dist: Option<Int32>)

  /** An `i32` result, or the panic a debug build raises with `message`. */
  function Checked(v: int, message: string): (r: Result<int>)
    ensures r.Success? <==> IsI32(v)
    ensures r.Success? ==> r.value == v
    ensures r.Failure? ==> r.error == message
  {
    if IsI32(v) then Success(v) else Failure(message)
  }

  /** `Vec2i::mult`: both coordinates times `scalar`, `x` first. */
  function Mult(v: Vec2, scalar: int): (r: Result<Vec2>)
    requires Valid(v) && IsI32(scalar)
    ensures r.Success? ==> Valid(r.value)
    ensures r.Success? <==> IsI32(v.x * scalar) && IsI32(v.y * scalar)
  {
    var x :- Checked(v.x * scalar, "attempt to multiply with overflow");
    var y :- Checked(v.y * scalar, "attempt to multiply with overflow");
    Success(Vec2(x, y))
  }

  /** `Add for Vec2i`: coordinate-wise sum, `x` first. */
  function Add(a: Vec2, b: Vec2): (r: Result<Vec2>)
    requires Valid(a) && Valid(b)
    ensures r.Success? ==> Valid(r.value)
    ensures r.Success? <==> IsI32(a.x + b.x) && IsI32(a.y + b.y)
    ensures r.Success? ==> r.value.x - a.x == b.x && r.value.y - a.y == b.y
  {
    var x :- Checked(a.x + b.x, "attempt to add with overflow");
    var y :- Checked(a.y + b.y, "attempt to add with overflow");
    Success(Vec2(x, y))
  }

  function Abs(a: int): nat {
    if a < 0 then -a else a
  }

  /** `manhattan_magnitude`: `x + y`, with no absolute values taken. */
  function ManhattanMagnitude(v: Vec2): (r: Result<int>)
    requires Valid(v)
    ensures r.Success? <==> IsI32(v.x + v.y)
    ensures v.x >= 0 && v.y >= 0 && r.Success? ==> r.value == Abs(v.x) + Abs(v.y)
  {
    Checked(v.x + v.y, "attempt to add with overflow")
  }

  /** Outside the north-east quadrant the magnitude is not the taxicab
      distance from the origin: two blocks east and three south give -1,
      not 5. */
  lemma MagnitudeIsNotDistance()
    ensures ManhattanMagnitude(Vec2(2, -3)) == Success(-1)
    ensures Abs(2) + Abs(-3) == 5
  {
  }

  /** `rotated`: a quarter turn counter-clockwise for `Left` and clockwise
      for `Right`. The one coordinate negated overflows at `i32::MIN`. */
  function Rotated(v: Vec2, turn: Turn): (r: Result<Vec2>)
    requires Valid(v)
    ensures r.Success? <==> if turn.Left? then v.y != I32_MIN else v.x != I32_MIN
    ensures r.Success? ==> Valid(r.value)
    ensures r.Success? ==> Abs(r.value.x) == Abs(v.y) && Abs(r.value.y) == Abs(v.x)
  {
    match turn
    case Left =>
      var x :- Checked(-v.y, "attempt to negate with overflow");
      Success(Vec2(x, v.x))
    case Right =>
      var y :- Checked(-v.x, "attempt to negate with overflow");
      Success(Vec2(v.y, y))
  }

  /** Turning left and then right, or right and then left, gives back the
      direction started from. */
  lemma TurnBack(v: Vec2, turn: Turn)
    requires Valid(v) && Rotated(v, turn).Success?
    ensures Rotated(Rotated(v, turn).value, if turn.Left? then Right else Left) == Success(v)
  {
  }

  /** `turn` applied `k` times. */
  function Repeat(v: Vec2, turn: Turn, k: nat): (r: Result<Vec2>)
    requires Valid(v)
    ensures r.Success? ==> Valid(r.value)
  {
    if k == 0 then Success(v)
    else
      var w :- Repeat(v, turn, k - 1);
      Rotated(w, turn)
  }

  /** Four equal turns come back to the start, and fail only at the
      coordinate `i32::MIN`, which has no `i32` negation. */
  lemma FourTurns(v: Vec2, turn: Turn)
    requires Valid(v)
    ensures Repeat(v, turn, 4).Success? <==> v.x != I32_MIN && v.y != I32_MIN
    ensures Repeat(v, turn, 4).Success? ==> Repeat(v, turn, 4).value == v
  {
    var r1, r2, r3 := Repeat(v, turn, 1), Repeat(v, turn, 2), Repeat(v, turn, 3);
    assert Repeat(v, turn, 0) == Success(v);
    assert r1 == Rotated(v, turn);
    if v.x != I32_MIN && v.y != I32_MIN {
      var w := Vec2(-v.x, -v.y);
      assert r2 == Success(w);
      assert r3 == Rotated(w, turn);
      TurnBack(v, turn);
    } else {
      assert r1.Failure? || r2.Failure?;
      assert r1.Failure? ==> r2.Failure?;
      assert r3.Failure?;
    }
  }

  /** The four compass directions, counter-clockwise from north. */
  function Compass(h: int): (v: Vec2)
    ensures Valid(v) && Abs(v.x) + Abs(v.y) == 1
  {
    var k := h % 4;
    if k == 0 then Vec2(0, 1)
    else if k == 1 then Vec2(-1, 0)
    else if k == 2 then Vec2(0, -1)
    else Vec2(1, 0)
  }

  /** The heading index after a turn: one step counter-clockwise for
      `Left`, one clockwise for `Right`. */
  function Turned(h: int, turn: Turn): int {
    if turn.Left? then h + 1 else h - 1
  }

  /** A compass direction turns into the next compass direction. */
  lemma RotatedCompass(h: int, turn: Turn)
    ensures Rotated(Compass(h), turn) == Success(Compass(Turned(h, turn)))
  {
    var k := h % 4;
    if turn.Left? {
      assert (h + 1) % 4 == (k + 1) % 4;
    } else {
      assert (h - 1) % 4 == (k + 3) % 4;
    }
  }

  /** `dist` blocks along compass direction `h`. */
  function Offset(h: int, dist: int): (v: Vec2)
    ensures Abs(v.x) + Abs(v.y) == Abs(dist)
  {
    var k := h % 4;
    if k == 0 then Vec2(0, dist)
    else if k == 1 then Vec2(-dist, 0)
    else if k == 2 then Vec2(0, -dist)
    else Vec2(dist, 0)
  }

  /** Scaling a compass direction by a distance whose negation also fits
      in `i32` never overflows and gives the offset along it. */
  lemma MultCompass(h: int, dist: int)
    requires IsI32(dist) && dist != I32_MIN
    ensures Mult(Compass(h), dist) == Success(Offset(h, dist))
  {
    var k := h % 4;
    var c := Compass(h);
    if k == 0 {
      assert c.x * dist == 0 && c.y * dist == dist;
    } else if k == 1 {
      assert c.x * dist == -dist && c.y * dist == 0;
    } else if k == 2 {
      assert c.x * dist == 0 && c.y * dist == -dist;
    } else {
      assert c.x * dist == dist && c.y * dist == 0;
    }
  }

  /** `accumulate`: turn first, then walk `dist` blocks in the new direction. */
  function Accumulate(current: Pose, turn: Turn, dist: int): (r: Result<Pose>)
    requires Valid(current.direction) && Valid(current.position) && IsI32(dist)
    ensures r.Success? ==> Rotated(current.direction, turn) == Success(r.value.direction)
    ensures r.Success? ==> Valid(r.value.direction) && Valid(r.value.position)
  {
    var direction :- Rotated(current.direction, turn);
    var step :- Mult(direction, dist);
    var position :- Add(current.position, step);
    Success(Pose(direction, position))
  }

  /** Walking along a compass heading moves by the offset along the new
      heading, and fails only when the new position leaves `i32`. */
  lemma AccumulateCompass(h: int, position: Vec2, turn: Turn, dist: int)
    requires IsI32(dist) && dist != I32_MIN && Valid(position)
    ensures var r := Accumulate(Pose(Compass(h), position), turn, dist);
            var o := Offset(Turned(h, turn), dist);
            (r.Success? <==> Valid(Vec2(position.x + o.x, position.y + o.y)))
            && (r.Success? ==> r.value == Pose(Compass(Turned(h, turn)), Vec2(position.x + o.x, position.y + o.y)))
  {
    RotatedCompass(h, turn);
    MultCompass(Turned(h, turn), dist);
  }

  /** `as_direction`: "R" is a right turn; anything else, a missing
      letter included, is a left turn. */
  function AsDirection(input: Option<string>): (t: Turn)
    ensures t == Right <==> input == Some("R")
  {
    match input
    case Some(s) => if s == "R" then Right else Left
    case None => Left
  }

  /** The pose `main` starts from: at the origin, facing north. */
  const START := Pose(Vec2(0, 1), Vec2(0, 0))

  /** The loop of `main` over the captures, one `accumulate` each; a
      distance that does not parse as `i32` panics on `unwrap`. */
  function Travel(captures: seq<Capture>): (r: Result<Pose>)
    ensures r.Success? ==> Valid(r.value.direction) && Valid(r.value.position)
  {
    if captures == [] then Success(START)
    else
      var pose :- Travel(captures[..|captures| - 1]);
      var last := captures[|captures| - 1];
      var dist :- Need(last.dist, "called `Result::unwrap()` on an `Err` value");
      Accumulate(pose, AsDirection(last.letter), dist)
  }

  /** The reference walk on unbounded integers: the heading index counts
      left turns minus right turns, and the position is the sum of the
      offsets walked. */
  function Heading(captures: seq<Capture>): int {
    if captures == [] then 0
    else Turned(Heading(captures[..|captures| - 1]), AsDirection(captures[|captures| - 1].letter))
  }

  /** Each capture's distance, with a distance that does not parse as 0. */
  function Distance(c: Capture): int {
    c.dist.UnwrapOr(0)
  }

  function Displacement(captures: seq<Capture>): Vec2 {
    if captures == [] then Vec2(0, 0)
    else
      var before := Displacement(captures[..|captures| - 1]);
      var o := Offset(Heading(captures), Distance(captures[|captures| - 1]));
      Vec2(before.x + o.x, before.y + o.y)
  }

  /** Every distance parses, is not `i32::MIN`, and every position along
      the reference walk fits in `i32`. */
  predicate Fits(captures: seq<Capture>) {
    captures == []
    || (Fits(captures[..|captures| - 1])
        && captures[|captures| - 1].dist.Some?
        && Valid(Displacement(captures)))
  }

  /** `Travel` agrees with the reference walk: it succeeds exactly when
      every distance parses and every position on the way fits in `i32`,
      and then it faces the reference heading at the reference position. */
  lemma {:induction false} TravelIsReference(captures: seq<Capture>)
    requires forall k :: 0 <= k < |captures| ==> captures[k].dist != Some(I32_MIN)
    ensures Travel(captures).Success? <==> Fits(captures)
    ensures Travel(captures).Success? ==>
              Travel(captures).value == Pose(Compass(Heading(captures)), Displacement(captures))
  {
    if captures != [] {
      var n := |captures|;
      var init := captures[..n - 1];
      var last := captures[n - 1];
      TravelIsReference(init);
      var dist := last.dist;
      if Travel(init).Success? && dist.Some? {
        var pose := Travel(init).value;
        var turn := AsDirection(last.letter);
        AccumulateCompass(Heading(init), pose.position, turn, dist.value);
        assert Travel(captures) == Accumulate(pose, turn, dist.value);
        assert Heading(captures) == Turned(Heading(init), turn);
        assert Distance(last) == dist.value;
        var o := Offset(Heading(captures), dist.value);
        assert Displacement(captures) == Vec2(pose.position.x + o.x, pose.position.y + o.y);
        assert Fits(captures) <==> Valid(Displacement(captures));
      } else {
        assert Travel(captures).Failure?;
        assert !Fits(captures);
      }
    }
  }

  /** The first worked example: "R2, L3" ends 2 blocks east and 3 north,
      at magnitude 5. */
  lemma FirstExample()
    ensures Travel([Capture(Some("R"), Some(2)), Capture(Some("L"), Some(3))]) == Success(Pose(Vec2(0, 1), Vec2(2, 3)))
    ensures ManhattanMagnitude(Vec2(2, 3)) == Success(5)
  {
    var r2, l3 := Capture(Some("R"), Some(2)), Capture(Some("L"), Some(3));
    var cs := [r2, l3];
    assert -1 % 4 == 3;
    WalkStep([], r2, [r2], 0, Vec2(0, 0), -1, Vec2(2, 0));
    WalkStep([r2], l3, cs, -1, Vec2(2, 0), 0, Vec2(2, 3));
    TravelIsReference(cs);
  }

  /** The reference walk extended by one capture, with the heading and
      displacement before and after as values. */
  lemma WalkStep(cs: seq<Capture>, c: Capture, next: seq<Capture>, h: int, d: Vec2, h2: int, d2: Vec2)
    requires next == cs + [c]
    requires Heading(cs) == h && Displacement(cs) == d && Fits(cs)
    requires h2 == Turned(h, AsDirection(c.letter)) && c.dist.Some?
    requires d2 == Vec2(d.x + Offset(h2, c.dist.value).x, d.y + Offset(h2, c.dist.value).y) && Valid(d2)
    ensures Heading(next) == h2 && Displacement(next) == d2 && Fits(next)
  {
    assert next[..|cs|] == cs;
  }

  /** The second worked example: "R2, R2, R2" ends 2 blocks south. */
  lemma SecondExample()
    ensures var c := Capture(Some("R"), Some(2));
            Travel([c, c, c]) == Success(Pose(Vec2(-1, 0), Vec2(0, -2)))
  {
    var c := Capture(Some("R"), Some(2));
    assert -1 % 4 == 3 && -2 % 4 == 2 && -3 % 4 == 1;
    WalkStep([], c, [c], 0, Vec2(0, 0), -1, Vec2(2, 0));
    WalkStep([c], c, [c, c], -1, Vec2(2, 0), -2, Vec2(2, -2));
    WalkStep([c, c], c, [c, c, c], -2, Vec2(2, -2), -3, Vec2(0, -2));
    TravelIsReference([c, c, c]);
  }

  /** The third worked example: "R5, L5, R5, R3" ends at magnitude 12. */
  lemma ThirdExample()
    ensures var r5, l5, r3 := Capture(Some("R"), Some(5)), Capture(Some("L"), Some(5)), Capture(Some("R"), Some(3));
            var t := Travel([r5, l5, r5, r3]);
            t.Success? && ManhattanMagnitude(t.value.position) == Success(12)
  {
    var r5, l5, r3 := Capture(Some("R"), Some(5)), Capture(Some("L"), Some(5)), Capture(Some("R"), Some(3));
    assert -1 % 4 == 3 && -2 % 4 == 2;
    WalkStep([], r5, [r5], 0, Vec2(0, 0), -1, Vec2(5, 0));
    WalkStep([r5], l5, [r5, l5], -1, Vec2(5, 0), 0, Vec2(5, 5));
    WalkStep([r5, l5], r5, [r5, l5, r5], 0, Vec2(5, 5), -1, Vec2(10, 5));
    WalkStep([r5, l5, r5], r3, [r5, l5, r5, r3], -1, Vec2(10, 5), -2, Vec2(10, 2));
    TravelIsReference([r5, l5, r5, r3]);
  }
}
