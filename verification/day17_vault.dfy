/** Day 17: a 4×4 grid of rooms, entered at the top-left corner (0, 3)
    and left at the bottom-right corner (3, 0). Which doors are open depends
    on the hash of the passcode followed by the moves taken so far, read
    one hex character per direction. The hash (MD5) is not part of this
    model: the search takes it as a function parameter. */
module Vault {
  import opened Wrappers

  /** `is_open`: the hash characters that open a door. */
  function IsOpen(c: char): (open: bool)
    ensures open <==> 'b' <= c <= 'f'
  {
    c == 'b' || c == 'c' || c == 'd' || c == 'e' || c == 'f'
  }

  datatype Dir = Up | Down | Left | Right

  /** The hash character that governs a direction's door. */
  function Code(d: Dir): (val: nat)
    ensures val < 4
  {
    match d
    case Up => 0
    case Down => 1
    case Left => 2
    case Right => 3
  }

  /** `Dir::from_val`: the direction of a hash position, a panic past 3. */
  function FromVal(val: nat): (r: Result<Dir>)
    ensures r.Success? <==> val < 4
    ensures r.Success? ==> Code(r.value) == val
  {
    if val == 0 then Success(Up)
    else if val == 1 then Success(Down)
    else if val == 2 then Success(Left)
    else if val == 3 then Success(Right)
    else Failure("Unexpected direction code")
  }

  /** Each direction is recovered from its code. */
  lemma FromValOfCode(d: Dir)
    ensures FromVal(Code(d)) == Success(d)
  {
  }

  /** The letter `move_dir` appends for a direction. */
  function Letter(d: Dir): (c: char)
    ensures c in "UDLR"
  {
    match d
    case Up => 'U'
    case Down => 'D'
    case Left => 'L'
    case Right => 'R'
  }

  /** Different directions append different letters, so a path spells out
      its moves. */
  lemma LetterInjective(d: Dir, e: Dir)
    ensures Letter(d) == Letter(e) <==> d == e
  {
  }

  /** The door of direction `d` is open: the hash has a character for it,
      and that character opens. */
  predicate Opens(hash: string, d: Dir) {
    Code(d) < |hash| && IsOpen(hash[Code(d)])
  }

  /** One direction, if its door is open. */
  function Door(hash: string, d: Dir): (dirs: seq<Dir>)
    ensures forall e :: e in dirs <==> e == d && Opens(hash, d)
    ensures |dirs| <= 1
  {
    if Opens(hash, d) then [d] else []
  }

  /** `get_open_directions` once the hash of the path is known: the first
      four hash characters, in order, keeping the directions whose
      character is open. A shorter hash offers fewer doors. */
  function OpenDirections(hash: string): (dirs: seq<Dir>)
    ensures forall d :: d in dirs <==> Opens(hash, d)
  {
    Door(hash, Up) + Door(hash, Down) + Door(hash, Left) + Door(hash, Right)
  }

  /** The open directions come in the order of their codes, each once. */
  lemma OpenDirectionsOrdered(hash: string)
    ensures forall a, b :: 0 <= a < b < |OpenDirections(hash)| ==>
      Code(OpenDirections(hash)[a]) < Code(OpenDirections(hash)[b])
  {
  }

  /** A room and the passcode followed by the moves that led there. */
  datatype State = State(pos: (int, int), path: string)

  /** `State::new`: the top-left room, with the passcode as the path. */
  function Start(code: string): (s: State)
    ensures s.pos == (0, 3) && s.path == code
  {
    State((0, 3), code)
  }

  /** `is_valid`: inside the 4×4 grid. */
  predicate IsValid(s: State) {
    0 <= s.pos.0 < 4 && 0 <= s.pos.1 < 4
  }

  /** `is_target`: the bottom-right room. */
  predicate IsTarget(s: State) {
    s.pos == (3, 0)
  }

  /** The room one step away; Up raises the second coordinate. */
  function Shift(pos: (int, int), d: Dir): (int, int) {
    match d
    case Up => (pos.0, pos.1 + 1)
    case Down => (pos.0, pos.1 - 1)
    case Left => (pos.0 - 1, pos.1)
    case Right => (pos.0 + 1, pos.1)
  }

  /** The grid distance to the target room. */
  function ToTarget(pos: (int, int)): nat {
    (if pos.0 <= 3 then 3 - pos.0 else pos.0 - 3) + (if pos.1 >= 0 then pos.1 else -pos.1)
  }

  /** `move_dir`: one step and one letter, or nothing if the step leaves
      the grid. */
  function MoveDir(s: State, d: Dir): (r: Option<State>)
    ensures r.Some? <==> IsValid(State(Shift(s.pos, d), s.path))
    ensures r.Some? ==> IsValid(r.value) && r.value.path == s.path + [Letter(d)]
    ensures r.Some? ==> ToTarget(r.value.pos) + 1 == ToTarget(s.pos) || ToTarget(r.value.pos) == ToTarget(s.pos) + 1
  {
    var next := State(Shift(s.pos, d), s.path + [Letter(d)]);
    if IsValid(next) then Some(next) else None
  }

  function Opposite(d: Dir): Dir {
    match d
    case Up => Down
    case Down => Up
    case Left => Right
    case Right => Left
  }

  /** A move can always be undone: the opposite move returns to the room,
      with both letters on the path. */
  lemma MoveBack(s: State, d: Dir)
    requires IsValid(s) && MoveDir(s, d).Some?
    ensures MoveDir(MoveDir(s, d).value, Opposite(d)).Some?
    ensures MoveDir(MoveDir(s, d).value, Opposite(d)).value == State(s.pos, s.path + [Letter(d), Letter(Opposite(d))])
  {
  }

  /** Which of two found paths the search keeps: the shorter, the earlier
      on a tie (`min_by_key`), or the longer, the later on a tie
      (`max_by_key`). */
  function Keep(first: Option<State>, later: Option<State>, longest: bool): (r: Option<State>)
    ensures r.None? <==> first.None? && later.None?
    ensures r == first || r == later
    ensures r.Some? && first.Some? ==> Beats(r.value, first.value, longest)
    ensures r.Some? && later.Some? ==> Beats(r.value, later.value, longest)
  {
    if first.None? then later
    else if later.None? then first
    else if longest then (if |first.value.path| <= |later.value.path| then later else first)
    else (if |later.value.path| < |first.value.path| then later else first)
  }

  /** `find_path` (`longest` false) and `find_longest_path` (`longest`
      true): a state at the target is returned as it is; otherwise the
      search goes through every open door that stays in the grid and keeps
      the best path found. `fuel` bounds the depth of the recursion. */
  function Search(hash: string -> string, s: State, fuel: nat, longest: bool): (r: Option<State>)
    ensures r.Some? ==> IsTarget(r.value) && s.path <= r.value.path
    ensures r.Some? && IsValid(s) ==> |r.value.path| >= |s.path| + ToTarget(s.pos)
    decreases fuel, 2
  {
    if IsTarget(s) then Some(s)
    else if fuel == 0 then None
    else Best(hash, s, OpenDirections(hash(s.path)), fuel, longest)
  }

  /** The search continued through one door, one level deeper. */
  function Through(hash: string -> string, s: State, d: Dir, fuel: nat, longest: bool): (r: Option<State>)
    requires fuel > 0
    ensures r.Some? ==> IsTarget(r.value) && s.path + [Letter(d)] <= r.value.path
    ensures r.Some? && IsValid(s) ==> |r.value.path| >= |s.path| + ToTarget(s.pos)
    decreases fuel, 0
  {
    match MoveDir(s, d)
    case None => None
    case Some(next) => Search(hash, next, fuel - 1, longest)
  }

  /** The best of the searches through `dirs`, in order. */
  function Best(hash: string -> string, s: State, dirs: seq<Dir>, fuel: nat, longest: bool): (r: Option<State>)
    requires fuel > 0
    ensures r.Some? ==> IsTarget(r.value) && s.path < r.value.path
    ensures r.Some? && IsValid(s) ==> |r.value.path| >= |s.path| + ToTarget(s.pos)
    decreases fuel, 1, |dirs|
  {
    if dirs == [] then None
    else Keep(Through(hash, s, dirs[0], fuel, longest), Best(hash, s, dirs[1..], fuel, longest), longest)
  }

  /** `Best` returns one of the searches, and is empty only when all are. */
  lemma {:induction false} BestPicks(hash: string -> string, s: State, dirs: seq<Dir>, fuel: nat, longest: bool)
    requires fuel > 0
    ensures Best(hash, s, dirs, fuel, longest).None? <==>
      forall k :: 0 <= k < |dirs| ==> Through(hash, s, dirs[k], fuel, longest).None?
    ensures Best(hash, s, dirs, fuel, longest).Some? ==>
      exists k :: 0 <= k < |dirs| && Best(hash, s, dirs, fuel, longest) == Through(hash, s, dirs[k], fuel, longest)
  {
    if dirs != [] {
      var rest := dirs[1..];
      BestPicks(hash, s, rest, fuel, longest);
      assert forall k :: 1 <= k < |dirs| ==> dirs[k] == rest[k - 1];
      var r := Best(hash, s, dirs, fuel, longest);
      var other := Best(hash, s, rest, fuel, longest);
      if r.Some? && r == other {
        var j :| 0 <= j < |rest| && other == Through(hash, s, rest[j], fuel, longest);
        assert r == Through(hash, s, dirs[j + 1], fuel, longest);
      }
    }
  }

  /** No search that `Best` passes over beats the one it keeps. */
  lemma {:induction false} BestBeats(hash: string -> string, s: State, dirs: seq<Dir>, fuel: nat, longest: bool)
    requires fuel > 0
    ensures forall k :: 0 <= k < |dirs| && Through(hash, s, dirs[k], fuel, longest).Some? ==>
      Best(hash, s, dirs, fuel, longest).Some? &&
      Beats(Best(hash, s, dirs, fuel, longest).value, Through(hash, s, dirs[k], fuel, longest).value, longest)
  {
    if dirs != [] {
      var rest := dirs[1..];
      BestBeats(hash, s, rest, fuel, longest);
      assert forall k :: 1 <= k < |dirs| ==> dirs[k] == rest[k - 1];
    }
  }

  /** `winner` is at least as good as `other`: no longer when the search
      wants the shortest path, no shorter when it wants the longest. */
  predicate Beats(winner: State, other: State, longest: bool) {
    if longest then |other.path| <= |winner.path| else |winner.path| <= |other.path|
  }

  /** The room a sequence of moves leads to, when every move goes through
      an open door, stays in the grid and does not pass the target room
      (the search stops there), and the last move reaches the target. */
  function WalkEnd(hash: string -> string, s: State, moves: seq<Dir>): (r: Option<State>)
    ensures r.Some? ==> IsTarget(r.value) && |r.value.path| == |s.path| + |moves|
    decreases |moves|
  {
    if moves == [] then (if IsTarget(s) then Some(s) else None)
    else if IsTarget(s) || !Opens(hash(s.path), moves[0]) then None
    else
      match MoveDir(s, moves[0])
      case None => None
      case Some(next) => WalkEnd(hash, next, moves[1..])
  }

  /** Whatever the search finds is the end of a walk of at most `fuel`
      moves: `moves` is that walk. */
  lemma {:induction false} SearchIsWalk(hash: string -> string, s: State, fuel: nat, longest: bool) returns (moves: seq<Dir>)
    requires Search(hash, s, fuel, longest).Some?
    ensures |moves| <= fuel && WalkEnd(hash, s, moves) == Search(hash, s, fuel, longest)
    decreases fuel
  {
    if IsTarget(s) {
      moves := [];
    } else {
      var d := SearchPicksDoor(hash, s, fuel, longest);
      var next := MoveDir(s, d).value;
      var rest := SearchIsWalk(hash, next, fuel - 1, longest);
      moves := [d] + rest;
      WalkStep(hash, s, d, rest);
    }
  }

  /** Away from the target, what the search finds it finds through one
      open door `d`, one level deeper. */
  lemma SearchPicksDoor(hash: string -> string, s: State, fuel: nat, longest: bool) returns (d: Dir)
    requires !IsTarget(s) && Search(hash, s, fuel, longest).Some?
    ensures fuel > 0 && Opens(hash(s.path), d) && MoveDir(s, d).Some?
    ensures Search(hash, s, fuel, longest) == Search(hash, MoveDir(s, d).value, fuel - 1, longest)
  {
    var r := Search(hash, s, fuel, longest);
    var dirs := OpenDirections(hash(s.path));
    assert r == Best(hash, s, dirs, fuel, longest);
    assert exists k :: 0 <= k < |dirs| && r == Through(hash, s, dirs[k], fuel, longest) by {
      BestPicks(hash, s, dirs, fuel, longest);
    }
    var k :| 0 <= k < |dirs| && r == Through(hash, s, dirs[k], fuel, longest);
    d := dirs[k];
    assert d in dirs;
  }

  /** A walk through an open door continues as a walk from the next room. */
  lemma WalkStep(hash: string -> string, s: State, d: Dir, rest: seq<Dir>)
    requires !IsTarget(s) && Opens(hash(s.path), d) && MoveDir(s, d).Some?
    ensures WalkEnd(hash, s, [d] + rest) == WalkEnd(hash, MoveDir(s, d).value, rest)
  {
    assert ([d] + rest)[1..] == rest;
  }

  /** The search finds something whenever a walk of at most `fuel` moves
      reaches the target, and what it finds is at least as short (or, for
      the longest search, at least as long) as that walk. */
  lemma {:induction false} SearchBeatsWalk(hash: string -> string, s: State, fuel: nat, longest: bool, moves: seq<Dir>)
    requires |moves| <= fuel && WalkEnd(hash, s, moves).Some?
    ensures Search(hash, s, fuel, longest).Some?
    ensures Beats(Search(hash, s, fuel, longest).value, WalkEnd(hash, s, moves).value, longest)
    decreases fuel
  {
    var w := WalkEnd(hash, s, moves);
    if moves == [] {
      assert IsTarget(s) && w == Some(s);
    } else {
      var d := moves[0];
      assert !IsTarget(s) && Opens(hash(s.path), d) && MoveDir(s, d).Some?;
      var next := MoveDir(s, d).value;
      assert w == WalkEnd(hash, next, moves[1..]);
      var found := Search(hash, next, fuel - 1, longest);
      assert found.Some? && Beats(found.value, w.value, longest) by {
        SearchBeatsWalk(hash, next, fuel - 1, longest, moves[1..]);
      }
      var dirs := OpenDirections(hash(s.path));
      assert d in dirs;
      var k :| 0 <= k < |dirs| && dirs[k] == d;
      assert Through(hash, s, dirs[k], fuel, longest) == found;
      var best := Best(hash, s, dirs, fuel, longest);
      assert Search(hash, s, fuel, longest) == best;
      assert best.Some? && Beats(best.value, found.value, longest) by {
        BestBeats(hash, s, dirs, fuel, longest);
      }
    }
  }

  /** The search comes back empty exactly when no walk of at most `fuel`
      moves reaches the target. */
  lemma SearchNoneIffNoWalk(hash: string -> string, s: State, fuel: nat, longest: bool)
    ensures Search(hash, s, fuel, longest).None? <==>
      forall moves :: |moves| <= fuel ==> WalkEnd(hash, s, moves).None?
  {
    if Search(hash, s, fuel, longest).Some? {
      var moves := SearchIsWalk(hash, s, fuel, longest);
    }
    forall moves | |moves| <= fuel && WalkEnd(hash, s, moves).Some?
      ensures Search(hash, s, fuel, longest).Some?
    {
      SearchBeatsWalk(hash, s, fuel, longest, moves);
    }
  }

  /** From the start, any path found is at least six moves long. */
  lemma SixMovesAtLeast(hash: string -> string, code: string, fuel: nat, longest: bool)
    requires Search(hash, Start(code), fuel, longest).Some?
    ensures |Search(hash, Start(code), fuel, longest).value.path| >= |code| + 6
  {
  }

  /** No open door leaves no direction to try. */
  lemma NoDoorsNoDirections(hash: string)
    ensures (forall d :: !Opens(hash, d)) ==> OpenDirections(hash) == []
  {
    var dirs := OpenDirections(hash);
    assert dirs != [] ==> dirs[0] in dirs;
  }

  /** A hash that opens no door ends the search at once unless the room
      is the target. */
  lemma ClosedDoors(hash: string -> string, s: State, fuel: nat, longest: bool)
    requires !IsTarget(s) && forall d :: !Opens(hash(s.path), d)
    ensures Search(hash, s, fuel, longest).None?
  {
    NoDoorsNoDirections(hash(s.path));
  }
}
