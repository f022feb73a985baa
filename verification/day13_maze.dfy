/** Day 13's cubicle maze. A cell (x, y) is open when the formula
    x*x + 3*x + 2*x*y + y + y*y plus the designer's number has an even
    number of set bits; two breadth-first walks from (1, 1) over a
    100 by 100 grid find the distance to a target and count the cells
    reachable within a number of steps. */
module CubicleMaze {
  import opened Wrappers
  import opened Text

  /** The side of the square grid both walks stay inside. */
  const SIZE: int := 100

  type Pos = (int, int)

  /** Which cells are open: `is_open` for one designer's number, or its
      overflow panic. The walks are stated for any such plan. */
  type Plan = Pos -> Result<bool>

  /** A queue entry: a cell and the number of steps taken to reach it. */
  datatype Step = Step(x: int, y: int, dist: int)

  // ---------------------------------------------------------------------
  // The wall formula
  // ---------------------------------------------------------------------

  /** The number of ones among the low `bits` bits of `n`. */
  function PopCount(n: nat, bits: nat): (c: nat)
    ensures c <= bits
  {
    if bits == 0 then 0 else n % 2 + PopCount(n / 2, bits - 1)
  }

  /** Every intermediate value of the formula, in the order Rust
      evaluates it, fits in an `i32`; otherwise a debug build panics. */
  predicate Evaluates(x: int, y: int, magic: int) {
    var s1 := x * x + 3 * x;
    var s2 := s1 + 2 * x * y;
    IsI32(x * x) && IsI32(3 * x) && IsI32(s1) && IsI32(2 * x) && IsI32(2 * x * y) && IsI32(s2)
    && IsI32(s2 + y) && IsI32(y * y) && IsI32(s2 + y + y * y) && IsI32(s2 + y + y * y + magic)
  }

  /** The formula x*x + 3*x + 2*x*y + y + y*y plus the designer's number. */
  function Formula(x: int, y: int, magic: int): (r: Result<int>)
    ensures r.Success? <==> Evaluates(x, y, magic)
    ensures r.Success? ==> r.value == x * x + 3 * x + 2 * x * y + y + y * y + magic
  {
    if Evaluates(x, y, magic) then Success(x * x + 3 * x + 2 * x * y + y + y * y + magic)
    else Failure("attempt to compute with overflow")
  }

  /** `is_open`: the formula's 32-bit two's-complement pattern has an even
      number of ones. */
  function IsOpen(p: Pos, magic: int): (r: Result<bool>)
    ensures r.Success? <==> Formula(p.0, p.1, magic).Success?
    ensures r.Success? ==> (r.value <==> PopCount(Formula(p.0, p.1, magic).value % U32_LIMIT, 32) % 2 == 0)
  {
    var v :- Formula(p.0, p.1, magic);
    Success(PopCount(v % U32_LIMIT, 32) % 2 == 0)
  }

  /** `in_bounds` for the grid both walks use. */
  predicate InBounds(p: Pos) {
    0 <= p.0 < SIZE && 0 <= p.1 < SIZE
  }

  /** Inside the grid every intermediate value is small, so the formula
      comes out as its sum plus the designer's number, checked once. */
  lemma FormulaInGrid(p: Pos, magic: int)
    requires InBounds(p)
    ensures 0 <= p.0 * p.0 + 3 * p.0 + 2 * p.0 * p.1 + p.1 + p.1 * p.1 <= 39600
    ensures Evaluates(p.0, p.1, magic) <==> IsI32(p.0 * p.0 + 3 * p.0 + 2 * p.0 * p.1 + p.1 + p.1 * p.1 + magic)
  {
    var (x, y) := p;
    MulBound(x, x, 99, 99);
    MulBound(2 * x, y, 198, 99);
    MulBound(y, y, 99, 99);
  }

  lemma MulBound(a: int, b: int, amax: int, bmax: int)
    requires 0 <= a <= amax && 0 <= b <= bmax
    ensures 0 <= a * b <= amax * bmax
  {
    assert a * b <= amax * b;
  }

  /** No cell of the grid overflows for a designer's number up to the `i32`
      maximum less 39600 (the puzzle uses 1362, the example 10). */
  lemma OpenDefinedInGrid(p: Pos, magic: int)
    requires InBounds(p) && I32_MIN <= magic <= I32_MAX - 39600
    ensures IsOpen(p, magic).Success?
  {
    FormulaInGrid(p, magic);
  }

  /** `check_open`: with the number 10, cell (1, 1) is open. */
  lemma CheckOpen()
    ensures IsOpen((1, 1), 10) == Success(true)
  {
    FormulaInGrid((1, 1), 10);
    PopCountZero(27);
    assert PopCount(18, 32) == PopCount(9, 31) == 1 + PopCount(4, 30) == 1 + PopCount(1, 28);
  }

  lemma {:induction false} PopCountZero(bits: nat)
    ensures PopCount(0, bits) == 0
  {
    if bits > 0 {
      PopCountZero(bits - 1);
    }
  }

  // ---------------------------------------------------------------------
  // Walks
  // ---------------------------------------------------------------------

  predicate OpenCell(p: Pos, plan: Plan) {
    InBounds(p) && plan(p) == Success(true)
  }

  predicate Adjacent(p: Pos, q: Pos) {
    (q.0 == p.0 && (q.1 == p.1 + 1 || q.1 == p.1 - 1))
    || (q.1 == p.1 && (q.0 == p.0 + 1 || q.0 == p.0 - 1))
  }

  /** A walk from (1, 1) of single steps whose cells are all open, the last
      possibly excepted: that is what a queue entry has behind it. */
  predicate Trail(w: seq<Pos>, plan: Plan) {
    |w| >= 1 && w[0] == (1, 1)
    && (forall i :: 0 <= i < |w| - 1 ==> Adjacent(w[i], w[i + 1]))
    && (forall i :: 0 <= i < |w| - 1 ==> OpenCell(w[i], plan))
  }

  /** `p` is reached through open cells in exactly `d` steps. */
  ghost predicate ReachedIn(p: Pos, d: int, plan: Plan) {
    exists w :: Trail(w, plan) && |w| == d + 1 && w[|w| - 1] == p && OpenCell(p, plan)
  }

  /** The queue entry `s` has a trail of `s.dist` steps behind it. */
  ghost predicate Backed(s: Step, plan: Plan) {
    exists w :: Trail(w, plan) && |w| == s.dist + 1 && w[|w| - 1] == (s.x, s.y)
  }

  /** A trail ending in an open cell extends by one step to any neighbour. */
  lemma ExtendTrail(w: seq<Pos>, n: Pos, plan: Plan)
    requires Trail(w, plan) && OpenCell(w[|w| - 1], plan) && Adjacent(w[|w| - 1], n)
    ensures Trail(w + [n], plan)
  {
    var v := w + [n];
    forall i | 0 <= i < |v| - 1
      ensures Adjacent(v[i], v[i + 1]) && OpenCell(v[i], plan)
    {
      if i < |w| - 1 {
        assert v[i] == w[i] && v[i + 1] == w[i + 1];
      }
    }
  }

  /** Expanding an open cell reached in `d` steps backs all four neighbours. */
  lemma Expand(s: Step, plan: Plan, w: seq<Pos>)
    requires Trail(w, plan) && |w| == s.dist + 1 && w[|w| - 1] == (s.x, s.y)
    requires OpenCell((s.x, s.y), plan)
    ensures Backed(Step(s.x + 1, s.y, s.dist + 1), plan)
    ensures Backed(Step(s.x - 1, s.y, s.dist + 1), plan)
    ensures Backed(Step(s.x, s.y + 1, s.dist + 1), plan)
    ensures Backed(Step(s.x, s.y - 1, s.dist + 1), plan)
  {
    ExtendTrail(w, (s.x + 1, s.y), plan);
    assert (w + [(s.x + 1, s.y)])[s.dist + 1] == (s.x + 1, s.y);
    ExtendTrail(w, (s.x - 1, s.y), plan);
    assert (w + [(s.x - 1, s.y)])[s.dist + 1] == (s.x - 1, s.y);
    ExtendTrail(w, (s.x, s.y + 1), plan);
    assert (w + [(s.x, s.y + 1)])[s.dist + 1] == (s.x, s.y + 1);
    ExtendTrail(w, (s.x, s.y - 1), plan);
    assert (w + [(s.x, s.y - 1)])[s.dist + 1] == (s.x, s.y - 1);
  }

  /** Every entry of a queue has a trail behind it, at most `bound` steps long. */
  ghost predicate AllBacked(queue: seq<Step>, plan: Plan, bound: int) {
    forall k :: 0 <= k < |queue| ==> Backed(queue[k], plan) && 0 <= queue[k].dist <= bound
  }

  lemma PopBacked(queue: seq<Step>, plan: Plan, bound: int)
    requires AllBacked(queue, plan, bound) && queue != []
    ensures Backed(queue[0], plan) && 0 <= queue[0].dist <= bound
    ensures AllBacked(queue[1..], plan, bound)
  {
  }

  lemma AllBackedAppend(a: seq<Step>, b: seq<Step>, plan: Plan, bound: int)
    requires AllBacked(a, plan, bound) && AllBacked(b, plan, bound)
    ensures AllBacked(a + b, plan, bound)
  {
    forall k | 0 <= k < |a + b|
      ensures Backed((a + b)[k], plan) && 0 <= (a + b)[k].dist <= bound
    {
      if k < |a| {
        assert (a + b)[k] == a[k];
      } else {
        assert (a + b)[k] == b[k - |a|];
      }
    }
  }

  /** Expanding an open cell keeps every queue entry backed, with the
      bound one higher. */
  lemma ExpandQueue(queue: seq<Step>, s: Step, plan: Plan, bound: int, w: seq<Pos>)
    requires AllBacked(queue, plan, bound) && 0 <= s.dist <= bound
    requires Trail(w, plan) && |w| == s.dist + 1 && w[|w| - 1] == (s.x, s.y)
    requires OpenCell((s.x, s.y), plan)
    ensures AllBacked(queue + Neighbours(s), plan, bound + 1)
  {
    Expand(s, plan, w);
    assert AllBacked(Neighbours(s), plan, bound + 1);
    assert AllBacked(queue, plan, bound + 1);
    AllBackedAppend(queue, Neighbours(s), plan, bound + 1);
  }

  // ---------------------------------------------------------------------
  // The grid's size
  // ---------------------------------------------------------------------

  /** The cells of the grid. */
  function Grid(): (g: set<Pos>)
    ensures forall p :: p in g <==> InBounds(p)
  {
    set x, y | 0 <= x < SIZE && 0 <= y < SIZE :: (x, y)
  }

  function Column(x: int, n: nat): set<Pos> {
    set y | 0 <= y < n :: (x, y)
  }

  function Columns(m: nat): set<Pos> {
    set x, y | 0 <= x < m && 0 <= y < SIZE :: (x, y)
  }

  lemma {:induction false} ColumnSize(x: int, n: nat)
    ensures |Column(x, n)| == n
  {
    if n > 0 {
      ColumnSize(x, n - 1);
      assert Column(x, n) == Column(x, n - 1) + {(x, n - 1)};
    }
  }

  lemma {:induction false} ColumnsSize(m: nat)
    ensures |Columns(m)| == m * SIZE
  {
    if m > 0 {
      ColumnsSize(m - 1);
      ColumnSize(m - 1, SIZE);
      assert Columns(m) == Columns(m - 1) + Column(m - 1, SIZE);
      assert Columns(m - 1) * Column(m - 1, SIZE) == {};
    }
  }

  /** The grid has SIZE² cells. */
  lemma GridSize()
    ensures |Grid()| == SIZE * SIZE
  {
    ColumnsSize(SIZE);
    assert Grid() == Columns(SIZE);
  }

  /** Visiting a new grid cell leaves fewer unvisited ones. */
  lemma Shrinks(seen: set<Pos>, p: Pos)
    requires InBounds(p) && p !in seen
    ensures |Grid() - (seen + {p})| < |Grid() - seen|
  {
    assert p in Grid() - seen;
    assert Grid() - (seen + {p}) == (Grid() - seen) - {p};
  }

  /** Any set of grid cells has at most SIZE² members. */
  lemma CellsBounded(s: set<Pos>)
    requires forall p :: p in s ==> InBounds(p)
    ensures |s| <= SIZE * SIZE
  {
    GridSize();
    var g := Grid();
    assert g == s + (g - s);
  }

  // ---------------------------------------------------------------------
  // The two walks
  // ---------------------------------------------------------------------

  /** The four neighbours queued after expanding `s`, in the source's order. */
  function Neighbours(s: Step): (n: seq<Step>)
    ensures |n| == 4 && forall k :: 0 <= k < 4 ==> n[k].dist == s.dist + 1 && Adjacent((s.x, s.y), (n[k].x, n[k].y))
  {
    [Step(s.x + 1, s.y, s.dist + 1), Step(s.x - 1, s.y, s.dist + 1),
     Step(s.x, s.y + 1, s.dist + 1), Step(s.x, s.y - 1, s.dist + 1)]
  }

  /** The cells a queue will still look at. */
  function Pending(queue: seq<Step>): (cells: set<Pos>)
    ensures forall k :: 0 <= k < |queue| ==> (queue[k].x, queue[k].y) in cells
  {
    if queue == [] then {} else {(queue[0].x, queue[0].y)} + Pending(queue[1..])
  }

  lemma {:induction false} PendingAppend(a: seq<Step>, b: seq<Step>)
    ensures Pending(a + b) == Pending(a) + Pending(b)
  {
    if a != [] {
      assert (a + b)[1..] == a[1..] + b;
      PendingAppend(a[1..], b);
      assert Pending(a + b) == {(a[0].x, a[0].y)} + Pending(a[1..] + b);
    } else {
      assert a + b == b;
    }
  }

  /** No open cell next to a visited one, nor the start if it is open, is
      forgotten: each is visited or still pending. */
  ghost predicate Closed(seen: set<Pos>, queue: seq<Step>, plan: Plan) {
    (OpenCell((1, 1), plan) ==> (1, 1) in seen || (1, 1) in Pending(queue))
    && forall c, n :: c in seen && Adjacent(c, n) && OpenCell(n, plan) ==> n in seen || n in Pending(queue)
  }

  /** Dropping the head of the queue without expanding it keeps the
      invariant when the head's cell is visited or not open. */
  lemma SkipKeepsClosed(seen: set<Pos>, queue: seq<Step>, plan: Plan)
    requires Closed(seen, queue, plan) && queue != []
    requires (queue[0].x, queue[0].y) in seen || !OpenCell((queue[0].x, queue[0].y), plan)
    ensures Closed(seen, queue[1..], plan)
  {
  }

  /** Expanding the head of the queue keeps the invariant. */
  lemma ExpandKeepsClosed(seen: set<Pos>, queue: seq<Step>, plan: Plan)
    requires Closed(seen, queue, plan) && queue != []
    ensures Closed(seen + {(queue[0].x, queue[0].y)}, queue[1..] + Neighbours(queue[0]), plan)
  {
    var s := queue[0];
    PendingAppend(queue[1..], Neighbours(s));
    var n4 := Neighbours(s);
    forall n | Adjacent((s.x, s.y), n)
      ensures n in Pending(n4)
    {
      assert n == (n4[0].x, n4[0].y) || n == (n4[1].x, n4[1].y) || n == (n4[2].x, n4[2].y) || n == (n4[3].x, n4[3].y);
    }
  }

  /** When every grid cell is visited, no cell is left to visit. */
  lemma FullGrid(seen: set<Pos>)
    requires forall p :: p in seen ==> InBounds(p)
    requires |seen| >= SIZE * SIZE
    ensures forall p :: InBounds(p) ==> p in seen
  {
    GridSize();
    var g := Grid();
    assert g == seen + (g - seen);
    assert g - seen == {};
    forall p | InBounds(p)
      ensures p in seen
    {
      assert p in g;
    }
  }

  /** Once nothing is pending, every cell an open walk reaches is visited. */
  lemma {:induction false} ClosedReaches(seen: set<Pos>, plan: Plan, w: seq<Pos>)
    requires Closed(seen, [], plan)
    requires Trail(w, plan) && OpenCell(w[|w| - 1], plan)
    ensures w[|w| - 1] in seen
  {
    if |w| > 1 {
      ClosedReaches(seen, plan, w[..|w| - 1]);
      assert Adjacent(w[|w| - 2], w[|w| - 1]);
    }
  }

  /** `p` is reached through open cells in some number of steps. */
  ghost predicate Reachable(p: Pos, plan: Plan) {
    exists w :: Trail(w, plan) && w[|w| - 1] == p && OpenCell(p, plan)
  }

  // ---------------------------------------------------------------------
  // Breadth-first layers
  // ---------------------------------------------------------------------

  /** The queue of a breadth-first walk: distances never decrease from
      front to back, and the back is at most one step further than the
      front. */
  ghost predicate Layered(q: seq<Step>) {
    (forall i, j :: 0 <= i < j < |q| ==> q[i].dist <= q[j].dist)
    && (q != [] ==> q[|q| - 1].dist <= q[0].dist + 1)
  }

  /** Cell `n` is queued with a distance of at most `e`. */
  ghost predicate PendingWithin(q: seq<Step>, n: Pos, e: int) {
    exists k :: 0 <= k < |q| && (q[k].x, q[k].y) == n && q[k].dist <= e
  }

  /** No walk through open cells reaches `p` in fewer than `d` steps. */
  ghost predicate NoShorter(p: Pos, d: int, plan: Plan) {
    forall w :: Trail(w, plan) && w[|w| - 1] == p ==> d <= |w| - 1
  }

  /** What a breadth-first walk that expands cells reached within `limit`
      steps keeps, with `at` the distance at which each visited cell was
      visited: the queue is layered; the start, and every open neighbour
      of a visited cell within the limit, is visited or queued no further
      than one step past it; and every visited cell was visited at its
      shortest distance. */
  ghost predicate Frontline(at: map<Pos, int>, q: seq<Step>, plan: Plan, limit: int) {
    Layered(q)
    && (OpenCell((1, 1), plan) && 0 <= limit ==> (1, 1) in at || PendingWithin(q, (1, 1), 0))
    && (forall c, n :: c in at && Adjacent(c, n) && OpenCell(n, plan) && at[c] + 1 <= limit ==>
          n in at || PendingWithin(q, n, at[c] + 1))
    && (forall c :: c in at ==> NoShorter(c, at[c], plan))
  }

  lemma FrontStart(plan: Plan, limit: int)
    ensures Frontline(map[], [Step(1, 1, 0)], plan, limit)
  {
    assert (1, 1) == (Step(1, 1, 0).x, Step(1, 1, 0).y);
  }

  /** A queued cell other than the head stays queued once the head is
      popped, whatever is appended. */
  lemma PendingAfterPop(q: seq<Step>, extra: seq<Step>, n: Pos, e: int)
    requires PendingWithin(q, n, e) && q != [] && (q[0].x, q[0].y) != n
    ensures PendingWithin(q[1..] + extra, n, e)
  {
    var k :| 0 <= k < |q| && (q[k].x, q[k].y) == n && q[k].dist <= e;
    assert (q[1..] + extra)[k - 1] == q[k];
  }

  /** Every neighbour of an expanded entry is queued one step further. */
  lemma NeighboursPending(rest: seq<Step>, s: Step, n: Pos)
    requires Adjacent((s.x, s.y), n)
    ensures PendingWithin(rest + Neighbours(s), n, s.dist + 1)
  {
    var q := rest + Neighbours(s);
    var m := |rest|;
    assert q[m] == Step(s.x + 1, s.y, s.dist + 1) && q[m + 1] == Step(s.x - 1, s.y, s.dist + 1);
    assert q[m + 2] == Step(s.x, s.y + 1, s.dist + 1) && q[m + 3] == Step(s.x, s.y - 1, s.dist + 1);
  }

  /** Dropping a head entry the walk does not expand keeps the layers. */
  lemma FrontSkip(at: map<Pos, int>, q: seq<Step>, plan: Plan, limit: int)
    requires Frontline(at, q, plan, limit) && q != []
    requires (q[0].x, q[0].y) in at || !OpenCell((q[0].x, q[0].y), plan) || q[0].dist > limit
    ensures Frontline(at, q[1..], plan, limit)
  {
    var head := (q[0].x, q[0].y);
    assert q[1..] + [] == q[1..];
    if OpenCell((1, 1), plan) && 0 <= limit && (1, 1) !in at && head != (1, 1) {
      PendingAfterPop(q, [], (1, 1), 0);
    }
    forall c, n | c in at && Adjacent(c, n) && OpenCell(n, plan) && at[c] + 1 <= limit && n !in at
      ensures PendingWithin(q[1..], n, at[c] + 1)
    {
      PendingAfterPop(q, [], n, at[c] + 1);
    }
  }

  /** An open cell the walk has not visited, with a walk of at most
      `limit` steps to it, leaves some entry no further than that walk
      in the queue. */
  lemma {:induction false} PendingBefore(at: map<Pos, int>, q: seq<Step>, plan: Plan, limit: int, w: seq<Pos>)
    requires Frontline(at, q, plan, limit)
    requires Trail(w, plan) && OpenCell(w[|w| - 1], plan) && w[|w| - 1] !in at && |w| - 1 <= limit
    ensures exists j :: 0 <= j < |q| && q[j].dist <= |w| - 1
    decreases |w|
  {
    var p := w[|w| - 1];
    if |w| == 1 {
      var k :| 0 <= k < |q| && (q[k].x, q[k].y) == (1, 1) && q[k].dist <= 0;
    } else {
      var v := w[..|w| - 1];
      var c := w[|w| - 2];
      forall i | 0 <= i < |v| - 1
        ensures Adjacent(v[i], v[i + 1]) && OpenCell(v[i], plan)
      {
        assert v[i] == w[i] && v[i + 1] == w[i + 1];
      }
      assert Trail(v, plan) && v[|v| - 1] == c && OpenCell(c, plan);
      if c in at {
        assert at[c] <= |v| - 1;
        assert Adjacent(c, p);
        var k :| 0 <= k < |q| && (q[k].x, q[k].y) == p && q[k].dist <= at[c] + 1;
      } else {
        PendingBefore(at, q, plan, limit, v);
      }
    }
  }

  /** The head entry, when the walk visits it, is at its cell's shortest
      distance. */
  lemma VisitShortest(at: map<Pos, int>, q: seq<Step>, plan: Plan, limit: int)
    requires Frontline(at, q, plan, limit) && q != []
    requires OpenCell((q[0].x, q[0].y), plan) && (q[0].x, q[0].y) !in at && q[0].dist <= limit
    ensures NoShorter((q[0].x, q[0].y), q[0].dist, plan)
  {
    forall w | Trail(w, plan) && w[|w| - 1] == (q[0].x, q[0].y)
      ensures q[0].dist <= |w| - 1
    {
      if |w| - 1 < q[0].dist {
        PendingBefore(at, q, plan, limit, w);
      }
    }
  }

  /** Visiting and expanding the head entry keeps the layers. */
  lemma FrontVisit(at: map<Pos, int>, q: seq<Step>, plan: Plan, limit: int)
    requires Frontline(at, q, plan, limit) && q != []
    requires OpenCell((q[0].x, q[0].y), plan) && (q[0].x, q[0].y) !in at && q[0].dist <= limit
    ensures Frontline(at[(q[0].x, q[0].y) := q[0].dist], q[1..] + Neighbours(q[0]), plan, limit)
  {
    var s := q[0];
    var u := (s.x, s.y);
    var at' := at[u := s.dist];
    var q' := q[1..] + Neighbours(s);
    VisitShortest(at, q, plan, limit);
    forall i, j | 0 <= i < j < |q'|
      ensures q'[i].dist <= q'[j].dist
    {
      if j < |q| - 1 {
        assert q'[i] == q[i + 1] && q'[j] == q[j + 1];
      } else if i < |q| - 1 {
        assert q'[i] == q[i + 1] && q[|q| - 1].dist <= s.dist + 1;
        assert q[i + 1].dist <= q[|q| - 1].dist;
      }
    }
    if |q| > 1 {
      assert q'[0] == q[1] && s.dist <= q[1].dist;
    }
    assert Layered(q');
    if OpenCell((1, 1), plan) && 0 <= limit && (1, 1) !in at' {
      PendingAfterPop(q, Neighbours(s), (1, 1), 0);
    }
    forall c, n | c in at' && Adjacent(c, n) && OpenCell(n, plan) && at'[c] + 1 <= limit && n !in at'
      ensures PendingWithin(q', n, at'[c] + 1)
    {
      if c == u {
        NeighboursPending(q[1..], s, n);
      } else {
        assert at'[c] == at[c];
        PendingAfterPop(q, Neighbours(s), n, at[c] + 1);
      }
    }
  }

  /** With nothing left in the queue, every open cell with a walk of at
      most `limit` steps has been visited. */
  lemma FrontComplete(at: map<Pos, int>, plan: Plan, limit: int, p: Pos, d: int)
    requires Frontline(at, [], plan, limit)
    requires 0 <= d <= limit && ReachedIn(p, d, plan)
    ensures p in at
  {
    var w :| Trail(w, plan) && |w| == d + 1 && w[|w| - 1] == p && OpenCell(p, plan);
    if p !in at {
      PendingBefore(at, [], plan, limit, w);
    }
  }

  /** A lower bound on every walk bounds every distance the cell is
      reached in. */
  lemma NoShorterReached(p: Pos, d: int, plan: Plan)
    requires NoShorter(p, d, plan)
    ensures forall e :: ReachedIn(p, e, plan) ==> d <= e
  {
  }

  /** The state of `search` between two iterations of its loop. */
  datatype Frontier = Frontier(seen: set<Pos>, shortest: int, queue: seq<Step>)

  /** What holds of `search`'s state at the head of its loop: visited
      cells are open, queue entries are backed by trails no longer than
      the number of visited cells, a recorded distance is a real one, and
      until one is recorded no reachable cell is forgotten. */
  ghost predicate SearchInv(st: Frontier, target: Pos, plan: Plan) {
    (forall p :: p in st.seen ==> OpenCell(p, plan))
    && AllBacked(st.queue, plan, |st.seen|)
    && 0 <= st.shortest <= SIZE * SIZE
    && (st.shortest < SIZE * SIZE ==> ReachedIn(target, st.shortest, plan))
    && (st.shortest == SIZE * SIZE ==> target !in st.seen && Closed(st.seen, st.queue, plan))
  }

  /** The loop's first iteration. */
  lemma SearchStart(target: Pos, plan: Plan)
    ensures SearchInv(Frontier({}, SIZE * SIZE, [Step(1, 1, 0)]), target, plan)
  {
    assert Trail([(1, 1)], plan);
  }

  /** Dropping an entry the loop does not expand keeps the invariant. */
  lemma SkipKeeps(st: Frontier, target: Pos, plan: Plan)
    requires SearchInv(st, target, plan) && st.queue != []
    requires var s := st.queue[0];
      !OpenCell((s.x, s.y), plan) || (s.x, s.y) in st.seen || s.dist >= st.shortest
    ensures SearchInv(Frontier(st.seen, st.shortest, st.queue[1..]), target, plan)
  {
    var s := st.queue[0];
    PopBacked(st.queue, plan, |st.seen|);
    if st.shortest == SIZE * SIZE {
      if InBounds((s.x, s.y)) && s.dist >= st.shortest {
        CellsBounded(st.seen);
        FullGrid(st.seen);
      }
      SkipKeepsClosed(st.seen, st.queue, plan);
    }
  }

  /** Visiting the entry at the head of the queue keeps the invariant:
      the target records its distance, any other cell is expanded. */
  lemma VisitKeeps(st: Frontier, target: Pos, plan: Plan) returns (next: Frontier)
    requires SearchInv(st, target, plan) && st.queue != []
    requires var s := st.queue[0];
      OpenCell((s.x, s.y), plan) && (s.x, s.y) !in st.seen && s.dist < st.shortest
    ensures var s := st.queue[0];
      next == if (s.x, s.y) == target
              then Frontier(st.seen + {target}, s.dist, st.queue[1..])
              else Frontier(st.seen + {(s.x, s.y)}, st.shortest, st.queue[1..] + Neighbours(s))
    ensures SearchInv(next, target, plan)
    ensures |Grid() - next.seen| < |Grid() - st.seen|
  {
    var s := st.queue[0];
    var pos := (s.x, s.y);
    PopBacked(st.queue, plan, |st.seen|);
    Shrinks(st.seen, pos);
    var w :| Trail(w, plan) && |w| == s.dist + 1 && w[|w| - 1] == pos;
    assert |st.seen + {pos}| == |st.seen| + 1;
    if pos == target {
      next := Frontier(st.seen + {target}, s.dist, st.queue[1..]);
    } else {
      if st.shortest == SIZE * SIZE {
        ExpandKeepsClosed(st.seen, st.queue, plan);
      }
      ExpandQueue(st.queue[1..], s, plan, |st.seen|, w);
      next := Frontier(st.seen + {pos}, st.shortest, st.queue[1..] + Neighbours(s));
    }
  }

  /** With nothing left pending and no distance recorded, the target is
      out of reach. */
  lemma SearchEnd(st: Frontier, target: Pos, plan: Plan)
    requires SearchInv(st, target, plan) && st.queue == []
    ensures st.shortest == SIZE * SIZE ==> !Reachable(target, plan)
  {
    if st.shortest == SIZE * SIZE {
      forall w | Trail(w, plan) && w[|w| - 1] == target && OpenCell(target, plan)
        ensures false
      {
        ClosedReaches(st.seen, plan, w);
      }
    }
  }

  /** `SearchInv` together with the breadth-first layers while no
      distance is recorded, and the recorded distance's minimality once
      one is. */
  ghost predicate ExploreInv(st: Frontier, at: map<Pos, int>, target: Pos, plan: Plan) {
    SearchInv(st, target, plan)
    && (st.shortest == SIZE * SIZE ==> at.Keys == st.seen && Frontline(at, st.queue, plan, SIZE * SIZE - 1))
    && (st.shortest < SIZE * SIZE ==> NoShorter(target, st.shortest, plan))
  }

  lemma ExploreSkip(st: Frontier, at: map<Pos, int>, target: Pos, plan: Plan)
    requires ExploreInv(st, at, target, plan) && st.queue != []
    requires var s := st.queue[0];
      !OpenCell((s.x, s.y), plan) || (s.x, s.y) in st.seen || s.dist >= st.shortest
    ensures ExploreInv(Frontier(st.seen, st.shortest, st.queue[1..]), at, target, plan)
  {
    SkipKeeps(st, target, plan);
    if st.shortest == SIZE * SIZE {
      FrontSkip(at, st.queue, plan, SIZE * SIZE - 1);
    }
  }

  lemma ExploreVisit(st: Frontier, at: map<Pos, int>, target: Pos, plan: Plan) returns (at': map<Pos, int>)
    requires ExploreInv(st, at, target, plan) && st.queue != []
    requires var s := st.queue[0];
      OpenCell((s.x, s.y), plan) && (s.x, s.y) !in st.seen && s.dist < st.shortest
    ensures var s := st.queue[0];
      ExploreInv(if (s.x, s.y) == target
                 then Frontier(st.seen + {target}, s.dist, st.queue[1..])
                 else Frontier(st.seen + {(s.x, s.y)}, st.shortest, st.queue[1..] + Neighbours(s)), at', target, plan)
    ensures |Grid() - (st.seen + {(st.queue[0].x, st.queue[0].y)})| < |Grid() - st.seen|
  {
    var s := st.queue[0];
    var pos := (s.x, s.y);
    var next := VisitKeeps(st, target, plan);
    at' := at;
    if st.shortest == SIZE * SIZE {
      VisitShortest(at, st.queue, plan, SIZE * SIZE - 1);
      if pos != target {
        FrontVisit(at, st.queue, plan, SIZE * SIZE - 1);
        at' := at[pos := s.dist];
      }
    }
  }

  /** When the queue runs out, a recorded distance is the shortest and no
      recorded distance means the target is out of reach. */
  lemma ExploreEnd(st: Frontier, at: map<Pos, int>, target: Pos, plan: Plan)
    requires ExploreInv(st, at, target, plan) && st.queue == []
    ensures st.shortest < SIZE * SIZE ==> ReachedIn(target, st.shortest, plan)
    ensures st.shortest < SIZE * SIZE ==> forall d :: ReachedIn(target, d, plan) ==> st.shortest <= d
    ensures st.shortest == SIZE * SIZE ==> !Reachable(target, plan)
    ensures 0 <= st.shortest <= SIZE * SIZE && |st.seen| <= SIZE * SIZE
    ensures forall p :: p in st.seen ==> OpenCell(p, plan)
  {
    SearchEnd(st, target, plan);
    if st.shortest < SIZE * SIZE {
      NoShorterReached(target, st.shortest, plan);
    }
    CellsBounded(st.seen);
  }

  /** `search`: a breadth-first walk from (1, 1) that expands a cell only
      when it is inside the grid, open, not yet visited and reached in
      fewer steps than the best distance so far; a cell equal to the
      target records its distance instead of being expanded. A failure
      is the overflow panic of `is_open`. */
  method Explore(target: Pos, plan: Plan) returns (r: Result<Option<int>>, ghost visited: set<Pos>)
    ensures r.Failure? ==> exists p :: InBounds(p) && plan(p).Failure?
    ensures (forall p :: InBounds(p) ==> plan(p).Success?) ==> r.Success?
    ensures r.Success? && r.value.Some? ==> 0 <= r.value.value < SIZE * SIZE && ReachedIn(target, r.value.value, plan)
    ensures r.Success? && r.value.Some? ==> forall d :: ReachedIn(target, d, plan) ==> r.value.value <= d
    ensures r.Success? && r.value.None? ==> !Reachable(target, plan)
    ensures forall p :: p in visited ==> OpenCell(p, plan)
    ensures |visited| <= SIZE * SIZE
  {
    var st := Frontier({}, SIZE * SIZE, [Step(1, 1, 0)]);
    SearchStart(target, plan);
    ghost var at: map<Pos, int> := map[];
    FrontStart(plan, SIZE * SIZE - 1);
    while st.queue != []
      invariant ExploreInv(st, at, target, plan)
      decreases |Grid() - st.seen|, |st.queue|
    {
      var next := st.queue[0];
      var pos := (next.x, next.y);
      var accept := false;
      if InBounds(pos) {
        var open := plan(pos);
        if open.Failure? {
          CellsBounded(st.seen);
          return Failure(open.error), st.seen;
        }
        accept := open.value && pos !in st.seen && next.dist < st.shortest;
      }
      if accept {
        at := ExploreVisit(st, at, target, plan);
        if pos == target {
          st := Frontier(st.seen + {pos}, next.dist, st.queue[1..]);
        } else {
          st := Frontier(st.seen + {pos}, st.shortest, st.queue[1..] + Neighbours(next));
        }
      } else {
        ExploreSkip(st, at, target, plan);
        st := Frontier(st.seen, st.shortest, st.queue[1..]);
      }
    }
    ExploreEnd(st, at, target, plan);
    visited := st.seen;
    r := Success(if st.shortest < SIZE * SIZE then Some(st.shortest) else None);
  }

  /** `p` is reached through open cells in at most `m` steps. */
  ghost predicate ReachedWithin(p: Pos, m: int, plan: Plan) {
    exists d :: 0 <= d <= m && ReachedIn(p, d, plan)
  }

  /** Every counted cell is open and reached within the limit. */
  ghost predicate CountedSound(seen: set<Pos>, maxPath: int, plan: Plan) {
    forall p :: p in seen ==> OpenCell(p, plan) && ReachedWithin(p, maxPath, plan)
  }

  lemma CountedGrows(seen: set<Pos>, maxPath: int, plan: Plan, p: Pos, d: int)
    requires CountedSound(seen, maxPath, plan)
    requires 0 <= d <= maxPath && ReachedIn(p, d, plan)
    ensures CountedSound(seen + {p}, maxPath, plan)
  {
  }

  /** The state of `max_within_range` between two iterations of its loop. */
  datatype Sweep = Sweep(seen: set<Pos>, count: int, queue: seq<Step>)

  /** What holds of `max_within_range`'s state at the head of its loop:
      the count is the number of visited cells, each reached within the
      limit, and with a limit of SIZE² or more no reachable cell is
      forgotten. */
  ghost predicate RangeInv(st: Sweep, maxPath: int, plan: Plan) {
    st.count == |st.seen|
    && CountedSound(st.seen, maxPath, plan)
    && AllBacked(st.queue, plan, |st.seen|)
    && (maxPath >= SIZE * SIZE ==> Closed(st.seen, st.queue, plan))
  }

  lemma RangeStart(maxPath: int, plan: Plan)
    ensures RangeInv(Sweep({}, 0, [Step(1, 1, 0)]), maxPath, plan)
  {
    assert Trail([(1, 1)], plan);
  }

  /** Dropping an entry the loop does not expand keeps the invariant. */
  lemma RangeSkipKeeps(st: Sweep, maxPath: int, plan: Plan)
    requires RangeInv(st, maxPath, plan) && st.queue != []
    requires !OpenCell((st.queue[0].x, st.queue[0].y), plan) || (st.queue[0].x, st.queue[0].y) in st.seen
             || st.queue[0].dist > maxPath
    ensures RangeInv(Sweep(st.seen, st.count, st.queue[1..]), maxPath, plan)
  {
    var s := st.queue[0];
    PopBacked(st.queue, plan, |st.seen|);
    if maxPath >= SIZE * SIZE {
      if InBounds((s.x, s.y)) && s.dist > maxPath {
        CellsBounded(st.seen);
        FullGrid(st.seen);
      }
      SkipKeepsClosed(st.seen, st.queue, plan);
    }
  }

  /** Counting and expanding the entry at the head keeps the invariant. */
  lemma RangeVisitKeeps(st: Sweep, maxPath: int, plan: Plan, s: Step)
    requires RangeInv(st, maxPath, plan) && st.queue != [] && s == st.queue[0]
    requires OpenCell((s.x, s.y), plan) && (s.x, s.y) !in st.seen && s.dist <= maxPath
    ensures RangeInv(Sweep(st.seen + {(s.x, s.y)}, st.count + 1, st.queue[1..] + Neighbours(s)), maxPath, plan)
    ensures |Grid() - (st.seen + {(s.x, s.y)})| < |Grid() - st.seen|
  {
    var pos := (s.x, s.y);
    PopBacked(st.queue, plan, |st.seen|);
    Shrinks(st.seen, pos);
    var w :| Trail(w, plan) && |w| == s.dist + 1 && w[|w| - 1] == pos;
    assert ReachedIn(pos, s.dist, plan);
    var seen := st.seen + {pos};
    assert |seen| == |st.seen| + 1;
    CountedGrows(st.seen, maxPath, plan, pos, s.dist);
    if maxPath >= SIZE * SIZE {
      ExpandKeepsClosed(st.seen, st.queue, plan);
    }
    ExpandQueue(st.queue[1..], s, plan, |st.seen|, w);
    assert AllBacked(st.queue[1..] + Neighbours(s), plan, |seen|);
  }

  /** `RangeInv` together with the breadth-first layers, `at` holding the
      distance each counted cell was reached at. */
  ghost predicate SweepInv(st: Sweep, at: map<Pos, int>, maxPath: int, plan: Plan) {
    RangeInv(st, maxPath, plan) && at.Keys == st.seen && Frontline(at, st.queue, plan, maxPath)
  }

  lemma SweepSkip(st: Sweep, at: map<Pos, int>, maxPath: int, plan: Plan)
    requires SweepInv(st, at, maxPath, plan) && st.queue != []
    requires !OpenCell((st.queue[0].x, st.queue[0].y), plan) || (st.queue[0].x, st.queue[0].y) in st.seen
             || st.queue[0].dist > maxPath
    ensures SweepInv(Sweep(st.seen, st.count, st.queue[1..]), at, maxPath, plan)
  {
    RangeSkipKeeps(st, maxPath, plan);
    FrontSkip(at, st.queue, plan, maxPath);
  }

  lemma SweepVisit(st: Sweep, at: map<Pos, int>, maxPath: int, plan: Plan, s: Step)
    requires SweepInv(st, at, maxPath, plan) && st.queue != [] && s == st.queue[0]
    requires OpenCell((s.x, s.y), plan) && (s.x, s.y) !in st.seen && s.dist <= maxPath
    ensures SweepInv(Sweep(st.seen + {(s.x, s.y)}, st.count + 1, st.queue[1..] + Neighbours(s)),
                     at[(s.x, s.y) := s.dist], maxPath, plan)
    ensures |Grid() - (st.seen + {(s.x, s.y)})| < |Grid() - st.seen|
  {
    RangeVisitKeeps(st, maxPath, plan, s);
    FrontVisit(at, st.queue, plan, maxPath);
  }

  /** When the queue runs out, the counted cells are exactly the open
      cells reached within the limit. */
  lemma SweepEnd(st: Sweep, at: map<Pos, int>, maxPath: int, plan: Plan)
    requires SweepInv(st, at, maxPath, plan) && st.queue == []
    ensures forall p :: p in st.seen <==> ReachedWithin(p, maxPath, plan)
    ensures |st.seen| <= SIZE * SIZE
    ensures maxPath >= SIZE * SIZE ==> forall p :: p in st.seen <==> Reachable(p, plan)
  {
    forall p | ReachedWithin(p, maxPath, plan)
      ensures p in st.seen
    {
      var d :| 0 <= d <= maxPath && ReachedIn(p, d, plan);
      FrontComplete(at, plan, maxPath, p, d);
    }
    CellsBounded(st.seen);
    if maxPath >= SIZE * SIZE {
      RangeComplete(st, maxPath, plan);
    }
  }

  /** With nothing left pending and no limit in the way, the counted
      cells are exactly the reachable ones. */
  lemma RangeComplete(st: Sweep, maxPath: int, plan: Plan)
    requires RangeInv(st, maxPath, plan) && st.queue == [] && maxPath >= SIZE * SIZE
    ensures forall p :: p in st.seen <==> Reachable(p, plan)
  {
    forall p | Reachable(p, plan)
      ensures p in st.seen
    {
      var w :| Trail(w, plan) && w[|w| - 1] == p && OpenCell(p, plan);
      ClosedReaches(st.seen, plan, w);
    }
    forall p | p in st.seen
      ensures Reachable(p, plan)
    {
      var d :| 0 <= d <= maxPath && ReachedIn(p, d, plan);
    }
  }

  /** `max_within_range`: the same walk without a target, expanding every
      open cell first reached within `maxPath` steps and counting it. */
  method CountWithin(maxPath: int, plan: Plan) returns (r: Result<int>, ghost counted: set<Pos>)
    ensures r.Failure? ==> exists p :: InBounds(p) && plan(p).Failure?
    ensures (forall p :: InBounds(p) ==> plan(p).Success?) ==> r.Success?
    ensures r.Success? ==> r.value == |counted| <= SIZE * SIZE
    ensures forall p :: p in counted ==> OpenCell(p, plan) && ReachedWithin(p, maxPath, plan)
    ensures r.Success? ==> forall p :: p in counted <==> ReachedWithin(p, maxPath, plan)
    ensures r.Success? && maxPath >= SIZE * SIZE ==> forall p :: p in counted <==> Reachable(p, plan)
  {
    var st := Sweep({}, 0, [Step(1, 1, 0)]);
    RangeStart(maxPath, plan);
    ghost var at: map<Pos, int> := map[];
    FrontStart(plan, maxPath);
    while st.queue != []
      invariant SweepInv(st, at, maxPath, plan)
      decreases |Grid() - st.seen|, |st.queue|
    {
      var next := st.queue[0];
      var pos := (next.x, next.y);
      var accept := false;
      if InBounds(pos) {
        var open := plan(pos);
        if open.Failure? {
          return Failure(open.error), st.seen;
        }
        accept := open.value && pos !in st.seen && next.dist <= maxPath;
      }
      if accept {
        SweepVisit(st, at, maxPath, plan, next);
        at := at[pos := next.dist];
        st := Sweep(st.seen + {pos}, st.count + 1, st.queue[1..] + Neighbours(next));
      } else {
        SweepSkip(st, at, maxPath, plan);
        st := Sweep(st.seen, st.count, st.queue[1..]);
      }
    }
    SweepEnd(st, at, maxPath, plan);
    counted := st.seen;
    r := Success(st.count);
  }

  /** The floor plan of one designer's number. */
  function FloorPlan(magic: int): Plan {
    p => IsOpen(p, magic)
  }

  /** Inside the grid the plan of an `i32` designer's number panics only
      when that number is within 39600 of the `i32` maximum. */
  lemma FloorPlanDefined(magic: int)
    requires I32_MIN <= magic <= I32_MAX - 39600
    ensures forall p :: InBounds(p) ==> FloorPlan(magic)(p).Success?
  {
    forall p | InBounds(p)
      ensures FloorPlan(magic)(p).Success?
    {
      OpenDefinedInGrid(p, magic);
    }
  }

  /** `search` for one designer's number. */
  method Search(target: Pos, magic: int) returns (r: Result<Option<int>>, ghost visited: set<Pos>)
    requires I32_MIN <= magic <= I32_MAX
    ensures r.Failure? ==> exists p :: InBounds(p) && IsOpen(p, magic).Failure?
    ensures magic <= I32_MAX - 39600 ==> r.Success?
    ensures r.Success? && r.value.Some? ==> 0 <= r.value.value < SIZE * SIZE && ReachedIn(target, r.value.value, FloorPlan(magic))
    ensures r.Success? && r.value.Some? ==> forall d :: ReachedIn(target, d, FloorPlan(magic)) ==> r.value.value <= d
    ensures r.Success? && r.value.None? ==> !Reachable(target, FloorPlan(magic))
    ensures forall p :: p in visited ==> OpenCell(p, FloorPlan(magic))
    ensures |visited| <= SIZE * SIZE
  {
    if magic <= I32_MAX - 39600 {
      FloorPlanDefined(magic);
    }
    r, visited := Explore(target, FloorPlan(magic));
  }

  /** `max_within_range` for one designer's number. */
  method MaxWithinRange(maxPath: int, magic: int) returns (r: Result<int>, ghost counted: set<Pos>)
    requires I32_MIN <= maxPath <= I32_MAX && I32_MIN <= magic <= I32_MAX
    ensures r.Failure? ==> exists p :: InBounds(p) && IsOpen(p, magic).Failure?
    ensures magic <= I32_MAX - 39600 ==> r.Success?
    ensures r.Success? ==> r.value == |counted| <= SIZE * SIZE
    ensures forall p :: p in counted ==> OpenCell(p, FloorPlan(magic)) && ReachedWithin(p, maxPath, FloorPlan(magic))
    ensures r.Success? ==> forall p :: p in counted <==> ReachedWithin(p, maxPath, FloorPlan(magic))
    ensures r.Success? && maxPath >= SIZE * SIZE ==> forall p :: p in counted <==> Reachable(p, FloorPlan(magic))
  {
    if magic <= I32_MAX - 39600 {
      FloorPlanDefined(magic);
    }
    r, counted := CountWithin(maxPath, FloorPlan(magic));
  }
}
