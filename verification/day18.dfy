/**
 * Day 18, "RAM Run": bytes fall onto a 71 by 71 memory space and block the
 * cells they land on. A breadth-first search finds the fewest steps from
 * the top-left corner to the bottom-right one; part 1 searches after the
 * first 1024 bytes, part 2 finds the first byte after which no path is left.
 *
 * The search marks the corner (0, 0) visited before it starts and is only
 * ever started there, so the model fixes the start to that corner.
 */
module RamRun {

  import opened Options
  import Decimal

  const Max: int := 70
  const UsizeMax: int := 0xFFFF_FFFF_FFFF_FFFF
  const Fallen: nat := 1024

  type Pos = (int, int)

  const Origin: Pos := (0, 0)
  const Exit: Pos := (Max, Max)

  /** `overflowing_sub(1)` on a `usize`: 0 wraps to the largest value. */
  function Dec(x: int): int {
    if x == 0 then UsizeMax else x - 1
  }

  /** Neighbour k of the four the search tries, in order: x - 1, y - 1, x + 1, y + 1. */
  function Neighbor(p: Pos, k: nat): Pos {
    if k == 0 then (Dec(p.0), p.1)
    else if k == 1 then (p.0, Dec(p.1))
    else if k == 2 then (p.0 + 1, p.1)
    else (p.0, p.1 + 1)
  }

  /** Neighbours of a cell of the memory space have no negative coordinate: 0 - 1 wraps upward. */
  lemma {:induction false} NeighborNotNegative(p: Pos, k: nat)
    requires InBox(p)
    ensures Neighbor(p, k).0 >= 0 && Neighbor(p, k).1 >= 0
  {
  }

  predicate InBox(q: Pos) {
    0 <= q.0 <= Max && 0 <= q.1 <= Max
  }

  /** A cell the search may enter: inside the memory space and not blocked. */
  predicate Open(blocked: set<Pos>, q: Pos) {
    InBox(q) && q !in blocked
  }

  function Box(): set<Pos> {
    set x, y | 0 <= x <= Max && 0 <= y <= Max :: (x, y)
  }

  // ---------------------------------------------------------------- Reachability

  /** The open cells one move away from some cell of `s`. */
  ghost function Frontier(blocked: set<Pos>, s: set<Pos>): set<Pos> {
    set p, k | p in s && 0 <= k < 4 && Open(blocked, Neighbor(p, k)) :: Neighbor(p, k)
  }

  /** The cells reachable from the corner in at most n moves through open cells. */
  ghost function Reach(blocked: set<Pos>, n: nat): set<Pos>
    decreases n
  {
    if n == 0 then {Origin} else Reach(blocked, n - 1) + Frontier(blocked, Reach(blocked, n - 1))
  }

  /** The fewest moves from the corner to q are exactly n. */
  ghost predicate AtDist(blocked: set<Pos>, q: Pos, n: nat) {
    q in Reach(blocked, n) && (n == 0 || q !in Reach(blocked, n - 1))
  }

  /** No number of moves reaches `end`. */
  ghost predicate Unreachable(blocked: set<Pos>, end: Pos) {
    forall n: nat :: end !in Reach(blocked, n)
  }

  lemma {:induction false} ReachMonotone(blocked: set<Pos>, i: nat, j: nat)
    requires i <= j
    ensures Reach(blocked, i) <= Reach(blocked, j)
    decreases j
  {
    if i < j {
      ReachMonotone(blocked, i, j - 1);
    }
  }

  /** Every reachable cell is the corner or an open cell. */
  lemma {:induction false} ReachOpen(blocked: set<Pos>, n: nat)
    ensures forall q | q in Reach(blocked, n) :: q == Origin || Open(blocked, q)
    decreases n
  {
    if n > 0 {
      ReachOpen(blocked, n - 1);
    }
  }

  /** A set holding the corner and closed under open moves holds every reachable cell. */
  lemma {:induction false} ClosedHoldsReach(blocked: set<Pos>, s: set<Pos>, n: nat)
    requires Origin in s && Closed(blocked, s, s)
    ensures Reach(blocked, n) <= s
    decreases n
  {
    if n > 0 {
      ClosedHoldsReach(blocked, s, n - 1);
      forall q | q in Frontier(blocked, Reach(blocked, n - 1)) ensures q in s {
        var p, k :| p in Reach(blocked, n - 1) && 0 <= k < 4 && Open(blocked, Neighbor(p, k)) && q == Neighbor(p, k);
      }
    }
  }

  // ---------------------------------------------------------------- The search

  /** Every open neighbour of a cell of `done` is in `visited`. */
  ghost predicate Closed(blocked: set<Pos>, done: set<Pos>, visited: set<Pos>) {
    forall c, k | c in done && 0 <= k < 4 && Open(blocked, Neighbor(c, k)) :: Neighbor(c, k) in visited
  }

  function Cells(queue: seq<(Pos, nat)>): set<Pos> {
    set i | 0 <= i < |queue| :: queue[i].0
  }

  /** Each queue entry carries its cell's exact distance, and its cell is visited. */
  ghost predicate Exact(blocked: set<Pos>, visited: set<Pos>, queue: seq<(Pos, nat)>) {
    forall i | 0 <= i < |queue| :: queue[i].0 in visited && AtDist(blocked, queue[i].0, queue[i].1)
  }

  /** Distances in the queue never fall and span at most one level. */
  predicate Levels(queue: seq<(Pos, nat)>) {
    forall i, j | 0 <= i <= j < |queue| :: queue[i].1 <= queue[j].1 <= queue[i].1 + 1
  }

  /**
   * The search's invariant between two pops: the visited cells are the
   * expanded ones and the queued ones; expanded cells have all their open
   * neighbours visited; every cell closer than the queue's front is
   * expanded; `end` is only visited if it is the corner.
   */
  ghost predicate SearchInv(blocked: set<Pos>, end: Pos, visited: set<Pos>, queue: seq<(Pos, nat)>, done: set<Pos>) {
    && Origin in visited
    && visited == done + Cells(queue)
    && Exact(blocked, visited, queue)
    && Levels(queue)
    && Closed(blocked, done, visited)
    && FrontExpanded(blocked, queue, done)
    && (end in visited ==> end == Origin)
  }

  /** Every cell closer than the front of the queue is expanded. */
  ghost predicate FrontExpanded(blocked: set<Pos>, queue: seq<(Pos, nat)>, done: set<Pos>) {
    |queue| > 0 && queue[0].1 > 0 ==> Reach(blocked, queue[0].1 - 1) <= done
  }

  /** With the cells closer than level d expanded, every cell within d moves is visited. */
  lemma {:induction false} LevelVisited(blocked: set<Pos>, visited: set<Pos>, done: set<Pos>, d: nat)
    requires done <= visited && Closed(blocked, done, visited) && Origin in visited
    requires d > 0 ==> Reach(blocked, d - 1) <= done
    ensures Reach(blocked, d) <= visited
  {
    if d > 0 {
      forall q | q in Frontier(blocked, Reach(blocked, d - 1)) ensures q in visited {
        var p, k :| p in Reach(blocked, d - 1) && 0 <= k < 4 && Open(blocked, Neighbor(p, k)) && q == Neighbor(p, k);
      }
    }
  }

  /** Once the front of the queue is at level d + 1, every cell within d moves is expanded. */
  lemma {:induction false} LevelDone(blocked: set<Pos>, visited: set<Pos>, queue: seq<(Pos, nat)>, done: set<Pos>, d: nat)
    requires visited == done + Cells(queue) && Exact(blocked, visited, queue)
    requires Reach(blocked, d) <= visited
    requires forall i | 0 <= i < |queue| :: queue[i].1 >= d + 1
    ensures Reach(blocked, d) <= done
  {
    forall q | q in Reach(blocked, d) ensures q in done {
      if q !in done {
        assert q in Cells(queue);
        var i :| 0 <= i < |queue| && queue[i].0 == q;
        NotCloser(blocked, q, queue[i].1, d);
      }
    }
  }

  /** A cell at distance e is not within fewer moves. */
  lemma {:induction false} NotCloser(blocked: set<Pos>, q: Pos, e: nat, d: nat)
    requires AtDist(blocked, q, e) && d < e
    ensures q !in Reach(blocked, d)
  {
    ReachMonotone(blocked, d, e - 1);
  }

  /** Marking a new cell of the memory space visited brings the unvisited count down by one. */
  lemma {:induction false} VisitOne(visited: set<Pos>, q: Pos)
    requires InBox(q) && q !in visited
    ensures |Box() - (visited + {q})| == |Box() - visited| - 1
  {
    assert q in Box();
    assert Box() - (visited + {q}) == (Box() - visited) - {q};
  }

  lemma {:induction false} CellsTail(queue: seq<(Pos, nat)>)
    requires |queue| > 0
    ensures Cells(queue) == Cells(queue[1..]) + {queue[0].0}
  {
    var rest := queue[1..];
    forall q | q in Cells(queue) ensures q in Cells(rest) + {queue[0].0} {
      var i :| 0 <= i < |queue| && queue[i].0 == q;
      if i > 0 {
        assert rest[i - 1] == queue[i];
      }
    }
    forall q | q in Cells(rest) ensures q in Cells(queue) {
      var i :| 0 <= i < |rest| && rest[i].0 == q;
      assert queue[i + 1] == rest[i];
    }
  }

  lemma {:induction false} CellsAppend(queue: seq<(Pos, nat)>, e: (Pos, nat))
    ensures Cells(queue + [e]) == Cells(queue) + {e.0}
  {
    var queue' := queue + [e];
    assert queue'[|queue|] == e;
    forall q | q in Cells(queue') ensures q in Cells(queue) + {e.0} {
      var i :| 0 <= i < |queue'| && queue'[i].0 == q;
      if i < |queue| {
        assert queue'[i] == queue[i];
      }
    }
    forall q | q in Cells(queue) ensures q in Cells(queue') {
      var i :| 0 <= i < |queue| && queue[i].0 == q;
      assert queue'[i] == queue[i];
    }
  }

  /** Queueing a cell at its exact distance, and visiting it, keeps every entry exact. */
  lemma {:induction false} ExactAppend(blocked: set<Pos>, visited: set<Pos>, queue: seq<(Pos, nat)>, q: Pos, e: nat)
    requires Exact(blocked, visited, queue) && AtDist(blocked, q, e)
    ensures Exact(blocked, visited + {q}, queue + [(q, e)])
  {
    var queue' := queue + [(q, e)];
    forall i | 0 <= i < |queue'| ensures queue'[i].0 in visited + {q} && AtDist(blocked, queue'[i].0, queue'[i].1) {
      if i < |queue| {
        assert queue'[i] == queue[i];
      }
    }
  }

  /** Appending a level d + 1 entry to a queue of levels d and d + 1 keeps the levels in order. */
  lemma {:induction false} LevelsAppend(queue: seq<(Pos, nat)>, q: Pos, d: nat)
    requires Levels(queue) && forall i | 0 <= i < |queue| :: d <= queue[i].1 <= d + 1
    ensures var queue' := queue + [(q, d + 1)];
            Levels(queue') && forall i | 0 <= i < |queue'| :: d <= queue'[i].1 <= d + 1
  {
    var queue' := queue + [(q, d + 1)];
    assert forall i | 0 <= i < |queue| :: queue'[i] == queue[i];
  }

  /**
   * The invariant while cell p, at distance d, has its first k neighbours
   * tried: as between pops, except that p's later neighbours may still be
   * unvisited, and the queue holds only levels d and d + 1.
   */
  ghost predicate Expanding(blocked: set<Pos>, end: Pos, visited: set<Pos>, queue: seq<(Pos, nat)>, done: set<Pos>,
                            p: Pos, d: nat, k: nat) {
    && k <= 4 && InBox(p)
    && Origin in visited && visited == done + Cells(queue) && p in done
    && Exact(blocked, visited, queue) && Levels(queue)
    && (forall i | 0 <= i < |queue| :: d <= queue[i].1 <= d + 1)
    && Closed(blocked, done - {p}, visited)
    && (forall j | 0 <= j < k && Open(blocked, Neighbor(p, j)) :: Neighbor(p, j) in visited)
    && p in Reach(blocked, d) && Reach(blocked, d) <= visited
    && (d > 0 ==> Reach(blocked, d - 1) <= done)
    && (end in visited ==> end == Origin)
  }

  /** Popping the front of the queue starts its expansion. */
  lemma {:induction false} StartExpanding(blocked: set<Pos>, end: Pos, visited: set<Pos>, queue: seq<(Pos, nat)>, done: set<Pos>)
    requires SearchInv(blocked, end, visited, queue, done) && |queue| > 0
    ensures Expanding(blocked, end, visited, queue[1..], done + {queue[0].0}, queue[0].0, queue[0].1, 0)
  {
    var (p, d) := queue[0];
    LevelVisited(blocked, visited, done, d);
    ReachOpen(blocked, d);
    CellsTail(queue);
    var rest := queue[1..];
    assert forall i | 0 <= i < |rest| :: rest[i] == queue[i + 1];
  }

  /** Trying a neighbour that is closed or already visited changes nothing. */
  lemma {:induction false} SkipNeighbor(blocked: set<Pos>, end: Pos, visited: set<Pos>, queue: seq<(Pos, nat)>, done: set<Pos>,
                                        p: Pos, d: nat, k: nat)
    requires Expanding(blocked, end, visited, queue, done, p, d, k) && k < 4
    requires !Open(blocked, Neighbor(p, k)) || Neighbor(p, k) in visited
    ensures Expanding(blocked, end, visited, queue, done, p, d, k + 1)
  {
  }

  /** An open, unvisited neighbour is exactly one move further than p. */
  lemma {:induction false} NewNeighbor(blocked: set<Pos>, end: Pos, visited: set<Pos>, queue: seq<(Pos, nat)>, done: set<Pos>,
                                       p: Pos, d: nat, k: nat)
    requires Expanding(blocked, end, visited, queue, done, p, d, k) && k < 4
    requires Open(blocked, Neighbor(p, k)) && Neighbor(p, k) !in visited
    ensures Neighbor(p, k) != Origin && AtDist(blocked, Neighbor(p, k), d + 1)
  {
    var q := Neighbor(p, k);
    assert q !in Reach(blocked, d);
    assert q in Frontier(blocked, Reach(blocked, d));
  }

  /** Visiting and queueing an open, unvisited neighbour that is not `end`. */
  lemma {:induction false} QueueNeighbor(blocked: set<Pos>, end: Pos, visited: set<Pos>, queue: seq<(Pos, nat)>, done: set<Pos>,
                                         p: Pos, d: nat, k: nat)
    requires Expanding(blocked, end, visited, queue, done, p, d, k) && k < 4
    requires Open(blocked, Neighbor(p, k)) && Neighbor(p, k) !in visited && Neighbor(p, k) != end
    ensures var q := Neighbor(p, k);
            Expanding(blocked, end, visited + {q}, queue + [(q, d + 1)], done, p, d, k + 1)
  {
    var q := Neighbor(p, k);
    NewNeighbor(blocked, end, visited, queue, done, p, d, k);
    CellsAppend(queue, (q, d + 1));
    ExactAppend(blocked, visited, queue, q, d + 1);
    LevelsAppend(queue, q, d);
  }

  /** With all four neighbours tried, p is expanded and the invariant between pops holds again. */
  lemma {:induction false} FinishExpanding(blocked: set<Pos>, end: Pos, visited: set<Pos>, queue: seq<(Pos, nat)>, done: set<Pos>,
                                           p: Pos, d: nat)
    requires Expanding(blocked, end, visited, queue, done, p, d, 4)
    ensures SearchInv(blocked, end, visited, queue, done)
  {
    ClosedWithLast(blocked, done, visited, p);
    if |queue| > 0 && queue[0].1 == d + 1 {
      LevelDone(blocked, visited, queue, done, d);
    }
    FrontLevel(blocked, queue, done, d);
  }

  /** Every cell closer than the new front of the queue is expanded. */
  lemma {:induction false} FrontLevel(blocked: set<Pos>, queue: seq<(Pos, nat)>, done: set<Pos>, d: nat)
    requires |queue| > 0 ==> d <= queue[0].1 <= d + 1
    requires d > 0 ==> Reach(blocked, d - 1) <= done
    requires |queue| > 0 && queue[0].1 == d + 1 ==> Reach(blocked, d) <= done
    ensures FrontExpanded(blocked, queue, done)
  {
    if |queue| > 0 && queue[0].1 > 0 {
      var n: nat := queue[0].1 - 1;
      assert n == d || n == d - 1;
    }
  }

  /** Closing the last cell of `done` closes all of it. */
  lemma {:induction false} ClosedWithLast(blocked: set<Pos>, done: set<Pos>, visited: set<Pos>, p: Pos)
    requires Closed(blocked, done - {p}, visited)
    requires forall j | 0 <= j < 4 && Open(blocked, Neighbor(p, j)) :: Neighbor(p, j) in visited
    ensures Closed(blocked, done, visited)
  {
    forall c, k | c in done && 0 <= k < 4 && Open(blocked, Neighbor(c, k)) ensures Neighbor(c, k) in visited {
      if c != p {
        assert c in done - {p};
      }
    }
  }

  /** The search starts with the corner visited and queued at distance 0. */
  lemma {:induction false} SearchStarts(blocked: set<Pos>, end: Pos)
    ensures SearchInv(blocked, end, {Origin}, [(Origin, 0)], {})
  {
    var queue := [(Origin, 0)];
    assert queue[0].0 == Origin;
    assert Cells(queue) == {Origin};
  }

  /** A search whose queue has drained has visited every reachable cell. */
  lemma {:induction false} Drained(blocked: set<Pos>, end: Pos, visited: set<Pos>, done: set<Pos>)
    requires SearchInv(blocked, end, visited, [], done)
    ensures end == Origin || Unreachable(blocked, end)
  {
    assert Cells([]) == {};
    if end != Origin {
      forall n: nat ensures end !in Reach(blocked, n) {
        ClosedHoldsReach(blocked, visited, n);
      }
    }
  }

  /**
   * From (visited, queue) to (visited', queue'): entries are only appended,
   * each for a cell not visited before and not appended twice, and exactly
   * the appended cells become visited.
   */
  predicate Fresh(visited: set<Pos>, queue: seq<(Pos, nat)>, visited': set<Pos>, queue': seq<(Pos, nat)>) {
    && |queue| <= |queue'| && queue'[..|queue|] == queue
    && visited' == visited + Cells(queue'[|queue|..])
    && (forall i | |queue| <= i < |queue'| :: queue'[i].0 !in visited)
    && (forall i, j | |queue| <= i < j < |queue'| :: queue'[i].0 != queue'[j].0)
  }

  lemma {:induction false} FreshAppend(visited: set<Pos>, queue: seq<(Pos, nat)>, visited': set<Pos>, queue': seq<(Pos, nat)>,
                                       e: (Pos, nat))
    requires Fresh(visited, queue, visited', queue') && e.0 !in visited'
    ensures Fresh(visited, queue, visited' + {e.0}, queue' + [e])
  {
    var n := |queue|;
    var queue'' := queue' + [e];
    assert queue''[..n] == queue'[..n];
    assert queue''[n..] == queue'[n..] + [e];
    CellsAppend(queue'[n..], e);
    forall i | n <= i < |queue'| ensures queue'[i].0 in Cells(queue'[n..]) {
      assert queue'[n..][i - n] == queue'[i];
    }
  }

  /**
   * The `for` loop over the four neighbours of a popped cell p at distance
   * d: skip those outside the memory space, blocked or visited; report
   * `end` at d + 1 when it turns up; otherwise visit and queue the cell.
   */
  method Expand(blocked: set<Pos>, end: Pos, visited: set<Pos>, queue: seq<(Pos, nat)>, ghost done: set<Pos>, p: Pos, d: nat)
    returns (hit: bool, visited': set<Pos>, queue': seq<(Pos, nat)>)
    requires Expanding(blocked, end, visited, queue, done, p, d, 0)
    ensures hit ==> end != Origin && AtDist(blocked, end, d + 1)
    ensures !hit ==> Expanding(blocked, end, visited', queue', done, p, d, 4)
    ensures 5 * |Box() - visited'| + |queue'| <= 5 * |Box() - visited| + |queue|
    ensures !hit ==> Fresh(visited, queue, visited', queue')
  {
    visited', queue' := visited, queue;
    assert queue'[|queue|..] == [];
    assert Cells([]) == {};
    var k := 0;
    while k < 4
      invariant Expanding(blocked, end, visited', queue', done, p, d, k)
      invariant 5 * |Box() - visited'| + |queue'| <= 5 * |Box() - visited| + |queue|
      invariant Fresh(visited, queue, visited', queue')
    {
      var q := Neighbor(p, k);
      NeighborNotNegative(p, k);
      if q.0 > Max || q.1 > Max || q in blocked || q in visited' {
        SkipNeighbor(blocked, end, visited', queue', done, p, d, k);
      } else {
        NewNeighbor(blocked, end, visited', queue', done, p, d, k);
        if q == end {
          return true, visited', queue';
        }
        QueueNeighbor(blocked, end, visited', queue', done, p, d, k);
        FreshAppend(visited, queue, visited', queue', (q, d + 1));
        VisitOne(visited', q);
        visited' := visited' + {q};
        queue' := queue' + [(q, d + 1)];
      }
      k := k + 1;
    }
    hit := false;
  }

  /**
   * `bfs` from the corner to `end`: `Some(d)` exactly when `end` is not the
   * corner and d is the fewest moves to it, `None` when no path exists (or
   * `end` is the corner, which the search marks visited before it starts).
   * Each cell is marked visited before it is queued, so none is queued twice.
   */
  method Bfs(blocked: set<Pos>, end: Pos) returns (r: Option<nat>)
    ensures r.Some? ==> end != Origin && AtDist(blocked, end, r.value) && r.value > 0
    ensures r.None? ==> end == Origin || Unreachable(blocked, end)
  {
    var visited: set<Pos> := {Origin};
    var queue: seq<(Pos, nat)> := [(Origin, 0)];
    ghost var done: set<Pos> := {};
    SearchStarts(blocked, end);
    while |queue| > 0
      invariant SearchInv(blocked, end, visited, queue, done)
      decreases 5 * |Box() - visited| + |queue|
    {
      StartExpanding(blocked, end, visited, queue, done);
      var p, d := queue[0].0, queue[0].1;
      done := done + {p};
      var hit;
      hit, visited, queue := Expand(blocked, end, visited, queue[1..], done, p, d);
      if hit {
        return Some(d + 1);
      }
      FinishExpanding(blocked, end, visited, queue, done, p, d);
    }
    Drained(blocked, end, visited, done);
    return None;
  }

  // ---------------------------------------------------------------- The two parts

  /** The cells blocked by the first n bytes. */
  function Blocks(coords: seq<Pos>, n: nat): set<Pos> {
    set k | 0 <= k < n && k < |coords| :: coords[k]
  }

  /** The exit is cut off once the first k + 1 bytes have fallen. */
  ghost predicate Cut(coords: seq<Pos>, k: nat) {
    Unreachable(Blocks(coords, k + 1), Exit)
  }

  /**
   * The first n bytes land inside the memory space; writing a byte outside
   * it into the blocked array panics on the index.
   */
  predicate LandInBox(coords: seq<Pos>, n: nat) {
    forall k | 0 <= k < n && k < |coords| :: InBox(coords[k])
  }

  /**
   * `solve_part_1`: the fewest moves to the exit once the first 1024 bytes
   * have fallen. `None` stands for the source's panics: one of those bytes
   * lies outside the memory space, or the `unwrap` finds no path left.
   */
  method SolvePart1(coords: seq<Pos>) returns (r: Option<nat>)
    ensures r.Some? ==> LandInBox(coords, Fallen) && AtDist(Blocks(coords, Fallen), Exit, r.value)
    ensures r.None? <==> !LandInBox(coords, Fallen) || Unreachable(Blocks(coords, Fallen), Exit)
  {
    if !LandInBox(coords, Fallen) {
      return None;
    }
    r := Bfs(Blocks(coords, Fallen), Exit);
    if r.Some? {
      assert Exit in Reach(Blocks(coords, Fallen), r.value);
    }
  }

  /** How the part 2 loop ends: at a blocking byte, after every byte, or by a panic on a byte outside the space. */
  datatype Stop = Blocking(k: nat) | Exhausted | OutOfBox(k: nat)

  /**
   * The search in `solve_part_2`: block the bytes one by one and stop at
   * the first whose fall leaves no path to the exit, or panic at the first
   * byte outside the memory space, whichever comes first.
   */
  method FirstBlocking(coords: seq<Pos>) returns (r: Stop)
    ensures r.Blocking? ==> r.k < |coords| && LandInBox(coords, r.k + 1) && Cut(coords, r.k)
    ensures r.OutOfBox? ==> r.k < |coords| && LandInBox(coords, r.k) && !InBox(coords[r.k])
    ensures r.Exhausted? ==> LandInBox(coords, |coords|)
    ensures forall j | 0 <= j < |coords| && (r.Exhausted? || j < r.k) :: !Cut(coords, j)
  {
    var blocked: set<Pos> := {};
    var k := 0;
    while k < |coords|
      invariant k <= |coords| && blocked == Blocks(coords, k)
      invariant LandInBox(coords, k)
      invariant forall j | 0 <= j < k :: !Cut(coords, j)
    {
      if !InBox(coords[k]) {
        return OutOfBox(k);
      }
      blocked := blocked + {coords[k]};
      assert blocked == Blocks(coords, k + 1);
      var found := Bfs(blocked, Exit);
      if found.None? {
        return Blocking(k);
      }
      assert Exit in Reach(blocked, found.value);
      k := k + 1;
    }
    return Exhausted;
  }

  /**
   * `solve_part_2`: the first blocking byte as "x,y", or "No answer found";
   * `None` where the loop panics on a byte outside the memory space before
   * any byte blocks the exit.
   */
  method SolvePart2(coords: seq<Pos>) returns (s: Option<seq<char>>)
    ensures s == Some("No answer found") <==> LandInBox(coords, |coords|) && forall j | 0 <= j < |coords| :: !Cut(coords, j)
    ensures s.Some? && s.value != "No answer found" ==>
              exists k | 0 <= k < |coords| :: && LandInBox(coords, k) && InBox(coords[k])
                                               && s.value == Decimal.Text(coords[k].0) + "," + Decimal.Text(coords[k].1)
                                               && Cut(coords, k) && forall j | 0 <= j < k :: !Cut(coords, j)
    ensures s.None? ==>
              exists k | 0 <= k < |coords| :: !InBox(coords[k]) && LandInBox(coords, k)
                                               && forall j | 0 <= j < k :: !Cut(coords, j)
  {
    var r := FirstBlocking(coords);
    match r
    case Exhausted =>
      s := Some("No answer found");
    case OutOfBox(k) =>
      s := None;
    case Blocking(k) =>
      s := Some(Decimal.Text(coords[k].0) + "," + Decimal.Text(coords[k].1));
      assert s.value != "No answer found" by {
        NotNoAnswer(coords[k].0, coords[k].1);
      }
  }

  /** A formatted coordinate pair is never the "No answer found" message: it has a comma. */
  lemma {:induction false} NotNoAnswer(x: nat, y: nat)
    ensures Decimal.Text(x) + "," + Decimal.Text(y) != "No answer found"
  {
    var s := Decimal.Text(x) + "," + Decimal.Text(y);
    assert s[|Decimal.Text(x)|] == ',';
    assert forall i | 0 <= i < |"No answer found"| :: "No answer found"[i] != ',';
  }
}
