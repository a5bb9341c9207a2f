/**
 * Day 20, "Race Condition": a racetrack on a grid of walls ('#') and open
 * cells. A breadth-first search records, for every cell, the number of
 * moves it takes to reach it from the start; walls and the end receive a
 * distance but are never walked through. Part 1 tries removing each wall
 * that the search reached sooner than the end, searches again, and counts
 * the walls whose removal brings the end at least 100 moves closer.
 *
 * The search pins the distance of the top left cell to 0 instead of the
 * start's, so a walk through that cell is never explored; `Rule` selects
 * the search as written or as evidently intended. Distances are `u64`,
 * with `u64::MAX` meaning "not reached"; the one addition that can
 * overflow, `new_dist + 100`, is modelled as the panic it is.
 */
module RaceCondition {

  import opened Options
  import opened Counting

  const U64Max: nat := 0xFFFF_FFFF_FFFF_FFFF
  const UsizeMax: nat := 0xFFFF_FFFF_FFFF_FFFF
  /** The least saving that counts in part 1. */
  const Saving: nat := 100

  type Pos = (nat, nat)
  type Maze = seq<seq<char>>
  type Table = seq<seq<nat>>

  const Origin: Pos := (0, 0)

  // ---------------------------------------------------------------- Cells

  /** `overflowing_sub(1)` on `usize`: 0 wraps to the largest value. */
  function Dec(x: nat): nat {
    if x == 0 then UsizeMax else x - 1
  }

  /** The number of unit moves between two cells. */
  function Taxicab(a: Pos, b: Pos): nat {
    (if a.0 < b.0 then b.0 - a.0 else a.0 - b.0) + (if a.1 < b.1 then b.1 - a.1 else a.1 - b.1)
  }

  /**
   * `neighbors`: up, down, left, right, in that order. A neighbour differs
   * from the cell in exactly one coordinate, so it is never the cell itself,
   * even where the subtraction wraps; unless it wraps, it is one step away.
   */
  function Neighbor(p: Pos, k: nat): (r: Pos)
    requires k < 4
    ensures (r.0 == p.0) != (r.1 == p.1)
    ensures (k == 0 && p.0 == 0) || (k == 2 && p.1 == 0) || Taxicab(r, p) == 1
  {
    match k
    case 0 => (Dec(p.0), p.1)
    case 1 => (p.0 + 1, p.1)
    case 2 => (p.0, Dec(p.1))
    case _ => (p.0, p.1 + 1)
  }

  predicate InMaze(maze: Maze, p: Pos) {
    p.0 < |maze| && p.1 < |maze[p.0]|
  }

  /** A cell the search walks through: inside the maze, not a wall, not the end. */
  predicate Expandable(maze: Maze, end: Pos, p: Pos) {
    InMaze(maze, p) && maze[p.0][p.1] != '#' && p != end
  }

  /**
   * The cells a walk of exactly n moves can stop at: every move goes to an
   * adjacent cell of the maze, and every cell the walk leaves after the
   * first move is one the search walks through.
   */
  ghost function Layer(maze: Maze, start: Pos, end: Pos, n: nat): set<Pos>
    decreases n
  {
    if n == 0 then {start}
    else
      set c, k: nat | c in Layer(maze, start, end, n - 1) && (n == 1 || Expandable(maze, end, c))
                      && k < 4 && InMaze(maze, Neighbor(c, k)) :: Neighbor(c, k)
  }

  lemma {:induction false} LayerStep(maze: Maze, start: Pos, end: Pos, c: Pos, d: nat, k: nat)
    requires c in Layer(maze, start, end, d) && (d == 0 || Expandable(maze, end, c))
    requires k < 4 && InMaze(maze, Neighbor(c, k))
    ensures Neighbor(c, k) in Layer(maze, start, end, d + 1)
  {
  }

  /** The last move of a walk of n > 0 moves: the cell it left and the direction it took. */
  lemma {:induction false} LayerBack(maze: Maze, start: Pos, end: Pos, n: nat, p: Pos) returns (c: Pos, k: nat)
    requires n > 0 && p in Layer(maze, start, end, n)
    ensures c in Layer(maze, start, end, n - 1) && (n == 1 || Expandable(maze, end, c))
    ensures k < 4 && InMaze(maze, Neighbor(c, k)) && p == Neighbor(c, k)
  {
    c, k :| c in Layer(maze, start, end, n - 1) && (n == 1 || Expandable(maze, end, c))
            && k < 4 && InMaze(maze, Neighbor(c, k)) && p == Neighbor(c, k);
  }

  /** Every walk that moves at least once ends inside the maze. */
  lemma {:induction false} LayerInMaze(maze: Maze, start: Pos, end: Pos, n: nat, p: Pos)
    requires n > 0 && p in Layer(maze, start, end, n)
    ensures InMaze(maze, p)
  {
  }

  // ---------------------------------------------------------------- Distance tables

  /** A table with one entry per cell of the maze. */
  predicate Shaped(maze: Maze, t: Table) {
    |t| == |maze| && forall i | 0 <= i < |t| :: |t[i]| == |maze[i]|
  }

  /** Every entry fits in a `u64`. */
  predicate Bounded(t: Table) {
    forall i, j | 0 <= i < |t| && 0 <= j < |t[i]| :: t[i][j] <= U64Max
  }

  function At(t: Table, p: Pos): nat
    requires p.0 < |t| && p.1 < |t[p.0]|
  {
    t[p.0][p.1]
  }

  /** The table with the entry of p replaced by v. */
  function Lower(t: Table, p: Pos, v: nat): (r: Table)
    requires p.0 < |t| && p.1 < |t[p.0]|
    ensures |r| == |t| && forall i | 0 <= i < |t| :: |r[i]| == |t[i]|
    ensures forall q: Pos {:trigger At(r, q)} | q.0 < |t| && q.1 < |t[q.0]| :: At(r, q) == if q == p then v else At(t, q)
  {
    var row: seq<nat> := t[p.0][p.1 := v];
    t[p.0 := row]
  }

  /** No entry of a is above the entry of b. */
  ghost predicate Below(maze: Maze, a: Table, b: Table)
    requires Shaped(maze, a) && Shaped(maze, b)
  {
    forall p {:trigger At(a, p)} | InMaze(maze, p) :: At(a, p) <= At(b, p)
  }

  function RowTotal(row: seq<nat>): nat {
    if |row| == 0 then 0 else RowTotal(row[..|row| - 1]) + row[|row| - 1]
  }

  /** The sum of all entries: it falls whenever the search lowers one. */
  function Total(t: Table): nat {
    if |t| == 0 then 0 else Total(t[..|t| - 1]) + RowTotal(t[|t| - 1])
  }

  lemma {:induction false} RowTotalUpdate(row: seq<nat>, j: nat, v: nat)
    requires j < |row|
    ensures RowTotal(row[j := v]) + row[j] == RowTotal(row) + v
  {
    var n := |row|;
    if j == n - 1 {
      assert row[j := v][..n - 1] == row[..n - 1];
    } else {
      assert row[j := v][..n - 1] == row[..n - 1][j := v];
      RowTotalUpdate(row[..n - 1], j, v);
    }
  }

  lemma {:induction false} TotalUpdate(t: Table, i: nat, row: seq<nat>)
    requires i < |t|
    ensures Total(t[i := row]) + RowTotal(t[i]) == Total(t) + RowTotal(row)
  {
    var n := |t|;
    if i == n - 1 {
      assert t[i := row][..n - 1] == t[..n - 1];
    } else {
      assert t[i := row][..n - 1] == t[..n - 1][i := row];
      TotalUpdate(t[..n - 1], i, row);
    }
  }

  lemma {:induction false} LowerTotal(t: Table, p: Pos, v: nat)
    requires p.0 < |t| && p.1 < |t[p.0]|
    ensures Total(Lower(t, p, v)) + At(t, p) == Total(t) + v
  {
    RowTotalUpdate(t[p.0], p.1, v);
    TotalUpdate(t, p.0, t[p.0][p.1 := v]);
  }

  // ---------------------------------------------------------------- The search

  /** Where the search pins a distance of 0: the top left cell as written, the start as intended. */
  datatype Rule = AsWritten | Intended

  function Pinned(rule: Rule, start: Pos): Pos {
    match rule
    case AsWritten => Origin
    case Intended => start
  }

  /** Every cell at `u64::MAX` except the pinned one, at 0. */
  function Initial(maze: Maze, pin: Pos): (t: Table)
    requires InMaze(maze, pin)
    ensures Shaped(maze, t) && Bounded(t)
    ensures forall p {:trigger At(t, p)} | InMaze(maze, p) :: At(t, p) == if p == pin then 0 else U64Max
  {
    var full := seq(|maze|, i requires 0 <= i < |maze| => seq(|maze[i]|, _ => U64Max));
    Lower(full, pin, 0)
  }

  /**
   * One neighbour n of the cell being expanded, reached in nd moves: inside
   * the maze and closer than recorded, its distance drops to nd, and unless
   * it is the end or a wall it joins the queue.
   */
  function Relax(maze: Maze, end: Pos, dist: Table, queue: seq<(Pos, nat)>, n: Pos, nd: nat)
    : (r: (Table, seq<(Pos, nat)>))
    requires Shaped(maze, dist) && Bounded(dist)
    ensures Shaped(maze, r.0) && Bounded(r.0)
  {
    if !InMaze(maze, n) || nd >= At(dist, n) then (dist, queue)
    else
      var lowered := Lower(dist, n, nd);
      if n == end || maze[n.0][n.1] == '#' then (lowered, queue) else (lowered, queue + [(n, nd)])
  }

  /**
   * Relaxing changes at most the entry of n, only by lowering it to nd,
   * and queues n exactly when it lowered an open cell other than the end.
   * Each relaxation lowers the sum of the table by at least the one entry
   * it may queue, which is why the search terminates.
   */
  lemma {:induction false} RelaxFacts(maze: Maze, end: Pos, dist: Table, queue: seq<(Pos, nat)>, n: Pos, nd: nat)
    requires Shaped(maze, dist) && Bounded(dist)
    ensures var r := Relax(maze, end, dist, queue, n, nd);
      && (forall p {:trigger At(r.0, p)} | InMaze(maze, p) ::
            At(r.0, p) == At(dist, p) || (p == n && At(r.0, p) == nd < At(dist, p)))
      && (InMaze(maze, n) ==> At(r.0, n) <= nd)
      && (r.1 == queue || (r.1 == queue + [(n, nd)] && Expandable(maze, end, n) && nd < U64Max))
      && (InMaze(maze, n) && At(r.0, n) < At(dist, n) && Expandable(maze, end, n) ==> r.1 == queue + [(n, nd)])
      && 2 * Total(r.0) + |r.1| < 2 * Total(dist) + |queue| + 1
  {
    if InMaze(maze, n) && nd < At(dist, n) {
      LowerTotal(dist, n, nd);
    }
  }

  /** `neighbors`, as a list. */
  function Neighbors(c: Pos): seq<Pos> {
    [Neighbor(c, 0), Neighbor(c, 1), Neighbor(c, 2), Neighbor(c, 3)]
  }

  /** The loop over the neighbours ns of a cell reached in d moves. */
  function Visit(maze: Maze, end: Pos, dist: Table, queue: seq<(Pos, nat)>, ns: seq<Pos>, d: nat)
    : (r: (Table, seq<(Pos, nat)>))
    requires Shaped(maze, dist) && Bounded(dist) && d < U64Max
    ensures Shaped(maze, r.0) && Bounded(r.0)
    decreases |ns|
  {
    if |ns| == 0 then (dist, queue)
    else
      var s := Relax(maze, end, dist, queue, ns[0], d + 1);
      Visit(maze, end, s.0, s.1, ns[1..], d)
  }

  /** Visiting only lowers entries, queues only distances below `u64::MAX`, and does not raise the measure. */
  lemma {:induction false} VisitFacts(maze: Maze, end: Pos, dist: Table, queue: seq<(Pos, nat)>, ns: seq<Pos>, d: nat)
    requires Shaped(maze, dist) && Bounded(dist) && d < U64Max
    ensures var r := Visit(maze, end, dist, queue, ns, d);
      && Below(maze, r.0, dist)
      && ((forall e {:trigger e in queue} | e in queue :: e.1 < U64Max) ==> forall e {:trigger e in r.1} | e in r.1 :: e.1 < U64Max)
      && 2 * Total(r.0) + |r.1| <= 2 * Total(dist) + |queue|
    decreases |ns|
  {
    if |ns| > 0 {
      RelaxFacts(maze, end, dist, queue, ns[0], d + 1);
      var s := Relax(maze, end, dist, queue, ns[0], d + 1);
      VisitFacts(maze, end, s.0, s.1, ns[1..], d);
    }
  }

  /** The neighbours from the k-th on: the k-th, then those after it. */
  lemma {:induction false} NeighborsFrom(c: Pos, k: nat)
    requires k < 4
    ensures |Neighbors(c)[k..]| > 0 && Neighbors(c)[k..][0] == Neighbor(c, k)
    ensures Neighbors(c)[k..][1..] == Neighbors(c)[k + 1..]
  {
  }

  /** The `while let` loop: pop the front of the queue and expand it until the queue is empty. */
  function Search(maze: Maze, end: Pos, dist: Table, queue: seq<(Pos, nat)>): (r: Table)
    requires Shaped(maze, dist) && Bounded(dist) && forall e {:trigger e in queue} | e in queue :: e.1 < U64Max
    ensures Shaped(maze, r) && Bounded(r)
    decreases 2 * Total(dist) + |queue|
  {
    if |queue| == 0 then dist
    else
      assert queue[0] in queue;
      assert forall e | e in queue[1..] :: e in queue;
      var s := Visit(maze, end, dist, queue[1..], Neighbors(queue[0].0), queue[0].1);
      VisitFacts(maze, end, dist, queue[1..], Neighbors(queue[0].0), queue[0].1);
      Search(maze, end, s.0, s.1)
  }

  /** The search only lowers entries. */
  lemma {:induction false} SearchBelow(maze: Maze, end: Pos, dist: Table, queue: seq<(Pos, nat)>)
    requires Shaped(maze, dist) && Bounded(dist) && forall e {:trigger e in queue} | e in queue :: e.1 < U64Max
    ensures Below(maze, Search(maze, end, dist, queue), dist)
    decreases 2 * Total(dist) + |queue|
  {
    if |queue| > 0 {
      assert queue[0] in queue;
      assert forall e | e in queue[1..] :: e in queue;
      VisitFacts(maze, end, dist, queue[1..], Neighbors(queue[0].0), queue[0].1);
      var s := Visit(maze, end, dist, queue[1..], Neighbors(queue[0].0), queue[0].1);
      SearchBelow(maze, end, s.0, s.1);
    }
  }

  /**
   * `bfs`: the distance table of a search from start. Indexing the pinned
   * cell panics unless it is in the maze; the pinned cell keeps distance 0.
   */
  function Bfs(maze: Maze, start: Pos, end: Pos, rule: Rule): (dist: Table)
    requires InMaze(maze, Pinned(rule, start))
    ensures Shaped(maze, dist) && Bounded(dist)
    ensures At(dist, Pinned(rule, start)) == 0
  {
    SearchBelow(maze, end, Initial(maze, Pinned(rule, start)), [(start, 0)]);
    Search(maze, end, Initial(maze, Pinned(rule, start)), [(start, 0)])
  }

  // ---------------------------------------------------------------- Recorded distances are walked

  /** Every distance below `u64::MAX`, except the pinned 0, is the length of a walk to that cell. */
  ghost predicate Sound(maze: Maze, start: Pos, end: Pos, pin: Pos, dist: Table) {
    Shaped(maze, dist)
    && forall p {:trigger At(dist, p)} | InMaze(maze, p) && At(dist, p) < U64Max ::
         (p == pin && At(dist, p) == 0) || p in Layer(maze, start, end, At(dist, p))
  }

  /** Every queued cell is reached by a walk of the queued length and may be walked through. */
  ghost predicate QueueOk(maze: Maze, start: Pos, end: Pos, queue: seq<(Pos, nat)>) {
    forall e {:trigger e in queue} | e in queue ::
      e.1 < U64Max && e.0 in Layer(maze, start, end, e.1) && (e.1 == 0 || Expandable(maze, end, e.0))
  }

  lemma {:induction false} RelaxSound(maze: Maze, start: Pos, end: Pos, pin: Pos, dist: Table,
                                      queue: seq<(Pos, nat)>, c: Pos, d: nat, k: nat)
    requires Shaped(maze, dist) && Bounded(dist) && Sound(maze, start, end, pin, dist)
    requires QueueOk(maze, start, end, queue)
    requires c in Layer(maze, start, end, d) && (d == 0 || Expandable(maze, end, c)) && k < 4
    ensures var r := Relax(maze, end, dist, queue, Neighbor(c, k), d + 1);
            Sound(maze, start, end, pin, r.0) && QueueOk(maze, start, end, r.1)
  {
    RelaxSoundTable(maze, start, end, pin, dist, queue, c, d, k);
    RelaxSoundQueue(maze, start, end, dist, queue, c, d, k);
  }

  lemma {:induction false} RelaxSoundTable(maze: Maze, start: Pos, end: Pos, pin: Pos, dist: Table,
                                           queue: seq<(Pos, nat)>, c: Pos, d: nat, k: nat)
    requires Shaped(maze, dist) && Bounded(dist) && Sound(maze, start, end, pin, dist)
    requires c in Layer(maze, start, end, d) && (d == 0 || Expandable(maze, end, c)) && k < 4
    ensures Sound(maze, start, end, pin, Relax(maze, end, dist, queue, Neighbor(c, k), d + 1).0)
  {
    var n := Neighbor(c, k);
    RelaxFacts(maze, end, dist, queue, n, d + 1);
    var t := Relax(maze, end, dist, queue, n, d + 1).0;
    forall p {:trigger At(t, p)} | InMaze(maze, p) && At(t, p) < U64Max
      ensures (p == pin && At(t, p) == 0) || p in Layer(maze, start, end, At(t, p))
    {
      if At(t, p) != At(dist, p) {
        LayerStep(maze, start, end, c, d, k);
      }
    }
  }

  lemma {:induction false} RelaxSoundQueue(maze: Maze, start: Pos, end: Pos, dist: Table,
                                           queue: seq<(Pos, nat)>, c: Pos, d: nat, k: nat)
    requires Shaped(maze, dist) && Bounded(dist) && QueueOk(maze, start, end, queue)
    requires c in Layer(maze, start, end, d) && (d == 0 || Expandable(maze, end, c)) && k < 4
    ensures QueueOk(maze, start, end, Relax(maze, end, dist, queue, Neighbor(c, k), d + 1).1)
  {
    var n := Neighbor(c, k);
    RelaxFacts(maze, end, dist, queue, n, d + 1);
    var q := Relax(maze, end, dist, queue, n, d + 1).1;
    if q != queue {
      LayerStep(maze, start, end, c, d, k);
      forall e {:trigger e in q} | e in q
        ensures e.1 < U64Max && e.0 in Layer(maze, start, end, e.1) && (e.1 == 0 || Expandable(maze, end, e.0))
      {
        if e !in queue {
          assert e == (n, d + 1);
        }
      }
    }
  }

  lemma {:induction false} VisitSound(maze: Maze, start: Pos, end: Pos, pin: Pos, dist: Table,
                                      queue: seq<(Pos, nat)>, c: Pos, d: nat, k: nat)
    requires Shaped(maze, dist) && Bounded(dist) && d < U64Max && k <= 4
    requires Sound(maze, start, end, pin, dist) && QueueOk(maze, start, end, queue)
    requires c in Layer(maze, start, end, d) && (d == 0 || Expandable(maze, end, c))
    ensures var r := Visit(maze, end, dist, queue, Neighbors(c)[k..], d);
            Sound(maze, start, end, pin, r.0) && QueueOk(maze, start, end, r.1)
    decreases 4 - k
  {
    if k < 4 {
      NeighborsFrom(c, k);
      RelaxSound(maze, start, end, pin, dist, queue, c, d, k);
      var s := Relax(maze, end, dist, queue, Neighbor(c, k), d + 1);
      VisitSound(maze, start, end, pin, s.0, s.1, c, d, k + 1);
    }
  }

  lemma {:induction false} SearchSound(maze: Maze, start: Pos, end: Pos, pin: Pos, dist: Table,
                                       queue: seq<(Pos, nat)>)
    requires Shaped(maze, dist) && Bounded(dist) && QueueOk(maze, start, end, queue)
    requires Sound(maze, start, end, pin, dist)
    ensures Sound(maze, start, end, pin, Search(maze, end, dist, queue))
    decreases 2 * Total(dist) + |queue|
  {
    if |queue| > 0 {
      assert queue[0] in queue;
      assert forall e | e in queue[1..] :: e in queue;
      var c, d := queue[0].0, queue[0].1;
      VisitSound(maze, start, end, pin, dist, queue[1..], c, d, 0);
      VisitFacts(maze, end, dist, queue[1..], Neighbors(c), d);
      assert Neighbors(c)[0..] == Neighbors(c);
      var s := Visit(maze, end, dist, queue[1..], Neighbors(c), d);
      SearchSound(maze, start, end, pin, s.0, s.1);
    }
  }

  /**
   * Under either rule, every distance the search records, apart from the
   * pinned 0, is the length of some walk from the start that passes only
   * through open cells other than the end.
   */
  lemma {:induction false} BfsSound(maze: Maze, start: Pos, end: Pos, rule: Rule)
    requires InMaze(maze, Pinned(rule, start))
    ensures Sound(maze, start, end, Pinned(rule, start), Bfs(maze, start, end, rule))
  {
    var pin := Pinned(rule, start);
    SearchSound(maze, start, end, pin, Initial(maze, pin), [(start, 0)]);
  }

  // ---------------------------------------------------------------- As intended, every walk is found

  /** The start and every cell the search walks through. */
  predicate Eligible(maze: Maze, start: Pos, end: Pos, p: Pos) {
    p == start || Expandable(maze, end, p)
  }

  /** Every neighbour of p is recorded at most one move farther than p. */
  predicate Settled(maze: Maze, dist: Table, p: Pos)
    requires Shaped(maze, dist) && InMaze(maze, p)
  {
    forall k: nat | k < 4 && InMaze(maze, Neighbor(p, k)) :: At(dist, Neighbor(p, k)) <= At(dist, p) + 1
  }

  /** The first k neighbours of c are recorded at most d + 1. */
  predicate PartSettled(maze: Maze, dist: Table, c: Pos, d: nat, k: nat)
    requires Shaped(maze, dist)
  {
    forall m: nat | m < k && m < 4 && InMaze(maze, Neighbor(c, m)) :: At(dist, Neighbor(c, m)) <= d + 1
  }

  /** A reached cell that is settled or still waits in the queue with its recorded distance. */
  predicate Covered(maze: Maze, dist: Table, queue: seq<(Pos, nat)>, p: Pos)
    requires Shaped(maze, dist) && InMaze(maze, p)
  {
    Settled(maze, dist, p) || (p, At(dist, p)) in queue
  }

  /**
   * The search from start as intended, between two expansions: the start is
   * at 0 and every reached cell the search may walk through is covered.
   */
  ghost predicate Pending(maze: Maze, start: Pos, end: Pos, dist: Table, queue: seq<(Pos, nat)>) {
    && Shaped(maze, dist) && InMaze(maze, start) && At(dist, start) == 0
    && forall p {:trigger At(dist, p)} | InMaze(maze, p) && Eligible(maze, start, end, p) && At(dist, p) < U64Max ::
         Covered(maze, dist, queue, p)
  }

  /** The same while c, popped at distance d, has had its first k neighbours relaxed. */
  ghost predicate Visiting(maze: Maze, start: Pos, end: Pos, dist: Table, queue: seq<(Pos, nat)>, c: Pos, d: nat, k: nat) {
    && Shaped(maze, dist) && InMaze(maze, start) && At(dist, start) == 0
    && forall p {:trigger At(dist, p)} | InMaze(maze, p) && Eligible(maze, start, end, p) && At(dist, p) < U64Max ::
         Covered(maze, dist, queue, p) || (p == c && At(dist, c) == d && PartSettled(maze, dist, c, d, k))
  }

  lemma {:induction false} PopVisiting(maze: Maze, start: Pos, end: Pos, dist: Table, queue: seq<(Pos, nat)>)
    requires |queue| > 0 && Pending(maze, start, end, dist, queue)
    ensures Visiting(maze, start, end, dist, queue[1..], queue[0].0, queue[0].1, 0)
  {
    forall p {:trigger At(dist, p)} | InMaze(maze, p) && Eligible(maze, start, end, p) && At(dist, p) < U64Max
      ensures Covered(maze, dist, queue[1..], p) || (p == queue[0].0 && At(dist, p) == queue[0].1)
    {
      if !Settled(maze, dist, p) && (p, At(dist, p)) != queue[0] {
        assert (p, At(dist, p)) in queue;
        var m :| 0 <= m < |queue| && queue[m] == (p, At(dist, p));
        assert queue[1..][m - 1] == queue[m];
      }
    }
  }

  lemma {:induction false} RelaxVisiting(maze: Maze, start: Pos, end: Pos, dist: Table, queue: seq<(Pos, nat)>,
                                         c: Pos, d: nat, k: nat)
    requires Bounded(dist) && k < 4 && Visiting(maze, start, end, dist, queue, c, d, k)
    ensures var r := Relax(maze, end, dist, queue, Neighbor(c, k), d + 1);
            Visiting(maze, start, end, r.0, r.1, c, d, k + 1)
  {
    var n := Neighbor(c, k);
    var r := Relax(maze, end, dist, queue, n, d + 1);
    RelaxFacts(maze, end, dist, queue, n, d + 1);
    forall p {:trigger At(r.0, p)} | InMaze(maze, p) && Eligible(maze, start, end, p) && At(r.0, p) < U64Max
      ensures Covered(maze, r.0, r.1, p) || (p == c && At(r.0, c) == d && PartSettled(maze, r.0, c, d, k + 1))
    {
      if At(r.0, p) == At(dist, p) {
        if Settled(maze, dist, p) {
          assert Settled(maze, r.0, p);
        } else if (p, At(dist, p)) in queue {
          assert (p, At(r.0, p)) in r.1;
        } else {
          assert PartSettled(maze, r.0, c, d, k + 1);
        }
      }
    }
  }

  lemma {:induction false} VisitPending(maze: Maze, start: Pos, end: Pos, dist: Table, queue: seq<(Pos, nat)>,
                                        c: Pos, d: nat, k: nat)
    requires Bounded(dist) && d < U64Max && k <= 4 && Visiting(maze, start, end, dist, queue, c, d, k)
    ensures var r := Visit(maze, end, dist, queue, Neighbors(c)[k..], d);
            Pending(maze, start, end, r.0, r.1)
    decreases 4 - k
  {
    if k < 4 {
      NeighborsFrom(c, k);
      RelaxVisiting(maze, start, end, dist, queue, c, d, k);
      var s := Relax(maze, end, dist, queue, Neighbor(c, k), d + 1);
      VisitPending(maze, start, end, s.0, s.1, c, d, k + 1);
    } else {
      forall p {:trigger At(dist, p)} | InMaze(maze, p) && Eligible(maze, start, end, p) && At(dist, p) < U64Max
        ensures Covered(maze, dist, queue, p)
      {
      }
    }
  }

  /** When the queue runs dry, every reached cell the search may walk through is settled. */
  lemma {:induction false} SearchSettles(maze: Maze, start: Pos, end: Pos, dist: Table, queue: seq<(Pos, nat)>)
    requires Bounded(dist) && (forall e | e in queue :: e.1 < U64Max) && Pending(maze, start, end, dist, queue)
    ensures Pending(maze, start, end, Search(maze, end, dist, queue), [])
    decreases 2 * Total(dist) + |queue|
  {
    if |queue| > 0 {
      assert queue[0] in queue;
      PopVisiting(maze, start, end, dist, queue);
      var c, d := queue[0].0, queue[0].1;
      VisitPending(maze, start, end, dist, queue[1..], c, d, 0);
      VisitFacts(maze, end, dist, queue[1..], Neighbors(c), d);
      assert Neighbors(c)[0..] == Neighbors(c);
      var s := Visit(maze, end, dist, queue[1..], Neighbors(c), d);
      SearchSettles(maze, start, end, s.0, s.1);
    }
  }

  /** In a settled table with the start at 0, a walk of n moves reaches a cell recorded at most n. */
  lemma {:induction false} SettledComplete(maze: Maze, start: Pos, end: Pos, dist: Table, n: nat, p: Pos)
    requires Bounded(dist) && Pending(maze, start, end, dist, [])
    requires p in Layer(maze, start, end, n)
    ensures InMaze(maze, p) && At(dist, p) <= n
    decreases n
  {
    if n > 0 {
      var c, k := LayerBack(maze, start, end, n, p);
      SettledComplete(maze, start, end, dist, n - 1, c);
      if At(dist, c) < U64Max {
        assert Eligible(maze, start, end, c);
        assert Settled(maze, dist, c);
      }
    }
  }

  /**
   * As intended, the search is exact: a cell recorded below `u64::MAX` is
   * the end of a walk of that many moves, and no walk to a cell is shorter
   * than its recorded distance. So the recorded distance is the length of
   * the shortest walk, and `u64::MAX` means no walk of fewer moves exists.
   */
  lemma {:induction false} BfsExact(maze: Maze, start: Pos, end: Pos)
    requires InMaze(maze, start)
    ensures var dist := Bfs(maze, start, end, Intended);
            && (forall p {:trigger At(dist, p)} | InMaze(maze, p) && At(dist, p) < U64Max :: p in Layer(maze, start, end, At(dist, p)))
            && (forall n: nat, p | p in Layer(maze, start, end, n) :: InMaze(maze, p) && At(dist, p) <= n)
  {
    var dist := Bfs(maze, start, end, Intended);
    BfsSound(maze, start, end, Intended);
    var init := Initial(maze, start);
    assert Pending(maze, start, end, init, [(start, 0)]) by {
      forall p {:trigger At(init, p)} | InMaze(maze, p) && Eligible(maze, start, end, p) && At(init, p) < U64Max
        ensures Covered(maze, init, [(start, 0)], p)
      {
        assert p == start;
      }
    }
    SearchSettles(maze, start, end, init, [(start, 0)]);
    forall n: nat, p | p in Layer(maze, start, end, n) ensures InMaze(maze, p) && At(dist, p) <= n {
      SettledComplete(maze, start, end, dist, n, p);
    }
  }

  // ---------------------------------------------------------------- The pinned corner

  /** The maze `.S` / `.#` / `E#`: the only way from S to E runs through the top left cell. */
  const Corner: Maze := [['.', 'S'], ['.', '#'], ['E', '#']]

  /**
   * As written, the top left cell is pinned at 0, so the search never steps
   * into it and the end, three moves from the start, is never reached; as
   * intended the end is found within three moves.
   */
  lemma {:induction false} PinnedCornerHidesEnd()
    ensures (2, 0) in Layer(Corner, (0, 1), (2, 0), 3)
    ensures At(Bfs(Corner, (0, 1), (2, 0), AsWritten), (2, 0)) == U64Max
    ensures At(Bfs(Corner, (0, 1), (2, 0), Intended), (2, 0)) <= 3
  {
    var start, end := (0, 1), (2, 0);
    LayerStep(Corner, start, end, start, 0, 2);
    LayerStep(Corner, start, end, (0, 0), 1, 1);
    LayerStep(Corner, start, end, (1, 0), 2, 1);
    var init := Initial(Corner, Origin);
    var s1 := Relax(Corner, end, init, [], (UsizeMax, 1), 1);
    assert s1 == (init, []);
    var s2 := Relax(Corner, end, s1.0, s1.1, (1, 1), 1);
    assert s2.1 == [];
    var s3 := Relax(Corner, end, s2.0, s2.1, (0, 0), 1);
    assert s3 == s2;
    var s4 := Relax(Corner, end, s3.0, s3.1, (0, 2), 1);
    assert s4 == s3;
    assert Visit(Corner, end, init, [], Neighbors(start), 0) == s4;
    assert Search(Corner, end, s4.0, s4.1) == s4.0;
    assert At(s4.0, end) == U64Max;
    BfsExact(Corner, start, end);
  }

  // ---------------------------------------------------------------- Part 1

  /** The maze with the wall at p removed. */
  function Opened(maze: Maze, p: Pos): (r: Maze)
    requires InMaze(maze, p)
    ensures |r| == |maze| && forall i | 0 <= i < |maze| :: |r[i]| == |maze[i]|
  {
    maze[p.0 := maze[p.0][p.1 := '.']]
  }

  /** The distance of the end from the start. */
  function EndDist(maze: Maze, start: Pos, end: Pos, rule: Rule): nat
    requires InMaze(maze, Pinned(rule, start)) && InMaze(maze, end)
  {
    At(Bfs(maze, start, end, rule), end)
  }

  /** A wall the search reached sooner than the end: the cells part 1 tries to remove. */
  predicate Candidate(maze: Maze, start: Pos, end: Pos, rule: Rule, p: Pos)
    requires InMaze(maze, Pinned(rule, start)) && InMaze(maze, end) && InMaze(maze, p)
  {
    maze[p.0][p.1] == '#' && At(Bfs(maze, start, end, rule), p) < EndDist(maze, start, end, rule)
  }

  /** The distance of the end once the wall at p is removed. */
  function CheatDist(maze: Maze, start: Pos, end: Pos, rule: Rule, p: Pos): nat
    requires InMaze(maze, Pinned(rule, start)) && InMaze(maze, end) && InMaze(maze, p)
  {
    EndDist(Opened(maze, p), start, end, rule)
  }

  function Widths(maze: Maze): nat -> nat {
    (i: nat) => if i < |maze| then |maze[i]| else 0
  }

  /** Removing the wall at (i, j) brings the end at least 100 moves closer. */
  predicate SavesAt(maze: Maze, start: Pos, end: Pos, rule: Rule, i: nat, j: nat) {
    && InMaze(maze, Pinned(rule, start)) && InMaze(maze, end) && InMaze(maze, (i, j))
    && Candidate(maze, start, end, rule, (i, j))
    && CheatDist(maze, start, end, rule, (i, j)) + Saving <= EndDist(maze, start, end, rule)
  }

  /** Trying the wall at (i, j) overflows `new_dist + 100`. */
  predicate OverflowsAt(maze: Maze, start: Pos, end: Pos, rule: Rule, i: nat, j: nat) {
    && InMaze(maze, Pinned(rule, start)) && InMaze(maze, end) && InMaze(maze, (i, j))
    && Candidate(maze, start, end, rule, (i, j))
    && CheatDist(maze, start, end, rule, (i, j)) + Saving > U64Max
  }

  function Saves(maze: Maze, start: Pos, end: Pos, rule: Rule): (nat, nat) -> bool {
    (i: nat, j: nat) => SavesAt(maze, start, end, rule, i, j)
  }

  function Overflows(maze: Maze, start: Pos, end: Pos, rule: Rule): (nat, nat) -> bool {
    (i: nat, j: nat) => OverflowsAt(maze, start, end, rule, i, j)
  }

  /**
   * The body of the inner loop for a candidate wall: open it, search
   * again, and put the wall back, leaving the maze as it was.
   */
  method TryWall(maze: Maze, start: Pos, end: Pos, rule: Rule, w: Pos) returns (restored: Maze, newDist: nat)
    requires InMaze(maze, Pinned(rule, start)) && InMaze(maze, end) && InMaze(maze, w)
    requires maze[w.0][w.1] == '#'
    ensures restored == maze
    ensures newDist == CheatDist(maze, start, end, rule, w)
  {
    var newMaze := Opened(maze, w);
    newDist := At(Bfs(newMaze, start, end, rule), end);
    restored := newMaze[w.0 := newMaze[w.0][w.1 := '#']];
    assert restored[w.0] == maze[w.0];
  }

  /**
   * `solve_part_1`: try every candidate wall in row-major order. The answer
   * counts the walls whose removal saves at least 100 moves; it panics
   * (None) exactly when some candidate's distance plus 100 overflows.
   */
  method SolvePart1(maze: Maze, start: Pos, end: Pos, rule: Rule) returns (r: Option<nat>)
    requires InMaze(maze, Pinned(rule, start)) && InMaze(maze, end)
    ensures r.None? <==> Count2(|maze|, Widths(maze), Overflows(maze, start, end, rule)) > 0
    ensures r.Some? ==> r.value == Count2(|maze|, Widths(maze), Saves(maze, start, end, rule))
  {
    var dists := Bfs(maze, start, end, rule);
    r := ScanRows(maze, start, end, rule, dists, At(dists, end));
  }

  /** The outer loop over the rows, given the distances of the maze as it is. */
  method ScanRows(maze: Maze, start: Pos, end: Pos, rule: Rule, dists: Table, endDist: nat) returns (r: Option<nat>)
    requires InMaze(maze, Pinned(rule, start)) && InMaze(maze, end)
    requires dists == Bfs(maze, start, end, rule) && endDist == At(dists, end)
    ensures r.None? <==> Count2(|maze|, Widths(maze), Overflows(maze, start, end, rule)) > 0
    ensures r.Some? ==> r.value == Count2(|maze|, Widths(maze), Saves(maze, start, end, rule))
  {
    var answer := 0;
    var i := 0;
    while i < |maze|
      invariant i <= |maze|
      invariant answer == Count2(i, Widths(maze), Saves(maze, start, end, rule))
      invariant Count2(i, Widths(maze), Overflows(maze, start, end, rule)) == 0
    {
      var total := ScanRow(maze, start, end, rule, dists, endDist, i);
      if total.None? {
        OverflowInRow(maze, start, end, rule, i);
        return None;
      }
      RowHolds(maze, start, end, rule, i);
      answer := answer + total.value;
      i := i + 1;
    }
    return Some(answer);
  }

  /**
   * The inner loop over row i, counting the walls of that row that save at
   * least 100 moves. The maze is changed and restored around each search,
   * so every search sees the original maze with one wall removed.
   */
  method ScanRow(maze: Maze, start: Pos, end: Pos, rule: Rule, dists: Table, endDist: nat, i: nat)
    returns (r: Option<nat>)
    requires InMaze(maze, Pinned(rule, start)) && InMaze(maze, end) && i < |maze|
    requires dists == Bfs(maze, start, end, rule) && endDist == At(dists, end)
    ensures r.None? <==> Count(|maze[i]|, Holds(OverflowsRow(maze, start, end, rule, i))) > 0
    ensures r.Some? ==> r.value == Count(|maze[i]|, Holds(SavesRow(maze, start, end, rule, i)))
  {
    ghost var saves := SavesRow(maze, start, end, rule, i);
    ghost var overflows := OverflowsRow(maze, start, end, rule, i);
    var answer := 0;
    var newMaze := maze;
    var j := 0;
    while j < |newMaze[i]|
      invariant j <= |maze[i]| && newMaze == maze
      invariant answer == Count(j, Holds(saves))
      invariant Count(j, Holds(overflows)) == 0
    {
      var verdict;
      newMaze, verdict := Judge(newMaze, start, end, rule, dists, endDist, i, j);
      if verdict.None? {
        CountWitness(|maze[i]|, Holds(overflows), j);
        return None;
      }
      if verdict.value {
        answer := answer + 1;
      }
      j := j + 1;
    }
    return Some(answer);
  }

  /**
   * One pass of the inner loop: skip a cell that is not a candidate;
   * otherwise search with the wall removed, panic (None) if adding 100
   * overflows, and report whether the cheat saves at least 100 moves.
   */
  method Judge(maze: Maze, start: Pos, end: Pos, rule: Rule, dists: Table, endDist: nat, i: nat, j: nat)
    returns (restored: Maze, verdict: Option<bool>)
    requires InMaze(maze, Pinned(rule, start)) && InMaze(maze, end) && InMaze(maze, (i, j))
    requires dists == Bfs(maze, start, end, rule) && endDist == At(dists, end)
    ensures restored == maze
    ensures verdict.None? <==> OverflowsRow(maze, start, end, rule, i)[j]
    ensures verdict.Some? ==> verdict.value == SavesRow(maze, start, end, rule, i)[j]
  {
    restored := maze;
    if maze[i][j] != '#' || dists[i][j] >= endDist {
      return maze, Some(false);
    }
    var newDist;
    restored, newDist := TryWall(maze, start, end, rule, (i, j));
    if newDist + Saving > U64Max {
      return restored, None;
    }
    verdict := Some(newDist + Saving <= endDist);
  }

  /** Which walls of row i save at least 100 moves. */
  ghost function SavesRow(maze: Maze, start: Pos, end: Pos, rule: Rule, i: nat): (r: seq<bool>)
    requires i < |maze|
    ensures |r| == |maze[i]|
  {
    seq(|maze[i]|, j requires 0 <= j < |maze[i]| => SavesAt(maze, start, end, rule, i, j))
  }

  /** Which walls of row i overflow `new_dist + 100`. */
  ghost function OverflowsRow(maze: Maze, start: Pos, end: Pos, rule: Rule, i: nat): (r: seq<bool>)
    requires i < |maze|
    ensures |r| == |maze[i]|
  {
    seq(|maze[i]|, j requires 0 <= j < |maze[i]| => OverflowsAt(maze, start, end, rule, i, j))
  }

  /** A row with an overflowing search makes the whole scan overflow. */
  lemma OverflowInRow(maze: Maze, start: Pos, end: Pos, rule: Rule, i: nat)
    requires i < |maze| && Count(|maze[i]|, Holds(OverflowsRow(maze, start, end, rule, i))) > 0
    ensures Count2(|maze|, Widths(maze), Overflows(maze, start, end, rule)) > 0
  {
    RowHolds(maze, start, end, rule, i);
    Count2Grows(i + 1, |maze|, Widths(maze), Overflows(maze, start, end, rule));
  }

  /** Row i+1 of the two counts adds the flags of row i. */
  lemma {:induction false} RowHolds(maze: Maze, start: Pos, end: Pos, rule: Rule, i: nat)
    requires i < |maze|
    ensures Count2(i + 1, Widths(maze), Saves(maze, start, end, rule))
         == Count2(i, Widths(maze), Saves(maze, start, end, rule))
          + Count(|maze[i]|, Holds(SavesRow(maze, start, end, rule, i)))
    ensures Count2(i + 1, Widths(maze), Overflows(maze, start, end, rule))
         == Count2(i, Widths(maze), Overflows(maze, start, end, rule))
          + Count(|maze[i]|, Holds(OverflowsRow(maze, start, end, rule, i)))
  {
    assert Widths(maze)(i) == |maze[i]|;
    CountCongruent(|maze[i]|, Row(Saves(maze, start, end, rule), i),
                   Holds(SavesRow(maze, start, end, rule, i)));
    CountCongruent(|maze[i]|, Row(Overflows(maze, start, end, rule), i),
                   Holds(OverflowsRow(maze, start, end, rule, i)));
  }

  /** Opening a wall keeps every walk: each walk of n moves is still a walk. */
  lemma {:induction false} OpenedKeepsWalks(maze: Maze, start: Pos, end: Pos, w: Pos, n: nat)
    requires InMaze(maze, w)
    ensures Layer(maze, start, end, n) <= Layer(Opened(maze, w), start, end, n)
    decreases n
  {
    if n > 0 {
      OpenedKeepsWalks(maze, start, end, w, n - 1);
      var wider := Opened(maze, w);
      forall p | p in Layer(maze, start, end, n) ensures p in Layer(wider, start, end, n) {
        var c, k := LayerBack(maze, start, end, n, p);
        assert c in Layer(wider, start, end, n - 1);
        assert InMaze(wider, Neighbor(c, k));
        if n > 1 {
          assert wider[c.0][c.1] == (if c == w then '.' else maze[c.0][c.1]);
        }
        LayerStep(wider, start, end, c, n - 1, k);
      }
    }
  }

  /**
   * As intended, removing a wall never moves a reachable end farther away,
   * so a cheat's distance plus 100 overflows only when the end's own
   * distance is within 100 of `u64::MAX`.
   */
  lemma {:induction false} CheatNeverLonger(maze: Maze, start: Pos, end: Pos, w: Pos)
    requires InMaze(maze, start) && InMaze(maze, end) && InMaze(maze, w)
    requires EndDist(maze, start, end, Intended) < U64Max
    ensures CheatDist(maze, start, end, Intended, w) <= EndDist(maze, start, end, Intended)
  {
    var d := EndDist(maze, start, end, Intended);
    BfsExact(maze, start, end);
    OpenedKeepsWalks(maze, start, end, w, d);
    BfsExact(Opened(maze, w), start, end);
  }

  /** As intended, part 1 cannot panic while the end is at least 100 moves short of `u64::MAX`. */
  lemma {:induction false} NoOverflowWhenReachable(maze: Maze, start: Pos, end: Pos)
    requires InMaze(maze, start) && InMaze(maze, end)
    requires EndDist(maze, start, end, Intended) + Saving <= U64Max
    ensures Count2(|maze|, Widths(maze), Overflows(maze, start, end, Intended)) == 0
  {
    var overflows := Overflows(maze, start, end, Intended);
    forall i: nat, j: nat | i < |maze| && j < Widths(maze)(i) ensures !OverflowsAt(maze, start, end, Intended, i, j) {
      CheatNeverLonger(maze, start, end, (i, j));
    }
    Count2None(|maze|, Widths(maze), overflows);
  }
}
