/**
 * Day 16: uniform-cost search over (position, heading) states of a maze.
 *
 * The frontier is a multiset of scored states from which a minimum-score
 * entry is popped (the source's reversed-order max-heap); a visited set makes
 * every (position, heading) pair expand at most once. The main theorem is that
 * the returned score is the minimum cost of any walk from the start, facing
 * East, to the end cell, or the usize::MAX sentinel when no walk exists.
 */
module ReindeerMaze {

  /** The four headings; the source encodes them as (0,1), (1,0), (usize::MAX,0), (0,usize::MAX). */
  datatype Dir = North | East | South | West

  /** A search vertex: a cell and the heading the reindeer faces there. */
  datatype State = State(i: int, j: int, dir: Dir)

  /** A frontier entry: a state and the score it was pushed with. */
  datatype Entry = Entry(state: State, score: nat)

  datatype PuzzleInput = PuzzleInput(maze: seq<seq<char>>, start: (int, int), end: (int, int))

  const StraightCost: nat := 1
  /** A turn is never taken in place: it is fused with the step that follows it. */
  const TurnCost: nat := 1001
  const UsizeMax: int := 0xFFFF_FFFF_FFFF_FFFF

  function RowStep(d: Dir): int {
    match d
    case North => -1
    case South => 1
    case _ => 0
  }

  function ColStep(d: Dir): int {
    match d
    case West => -1
    case East => 1
    case _ => 0
  }

  /** True when headings d and e are at right angles. */
  predicate Perpendicular(d: Dir, e: Dir) {
    RowStep(d) * RowStep(e) + ColStep(d) * ColStep(e) == 0
  }

  /** One cell forward from s, facing d. */
  function Move(s: State, d: Dir): State {
    State(s.i + RowStep(d), s.j + ColStep(d), d)
  }

  /** The three successors pushed when s is expanded, in the source's order. */
  function Edges(s: State): (r: seq<(State, nat)>)
    ensures |r| == 3
    ensures r[0].0.dir == s.dir && r[0].1 == StraightCost
    ensures forall k | 1 <= k < 3 :: Perpendicular(r[k].0.dir, s.dir) && r[k].1 == TurnCost
    ensures r[1].0.dir != r[2].0.dir
    ensures forall k | 0 <= k < 3 :: r[k].0 == Move(s, r[k].0.dir)
  {
    match s.dir
    case East | West =>
      [(Move(s, s.dir), StraightCost), (Move(s, South), TurnCost), (Move(s, North), TurnCost)]
    case North | South =>
      [(Move(s, s.dir), StraightCost), (Move(s, East), TurnCost), (Move(s, West), TurnCost)]
  }

  predicate IsEdge(s: State, t: State) {
    t == Edges(s)[0].0 || t == Edges(s)[1].0 || t == Edges(s)[2].0
  }

  /** The cost of the edge s -> t: keeping the heading is a plain step, changing it is a turn. */
  function EdgeCost(s: State, t: State): nat {
    if t.dir == s.dir then StraightCost else TurnCost
  }

  predicate InGrid(maze: seq<seq<char>>, i: int, j: int) {
    0 <= i < |maze| && 0 <= j < |maze[i]|
  }

  function Initial(input: PuzzleInput): State {
    State(input.start.0, input.start.1, East)
  }

  predicate AtEnd(input: PuzzleInput, s: State) {
    (s.i, s.j) == input.end
  }

  /** A state the search would expand: an open cell other than the end. */
  predicate Expandable(input: PuzzleInput, s: State) {
    InGrid(input.maze, s.i, s.j) && input.maze[s.i][s.j] != '#' && !AtEnd(input, s)
  }

  /**
   * The source indexes maze[i][j] without bounds checks; this holds when every
   * open cell other than the end has all four neighbours inside the grid (for
   * example when the border is walls), and the start lies in the grid.
   */
  ghost predicate WellFormed(input: PuzzleInput) {
    && (input.start == input.end || InGrid(input.maze, input.start.0, input.start.1))
    && forall i, j | InGrid(input.maze, i, j) && input.maze[i][j] != '#' && (i, j) != input.end ::
         InGrid(input.maze, i - 1, j) && InGrid(input.maze, i + 1, j)
         && InGrid(input.maze, i, j - 1) && InGrid(input.maze, i, j + 1)
  }

  /** A walk: consecutive states joined by edges, every state but the last expandable. */
  ghost predicate IsWalk(input: PuzzleInput, p: seq<State>) {
    && |p| > 0
    && p[0] == Initial(input)
    && forall k | 0 <= k < |p| - 1 :: Expandable(input, p[k]) && IsEdge(p[k], p[k + 1])
  }

  function WalkCost(p: seq<State>): nat
    decreases |p|
  {
    if |p| <= 1 then 0 else WalkCost(p[..|p| - 1]) + EdgeCost(p[|p| - 2], p[|p| - 1])
  }

  ghost predicate Reaches(input: PuzzleInput, s: State, c: int) {
    exists p :: IsWalk(input, p) && p[|p| - 1] == s && WalkCost(p) == c
  }

  ghost predicate ReachesEnd(input: PuzzleInput, c: int) {
    exists d: Dir :: Reaches(input, State(input.end.0, input.end.1, d), c)
  }

  /** No walk reaches s for less than c. */
  ghost predicate LowerBound(input: PuzzleInput, s: State, c: int) {
    forall p | IsWalk(input, p) && p[|p| - 1] == s :: c <= WalkCost(p)
  }

  /** The cheapest walk to the end cell, whatever the final heading, costs at least c. */
  ghost predicate EndLowerBound(input: PuzzleInput, c: int) {
    forall p | IsWalk(input, p) && AtEnd(input, p[|p| - 1]) :: c <= WalkCost(p)
  }

  ghost predicate HasEntryAtMost(heap: multiset<Entry>, t: State, b: int) {
    exists e :: e in heap && e.state == t && e.score <= b
  }

  predicate IsMinimum(heap: multiset<Entry>, e: Entry) {
    e in heap && forall x | x in heap :: e.score <= x.score
  }

  /**
   * State t, discovered at cost b, is accounted for: it was expanded, or it
   * waits in the frontier at cost at most b, or it can never be expanded and,
   * if it is the end, the answer is already at most b.
   */
  ghost predicate Covered(input: PuzzleInput, heap: multiset<Entry>, visited: set<State>,
                          minScore: int, t: State, b: int)
  {
    || t in visited
    || HasEntryAtMost(heap, t, b)
    || (!Expandable(input, t) && (!AtEnd(input, t) || minScore <= b))
  }

  ghost predicate SuccessorsCovered(input: PuzzleInput, heap: multiset<Entry>, visited: set<State>,
                                    minScore: int, v: State, c: int)
  {
    forall k | 0 <= k < 3 :: Covered(input, heap, visited, minScore, Edges(v)[k].0, c + Edges(v)[k].1)
  }

  /** Every frontier entry and the current answer are costs of real walks. */
  ghost predicate Sound(input: PuzzleInput, heap: multiset<Entry>, minScore: int) {
    && (forall e | e in heap :: InGrid(input.maze, e.state.i, e.state.j) || AtEnd(input, e.state))
    && (forall e | e in heap :: Reaches(input, e.state, e.score))
    && minScore <= UsizeMax
    && (minScore == UsizeMax || ReachesEnd(input, minScore))
  }

  /**
   * Expanded states carry their exact distance and have every successor
   * covered; `settled` records the score at which each state was expanded.
   */
  ghost predicate Closed(input: PuzzleInput, heap: multiset<Entry>, visited: set<State>,
                         settled: map<State, nat>, minScore: int)
  {
    && visited == settled.Keys
    && (forall v | v in visited :: Expandable(input, v))
    && (forall v | v in visited :: LowerBound(input, v, settled[v]))
    && (forall v | v in visited :: SuccessorsCovered(input, heap, visited, minScore, v, settled[v]))
    && Covered(input, heap, visited, minScore, Initial(input), 0)
  }

  /** The loop invariant of the search. */
  ghost predicate SearchInv(input: PuzzleInput, heap: multiset<Entry>, visited: set<State>,
                            settled: map<State, nat>, minScore: int)
  {
    Sound(input, heap, minScore) && Closed(input, heap, visited, settled, minScore)
  }

  /** Every in-grid state: the visited set never leaves it. */
  function GridStates(maze: seq<seq<char>>): set<State> {
    Cells(maze, North) + Cells(maze, East) + Cells(maze, South) + Cells(maze, West)
  }

  /** Every in-grid cell, facing `d`. */
  function Cells(maze: seq<seq<char>>, d: Dir): set<State> {
    set i, j | 0 <= i < |maze| && 0 <= j < |maze[i]| :: State(i, j, d)
  }

  lemma {:induction false} MinimumExists(heap: multiset<Entry>)
    requires heap != multiset{}
    ensures exists e :: IsMinimum(heap, e)
    decreases |heap|
  {
    var y :| y in heap;
    var rest := heap - multiset{y};
    forall x | x in heap ensures x == y || x in rest {
      if x != y {
        assert rest[x] == heap[x];
      }
    }
    if rest == multiset{} {
      assert IsMinimum(heap, y);
    } else {
      MinimumExists(rest);
      var e :| IsMinimum(rest, e);
      if y.score < e.score {
        assert IsMinimum(heap, y);
      } else {
        assert IsMinimum(heap, e);
      }
    }
  }

  lemma {:induction false} EdgeCostOfEdges(s: State, k: int)
    requires 0 <= k < 3
    ensures IsEdge(s, Edges(s)[k].0)
    ensures EdgeCost(s, Edges(s)[k].0) == Edges(s)[k].1
  {
  }

  lemma {:induction false} EdgeIsIndexed(s: State, t: State) returns (k: int)
    requires IsEdge(s, t)
    ensures 0 <= k < 3 && Edges(s)[k].0 == t && Edges(s)[k].1 == EdgeCost(s, t)
  {
    if t == Edges(s)[0].0 {
      k := 0;
    } else if t == Edges(s)[1].0 {
      k := 1;
    } else {
      k := 2;
    }
  }

  /** Appending an edge to a walk gives a walk whose cost grows by that edge's cost. */
  lemma {:induction false} ExtendWalk(input: PuzzleInput, p: seq<State>, t: State)
    requires IsWalk(input, p)
    requires Expandable(input, p[|p| - 1]) && IsEdge(p[|p| - 1], t)
    ensures IsWalk(input, p + [t])
    ensures WalkCost(p + [t]) == WalkCost(p) + EdgeCost(p[|p| - 1], t)
  {
    var q := p + [t];
    assert q[..|q| - 1] == p;
  }

  /** Dropping the last state of a walk of two or more states gives a walk. */
  lemma {:induction false} WalkPrefix(input: PuzzleInput, p: seq<State>)
    requires IsWalk(input, p) && |p| >= 2
    ensures IsWalk(input, p[..|p| - 1])
    ensures WalkCost(p) == WalkCost(p[..|p| - 1]) + EdgeCost(p[|p| - 2], p[|p| - 1])
    ensures Expandable(input, p[|p| - 2]) && IsEdge(p[|p| - 2], p[|p| - 1])
  {
  }

  /**
   * Walk p is accounted for: it ends in an expanded state, or some frontier
   * entry costs at most as much, or it ends in a state that is never expanded
   * and, if that is the end, the answer is already at most its cost.
   */
  ghost predicate WalkAccounted(input: PuzzleInput, heap: multiset<Entry>, visited: set<State>,
                                minScore: int, p: seq<State>)
    requires |p| > 0
  {
    || p[|p| - 1] in visited
    || (exists e :: e in heap && e.score <= WalkCost(p))
    || (!Expandable(input, p[|p| - 1]) && (!AtEnd(input, p[|p| - 1]) || minScore <= WalkCost(p)))
  }

  /** Every walk is accounted for; the induction follows the walk from the start. */
  lemma {:induction false} Frontier(input: PuzzleInput, heap: multiset<Entry>, visited: set<State>,
                                    settled: map<State, nat>, minScore: int, p: seq<State>)
    requires Closed(input, heap, visited, settled, minScore)
    requires IsWalk(input, p)
    ensures WalkAccounted(input, heap, visited, minScore, p)
    decreases |p|
  {
    if |p| == 1 {
      assert Covered(input, heap, visited, minScore, Initial(input), 0);
      if HasEntryAtMost(heap, Initial(input), 0) {
        var e :| e in heap && e.state == Initial(input) && e.score <= 0;
      }
    } else {
      var q := p[..|p| - 1];
      WalkPrefix(input, p);
      Frontier(input, heap, visited, settled, minScore, q);
      var u, t := q[|q| - 1], p[|p| - 1];
      assert u == p[|p| - 2];
      assert Expandable(input, u);
      if u in visited {
        var b := settled[u] + EdgeCost(u, t);
        assert settled[u] <= WalkCost(q);
        assert b <= WalkCost(p);
        var k := EdgeIsIndexed(u, t);
        assert SuccessorsCovered(input, heap, visited, minScore, u, settled[u]);
        assert Covered(input, heap, visited, minScore, t, b);
        if HasEntryAtMost(heap, t, b) {
          var e :| e in heap && e.state == t && e.score <= b;
        }
      } else {
        assert !(!Expandable(input, u));
        if e :| e in heap && e.score <= WalkCost(q) {
          assert e.score <= WalkCost(p);
        }
      }
    }
  }

  /** A minimum entry popped for an unexpanded, expandable state carries that state's distance. */
  lemma {:induction false} PoppedIsOptimal(input: PuzzleInput, heap: multiset<Entry>, visited: set<State>,
                        settled: map<State, nat>, minScore: int, cur: Entry)
    requires Closed(input, heap, visited, settled, minScore)
    requires IsMinimum(heap, cur) && cur.state !in visited && Expandable(input, cur.state)
    ensures LowerBound(input, cur.state, cur.score)
  {
    forall p | IsWalk(input, p) && p[|p| - 1] == cur.state
      ensures cur.score <= WalkCost(p)
    {
      Frontier(input, heap, visited, settled, minScore, p);
    }
  }

  /**
   * Coverage survives popping `cur`, as long as the popped state ends up
   * expanded, or is dead and (if it is the end) recorded in the answer.
   */
  lemma {:induction false} CoveredAfterPop(input: PuzzleInput, heap: multiset<Entry>, visited: set<State>, minScore: int,
                        heap': multiset<Entry>, visited': set<State>, minScore': int,
                        cur: Entry, t: State, b: int)
    requires Covered(input, heap, visited, minScore, t, b)
    requires cur in heap && heap - multiset{cur} <= heap'
    requires visited <= visited' && minScore' <= minScore
    requires cur.state in visited'
             || (!Expandable(input, cur.state) && (!AtEnd(input, cur.state) || minScore' <= cur.score))
    ensures Covered(input, heap', visited', minScore', t, b)
  {
    if t !in visited && HasEntryAtMost(heap, t, b) {
      var e :| e in heap && e.state == t && e.score <= b;
      if e != cur {
        assert (heap - multiset{cur})[e] == heap[e];
        assert e in heap';
      }
    }
  }

  lemma {:induction false} SearchInvAfterDiscard(input: PuzzleInput, heap: multiset<Entry>, visited: set<State>,
                              settled: map<State, nat>, minScore: int, cur: Entry, minScore': int)
    requires SearchInv(input, heap, visited, settled, minScore)
    requires cur in heap && minScore' <= minScore
    requires minScore' == minScore || (minScore' == cur.score && AtEnd(input, cur.state))
    requires cur.state in visited
             || (!Expandable(input, cur.state) && (!AtEnd(input, cur.state) || minScore' <= cur.score))
    ensures SearchInv(input, heap - multiset{cur}, visited, settled, minScore')
  {
    var heap' := heap - multiset{cur};
    forall v, k | v in visited && 0 <= k < 3
      ensures Covered(input, heap', visited, minScore', Edges(v)[k].0, settled[v] + Edges(v)[k].1)
    {
      assert SuccessorsCovered(input, heap, visited, minScore, v, settled[v]);
      CoveredAfterPop(input, heap, visited, minScore, heap', visited, minScore', cur,
                      Edges(v)[k].0, settled[v] + Edges(v)[k].1);
    }
    CoveredAfterPop(input, heap, visited, minScore, heap', visited, minScore', cur, Initial(input), 0);
    if minScore' != minScore {
      assert Reaches(input, cur.state, cur.score);
      assert Reaches(input, State(input.end.0, input.end.1, cur.state.dir), minScore');
    }
  }

  /** The entries pushed when `cur` is expanded; each scores strictly more than `cur`. */
  function Pushes(cur: Entry): (r: multiset<Entry>)
    ensures |r| == 3
    ensures forall e | e in r :: cur.score + StraightCost <= e.score
  {
    var es := Edges(cur.state);
    multiset{Entry(es[0].0, cur.score + es[0].1), Entry(es[1].0, cur.score + es[1].1),
             Entry(es[2].0, cur.score + es[2].1)}
  }

  /** Each pushed successor is reached at its pushed score. */
  lemma {:induction false} PushReaches(input: PuzzleInput, cur: Entry, k: int)
    requires Reaches(input, cur.state, cur.score) && Expandable(input, cur.state)
    requires 0 <= k < 3
    ensures Reaches(input, Edges(cur.state)[k].0, cur.score + Edges(cur.state)[k].1)
  {
    var s := cur.state;
    var t := Edges(s)[k].0;
    var p :| IsWalk(input, p) && p[|p| - 1] == s && WalkCost(p) == cur.score;
    EdgeCostOfEdges(s, k);
    ExtendWalk(input, p, t);
    var p' := p + [t];
    assert p'[|p'| - 1] == t;
    assert IsWalk(input, p') && WalkCost(p') == cur.score + Edges(s)[k].1;
  }

  /** The successors of an expandable state lie in the grid. */
  lemma {:induction false} PushInGrid(input: PuzzleInput, s: State, k: int)
    requires WellFormed(input) && Expandable(input, s)
    requires 0 <= k < 3
    ensures InGrid(input.maze, Edges(s)[k].0.i, Edges(s)[k].0.j)
  {
    assert InGrid(input.maze, s.i - 1, s.j) && InGrid(input.maze, s.i + 1, s.j);
    assert InGrid(input.maze, s.i, s.j - 1) && InGrid(input.maze, s.i, s.j + 1);
  }

  /** Every pushed successor is reached at its pushed score and lies on the map. */
  lemma PushesSound(input: PuzzleInput, cur: Entry)
    requires WellFormed(input)
    requires Reaches(input, cur.state, cur.score) && Expandable(input, cur.state)
    ensures forall e | e in Pushes(cur) :: Reaches(input, e.state, e.score) && InGrid(input.maze, e.state.i, e.state.j)
  {
    var es := Edges(cur.state);
    forall e | e in Pushes(cur)
      ensures Reaches(input, e.state, e.score) && InGrid(input.maze, e.state.i, e.state.j)
    {
      var k := if e == Entry(es[0].0, cur.score + es[0].1) then 0
               else if e == Entry(es[1].0, cur.score + es[1].1) then 1 else 2;
      assert e == Entry(es[k].0, cur.score + es[k].1);
      PushReaches(input, cur, k);
      PushInGrid(input, cur.state, k);
    }
  }

  lemma {:induction false} SoundAfterExpand(input: PuzzleInput, heap: multiset<Entry>, minScore: int, cur: Entry)
    requires WellFormed(input)
    requires Sound(input, heap, minScore)
    requires cur in heap && Expandable(input, cur.state)
    ensures Sound(input, heap - multiset{cur} + Pushes(cur), minScore)
  {
    var heap' := heap - multiset{cur} + Pushes(cur);
    assert Reaches(input, cur.state, cur.score);
    PushesSound(input, cur);
    forall e | e in heap'
      ensures Reaches(input, e.state, e.score)
      ensures InGrid(input.maze, e.state.i, e.state.j) || AtEnd(input, e.state)
    {
      if e !in Pushes(cur) {
        assert e in heap;
      }
    }
  }

  /** The successors of an expanded state wait in the frontier at their pushed scores. */
  lemma PushedCovered(input: PuzzleInput, heap: multiset<Entry>, visited: set<State>, minScore: int, cur: Entry)
    ensures SuccessorsCovered(input, heap + Pushes(cur), visited, minScore, cur.state, cur.score)
  {
    var es := Edges(cur.state);
    forall k | 0 <= k < 3
      ensures Covered(input, heap + Pushes(cur), visited, minScore, es[k].0, cur.score + es[k].1)
    {
      assert Entry(es[k].0, cur.score + es[k].1) in Pushes(cur);
    }
  }

  /** A state expanded earlier keeps its successors covered when a minimum is popped and expanded. */
  lemma OldCovered(input: PuzzleInput, heap: multiset<Entry>, visited: set<State>, minScore: int,
                   cur: Entry, v: State, c: int)
    requires IsMinimum(heap, cur) && Expandable(input, cur.state)
    requires SuccessorsCovered(input, heap, visited, minScore, v, c)
    ensures SuccessorsCovered(input, heap - multiset{cur} + Pushes(cur), visited + {cur.state}, minScore, v, c)
  {
    var heap' := heap - multiset{cur} + Pushes(cur);
    var visited' := visited + {cur.state};
    forall k | 0 <= k < 3
      ensures Covered(input, heap', visited', minScore, Edges(v)[k].0, c + Edges(v)[k].1)
    {
      CoveredAfterPop(input, heap, visited, minScore, heap', visited', minScore, cur, Edges(v)[k].0, c + Edges(v)[k].1);
    }
  }

  lemma {:induction false} ClosedAfterExpand(input: PuzzleInput, heap: multiset<Entry>, visited: set<State>,
                                             settled: map<State, nat>, minScore: int, cur: Entry)
    requires Closed(input, heap, visited, settled, minScore)
    requires IsMinimum(heap, cur) && cur.state !in visited && Expandable(input, cur.state)
    ensures Closed(input, heap - multiset{cur} + Pushes(cur), visited + {cur.state},
                   settled[cur.state := cur.score], minScore)
  {
    var heap' := heap - multiset{cur} + Pushes(cur);
    var visited' := visited + {cur.state};
    var settled' := settled[cur.state := cur.score];
    PoppedIsOptimal(input, heap, visited, settled, minScore, cur);
    forall v | v in visited'
      ensures SuccessorsCovered(input, heap', visited', minScore, v, settled'[v])
    {
      if v == cur.state {
        PushedCovered(input, heap - multiset{cur}, visited', minScore, cur);
      } else {
        OldCovered(input, heap, visited, minScore, cur, v, settled[v]);
      }
    }
    CoveredAfterPop(input, heap, visited, minScore, heap', visited', minScore, cur, Initial(input), 0);
  }

  /** Once the frontier is empty, no walk to the end is cheaper than the answer. */
  lemma {:induction false} DrainedIsLowerBound(input: PuzzleInput, visited: set<State>,
                                               settled: map<State, nat>, minScore: int)
    requires Closed(input, multiset{}, visited, settled, minScore)
    ensures EndLowerBound(input, minScore)
  {
    forall p | IsWalk(input, p) && AtEnd(input, p[|p| - 1])
      ensures minScore <= WalkCost(p)
    {
      Frontier(input, multiset{}, visited, settled, minScore, p);
    }
  }

  predicate AllAtLeast(heap: multiset<Entry>, x: int) {
    forall e | e in heap :: x <= e.score
  }

  predicate ScoresSorted(popped: seq<Entry>) {
    forall a, b | 0 <= a < b < |popped| :: popped[a].score <= popped[b].score
  }

  /** Popping a minimum leaves only entries scored at least as high, and pushes only add higher ones. */
  lemma {:induction false} AtLeastAfterPop(heap: multiset<Entry>, cur: Entry, pushed: multiset<Entry>)
    requires IsMinimum(heap, cur) && AllAtLeast(pushed, cur.score)
    ensures AllAtLeast(heap - multiset{cur} + pushed, cur.score)
  {
    forall e | e in heap - multiset{cur} + pushed ensures cur.score <= e.score {
      if e !in pushed {
        assert e in heap;
      }
    }
  }

  lemma {:induction false} SortedAppend(popped: seq<Entry>, cur: Entry)
    requires ScoresSorted(popped)
    requires |popped| > 0 ==> popped[|popped| - 1].score <= cur.score
    ensures ScoresSorted(popped + [cur])
  {
  }

  function Min(a: int, b: int): int {
    if a <= b then a else b
  }

  /** The bookkeeping the search loop keeps about popped and expanded states. */
  ghost predicate Trace(input: PuzzleInput, heap: multiset<Entry>, visited: set<State>, last: nat,
                        popped: seq<Entry>, expanded: seq<State>)
  {
    && AllAtLeast(heap, last)
    && (|popped| == 0 ==> heap == multiset{Entry(Initial(input), 0)})
    && (|popped| > 0 ==> popped[0] == Entry(Initial(input), 0) && popped[|popped| - 1].score == last)
    && ScoresSorted(popped)
    && (forall a, b | 0 <= a < b < |expanded| :: expanded[a] != expanded[b])
    && (forall k | 0 <= k < |expanded| :: expanded[k] in visited)
  }

  lemma {:induction false} SearchInvInit(input: PuzzleInput)
    requires WellFormed(input)
    ensures SearchInv(input, multiset{Entry(Initial(input), 0)}, {}, map[], UsizeMax)
  {
    var heap := multiset{Entry(Initial(input), 0)};
    assert HasEntryAtMost(heap, Initial(input), 0) by {
      assert Entry(Initial(input), 0) in heap;
    }
    assert Reaches(input, Initial(input), 0) by {
      assert IsWalk(input, [Initial(input)]);
    }
  }

  /** A popped entry is in the grid unless it is at the end, so the maze may be indexed there. */
  lemma {:induction false} PoppedInGrid(input: PuzzleInput, heap: multiset<Entry>, minScore: int, cur: Entry)
    requires Sound(input, heap, minScore) && cur in heap
    ensures InGrid(input.maze, cur.state.i, cur.state.j) || AtEnd(input, cur.state)
  {
  }

  lemma {:induction false} TraceAfterDiscard(input: PuzzleInput, heap: multiset<Entry>, visited: set<State>, last: nat,
                                             popped: seq<Entry>, expanded: seq<State>, cur: Entry)
    requires Trace(input, heap, visited, last, popped, expanded) && IsMinimum(heap, cur)
    ensures Trace(input, heap - multiset{cur}, visited, cur.score, popped + [cur], expanded)
  {
    AtLeastAfterPop(heap, cur, multiset{});
    SortedAppend(popped, cur);
  }

  lemma {:induction false} TraceAfterExpand(input: PuzzleInput, heap: multiset<Entry>, visited: set<State>, last: nat,
                                            popped: seq<Entry>, expanded: seq<State>, cur: Entry)
    requires Trace(input, heap, visited, last, popped, expanded) && IsMinimum(heap, cur)
    requires cur.state !in visited
    ensures Trace(input, heap - multiset{cur} + Pushes(cur), visited + {cur.state}, cur.score,
                  popped + [cur], expanded + [cur.state])
  {
    AtLeastAfterPop(heap, cur, Pushes(cur));
    SortedAppend(popped, cur);
  }

  /** Expanding a fresh in-grid state shrinks the set of grid states not yet expanded. */
  lemma {:induction false} GridShrinks(maze: seq<seq<char>>, visited: set<State>, s: State)
    requires visited <= GridStates(maze) && s !in visited
    requires InGrid(maze, s.i, s.j)
    ensures visited + {s} <= GridStates(maze)
    ensures |GridStates(maze) - (visited + {s})| < |GridStates(maze) - visited|
  {
    assert s in Cells(maze, s.dir);
    match s.dir
    case North =>
    case East =>
    case South =>
    case West =>
    assert GridStates(maze) - (visited + {s}) < GridStates(maze) - visited;
  }

  /**
   * solve_part_1. Besides the answer it returns the sequence of popped
   * entries and of expanded states, so that the order of the search can be
   * stated.
   */
  method SolvePart1(input: PuzzleInput) returns (minScore: int, popped: seq<Entry>, expanded: seq<State>)
    requires WellFormed(input)
    ensures |popped| > 0 && popped[0] == Entry(Initial(input), 0)
    ensures ScoresSorted(popped)
    ensures forall a, b | 0 <= a < b < |expanded| :: expanded[a] != expanded[b]
    ensures forall k | 0 <= k < |expanded| :: Expandable(input, expanded[k])
    ensures minScore <= UsizeMax
    ensures minScore != UsizeMax ==> ReachesEnd(input, minScore)
    ensures EndLowerBound(input, minScore)
  {
    var maze := input.maze;
    var visited: set<State> := {};
    ghost var settled: map<State, nat> := map[];
    var heap: multiset<Entry> := multiset{Entry(Initial(input), 0)};
    minScore := UsizeMax;
    popped := [];
    expanded := [];
    ghost var last: nat := 0;
    SearchInvInit(input);

    while heap != multiset{}
      invariant SearchInv(input, heap, visited, settled, minScore)
      invariant visited <= GridStates(maze)
      invariant Trace(input, heap, visited, last, popped, expanded)
      decreases |GridStates(maze) - visited|, |heap|
    {
      MinimumExists(heap);
      var current :| IsMinimum(heap, current);
      PoppedInGrid(input, heap, minScore, current);
      var (i, j) := (current.state.i, current.state.j);
      if (i, j) == input.end || maze[i][j] == '#' || current.state in visited {
        // An end state only updates the answer; walls and revisits are dropped.
        var score := if (i, j) == input.end then Min(current.score, minScore) else minScore;
        SearchInvAfterDiscard(input, heap, visited, settled, minScore, current, score);
        TraceAfterDiscard(input, heap, visited, last, popped, expanded, current);
        heap := heap - multiset{current};
        minScore := score;
      } else {
        SoundAfterExpand(input, heap, minScore, current);
        ClosedAfterExpand(input, heap, visited, settled, minScore, current);
        TraceAfterExpand(input, heap, visited, last, popped, expanded, current);
        GridShrinks(maze, visited, current.state);
        visited := visited + {current.state};
        settled := settled[current.state := current.score];
        expanded := expanded + [current.state];
        heap := heap - multiset{current} + Pushes(current);
      }
      popped := popped + [current];
      last := current.score;
    }

    Drained(input, visited, settled, minScore, last, popped, expanded);
  }

  /** What the search has established once the frontier is empty. */
  lemma {:induction false} Drained(input: PuzzleInput, visited: set<State>, settled: map<State, nat>,
                                   minScore: int, last: nat, popped: seq<Entry>, expanded: seq<State>)
    requires SearchInv(input, multiset{}, visited, settled, minScore)
    requires Trace(input, multiset{}, visited, last, popped, expanded)
    ensures |popped| > 0 && popped[0] == Entry(Initial(input), 0)
    ensures ScoresSorted(popped)
    ensures forall a, b | 0 <= a < b < |expanded| :: expanded[a] != expanded[b]
    ensures forall k | 0 <= k < |expanded| :: Expandable(input, expanded[k])
    ensures minScore <= UsizeMax
    ensures minScore != UsizeMax ==> ReachesEnd(input, minScore)
    ensures EndLowerBound(input, minScore)
  {
    DrainedIsLowerBound(input, visited, settled, minScore);
  }

  /** The answer is the exact minimum: reached by some walk, and no walk is cheaper. */
  lemma {:induction false} SolvePart1IsMinimum(input: PuzzleInput, minScore: int)
    requires minScore != UsizeMax && ReachesEnd(input, minScore) && EndLowerBound(input, minScore)
    ensures exists p :: IsWalk(input, p) && AtEnd(input, p[|p| - 1]) && WalkCost(p) == minScore
    ensures forall p | IsWalk(input, p) && AtEnd(input, p[|p| - 1]) :: minScore <= WalkCost(p)
  {
    var d: Dir :| Reaches(input, State(input.end.0, input.end.1, d), minScore);
    var p :| IsWalk(input, p) && p[|p| - 1] == State(input.end.0, input.end.1, d) && WalkCost(p) == minScore;
    assert AtEnd(input, p[|p| - 1]);
  }
}
