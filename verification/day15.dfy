/**
 * Day 15, "Warehouse Woes": a robot walks a walled warehouse, pushing the
 * boxes in front of it. Part 1 works on the map as drawn, with one-cell
 * boxes `O`; part 2 on the map widened to two cells per tile, with boxes
 * `[]`, where a vertical push can fan out over several boxes. Both answers
 * are the GPS sum of the boxes once every move has been made.
 *
 * The source indexes the map without bounds checks and relies on the map
 * being walled in: the models require a rectangular map whose border is
 * wall. A push that would index off the map or meet a tile `unreachable!`
 * rejects yields `None`.
 */
module WarehouseWoes {

  import opened Options

  type Pos = (int, int)
  type Grid = seq<seq<char>>

  /** A move: up, down, left or right. */
  predicate IsDir(d: Pos) {
    d == (-1, 0) || d == (1, 0) || d == (0, -1) || d == (0, 1)
  }

  function Advance(p: Pos, d: Pos): Pos {
    (p.0 + d.0, p.1 + d.1)
  }

  predicate InGrid(g: Grid, p: Pos) {
    0 <= p.0 < |g| && 0 <= p.1 < |g[p.0]|
  }

  function Tile(g: Grid, p: Pos): char
    requires InGrid(g, p)
  {
    g[p.0][p.1]
  }

  predicate SameShape(a: Grid, b: Grid) {
    |a| == |b| && forall i | 0 <= i < |a| :: |a[i]| == |b[i]|
  }

  /** The map with the tile at p replaced; the same one-cell update as day 12's GardenGroups.Put, over tiles. */
  function Put(g: Grid, p: Pos, t: char): (r: Grid)
    requires InGrid(g, p)
    ensures SameShape(r, g)
  {
    g[p.0 := g[p.0][p.1 := t]]
  }

  lemma {:induction false} PutTile(g: Grid, p: Pos, t: char, c: Pos)
    requires InGrid(g, p) && InGrid(g, c)
    ensures Tile(Put(g, p, t), c) == if c == p then t else Tile(g, c)
  {
  }

  /** The positions holding tile t. */
  function Cells(g: Grid, t: char): set<Pos> {
    set i: int, j: int | 0 <= i < |g| && 0 <= j < |g[i]| && g[i][j] == t :: (i, j)
  }

  /** Writing one tile moves exactly that position between the sets of tiles. */
  lemma {:induction false} CellsAfterPut(g: Grid, p: Pos, t: char, ch: char)
    requires InGrid(g, p)
    ensures Cells(Put(g, p, t), ch) == (Cells(g, ch) - {p}) + (if t == ch then {p} else {})
  {
    var r := Put(g, p, t);
    forall c | c in Cells(r, ch) ensures c in (Cells(g, ch) - {p}) + (if t == ch then {p} else {}) {
      PutTile(g, p, t, c);
    }
    forall c | c in (Cells(g, ch) - {p}) + (if t == ch then {p} else {}) ensures c in Cells(r, ch) {
      PutTile(g, p, t, c);
    }
  }

  predicate Rectangular(g: Grid) {
    |g| >= 1 && forall i | 0 <= i < |g| :: |g[i]| == |g[0]|
  }

  /** Rectangular, with wall all along the edge. */
  predicate Bordered(g: Grid) {
    && Rectangular(g)
    && forall i, j | 0 <= i < |g| && 0 <= j < |g[i]| && (i == 0 || i == |g| - 1 || j == 0 || j == |g[i]| - 1)
         :: g[i][j] == '#'
  }

  /** Same shape and same walls keep a map walled in. */
  lemma {:induction false} BorderedKept(g: Grid, g': Grid)
    requires Bordered(g) && SameShape(g, g') && Cells(g', '#') == Cells(g, '#')
    ensures Bordered(g')
  {
    forall i, j | 0 <= i < |g'| && 0 <= j < |g'[i]| && (i == 0 || i == |g'| - 1 || j == 0 || j == |g'[i]| - 1)
      ensures g'[i][j] == '#'
    {
      assert (i, j) in Cells(g, '#');
    }
  }

  /** How many steps in direction d stay on the map from p. */
  function Room(g: Grid, p: Pos, d: Pos): int
    requires |g| >= 1
  {
    if d == (1, 0) then |g| - p.0
    else if d == (-1, 0) then p.0 + 1
    else if d == (0, 1) then |g[0]| - p.1
    else p.1 + 1
  }

  /** From a non-wall tile of a walled map, one step in any direction stays on the map, with one step less of room. */
  lemma {:induction false} StepInside(g: Grid, p: Pos, d: Pos)
    requires Bordered(g) && InGrid(g, p) && Tile(g, p) != '#' && IsDir(d)
    ensures InGrid(g, Advance(p, d)) && Room(g, Advance(p, d), d) == Room(g, p, d) - 1
    ensures 0 < p.0 < |g| - 1 && 0 < p.1 < |g[0]| - 1
  {
  }

  /** The robot's map and position. */
  datatype State = State(grid: Grid, robot: Pos)

  // ---------------------------------------------------------------- GPS sum

  /** A tile's GPS coordinate: 100 times its row plus its column. */
  function Gps(p: Pos): int {
    100 * p.0 + p.1
  }

  /** GPS coordinates of the tiles t in row i before column j, summed. */
  function RowGpsSum(g: Grid, t: char, i: nat, j: nat): (r: int)
    requires i < |g| && j <= |g[i]|
    ensures r >= 0
    ensures (forall k | 0 <= k < j :: g[i][k] != t) ==> r == 0
    decreases j
  {
    if j == 0 then 0 else RowGpsSum(g, t, i, j - 1) + (if g[i][j - 1] == t then Gps((i, j - 1)) else 0)
  }

  /** GPS coordinates of the tiles t in the first n rows, summed. */
  function RowsGpsSum(g: Grid, t: char, n: nat): (r: int)
    requires n <= |g|
    ensures r >= 0
    ensures (forall i, k | 0 <= i < n && 0 <= k < |g[i]| :: g[i][k] != t) ==> r == 0
    decreases n
  {
    if n == 0 then 0 else RowsGpsSum(g, t, n - 1) + RowGpsSum(g, t, n - 1, |g[n - 1]|)
  }

  /**
   * `gps_sum`: 100 i + j summed over the tiles equal to t. It is never
   * negative, and it is 0 on a map without such tiles.
   */
  function GpsSum(g: Grid, t: char): (r: int)
    ensures r >= 0
    ensures Cells(g, t) == {} ==> r == 0
  {
    assert Cells(g, t) == {} ==> forall i, k | 0 <= i < |g| && 0 <= k < |g[i]| :: g[i][k] != t by {
      if Cells(g, t) == {} {
        forall i, k | 0 <= i < |g| && 0 <= k < |g[i]| ensures g[i][k] != t {
          assert g[i][k] == t ==> (i, k) in Cells(g, t);
        }
      }
    }
    RowsGpsSum(g, t, |g|)
  }

  /** Writing one tile changes the GPS sum by that tile's coordinate, once for a tile leaving and once for a tile arriving. */
  lemma {:induction false} GpsSumAfterPut(g: Grid, p: Pos, t: char, v: char)
    requires InGrid(g, p)
    ensures GpsSum(Put(g, p, t), v)
            == GpsSum(g, v) - (if Tile(g, p) == v then Gps(p) else 0) + (if t == v then Gps(p) else 0)
  {
    RowsGpsAfterPut(g, p, t, v, |g|);
  }

  lemma {:induction false} RowsGpsAfterPut(g: Grid, p: Pos, t: char, v: char, n: nat)
    requires InGrid(g, p) && n <= |g|
    ensures RowsGpsSum(Put(g, p, t), v, n)
            == RowsGpsSum(g, v, n) + (if p.0 < n then (if t == v then Gps(p) else 0) - (if Tile(g, p) == v then Gps(p) else 0) else 0)
    decreases n
  {
    if n > 0 {
      RowsGpsAfterPut(g, p, t, v, n - 1);
      var r := Put(g, p, t);
      if p.0 == n - 1 {
        RowGpsAfterPut(g, p, t, v, |g[n - 1]|);
      } else {
        assert r[n - 1] == g[n - 1];
        RowGpsSame(g, r, v, n - 1, |g[n - 1]|);
      }
    }
  }

  lemma {:induction false} RowGpsSame(g: Grid, r: Grid, v: char, i: nat, j: nat)
    requires i < |g| && i < |r| && r[i] == g[i] && j <= |g[i]|
    ensures RowGpsSum(r, v, i, j) == RowGpsSum(g, v, i, j)
    decreases j
  {
    if j > 0 {
      RowGpsSame(g, r, v, i, j - 1);
    }
  }

  lemma {:induction false} RowGpsAfterPut(g: Grid, p: Pos, t: char, v: char, j: nat)
    requires InGrid(g, p) && j <= |g[p.0]|
    ensures RowGpsSum(Put(g, p, t), v, p.0, j)
            == RowGpsSum(g, v, p.0, j) + (if p.1 < j then (if t == v then Gps(p) else 0) - (if Tile(g, p) == v then Gps(p) else 0) else 0)
    decreases j
  {
    if j > 0 {
      RowGpsAfterPut(g, p, t, v, j - 1);
    }
  }

  // ---------------------------------------------------------------- Part 1

  /**
   * The narrow warehouse: walled in, with the robot the only `@`. Any other
   * byte may appear; part 1 tests only for `O` and `#`, so it is floor.
   */
  ghost predicate Warehouse(s: State) {
    && Bordered(s.grid) && InGrid(s.grid, s.robot)
    && Cells(s.grid, '@') == {s.robot}
  }

  /** The `while grid[p2] == b'O'` scan: the first tile from p on that is not a box. */
  function FirstNonBox(g: Grid, p: Pos, d: Pos): (q: Pos)
    requires Bordered(g) && InGrid(g, p) && IsDir(d)
    ensures InGrid(g, q) && Tile(g, q) != 'O'
    ensures Room(g, q, d) <= Room(g, p, d)
    ensures q != p ==> Tile(g, p) == 'O'
    decreases Room(g, p, d)
  {
    if Tile(g, p) == 'O' then
      StepInside(g, p, d);
      FirstNonBox(g, Advance(p, d), d)
    else p
  }

  /**
   * One move of `solve_part_1`: if the first tile past the boxes ahead is
   * not wall, a box lands there, the robot steps forward and its old tile
   * is cleared; otherwise nothing happens.
   */
  function Move1(s: State, d: Pos): (r: State)
    requires Warehouse(s) && IsDir(d)
    ensures SameShape(r.grid, s.grid)
    ensures r.robot == s.robot || r.robot == Advance(s.robot, d)
    ensures r.robot == s.robot ==> r == s
  {
    assert s.robot in Cells(s.grid, '@');
    StepInside(s.grid, s.robot, d);
    var p1 := Advance(s.robot, d);
    var p2 := FirstNonBox(s.grid, p1, d);
    if Tile(s.grid, p2) != '#' then
      State(PushedGrid(s.grid, s.robot, p1, p2), p1)
    else s
  }

  /**
   * A move keeps the warehouse well formed, keeps every wall and the
   * number of boxes, and succeeds exactly when the first tile past the
   * boxes ahead is not wall; a blocked move changes nothing.
   */
  lemma {:induction false} Move1Keeps(s: State, d: Pos)
    requires Warehouse(s) && IsDir(d)
    ensures var s' := Move1(s, d);
            && Warehouse(s')
            && Cells(s'.grid, '#') == Cells(s.grid, '#')
            && |Cells(s'.grid, 'O')| == |Cells(s.grid, 'O')|
    ensures var s' := Move1(s, d);
            var p1 := Advance(s.robot, d);
            && (s'.robot == p1 <==> Tile(s.grid, FirstNonBox(s.grid, p1, d)) != '#')
            && (s'.robot != p1 ==> s' == s)
  {
    var g, robot := s.grid, s.robot;
    assert robot in Cells(g, '@');
    StepInside(g, robot, d);
    var p1 := Advance(robot, d);
    var p2 := FirstNonBox(g, p1, d);
    if Tile(g, p2) != '#' {
      assert p2 != robot;
      PushWrites(s, p1, p2);
    }
  }

  /** The three writes of a successful part-1 move. */
  function PushedGrid(g: Grid, robot: Pos, p1: Pos, p2: Pos): Grid
    requires InGrid(g, robot) && InGrid(g, p1) && InGrid(g, p2)
  {
    Put(Put(Put(g, p2, 'O'), p1, '@'), robot, '.')
  }

  lemma {:induction false} PushedCells(g: Grid, robot: Pos, p1: Pos, p2: Pos, ch: char)
    requires InGrid(g, robot) && InGrid(g, p1) && InGrid(g, p2)
    ensures Cells(PushedGrid(g, robot, p1, p2), ch)
            == ((((Cells(g, ch) - {p2}) + (if ch == 'O' then {p2} else {})) - {p1}) + (if ch == '@' then {p1} else {}))
               - {robot} + (if ch == '.' then {robot} else {})
  {
    var g1 := Put(g, p2, 'O');
    var g2 := Put(g1, p1, '@');
    CellsAfterPut(g, p2, 'O', ch);
    CellsAfterPut(g1, p1, '@', ch);
    CellsAfterPut(g2, robot, '.', ch);
  }

  /**
   * The writes of a successful move, from the robot, over the boxes from p1
   * on, to the first tile p2 past them that is neither box nor wall (floor
   * or any stray byte), keep the warehouse well formed with the same walls
   * and boxes.
   */
  lemma {:induction false} PushWrites(s: State, p1: Pos, p2: Pos)
    requires Warehouse(s) && InGrid(s.grid, p1) && InGrid(s.grid, p2)
    requires p1 != s.robot && p2 != s.robot && Tile(s.grid, p2) != '#' && Tile(s.grid, p2) != 'O'
    requires p2 != p1 ==> Tile(s.grid, p1) == 'O'
    ensures var g' := PushedGrid(s.grid, s.robot, p1, p2);
            && Warehouse(State(g', p1))
            && Cells(g', '#') == Cells(s.grid, '#')
            && |Cells(g', 'O')| == |Cells(s.grid, 'O')|
  {
    var g, robot := s.grid, s.robot;
    var g' := PushedGrid(g, robot, p1, p2);
    assert robot in Cells(g, '@');
    PushedWalls(g, robot, p1, p2);
    BorderedKept(g, g');
    PushedRobot(g, robot, p1, p2);
    PushedBoxes(g, robot, p1, p2);
  }

  lemma {:induction false} PushedWalls(g: Grid, robot: Pos, p1: Pos, p2: Pos)
    requires InGrid(g, robot) && InGrid(g, p1) && InGrid(g, p2)
    requires Tile(g, robot) != '#' && Tile(g, p1) != '#' && Tile(g, p2) != '#'
    ensures Cells(PushedGrid(g, robot, p1, p2), '#') == Cells(g, '#')
  {
    PushedCells(g, robot, p1, p2, '#');
    assert p2 !in Cells(g, '#') && p1 !in Cells(g, '#') && robot !in Cells(g, '#');
  }

  lemma {:induction false} PushedRobot(g: Grid, robot: Pos, p1: Pos, p2: Pos)
    requires InGrid(g, robot) && InGrid(g, p1) && InGrid(g, p2)
    requires Cells(g, '@') == {robot} && p1 != robot
    ensures Cells(PushedGrid(g, robot, p1, p2), '@') == {p1}
  {
    PushedCells(g, robot, p1, p2, '@');
  }

  lemma {:induction false} PushedBoxes(g: Grid, robot: Pos, p1: Pos, p2: Pos)
    requires InGrid(g, robot) && InGrid(g, p1) && InGrid(g, p2)
    requires p1 != robot && p2 != robot && Tile(g, robot) == '@' && Tile(g, p2) != 'O'
    requires p2 != p1 ==> Tile(g, p1) == 'O'
    ensures |Cells(PushedGrid(g, robot, p1, p2), 'O')| == |Cells(g, 'O')|
  {
    var g' := PushedGrid(g, robot, p1, p2);
    PushedCells(g, robot, p1, p2, 'O');
    if p2 == p1 {
      assert p1 !in Cells(g, 'O');
      assert Cells(g', 'O') == Cells(g, 'O');
    } else {
      assert p1 in Cells(g, 'O') && p2 !in Cells(g, 'O') && robot !in Cells(g, 'O');
      assert Cells(g', 'O') == Cells(g, 'O') - {p1} + {p2};
    }
  }

  /** A successful move that pushes boxes moves one box from just ahead of the robot to the free tile past them. */
  lemma {:induction false} Move1Gps(s: State, d: Pos)
    requires Warehouse(s) && IsDir(d)
    ensures var p1 := Advance(s.robot, d);
            var p2 := FirstNonBox(s.grid, p1, d);
            GpsSum(Move1(s, d).grid, 'O') == GpsSum(s.grid, 'O')
              + (if Tile(s.grid, p2) != '#' && p2 != p1 then Gps(p2) - Gps(p1) else 0)
  {
    var g, robot := s.grid, s.robot;
    assert robot in Cells(g, '@');
    StepInside(g, robot, d);
    var p1 := Advance(robot, d);
    var p2 := FirstNonBox(g, p1, d);
    if Tile(g, p2) != '#' {
      Move1Keeps(s, d);
      var g1 := Put(g, p2, 'O');
      var g2 := Put(g1, p1, '@');
      GpsSumAfterPut(g, p2, 'O', 'O');
      GpsSumAfterPut(g1, p1, '@', 'O');
      GpsSumAfterPut(g2, robot, '.', 'O');
      assert Tile(g, robot) == '@';
      assert p2 != robot;
      assert Tile(g, p2) != 'O';
      PutTile(g, p2, 'O', p1);
      PutTile(g, p2, 'O', robot);
      PutTile(g1, p1, '@', robot);
    }
  }

  /** All moves of part 1 in order; the warehouse stays well formed, with the same walls and number of boxes. */
  function Run1(s: State, moves: seq<Pos>): (r: State)
    requires Warehouse(s) && forall k | 0 <= k < |moves| :: IsDir(moves[k])
    ensures Warehouse(r) && Cells(r.grid, '#') == Cells(s.grid, '#') && |Cells(r.grid, 'O')| == |Cells(s.grid, 'O')|
    decreases |moves|
  {
    if |moves| == 0 then s
    else
      Move1Keeps(s, moves[0]);
      Run1(Move1(s, moves[0]), moves[1..])
  }

  /**
   * `solve_part_1`: the `for` loop over the moves, then the GPS sum of the
   * boxes. The answer is that of the map Run1 reaches, a walled map with
   * one robot, the same walls and the same number of boxes.
   */
  method SolvePart1(s: State, moves: seq<Pos>) returns (gps: int)
    requires Warehouse(s) && forall k | 0 <= k < |moves| :: IsDir(moves[k])
    ensures var final := Run1(s, moves);
            && gps == GpsSum(final.grid, 'O')
            && Warehouse(final) && Cells(final.grid, '#') == Cells(s.grid, '#')
            && |Cells(final.grid, 'O')| == |Cells(s.grid, 'O')|
  {
    var grid, robot := s.grid, s.robot;
    for k := 0 to |moves|
      invariant Warehouse(State(grid, robot))
      invariant Run1(State(grid, robot), moves[k..]) == Run1(s, moves)
    {
      var st := State(grid, robot);
      assert moves[k..][1..] == moves[k + 1..];
      Move1Keeps(st, moves[k]);
      var next := Move1(st, moves[k]);
      grid, robot := next.grid, next.robot;
    }
    assert moves[|moves|..] == [];
    gps := GpsSum(grid, 'O');
  }

  // ---------------------------------------------------------------- Widening

  /** `widen_row` for one tile: the robot keeps the left half, a box becomes `[]`; anything else widens to floor. */
  function WidenTile(t: char): seq<char> {
    match t
    case '@' => "@."
    case '#' => "##"
    case 'O' => "[]"
    case _ => ".."
  }

  function WidenRow(row: seq<char>): (r: seq<char>)
    ensures |r| == 2 * |row|
    decreases |row|
  {
    if |row| == 0 then [] else WidenTile(row[0]) + WidenRow(row[1..])
  }

  /** `widen_grid`: every row widened. */
  function Widen(g: Grid): (r: Grid)
    ensures |r| == |g| && forall i | 0 <= i < |g| :: |r[i]| == 2 * |g[i]|
  {
    seq(|g|, i requires 0 <= i < |g| => WidenRow(g[i]))
  }

  /** Column m of a widened row is half m % 2 of the widened tile m / 2. */
  lemma {:induction false} WidenRowAt(row: seq<char>, m: int)
    requires 0 <= m < 2 * |row|
    ensures WidenRow(row)[m] == WidenTile(row[m / 2])[m % 2]
    decreases |row|
  {
    if m >= 2 {
      WidenRowAt(row[1..], m - 2);
      assert WidenRow(row)[m] == WidenRow(row[1..])[m - 2];
      assert (m - 2) / 2 == m / 2 - 1 && (m - 2) % 2 == m % 2;
      assert row[1..][m / 2 - 1] == row[m / 2];
    }
  }

  /** The tile a widened pair starting with a came from. */
  function NarrowTile(a: char): char {
    if a == '@' then '@' else if a == '#' then '#' else if a == '[' then 'O' else '.'
  }

  /** Reading a widened row back, one tile per pair of columns. */
  function NarrowRow(row: seq<char>): (r: seq<char>)
    requires |row| % 2 == 0
    ensures |r| == |row| / 2
    decreases |row|
  {
    if |row| == 0 then [] else [NarrowTile(row[0])] + NarrowRow(row[2..])
  }

  /** Widening loses nothing: a row of warehouse tiles reads back from its widened form. */
  lemma {:induction false} NarrowWiden(row: seq<char>)
    requires forall k | 0 <= k < |row| :: row[k] in {'#', 'O', '.', '@'}
    ensures NarrowRow(WidenRow(row)) == row
    decreases |row|
  {
    if |row| > 0 {
      var w := WidenRow(row);
      assert w[2..] == WidenRow(row[1..]);
      NarrowWiden(row[1..]);
      assert row == [row[0]] + row[1..];
    }
  }

  // ---------------------------------------------------------------- Part 2

  /** Every `[` has its `]` just right of it, and every `]` its `[` just left. */
  predicate Paired(g: Grid) {
    && (forall i, j | 0 <= i < |g| && 0 <= j < |g[i]| && g[i][j] == '[' :: j + 1 < |g[i]| && g[i][j + 1] == ']')
    && (forall i, j | 0 <= i < |g| && 0 <= j < |g[i]| && g[i][j] == ']' :: j >= 1 && g[i][j - 1] == '[')
  }

  /** The wide warehouse: walled in, tiles `#[].@`, boxes whole, and the robot the only `@`. */
  ghost predicate WideWarehouse(s: State) {
    && Bordered(s.grid) && InGrid(s.grid, s.robot) && Paired(s.grid)
    && Cells(s.grid, '@') == {s.robot}
    && forall i, j | 0 <= i < |s.grid| && 0 <= j < |s.grid[i]| :: s.grid[i][j] in {'#', '[', ']', '.', '@'}
  }

  /** `solve_part_2`'s start: the map widened and the robot's column doubled give a well-formed wide warehouse. */
  lemma {:induction false} WidenKeepsWarehouse(s: State)
    requires Warehouse(s)
    ensures WideWarehouse(State(Widen(s.grid), (s.robot.0, 2 * s.robot.1)))
  {
    WidenBordered(s.grid);
    WidenPaired(s.grid);
    WidenRobot(s);
    var w := Widen(s.grid);
    forall i, m | 0 <= i < |w| && 0 <= m < |w[i]| ensures w[i][m] in {'#', '[', ']', '.', '@'} {
      WidenAt(s.grid, i, m);
    }
  }

  lemma {:induction false} WidenAt(g: Grid, i: int, m: int)
    requires 0 <= i < |g| && 0 <= m < 2 * |g[i]|
    ensures Widen(g)[i][m] == WidenTile(g[i][m / 2])[m % 2]
  {
    WidenRowAt(g[i], m);
  }

  lemma {:induction false} WidenBordered(g: Grid)
    requires Bordered(g)
    ensures Bordered(Widen(g))
  {
    var w := Widen(g);
    forall i, m | 0 <= i < |w| && 0 <= m < |w[i]| && (i == 0 || i == |w| - 1 || m == 0 || m == |w[i]| - 1)
      ensures w[i][m] == '#'
    {
      WidenAt(g, i, m);
      assert g[i][m / 2] == '#';
    }
  }

  lemma {:induction false} WidenPaired(g: Grid)
    ensures Paired(Widen(g))
  {
    var w := Widen(g);
    forall i, m | 0 <= i < |w| && 0 <= m < |w[i]| && w[i][m] == '['
      ensures m + 1 < |w[i]| && w[i][m + 1] == ']'
    {
      WidenAt(g, i, m);
      assert m % 2 == 0 && m + 1 < |w[i]|;
      WidenAt(g, i, m + 1);
    }
    forall i, m | 0 <= i < |w| && 0 <= m < |w[i]| && w[i][m] == ']'
      ensures m >= 1 && w[i][m - 1] == '['
    {
      WidenAt(g, i, m);
      assert m % 2 == 1;
      WidenAt(g, i, m - 1);
    }
  }

  lemma {:induction false} WidenRobot(s: State)
    requires Warehouse(s)
    ensures InGrid(Widen(s.grid), (s.robot.0, 2 * s.robot.1))
    ensures Cells(Widen(s.grid), '@') == {(s.robot.0, 2 * s.robot.1)}
  {
    var g, w := s.grid, Widen(s.grid);
    var robot' := (s.robot.0, 2 * s.robot.1);
    forall c | c in Cells(w, '@') ensures c == robot' {
      WidenAt(g, c.0, c.1);
      assert c.1 % 2 == 0 && (c.0, c.1 / 2) in Cells(g, '@');
    }
    assert s.robot in Cells(g, '@');
    WidenAt(g, robot'.0, robot'.1);
    assert robot' in Cells(w, '@');
  }

  // ---------------------------------------------------------------- Vertical pushes

  /** What `push_vertically` reports and the map it leaves behind, which may be half pushed when it reports false. */
  datatype Push = Push(ok: bool, grid: Grid)

  /** The four writes that move the box with left half (i, j) one row along d. */
  function MoveBox(g: Grid, i: int, j: int, d: int): Grid
    requires InGrid(g, (i, j)) && InGrid(g, (i, j + 1)) && InGrid(g, (i + d, j)) && InGrid(g, (i + d, j + 1))
  {
    Put(Put(Put(Put(g, (i, j), '.'), (i, j + 1), '.'), (i + d, j), '['), (i + d, j + 1), ']')
  }

  lemma {:induction false} MoveBoxTile(g: Grid, i: int, j: int, d: int, c: Pos)
    requires InGrid(g, (i, j)) && InGrid(g, (i, j + 1)) && InGrid(g, (i + d, j)) && InGrid(g, (i + d, j + 1))
    requires d == 1 || d == -1
    requires InGrid(g, c)
    ensures InGrid(MoveBox(g, i, j, d), c)
    ensures Tile(MoveBox(g, i, j, d), c)
            == if c == (i + d, j) then '['
               else if c == (i + d, j + 1) then ']'
               else if c == (i, j) || c == (i, j + 1) then '.'
               else Tile(g, c)
  {
    var g1 := Put(g, (i, j), '.');
    var g2 := Put(g1, (i, j + 1), '.');
    var g3 := Put(g2, (i + d, j), '[');
    PutTile(g, (i, j), '.', c);
    PutTile(g1, (i, j + 1), '.', c);
    PutTile(g2, (i + d, j), '[', c);
    PutTile(g3, (i + d, j + 1), ']', c);
  }

  /** How many rows lie from row i to the edge along d. */
  function Depth(g: Grid, i: int, d: int): int {
    if d == 1 then |g| - i else i + 1
  }

  /**
   * `push_vertically`: make room at pos for something arriving along d
   * (1 down, -1 up). Floor is room already, wall never; a box half pushes
   * its box. `None` where the source would panic: an index off the map, or
   * a tile other than `#[].`.
   */
  function PushVertically(g: Grid, pos: Pos, d: int): (r: Option<Push>)
    requires d == 1 || d == -1
    ensures r.Some? ==> SameShape(r.value.grid, g)
    decreases Depth(g, pos.0, d), 1
  {
    if !InGrid(g, pos) then None
    else match Tile(g, pos)
      case '.' => Some(Push(true, g))
      case '#' => Some(Push(false, g))
      case '[' => PushBox(g, pos.0, pos.1, d)
      case ']' => PushBox(g, pos.0, pos.1 - 1, d)
      case _ => None
  }

  /**
   * The box case of `push_vertically`, for the box with left half (i, j):
   * push both tiles ahead of it, left then right, and move the box only
   * when both made room. When the left push fails the right one is not
   * tried; a failed push may leave the map half pushed.
   */
  function PushBox(g: Grid, i: int, j: int, d: int): (r: Option<Push>)
    requires d == 1 || d == -1
    requires 0 <= i < |g|
    ensures r.Some? ==> SameShape(r.value.grid, g)
    decreases Depth(g, i, d), 0
  {
    var left, right := (i + d, j), (i + d, j + 1);
    match PushVertically(g, left, d)
    case None => None
    case Some(p1) =>
      if !p1.ok then Some(p1)
      else
        match PushVertically(p1.grid, right, d)
        case None => None
        case Some(p2) =>
          if !p2.ok then Some(p2)
          else if InGrid(p2.grid, (i, j)) && InGrid(p2.grid, (i, j + 1)) && InGrid(p2.grid, left) && InGrid(p2.grid, right) then
            Some(Push(true, MoveBox(p2.grid, i, j, d)))
          else None
  }

  /** Row i is row `from` or beyond it along d. */
  predicate Ahead(i: int, from: int, d: int) {
    if d == 1 then i >= from else i <= from
  }

  /** From row `from` on along d there is no robot: only `#[].`. */
  ghost predicate ClearAhead(g: Grid, from: int, d: int) {
    forall i, j | 0 <= i < |g| && 0 <= j < |g[i]| && Ahead(i, from, d) :: g[i][j] in {'#', '[', ']', '.'}
  }

  /** The rows before `from` along d are untouched. */
  ghost predicate BehindSame(g: Grid, g': Grid, from: int, d: int)
    requires |g'| == |g|
  {
    forall i | 0 <= i < |g| && !Ahead(i, from, d) :: g'[i] == g[i]
  }

  /** In row i, a tile either stays or becomes floor. */
  ghost predicate OnlyCleared(g: Grid, g': Grid, i: int)
    requires SameShape(g, g')
  {
    0 <= i < |g| ==> forall j | 0 <= j < |g[i]| :: g'[i][j] == g[i][j] || g'[i][j] == '.'
  }

  /** The promises a push keeps, from row `from` along d. */
  ghost predicate PushKept(g: Grid, g': Grid, from: int, d: int) {
    && SameShape(g, g')
    && Cells(g', '#') == Cells(g, '#') && Paired(g')
    && ClearAhead(g', from, d)
    && BehindSame(g, g', from, d) && OnlyCleared(g, g', from)
  }

  /**
   * On a walled map with whole boxes and no robot ahead, a vertical push
   * never panics, keeps walls and whole boxes, touches nothing behind its
   * starting row and only clears tiles in it, and when it reports success
   * has made the starting tile floor.
   */
  lemma {:induction false} PushSpec(g: Grid, pos: Pos, d: int)
    requires d == 1 || d == -1
    requires Bordered(g) && Paired(g) && InGrid(g, pos) && ClearAhead(g, pos.0, d)
    ensures var r := PushVertically(g, pos, d);
            && r.Some? && PushKept(g, r.value.grid, pos.0, d)
            && (r.value.ok ==> Tile(r.value.grid, pos) == '.')
    decreases Depth(g, pos.0, d), 2
  {
    var t := Tile(g, pos);
    assert t in {'#', '[', ']', '.'};
    if t == '[' || t == ']' {
      var i, j := pos.0, if t == '[' then pos.1 else pos.1 - 1;
      assert 0 < i < |g| - 1 && 0 <= j && j + 1 < |g[i]| && g[i][j] == '[' && g[i][j + 1] == ']' by {
        assert pos !in Cells(g, '#');
      }
      PushBoxSpec(g, i, j, d);
    } else {
      assert PushKept(g, g, pos.0, d);
    }
  }

  /** The box case: the same promises, and on success both of the box's tiles are floor. */
  lemma {:induction false} PushBoxSpec(g: Grid, i: int, j: int, d: int)
    requires d == 1 || d == -1
    requires Bordered(g) && Paired(g) && ClearAhead(g, i, d)
    requires 0 < i < |g| - 1 && 0 <= j && j + 1 < |g[i]| && g[i][j] == '[' && g[i][j + 1] == ']'
    ensures var r := PushBox(g, i, j, d);
            && r.Some? && PushKept(g, r.value.grid, i, d)
            && (r.value.ok ==> r.value.grid[i][j] == '.' && r.value.grid[i][j + 1] == '.')
    decreases Depth(g, i, d), 1
  {
    var left := (i + d, j);
    AheadStep(g, i, d);
    PushSpec(g, left, d);
    var p1 := PushVertically(g, left, d).value;
    if p1.ok {
      PushBoxRight(g, p1.grid, i, j, d);
    } else {
      PushKeptBack(g, p1.grid, i, d);
    }
  }

  /** The box case once the left push made room: the right push, then the box move. */
  lemma {:induction false} PushBoxRight(g: Grid, g1: Grid, i: int, j: int, d: int)
    requires d == 1 || d == -1
    requires Bordered(g) && ClearAhead(g, i, d) && PushKept(g, g1, i + d, d)
    requires 0 < i < |g| - 1 && 0 <= j && j + 1 < |g[i]| && g[i][j] == '[' && g[i][j + 1] == ']'
    requires g1[i + d][j] == '.'
    ensures var r := PushVertically(g1, (i + d, j + 1), d);
            && r.Some?
            && (!r.value.ok ==> PushKept(g, r.value.grid, i, d))
            && (r.value.ok ==>
                  && InGrid(r.value.grid, (i, j)) && InGrid(r.value.grid, (i, j + 1))
                  && InGrid(r.value.grid, (i + d, j)) && InGrid(r.value.grid, (i + d, j + 1))
                  && var g3 := MoveBox(r.value.grid, i, j, d);
                     PushKept(g, g3, i, d) && g3[i][j] == '.' && g3[i][j + 1] == '.')
    decreases Depth(g1, i, d), 0
  {
    var right := (i + d, j + 1);
    BorderedKept(g, g1);
    PushSpec(g1, right, d);
    var p2 := PushVertically(g1, right, d).value;
    PushKeptTrans(g, g1, p2.grid, i + d, d);
    if p2.ok {
      MoveBoxKeeps(g, p2.grid, i, j, d);
    } else {
      PushKeptBack(g, p2.grid, i, d);
    }
  }

  lemma {:induction false} AheadStep(g: Grid, i: int, d: int)
    requires d == 1 || d == -1
    requires ClearAhead(g, i, d)
    ensures ClearAhead(g, i + d, d)
  {
  }

  /** Two pushes from the same row keep the promises of one. */
  lemma {:induction false} PushKeptTrans(g: Grid, g1: Grid, g2: Grid, from: int, d: int)
    requires PushKept(g, g1, from, d) && PushKept(g1, g2, from, d)
    ensures PushKept(g, g2, from, d)
  {
  }

  /** A push from the row ahead of `from` keeps the promises of a push from `from`. */
  lemma {:induction false} PushKeptBack(g: Grid, g': Grid, from: int, d: int)
    requires d == 1 || d == -1
    requires PushKept(g, g', from + d, d) && ClearAhead(g, from, d)
    ensures PushKept(g, g', from, d)
  {
    assert 0 <= from < |g| ==> g'[from] == g[from];
  }

  /** g3 is g2 with the box at (i, j) moved one row along d. */
  ghost predicate BoxMoved(g2: Grid, g3: Grid, i: int, j: int, d: int) {
    && SameShape(g2, g3)
    && forall c | InGrid(g2, c) ::
         Tile(g3, c) == if c == (i + d, j) then '[' else if c == (i + d, j + 1) then ']'
                        else if c == (i, j) || c == (i, j + 1) then '.' else Tile(g2, c)
  }

  lemma {:induction false} MoveBoxMoves(g2: Grid, i: int, j: int, d: int)
    requires d == 1 || d == -1
    requires InGrid(g2, (i, j)) && InGrid(g2, (i, j + 1)) && InGrid(g2, (i + d, j)) && InGrid(g2, (i + d, j + 1))
    ensures BoxMoved(g2, MoveBox(g2, i, j, d), i, j, d)
  {
    forall c | InGrid(g2, c) ensures Tile(MoveBox(g2, i, j, d), c) == if c == (i + d, j) then '[' else if c == (i + d, j + 1) then ']' else if c == (i, j) || c == (i, j + 1) then '.' else Tile(g2, c) {
      MoveBoxTile(g2, i, j, d, c);
    }
  }

  lemma {:induction false} BoxMovedWalls(g2: Grid, g3: Grid, i: int, j: int, d: int)
    requires BoxMoved(g2, g3, i, j, d)
    requires InGrid(g2, (i, j)) && InGrid(g2, (i, j + 1)) && InGrid(g2, (i + d, j)) && InGrid(g2, (i + d, j + 1))
    requires g2[i][j] == '[' && g2[i][j + 1] == ']' && g2[i + d][j] == '.' && g2[i + d][j + 1] == '.'
    ensures Cells(g3, '#') == Cells(g2, '#')
  {
    forall c | c in Cells(g3, '#') ensures c in Cells(g2, '#') {
      assert InGrid(g2, c);
    }
    forall c | c in Cells(g2, '#') ensures c in Cells(g3, '#') {
      assert Tile(g3, c) == '#';
    }
  }

  lemma {:induction false} BoxMovedPaired(g2: Grid, g3: Grid, i: int, j: int, d: int)
    requires BoxMoved(g2, g3, i, j, d) && Paired(g2) && (d == 1 || d == -1)
    requires InGrid(g2, (i, j)) && InGrid(g2, (i, j + 1)) && InGrid(g2, (i + d, j)) && InGrid(g2, (i + d, j + 1))
    requires g2[i][j] == '[' && g2[i][j + 1] == ']' && g2[i + d][j] == '.' && g2[i + d][j + 1] == '.'
    ensures Paired(g3)
  {
    forall x, y | 0 <= x < |g3| && 0 <= y < |g3[x]| && g3[x][y] == '['
      ensures y + 1 < |g3[x]| && g3[x][y + 1] == ']'
    {
      assert InGrid(g2, (x, y)) && Tile(g3, (x, y)) == '[';
      if (x, y) != (i + d, j) {
        assert Tile(g2, (x, y)) == '[';
        assert InGrid(g2, (x, y + 1)) && Tile(g3, (x, y + 1)) == ']';
      }
    }
    forall x, y | 0 <= x < |g3| && 0 <= y < |g3[x]| && g3[x][y] == ']'
      ensures y >= 1 && g3[x][y - 1] == '['
    {
      assert InGrid(g2, (x, y)) && Tile(g3, (x, y)) == ']';
      if (x, y) != (i + d, j + 1) {
        assert Tile(g2, (x, y)) == ']';
        assert InGrid(g2, (x, y - 1)) && Tile(g3, (x, y - 1)) == '[';
      }
    }
  }

  lemma {:induction false} BoxMovedFrame(g: Grid, g2: Grid, g3: Grid, i: int, j: int, d: int)
    requires BoxMoved(g2, g3, i, j, d) && (d == 1 || d == -1) && SameShape(g, g2)
    requires 0 <= i < |g| && 0 <= i + d < |g| && g2[i] == g[i]
    requires ClearAhead(g, i, d) && ClearAhead(g2, i + d, d) && BehindSame(g, g2, i + d, d)
    ensures ClearAhead(g3, i, d) && BehindSame(g, g3, i, d) && OnlyCleared(g, g3, i)
  {
    forall x, y | 0 <= x < |g3| && 0 <= y < |g3[x]| && Ahead(x, i, d) ensures g3[x][y] in {'#', '[', ']', '.'} {
      assert InGrid(g2, (x, y));
      if x == i {
        assert g2[x][y] == g[x][y];
      }
    }
    forall x | 0 <= x < |g| && !Ahead(x, i, d) ensures g3[x] == g[x] {
      forall y | 0 <= y < |g[x]| ensures g3[x][y] == g[x][y] {
        assert InGrid(g2, (x, y));
      }
    }
    forall y | 0 <= y < |g[i]| ensures g3[i][y] == g[i][y] || g3[i][y] == '.' {
      assert InGrid(g2, (i, y));
    }
  }

  /**
   * The box move at the end of a successful push: with both tiles ahead
   * cleared and the box's own row untouched, the four writes keep the
   * push's promises and clear the box's tiles.
   */
  lemma {:induction false} MoveBoxKeeps(g: Grid, g2: Grid, i: int, j: int, d: int)
    requires d == 1 || d == -1
    requires Bordered(g) && PushKept(g, g2, i + d, d) && ClearAhead(g, i, d)
    requires 0 < i < |g| - 1 && 0 <= j && j + 1 < |g[i]|
    requires g[i][j] == '[' && g[i][j + 1] == ']'
    requires g2[i + d][j] == '.' && g2[i + d][j + 1] == '.'
    ensures var g3 := MoveBox(g2, i, j, d);
            && PushKept(g, g3, i, d) && g3[i][j] == '.' && g3[i][j + 1] == '.'
  {
    assert g2[i] == g[i];
    var g3 := MoveBox(g2, i, j, d);
    MoveBoxMoves(g2, i, j, d);
    BoxMovedWalls(g2, g3, i, j, d);
    BoxMovedPaired(g2, g3, i, j, d);
    BoxMovedFrame(g, g2, g3, i, j, d);
    assert InGrid(g2, (i, j)) && InGrid(g2, (i, j + 1));
  }

  /** Writing a tile that is no box half over one that is no box half keeps boxes whole. */
  lemma {:induction false} PutKeepsPaired(g: Grid, p: Pos, t: char)
    requires Paired(g) && InGrid(g, p)
    requires Tile(g, p) != '[' && Tile(g, p) != ']' && t != '[' && t != ']'
    ensures Paired(Put(g, p, t))
  {
    var g' := Put(g, p, t);
    forall x, y | 0 <= x < |g'| && 0 <= y < |g'[x]| && g'[x][y] == '['
      ensures y + 1 < |g'[x]| && g'[x][y + 1] == ']'
    {
      PutTile(g, p, t, (x, y));
      PutTile(g, p, t, (x, y + 1));
    }
    forall x, y | 0 <= x < |g'| && 0 <= y < |g'[x]| && g'[x][y] == ']'
      ensures y >= 1 && g'[x][y - 1] == '['
    {
      PutTile(g, p, t, (x, y));
      PutTile(g, p, t, (x, y - 1));
    }
  }

  /**
   * A vertical move of `solve_part_2`: push on a copy of the map and keep
   * the copy, with the robot one row on, only if the push made room; a
   * failed push leaves the map as it was.
   */
  function MoveVertically(s: State, d: int): (r: State)
    requires WideWarehouse(s) && (d == 1 || d == -1)
    ensures SameShape(r.grid, s.grid)
    ensures r.robot == s.robot || r.robot == (s.robot.0 + d, s.robot.1)
    ensures r.robot == s.robot ==> r == s
  {
    var dest := (s.robot.0 + d, s.robot.1);
    VerticalPushSafe(s, d);
    var p := PushVertically(s.grid, dest, d).value;
    if p.ok then State(Put(Put(p.grid, dest, '@'), s.robot, '.'), dest) else s
  }

  /** Ahead of the robot's row there is no robot, so the push from the tile ahead is safe. */
  lemma {:induction false} VerticalPushSafe(s: State, d: int)
    requires WideWarehouse(s) && (d == 1 || d == -1)
    ensures var dest := (s.robot.0 + d, s.robot.1);
            && InGrid(s.grid, dest) && ClearAhead(s.grid, dest.0, d)
            && var r := PushVertically(s.grid, dest, d);
               && r.Some? && PushKept(s.grid, r.value.grid, dest.0, d)
               && (r.value.ok ==> Tile(r.value.grid, dest) == '.')
  {
    var g, robot := s.grid, s.robot;
    var dest := (robot.0 + d, robot.1);
    assert robot in Cells(g, '@');
    StepInside(g, robot, (d, 0));
    forall i, j | 0 <= i < |g| && 0 <= j < |g[i]| && Ahead(i, dest.0, d) ensures g[i][j] in {'#', '[', ']', '.'} {
      assert (i, j) != robot;
      assert (i, j) !in Cells(g, '@');
    }
    PushSpec(g, dest, d);
  }

  /**
   * A vertical move keeps the wide warehouse well formed with the same
   * walls; the robot moves exactly when the push from the tile ahead
   * reports room, and otherwise nothing changes.
   */
  lemma {:induction false} MoveVerticallyKeeps(s: State, d: int)
    requires WideWarehouse(s) && (d == 1 || d == -1)
    ensures var s' := MoveVertically(s, d);
            && WideWarehouse(s') && Cells(s'.grid, '#') == Cells(s.grid, '#')
    ensures var s' := MoveVertically(s, d);
            var dest := (s.robot.0 + d, s.robot.1);
            var r := PushVertically(s.grid, dest, d);
            && (s'.robot == dest <==> r.Some? && r.value.ok)
            && (s'.robot != dest ==> s' == s)
  {
    var g, robot := s.grid, s.robot;
    var dest := (robot.0 + d, robot.1);
    VerticalPushSafe(s, d);
    var p := PushVertically(g, dest, d).value;
    if p.ok {
      PushedAhead(s, d, p.grid);
      RobotSteps(p.grid, robot, dest);
    }
  }

  /** After a push from the tile ahead, the map is still a wide warehouse with the robot where it was. */
  lemma {:induction false} PushedAhead(s: State, d: int, g1: Grid)
    requires WideWarehouse(s) && (d == 1 || d == -1)
    requires PushKept(s.grid, g1, s.robot.0 + d, d)
    ensures WideWarehouse(State(g1, s.robot)) && Cells(g1, '#') == Cells(s.grid, '#')
  {
    var g, robot := s.grid, s.robot;
    var dest := (robot.0 + d, robot.1);
    assert g1[robot.0] == g[robot.0];
    assert robot in Cells(g, '@');
    forall c | c in Cells(g1, '@') ensures c == robot {
      if !Ahead(c.0, dest.0, d) {
        assert c in Cells(g, '@');
      }
    }
    assert robot in Cells(g1, '@');
    BorderedKept(g, g1);
    forall i, j | 0 <= i < |g1| && 0 <= j < |g1[i]| ensures g1[i][j] in {'#', '[', ']', '.', '@'} {
      if !Ahead(i, dest.0, d) {
        assert g1[i] == g[i];
      }
    }
  }

  /** The robot steps onto the floor tile dest of a wide warehouse: still a wide warehouse, with the same walls. */
  lemma {:induction false} RobotSteps(g: Grid, robot: Pos, dest: Pos)
    requires WideWarehouse(State(g, robot)) && InGrid(g, dest) && Tile(g, dest) == '.'
    ensures var g' := Put(Put(g, dest, '@'), robot, '.');
            WideWarehouse(State(g', dest)) && Cells(g', '#') == Cells(g, '#')
  {
    var g2 := Put(g, dest, '@');
    var g3 := Put(g2, robot, '.');
    assert robot in Cells(g, '@');
    assert dest != robot;
    CellsAfterPut(g, dest, '@', '#');
    CellsAfterPut(g2, robot, '.', '#');
    assert dest !in Cells(g, '#') && robot !in Cells(g, '#');
    BorderedKept(g, g3);
    CellsAfterPut(g, dest, '@', '@');
    CellsAfterPut(g2, robot, '.', '@');
    PutKeepsPaired(g, dest, '@');
    PutTile(g, dest, '@', robot);
    PutKeepsPaired(g2, robot, '.');
    forall i, j | 0 <= i < |g3| && 0 <= j < |g3[i]| ensures g3[i][j] in {'#', '[', ']', '.', '@'} {
      PutTile(g, dest, '@', (i, j));
      PutTile(g2, robot, '.', (i, j));
    }
  }

  // ---------------------------------------------------------------- Horizontal moves

  /** Column m lies from j on, up to but not including k, along d. */
  predicate Within(m: int, j: int, k: int, d: int) {
    if d == 1 then j <= m < k else k < m <= j
  }

  /** Column m lies past c, up to and including k, along d: where the run lands after a shift. */
  predicate Past(m: int, c: int, k: int, d: int) {
    if d == 1 then c < m <= k else k <= m < c
  }

  /** The `while b"[]".contains(&row[j])` scan: the first column from j on along d that is not a box half. */
  function RunEnd(row: seq<char>, j: int, d: int): (k: int)
    requires d == 1 || d == -1
    requires 0 <= j < |row| && row[0] == '#' && row[|row| - 1] == '#'
    ensures 0 <= k < |row| && row[k] != '[' && row[k] != ']'
    ensures if d == 1 then j <= k else k <= j
    ensures forall m | 0 <= m < |row| && Within(m, j, k, d) :: row[m] == '[' || row[m] == ']'
    decreases if d == 1 then |row| - j else j + 1
  {
    if row[j] == '[' || row[j] == ']' then RunEnd(row, j + d, d) else j
  }

  /** The row after a horizontal move from column r: the run from r + d to k shifted one along d, the robot at r + d and floor at r. */
  function ShiftedTile(row: seq<char>, r: int, k: int, d: int, m: int): char
    requires 0 <= m < |row| && (Past(m, r + d, k, d) ==> 0 <= m - d < |row|)
  {
    if m == r + d then '@' else if m == r then '.' else if Past(m, r + d, k, d) then row[m - d] else row[m]
  }

  /**
   * The inner `while j != destination.1` loop: every column past c up to k
   * takes the tile one column back along d, walking back from k so that
   * each tile is read before it is overwritten.
   */
  method ShiftRun(row: seq<char>, c: int, k: int, d: int) returns (row': seq<char>)
    requires d == 1 || d == -1
    requires 0 <= c < |row| && 0 <= k < |row| && (if d == 1 then c <= k else k <= c)
    ensures |row'| == |row|
    ensures forall m | 0 <= m < |row| :: (Past(m, c, k, d) ==> row'[m] == row[m - d]) && (!Past(m, c, k, d) ==> row'[m] == row[m])
  {
    row' := row;
    var j := k;
    while j != c
      invariant if d == 1 then c <= j <= k else k <= j <= c
      invariant |row'| == |row|
      invariant forall m | 0 <= m < |row| :: (Past(m, j, k, d) ==> row'[m] == row[m - d]) && (!Past(m, j, k, d) ==> row'[m] == row[m])
      decreases if d == 1 then j - c else c - j
    {
      row' := row'[j := row'[j - d]];
      j := j - d;
    }
  }

  /**
   * A horizontal move of `solve_part_2`: scan the box halves ahead; if the
   * column past them is floor, shift them one column, put the robot ahead
   * and floor behind it; otherwise nothing changes.
   */
  method MoveHorizontally(s: State, d: int) returns (s': State)
    requires WideWarehouse(s) && (d == 1 || d == -1)
    ensures var row := s.grid[s.robot.0];
            var r := s.robot.1;
            var k := RunEnd(row, r + d, d);
            && (row[k] == '.' ==>
                  && s'.robot == (s.robot.0, r + d)
                  && |s'.grid| == |s.grid|
                  && (forall i | 0 <= i < |s.grid| && i != s.robot.0 :: s'.grid[i] == s.grid[i])
                  && |s'.grid[s.robot.0]| == |row|
                  && forall m | 0 <= m < |row| :: s'.grid[s.robot.0][m] == ShiftedTile(row, r, k, d, m))
            && (row[k] != '.' ==> s' == s)
    ensures WideWarehouse(s') && Cells(s'.grid, '#') == Cells(s.grid, '#')
  {
    var i, r := s.robot.0, s.robot.1;
    var row := s.grid[i];
    assert s.robot in Cells(s.grid, '@');
    StepInside(s.grid, s.robot, (0, d));
    assert row[0] == '#' && row[|row| - 1] == '#';
    var c := r + d;
    var k := RunEnd(row, c, d);
    if row[k] == '.' {
      var shifted := ShiftRun(row, c, k, d);
      var row' := shifted[c := '@'][r := '.'];
      assert forall m | 0 <= m < |row| :: row'[m] == ShiftedTile(row, r, k, d, m);
      assert row' == Shifted(row, r, k, d);
      ShiftKeeps(s, d);
      s' := State(s.grid[i := row'], (i, c));
    } else {
      s' := s;
    }
  }

  /** The whole row after a horizontal move from column r. */
  function Shifted(row: seq<char>, r: int, k: int, d: int): (r': seq<char>)
    requires d == 1 || d == -1
    requires 0 <= r + d < |row| && 0 <= k < |row| && (if d == 1 then r + d <= k else k <= r + d)
    ensures |r'| == |row|
  {
    seq(|row|, m requires 0 <= m < |row| => ShiftedTile(row, r, k, d, m))
  }

  /** Within one row: every `[` has its `]` just right of it, and every `]` its `[` just left. */
  predicate RowPaired(row: seq<char>) {
    && (forall j | 0 <= j < |row| && row[j] == '[' :: j + 1 < |row| && row[j + 1] == ']')
    && (forall j | 0 <= j < |row| && row[j] == ']' :: j >= 1 && row[j - 1] == '[')
  }

  lemma {:induction false} PairedRows(g: Grid)
    ensures Paired(g) <==> forall i | 0 <= i < |g| :: RowPaired(g[i])
  {
    if forall i | 0 <= i < |g| :: RowPaired(g[i]) {
      forall i, j | 0 <= i < |g| && 0 <= j < |g[i]| && g[i][j] == '[' ensures j + 1 < |g[i]| && g[i][j + 1] == ']' {
        assert RowPaired(g[i]);
      }
      forall i, j | 0 <= i < |g| && 0 <= j < |g[i]| && g[i][j] == ']' ensures j >= 1 && g[i][j - 1] == '[' {
        assert RowPaired(g[i]);
      }
    }
  }

  /**
   * Shifting a run of box halves that ends in floor, with the robot just
   * behind it, keeps boxes whole, walls where they were, and leaves the
   * robot only at its new column.
   */
  lemma {:induction false} ShiftedRow(row: seq<char>, r: int, d: int)
    requires d == 1 || d == -1
    requires 0 < r < |row| - 1 && row[0] == '#' && row[|row| - 1] == '#' && row[r] == '@'
    requires RowPaired(row) && forall m | 0 <= m < |row| && m != r :: row[m] != '@'
    requires row[RunEnd(row, r + d, d)] == '.'
    ensures var k := RunEnd(row, r + d, d);
            var row' := Shifted(row, r, k, d);
            && RowPaired(row')
            && (forall m | 0 <= m < |row| :: row'[m] == '#' <==> row[m] == '#')
            && (forall m | 0 <= m < |row| :: row'[m] == '@' <==> m == r + d)
  {
    var c, k := r + d, RunEnd(row, r + d, d);
    var row' := Shifted(row, r, k, d);
    forall m | 0 <= m < |row| && Past(m, c, k, d) ensures row[m - d] == '[' || row[m - d] == ']' {
      assert Within(m - d, c, k, d);
    }
    forall m | 0 <= m < |row| && row'[m] == '[' ensures m + 1 < |row| && row'[m + 1] == ']' {
      if Past(m, c, k, d) {
        if d == 1 {
          assert m < k;
        } else {
          assert m + 1 != c;
        }
      } else if d == -1 {
        assert m + 1 != k;
      }
    }
    forall m | 0 <= m < |row| && row'[m] == ']' ensures m >= 1 && row'[m - 1] == '[' {
      if Past(m, c, k, d) {
        if d == -1 {
          assert m > k;
        } else {
          assert m - 1 != c;
        }
      } else if d == 1 {
        assert m - 1 != k;
      }
    }
  }

  /** A horizontal move that finds floor past the run keeps the wide warehouse well formed with the same walls. */
  lemma {:induction false} ShiftKeeps(s: State, d: int)
    requires WideWarehouse(s) && (d == 1 || d == -1)
    requires var row := s.grid[s.robot.0];
             && 0 < s.robot.1 < |row| - 1 && row[0] == '#' && row[|row| - 1] == '#'
             && row[RunEnd(row, s.robot.1 + d, d)] == '.'
    ensures var i, r := s.robot.0, s.robot.1;
            var row := s.grid[i];
            var s' := State(s.grid[i := Shifted(row, r, RunEnd(row, r + d, d), d)], (i, r + d));
            WideWarehouse(s') && Cells(s'.grid, '#') == Cells(s.grid, '#')
  {
    var g, i, r := s.grid, s.robot.0, s.robot.1;
    var row := g[i];
    var k := RunEnd(row, r + d, d);
    RobotRow(s);
    ShiftedRow(row, r, d);
    ShiftedTiles(row, r, k, d);
    ReplaceRobotRow(g, i, Shifted(row, r, k, d), r + d);
  }

  /** The robot's row holds whole boxes and the only `@`. */
  lemma {:induction false} RobotRow(s: State)
    requires WideWarehouse(s)
    ensures var row := s.grid[s.robot.0];
            && RowPaired(row)
            && (forall m | 0 <= m < |row| && m != s.robot.1 :: row[m] != '@')
            && (forall x, y | 0 <= x < |s.grid| && 0 <= y < |s.grid[x]| && s.grid[x][y] == '@' :: x == s.robot.0)
  {
    var g, i, r := s.grid, s.robot.0, s.robot.1;
    assert s.robot in Cells(g, '@');
    forall m | 0 <= m < |g[i]| && m != r ensures g[i][m] != '@' {
      assert (i, m) !in Cells(g, '@');
    }
    forall x, y | 0 <= x < |g| && 0 <= y < |g[x]| && g[x][y] == '@' ensures x == i {
      assert (x, y) in Cells(g, '@');
    }
    PairedRows(g);
  }

  /** Replacing the robot's row by one with the same walls, whole boxes and the robot at column c gives a wide warehouse with the robot at c. */
  lemma {:induction false} ReplaceRobotRow(g: Grid, i: int, row': seq<char>, c: int)
    requires Bordered(g) && Paired(g) && 0 <= i < |g| && |row'| == |g[i]| && 0 <= c < |row'|
    requires forall x, y | 0 <= x < |g| && 0 <= y < |g[x]| :: g[x][y] in {'#', '[', ']', '.', '@'}
    requires forall x, y | 0 <= x < |g| && 0 <= y < |g[x]| && g[x][y] == '@' :: x == i
    requires RowPaired(row') && forall m | 0 <= m < |row'| :: row'[m] in {'#', '[', ']', '.', '@'}
    requires forall m | 0 <= m < |row'| :: row'[m] == '#' <==> g[i][m] == '#'
    requires forall m | 0 <= m < |row'| :: row'[m] == '@' <==> m == c
    ensures WideWarehouse(State(g[i := row'], (i, c))) && Cells(g[i := row'], '#') == Cells(g, '#')
  {
    var g' := g[i := row'];
    PairedRows(g);
    PairedRows(g');
    RowCells(g, i, row', '#');
    BorderedKept(g, g');
    RobotMoved(g, i, row', c);
  }

  lemma {:induction false} ShiftedTiles(row: seq<char>, r: int, k: int, d: int)
    requires d == 1 || d == -1
    requires 0 <= r + d < |row| && 0 <= k < |row| && (if d == 1 then r + d <= k else k <= r + d)
    requires forall m | 0 <= m < |row| :: row[m] in {'#', '[', ']', '.', '@'}
    ensures var row' := Shifted(row, r, k, d);
            forall m | 0 <= m < |row'| :: row'[m] in {'#', '[', ']', '.', '@'}
  {
    var row' := Shifted(row, r, k, d);
    forall m | 0 <= m < |row'| ensures row'[m] in {'#', '[', ']', '.', '@'} {
      if Past(m, r + d, k, d) {
        assert row'[m] == row[m - d];
      }
    }
  }

  /** Replacing row i by one with tile ch in the same columns keeps the cells holding ch. */
  lemma {:induction false} RowCells(g: Grid, i: int, row': seq<char>, ch: char)
    requires 0 <= i < |g| && |row'| == |g[i]|
    requires forall m | 0 <= m < |row'| :: row'[m] == ch <==> g[i][m] == ch
    ensures Cells(g[i := row'], ch) == Cells(g, ch)
  {
    var g' := g[i := row'];
    forall c | c in Cells(g', ch) ensures c in Cells(g, ch) {
      assert g'[c.0][c.1] == ch;
    }
    forall c | c in Cells(g, ch) ensures c in Cells(g', ch) {
      assert g[c.0][c.1] == ch;
    }
  }

  /** Replacing the robot's row i by one whose only `@` is at column c puts the only robot at (i, c). */
  lemma {:induction false} RobotMoved(g: Grid, i: int, row': seq<char>, c: int)
    requires 0 <= i < |g| && |row'| == |g[i]| && 0 <= c < |row'|
    requires forall x, y | 0 <= x < |g| && 0 <= y < |g[x]| && g[x][y] == '@' :: x == i
    requires forall m | 0 <= m < |row'| :: row'[m] == '@' <==> m == c
    ensures Cells(g[i := row'], '@') == {(i, c)}
  {
    var g' := g[i := row'];
    forall p | p in Cells(g', '@') ensures p == (i, c) {
      assert g'[p.0][p.1] == '@';
    }
    assert g'[i][c] == '@';
    assert (i, c) in Cells(g', '@');
  }

  /** One move of `solve_part_2`: a vertical move pushes on a copy of the map, a horizontal one shifts a run in the robot's row. */
  method Move2(s: State, d: Pos) returns (s': State)
    requires WideWarehouse(s) && IsDir(d)
    ensures WideWarehouse(s') && Cells(s'.grid, '#') == Cells(s.grid, '#')
  {
    if d.1 == 0 {
      MoveVerticallyKeeps(s, d.0);
      s' := MoveVertically(s, d.0);
    } else {
      s' := MoveHorizontally(s, d.1);
    }
  }

  /** All moves of part 2 in order; the wide warehouse stays well formed with the same walls. */
  method Run2(s: State, moves: seq<Pos>) returns (s': State)
    requires WideWarehouse(s) && forall k | 0 <= k < |moves| :: IsDir(moves[k])
    ensures WideWarehouse(s') && Cells(s'.grid, '#') == Cells(s.grid, '#')
  {
    s' := s;
    for k := 0 to |moves|
      invariant WideWarehouse(s') && Cells(s'.grid, '#') == Cells(s.grid, '#')
    {
      s' := Move2(s', moves[k]);
    }
  }

  /**
   * `solve_part_2`: widen the map, double the robot's column, make every
   * move, and sum the GPS coordinates of the boxes' left halves. The sum is
   * taken over a well-formed wide warehouse, whole boxes and one robot,
   * with the walls of the widened map.
   */
  method SolvePart2(s: State, moves: seq<Pos>) returns (gps: int)
    requires Warehouse(s) && forall k | 0 <= k < |moves| :: IsDir(moves[k])
    ensures exists final: State ::
              && WideWarehouse(final) && Cells(final.grid, '#') == Cells(Widen(s.grid), '#')
              && gps == GpsSum(final.grid, '[')
  {
    WidenKeepsWarehouse(s);
    var final := Run2(State(Widen(s.grid), (s.robot.0, 2 * s.robot.1)), moves);
    gps := GpsSum(final.grid, '[');
    assert WideWarehouse(final) && Cells(final.grid, '#') == Cells(Widen(s.grid), '#') && gps == GpsSum(final.grid, '[');
  }
}
