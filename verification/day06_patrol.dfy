/**
 * Day 6, part 1: the guard starts at the first '^' of the map, facing up,
 * walks straight until the cell ahead holds '#', then turns right, and
 * stops when the next step would leave the map. The answer is the number
 * of distinct cells visited. Headings are numbered 0 = up, 1 = right,
 * 2 = down, 3 = left, as in the source.
 */
module GuardPatrol {

  import opened Options
  import opened Counting

  /** Every row is as long as the first, which fixes the map's width. */
  predicate Rectangular(grid: seq<seq<char>>) {
    forall r | 0 <= r < |grid| :: |grid[r]| == |grid[0]|
  }

  /** (i, j) comes strictly before (i2, j2) in row-major order. */
  predicate Earlier(i: nat, j: nat, i2: nat, j2: nat) {
    i < i2 || (i == i2 && j < j2)
  }

  /** The map holds '^' at (a, b). */
  predicate CaretAt(grid: seq<seq<char>>, a: nat, b: nat) {
    a < |grid| && b < |grid[a]| && grid[a][b] == '^'
  }

  /** Scanning from (i, j) in row-major order: the first '^'. */
  function FindFrom(grid: seq<seq<char>>, i: nat, j: nat): (r: Option<(nat, nat)>)
    requires i <= |grid|
    ensures r.Some? ==> var (a, b) := r.value;
              && !Earlier(a, b, i, j) && CaretAt(grid, a, b)
              && forall a2: nat, b2: nat | !Earlier(a2, b2, i, j) && Earlier(a2, b2, a, b) :: !CaretAt(grid, a2, b2)
    ensures r.None? ==> forall a2: nat, b2: nat | !Earlier(a2, b2, i, j) :: !CaretAt(grid, a2, b2)
    decreases |grid| - i, if i < |grid| && j <= |grid[i]| then |grid[i]| - j else 0
  {
    if i == |grid| then None
    else if j >= |grid[i]| then FindFrom(grid, i + 1, 0)
    else if grid[i][j] == '^' then Some((i, j))
    else FindFrom(grid, i, j + 1)
  }

  /**
   * `find_starting_coords`: the first '^' in row-major order, or None when
   * the map has none.
   */
  function FindStartingCoords(grid: seq<seq<char>>): (r: Option<(nat, nat)>)
    ensures r.Some? ==> var (a, b) := r.value;
              && CaretAt(grid, a, b)
              && forall a2: nat, b2: nat | Earlier(a2, b2, a, b) :: !CaretAt(grid, a2, b2)
    ensures r.None? <==> forall a2: nat, b2: nat :: !CaretAt(grid, a2, b2)
  {
    var r := FindFrom(grid, 0, 0);
    if r.Some? then assert CaretAt(grid, r.value.0, r.value.1); r else r
  }

  /** The cell one step ahead, or None when that step leaves the m-by-n map. */
  function Ahead(m: nat, n: nat, i: nat, j: nat, dir: nat): (r: Option<(nat, nat)>)
    requires i < m && j < n && dir < 4
    ensures r.None? <==> (dir == 0 && i == 0) || (dir == 1 && j + 1 == n)
                         || (dir == 2 && i + 1 == m) || (dir == 3 && j == 0)
    ensures r.Some? ==> r.value.0 < m && r.value.1 < n
                        && (r.value.0 + r.value.1 + 1 == i + j || r.value.0 + r.value.1 == i + j + 1)
                        && (r.value.0 == i || r.value.1 == j)
  {
    if dir == 0 then (if i != 0 then Some((i - 1, j)) else None)
    else if dir == 1 then (if j + 1 < n then Some((i, j + 1)) else None)
    else if dir == 2 then (if i + 1 < m then Some((i + 1, j)) else None)
    else (if j != 0 then Some((i, j - 1)) else None)
  }

  /** Where a patrol ends: the cells seen and the last position and heading. */
  datatype Exit = Exit(visited: set<(nat, nat)>, i: nat, j: nat, dir: nat)

  /** All cells of an m-by-n map. */
  function Cells(m: nat, n: nat): set<(nat, nat)> {
    set i: nat, j: nat | i < m && j < n :: (i, j)
  }

  /**
   * The loop of `solve_part_1` from position (i, j), at most `fuel` more
   * iterations; None when the fuel runs out (the source's loop has no
   * bound and never ends on a map where the guard walks in circles).
   */
  function Patrol(grid: seq<seq<char>>, i: nat, j: nat, dir: nat, visited: set<(nat, nat)>, fuel: nat)
    : (r: Option<Exit>)
    requires |grid| > 0 && Rectangular(grid)
    requires i < |grid| && j < |grid[0]| && dir < 4
    ensures r.Some? ==> var e := r.value;
              && visited + {(i, j)} <= e.visited
              && e.visited - visited <= Cells(|grid|, |grid[0]|)
              && (e.i, e.j) in e.visited && e.dir < 4
              && e.i < |grid| && e.j < |grid[0]|
              && Ahead(|grid|, |grid[0]|, e.i, e.j, e.dir).None?
    decreases fuel
  {
    if fuel == 0 then None
    else
      var seen := visited + {(i, j)};
      match Ahead(|grid|, |grid[0]|, i, j, dir)
      case None => Some(Exit(seen, i, j, dir))
      case Some((i2, j2)) =>
        if grid[i2][j2] == '#' then Patrol(grid, i, j, (dir + 1) % 4, seen, fuel - 1)
        else Patrol(grid, i2, j2, dir, seen, fuel - 1)
  }

  /**
   * `solve_part_1`: 0 without a '^'; otherwise the number of cells the
   * patrol visits, or None if it has not left the map within `fuel` steps.
   */
  function SolvePart1(grid: seq<seq<char>>, fuel: nat): (r: Option<nat>)
    requires Rectangular(grid)
    ensures FindStartingCoords(grid).None? ==> r == Some(0)
    ensures r.Some? && FindStartingCoords(grid).Some? ==> 1 <= r.value
  {
    match FindStartingCoords(grid)
    case None => Some(0)
    case Some((i, j)) =>
      match Patrol(grid, i, j, 0, {}, fuel)
      case None => None
      case Some(e) => Some(|e.visited|)
  }

  function RowCells(i: nat, n: nat): set<(nat, nat)> {
    set j: nat | j < n :: (i, j)
  }

  lemma {:induction false} RowCellsCard(i: nat, n: nat)
    ensures |RowCells(i, n)| == n
  {
    if n > 0 {
      RowCellsCard(i, n - 1);
      assert RowCells(i, n) == RowCells(i, n - 1) + {(i, n - 1)};
    }
  }

  /** The cells of an m-by-n map are those of its first m - 1 rows and, apart from them, its last row. */
  lemma CellsSplit(m: nat, n: nat)
    requires m > 0
    ensures Cells(m, n) == Cells(m - 1, n) + RowCells(m - 1, n)
    ensures Cells(m - 1, n) * RowCells(m - 1, n) == {}
  {
    var row := RowCells(m - 1, n);
    forall c | c in Cells(m, n) ensures c in Cells(m - 1, n) + row {
      if c.0 < m - 1 {
        assert (c.0, c.1) in Cells(m - 1, n);
      } else {
        assert (c.0, c.1) in row;
      }
    }
    forall c | c in Cells(m - 1, n) + row ensures c in Cells(m, n) {
      assert (c.0, c.1) in Cells(m, n);
    }
  }

  /** An m-by-n map has m * n cells. */
  lemma {:induction false} CellsCard(m: nat, n: nat)
    ensures |Cells(m, n)| == m * n
  {
    if m > 0 {
      CellsCard(m - 1, n);
      RowCellsCard(m - 1, n);
      CellsSplit(m, n);
      assert |Cells(m, n)| == (m - 1) * n + n;
      assert (m - 1) * n + n == m * n;
    } else {
      assert Cells(m, n) == {};
    }
  }

  /** The answer counts cells of the map: at most its area. */
  lemma {:induction false} Part1AtMostArea(grid: seq<seq<char>>, fuel: nat)
    requires Rectangular(grid)
    ensures SolvePart1(grid, fuel).Some? && |grid| > 0 ==> SolvePart1(grid, fuel).value <= |grid| * |grid[0]|
  {
    if SolvePart1(grid, fuel).Some? && |grid| > 0 {
      match FindStartingCoords(grid)
      case None =>
      case Some((i, j)) =>
        var e := Patrol(grid, i, j, 0, {}, fuel).value;
        CellsCard(|grid|, |grid[0]|);
        assert e.visited <= Cells(|grid|, |grid[0]|);
        SubsetCard(e.visited, Cells(|grid|, |grid[0]|));
    }
  }
}
