/**
 * Day 12, "Garden Groups": a map of garden plots, each growing one kind of
 * plant. A region is a maximal set of same-plant plots joined by
 * orthogonal steps. Reading the map labels each region with a number by
 * flood fill; part 1 prices each region at area times perimeter, part 2 at
 * area times number of sides, counted as corners.
 *
 * The source marks an unlabelled plot, and a position off the map in a
 * neighbourhood, with `usize::MAX`; here both are -1. Labels are region
 * numbers, always below the number of plots, so they never meet either.
 */
module GardenGroups {

  import opened Counting

  type Pos = (int, int)

  /** `usize::MAX` in the label grid: not labelled yet, or off the map. */
  const Unlabelled: int := -1

  predicate InGrid<T>(g: seq<seq<T>>, p: Pos) {
    0 <= p.0 < |g| && 0 <= p.1 < |g[p.0]|
  }

  predicate SameShape<T, U>(a: seq<seq<T>>, b: seq<seq<U>>) {
    |a| == |b| && forall i | 0 <= i < |a| :: |a[i]| == |b[i]|
  }

  /** The label at p, or `Unlabelled` off the map. */
  function Get(g: seq<seq<int>>, p: Pos): int {
    if InGrid(g, p) then g[p.0][p.1] else Unlabelled
  }

  /** `[(i, j + 1), (i, left), (i + 1, j), (up, j)]`: right, left, down, up. */
  function Neighbours(p: Pos): seq<Pos> {
    [(p.0, p.1 + 1), (p.0, p.1 - 1), (p.0 + 1, p.1), (p.0 - 1, p.1)]
  }

  lemma {:induction false} NeighboursSymmetric(p: Pos, q: Pos)
    requires q in Neighbours(p)
    ensures p in Neighbours(q)
  {
  }

  // ---------------------------------------------------------------- Regions

  /** p and q are orthogonally adjacent plots with the same plant. */
  predicate Link(plants: seq<seq<char>>, p: Pos, q: Pos) {
    InGrid(plants, p) && InGrid(plants, q) && q in Neighbours(p) && plants[p.0][p.1] == plants[q.0][q.1]
  }

  ghost predicate IsPath(plants: seq<seq<char>>, s: seq<Pos>) {
    |s| >= 1 && InGrid(plants, s[0]) && forall k | 0 <= k < |s| - 1 :: Link(plants, s[k], s[k + 1])
  }

  /** q is in p's region: a walk over same-plant neighbours leads from p to q. */
  ghost predicate Connected(plants: seq<seq<char>>, p: Pos, q: Pos) {
    exists s :: IsPath(plants, s) && s[0] == p && s[|s| - 1] == q
  }

  lemma {:induction false} ConnectedRefl(plants: seq<seq<char>>, p: Pos)
    requires InGrid(plants, p)
    ensures Connected(plants, p, p)
  {
    assert IsPath(plants, [p]);
  }

  lemma {:induction false} ConnectedPrepend(plants: seq<seq<char>>, p: Pos, q: Pos, r: Pos)
    requires Link(plants, p, q) && Connected(plants, q, r)
    ensures Connected(plants, p, r)
  {
    var s :| IsPath(plants, s) && s[0] == q && s[|s| - 1] == r;
    var s' := [p] + s;
    forall k | 0 <= k < |s'| - 1 ensures Link(plants, s'[k], s'[k + 1]) {
      if k > 0 {
        assert s'[k] == s[k - 1] && s'[k + 1] == s[k];
      }
    }
    assert IsPath(plants, s') && s'[|s'| - 1] == r;
  }

  lemma {:induction false} ConnectedAppend(plants: seq<seq<char>>, p: Pos, q: Pos, r: Pos)
    requires Connected(plants, p, q) && Link(plants, q, r)
    ensures Connected(plants, p, r)
  {
    var s :| IsPath(plants, s) && s[0] == p && s[|s| - 1] == q;
    var s' := s + [r];
    forall k | 0 <= k < |s'| - 1 ensures Link(plants, s'[k], s'[k + 1]) {
      if k < |s| - 1 {
        assert s'[k] == s[k] && s'[k + 1] == s[k + 1];
      }
    }
    assert IsPath(plants, s') && s'[0] == p;
  }

  /** A walk without its last step is a walk. */
  lemma {:induction false} PathInit(plants: seq<seq<char>>, s: seq<Pos>)
    requires IsPath(plants, s) && |s| > 1
    ensures IsPath(plants, s[..|s| - 1]) && Link(plants, s[|s| - 2], s[|s| - 1])
  {
    var init := s[..|s| - 1];
    forall k | 0 <= k < |init| - 1 ensures Link(plants, init[k], init[k + 1]) {
      assert init[k] == s[k] && init[k + 1] == s[k + 1];
    }
  }

  /** Walks can be followed backwards. */
  lemma {:induction false} ConnectedSymmetric(plants: seq<seq<char>>, p: Pos, q: Pos)
    requires Connected(plants, p, q)
    ensures Connected(plants, q, p)
  {
    var s :| IsPath(plants, s) && s[0] == p && s[|s| - 1] == q;
    PathReversed(plants, s);
  }

  lemma {:induction false} PathReversed(plants: seq<seq<char>>, s: seq<Pos>)
    requires IsPath(plants, s)
    ensures Connected(plants, s[|s| - 1], s[0])
    decreases |s|
  {
    if |s| == 1 {
      ConnectedRefl(plants, s[0]);
    } else {
      var init := s[..|s| - 1];
      PathInit(plants, s);
      PathReversed(plants, init);
      var a, b := s[|s| - 2], s[|s| - 1];
      assert Link(plants, a, b);
      NeighboursSymmetric(a, b);
      assert Link(plants, b, a);
      ConnectedPrepend(plants, b, a, s[0]);
    }
  }

  lemma {:induction false} ConnectedTransitive(plants: seq<seq<char>>, p: Pos, q: Pos, r: Pos)
    requires Connected(plants, p, q) && Connected(plants, q, r)
    ensures Connected(plants, p, r)
  {
    var s :| IsPath(plants, s) && s[0] == q && s[|s| - 1] == r;
    PathExtends(plants, p, s);
  }

  lemma {:induction false} PathExtends(plants: seq<seq<char>>, p: Pos, s: seq<Pos>)
    requires IsPath(plants, s) && Connected(plants, p, s[0])
    ensures Connected(plants, p, s[|s| - 1])
    decreases |s|
  {
    if |s| > 1 {
      var init := s[..|s| - 1];
      PathInit(plants, s);
      PathExtends(plants, p, init);
      assert Link(plants, s[|s| - 2], s[|s| - 1]);
      ConnectedAppend(plants, p, s[|s| - 2], s[|s| - 1]);
    }
  }

  // ---------------------------------------------------------------- Flood fill

  /** Labels already given are kept. */
  ghost predicate Grows(a: seq<seq<int>>, b: seq<seq<int>>) {
    forall c | Get(a, c) != Unlabelled :: Get(b, c) == Get(a, c)
  }

  /** Every plot labelled between a and b got `val` and lies in p's region. */
  ghost predicate Fresh(a: seq<seq<int>>, b: seq<seq<int>>, val: int, plants: seq<seq<char>>, p: Pos) {
    forall c | Get(a, c) == Unlabelled && Get(b, c) != Unlabelled :: Get(b, c) == val && Connected(plants, p, c)
  }

  /** Every plot labelled between a and b has all its same-plant neighbours labelled in b. */
  ghost predicate Closed(a: seq<seq<int>>, b: seq<seq<int>>, plants: seq<seq<char>>) {
    forall c, n | Get(a, c) == Unlabelled && Get(b, c) != Unlabelled && Link(plants, c, n) :: Get(b, n) != Unlabelled
  }

  function Blank(out: seq<seq<int>>): set<Pos> {
    set i: nat, j: nat | i < |out| && j < |out[i]| && out[i][j] == Unlabelled :: (i, j)
  }

  function Put(out: seq<seq<int>>, p: Pos, val: int): (r: seq<seq<int>>)
    requires InGrid(out, p)
    ensures SameShape(r, out)
  {
    out[p.0 := out[p.0][p.1 := val]]
  }

  lemma {:induction false} PutEffect(out: seq<seq<int>>, p: Pos, val: int)
    requires InGrid(out, p) && Get(out, p) == Unlabelled && val != Unlabelled
    ensures forall c :: Get(Put(out, p, val), c) == if c == p then val else Get(out, c)
    ensures Blank(Put(out, p, val)) == Blank(out) - {p}
  {
    var r := Put(out, p, val);
    forall c ensures Get(r, c) == if c == p then val else Get(out, c) {
    }
  }

  lemma {:induction false} GrowsShrinks(a: seq<seq<int>>, b: seq<seq<int>>)
    requires SameShape(a, b) && Grows(a, b)
    ensures Blank(b) <= Blank(a)
  {
    forall c | c in Blank(b) ensures c in Blank(a) {
      assert Get(b, c) == Unlabelled;
    }
  }

  lemma {:induction false} FillStep(out: seq<seq<int>>, cur: seq<seq<int>>, next: seq<seq<int>>,
                                    val: int, plants: seq<seq<char>>, p: Pos, n: Pos)
    requires Grows(out, cur) && Fresh(out, cur, val, plants, p) && Link(plants, p, n)
    requires Grows(cur, next) && Fresh(cur, next, val, plants, n)
    ensures Grows(out, next) && Fresh(out, next, val, plants, p)
  {
    forall c | Get(out, c) == Unlabelled && Get(next, c) != Unlabelled
      ensures Get(next, c) == val && Connected(plants, p, c)
    {
      if Get(cur, c) == Unlabelled {
        ConnectedPrepend(plants, p, n, c);
      }
    }
  }

  lemma {:induction false} ClosedStep(out: seq<seq<int>>, cur: seq<seq<int>>, next: seq<seq<int>>,
                                      plants: seq<seq<char>>, p: Pos)
    requires forall c, m | Get(out, c) == Unlabelled && Get(cur, c) != Unlabelled && c != p && Link(plants, c, m)
               :: Get(cur, m) != Unlabelled
    requires Grows(cur, next) && Closed(cur, next, plants)
    ensures forall c, m | Get(out, c) == Unlabelled && Get(next, c) != Unlabelled && c != p && Link(plants, c, m)
              :: Get(next, m) != Unlabelled
  {
  }

  /** What the loop over p's neighbours keeps after the first k of them. */
  ghost predicate FillInv(out: seq<seq<int>>, cur: seq<seq<int>>, val: nat, plants: seq<seq<char>>, p: Pos, k: nat)
    requires k <= 4
  {
    var ns := Neighbours(p);
    && SameShape(out, plants) && SameShape(cur, plants) && InGrid(plants, p)
    && Grows(out, cur) && Fresh(out, cur, val, plants, p) && Get(cur, p) == val
    && Blank(cur) <= Blank(out) - {p}
    && (forall d | 0 <= d < k && Link(plants, p, ns[d]) :: Get(cur, ns[d]) != Unlabelled)
    && (forall c, m | Get(out, c) == Unlabelled && Get(cur, c) != Unlabelled && c != p && Link(plants, c, m)
          :: Get(cur, m) != Unlabelled)
  }

  /** Filling from the k-th neighbour keeps the loop's invariant. */
  lemma {:induction false} FillInvStep(out: seq<seq<int>>, cur: seq<seq<int>>, next: seq<seq<int>>,
                                       val: nat, plants: seq<seq<char>>, p: Pos, k: nat)
    requires k < 4 && FillInv(out, cur, val, plants, p, k) && Link(plants, p, Neighbours(p)[k])
    requires SameShape(next, plants) && Get(next, Neighbours(p)[k]) != Unlabelled
    requires Grows(cur, next) && Closed(cur, next, plants) && Fresh(cur, next, val, plants, Neighbours(p)[k])
    ensures FillInv(out, next, val, plants, p, k + 1)
  {
    var ns := Neighbours(p);
    FillStep(out, cur, next, val, plants, p, ns[k]);
    ClosedStep(out, cur, next, plants, p);
    GrowsShrinks(cur, next);
  }

  /** Skipping a neighbour that is not a same-plant plot keeps the invariant too. */
  lemma {:induction false} FillInvSkip(out: seq<seq<int>>, cur: seq<seq<int>>, val: nat, plants: seq<seq<char>>, p: Pos, k: nat)
    requires k < 4 && FillInv(out, cur, val, plants, p, k) && !Link(plants, p, Neighbours(p)[k])
    ensures FillInv(out, cur, val, plants, p, k + 1)
  {
  }

  /** After all four neighbours, p's fill is closed. */
  lemma {:induction false} FillInvDone(out: seq<seq<int>>, cur: seq<seq<int>>, val: nat, plants: seq<seq<char>>, p: Pos)
    requires FillInv(out, cur, val, plants, p, 4)
    ensures Closed(out, cur, plants)
  {
    var ns := Neighbours(p);
    forall m | Link(plants, p, m) ensures Get(cur, m) != Unlabelled {
      var d :| 0 <= d < 4 && ns[d] == m;
    }
  }

  /**
   * `flood_fill`: on a labelled plot, false and nothing changes; otherwise
   * the plot gets `val`, every same-plant neighbour is filled in turn, and
   * the result is true. The labels it gives are all `val`, all in p's
   * region, and leave no same-plant neighbour of a newly labelled plot
   * unlabelled.
   */
  method FloodFill(out: seq<seq<int>>, val: nat, plants: seq<seq<char>>, p: Pos)
    returns (filled: bool, out': seq<seq<int>>)
    requires SameShape(out, plants) && InGrid(plants, p)
    ensures SameShape(out', plants)
    ensures filled <==> Get(out, p) == Unlabelled
    ensures !filled ==> out' == out
    ensures Get(out', p) != Unlabelled
    ensures Grows(out, out') && Closed(out, out', plants)
    ensures Fresh(out, out', val, plants, p)
    decreases |Blank(out)|
  {
    if out[p.0][p.1] != Unlabelled {
      return false, out;
    }
    var cur := Put(out, p, val);
    PutEffect(out, p, val);
    ConnectedRefl(plants, p);
    var ns := Neighbours(p);
    var k := 0;
    while k < 4
      invariant k <= 4 && FillInv(out, cur, val, plants, p, k)
    {
      var n := ns[k];
      if 0 <= n.0 < |plants| && 0 <= n.1 < |plants[n.0]| && plants[n.0][n.1] == plants[p.0][p.1] {
        assert Link(plants, p, n);
        SubsetCard(Blank(cur), Blank(out) - {p});
        var _, next := FloodFill(cur, val, plants, n);
        FillInvStep(out, cur, next, val, plants, p, k);
        cur := next;
      } else {
        FillInvSkip(out, cur, val, plants, p, k);
      }
      k := k + 1;
    }
    FillInvDone(out, cur, val, plants, p);
    filled, out' := true, cur;
  }

  // ---------------------------------------------------------------- Labelling the map

  /** Same-plant neighbours of a labelled plot carry its label. */
  ghost predicate Consistent(grid: seq<seq<int>>, plants: seq<seq<char>>) {
    forall c, n | Get(grid, c) != Unlabelled && Link(plants, c, n) :: Get(grid, n) == Get(grid, c)
  }

  /** Labels are below `regions`, and each label's plots lie in the region of its seed. */
  ghost predicate Seeded(grid: seq<seq<int>>, plants: seq<seq<char>>, regions: nat, seeds: seq<Pos>) {
    && |seeds| == regions
    && forall c | Get(grid, c) != Unlabelled :: 0 <= Get(grid, c) < regions && Connected(plants, seeds[Get(grid, c)], c)
  }

  /** A fill from an unlabelled plot with a new label keeps labels consistent. */
  lemma {:induction false} ConsistentAfterFill(grid: seq<seq<int>>, grid': seq<seq<int>>, plants: seq<seq<char>>,
                                               val: nat, p: Pos)
    requires Consistent(grid, plants) && Grows(grid, grid') && Closed(grid, grid', plants)
    requires Fresh(grid, grid', val, plants, p)
    requires forall c | Get(grid, c) != Unlabelled :: Get(grid, c) < val
    ensures Consistent(grid', plants)
  {
    forall c, n | Get(grid', c) != Unlabelled && Link(plants, c, n) ensures Get(grid', n) == Get(grid', c) {
      if Get(grid, c) == Unlabelled {
        if Get(grid, n) != Unlabelled {
          NeighboursSymmetric(c, n);
          assert Link(plants, n, c);
          assert false;
        }
      }
    }
  }

  lemma {:induction false} SeededAfterFill(grid: seq<seq<int>>, grid': seq<seq<int>>, plants: seq<seq<char>>,
                                           regions: nat, seeds: seq<Pos>, p: Pos)
    requires Seeded(grid, plants, regions, seeds) && Grows(grid, grid') && Fresh(grid, grid', regions, plants, p)
    ensures Seeded(grid', plants, regions + 1, seeds + [p])
  {
    var seeds' := seeds + [p];
    forall c | Get(grid', c) != Unlabelled
      ensures 0 <= Get(grid', c) < regions + 1 && Connected(plants, seeds'[Get(grid', c)], c)
    {
      if Get(grid, c) != Unlabelled {
        assert seeds'[Get(grid, c)] == seeds[Get(grid, c)];
      }
    }
  }

  /** Row-major order. */
  predicate Before(c: Pos, i: int, j: int) {
    c.0 < i || (c.0 == i && c.1 < j)
  }

  /** What the labelling loop keeps: plots before (i, j) are labelled, consistently, by seeded regions. */
  ghost predicate LabelInv(grid: seq<seq<int>>, plants: seq<seq<char>>, regions: nat, seeds: seq<Pos>, i: int, j: int) {
    && SameShape(grid, plants)
    && (forall c | InGrid(plants, c) && Before(c, i, j) :: Get(grid, c) != Unlabelled)
    && Consistent(grid, plants) && Seeded(grid, plants, regions, seeds)
  }

  /** Filling from (i, j) with the next region number moves the invariant one plot on. */
  lemma {:induction false} LabelStep(grid: seq<seq<int>>, grid': seq<seq<int>>, plants: seq<seq<char>>,
                                     regions: nat, seeds: seq<Pos>, i: nat, j: nat, filled: bool)
    requires LabelInv(grid, plants, regions, seeds, i, j) && InGrid(plants, (i, j))
    requires SameShape(grid', plants) && Get(grid', (i, j)) != Unlabelled
    requires filled <==> Get(grid, (i, j)) == Unlabelled
    requires !filled ==> grid' == grid
    requires Grows(grid, grid') && Closed(grid, grid', plants) && Fresh(grid, grid', regions, plants, (i, j))
    ensures filled ==> LabelInv(grid', plants, regions + 1, seeds + [(i, j)], i, j + 1)
    ensures !filled ==> LabelInv(grid', plants, regions, seeds, i, j + 1)
  {
    if filled {
      ConsistentAfterFill(grid, grid', plants, regions, (i, j));
      SeededAfterFill(grid, grid', plants, regions, seeds, (i, j));
    }
  }

  /** Past the end of row i is the start of row i + 1. */
  lemma {:induction false} LabelNextRow(grid: seq<seq<int>>, plants: seq<seq<char>>, regions: nat, seeds: seq<Pos>, i: nat)
    requires i < |plants| && LabelInv(grid, plants, regions, seeds, i, |plants[i]|)
    ensures LabelInv(grid, plants, regions, seeds, i + 1, 0)
  {
    forall c | InGrid(plants, c) && Before(c, i + 1, 0) ensures Get(grid, c) != Unlabelled {
      assert Before(c, i, |plants[i]|);
    }
  }

  /**
   * The labelling loop of `parse_input`: every plot, in row-major order,
   * starts a fill with the next region number, which is used up only when
   * the fill labels something. Afterwards every plot has a label below the
   * region count, and two plots share a label exactly when they are in the
   * same region.
   */
  method LabelRegions(plants: seq<seq<char>>) returns (grid: seq<seq<int>>, regions: nat)
    ensures SameShape(grid, plants)
    ensures forall c | InGrid(plants, c) :: 0 <= Get(grid, c) < regions
    ensures forall c, d | InGrid(plants, c) && InGrid(plants, d) :: Get(grid, c) == Get(grid, d) <==> Connected(plants, c, d)
  {
    grid := seq(|plants|, i requires 0 <= i < |plants| => seq(|plants[i]|, _ => Unlabelled));
    regions := 0;
    ghost var seeds: seq<Pos> := [];
    var i := 0;
    while i < |plants|
      invariant i <= |plants| && LabelInv(grid, plants, regions, seeds, i, 0)
    {
      var j := 0;
      while j < |plants[i]|
        invariant j <= |plants[i]| && LabelInv(grid, plants, regions, seeds, i, j)
      {
        var filled, grid' := FloodFill(grid, regions, plants, (i, j));
        LabelStep(grid, grid', plants, regions, seeds, i, j, filled);
        if filled {
          seeds := seeds + [(i, j)];
          regions := regions + 1;
        }
        grid := grid';
        j := j + 1;
      }
      LabelNextRow(grid, plants, regions, seeds, i);
      i := i + 1;
    }
    LabelDone(grid, plants, regions, seeds);
  }

  /** With every plot labelled, labels are region numbers and coincide exactly on regions. */
  lemma {:induction false} LabelDone(grid: seq<seq<int>>, plants: seq<seq<char>>, regions: nat, seeds: seq<Pos>)
    requires LabelInv(grid, plants, regions, seeds, |plants|, 0)
    ensures forall c | InGrid(plants, c) :: 0 <= Get(grid, c) < regions
    ensures forall c, d | InGrid(plants, c) && InGrid(plants, d) :: Get(grid, c) == Get(grid, d) <==> Connected(plants, c, d)
  {
    forall c | InGrid(plants, c) ensures Get(grid, c) != Unlabelled {
      assert Before(c, |plants|, 0);
    }
    forall c, d | InGrid(plants, c) && InGrid(plants, d)
      ensures Get(grid, c) == Get(grid, d) <==> Connected(plants, c, d)
    {
      SameLabelIffConnected(grid, plants, regions, seeds, c, d);
    }
  }

  /** Once every plot is labelled, equal labels and shared regions coincide. */
  lemma {:induction false} SameLabelIffConnected(grid: seq<seq<int>>, plants: seq<seq<char>>, regions: nat,
                                                 seeds: seq<Pos>, c: Pos, d: Pos)
    requires Consistent(grid, plants) && Seeded(grid, plants, regions, seeds)
    requires forall x | InGrid(plants, x) :: Get(grid, x) != Unlabelled
    requires InGrid(plants, c) && InGrid(plants, d)
    ensures Get(grid, c) == Get(grid, d) <==> Connected(plants, c, d)
  {
    if Get(grid, c) == Get(grid, d) {
      var seed := seeds[Get(grid, c)];
      ConnectedSymmetric(plants, seed, c);
      ConnectedTransitive(plants, c, seed, d);
    }
    if Connected(plants, c, d) {
      var s :| IsPath(plants, s) && s[0] == c && s[|s| - 1] == d;
      PathSameLabel(grid, plants, s);
    }
  }

  lemma {:induction false} PathSameLabel(grid: seq<seq<int>>, plants: seq<seq<char>>, s: seq<Pos>)
    requires Consistent(grid, plants) && IsPath(plants, s)
    requires forall x | InGrid(plants, x) :: Get(grid, x) != Unlabelled
    ensures Get(grid, s[|s| - 1]) == Get(grid, s[0])
    decreases |s|
  {
    if |s| > 1 {
      var init := s[..|s| - 1];
      PathInit(plants, s);
      PathSameLabel(grid, plants, init);
      assert Link(plants, s[|s| - 2], s[|s| - 1]);
    }
  }

  // ---------------------------------------------------------------- Prices

  /** A label grid as reading the map leaves it: every plot carries a region number below `regions`. */
  predicate Labelled(grid: seq<seq<int>>, regions: nat) {
    forall i, j | 0 <= i < |grid| && 0 <= j < |grid[i]| :: 0 <= grid[i][j] < regions
  }

  /** Side d of plot c (right, left, down, up) is fenced: the plot across it is off the map or has another label. */
  function Exposed(grid: seq<seq<int>>, c: Pos): nat -> bool {
    (d: nat) => d < 4 && Get(grid, Neighbours(c)[d]) != Get(grid, c)
  }

  /** How many of plot c's four sides are fenced. */
  function SideCount(grid: seq<seq<int>>, c: Pos): (n: nat)
    ensures n <= 4
  {
    Count(4, Exposed(grid, c))
  }

  /** The four sides of one plot in `solve_part_1`: each side whose neighbour lies off the map or carries another label adds one fence. */
  method CellSides(grid: seq<seq<int>>, i: nat, j: nat) returns (sides: nat)
    requires InGrid(grid, (i, j)) && grid[i][j] >= 0
    ensures sides == |set d: nat | d < 4 && Get(grid, Neighbours((i, j))[d]) != grid[i][j]|
  {
    var cell := grid[i][j];
    var ns := Neighbours((i, j));
    sides := 0;
    var k := 0;
    while k < 4
      invariant k <= 4 && sides == Count(k, Exposed(grid, (i, j)))
    {
      var n := ns[k];
      if !(0 <= n.0 < |grid| && 0 <= n.1 < |grid[n.0]|) || grid[n.0][n.1] != cell {
        sides := sides + 1;
      }
      k := k + 1;
    }
    SideCountIsCard(grid, (i, j));
  }

  /** The fence count of a plot is the number of its fenced sides. */
  lemma {:induction false} SideCountIsCard(grid: seq<seq<int>>, c: Pos)
    ensures SideCount(grid, c) == |set d: nat | d < 4 && Get(grid, Neighbours(c)[d]) != Get(grid, c)|
  {
    CountIsCard(4, Exposed(grid, c));
    assert (set d: nat | d < 4 && Exposed(grid, c)(d)) == (set d: nat | d < 4 && Get(grid, Neighbours(c)[d]) != Get(grid, c));
  }

  /**
   * On the labels of a map, a side is fenced exactly when it faces the map's
   * edge or a different plant: plots across an unfenced side are in the same
   * region, and adjacent plots with the same plant always are.
   */
  lemma {:induction false} FencedIffPlantChanges(grid: seq<seq<int>>, plants: seq<seq<char>>, c: Pos, d: nat)
    requires SameShape(grid, plants) && InGrid(plants, c) && d < 4
    requires forall x | InGrid(plants, x) :: 0 <= Get(grid, x)
    requires forall x, y | InGrid(plants, x) && InGrid(plants, y) :: Get(grid, x) == Get(grid, y) <==> Connected(plants, x, y)
    ensures Exposed(grid, c)(d) <==> !Link(plants, c, Neighbours(c)[d])
  {
    var n := Neighbours(c)[d];
    if Link(plants, c, n) {
      ConnectedRefl(plants, c);
      ConnectedAppend(plants, c, c, n);
    } else if InGrid(plants, n) {
      if Get(grid, n) == Get(grid, c) {
        assert Connected(plants, c, n);
        assert plants[c.0][c.1] != plants[n.0][n.1];
        RegionOnePlant(plants, c, n);
      }
    }
  }

  /** A walk over same-plant neighbours never changes plant. */
  lemma {:induction false} RegionOnePlant(plants: seq<seq<char>>, p: Pos, q: Pos)
    requires Connected(plants, p, q)
    ensures InGrid(plants, p) && InGrid(plants, q) && plants[q.0][q.1] == plants[p.0][p.1]
  {
    var s :| IsPath(plants, s) && s[0] == p && s[|s| - 1] == q;
    PathOnePlant(plants, s);
  }

  lemma {:induction false} PathOnePlant(plants: seq<seq<char>>, s: seq<Pos>)
    requires IsPath(plants, s)
    ensures InGrid(plants, s[|s| - 1]) && plants[s[|s| - 1].0][s[|s| - 1].1] == plants[s[0].0][s[0].1]
    decreases |s|
  {
    if |s| > 1 {
      PathInit(plants, s);
      PathOnePlant(plants, s[..|s| - 1]);
    }
  }

  // ---------------------------------------------------------------- Corners

  /**
   * One quadrant of a plot in `solve_part_2`: the plot is a corner of its
   * region's outline there when the diagonal plot is outside while both
   * orthogonal ones are inside (an inner corner), or else when both
   * orthogonal ones are outside (an outer corner).
   */
  function QuadrantCorner(cell: int, vertical: int, horizontal: int, diagonal: int): nat {
    if diagonal != cell && vertical == cell && horizontal == cell then 1
    else if vertical != cell && horizontal != cell then 1
    else 0
  }

  /** A quadrant counts exactly when both orthogonal neighbours are on the same side of the fence, and not when all three are inside. */
  lemma {:induction false} QuadrantCornerIff(cell: int, vertical: int, horizontal: int, diagonal: int)
    ensures QuadrantCorner(cell, vertical, horizontal, diagonal) <= 1
    ensures QuadrantCorner(cell, vertical, horizontal, diagonal) == 1
            <==> (vertical == cell) == (horizontal == cell) && !(vertical == cell && diagonal == cell)
  {
  }

  /**
   * The corners region r's outline has at the point where the plots a b
   * (above) and c d (below) meet: none where no fence passes or it runs
   * straight through, one where it turns, two where the region touches
   * itself only diagonally.
   */
  function OutlineCorners(r: int, a: int, b: int, c: int, d: int): nat {
    var above := (a == r) != (b == r);
    var below := (c == r) != (d == r);
    var left := (a == r) != (c == r);
    var right := (b == r) != (d == r);
    if above && below && left && right then 2
    else if (above || below) && (left || right) then 1
    else 0
  }

  /**
   * Counting per plot and quadrant counts every corner of the outline once:
   * at the point where four plots meet, the quadrants of the plots in
   * region r that face that point add up to the corners of r's outline
   * there.
   */
  lemma {:induction false} QuadrantsCountOutlineCorners(r: int, a: int, b: int, c: int, d: int)
    ensures (if a == r then QuadrantCorner(a, c, b, d) else 0)
          + (if b == r then QuadrantCorner(b, d, a, c) else 0)
          + (if c == r then QuadrantCorner(c, a, d, b) else 0)
          + (if d == r then QuadrantCorner(d, b, c, a) else 0)
         == OutlineCorners(r, a, b, c, d)
  {
    if a == r {
      if b == r {
        assert OutlineCorners(r, a, b, c, d) == (if (c == r) != (d == r) then 1 else 0);
      } else if c == r {
        assert OutlineCorners(r, a, b, c, d) == (if d == r then 1 else 0);
      } else {
        assert OutlineCorners(r, a, b, c, d) == (if d == r then 2 else 1);
      }
    } else {
      if b == r && c == r {
        assert OutlineCorners(r, a, b, c, d) == (if d == r then 1 else 2);
      } else if b == r {
        assert OutlineCorners(r, a, b, c, d) == (if d == r then 0 else 1);
      } else if c == r {
        assert OutlineCorners(r, a, b, c, d) == (if d == r then 0 else 1);
      } else {
        assert OutlineCorners(r, a, b, c, d) == (if d == r then 1 else 0);
      }
    }
  }

  predicate IsNeighborhood(nb: seq<seq<int>>) {
    |nb| == 3 && forall a | 0 <= a < 3 :: |nb[a]| == 3
  }

  /** The 3 by 3 labels around c, row by row, `Unlabelled` off the map. */
  function Neighborhood(grid: seq<seq<int>>, c: Pos): (nb: seq<seq<int>>)
    ensures IsNeighborhood(nb)
  {
    seq(3, a => seq(3, b => Get(grid, (c.0 - 1 + a, c.1 - 1 + b))))
  }

  /** `get_neighborhood`: start from all `usize::MAX` and copy in every position that lies on the map. */
  method GetNeighborhood(grid: seq<seq<int>>, i: nat, j: nat) returns (nb: seq<seq<int>>)
    ensures IsNeighborhood(nb)
    ensures forall a, b | 0 <= a < 3 && 0 <= b < 3 :: nb[a][b] == Get(grid, (i - 1 + a, j - 1 + b))
  {
    var blank := [Unlabelled, Unlabelled, Unlabelled];
    nb := [blank, blank, blank];
    var ni := 0;
    while ni < 3
      invariant ni <= 3 && IsNeighborhood(nb)
      invariant forall a, b | 0 <= a < ni && 0 <= b < 3 :: nb[a][b] == Get(grid, (i - 1 + a, j - 1 + b))
      invariant forall a | ni <= a < 3 :: nb[a] == blank
    {
      var i2 := i + ni - 1;
      var nj := 0;
      while nj < 3
        invariant nj <= 3 && IsNeighborhood(nb)
        invariant forall a, b | 0 <= a < ni && 0 <= b < 3 :: nb[a][b] == Get(grid, (i - 1 + a, j - 1 + b))
        invariant forall b | 0 <= b < nj :: nb[ni][b] == Get(grid, (i2, j - 1 + b))
        invariant forall b | nj <= b < 3 :: nb[ni][b] == Unlabelled
        invariant forall a | ni < a < 3 :: nb[a] == blank
      {
        var j2 := j + nj - 1;
        if 0 <= i2 < |grid| && 0 <= j2 < |grid[i2]| {
          nb := nb[ni := nb[ni][nj := grid[i2][j2]]];
        }
        nj := nj + 1;
      }
      ni := ni + 1;
    }
  }

  /** On a labelled map the neighbourhood's centre is the plot's own label, and an entry is `Unlabelled` exactly off the map. */
  lemma {:induction false} NeighborhoodEntries(grid: seq<seq<int>>, regions: nat, c: Pos, a: nat, b: nat)
    requires Labelled(grid, regions) && InGrid(grid, c) && a < 3 && b < 3
    ensures Neighborhood(grid, c)[1][1] == grid[c.0][c.1]
    ensures Neighborhood(grid, c)[a][b] == Unlabelled <==> !InGrid(grid, (c.0 - 1 + a, c.1 - 1 + b))
  {
    var q := (c.0 - 1 + a, c.1 - 1 + b);
    assert Neighborhood(grid, c)[a][b] == Get(grid, q);
    assert Neighborhood(grid, c)[1][1] == Get(grid, c);
  }

  /** The corners a plot contributes in `solve_part_2`: one quadrant each for top left, top right, bottom left and bottom right. */
  function CornerCount(nb: seq<seq<int>>): (n: nat)
    requires IsNeighborhood(nb)
    ensures n <= 4
  {
    var cell := nb[1][1];
    QuadrantCorner(cell, nb[0][1], nb[1][0], nb[0][0])
      + QuadrantCorner(cell, nb[0][1], nb[1][2], nb[0][2])
      + QuadrantCorner(cell, nb[2][1], nb[1][0], nb[2][0])
      + QuadrantCorner(cell, nb[2][1], nb[1][2], nb[2][2])
  }

  // ---------------------------------------------------------------- Tallies

  /** What is tallied per plot: 1 for the area, its fenced sides for the perimeter, its corners for the number of sides. */
  datatype Measure = Area | Perimeter | Corners

  function CellMeasure(grid: seq<seq<int>>, m: Measure, c: Pos): nat {
    match m
    case Area => 1
    case Perimeter => SideCount(grid, c)
    case Corners => CornerCount(Neighborhood(grid, c))
  }

  /** The measure summed over the plots labelled r in row i before column j. */
  function RowTotal(grid: seq<seq<int>>, m: Measure, r: int, i: nat, j: nat): nat
    requires i < |grid| && j <= |grid[i]|
    decreases j
  {
    if j == 0 then 0
    else RowTotal(grid, m, r, i, j - 1) + (if grid[i][j - 1] == r then CellMeasure(grid, m, (i, j - 1)) else 0)
  }

  /** The measure summed over the plots labelled r in the first n rows. */
  function RowsTotal(grid: seq<seq<int>>, m: Measure, r: int, n: nat): nat
    requires n <= |grid|
    decreases n
  {
    if n == 0 then 0 else RowsTotal(grid, m, r, n - 1) + RowTotal(grid, m, r, n - 1, |grid[n - 1]|)
  }

  /** The measure of region r: its area, perimeter or number of corners. */
  function Total(grid: seq<seq<int>>, m: Measure, r: int): nat {
    RowsTotal(grid, m, r, |grid|)
  }

  /** The fence price of regions 0 .. n - 1: area times the measure, summed. */
  function Price(grid: seq<seq<int>>, m: Measure, n: nat): nat {
    if n == 0 then 0 else Price(grid, m, n - 1) + Total(grid, Area, n - 1) * Total(grid, m, n - 1)
  }

  /** The plots labelled r in row i before column j, and in the first n rows. */
  function RowPlots(grid: seq<seq<int>>, r: int, i: nat, j: nat): set<Pos>
    requires i < |grid| && j <= |grid[i]|
  {
    set k: nat | k < j && grid[i][k] == r :: (i, k)
  }

  function Plots(grid: seq<seq<int>>, r: int, n: nat): set<Pos>
    requires n <= |grid|
  {
    set i: nat, k: nat | i < n && k < |grid[i]| && grid[i][k] == r :: (i, k)
  }

  /** The area of region r is the number of plots labelled r. */
  lemma {:induction false} AreaIsCard(grid: seq<seq<int>>, r: int)
    ensures Total(grid, Area, r) == |Plots(grid, r, |grid|)|
  {
    RowsAreaIsCard(grid, r, |grid|);
  }

  lemma {:induction false} RowsAreaIsCard(grid: seq<seq<int>>, r: int, n: nat)
    requires n <= |grid|
    ensures RowsTotal(grid, Area, r, n) == |Plots(grid, r, n)|
    decreases n
  {
    if n == 0 {
      assert Plots(grid, r, n) == {};
    } else {
      RowsAreaIsCard(grid, r, n - 1);
      RowAreaIsCard(grid, r, n - 1, |grid[n - 1]|);
      assert Plots(grid, r, n) == Plots(grid, r, n - 1) + RowPlots(grid, r, n - 1, |grid[n - 1]|);
      assert Plots(grid, r, n - 1) !! RowPlots(grid, r, n - 1, |grid[n - 1]|);
    }
  }

  lemma {:induction false} RowAreaIsCard(grid: seq<seq<int>>, r: int, i: nat, j: nat)
    requires i < |grid| && j <= |grid[i]|
    ensures RowTotal(grid, Area, r, i, j) == |RowPlots(grid, r, i, j)|
    decreases j
  {
    if j == 0 {
      assert RowPlots(grid, r, i, j) == {};
    } else {
      RowAreaIsCard(grid, r, i, j - 1);
      if grid[i][j - 1] == r {
        assert RowPlots(grid, r, i, j) == RowPlots(grid, r, i, j - 1) + {(i, j - 1)};
      } else {
        assert RowPlots(grid, r, i, j) == RowPlots(grid, r, i, j - 1);
      }
    }
  }

  /** No plot has more than four fences or four corners, so neither measure exceeds four times the area. */
  lemma {:induction false} MeasureAtMostFourAreas(grid: seq<seq<int>>, m: Measure, r: int)
    ensures Total(grid, m, r) <= 4 * Total(grid, Area, r)
  {
    RowsAtMostFourAreas(grid, m, r, |grid|);
  }

  lemma {:induction false} RowsAtMostFourAreas(grid: seq<seq<int>>, m: Measure, r: int, n: nat)
    requires n <= |grid|
    ensures RowsTotal(grid, m, r, n) <= 4 * RowsTotal(grid, Area, r, n)
    decreases n
  {
    if n > 0 {
      RowsAtMostFourAreas(grid, m, r, n - 1);
      RowAtMostFourAreas(grid, m, r, n - 1, |grid[n - 1]|);
    }
  }

  lemma {:induction false} RowAtMostFourAreas(grid: seq<seq<int>>, m: Measure, r: int, i: nat, j: nat)
    requires i < |grid| && j <= |grid[i]|
    ensures RowTotal(grid, m, r, i, j) <= 4 * RowTotal(grid, Area, r, i, j)
    decreases j
  {
    if j > 0 {
      RowAtMostFourAreas(grid, m, r, i, j - 1);
    }
  }

  /** The tally per region after the plots of row i before column j. */
  ghost predicate Tallied(grid: seq<seq<int>>, m: Measure, t: seq<nat>, regions: nat, i: nat, j: nat)
    requires i < |grid| && j <= |grid[i]|
  {
    |t| == regions && forall r | 0 <= r < regions :: t[r] == RowsTotal(grid, m, r, i) + RowTotal(grid, m, r, i, j)
  }

  /** The tally per region after the first n rows. */
  ghost predicate TalliedRows(grid: seq<seq<int>>, m: Measure, t: seq<nat>, regions: nat, n: nat)
    requires n <= |grid|
  {
    |t| == regions && forall r | 0 <= r < regions :: t[r] == RowsTotal(grid, m, r, n)
  }

  /** Adding plot (i, j)'s measure to its region moves the tally one plot on. */
  lemma {:induction false} TallyCell(grid: seq<seq<int>>, m: Measure, t: seq<nat>, regions: nat, i: nat, j: nat)
    requires Labelled(grid, regions) && i < |grid| && j < |grid[i]| && Tallied(grid, m, t, regions, i, j)
    ensures var cell := grid[i][j];
            Tallied(grid, m, t[cell := t[cell] + CellMeasure(grid, m, (i, j))], regions, i, j + 1)
  {
  }

  lemma {:induction false} TallyRowStart(grid: seq<seq<int>>, m: Measure, t: seq<nat>, regions: nat, i: nat)
    requires i < |grid| && TalliedRows(grid, m, t, regions, i)
    ensures Tallied(grid, m, t, regions, i, 0)
  {
  }

  lemma {:induction false} TallyRowEnd(grid: seq<seq<int>>, m: Measure, t: seq<nat>, regions: nat, i: nat)
    requires i < |grid| && Tallied(grid, m, t, regions, i, |grid[i]|)
    ensures TalliedRows(grid, m, t, regions, i + 1)
  {
  }

  /** `zip(areas, other).map(a * p).sum()`. */
  method PriceOf(grid: seq<seq<int>>, m: Measure, regions: nat, areas: seq<nat>, other: seq<nat>) returns (price: nat)
    requires TalliedRows(grid, Area, areas, regions, |grid|) && TalliedRows(grid, m, other, regions, |grid|)
    ensures price == Price(grid, m, regions)
  {
    price := 0;
    var r := 0;
    while r < regions
      invariant r <= regions && price == Price(grid, m, r)
    {
      price := price + areas[r] * other[r];
      r := r + 1;
    }
  }

  /**
   * `solve_part_1`: one pass over the plots in row-major order adds one to
   * the area of the plot's region and its fenced sides to the region's
   * perimeter; the price is area times perimeter summed over regions.
   */
  method SolvePart1(grid: seq<seq<int>>, regions: nat) returns (price: nat)
    requires Labelled(grid, regions)
    ensures price == Price(grid, Perimeter, regions)
  {
    var areas: seq<nat> := seq(regions, _ => 0);
    var perimeters: seq<nat> := seq(regions, _ => 0);
    var i := 0;
    while i < |grid|
      invariant i <= |grid| && TalliedRows(grid, Area, areas, regions, i) && TalliedRows(grid, Perimeter, perimeters, regions, i)
    {
      TallyRowStart(grid, Area, areas, regions, i);
      TallyRowStart(grid, Perimeter, perimeters, regions, i);
      var j := 0;
      while j < |grid[i]|
        invariant j <= |grid[i]| && Tallied(grid, Area, areas, regions, i, j) && Tallied(grid, Perimeter, perimeters, regions, i, j)
      {
        var cell := grid[i][j];
        TallyCell(grid, Area, areas, regions, i, j);
        areas := areas[cell := areas[cell] + 1];
        var sides := CellSides(grid, i, j);
        SideCountIsCard(grid, (i, j));
        TallyCell(grid, Perimeter, perimeters, regions, i, j);
        perimeters := perimeters[cell := perimeters[cell] + sides];
        j := j + 1;
      }
      TallyRowEnd(grid, Area, areas, regions, i);
      TallyRowEnd(grid, Perimeter, perimeters, regions, i);
      i := i + 1;
    }
    price := PriceOf(grid, Perimeter, regions, areas, perimeters);
  }

  /**
   * `solve_part_2`: the same pass, tallying each plot's corners (read off
   * its neighbourhood) instead of its fences; a region's outline has as
   * many sides as corners.
   */
  method SolvePart2(grid: seq<seq<int>>, regions: nat) returns (price: nat)
    requires Labelled(grid, regions)
    ensures price == Price(grid, Corners, regions)
  {
    var areas: seq<nat> := seq(regions, _ => 0);
    var corners: seq<nat> := seq(regions, _ => 0);
    var i := 0;
    while i < |grid|
      invariant i <= |grid| && TalliedRows(grid, Area, areas, regions, i) && TalliedRows(grid, Corners, corners, regions, i)
    {
      TallyRowStart(grid, Area, areas, regions, i);
      TallyRowStart(grid, Corners, corners, regions, i);
      var j := 0;
      while j < |grid[i]|
        invariant j <= |grid[i]| && Tallied(grid, Area, areas, regions, i, j) && Tallied(grid, Corners, corners, regions, i, j)
      {
        var cell := grid[i][j];
        var turns := CornersAt(grid, i, j);
        TallyCell(grid, Corners, corners, regions, i, j);
        corners := corners[cell := corners[cell] + turns];
        TallyCell(grid, Area, areas, regions, i, j);
        areas := areas[cell := areas[cell] + 1];
        j := j + 1;
      }
      TallyRowEnd(grid, Area, areas, regions, i);
      TallyRowEnd(grid, Corners, corners, regions, i);
      i := i + 1;
    }
    price := PriceOf(grid, Corners, regions, areas, corners);
  }

  /** The corners of plot (i, j), read off the 3x3 neighbourhood the source builds. */
  method CornersAt(grid: seq<seq<int>>, i: nat, j: nat) returns (c: nat)
    ensures c == CellMeasure(grid, Corners, (i, j))
  {
    var nb := GetNeighborhood(grid, i, j);
    NeighborhoodEqual(nb, Neighborhood(grid, (i, j)));
    c := CornerCount(nb);
  }

  lemma {:induction false} NeighborhoodEqual(x: seq<seq<int>>, y: seq<seq<int>>)
    requires IsNeighborhood(x) && IsNeighborhood(y)
    requires forall a, b | 0 <= a < 3 && 0 <= b < 3 :: x[a][b] == y[a][b]
    ensures x == y
  {
    assert x[0] == y[0] && x[1] == y[1] && x[2] == y[2];
  }
}
