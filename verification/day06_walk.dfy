/**
 * Day 6, the guard's walk as an iterator over (row, column, heading)
 * states, with extra obstacles and a loop detector. Coordinates are
 * machine words: stepping up from row 0 or left from column 0 wraps to
 * `usize::MAX`, which is outside every grid.
 */
module GuardWalk {

  import opened Options

  const UsizeMax: nat := 0xFFFF_FFFF_FFFF_FFFF

  datatype Direction = Up | Right | Down | Left

  /** A quarter turn clockwise. */
  function Rotate(d: Direction): (r: Direction)
    ensures r != d
  {
    match d
    case Up => Right
    case Right => Down
    case Down => Left
    case Left => Up
  }

  /** Four quarter turns bring every heading back; fewer never do. */
  lemma {:induction false} RotateCycle(d: Direction)
    ensures Rotate(Rotate(Rotate(Rotate(d)))) == d
    ensures Rotate(Rotate(d)) != d && Rotate(Rotate(Rotate(d))) != d
  {
  }

  /** A machine word one below, wrapping at zero. */
  function WrappingDec(x: nat): (r: nat)
    requires x <= UsizeMax
    ensures r <= UsizeMax
  {
    if x == 0 then UsizeMax else x - 1
  }

  /** A machine word one above, wrapping at the top. */
  function WrappingInc(x: nat): (r: nat)
    requires x <= UsizeMax
    ensures r <= UsizeMax
  {
    if x == UsizeMax then 0 else x + 1
  }

  /** The coordinates one step ahead in direction d. */
  function Offset(d: Direction, i: nat, j: nat): (r: (nat, nat))
    requires i <= UsizeMax && j <= UsizeMax
    ensures r.0 <= UsizeMax && r.1 <= UsizeMax
  {
    var i2 := match d case Up => WrappingDec(i) case Down => WrappingInc(i) case _ => i;
    var j2 := match d case Left => WrappingDec(j) case Right => WrappingInc(j) case _ => j;
    (i2, j2)
  }

  predicate InGrid(grid: seq<seq<char>>, i: nat, j: nat) {
    i < |grid| && j < |grid[i]|
  }

  /** Grids are far smaller than the machine word, so a wrapped coordinate is outside. */
  predicate SmallGrid(grid: seq<seq<char>>) {
    |grid| < UsizeMax && forall r | 0 <= r < |grid| :: |grid[r]| < UsizeMax
  }

  /**
   * From an in-grid cell, a step moves exactly one row or column in the
   * heading's direction, or leaves the grid by wrapping at row or column 0.
   */
  lemma {:induction false} OffsetMovesOne(grid: seq<seq<char>>, d: Direction, i: nat, j: nat)
    requires SmallGrid(grid) && InGrid(grid, i, j)
    ensures var (i2, j2) := Offset(d, i, j);
            match d
            case Up => j2 == j && (if i == 0 then !InGrid(grid, i2, j2) else i2 == i - 1)
            case Down => j2 == j && i2 == i + 1
            case Left => i2 == i && (if j == 0 then !InGrid(grid, i2, j2) else j2 == j - 1)
            case Right => i2 == i && j2 == j + 1
  {
  }

  /** The iterator's state. The grid never changes and is passed separately. */
  datatype Walker = Walker(i: nat, j: nat, dir: Direction, obstacles: seq<(nat, nat)>)

  /** A state the iterator yields. */
  datatype Pose = Pose(i: nat, j: nat, dir: Direction)

  predicate Valid(w: Walker) {
    w.i <= UsizeMax && w.j <= UsizeMax
  }

  function PoseOf(w: Walker): Pose {
    Pose(w.i, w.j, w.dir)
  }

  /** `WalkIterator::new`: no extra obstacles. */
  function NewWalker(start: (nat, nat), dir: Direction): (w: Walker)
    ensures w.obstacles == []
  {
    Walker(start.0, start.1, dir, [])
  }

  /** `with_added_obstacle`: appends the coordinates and changes nothing else. */
  function WithAddedObstacle(w: Walker, coords: (nat, nat)): (w': Walker)
    ensures w'.obstacles == w.obstacles + [coords]
    ensures PoseOf(w') == PoseOf(w)
    ensures forall c | c in w.obstacles :: c in w'.obstacles
  {
    w.(obstacles := w.obstacles + [coords])
  }

  /** The cell ahead holds '#' or one of the extra obstacles. */
  predicate Blocked(grid: seq<seq<char>>, w: Walker, i2: nat, j2: nat) {
    (InGrid(grid, i2, j2) && grid[i2][j2] == '#') || (i2, j2) in w.obstacles
  }

  /**
   * The state after one call of `next` from an in-grid position. The loop
   * runs up to four times, but every blocked attempt sets the heading to
   * `dir.rotate()` of the heading saved at the start, so attempts two to
   * four all look the same way: either the walker moves straight, or it
   * moves after one right turn, or it stays put having turned once.
   */
  function Advance(grid: seq<seq<char>>, w: Walker): (w': Walker)
    requires Valid(w)
    ensures Valid(w') && w'.obstacles == w.obstacles
  {
    var (i2, j2) := Offset(w.dir, w.i, w.j);
    if !Blocked(grid, w, i2, j2) then w.(i := i2, j := j2)
    else
      var d := Rotate(w.dir);
      var (i3, j3) := Offset(d, w.i, w.j);
      if !Blocked(grid, w, i3, j3) then w.(i := i3, j := j3, dir := d)
      else w.(dir := d)
  }

  /** `next`: None outside the grid, otherwise the pose before the step, and the advanced walker. */
  function Next(grid: seq<seq<char>>, w: Walker): (r: Option<(Pose, Walker)>)
    requires Valid(w)
    ensures r.None? <==> !InGrid(grid, w.i, w.j)
    ensures r.Some? ==> r.value.0 == PoseOf(w) && Valid(r.value.1)
  {
    if !InGrid(grid, w.i, w.j) then None else Some((PoseOf(w), Advance(grid, w)))
  }

  /**
   * One call never turns twice: the heading stays or becomes `rotate` of the
   * yielded heading. A blocked cell is never entered; otherwise the walker
   * ends exactly one step away, in the direction of its new heading.
   */
  lemma {:induction false} NextTurnsAtMostOnce(grid: seq<seq<char>>, w: Walker)
    requires Valid(w) && InGrid(grid, w.i, w.j)
    ensures var w' := Advance(grid, w);
            && (w'.dir == w.dir || w'.dir == Rotate(w.dir))
            && ((w'.i, w'.j) == (w.i, w.j)
                || ((w'.i, w'.j) == Offset(w'.dir, w.i, w.j) && !Blocked(grid, w, w'.i, w'.j)))
            && ((w'.i, w'.j) == (w.i, w.j) ==> w'.dir == Rotate(w.dir)
                                               && Blocked(grid, w, Offset(w.dir, w.i, w.j).0, Offset(w.dir, w.i, w.j).1))
  {
  }

  /** The walker after n calls, as long as it stays in the grid. */
  function Iterate(grid: seq<seq<char>>, w: Walker, n: nat): (r: Walker)
    requires Valid(w)
    ensures Valid(r) && r.obstacles == w.obstacles
    decreases n
  {
    if n == 0 || !InGrid(grid, w.i, w.j) then w else Iterate(grid, Advance(grid, w), n - 1)
  }

  lemma {:induction false} IterateStep(grid: seq<seq<char>>, w: Walker, n: nat)
    requires Valid(w)
    requires InGrid(grid, Iterate(grid, w, n).i, Iterate(grid, w, n).j)
    ensures Iterate(grid, w, n + 1) == Advance(grid, Iterate(grid, w, n))
    decreases n
  {
    if n > 0 {
      IterateStep(grid, Advance(grid, w), n - 1);
    }
  }

  lemma {:induction false} IterateAdd(grid: seq<seq<char>>, w: Walker, a: nat, b: nat)
    requires Valid(w)
    ensures Iterate(grid, w, a + b) == Iterate(grid, Iterate(grid, w, a), b)
    decreases a
  {
    if a > 0 && InGrid(grid, w.i, w.j) {
      IterateAdd(grid, Advance(grid, w), a - 1, b);
    }
  }

  /** The walker has not left the grid in its first n calls. */
  ghost predicate StaysFor(grid: seq<seq<char>>, w: Walker, n: nat)
    requires Valid(w)
  {
    forall m: nat | m <= n :: InGrid(grid, Iterate(grid, w, m).i, Iterate(grid, w, m).j)
  }

  /** Once a state recurs, the walk repeats it forever and so never leaves the grid. */
  lemma {:induction false} RepeatNeverLeaves(grid: seq<seq<char>>, w: Walker, a: nat, b: nat, n: nat)
    requires Valid(w) && a < b && StaysFor(grid, w, b)
    requires Iterate(grid, w, a) == Iterate(grid, w, b)
    ensures InGrid(grid, Iterate(grid, w, n).i, Iterate(grid, w, n).j)
    decreases n
  {
    if n > b {
      var p := b - a;
      RepeatNeverLeaves(grid, w, a, b, n - p);
      IterateAdd(grid, w, b, n - b);
      IterateAdd(grid, w, a, n - b);
      assert n - p == a + (n - b);
    }
  }

  /** All poses in the grid: the loop detector's seen set never leaves it. */
  function GridPoses(grid: seq<seq<char>>): set<Pose> {
    PosesFacing(grid, Up) + PosesFacing(grid, Right) + PosesFacing(grid, Down) + PosesFacing(grid, Left)
  }

  function PosesFacing(grid: seq<seq<char>>, d: Direction): set<Pose> {
    set i: nat, j: nat | i < |grid| && j < |grid[i]| :: Pose(i, j, d)
  }

  lemma {:induction false} InGridPose(grid: seq<seq<char>>, p: Pose)
    requires InGrid(grid, p.i, p.j)
    ensures p in GridPoses(grid)
  {
    assert p in PosesFacing(grid, p.dir);
    match p.dir
    case Up =>
    case Right =>
    case Down =>
    case Left =>
  }

  /** A pose seen again at call k, first seen at call m, makes the walk endless. */
  lemma {:induction false} RepeatFound(grid: seq<seq<char>>, w0: Walker, trail: seq<Pose>, k: nat)
    requires Valid(w0) && |trail| == k
    requires forall m | 0 <= m < k :: trail[m] == PoseOf(Iterate(grid, w0, m))
    requires StaysFor(grid, w0, k) && PoseOf(Iterate(grid, w0, k)) in trail
    ensures forall n: nat :: InGrid(grid, Iterate(grid, w0, n).i, Iterate(grid, w0, n).j)
  {
    var m :| 0 <= m < k && trail[m] == PoseOf(Iterate(grid, w0, k));
    assert Iterate(grid, w0, m) == Iterate(grid, w0, k);
    forall n: nat ensures InGrid(grid, Iterate(grid, w0, n).i, Iterate(grid, w0, n).j) {
      RepeatNeverLeaves(grid, w0, m, k, n);
    }
  }

  /** A walk that is outside the grid after k calls does leave it. */
  lemma {:induction false} LeftAt(grid: seq<seq<char>>, w0: Walker, k: nat)
    requires Valid(w0) && !InGrid(grid, Iterate(grid, w0, k).i, Iterate(grid, w0, k).j)
    ensures !forall n: nat :: InGrid(grid, Iterate(grid, w0, n).i, Iterate(grid, w0, n).j)
  {
  }

  /** The loop detector's state: k calls made, their poses recorded and all in the grid. */
  ghost predicate DetectorInv(grid: seq<seq<char>>, w0: Walker, w: Walker, trail: seq<Pose>, seen: set<Pose>)
    requires Valid(w0)
  {
    && w == Iterate(grid, w0, |trail|)
    && (|trail| == 0 || StaysFor(grid, w0, |trail| - 1))
    && (forall m | 0 <= m < |trail| :: trail[m] == PoseOf(Iterate(grid, w0, m)))
    && seen == (set p | p in trail)
    && seen <= GridPoses(grid)
  }

  lemma {:induction false} StaysLonger(grid: seq<seq<char>>, w0: Walker, k: nat)
    requires Valid(w0) && (k == 0 || StaysFor(grid, w0, k - 1))
    requires InGrid(grid, Iterate(grid, w0, k).i, Iterate(grid, w0, k).j)
    ensures StaysFor(grid, w0, k)
  {
  }

  lemma {:induction false} TrailLonger(grid: seq<seq<char>>, w0: Walker, trail: seq<Pose>)
    requires Valid(w0)
    requires forall m | 0 <= m < |trail| :: trail[m] == PoseOf(Iterate(grid, w0, m))
    ensures var trail' := trail + [PoseOf(Iterate(grid, w0, |trail|))];
            forall m | 0 <= m < |trail'| :: trail'[m] == PoseOf(Iterate(grid, w0, m))
  {
  }

  lemma {:induction false} SeenShrinks(grid: seq<seq<char>>, seen: set<Pose>, p: Pose)
    requires InGrid(grid, p.i, p.j) && p !in seen
    ensures |GridPoses(grid) - (seen + {p})| < |GridPoses(grid) - seen|
  {
    InGridPose(grid, p);
    var rest := GridPoses(grid) - (seen + {p});
    assert GridPoses(grid) - seen == rest + {p};
    assert p !in rest;
  }

  lemma {:induction false} DetectorStep(grid: seq<seq<char>>, w0: Walker, w: Walker, trail: seq<Pose>, seen: set<Pose>)
    requires Valid(w0) && DetectorInv(grid, w0, w, trail, seen)
    requires InGrid(grid, w.i, w.j) && PoseOf(w) !in seen
    ensures DetectorInv(grid, w0, Advance(grid, w), trail + [PoseOf(w)], seen + {PoseOf(w)})
  {
    var k := |trail|;
    IterateStep(grid, w0, k);
    StaysLonger(grid, w0, k);
    TrailLonger(grid, w0, trail);
    InGridPose(grid, PoseOf(w));
    assert (set p | p in trail + [PoseOf(w)]) == seen + {PoseOf(w)};
  }

  /**
   * `is_inifinite_loop`: run the iterator, remembering yielded poses, until
   * a pose repeats (a loop) or the iterator ends (the walker left). It
   * answers true exactly when the walker never leaves the grid.
   */
  method IsInfiniteLoop(grid: seq<seq<char>>, w0: Walker) returns (looping: bool)
    requires Valid(w0)
    ensures looping <==> forall n: nat :: InGrid(grid, Iterate(grid, w0, n).i, Iterate(grid, w0, n).j)
  {
    var seen: set<Pose> := {};
    var w := w0;
    ghost var trail: seq<Pose> := [];
    while true
      invariant Valid(w) && DetectorInv(grid, w0, w, trail, seen)
      decreases |GridPoses(grid) - seen|
    {
      var r := Next(grid, w);
      if r.None? {
        LeftAt(grid, w0, |trail|);
        return false;
      }
      var (pose, w') := r.value;
      if pose in seen {
        StaysLonger(grid, w0, |trail|);
        RepeatFound(grid, w0, trail, |trail|);
        return true;
      }
      DetectorStep(grid, w0, w, trail, seen);
      SeenShrinks(grid, seen, pose);
      seen := seen + {pose};
      w := w';
      trail := trail + [pose];
    }
  }
}
