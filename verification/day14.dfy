/**
 * Day 14, "Restroom Redoubt": robots move at constant velocity on a
 * 101 by 103 floor whose edges wrap around. Part 1 places every robot
 * where it is after 100 seconds, counts the robots in each quadrant,
 * leaving out the middle column and the middle row, and multiplies the
 * four counts.
 */
module RestroomRedoubt {

  import opened Options
  import opened Counting
  import Decimal

  const Width: int := 101
  const Height: int := 103
  const Seconds: nat := 100

  datatype Robot = Robot(pos: (int, int), vel: (int, int))

  // ---------------------------------------------------------------- Motion

  /** Where a robot is after t seconds, as `rem_euclid` computes it: always on the floor. */
  function PositionAfter(r: Robot, t: nat): (p: (int, int))
    ensures 0 <= p.0 < Width && 0 <= p.1 < Height
  {
    ((r.pos.0 + t * r.vel.0) % Width, (r.pos.1 + t * r.vel.1) % Height)
  }

  /**
   * One second of motion: a step by the velocity, wrapping at the edges.
   * The robot stays on the floor, and it lands a whole number of floor
   * widths and heights away from p + v.
   */
  function Step(p: (int, int), v: (int, int)): (r: (int, int))
    ensures 0 <= r.0 < Width && 0 <= r.1 < Height
    ensures (p.0 + v.0 - r.0) % Width == 0 && (p.1 + v.1 - r.1) % Height == 0
  {
    var x, y := p.0 + v.0, p.1 + v.1;
    ModUnique(x - x % Width, Width, x / Width, 0);
    ModUnique(y - y % Height, Height, y / Height, 0);
    (x % Width, y % Height)
  }

  /** The robot moved second by second from its (wrapped) starting position. */
  function Walk(r: Robot, t: nat): (int, int)
    decreases t
  {
    if t == 0 then (r.pos.0 % Width, r.pos.1 % Height) else Step(Walk(r, t - 1), r.vel)
  }

  /** Euclidean remainders are unique: y == q * m + s with 0 <= s < m means y % m == s. */
  lemma {:induction false} ModUnique(y: int, m: int, q: int, s: int)
    requires m > 0 && y == q * m + s && 0 <= s < m
    ensures y % m == s
  {
    var q', s' := y / m, y % m;
    assert y == q' * m + s';
    assert (q - q') * m == s' - s;
    Decimal.NonzeroMultiple(q - q', m);
  }

  /** Wrapping before adding changes nothing modulo m. */
  lemma {:induction false} ModAdd(a: int, v: int, m: int)
    requires m > 0
    ensures (a % m + v) % m == (a + v) % m
  {
    var s := (a + v) % m;
    var q := (a + v) / m;
    assert a + v == q * m + s;
    assert a % m + v == (q - a / m) * m + s by {
      assert a == (a / m) * m + a % m;
      assert (q - a / m) * m == q * m - (a / m) * m;
    }
    ModUnique(a % m + v, m, q - a / m, s);
  }

  /** Jumping straight to second t lands where moving one second at a time does. */
  lemma {:induction false} WalkIsPositionAfter(r: Robot, t: nat)
    ensures Walk(r, t) == PositionAfter(r, t)
    decreases t
  {
    if t > 0 {
      WalkIsPositionAfter(r, t - 1);
      ModAdd(r.pos.0 + (t - 1) * r.vel.0, r.vel.0, Width);
      ModAdd(r.pos.1 + (t - 1) * r.vel.1, r.vel.1, Height);
      assert (t - 1) * r.vel.0 + r.vel.0 == t * r.vel.0;
      assert (t - 1) * r.vel.1 + r.vel.1 == t * r.vel.1;
    }
  }

  // ---------------------------------------------------------------- Quadrants

  /**
   * The quadrant of a floor position: 0 top left, 1 top right, 2 bottom
   * left, 3 bottom right; none on the middle column x = 50 or the middle
   * row y = 51.
   */
  function QuadrantOf(p: (int, int)): Option<nat> {
    if p.0 == Width / 2 || p.1 == Height / 2 then None
    else Some(2 * (if p.1 > Height / 2 then 1 else 0) + (if p.0 > Width / 2 then 1 else 0))
  }

  /**
   * The four independent tests of one robot: each pairs a side of the
   * middle row with a side of the middle column and bumps its counter. At
   * most one of them holds, and exactly one unless the robot is on a middle
   * line.
   */
  function Bump(quadrants: seq<nat>, p: (int, int)): (r: seq<nat>)
    requires |quadrants| == 4
    ensures |r| == 4
    ensures forall q | 0 <= q < 4 :: r[q] == quadrants[q] + (if QuadrantOf(p) == Some(q) then 1 else 0)
  {
    var isLeft, isRight := p.0 < Width / 2, p.0 > Width / 2;
    var isTop, isBottom := p.1 < Height / 2, p.1 > Height / 2;
    var q0 := if isTop && isLeft then quadrants[0 := quadrants[0] + 1] else quadrants;
    var q1 := if isTop && isRight then q0[1 := q0[1] + 1] else q0;
    var q2 := if isBottom && isLeft then q1[2 := q1[2] + 1] else q1;
    if isBottom && isRight then q2[3 := q2[3] + 1] else q2
  }

  /** Robot k is in quadrant q after 100 seconds. */
  function InQuadrant(robots: seq<Robot>, q: nat): nat -> bool {
    (k: nat) => k < |robots| && QuadrantOf(PositionAfter(robots[k], Seconds)) == Some(q)
  }

  /** Robot k is on a middle line after 100 seconds. */
  function OnMiddle(robots: seq<Robot>): nat -> bool {
    (k: nat) => k < |robots| && QuadrantOf(PositionAfter(robots[k], Seconds)) == None
  }

  /** The number of robots in quadrant q after 100 seconds. */
  function Population(robots: seq<Robot>, q: nat): nat {
    |set k: nat | k < |robots| && QuadrantOf(PositionAfter(robots[k], Seconds)) == Some(q)|
  }

  /**
   * `solve_part_1`: bump the counters robot by robot, then multiply them.
   * The safety factor is the product of the four quadrant populations.
   */
  method SolvePart1(robots: seq<Robot>) returns (safety: nat)
    ensures safety == Population(robots, 0) * Population(robots, 1) * Population(robots, 2) * Population(robots, 3)
  {
    var quadrants: seq<nat> := [0, 0, 0, 0];
    var k := 0;
    while k < |robots|
      invariant k <= |robots| && Counted(robots, quadrants, k)
    {
      var p := PositionAfter(robots[k], Seconds);
      CountedStep(robots, quadrants, k);
      quadrants := Bump(quadrants, p);
      k := k + 1;
    }
    PopulationIsCount(robots, 0);
    PopulationIsCount(robots, 1);
    PopulationIsCount(robots, 2);
    PopulationIsCount(robots, 3);
    var a, b, c, d := quadrants[0], quadrants[1], quadrants[2], quadrants[3];
    assert a == Population(robots, 0) && b == Population(robots, 1);
    assert c == Population(robots, 2) && d == Population(robots, 3);
    safety := Times(Times(Times(a, b), c), d);
  }

  /** `Iterator::product` step on counters. */
  function Times(x: nat, y: nat): nat {
    x * y
  }

  /** The counters hold the quadrant populations of the first k robots. */
  ghost predicate Counted(robots: seq<Robot>, quadrants: seq<nat>, k: nat) {
    |quadrants| == 4 && forall q | 0 <= q < 4 :: quadrants[q] == Count(k, InQuadrant(robots, q))
  }

  lemma {:induction false} CountedStep(robots: seq<Robot>, quadrants: seq<nat>, k: nat)
    requires k < |robots| && Counted(robots, quadrants, k)
    ensures Counted(robots, Bump(quadrants, PositionAfter(robots[k], Seconds)), k + 1)
  {
    var r := Bump(quadrants, PositionAfter(robots[k], Seconds));
    forall q | 0 <= q < 4 ensures r[q] == Count(k + 1, InQuadrant(robots, q)) {
      assert InQuadrant(robots, q)(k) <==> QuadrantOf(PositionAfter(robots[k], Seconds)) == Some(q);
    }
  }

  lemma {:induction false} PopulationIsCount(robots: seq<Robot>, q: nat)
    ensures Population(robots, q) == Count(|robots|, InQuadrant(robots, q))
  {
    CountIsCard(|robots|, InQuadrant(robots, q));
    assert (set k: nat | k < |robots| && InQuadrant(robots, q)(k))
        == (set k: nat | k < |robots| && QuadrantOf(PositionAfter(robots[k], Seconds)) == Some(q));
  }

  /** Every robot is in exactly one quadrant or on a middle line. */
  lemma {:induction false} QuadrantsPartition(robots: seq<Robot>, n: nat)
    requires n <= |robots|
    ensures Count(n, InQuadrant(robots, 0)) + Count(n, InQuadrant(robots, 1))
          + Count(n, InQuadrant(robots, 2)) + Count(n, InQuadrant(robots, 3))
          + Count(n, OnMiddle(robots)) == n
  {
    if n > 0 {
      QuadrantsPartition(robots, n - 1);
      var p := PositionAfter(robots[n - 1], Seconds);
      var k: nat := n - 1;
      match QuadrantOf(p)
      case None =>
        assert OnMiddle(robots)(k);
        assert !InQuadrant(robots, 0)(k) && !InQuadrant(robots, 1)(k) && !InQuadrant(robots, 2)(k) && !InQuadrant(robots, 3)(k);
      case Some(q) =>
        assert !OnMiddle(robots)(k) && InQuadrant(robots, q)(k);
        assert forall q' | q' != q :: !InQuadrant(robots, q')(k);
    }
  }

  /** The four quadrants hold every robot off the middle lines, so together no more than all robots. */
  lemma {:induction false} PopulationsAtMostRobots(robots: seq<Robot>)
    ensures Population(robots, 0) + Population(robots, 1) + Population(robots, 2) + Population(robots, 3)
            <= |robots|
  {
    QuadrantsPartition(robots, |robots|);
    PopulationIsCount(robots, 0);
    PopulationIsCount(robots, 1);
    PopulationIsCount(robots, 2);
    PopulationIsCount(robots, 3);
  }
}
