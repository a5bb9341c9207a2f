/**
 * Day 8, "Resonant Collinearity": antennas are the alphanumeric cells of
 * the map, grouped by character. Part 1 counts the in-bounds points that
 * lie on a line through two same-frequency antennas, twice as far from one
 * as from the other; part 2 counts every in-bounds point on such a line
 * stepping from either antenna by their difference.
 *
 * The source computes with wrapping machine words; a coordinate that would
 * wrap below zero is modelled by a negative integer. Both are outside the
 * map, and coordinates of map-sized values never wrap above.
 */
module ResonantCollinearity {

  import opened Counting

  type Pos = (int, int)

  /** `is_ascii_alphanumeric`. */
  predicate IsAlnum(c: char) {
    ('a' <= c <= 'z') || ('A' <= c <= 'Z') || ('0' <= c <= '9')
  }

  /** `is_in_bounds`: the row exists and the column is below that row's length. */
  predicate InBounds(p: Pos, grid: seq<seq<char>>) {
    0 <= p.0 < |grid| && 0 <= p.1 < |grid[p.0]|
  }

  function At(grid: seq<seq<char>>, p: Pos): char
    requires InBounds(p, grid)
  {
    grid[p.0][p.1]
  }

  /** p comes strictly before q in row-major order. */
  predicate Before(p: Pos, q: Pos) {
    p.0 < q.0 || (p.0 == q.0 && p.1 < q.1)
  }

  predicate StrictlyOrdered(ps: seq<Pos>) {
    forall a, b | 0 <= a < b < |ps| :: Before(ps[a], ps[b])
  }

  // ---------------------------------------------------------------- Grouping antennas

  function RowPositions(i: nat, n: nat): (ps: seq<Pos>)
    ensures |ps| == n && forall j | 0 <= j < n :: ps[j] == (i as int, j)
  {
    seq(n, j => (i as int, j))
  }

  /** The cells of rows i.. in row-major order: the order of the two `for` loops. */
  function RowMajorFrom(grid: seq<seq<char>>, i: nat): seq<Pos>
    requires i <= |grid|
    decreases |grid| - i
  {
    if i == |grid| then [] else RowPositions(i, |grid[i]|) + RowMajorFrom(grid, i + 1)
  }

  /** The row-major scan from row i visits exactly the in-bounds cells of those rows, in order. */
  lemma {:induction false} RowMajorFromSpec(grid: seq<seq<char>>, i: nat)
    requires i <= |grid|
    ensures forall p :: p in RowMajorFrom(grid, i) <==> InBounds(p, grid) && p.0 >= i
    ensures StrictlyOrdered(RowMajorFrom(grid, i))
    decreases |grid| - i
  {
    if i < |grid| {
      RowMajorFromSpec(grid, i + 1);
      var row, rest := RowPositions(i, |grid[i]|), RowMajorFrom(grid, i + 1);
      var all := row + rest;
      forall p ensures p in all <==> InBounds(p, grid) && p.0 >= i {
        if InBounds(p, grid) && p.0 == i {
          assert row[p.1] == p;
        }
      }
      forall a, b | 0 <= a < b < |all| ensures Before(all[a], all[b]) {
        if b < |row| {
        } else if a < |row| {
          assert all[b] in rest;
        } else {
          assert all[a] == rest[a - |row|] && all[b] == rest[b - |row|];
        }
      }
    }
  }

  function RowMajor(grid: seq<seq<char>>): seq<Pos> {
    RowMajorFrom(grid, 0)
  }

  /** The in-bounds positions of ps holding character f, in order. */
  function Filter(grid: seq<seq<char>>, ps: seq<Pos>, f: char): (r: seq<Pos>)
    requires forall k | 0 <= k < |ps| :: InBounds(ps[k], grid)
    ensures forall k | 0 <= k < |r| :: r[k] in ps && InBounds(r[k], grid) && At(grid, r[k]) == f
    ensures forall p | p in ps && At(grid, p) == f :: p in r
  {
    if |ps| == 0 then []
    else
      var init := Filter(grid, ps[..|ps| - 1], f);
      var p := ps[|ps| - 1];
      if At(grid, p) == f then init + [p] else init
  }

  /** Keeping some elements of a strictly ordered sequence keeps it strictly ordered. */
  lemma {:induction false} FilterOrdered(grid: seq<seq<char>>, ps: seq<Pos>, f: char)
    requires forall k | 0 <= k < |ps| :: InBounds(ps[k], grid)
    requires StrictlyOrdered(ps)
    ensures StrictlyOrdered(Filter(grid, ps, f))
  {
    if |ps| > 0 {
      var init := ps[..|ps| - 1];
      FilterOrdered(grid, init, f);
      var r := Filter(grid, init, f);
      forall k | 0 <= k < |r| ensures Before(r[k], ps[|ps| - 1]) {
        var a :| 0 <= a < |init| && init[a] == r[k];
      }
    }
  }

  /**
   * `find_all_antennas` over a list of positions: every alphanumeric cell is
   * appended to its character's list, everything else is skipped: only
   * alphanumeric characters get an entry, and never an empty one.
   */
  function Group(grid: seq<seq<char>>, ps: seq<Pos>): (r: map<char, seq<Pos>>)
    requires forall k | 0 <= k < |ps| :: InBounds(ps[k], grid)
    ensures forall f | f in r :: IsAlnum(f) && |r[f]| > 0
  {
    if |ps| == 0 then map[]
    else
      var m := Group(grid, ps[..|ps| - 1]);
      var p := ps[|ps| - 1];
      var c := At(grid, p);
      if IsAlnum(c) then m[c := (if c in m then m[c] else []) + [p]] else m
  }

  /** The group of f lists the positions of f in scan order; only alphanumeric characters that occur get one. */
  lemma {:induction false} GroupIsFilter(grid: seq<seq<char>>, ps: seq<Pos>, f: char)
    requires forall k | 0 <= k < |ps| :: InBounds(ps[k], grid)
    ensures f in Group(grid, ps) <==> IsAlnum(f) && Filter(grid, ps, f) != []
    ensures f in Group(grid, ps) ==> Group(grid, ps)[f] == Filter(grid, ps, f)
  {
    if |ps| > 0 {
      GroupIsFilter(grid, ps[..|ps| - 1], f);
    }
  }

  /** The grouping of the whole row-major scan: each entry is an alphanumeric byte's positions, in order. */
  lemma {:induction false} GroupAll(grid: seq<seq<char>>)
    ensures forall k | 0 <= k < |RowMajor(grid)| :: InBounds(RowMajor(grid)[k], grid)
    ensures forall f | f in Group(grid, RowMajor(grid)) ::
              var ants := Group(grid, RowMajor(grid))[f];
              && IsAlnum(f) && StrictlyOrdered(ants)
              && forall p :: p in ants <==> InBounds(p, grid) && At(grid, p) == f
    ensures forall p | InBounds(p, grid) && IsAlnum(At(grid, p)) :: At(grid, p) in Group(grid, RowMajor(grid))
  {
    RowMajorFromSpec(grid, 0);
    var ps := RowMajor(grid);
    forall f | f in Group(grid, ps)
      ensures var ants := Group(grid, ps)[f];
              && IsAlnum(f) && StrictlyOrdered(ants)
              && forall p :: p in ants <==> InBounds(p, grid) && At(grid, p) == f
    {
      GroupIsFilter(grid, ps, f);
      FilterOrdered(grid, ps, f);
    }
    forall p | InBounds(p, grid) && IsAlnum(At(grid, p)) ensures At(grid, p) in Group(grid, ps) {
      GroupIsFilter(grid, ps, At(grid, p));
      assert p in Filter(grid, ps, At(grid, p));
    }
  }

  /**
   * `find_all_antennas`: every alphanumeric byte on the map has an entry,
   * and an entry lists all and only that byte's positions, in row-major order.
   */
  function FindAllAntennas(grid: seq<seq<char>>): (r: map<char, seq<Pos>>)
    ensures forall f | f in r :: IsAlnum(f) && StrictlyOrdered(r[f])
    ensures forall f, p | f in r :: p in r[f] <==> InBounds(p, grid) && At(grid, p) == f
    ensures forall p | InBounds(p, grid) && IsAlnum(At(grid, p)) :: At(grid, p) in r
  {
    GroupAll(grid);
    Group(grid, RowMajor(grid))
  }

  /**
   * The antennas of frequency f are exactly the cells holding f, listed in
   * row-major order; a character has a group iff it is alphanumeric and
   * occurs on the map.
   */
  lemma {:induction false} AntennasSpec(grid: seq<seq<char>>, f: char)
    ensures f in FindAllAntennas(grid) <==> IsAlnum(f) && exists p :: InBounds(p, grid) && At(grid, p) == f
    ensures f in FindAllAntennas(grid) ==>
              var ants := FindAllAntennas(grid)[f];
              && StrictlyOrdered(ants)
              && forall p :: p in ants <==> InBounds(p, grid) && At(grid, p) == f
  {
    RowMajorFromSpec(grid, 0);
    var ps := RowMajor(grid);
    GroupIsFilter(grid, ps, f);
    FilterOrdered(grid, ps, f);
    var r := Filter(grid, ps, f);
    if p :| InBounds(p, grid) && At(grid, p) == f {
      assert p in r;
    }
    if r != [] {
      assert InBounds(r[0], grid) && At(grid, r[0]) == f;
    }
  }

  // ---------------------------------------------------------------- Part 1

  /** The reflection of q through p: `p + (p - q)`. */
  function Reflect(p: Pos, q: Pos): Pos {
    (2 * p.0 - q.0, 2 * p.1 - q.1)
  }

  /** The two loops over unordered pairs i < j: both reflections of each pair. */
  function PairAntinodes(ants: seq<Pos>): set<Pos> {
    (set a, b | 0 <= a < b < |ants| :: Reflect(ants[b], ants[a]))
    + (set a, b | 0 <= a < b < |ants| :: Reflect(ants[a], ants[b]))
  }

  /** Visiting unordered pairs and adding both reflections covers every ordered pair of distinct antennas. */
  lemma {:induction false} PairAntinodesSymmetric(ants: seq<Pos>, q: Pos)
    ensures q in PairAntinodes(ants)
            <==> exists x, y | 0 <= x < |ants| && 0 <= y < |ants| && x != y :: q == Reflect(ants[y], ants[x])
  {
    if x, y :| 0 <= x < |ants| && 0 <= y < |ants| && x != y && q == Reflect(ants[y], ants[x]) {
      if x < y {
        assert q in (set a, b | 0 <= a < b < |ants| :: Reflect(ants[b], ants[a]));
      } else {
        assert q in (set a, b | 0 <= a < b < |ants| :: Reflect(ants[a], ants[b]));
      }
    }
  }

  /** Every antinode that part 1 inserts, across all frequencies. */
  function AllAntinodes1(grid: seq<seq<char>>): set<Pos> {
    var antennas := FindAllAntennas(grid);
    set f, q | f in antennas && q in PairAntinodes(antennas[f]) :: q
  }

  /** The inserted antinodes that `solve_part_1` keeps. */
  function InBoundsAntinodes1(grid: seq<seq<char>>): set<Pos> {
    set q | q in AllAntinodes1(grid) && InBounds(q, grid)
  }

  /** `solve_part_1`: the number of map positions that are antinodes in the puzzle's sense. */
  function SolvePart1(grid: seq<seq<char>>): (r: nat)
    ensures r == |Antinodes1(grid)|
  {
    Part1Count(grid);
    |InBoundsAntinodes1(grid)|
  }

  /**
   * The puzzle's definition: q is in line with two distinct antennas of the
   * same frequency and twice as far from a as from b.
   */
  ghost predicate IsAntinode(grid: seq<seq<char>>, q: Pos) {
    exists a, b :: AntinodeOf(grid, q, a, b)
  }

  /** a and b are two distinct antennas of the same frequency. */
  predicate AntennaPair(grid: seq<seq<char>>, a: Pos, b: Pos) {
    && InBounds(a, grid) && InBounds(b, grid) && a != b
    && IsAlnum(At(grid, a)) && At(grid, a) == At(grid, b)
  }

  /** q is an antinode of the antennas at a and b. */
  predicate AntinodeOf(grid: seq<seq<char>>, q: Pos, a: Pos, b: Pos) {
    && AntennaPair(grid, a, b)
    && q.0 - a.0 == 2 * (q.0 - b.0) && q.1 - a.1 == 2 * (q.1 - b.1)
  }

  /** The map positions that are antinodes in the puzzle's sense. */
  ghost function Antinodes1(grid: seq<seq<char>>): set<Pos> {
    set i, j | 0 <= i < |grid| && 0 <= j < |grid[i]| && IsAntinode(grid, (i, j)) :: (i, j)
  }

  /** Every inserted point is an antinode in the puzzle's sense. */
  lemma {:induction false} Part1Sound(grid: seq<seq<char>>, q: Pos)
    requires q in AllAntinodes1(grid)
    ensures IsAntinode(grid, q)
  {
    var antennas := FindAllAntennas(grid);
    var f :| f in antennas && q in PairAntinodes(antennas[f]);
    var ants := antennas[f];
    AntennasSpec(grid, f);
    PairAntinodesSymmetric(ants, q);
    var x, y :| 0 <= x < |ants| && 0 <= y < |ants| && x != y && q == Reflect(ants[y], ants[x]);
    var a, b := ants[x], ants[y];
    assert a != b by {
      if x < y { assert Before(ants[x], ants[y]); } else { assert Before(ants[y], ants[x]); }
    }
    assert a in ants && b in ants;
    assert InBounds(a, grid) && InBounds(b, grid) && At(grid, a) == f && At(grid, b) == f;
    assert AntinodeOf(grid, q, a, b);
  }

  /** Every antinode in the puzzle's sense is inserted. */
  lemma {:induction false} Part1Complete(grid: seq<seq<char>>, q: Pos, a: Pos, b: Pos)
    requires AntinodeOf(grid, q, a, b)
    ensures q in AllAntinodes1(grid)
  {
    var antennas := FindAllAntennas(grid);
    var f := At(grid, a);
    AntennasSpec(grid, f);
    var ants := antennas[f];
    assert a in ants && b in ants;
    var x :| 0 <= x < |ants| && ants[x] == a;
    var y :| 0 <= y < |ants| && ants[y] == b;
    assert q == Reflect(ants[y], ants[x]);
    PairAntinodesSymmetric(ants, q);
  }

  /** Part 1 inserts exactly the points the puzzle calls antinodes. */
  lemma {:induction false} Part1Characterization(grid: seq<seq<char>>, q: Pos)
    ensures q in AllAntinodes1(grid) <==> IsAntinode(grid, q)
  {
    if q in AllAntinodes1(grid) {
      Part1Sound(grid, q);
    }
    if IsAntinode(grid, q) {
      var a, b :| AntinodeOf(grid, q, a, b);
      Part1Complete(grid, q, a, b);
    }
  }

  /** Part 1 keeps exactly the map positions that are antinodes. */
  lemma {:induction false} Part1Count(grid: seq<seq<char>>)
    ensures InBoundsAntinodes1(grid) == Antinodes1(grid)
  {
    forall q ensures q in InBoundsAntinodes1(grid) <==> q in Antinodes1(grid) {
      Part1Characterization(grid, q);
    }
  }

  // ---------------------------------------------------------------- Part 2

  function Add(p: Pos, d: Pos): Pos {
    (p.0 + d.0, p.1 + d.1)
  }

  /** p moved k times by d. */
  function Step(p: Pos, d: Pos, k: nat): Pos
    decreases k
  {
    if k == 0 then p else Add(Step(p, d, k - 1), d)
  }

  lemma {:induction false} StepShift(p: Pos, d: Pos, k: nat)
    ensures Step(Add(p, d), d, k) == Step(p, d, k + 1)
    decreases k
  {
    if k > 0 {
      StepShift(p, d, k - 1);
    }
  }

  /** p, p + d, ..., p + k*d are all on the map. */
  ghost predicate StaysIn(grid: seq<seq<char>>, p: Pos, d: Pos, k: nat) {
    forall m: nat | m <= k :: InBounds(Step(p, d, m), grid)
  }

  /** q is reached from p by steps of d without leaving the map. */
  ghost predicate OnRay(grid: seq<seq<char>>, p: Pos, d: Pos, q: Pos) {
    exists k: nat :: q == Step(p, d, k) && StaysIn(grid, p, d, k)
  }

  /** How long a ray can still run inside the map; it shrinks with every step. */
  function RayRoom(grid: seq<seq<char>>, p: Pos, d: Pos): nat
    requires InBounds(p, grid)
  {
    if d.0 > 0 then |grid| - p.0
    else if d.0 < 0 then p.0 + 1
    else if d.1 > 0 then |grid[p.0]| - p.1
    else p.1 + 1
  }

  /**
   * One `while is_in_bounds` loop of part 2: p, p + d, p + 2d, ... up to
   * the first point outside the map. A zero step would never leave, and
   * distinct antennas never give one.
   */
  function Ray(grid: seq<seq<char>>, p: Pos, d: Pos): (r: set<Pos>)
    requires d != (0, 0)
    ensures p in r <==> InBounds(p, grid)
    decreases if InBounds(p, grid) then RayRoom(grid, p, d) else 0
  {
    if !InBounds(p, grid) then {}
    else
      var next := Add(p, d);
      assert InBounds(next, grid) ==> RayRoom(grid, next, d) < RayRoom(grid, p, d);
      {p} + Ray(grid, next, d)
  }

  lemma {:induction false} RaySound(grid: seq<seq<char>>, p: Pos, d: Pos, q: Pos)
    requires d != (0, 0) && q in Ray(grid, p, d)
    ensures OnRay(grid, p, d, q)
    decreases if InBounds(p, grid) then RayRoom(grid, p, d) else 0
  {
    var next := Add(p, d);
    if q == p {
      assert q == Step(p, d, 0) && StaysIn(grid, p, d, 0);
    } else {
      assert InBounds(next, grid) ==> RayRoom(grid, next, d) < RayRoom(grid, p, d);
      RaySound(grid, next, d, q);
      var k: nat :| q == Step(next, d, k) && StaysIn(grid, next, d, k);
      StepShift(p, d, k);
      forall m: nat | m <= k + 1 ensures InBounds(Step(p, d, m), grid) {
        if m > 0 {
          StepShift(p, d, m - 1);
        }
      }
      assert q == Step(p, d, k + 1) && StaysIn(grid, p, d, k + 1);
    }
  }

  lemma {:induction false} RayComplete(grid: seq<seq<char>>, p: Pos, d: Pos, k: nat)
    requires d != (0, 0) && StaysIn(grid, p, d, k)
    ensures Step(p, d, k) in Ray(grid, p, d)
    decreases k
  {
    assert InBounds(Step(p, d, 0), grid);
    if k > 0 {
      var next := Add(p, d);
      forall m: nat | m <= k - 1 ensures InBounds(Step(next, d, m), grid) {
        StepShift(p, d, m);
      }
      RayComplete(grid, next, d, k - 1);
      StepShift(p, d, k - 1);
    }
  }

  /** The ray holds exactly the points p + k*d reached without leaving the map. */
  lemma {:induction false} RayCharacterization(grid: seq<seq<char>>, p: Pos, d: Pos, q: Pos)
    requires d != (0, 0)
    ensures q in Ray(grid, p, d) <==> OnRay(grid, p, d, q)
  {
    if q in Ray(grid, p, d) {
      RaySound(grid, p, d, q);
    }
    if OnRay(grid, p, d, q) {
      var k: nat :| q == Step(p, d, k) && StaysIn(grid, p, d, k);
      RayComplete(grid, p, d, k);
    }
  }

  /** Positions listed in strictly increasing order are pairwise distinct. */
  predicate Distinct(ants: seq<Pos>) {
    forall a, b | 0 <= a < b < |ants| :: ants[a] != ants[b]
  }

  function Delta(p: Pos, q: Pos): Pos {
    (q.0 - p.0, q.1 - p.1)
  }

  /** Part 2's two loops for every unordered pair: forward from the second antenna, backward from the first. */
  function PairRays(grid: seq<seq<char>>, ants: seq<Pos>): set<Pos>
    requires Distinct(ants)
  {
    (set a, b, q | 0 <= a < b < |ants| && q in Ray(grid, ants[b], Delta(ants[a], ants[b])) :: q)
    + (set a, b, q | 0 <= a < b < |ants| && q in Ray(grid, ants[a], Delta(ants[b], ants[a])) :: q)
  }

  function AllAntinodes2(grid: seq<seq<char>>): set<Pos> {
    var antennas := FindAllAntennas(grid);
    set f, q | f in antennas && Distinct(antennas[f]) && q in PairRays(grid, antennas[f]) :: q
  }

  /** Every frequency's antenna list is free of repeats, so every pair has a non-zero step. */
  lemma {:induction false} AntennasDistinct(grid: seq<seq<char>>, f: char)
    requires f in FindAllAntennas(grid)
    ensures Distinct(FindAllAntennas(grid)[f])
  {
    AntennasSpec(grid, f);
    var ants := FindAllAntennas(grid)[f];
    forall a, b | 0 <= a < b < |ants| ensures ants[a] != ants[b] {
      assert Before(ants[a], ants[b]);
    }
  }

  /** `solve_part_2`: the number of map positions some same-frequency pair's ray reaches. */
  function SolvePart2(grid: seq<seq<char>>): (r: nat)
    ensures r == |Antinodes2(grid)|
  {
    Part2Count(grid);
    |AllAntinodes2(grid)|
  }

  /**
   * Part 2's antinodes by definition: q is reached from antenna b by whole
   * steps of b - a, for some antenna a of the same frequency, without
   * leaving the map on the way.
   */
  ghost predicate IsAntinode2(grid: seq<seq<char>>, q: Pos) {
    exists a, b :: AntennaPair(grid, a, b) && OnRay(grid, b, Delta(a, b), q)
  }

  ghost function Antinodes2(grid: seq<seq<char>>): set<Pos> {
    set i, j | 0 <= i < |grid| && 0 <= j < |grid[i]| && IsAntinode2(grid, (i, j)) :: (i, j)
  }

  /** Every point part 2 inserts is an antinode by definition. */
  lemma {:induction false} Part2Sound(grid: seq<seq<char>>, q: Pos)
    requires q in AllAntinodes2(grid)
    ensures IsAntinode2(grid, q)
  {
    var antennas := FindAllAntennas(grid);
    var f :| f in antennas && Distinct(antennas[f]) && q in PairRays(grid, antennas[f]);
    var ants := antennas[f];
    if x, y :| 0 <= x < y < |ants| && q in Ray(grid, ants[y], Delta(ants[x], ants[y])) {
      RayOfPair(grid, f, x, y, q);
    } else {
      var x, y :| 0 <= x < y < |ants| && q in Ray(grid, ants[x], Delta(ants[y], ants[x]));
      RayOfPair(grid, f, y, x, q);
    }
  }

  /** A point on the ray from antenna y away from antenna x of the same frequency is an antinode by definition. */
  lemma {:induction false} RayOfPair(grid: seq<seq<char>>, f: char, x: nat, y: nat, q: Pos)
    requires f in FindAllAntennas(grid)
    requires var ants := FindAllAntennas(grid)[f];
             && x < |ants| && y < |ants| && ants[x] != ants[y]
             && q in Ray(grid, ants[y], Delta(ants[x], ants[y]))
    ensures IsAntinode2(grid, q)
  {
    var ants := FindAllAntennas(grid)[f];
    var a, b := ants[x], ants[y];
    assert a in ants && b in ants;
    assert AntennaPair(grid, a, b);
    RayCharacterization(grid, b, Delta(a, b), q);
  }

  /** Every antinode by definition is inserted by part 2. */
  lemma {:induction false} Part2Complete(grid: seq<seq<char>>, q: Pos, a: Pos, b: Pos)
    requires AntennaPair(grid, a, b) && OnRay(grid, b, Delta(a, b), q)
    ensures q in AllAntinodes2(grid)
  {
    var antennas := FindAllAntennas(grid);
    var f := At(grid, a);
    AntennasDistinct(grid, f);
    var ants := antennas[f];
    assert a in ants && b in ants;
    var x :| 0 <= x < |ants| && ants[x] == a;
    var y :| 0 <= y < |ants| && ants[y] == b;
    RayCharacterization(grid, b, Delta(a, b), q);
    InPairRays(grid, ants, x, y, q);
    InAllAntinodes2(grid, f, q);
  }

  /** Part 2 inserts exactly the antinodes by definition, all of them on the map. */
  lemma {:induction false} Part2Count(grid: seq<seq<char>>)
    ensures AllAntinodes2(grid) == Antinodes2(grid)
  {
    forall q ensures q in AllAntinodes2(grid) <==> q in Antinodes2(grid) {
      if q in AllAntinodes2(grid) {
        Part2Sound(grid, q);
        Part2InBounds(grid, q);
      }
      if IsAntinode2(grid, q) {
        var a, b :| AntennaPair(grid, a, b) && OnRay(grid, b, Delta(a, b), q);
        Part2Complete(grid, q, a, b);
      }
    }
  }

  lemma {:induction false} RayInBounds(grid: seq<seq<char>>, p: Pos, d: Pos, q: Pos)
    requires d != (0, 0) && q in Ray(grid, p, d)
    ensures InBounds(q, grid)
    decreases if InBounds(p, grid) then RayRoom(grid, p, d) else 0
  {
    var next := Add(p, d);
    if q != p {
      assert InBounds(next, grid) ==> RayRoom(grid, next, d) < RayRoom(grid, p, d);
      RayInBounds(grid, next, d, q);
    }
  }

  /** The ray from antenna y away from antenna x is one of the rays part 2 walks, whichever comes first. */
  lemma {:induction false} InPairRays(grid: seq<seq<char>>, ants: seq<Pos>, x: nat, y: nat, q: Pos)
    requires Distinct(ants) && x < |ants| && y < |ants| && x != y
    requires q in Ray(grid, ants[y], Delta(ants[x], ants[y]))
    ensures q in PairRays(grid, ants)
  {
    if x < y {
      assert q in (set a, b, q | 0 <= a < b < |ants| && q in Ray(grid, ants[b], Delta(ants[a], ants[b])) :: q);
    } else {
      assert q in (set a, b, q | 0 <= a < b < |ants| && q in Ray(grid, ants[a], Delta(ants[b], ants[a])) :: q);
    }
  }

  lemma {:induction false} InAllAntinodes2(grid: seq<seq<char>>, f: char, q: Pos)
    requires f in FindAllAntennas(grid)
    requires Distinct(FindAllAntennas(grid)[f]) && q in PairRays(grid, FindAllAntennas(grid)[f])
    ensures q in AllAntinodes2(grid)
  {
  }

  /** Every point on the rays of one frequency's pairs lies on the map. */
  lemma {:induction false} PairRaysInBounds(grid: seq<seq<char>>, ants: seq<Pos>, q: Pos)
    requires Distinct(ants) && q in PairRays(grid, ants)
    ensures InBounds(q, grid)
  {
    var forward := set a, b, q | 0 <= a < b < |ants| && q in Ray(grid, ants[b], Delta(ants[a], ants[b])) :: q;
    if q in forward {
      var a, b :| 0 <= a < b < |ants| && q in Ray(grid, ants[b], Delta(ants[a], ants[b]));
      RayInBounds(grid, ants[b], Delta(ants[a], ants[b]), q);
    } else {
      var a, b :| 0 <= a < b < |ants| && q in Ray(grid, ants[a], Delta(ants[b], ants[a]));
      RayInBounds(grid, ants[a], Delta(ants[b], ants[a]), q);
    }
  }

  /** Part 2 counts only in-bounds points. */
  lemma {:induction false} Part2InBounds(grid: seq<seq<char>>, q: Pos)
    requires q in AllAntinodes2(grid)
    ensures InBounds(q, grid)
  {
    var antennas := FindAllAntennas(grid);
    var f :| f in antennas && Distinct(antennas[f]) && q in PairRays(grid, antennas[f]);
    PairRaysInBounds(grid, antennas[f], q);
  }

  /** Every antenna that shares its frequency with another antenna is itself a part-2 antinode. */
  lemma {:induction false} PairedAntennaCounted(grid: seq<seq<char>>, p: Pos, q: Pos)
    requires InBounds(p, grid) && InBounds(q, grid) && p != q
    requires IsAlnum(At(grid, q)) && At(grid, p) == At(grid, q)
    ensures q in AllAntinodes2(grid)
  {
    var antennas := FindAllAntennas(grid);
    var f := At(grid, q);
    AntennasSpec(grid, f);
    AntennasDistinct(grid, f);
    var ants := antennas[f];
    assert p in ants && q in ants;
    var x :| 0 <= x < |ants| && ants[x] == p;
    var y :| 0 <= y < |ants| && ants[y] == q;
    assert q in Ray(grid, ants[y], Delta(ants[x], ants[y]));
    InPairRays(grid, ants, x, y, q);
    InAllAntinodes2(grid, f, q);
  }

  /** An in-bounds part-1 antinode is one step along a part-2 ray. */
  lemma {:induction false} Part1PointOnRay(grid: seq<seq<char>>, q: Pos)
    requires q in InBoundsAntinodes1(grid)
    ensures q in AllAntinodes2(grid)
  {
    var antennas := FindAllAntennas(grid);
    var f :| f in antennas && q in PairAntinodes(antennas[f]);
    var ants := antennas[f];
    AntennasDistinct(grid, f);
    AntennasSpec(grid, f);
    PairAntinodesSymmetric(ants, q);
    var x, y :| 0 <= x < |ants| && 0 <= y < |ants| && x != y && q == Reflect(ants[y], ants[x]);
    assert ants[y] in ants;
    ReflectOnRay(grid, ants, x, y, q);
    InAllAntinodes2(grid, f, q);
  }

  /** An in-bounds reflection of antenna x through antenna y lies on the ray from y away from x. */
  lemma {:induction false} ReflectOnRay(grid: seq<seq<char>>, ants: seq<Pos>, x: nat, y: nat, q: Pos)
    requires Distinct(ants) && x < |ants| && y < |ants| && x != y
    requires InBounds(ants[y], grid) && q == Reflect(ants[y], ants[x]) && InBounds(q, grid)
    ensures q in PairRays(grid, ants)
  {
    var d := Delta(ants[x], ants[y]);
    ReflectIsStep(ants[x], ants[y]);
    assert q in Ray(grid, q, d);
    assert q in Ray(grid, ants[y], d);
    InPairRays(grid, ants, x, y, q);
  }

  /** The part-1 reflection of a through b is the first step past b on the ray away from a. */
  lemma {:induction false} ReflectIsStep(a: Pos, b: Pos)
    ensures Add(b, Delta(a, b)) == Reflect(b, a)
  {
  }

  /** Part 2 never counts fewer points than part 1. */
  lemma {:induction false} Part1WithinPart2(grid: seq<seq<char>>)
    ensures InBoundsAntinodes1(grid) <= AllAntinodes2(grid)
    ensures SolvePart1(grid) <= SolvePart2(grid)
  {
    forall q | q in InBoundsAntinodes1(grid) ensures q in AllAntinodes2(grid) {
      Part1PointOnRay(grid, q);
    }
    SubsetCard(InBoundsAntinodes1(grid), AllAntinodes2(grid));
  }
}
