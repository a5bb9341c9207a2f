/**
 * Day 10, "Hoof It": a topographic map of digit heights. A hiking trail
 * starts at height 0 and climbs by exactly one per orthogonal step up to
 * height 9. The score of a trailhead is the number of distinct 9-cells it
 * reaches; its rating is the number of distinct trails from it. Each answer
 * sums one of them over every cell of the map.
 *
 * Positions are signed: the source's `overflowing_sub(1)` on row or column
 * 0 gives `usize::MAX`, which no row or column reaches, and -1 is outside
 * the map in the same way.
 */
module HoofIt {

  import opened Options
  import opened Counting

  type Pos = (int, int)

  /** `heights.get(i).and_then(|row| row.get(j))`: the height at p, or None off the map. */
  function At(heights: seq<seq<nat>>, p: Pos): Option<nat> {
    if 0 <= p.0 < |heights| && 0 <= p.1 < |heights[p.0]| then Some(heights[p.0][p.1]) else None
  }

  /** The four orthogonal neighbours, in the order the source visits them: above, below, left, right. */
  function Neighbours(p: Pos): seq<Pos> {
    [(p.0 - 1, p.1), (p.0 + 1, p.1), (p.0, p.1 - 1), (p.0, p.1 + 1)]
  }

  predicate Adjacent(p: Pos, q: Pos) {
    q in Neighbours(p)
  }

  /** The recursion measure: `expected_num` climbs towards 9 and the search stops there. */
  function Budget(e: nat): nat {
    if e < 10 then 10 - e else 0
  }

  // ---------------------------------------------------------------- Trails

  /**
   * A trail from height e: the k-th cell has height e + k and consecutive
   * cells are adjacent. The climb stops at the first cell of height 9 or
   * more, so every cell but the last is below 9 and the last is at least 9:
   * a single cell of height at least 9, or a climb that ends exactly at 9.
   */
  ghost predicate IsTrail(heights: seq<seq<nat>>, t: seq<Pos>, e: nat) {
    && |t| >= 1
    && (forall k | 0 <= k < |t| :: At(heights, t[k]) == Some(e + k))
    && (forall k | 0 <= k < |t| - 1 :: Adjacent(t[k], t[k + 1]))
    && (if |t| == 1 then e >= 9 else e + |t| == 10)
  }

  /** A trail from height e <= 9 has exactly 10 - e cells and ends at height 9, so a trail from a 0 has ten. */
  lemma {:induction false} TrailLength(heights: seq<seq<nat>>, t: seq<Pos>, e: nat)
    requires IsTrail(heights, t, e) && e <= 9
    ensures |t| == 10 - e
    ensures At(heights, t[|t| - 1]) == Some(9)
  {
    assert At(heights, t[|t| - 1]) == Some(e + (|t| - 1));
  }

  /** A cell of height e < 9 adjacent to the start of a trail from e + 1 extends it. */
  lemma {:induction false} ConsTrail(heights: seq<seq<nat>>, p: Pos, e: nat, t: seq<Pos>)
    requires IsTrail(heights, t, e + 1) && At(heights, p) == Some(e) && e < 9 && Adjacent(p, t[0])
    ensures IsTrail(heights, [p] + t, e)
  {
    var u := [p] + t;
    forall k | 0 <= k < |u| ensures At(heights, u[k]) == Some(e + k) {
      if k > 0 {
        assert u[k] == t[k - 1];
      }
    }
    forall k | 0 <= k < |u| - 1 ensures Adjacent(u[k], u[k + 1]) {
      if k > 0 {
        assert u[k] == t[k - 1] && u[k + 1] == t[k];
      }
    }
  }

  /** A trail of two or more cells starts below 9, and its tail is a trail from the next height. */
  lemma {:induction false} TailTrail(heights: seq<seq<nat>>, t: seq<Pos>, e: nat)
    requires IsTrail(heights, t, e) && |t| >= 2
    ensures IsTrail(heights, t[1..], e + 1) && e < 9 && Adjacent(t[0], t[1])
  {
    var u := t[1..];
    forall k | 0 <= k < |u| ensures At(heights, u[k]) == Some(e + 1 + k) {
      assert u[k] == t[k + 1];
    }
    forall k | 0 <= k < |u| - 1 ensures Adjacent(u[k], u[k + 1]) {
      assert u[k] == t[k + 1] && u[k + 1] == t[k + 2];
    }
  }

  function Prepend(p: Pos, s: set<seq<Pos>>): set<seq<Pos>> {
    set t | t in s :: [p] + t
  }

  /** Every trail from p, starting at height e, as the recursion of the source's `dfs` enumerates them. */
  function Trails(heights: seq<seq<nat>>, p: Pos, e: nat): set<seq<Pos>>
    decreases Budget(e)
  {
    match At(heights, p)
    case None => {}
    case Some(h) =>
      if h != e then {}
      else if h >= 9 then {[p]}
      else
        var n := Neighbours(p);
        Prepend(p, Trails(heights, n[0], e + 1) + Trails(heights, n[1], e + 1)
                   + Trails(heights, n[2], e + 1) + Trails(heights, n[3], e + 1))
  }

  /** `Trails` holds exactly the trails that start at p. */
  lemma {:induction false} TrailsExact(heights: seq<seq<nat>>, p: Pos, e: nat, t: seq<Pos>)
    ensures t in Trails(heights, p, e) <==> IsTrail(heights, t, e) && t[0] == p
    decreases Budget(e)
  {
    if t in Trails(heights, p, e) {
      TrailsSound(heights, p, e, t);
    }
    if IsTrail(heights, t, e) && t[0] == p {
      TrailsComplete(heights, p, e, t);
    }
  }

  lemma {:induction false} TrailsSound(heights: seq<seq<nat>>, p: Pos, e: nat, t: seq<Pos>)
    requires t in Trails(heights, p, e)
    ensures IsTrail(heights, t, e) && t[0] == p
    decreases Budget(e)
  {
    assert At(heights, p) == Some(e);
    if e < 9 {
      var n := Neighbours(p);
      var all := Trails(heights, n[0], e + 1) + Trails(heights, n[1], e + 1)
                 + Trails(heights, n[2], e + 1) + Trails(heights, n[3], e + 1);
      assert t in Prepend(p, all);
      var u :| u in all && t == [p] + u;
      var i: nat := if u in Trails(heights, n[0], e + 1) then 0
                    else if u in Trails(heights, n[1], e + 1) then 1
                    else if u in Trails(heights, n[2], e + 1) then 2
                    else 3;
      TrailsSound(heights, n[i], e + 1, u);
      ConsTrail(heights, p, e, u);
    } else {
      assert t == [p];
    }
  }

  lemma {:induction false} TrailsComplete(heights: seq<seq<nat>>, p: Pos, e: nat, t: seq<Pos>)
    requires IsTrail(heights, t, e) && t[0] == p
    ensures t in Trails(heights, p, e)
    decreases Budget(e)
  {
    assert At(heights, t[0]) == Some(e + 0);
    if |t| == 1 {
      assert t == [p];
    } else {
      TailTrail(heights, t, e);
      var t' := t[1..];
      assert t == [p] + t';
      var n := Neighbours(p);
      var i: nat :| i < 4 && t'[0] == n[i];
      TrailsComplete(heights, n[i], e + 1, t');
    }
  }

  // ---------------------------------------------------------------- Part 1

  /** The last cell of each trail in s. */
  function Ends(s: set<seq<Pos>>): set<Pos> {
    set t | t in s && |t| > 0 :: t[|t| - 1]
  }

  /**
   * Part 1's `dfs`: adds to `out` every cell of height 9 or more that a
   * trail from p, starting at height e, reaches.
   */
  function Dfs1(heights: seq<seq<nat>>, p: Pos, e: nat, out: set<Pos>): (r: set<Pos>)
    ensures out <= r
    decreases Budget(e)
  {
    match At(heights, p)
    case None => out
    case Some(h) =>
      if h != e then out
      else if h >= 9 then out + {p}
      else
        var n := Neighbours(p);
        var out := Dfs1(heights, n[0], e + 1, out);
        var out := Dfs1(heights, n[1], e + 1, out);
        var out := Dfs1(heights, n[2], e + 1, out);
        Dfs1(heights, n[3], e + 1, out)
  }

  /** The ends of the trails from p climbing on from height e < 9 are those of the trails from its four neighbours. */
  lemma {:induction false} EndsOfTrails(heights: seq<seq<nat>>, p: Pos, e: nat)
    requires At(heights, p) == Some(e) && e < 9
    ensures var n := Neighbours(p);
            Ends(Trails(heights, p, e)) == Ends(Trails(heights, n[0], e + 1)) + Ends(Trails(heights, n[1], e + 1))
                                           + Ends(Trails(heights, n[2], e + 1)) + Ends(Trails(heights, n[3], e + 1))
  {
    var n := Neighbours(p);
    var a, b, c, d := Trails(heights, n[0], e + 1), Trails(heights, n[1], e + 1),
                      Trails(heights, n[2], e + 1), Trails(heights, n[3], e + 1);
    TrailsNonEmpty(heights, n[0], e + 1);
    TrailsNonEmpty(heights, n[1], e + 1);
    TrailsNonEmpty(heights, n[2], e + 1);
    TrailsNonEmpty(heights, n[3], e + 1);
    EndsPrepend(p, a + b + c + d);
    EndsUnion(a, b);
    EndsUnion(a + b, c);
    EndsUnion(a + b + c, d);
  }

  /** The recursive case of `Dfs1Ends`, given that it holds for the four neighbours. */
  lemma {:induction false} Dfs1Step(heights: seq<seq<nat>>, p: Pos, e: nat, out: set<Pos>,
                                    o1: set<Pos>, o2: set<Pos>, o3: set<Pos>)
    requires At(heights, p) == Some(e) && e < 9
    requires o1 == Dfs1(heights, Neighbours(p)[0], e + 1, out) == out + Ends(Trails(heights, Neighbours(p)[0], e + 1))
    requires o2 == Dfs1(heights, Neighbours(p)[1], e + 1, o1) == o1 + Ends(Trails(heights, Neighbours(p)[1], e + 1))
    requires o3 == Dfs1(heights, Neighbours(p)[2], e + 1, o2) == o2 + Ends(Trails(heights, Neighbours(p)[2], e + 1))
    requires Dfs1(heights, Neighbours(p)[3], e + 1, o3) == o3 + Ends(Trails(heights, Neighbours(p)[3], e + 1))
    ensures Dfs1(heights, p, e, out) == out + Ends(Trails(heights, p, e))
  {
    assert Dfs1(heights, p, e, out) == Dfs1(heights, Neighbours(p)[3], e + 1, o3);
    EndsOfTrails(heights, p, e);
  }

  /** `dfs` adds to what `out` held exactly the ends of the trails from p. */
  lemma {:induction false} Dfs1Ends(heights: seq<seq<nat>>, p: Pos, e: nat, out: set<Pos>)
    ensures Dfs1(heights, p, e, out) == out + Ends(Trails(heights, p, e))
    decreases Budget(e)
  {
    if At(heights, p) != Some(e) || e >= 9 {
      Dfs1Leaf(heights, p, e, out);
    } else {
      var n := Neighbours(p);
      var o1 := Dfs1(heights, n[0], e + 1, out);
      var o2 := Dfs1(heights, n[1], e + 1, o1);
      var o3 := Dfs1(heights, n[2], e + 1, o2);
      Dfs1Ends(heights, n[0], e + 1, out);
      Dfs1Ends(heights, n[1], e + 1, o1);
      Dfs1Ends(heights, n[2], e + 1, o2);
      Dfs1Ends(heights, n[3], e + 1, o3);
      Dfs1Step(heights, p, e, out, o1, o2, o3);
    }
  }

  /** Where the climb stops: off the map, at the wrong height, or at a 9. */
  lemma {:induction false} Dfs1Leaf(heights: seq<seq<nat>>, p: Pos, e: nat, out: set<Pos>)
    requires At(heights, p) != Some(e) || e >= 9
    ensures Dfs1(heights, p, e, out) == out + Ends(Trails(heights, p, e))
  {
    if At(heights, p) == Some(e) {
      assert Trails(heights, p, e) == {[p]};
      assert Ends({[p]}) == {p};
    } else {
      assert Trails(heights, p, e) == {};
      assert Ends({}) == {};
    }
  }

  lemma {:induction false} EndsUnion(a: set<seq<Pos>>, b: set<seq<Pos>>)
    ensures Ends(a + b) == Ends(a) + Ends(b)
  {
  }

  lemma {:induction false} EndsPrepend(p: Pos, s: set<seq<Pos>>)
    ensures Ends(Prepend(p, s)) == Ends(s) + (if [] in s then {p} else {})
  {
    forall q | q in Ends(Prepend(p, s)) ensures q in Ends(s) + (if [] in s then {p} else {}) {
      var t :| t in Prepend(p, s) && |t| > 0 && t[|t| - 1] == q;
      var u :| u in s && t == [p] + u;
      if |u| > 0 {
        assert u[|u| - 1] == q;
      }
    }
    forall q | q in Ends(s) + (if [] in s then {p} else {}) ensures q in Ends(Prepend(p, s)) {
      if q in Ends(s) {
        var u :| u in s && |u| > 0 && u[|u| - 1] == q;
        assert [p] + u in Prepend(p, s);
        assert ([p] + u)[|u|] == q;
      } else {
        assert [p] + [] == [p];
        assert [p] in Prepend(p, s);
      }
    }
  }

  /** Each trail has at least one cell. */
  lemma {:induction false} TrailsNonEmpty(heights: seq<seq<nat>>, p: Pos, e: nat)
    ensures [] !in Trails(heights, p, e)
  {
    if [] in Trails(heights, p, e) {
      TrailsSound(heights, p, e, []);
    }
  }

  /** At most as many distinct ends as trails. */
  lemma {:induction false} EndsCard(s: set<seq<Pos>>)
    ensures |Ends(s)| <= |s|
    decreases |s|
  {
    if s != {} {
      var t :| t in s;
      var rest := s - {t};
      EndsCard(rest);
      assert s == rest + {t};
      if |t| > 0 {
        assert Ends(s) <= Ends(rest) + {t[|t| - 1]};
        SubsetCard(Ends(s), Ends(rest) + {t[|t| - 1]});
      } else {
        assert Ends(s) == Ends(rest);
      }
    }
  }

  /** The score of p: how many distinct cells of height 9 trails from a 0 at p reach. */
  function Score(heights: seq<seq<nat>>, p: Pos): nat {
    |Dfs1(heights, p, 0, {})|
  }

  /**
   * A cell q is among those p's score counts exactly when some trail from p
   * ends at q; every such q has height 9, and a cell whose height is not 0
   * scores nothing.
   */
  lemma {:induction false} ScoreCharacterization(heights: seq<seq<nat>>, p: Pos, q: Pos)
    ensures q in Dfs1(heights, p, 0, {}) <==> exists t :: IsTrail(heights, t, 0) && t[0] == p && t[|t| - 1] == q
    ensures q in Dfs1(heights, p, 0, {}) ==> At(heights, q) == Some(9)
    ensures At(heights, p) != Some(0) ==> Score(heights, p) == 0
  {
    Dfs1Ends(heights, p, 0, {});
    if q in Dfs1(heights, p, 0, {}) {
      var t :| t in Trails(heights, p, 0) && |t| > 0 && t[|t| - 1] == q;
      TrailsExact(heights, p, 0, t);
      TrailLength(heights, t, 0);
    }
    if exists t :: IsTrail(heights, t, 0) && t[0] == p && t[|t| - 1] == q {
      var t :| IsTrail(heights, t, 0) && t[0] == p && t[|t| - 1] == q;
      TrailsExact(heights, p, 0, t);
    }
    if At(heights, p) != Some(0) {
      assert Trails(heights, p, 0) == {};
    }
  }

  // ---------------------------------------------------------------- Part 2

  /** Part 2's `dfs`: counts exactly the trails from p starting at height e, so a rating is the number of distinct trails. */
  function Dfs2(heights: seq<seq<nat>>, p: Pos, e: nat): (r: nat)
    ensures r == |Trails(heights, p, e)|
    decreases Budget(e), 1
  {
    TrailsEnds(heights, p, e);
    match At(heights, p)
    case None => 0
    case Some(h) =>
      if h != e then 0
      else if h >= 9 then 1
      else Dfs2Climb(heights, p, e)
  }

  /** The step of `dfs2` from a cell of height e below 9: the trails through each of its neighbours, added up. */
  function Dfs2Climb(heights: seq<seq<nat>>, p: Pos, e: nat): (r: nat)
    requires At(heights, p) == Some(e) && e < 9
    ensures r == |Trails(heights, p, e)|
    decreases Budget(e), 0
  {
    var n := Neighbours(p);
    TrailsSplitCard(heights, p, e);
    var r0, r1 := Dfs2(heights, n[0], e + 1), Dfs2(heights, n[1], e + 1);
    var r2, r3 := Dfs2(heights, n[2], e + 1), Dfs2(heights, n[3], e + 1);
    r0 + r1 + r2 + r3
  }

  /** No trail starts off the map or at the wrong height, and a summit is a trail on its own. */
  lemma {:induction false} TrailsEnds(heights: seq<seq<nat>>, p: Pos, e: nat)
    ensures At(heights, p).None? ==> Trails(heights, p, e) == {}
    ensures At(heights, p).Some? && At(heights, p).value != e ==> Trails(heights, p, e) == {}
    ensures At(heights, p) == Some(e) && e >= 9 ==> Trails(heights, p, e) == {[p]}
  {
  }

  lemma {:induction false} PrependCard(p: Pos, s: set<seq<Pos>>)
    ensures |Prepend(p, s)| == |s|
    decreases |s|
  {
    if s != {} {
      var t :| t in s;
      var rest := s - {t};
      PrependCard(p, rest);
      assert s == rest + {t};
      assert Prepend(p, s) == Prepend(p, rest) + {[p] + t};
      forall u | u in rest ensures ([p] + u)[1..] == u {
      }
      assert ([p] + t)[1..] == t;
      assert [p] + t !in Prepend(p, rest);
    }
  }

  /** Trails from different cells are different trails. */
  lemma {:induction false} TrailsDisjoint(heights: seq<seq<nat>>, p: Pos, q: Pos, e: nat)
    requires p != q
    ensures Trails(heights, p, e) * Trails(heights, q, e) == {}
  {
    forall t | t in Trails(heights, p, e) ensures t !in Trails(heights, q, e) {
      TrailsSound(heights, p, e, t);
      if t in Trails(heights, q, e) {
        TrailsSound(heights, q, e, t);
      }
    }
  }

  /** The trails from a cell below 9 split into the trails from its four neighbours, none shared. */
  lemma {:induction false} TrailsSplitCard(heights: seq<seq<nat>>, p: Pos, e: nat)
    requires At(heights, p) == Some(e) && e < 9
    ensures var n := Neighbours(p);
            |Trails(heights, p, e)| == |Trails(heights, n[0], e + 1)| + |Trails(heights, n[1], e + 1)|
                                       + |Trails(heights, n[2], e + 1)| + |Trails(heights, n[3], e + 1)|
  {
    var n := Neighbours(p);
    var a, b, c, d := Trails(heights, n[0], e + 1), Trails(heights, n[1], e + 1),
                      Trails(heights, n[2], e + 1), Trails(heights, n[3], e + 1);
    TrailsDisjoint(heights, n[0], n[1], e + 1);
    TrailsDisjoint(heights, n[0], n[2], e + 1);
    TrailsDisjoint(heights, n[0], n[3], e + 1);
    TrailsDisjoint(heights, n[1], n[2], e + 1);
    TrailsDisjoint(heights, n[1], n[3], e + 1);
    TrailsDisjoint(heights, n[2], n[3], e + 1);
    assert |a + b| == |a| + |b|;
    assert (a + b) * c == {};
    assert |a + b + c| == |a| + |b| + |c|;
    assert (a + b + c) * d == {};
    PrependCard(p, a + b + c + d);
  }

  /** The rating of a cell is at least its score. */
  lemma {:induction false} ScoreAtMostRating(heights: seq<seq<nat>>, p: Pos)
    ensures Score(heights, p) <= Dfs2(heights, p, 0)
  {
    Dfs1Ends(heights, p, 0, {});
    EndsCard(Trails(heights, p, 0));
  }

  // ---------------------------------------------------------------- Totals

  /** The scores of row i from column j on. */
  function RowScores(heights: seq<seq<nat>>, i: nat, j: nat): nat
    requires i < |heights|
    decreases |heights[i]| - j
  {
    if j >= |heights[i]| then 0 else Score(heights, (i, j)) + RowScores(heights, i, j + 1)
  }

  function RowRatings(heights: seq<seq<nat>>, i: nat, j: nat): nat
    requires i < |heights|
    decreases |heights[i]| - j
  {
    if j >= |heights[i]| then 0 else Dfs2(heights, (i, j), 0) + RowRatings(heights, i, j + 1)
  }

  /** The scores of all cells, rows from i on: the two loops of `solve_part_1`. */
  function TotalScores(heights: seq<seq<nat>>, i: nat): nat
    requires i <= |heights|
    decreases |heights| - i
  {
    if i == |heights| then 0 else RowScores(heights, i, 0) + TotalScores(heights, i + 1)
  }

  /** The ratings of all cells, rows from i on: the two loops of `solve_part_2`. */
  function TotalRatings(heights: seq<seq<nat>>, i: nat): nat
    requires i <= |heights|
    decreases |heights| - i
  {
    if i == |heights| then 0 else RowRatings(heights, i, 0) + TotalRatings(heights, i + 1)
  }

  /** `solve_part_1`: the number of distinct (trailhead, summit) pairs joined by a hiking trail. */
  function SolvePart1(heights: seq<seq<nat>>): (r: nat)
    ensures r == |HeadSummits(heights, 0)|
  {
    TotalScoresCount(heights, 0);
    TotalScores(heights, 0)
  }

  /** `solve_part_2`: the number of distinct hiking trails on the map. */
  function SolvePart2(heights: seq<seq<nat>>): (r: nat)
    ensures r == |TrailsFrom(heights, 0)|
  {
    TotalRatingsCount(heights, 0);
    TotalRatings(heights, 0)
  }

  lemma {:induction false} TotalScoresCount(heights: seq<seq<nat>>, i: nat)
    requires i <= |heights|
    ensures TotalScores(heights, i) == |HeadSummits(heights, i)|
    decreases |heights| - i
  {
    if i == |heights| {
      NoRowsLeft(heights);
    } else {
      RowScoresCount(heights, i, 0);
      HeadSummitsSplit(heights, i);
      TotalScoresCount(heights, i + 1);
      DisjointUnionCard(RowHeadSummits(heights, i, 0), HeadSummits(heights, i + 1));
    }
  }

  lemma {:induction false} TotalRatingsCount(heights: seq<seq<nat>>, i: nat)
    requires i <= |heights|
    ensures TotalRatings(heights, i) == |TrailsFrom(heights, i)|
    decreases |heights| - i
  {
    if i == |heights| {
      NoRowsLeft(heights);
    } else {
      RowRatingsCount(heights, i, 0);
      TrailsFromSplit(heights, i);
      TotalRatingsCount(heights, i + 1);
      DisjointUnionCard(RowTrails(heights, i, 0), TrailsFrom(heights, i + 1));
    }
  }

  /** Past the last row there are no trails and no pairs. */
  lemma {:induction false} NoRowsLeft(heights: seq<seq<nat>>)
    ensures HeadSummits(heights, |heights|) == {}
    ensures TrailsFrom(heights, |heights|) == {}
  {
  }

  // ---------------------------------------------------------------- What the totals count

  /** Every trail from a 0 in row i, columns j onwards. */
  ghost function RowTrails(heights: seq<seq<nat>>, i: nat, j: nat): set<seq<Pos>>
    requires i < |heights|
  {
    set c, t | j <= c < |heights[i]| && t in Trails(heights, (i, c), 0) :: t
  }

  /** Every trail from a 0 in rows i onwards. */
  ghost function TrailsFrom(heights: seq<seq<nat>>, i: nat): set<seq<Pos>> {
    set r, c, t | i <= r < |heights| && 0 <= c < |heights[r]| && t in Trails(heights, (r, c), 0) :: t
  }

  /** Every (trailhead, summit) pair with the trailhead in row i, columns j onwards. */
  ghost function RowHeadSummits(heights: seq<seq<nat>>, i: nat, j: nat): set<(Pos, Pos)>
    requires i < |heights|
  {
    set c, q | j <= c < |heights[i]| && q in Dfs1(heights, (i, c), 0, {}) :: ((i, c), q)
  }

  /** Every (trailhead, summit) pair with the trailhead in rows i onwards. */
  ghost function HeadSummits(heights: seq<seq<nat>>, i: nat): set<(Pos, Pos)> {
    set r, c, q | i <= r < |heights| && 0 <= c < |heights[r]| && q in Dfs1(heights, (r, c), 0, {}) :: ((r, c), q)
  }

  /** The whole map's trails are exactly the hiking trails from height 0. */
  lemma {:induction false} TrailsFromMeaning(heights: seq<seq<nat>>, t: seq<Pos>)
    ensures t in TrailsFrom(heights, 0) <==> IsTrail(heights, t, 0)
  {
    if IsTrail(heights, t, 0) {
      assert At(heights, t[0]) == Some(0);
      TrailsExact(heights, t[0], 0, t);
      assert t[0] == (t[0].0, t[0].1);
    }
    if t in TrailsFrom(heights, 0) {
      var r, c :| 0 <= r < |heights| && 0 <= c < |heights[r]| && t in Trails(heights, (r, c), 0);
      TrailsExact(heights, (r, c), 0, t);
    }
  }

  /** The whole map's pairs are exactly the trailheads with the summits some trail from them reaches. */
  lemma {:induction false} HeadSummitsMeaning(heights: seq<seq<nat>>, p: Pos, q: Pos)
    ensures (p, q) in HeadSummits(heights, 0)
            <==> exists t :: IsTrail(heights, t, 0) && t[0] == p && t[|t| - 1] == q
  {
    ScoreCharacterization(heights, p, q);
    if exists t :: IsTrail(heights, t, 0) && t[0] == p && t[|t| - 1] == q {
      var t :| IsTrail(heights, t, 0) && t[0] == p && t[|t| - 1] == q;
      assert At(heights, t[0]) == Some(0);
      assert p == (p.0, p.1);
    }
  }

  /** The pairs of one trailhead number its summits. */
  lemma {:induction false} PairCard(p: Pos, s: set<Pos>)
    ensures |set q | q in s :: (p, q)| == |s|
    decreases |s|
  {
    if s != {} {
      var q :| q in s;
      PairCard(p, s - {q});
      assert (set x | x in s :: (p, x)) == (set x | x in s - {q} :: (p, x)) + {(p, q)};
    }
  }

  lemma {:induction false} RowRatingsCount(heights: seq<seq<nat>>, i: nat, j: nat)
    requires i < |heights|
    ensures RowRatings(heights, i, j) == |RowTrails(heights, i, j)|
    decreases |heights[i]| - j
  {
    if j < |heights[i]| {
      RowRatingsCount(heights, i, j + 1);
      var here, rest := Trails(heights, (i, j), 0), RowTrails(heights, i, j + 1);
      assert RowTrails(heights, i, j) == here + rest;
      forall t | t in here ensures t !in rest {
        TrailsSound(heights, (i, j), 0, t);
        if t in rest {
          var c :| j + 1 <= c < |heights[i]| && t in Trails(heights, (i, c), 0);
          TrailsSound(heights, (i, c), 0, t);
        }
      }
      assert here * rest == {};
    } else {
      assert RowTrails(heights, i, j) == {};
    }
  }

  lemma {:induction false} TrailsFromSplit(heights: seq<seq<nat>>, i: nat)
    requires i < |heights|
    ensures TrailsFrom(heights, i) == RowTrails(heights, i, 0) + TrailsFrom(heights, i + 1)
    ensures RowTrails(heights, i, 0) * TrailsFrom(heights, i + 1) == {}
  {
    var all, here, rest := TrailsFrom(heights, i), RowTrails(heights, i, 0), TrailsFrom(heights, i + 1);
    forall t | t in all ensures t in here + rest {
      var r, c :| i <= r < |heights| && 0 <= c < |heights[r]| && t in Trails(heights, (r, c), 0);
      if r == i {
        assert t in here;
      } else {
        assert t in rest;
      }
    }
    forall t | t in here ensures t !in rest && t in all {
      var c :| 0 <= c < |heights[i]| && t in Trails(heights, (i, c), 0);
      TrailsSound(heights, (i, c), 0, t);
      if t in rest {
        var r, c' :| i + 1 <= r < |heights| && 0 <= c' < |heights[r]| && t in Trails(heights, (r, c'), 0);
        TrailsSound(heights, (r, c'), 0, t);
      }
    }
    forall t | t in rest ensures t in all {
      var r, c :| i + 1 <= r < |heights| && 0 <= c < |heights[r]| && t in Trails(heights, (r, c), 0);
    }
  }

  lemma {:induction false} RowScoresCount(heights: seq<seq<nat>>, i: nat, j: nat)
    requires i < |heights|
    ensures RowScores(heights, i, j) == |RowHeadSummits(heights, i, j)|
    decreases |heights[i]| - j
  {
    if j < |heights[i]| {
      RowScoresCount(heights, i, j + 1);
      var s := Dfs1(heights, (i, j), 0, {});
      var here, rest := set q | q in s :: ((i, j), q), RowHeadSummits(heights, i, j + 1);
      PairCard((i, j), s);
      forall x | x in RowHeadSummits(heights, i, j) ensures x in here + rest {
        var c, q :| j <= c < |heights[i]| && q in Dfs1(heights, (i, c), 0, {}) && x == ((i, c), q);
        if c == j {
          assert x in here;
        }
      }
      forall x | x in here ensures x !in rest && x in RowHeadSummits(heights, i, j) {
        var q :| q in s && x == ((i, j), q);
      }
      assert RowHeadSummits(heights, i, j) == here + rest;
    } else {
      assert RowHeadSummits(heights, i, j) == {};
    }
  }

  lemma {:induction false} HeadSummitsSplit(heights: seq<seq<nat>>, i: nat)
    requires i < |heights|
    ensures HeadSummits(heights, i) == RowHeadSummits(heights, i, 0) + HeadSummits(heights, i + 1)
    ensures RowHeadSummits(heights, i, 0) * HeadSummits(heights, i + 1) == {}
  {
  }

  lemma {:induction false} RowScoresAtMostRatings(heights: seq<seq<nat>>, i: nat, j: nat)
    requires i < |heights|
    ensures RowScores(heights, i, j) <= RowRatings(heights, i, j)
    decreases |heights[i]| - j
  {
    if j < |heights[i]| {
      ScoreAtMostRating(heights, (i, j));
      RowScoresAtMostRatings(heights, i, j + 1);
    }
  }

  lemma {:induction false} TotalsOrdered(heights: seq<seq<nat>>, i: nat)
    requires i <= |heights|
    ensures TotalScores(heights, i) <= TotalRatings(heights, i)
    decreases |heights| - i
  {
    if i < |heights| {
      RowScoresAtMostRatings(heights, i, 0);
      TotalsOrdered(heights, i + 1);
    }
  }

  /** The total rating is at least the total score. */
  lemma {:induction false} Part1AtMostPart2(heights: seq<seq<nat>>)
    ensures SolvePart1(heights) <= SolvePart2(heights)
  {
    TotalsOrdered(heights, 0);
  }
}
