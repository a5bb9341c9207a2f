/**
 * Day 2, "Red-Nosed Reports": a report is a sequence of levels; it is safe
 * when it moves strictly in one direction by steps of 1 to 3. Part 2 also
 * accepts a report that one removal makes safe.
 */
module ReportSafety {

  function Sign(x: int): int {
    if x > 0 then 1 else if x < 0 then -1 else 0
  }

  function Abs(x: int): int {
    if x < 0 then -x else x
  }

  /** Every adjacent difference of `r` lies in the half-open range [lo, hi). */
  predicate AllInRange(r: seq<int>, lo: int, hi: int) {
    forall k | 0 <= k < |r| - 1 :: lo <= r[k + 1] - r[k] < hi
  }

  /** `r` with the level at index `k` dropped. */
  function Remove(r: seq<int>, k: nat): (s: seq<int>)
    requires k < |r|
    ensures |s| == |r| - 1
    ensures forall m | 0 <= m < |s| :: s[m] == (if m < k then r[m] else r[m + 1])
  {
    r[..k] + r[k + 1..]
  }

  // ---------------------------------------------------------------- Part 1

  /**
   * Part 1's `is_safe`: the sign of the first difference fixes the direction,
   * and every difference must have that sign and a magnitude in 1..=3.
   */
  predicate IsSafe1(r: seq<int>): (safe: bool)
    ensures safe <==> |r| <= 1 || AllInRange(r, 1, 4) || AllInRange(r, -3, 0)
  {
    if |r| <= 1 then true
    else
      var sign := Sign(r[1] - r[0]);
      SameSignSteps(r);
      forall k | 0 <= k < |r| - 1 :: Sign(r[k + 1] - r[k]) == sign && 1 <= Abs(r[k + 1] - r[k]) <= 3
  }

  /** Steps that all share the first step's sign and lie in 1..=3 are "all in 1..=3" or "all in -3..=-1". */
  lemma {:induction false} SameSignSteps(r: seq<int>)
    requires |r| >= 2
    ensures (forall k | 0 <= k < |r| - 1 :: Sign(r[k + 1] - r[k]) == Sign(r[1] - r[0]) && 1 <= Abs(r[k + 1] - r[k]) <= 3)
            <==> AllInRange(r, 1, 4) || AllInRange(r, -3, 0)
  {
    if AllInRange(r, 1, 4) {
      assert 1 <= r[1] - r[0];
    }
    if AllInRange(r, -3, 0) {
      assert r[1] - r[0] < 0;
    }
    if forall k | 0 <= k < |r| - 1 :: Sign(r[k + 1] - r[k]) == Sign(r[1] - r[0]) && 1 <= Abs(r[k + 1] - r[k]) <= 3 {
      if r[1] - r[0] > 0 {
        assert AllInRange(r, 1, 4);
      } else {
        assert AllInRange(r, -3, 0);
      }
    }
  }

  /** The reports counted by part 1: non-empty and safe. */
  function CountSafe1(reports: seq<seq<int>>): (n: nat)
    ensures n <= |reports|
  {
    if |reports| == 0 then 0
    else CountSafe1(reports[..|reports| - 1])
         + (var r := reports[|reports| - 1]; if |r| != 0 && IsSafe1(r) then 1 else 0)
  }

  // ---------------------------------------------------------------- Part 2

  /**
   * One past the index of the first difference outside [lo, hi), scanning
   * from difference `w`; `|r|` when there is none.
   */
  function FirstErrorFrom(r: seq<int>, lo: int, hi: int, w: nat): (i: nat)
    requires 1 <= |r| && w <= |r| - 1
    ensures w + 1 <= i <= |r|
    ensures forall k | w <= k < i - 1 :: lo <= r[k + 1] - r[k] < hi
    ensures i < |r| ==> !(lo <= r[i] - r[i - 1] < hi)
    decreases |r| - w
  {
    if w == |r| - 1 then |r|
    else if !(lo <= r[w + 1] - r[w] < hi) then w + 1
    else FirstErrorFrom(r, lo, hi, w + 1)
  }

  /**
   * Part 2's `is_safe` for one direction: find the first bad difference and
   * accept when one of the two removals next to it repairs the report. It is
   * exact: it accepts a non-empty report iff dropping some single level
   * leaves every difference in [lo, hi). The empty report is excluded by the
   * caller.
   */
  predicate IsSafe2(r: seq<int>, lo: int, hi: int): (safe: bool)
    requires |r| >= 1
    ensures safe <==> exists k :: 0 <= k < |r| && AllInRange(Remove(r, k), lo, hi)
  {
    var i := FirstErrorFrom(r, lo, hi, 0);
    Safe2Characterization(r, lo, hi);
    RepairsFirstError(r, lo, hi, i)
  }

  /**
   * The acceptance test once the first bad difference, between levels i-1
   * and i, is known: accept when it is the last difference, or when the tail
   * after level i+1 is good and dropping level i or level i-1 repairs the
   * local window.
   */
  predicate RepairsFirstError(r: seq<int>, lo: int, hi: int, i: nat)
    requires 1 <= i <= |r|
  {
    if i >= |r| - 1 then true
    else
      var canRemoveIth := lo <= r[i + 1] - r[i - 1] < hi;
      var canRemovePrev := (i < 2 || lo <= r[i] - r[i - 2] < hi) && lo <= r[i + 1] - r[i] < hi;
      AllInRange(r[i + 1..], lo, hi) && (canRemoveIth || canRemovePrev)
  }

  /** Dropping a level away from a bad pair keeps that pair adjacent. */
  lemma {:induction false} BadPairSurvives(r: seq<int>, lo: int, hi: int, i: nat, k: nat)
    requires 1 <= i < |r| && k < |r| && k != i && k != i - 1
    requires !(lo <= r[i] - r[i - 1] < hi)
    ensures !AllInRange(Remove(r, k), lo, hi)
  {
    var s := Remove(r, k);
    if k < i - 1 {
      assert s[i - 2] == r[i - 1] && s[i - 1] == r[i];
    } else {
      assert s[i - 1] == r[i - 1] && s[i] == r[i];
    }
  }

  /** With no bad difference before level i, a good tail and a repaired window, dropping level i works. */
  lemma {:induction false} RemoveIthRepairs(r: seq<int>, lo: int, hi: int, i: nat)
    requires 1 <= i < |r| - 1
    requires forall k | 0 <= k < i - 1 :: lo <= r[k + 1] - r[k] < hi
    requires lo <= r[i + 1] - r[i - 1] < hi && AllInRange(r[i + 1..], lo, hi)
    ensures AllInRange(Remove(r, i), lo, hi)
  {
    var s := Remove(r, i);
    var t := r[i + 1..];
    forall m | 0 <= m < |s| - 1 ensures lo <= s[m + 1] - s[m] < hi {
      if m >= i {
        assert t[m - i + 1] - t[m - i] == s[m + 1] - s[m];
      }
    }
  }

  /** Likewise, dropping level i-1 works when its neighbours join up within range. */
  lemma {:induction false} RemovePrevRepairs(r: seq<int>, lo: int, hi: int, i: nat)
    requires 1 <= i < |r| - 1
    requires forall k | 0 <= k < i - 1 :: lo <= r[k + 1] - r[k] < hi
    requires (i < 2 || lo <= r[i] - r[i - 2] < hi) && lo <= r[i + 1] - r[i] < hi
    requires AllInRange(r[i + 1..], lo, hi)
    ensures AllInRange(Remove(r, i - 1), lo, hi)
  {
    var s := Remove(r, i - 1);
    var t := r[i + 1..];
    forall m | 0 <= m < |s| - 1 ensures lo <= s[m + 1] - s[m] < hi {
      if m >= i {
        assert t[m - i + 1] - t[m - i] == s[m + 1] - s[m];
      }
    }
  }

  /** Whatever part 2's check accepts, some single removal repairs. */
  lemma {:induction false} Safe2Sound(r: seq<int>, lo: int, hi: int)
    requires |r| >= 1 && RepairsFirstError(r, lo, hi, FirstErrorFrom(r, lo, hi, 0))
    ensures exists k :: 0 <= k < |r| && AllInRange(Remove(r, k), lo, hi)
  {
    var n := |r|;
    var i := FirstErrorFrom(r, lo, hi, 0);
    if i >= n - 1 {
      assert AllInRange(Remove(r, n - 1), lo, hi);
    } else if lo <= r[i + 1] - r[i - 1] < hi {
      RemoveIthRepairs(r, lo, hi, i);
    } else {
      RemovePrevRepairs(r, lo, hi, i);
    }
  }

  /** The differences after level i+1 survive the removal of level i or i-1. */
  lemma {:induction false} TailAfterRemoval(r: seq<int>, lo: int, hi: int, i: nat, k: nat)
    requires 1 <= i < |r| - 1 && (k == i || k == i - 1)
    requires AllInRange(Remove(r, k), lo, hi)
    ensures AllInRange(r[i + 1..], lo, hi)
  {
    var s := Remove(r, k);
    var t := r[i + 1..];
    forall m | 0 <= m < |t| - 1 ensures lo <= t[m + 1] - t[m] < hi {
      assert s[m + i + 1] - s[m + i] == t[m + 1] - t[m];
    }
  }

  /** Part 2's check accepts every report that some single removal repairs. */
  lemma {:induction false} Safe2Complete(r: seq<int>, lo: int, hi: int, k: nat)
    requires k < |r| && AllInRange(Remove(r, k), lo, hi)
    ensures RepairsFirstError(r, lo, hi, FirstErrorFrom(r, lo, hi, 0))
  {
    var n := |r|;
    var i := FirstErrorFrom(r, lo, hi, 0);
    if i < n - 1 {
      var s := Remove(r, k);
      if k != i && k != i - 1 {
        BadPairSurvives(r, lo, hi, i, k);
        assert false;
      }
      TailAfterRemoval(r, lo, hi, i, k);
      if k == i {
        assert lo <= s[i] - s[i - 1] < hi;
      } else {
        assert lo <= s[i] - s[i - 1] < hi;
        if i >= 2 {
          assert lo <= s[i - 1] - s[i - 2] < hi;
        }
      }
    }
  }

  /** The window test is exact: it accepts iff some single removal repairs the report. */
  lemma {:induction false} Safe2Characterization(r: seq<int>, lo: int, hi: int)
    requires |r| >= 1
    ensures RepairsFirstError(r, lo, hi, FirstErrorFrom(r, lo, hi, 0))
            <==> exists k :: 0 <= k < |r| && AllInRange(Remove(r, k), lo, hi)
  {
    if RepairsFirstError(r, lo, hi, FirstErrorFrom(r, lo, hi, 0)) {
      Safe2Sound(r, lo, hi);
    } else if k :| 0 <= k < |r| && AllInRange(Remove(r, k), lo, hi) {
      Safe2Complete(r, lo, hi, k);
    }
  }

  /** Part 2 accepts a report that is safe increasing or safe decreasing. */
  predicate IsSafeEitherWay(r: seq<int>)
    requires |r| >= 1
  {
    IsSafe2(r, 1, 4) || IsSafe2(r, -3, 0)
  }

  function CountSafe2(reports: seq<seq<int>>): (n: nat)
    ensures n <= |reports|
  {
    if |reports| == 0 then 0
    else CountSafe2(reports[..|reports| - 1])
         + (var r := reports[|reports| - 1]; if |r| != 0 && IsSafeEitherWay(r) then 1 else 0)
  }

  /** A report safe under part 1 is accepted by part 2 (drop its last level). */
  lemma {:induction false} Safe1ImpliesSafe2(r: seq<int>)
    requires |r| >= 1 && IsSafe1(r)
    ensures IsSafeEitherWay(r)
  {
    var s := Remove(r, |r| - 1);
    if |r| <= 1 {
      assert AllInRange(s, 1, 4);
    } else if AllInRange(r, 1, 4) {
      assert AllInRange(s, 1, 4);
    } else {
      assert AllInRange(s, -3, 0);
    }
  }

  /** Part 2's answer is never below part 1's. */
  lemma {:induction false} Part2AtLeastPart1(reports: seq<seq<int>>)
    ensures CountSafe1(reports) <= CountSafe2(reports)
  {
    if |reports| > 0 {
      Part2AtLeastPart1(reports[..|reports| - 1]);
      var r := reports[|reports| - 1];
      if |r| != 0 && IsSafe1(r) {
        Safe1ImpliesSafe2(r);
      }
    }
  }
}
