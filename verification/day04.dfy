/**
 * Day 4, "Ceres Search": count the occurrences of XMAS in a letter grid in
 * every orientation (part 1), and the X-shaped crossings of two MAS words
 * (part 2). Rows may have different lengths: column and diagonal reads are
 * cut to the shortest of the rows they combine, as `izip!` does.
 */
module XmasSearch {
  import opened Counting

  /** A four-letter read that spells XMAS forwards or backwards. */
  predicate IsXmas(w: seq<char>) {
    w == "XMAS" || w == "SAMX"
  }

  /** A word matches in one orientation iff its reverse matches in the other. */
  lemma {:induction false} XmasReversible(w: seq<char>)
    requires |w| == 4
    ensures IsXmas(w) <==> IsXmas([w[3], w[2], w[1], w[0]])
  {
  }

  /** How many windows of the given width a sequence of length `len` has. */
  function Windows(len: int, width: nat): nat {
    if len >= width then len - width + 1 else 0
  }

  /** How many positions `izip!` yields over four iterators of these lengths. */
  function Min4(a: int, b: int, c: int, d: int): nat {
    var m := if a <= b then a else b;
    var m' := if c <= d then c else d;
    var r := if m <= m' then m else m';
    if r < 0 then 0 else r
  }

  /** A position lies before the shortest of four iterators exactly when it lies before each of them. */
  lemma {:induction false} Min4Below(a: int, b: int, c: int, d: int, x: nat)
    ensures x < Min4(a, b, c, d) <==> x < a && x < b && x < c && x < d
  {
  }

  /**
   * The slices `rows[1][1..]`, `rows[2][2..]`, `rows[3][3..]` and, for the
   * other diagonal, `rows[0][3..]`, `rows[1][2..]`, `rows[2][1..]` must exist
   * in every window of four rows.
   */
  predicate SlicesExist(grid: seq<seq<char>>) {
    forall t | 0 <= t < |grid| - 3 :: WindowSlicesExist(grid, t)
  }

  predicate WindowSlicesExist(grid: seq<seq<char>>, t: nat)
    requires t + 4 <= |grid|
  {
    |grid[t]| >= 3 && |grid[t + 1]| >= 2 && |grid[t + 2]| >= 2 && |grid[t + 3]| >= 3
  }

  // ------------------------------------------------------------ horizontal

  function RowWindows(grid: seq<seq<char>>): nat -> nat {
    (i: nat) => if i < |grid| then Windows(|grid[i]|, 4) else 0
  }

  function RowMatch(grid: seq<seq<char>>): (nat, nat) -> bool {
    (i: nat, k: nat) => i < |grid| && k + 4 <= |grid[i]| && IsXmas(grid[i][k..k + 4])
  }

  /** The number of XMAS/SAMX windows over all rows. */
  function Horizontal(grid: seq<seq<char>>): nat {
    Count2(|grid|, RowWindows(grid), RowMatch(grid))
  }

  /** The (row, start) positions of the windows reading XMAS or SAMX. */
  function HorizontalMatches(grid: seq<seq<char>>): set<(nat, nat)> {
    set i: nat, k: nat | i < |grid| && k + 4 <= |grid[i]| && IsXmas(grid[i][k..k + 4]) :: (i, k)
  }

  /** The horizontal count is the number of (row, start) positions reading XMAS or SAMX. */
  lemma {:induction false} HorizontalCountsMatches(grid: seq<seq<char>>)
    ensures Horizontal(grid) == |HorizontalMatches(grid)|
  {
    Count2IsCard(|grid|, RowWindows(grid), RowMatch(grid));
    assert Pairs(|grid|, RowWindows(grid), RowMatch(grid)) == HorizontalMatches(grid);
  }

  // --------------------------------------------- vertical and both diagonals

  /** The four letters read downwards from row t, column c. */
  function Column(grid: seq<seq<char>>, t: nat, c: nat): seq<char>
    requires t + 4 <= |grid|
    requires c < |grid[t]| && c < |grid[t + 1]| && c < |grid[t + 2]| && c < |grid[t + 3]|
  {
    [grid[t][c], grid[t + 1][c], grid[t + 2][c], grid[t + 3][c]]
  }

  /** The four letters read down and to the right from row t, column c. */
  function DownDiagonal(grid: seq<seq<char>>, t: nat, c: nat): seq<char>
    requires t + 4 <= |grid|
    requires c < |grid[t]| && c + 1 < |grid[t + 1]| && c + 2 < |grid[t + 2]| && c + 3 < |grid[t + 3]|
  {
    [grid[t][c], grid[t + 1][c + 1], grid[t + 2][c + 2], grid[t + 3][c + 3]]
  }

  /** The four letters read up and to the right from row t+3, column c. */
  function UpDiagonal(grid: seq<seq<char>>, t: nat, c: nat): seq<char>
    requires t + 4 <= |grid|
    requires c < |grid[t + 3]| && c + 1 < |grid[t + 2]| && c + 2 < |grid[t + 1]| && c + 3 < |grid[t]|
  {
    [grid[t + 3][c], grid[t + 2][c + 1], grid[t + 1][c + 2], grid[t][c + 3]]
  }

  function ColumnWidth(grid: seq<seq<char>>): nat -> nat {
    (t: nat) => if t + 4 <= |grid| then Min4(|grid[t]|, |grid[t + 1]|, |grid[t + 2]|, |grid[t + 3]|) else 0
  }

  function ColumnMatch(grid: seq<seq<char>>): (nat, nat) -> bool {
    (t: nat, c: nat) =>
      t + 4 <= |grid| && c < |grid[t]| && c < |grid[t + 1]| && c < |grid[t + 2]| && c < |grid[t + 3]|
      && IsXmas(Column(grid, t, c))
  }

  function DownWidth(grid: seq<seq<char>>): nat -> nat {
    (t: nat) =>
      if t + 4 <= |grid| then Min4(|grid[t]|, |grid[t + 1]| - 1, |grid[t + 2]| - 2, |grid[t + 3]| - 3) else 0
  }

  function DownMatch(grid: seq<seq<char>>): (nat, nat) -> bool {
    (t: nat, c: nat) =>
      t + 4 <= |grid| && c < |grid[t]| && c + 1 < |grid[t + 1]| && c + 2 < |grid[t + 2]| && c + 3 < |grid[t + 3]|
      && IsXmas(DownDiagonal(grid, t, c))
  }

  function UpWidth(grid: seq<seq<char>>): nat -> nat {
    (t: nat) =>
      if t + 4 <= |grid| then Min4(|grid[t + 3]|, |grid[t + 2]| - 1, |grid[t + 1]| - 2, |grid[t]| - 3) else 0
  }

  function UpMatch(grid: seq<seq<char>>): (nat, nat) -> bool {
    (t: nat, c: nat) =>
      t + 4 <= |grid| && c < |grid[t + 3]| && c + 1 < |grid[t + 2]| && c + 2 < |grid[t + 1]| && c + 3 < |grid[t]|
      && IsXmas(UpDiagonal(grid, t, c))
  }

  /** Matches read down a column, over every window of four rows. */
  function Vertical(grid: seq<seq<char>>): (r: nat)
    ensures |grid| < 4 ==> r == 0
  {
    Count2(Windows(|grid|, 4), ColumnWidth(grid), ColumnMatch(grid))
  }

  /** Matches on both kinds of diagonal, over every window of four rows. */
  function Diagonal(grid: seq<seq<char>>): (r: nat)
    requires SlicesExist(grid)
    ensures |grid| < 4 ==> r == 0
  {
    Count2(Windows(|grid|, 4), DownWidth(grid), DownMatch(grid))
    + Count2(Windows(|grid|, 4), UpWidth(grid), UpMatch(grid))
  }

  /** The part 1 answer. */
  function SolvePart1(grid: seq<seq<char>>): (r: nat)
    requires SlicesExist(grid)
    ensures |grid| < 4 ==> r == Horizontal(grid)
  {
    Horizontal(grid) + Vertical(grid) + Diagonal(grid)
  }

  /** The (top row, column) positions reading XMAS or SAMX downwards. */
  function VerticalMatches(grid: seq<seq<char>>): set<(nat, nat)> {
    set t: nat, c: nat | t + 4 <= |grid| && c < |grid[t]| && c < |grid[t + 1]| && c < |grid[t + 2]|
                         && c < |grid[t + 3]| && IsXmas(Column(grid, t, c)) :: (t, c)
  }

  /** The positions reading XMAS or SAMX down and to the right. */
  function DownMatches(grid: seq<seq<char>>): set<(nat, nat)> {
    set t: nat, c: nat | t + 4 <= |grid| && c < |grid[t]| && c + 1 < |grid[t + 1]| && c + 2 < |grid[t + 2]|
                         && c + 3 < |grid[t + 3]| && IsXmas(DownDiagonal(grid, t, c)) :: (t, c)
  }

  /** The positions reading XMAS or SAMX up and to the right. */
  function UpMatches(grid: seq<seq<char>>): set<(nat, nat)> {
    set t: nat, c: nat | t + 4 <= |grid| && c < |grid[t + 3]| && c + 1 < |grid[t + 2]| && c + 2 < |grid[t + 1]|
                         && c + 3 < |grid[t]| && IsXmas(UpDiagonal(grid, t, c)) :: (t, c)
  }

  lemma {:induction false} VerticalPairs(grid: seq<seq<char>>)
    ensures Pairs(Windows(|grid|, 4), ColumnWidth(grid), ColumnMatch(grid)) == VerticalMatches(grid)
  {
    forall x | x in VerticalMatches(grid) ensures x in Pairs(Windows(|grid|, 4), ColumnWidth(grid), ColumnMatch(grid)) {
      var (t, c) := x;
      assert c < ColumnWidth(grid)(t);
    }
  }

  lemma {:induction false} DownPairs(grid: seq<seq<char>>)
    ensures Pairs(Windows(|grid|, 4), DownWidth(grid), DownMatch(grid)) == DownMatches(grid)
  {
    forall x | x in DownMatches(grid) ensures x in Pairs(Windows(|grid|, 4), DownWidth(grid), DownMatch(grid)) {
      var (t, c) := x;
      Min4Below(|grid[t]|, |grid[t + 1]| - 1, |grid[t + 2]| - 2, |grid[t + 3]| - 3, c);
      assert t < Windows(|grid|, 4);
      assert c < DownWidth(grid)(t);
      assert DownMatch(grid)(t, c);
    }
    forall x | x in Pairs(Windows(|grid|, 4), DownWidth(grid), DownMatch(grid)) ensures x in DownMatches(grid) {
      var (t, c) := x;
      assert DownMatch(grid)(t, c);
    }
  }

  lemma {:induction false} UpPairs(grid: seq<seq<char>>)
    ensures Pairs(Windows(|grid|, 4), UpWidth(grid), UpMatch(grid)) == UpMatches(grid)
  {
    forall x | x in UpMatches(grid) ensures x in Pairs(Windows(|grid|, 4), UpWidth(grid), UpMatch(grid)) {
      var (t, c) := x;
      Min4Below(|grid[t + 3]|, |grid[t + 2]| - 1, |grid[t + 1]| - 2, |grid[t]| - 3, c);
      assert t < Windows(|grid|, 4);
      assert c < UpWidth(grid)(t);
      assert UpMatch(grid)(t, c);
    }
    forall x | x in Pairs(Windows(|grid|, 4), UpWidth(grid), UpMatch(grid)) ensures x in UpMatches(grid) {
      var (t, c) := x;
      assert UpMatch(grid)(t, c);
    }
  }

  /**
   * Part 1 counts every matching read exactly once: the answer is the
   * number of row positions plus the number of column positions plus the
   * number of positions on each kind of diagonal that read XMAS or SAMX.
   */
  lemma {:induction false} Part1CountsMatches(grid: seq<seq<char>>)
    requires SlicesExist(grid)
    ensures SolvePart1(grid)
            == |HorizontalMatches(grid)| + |VerticalMatches(grid)| + |DownMatches(grid)| + |UpMatches(grid)|
  {
    HorizontalCountsMatches(grid);
    Count2IsCard(Windows(|grid|, 4), ColumnWidth(grid), ColumnMatch(grid));
    VerticalPairs(grid);
    Count2IsCard(Windows(|grid|, 4), DownWidth(grid), DownMatch(grid));
    DownPairs(grid);
    Count2IsCard(Windows(|grid|, 4), UpWidth(grid), UpMatch(grid));
    UpPairs(grid);
  }

  // ---------------------------------------------------------------- Part 2

  predicate IsMas(w: seq<char>) {
    w == "MAS" || w == "SAM"
  }

  /** The corner test of part 2, corners listed top-left, top-right, bottom-right, bottom-left. */
  predicate CornersMatch(tl: char, tr: char, br: char, bl: char) {
    var corners := [tl, tr, br, bl];
    corners == "MMSS" || corners == "MSSM" || corners == "SSMM" || corners == "SMMS"
  }

  /** The four accepted corner patterns are exactly the ways both diagonals spell MAS. */
  lemma {:induction false} CornersAreTwoMas(tl: char, tr: char, br: char, bl: char)
    ensures CornersMatch(tl, tr, br, bl) <==> IsMas([tl, 'A', br]) && IsMas([tr, 'A', bl])
  {
  }

  /** The 3×3 window with top-left corner (t, c) holds an X of two MAS words. */
  predicate IsXMasAt(grid: seq<seq<char>>, t: nat, c: nat)
    requires t + 3 <= |grid| && c + 3 <= |grid[t]| && c + 3 <= |grid[t + 1]| && c + 3 <= |grid[t + 2]|
  {
    grid[t + 1][c + 1] == 'A' && CornersMatch(grid[t][c], grid[t][c + 2], grid[t + 2][c + 2], grid[t + 2][c])
  }

  function BlockWidth(grid: seq<seq<char>>): nat -> nat {
    (t: nat) =>
      if t + 3 <= |grid| then Min4(Windows(|grid[t]|, 3), Windows(|grid[t + 1]|, 3), Windows(|grid[t + 2]|, 3), Windows(|grid[t + 2]|, 3))
      else 0
  }

  function BlockMatch(grid: seq<seq<char>>): (nat, nat) -> bool {
    (t: nat, c: nat) =>
      t + 3 <= |grid| && c + 3 <= |grid[t]| && c + 3 <= |grid[t + 1]| && c + 3 <= |grid[t + 2]|
      && IsXMasAt(grid, t, c)
  }

  /** The part 2 answer: X-MAS windows over every window of three rows. */
  function SolvePart2(grid: seq<seq<char>>): (r: nat)
    ensures |grid| < 3 ==> r == 0
  {
    Count2(Windows(|grid|, 3), BlockWidth(grid), BlockMatch(grid))
  }

  /** The top-left corners of the 3×3 windows whose two diagonals both read MAS or SAM through an 'A'. */
  function Crossings(grid: seq<seq<char>>): set<(nat, nat)> {
    set t: nat, c: nat | t + 3 <= |grid| && c + 3 <= |grid[t]| && c + 3 <= |grid[t + 1]| && c + 3 <= |grid[t + 2]|
                         && grid[t + 1][c + 1] == 'A'
                         && IsMas([grid[t][c], grid[t + 1][c + 1], grid[t + 2][c + 2]])
                         && IsMas([grid[t][c + 2], grid[t + 1][c + 1], grid[t + 2][c]]) :: (t, c)
  }

  lemma {:induction false} CrossingPairs(grid: seq<seq<char>>)
    ensures Pairs(Windows(|grid|, 3), BlockWidth(grid), BlockMatch(grid)) == Crossings(grid)
  {
    forall x | x in Crossings(grid) ensures x in Pairs(Windows(|grid|, 3), BlockWidth(grid), BlockMatch(grid)) {
      var (t, c) := x;
      CornersAreTwoMas(grid[t][c], grid[t][c + 2], grid[t + 2][c + 2], grid[t + 2][c]);
      Min4Below(Windows(|grid[t]|, 3), Windows(|grid[t + 1]|, 3), Windows(|grid[t + 2]|, 3), Windows(|grid[t + 2]|, 3), c);
      assert t < Windows(|grid|, 3);
      assert c < BlockWidth(grid)(t);
    }
    forall x | x in Pairs(Windows(|grid|, 3), BlockWidth(grid), BlockMatch(grid)) ensures x in Crossings(grid) {
      var (t, c) := x;
      CornersAreTwoMas(grid[t][c], grid[t][c + 2], grid[t + 2][c + 2], grid[t + 2][c]);
    }
  }

  /**
   * Part 2 counts each 3×3 window at most once, and exactly those whose
   * centre is 'A' and whose two diagonals both read MAS or SAM.
   */
  lemma {:induction false} Part2CountsCrossings(grid: seq<seq<char>>)
    ensures SolvePart2(grid) == |Crossings(grid)|
  {
    Count2IsCard(Windows(|grid|, 3), BlockWidth(grid), BlockMatch(grid));
    CrossingPairs(grid);
  }
}
