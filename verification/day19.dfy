/**
 * Day 19, "Linen Layout", the trie: towel patterns are stored in a prefix
 * tree whose nodes carry an end-of-word flag and a child per next colour.
 */
module Trie {

  import opened Options

  datatype Trie = Node(isEnd: bool, children: map<char, Trie>)

  /** `Trie::new`: no word ends here and nothing hangs below. */
  function New(): (t: Trie)
    ensures !t.isEnd && t.children == map[]
    ensures forall w :: !Contains(t, w)
  {
    Node(false, map[])
  }

  /** `get`: the child for c, if there is one. */
  function Get(t: Trie, c: char): (r: Option<Trie>)
    ensures r.Some? <==> c in t.children
    ensures r.Some? ==> r.value == t.children[c]
  {
    if c in t.children then Some(t.children[c]) else None
  }

  /** `is_end`. */
  function IsEnd(t: Trie): bool {
    t.isEnd
  }

  /**
   * `contains`: follow the word's characters from the node; the word is
   * there exactly when no step falls off the trie and the walk ends on an
   * end flag.
   */
  function Contains(t: Trie, w: seq<char>): (r: bool)
    ensures r <==> Walk(t, w).Some? && Walk(t, w).value.isEnd
    decreases |w|
  {
    if |w| == 0 then IsEnd(t)
    else match Get(t, w[0])
      case None => false
      case Some(next) => Contains(next, w[1..])
  }

  /** The node reached by following the characters of w, if every step has a child. */
  function Walk(t: Trie, w: seq<char>): Option<Trie>
    decreases |w|
  {
    if |w| == 0 then Some(t)
    else match Get(t, w[0])
      case None => None
      case Some(next) => Walk(next, w[1..])
  }

  /** Walking w and then one more character c is walking w + [c]. */
  lemma {:induction false} WalkSnoc(t: Trie, w: seq<char>, c: char)
    ensures Walk(t, w + [c]) == (match Walk(t, w) case None => None case Some(n) => Get(n, c))
    decreases |w|
  {
    if |w| == 0 {
      assert w + [c] == [c];
      assert [c][1..] == [];
    } else {
      assert (w + [c])[0] == w[0];
      assert (w + [c])[1..] == w[1..] + [c];
      if w[0] in t.children {
        WalkSnoc(t.children[w[0]], w[1..], c);
      }
    }
  }

  /**
   * `insert`: walk the word, creating missing children as fresh nodes, and
   * flag the last node. Afterwards the trie holds exactly the words it held
   * before and the inserted one.
   */
  function Insert(t: Trie, s: seq<char>): (r: Trie)
    ensures forall w :: Contains(r, w) <==> Contains(t, w) || w == s
    decreases |s|
  {
    if |s| == 0 then
      InsertHere(t);
      t.(isEnd := true)
    else
      var child := if s[0] in t.children then t.children[s[0]] else New();
      var sub := Insert(child, s[1..]);
      var r := t.(children := t.children[s[0] := sub]);
      InsertBelow(t, s, child, sub, r);
      r
  }

  lemma {:induction false} InsertHere(t: Trie)
    ensures forall w :: Contains(t.(isEnd := true), w) <==> Contains(t, w) || w == []
  {
    forall w ensures Contains(t.(isEnd := true), w) <==> Contains(t, w) || w == [] {
      if |w| > 0 {
        assert Get(t.(isEnd := true), w[0]) == Get(t, w[0]);
      }
    }
  }

  lemma {:induction false} InsertBelow(t: Trie, s: seq<char>, child: Trie, sub: Trie, r: Trie)
    requires |s| > 0
    requires child == if s[0] in t.children then t.children[s[0]] else New()
    requires forall w :: Contains(sub, w) <==> Contains(child, w) || w == s[1..]
    requires r == t.(children := t.children[s[0] := sub])
    ensures forall w :: Contains(r, w) <==> Contains(t, w) || w == s
  {
    forall w ensures Contains(r, w) <==> Contains(t, w) || w == s {
      if |w| > 0 && w[0] == s[0] {
        assert Contains(r, w) == Contains(sub, w[1..]);
        assert w == s <==> w[1..] == s[1..] by {
          if w[1..] == s[1..] {
            assert w == [w[0]] + w[1..] && s == [s[0]] + s[1..];
          }
        }
        if s[0] !in t.children {
          assert !Contains(New(), w[1..]);
        }
      } else if |w| > 0 {
        assert Get(r, w[0]) == Get(t, w[0]);
      }
    }
  }

  /** `from_iter`: insert the words one after another into a new trie. */
  function FromIter(words: seq<seq<char>>): (t: Trie)
    ensures forall w :: Contains(t, w) <==> w in words
    decreases |words|
  {
    if |words| == 0 then New()
    else
      var t := FromIter(words[..|words| - 1]);
      var r := Insert(t, words[|words| - 1]);
      assert forall w :: w in words <==> w in words[..|words| - 1] || w == words[|words| - 1] by {
        assert words == words[..|words| - 1] + [words[|words| - 1]];
      }
      r
  }
}

/**
 * Day 19, "Linen Layout": can a design (a string of colours) be laid out
 * from the towel patterns, and in how many ways?
 */
module LinenLayout {

  import opened Options
  import opened Trie

  // ---------------------------------------------------------------- Segmentations

  /** The parts laid end to end. */
  function Concat(parts: seq<seq<char>>): seq<char>
    decreases |parts|
  {
    if |parts| == 0 then [] else parts[0] + Concat(parts[1..])
  }

  /** `parts` is a layout of s: non-empty patterns of the trie that together spell s. */
  ghost predicate IsLayout(root: Trie, s: seq<char>, parts: seq<seq<char>>) {
    Concat(parts) == s && forall i | 0 <= i < |parts| :: |parts[i]| > 0 && Contains(root, parts[i])
  }

  /** s can be cut into one or more non-empty patterns. */
  ghost predicate Splits(root: Trie, s: seq<char>)
    decreases |s|
  {
    exists k | 1 <= k <= |s| :: Contains(root, s[..k]) && (k == |s| || Splits(root, s[k..]))
  }

  /** Every layout of s, built by choosing the first pattern. */
  ghost function Layouts(root: Trie, s: seq<char>): set<seq<seq<char>>>
    decreases |s|
  {
    if |s| == 0 then {[]}
    else set k, rest | 1 <= k <= |s| && Contains(root, s[..k]) && rest in Layouts(root, s[k..]) :: [s[..k]] + rest
  }

  lemma {:induction false} ConcatCons(p: seq<char>, rest: seq<seq<char>>)
    ensures Concat([p] + rest) == p + Concat(rest)
  {
    assert ([p] + rest)[1..] == rest;
  }

  /** Every member of `Layouts` is a layout of s. */
  lemma {:induction false} LayoutsSound(root: Trie, s: seq<char>, parts: seq<seq<char>>)
    requires parts in Layouts(root, s)
    ensures IsLayout(root, s, parts)
    decreases |s|
  {
    if |s| > 0 {
      var k, rest :| 1 <= k <= |s| && Contains(root, s[..k]) && rest in Layouts(root, s[k..]) && parts == [s[..k]] + rest;
      var p := s[..k];
      LayoutsSound(root, s[k..], rest);
      ConsLayout(root, p, s[k..], rest);
      assert p + s[k..] == s;
    }
  }

  /** A non-empty pattern in front of a layout of t is a layout of p + t. */
  lemma {:induction false} ConsLayout(root: Trie, p: seq<char>, t: seq<char>, rest: seq<seq<char>>)
    requires |p| > 0 && Contains(root, p) && IsLayout(root, t, rest)
    ensures IsLayout(root, p + t, [p] + rest)
  {
    var parts := [p] + rest;
    ConcatCons(p, rest);
    forall i | 0 <= i < |parts| ensures |parts[i]| > 0 && Contains(root, parts[i]) {
      if i > 0 {
        assert parts[i] == rest[i - 1];
      }
    }
  }

  /** Every layout of s is a member of `Layouts`. */
  lemma {:induction false} LayoutsComplete(root: Trie, s: seq<char>, parts: seq<seq<char>>)
    requires IsLayout(root, s, parts)
    ensures parts in Layouts(root, s)
    decreases |s|
  {
    if |s| > 0 {
      assert |parts| > 0;
      var p, rest := parts[0], parts[1..];
      assert parts == [p] + rest;
      ConcatCons(p, rest);
      var k := |p|;
      assert forall i | 0 <= i < |rest| :: rest[i] == parts[i + 1];
      assert 1 <= k <= |s| && s[..k] == p && s[k..] == Concat(rest);
      LayoutsComplete(root, s[k..], rest);
    }
  }

  /** `Layouts` holds exactly the layouts of s. */
  lemma {:induction false} LayoutsExact(root: Trie, s: seq<char>, parts: seq<seq<char>>)
    ensures parts in Layouts(root, s) <==> IsLayout(root, s, parts)
  {
    if parts in Layouts(root, s) {
      LayoutsSound(root, s, parts);
    }
    if IsLayout(root, s, parts) {
      LayoutsComplete(root, s, parts);
    }
  }

  /** The number of layouts, counted by the length of the first pattern: those up to length j. */
  function WaysUpTo(root: Trie, s: seq<char>, j: nat): nat
    requires j <= |s|
    decreases |s|, 0, j
  {
    if j == 0 then 0
    else WaysUpTo(root, s, j - 1) + (if Contains(root, s[..j]) then Ways(root, s[j..]) else 0)
  }

  /** The number of layouts of s. */
  function Ways(root: Trie, s: seq<char>): nat
    decreases |s|, 1, 0
  {
    if |s| == 0 then 1 else WaysUpTo(root, s, |s|)
  }

  /** The layouts whose first pattern is at most j long. */
  ghost function LayoutsUpTo(root: Trie, s: seq<char>, j: nat): set<seq<seq<char>>>
    requires j <= |s|
  {
    set k, rest | 1 <= k <= j && Contains(root, s[..k]) && rest in Layouts(root, s[k..]) :: [s[..k]] + rest
  }

  /** Layouts with a first pattern of length exactly j. */
  ghost function LayoutsAt(root: Trie, s: seq<char>, j: nat): set<seq<seq<char>>>
    requires 1 <= j <= |s|
  {
    set rest | rest in Layouts(root, s[j..]) && Contains(root, s[..j]) :: [s[..j]] + rest
  }

  lemma {:induction false} PrependCard(p: seq<char>, rests: set<seq<seq<char>>>)
    ensures |set rest | rest in rests :: [p] + rest| == |rests|
    decreases |rests|
  {
    if rests != {} {
      var r :| r in rests;
      var smaller := rests - {r};
      PrependCard(p, smaller);
      var big := set rest | rest in rests :: [p] + rest;
      var small := set rest | rest in smaller :: [p] + rest;
      assert forall r' :: ([p] + r')[1..] == r';
      assert [p] + r !in small;
      assert big == small + {[p] + r};
    }
  }

  /** Layouts whose first patterns differ in length are different layouts. */
  lemma {:induction false} LayoutsUpToSplit(root: Trie, s: seq<char>, j: nat)
    requires 1 <= j <= |s|
    ensures LayoutsUpTo(root, s, j) == LayoutsUpTo(root, s, j - 1) + LayoutsAt(root, s, j)
    ensures LayoutsUpTo(root, s, j - 1) * LayoutsAt(root, s, j) == {}
  {
    var before, at := LayoutsUpTo(root, s, j - 1), LayoutsAt(root, s, j);
    forall x | x in before ensures x !in at {
      var k, rest :| 1 <= k <= j - 1 && Contains(root, s[..k]) && rest in Layouts(root, s[k..]) && x == [s[..k]] + rest;
      assert |x[0]| == k;
      assert forall rest' :: ([s[..j]] + rest')[0] == s[..j];
    }
  }

  /** The layouts with a first pattern of length j number as many as the layouts of what follows it. */
  lemma {:induction false} LayoutsAtCard(root: Trie, s: seq<char>, j: nat)
    requires 1 <= j <= |s|
    ensures |LayoutsAt(root, s, j)| == if Contains(root, s[..j]) then |Layouts(root, s[j..])| else 0
  {
    if Contains(root, s[..j]) {
      PrependCard(s[..j], Layouts(root, s[j..]));
      assert LayoutsAt(root, s, j) == set rest | rest in Layouts(root, s[j..]) :: [s[..j]] + rest;
    } else {
      assert LayoutsAt(root, s, j) == {};
    }
  }

  /** The layouts split by the length of the first pattern: counting them is `WaysUpTo`. */
  lemma {:induction false} LayoutsUpToCard(root: Trie, s: seq<char>, j: nat)
    requires j <= |s|
    ensures |LayoutsUpTo(root, s, j)| == WaysUpTo(root, s, j)
    decreases |s|, 0, j
  {
    if j > 0 {
      LayoutsUpToCard(root, s, j - 1);
      LayoutsUpToSplit(root, s, j);
      LayoutsAtCard(root, s, j);
      if Contains(root, s[..j]) {
        LayoutsCard(root, s[j..]);
      }
    } else {
      assert LayoutsUpTo(root, s, 0) == {};
    }
  }

  /** `Ways` counts the layouts. */
  lemma {:induction false} LayoutsCard(root: Trie, s: seq<char>)
    ensures |Layouts(root, s)| == Ways(root, s)
    decreases |s|, 1, 0
  {
    if |s| > 0 {
      LayoutsUpToCard(root, s, |s|);
      assert Layouts(root, s) == LayoutsUpTo(root, s, |s|);
    }
  }

  /** A non-empty design has a layout exactly when it can be cut into patterns. */
  lemma {:induction false} WaysPositive(root: Trie, s: seq<char>)
    requires |s| > 0
    ensures Ways(root, s) > 0 <==> Splits(root, s)
    decreases |s|, 1, 0
  {
    WaysUpToPositive(root, s, |s|);
  }

  lemma {:induction false} WaysUpToPositive(root: Trie, s: seq<char>, j: nat)
    requires 0 < |s| && j <= |s|
    ensures WaysUpTo(root, s, j) > 0 <==> exists k | 1 <= k <= j :: Contains(root, s[..k]) && (k == |s| || Splits(root, s[k..]))
    decreases |s|, 0, j
  {
    if j > 0 {
      WaysUpToPositive(root, s, j - 1);
      if j < |s| {
        WaysPositive(root, s[j..]);
      }
    }
  }

  // ---------------------------------------------------------------- Part 1

  /** Some non-empty prefix of s completes a word from `current`, and the rest is empty or splits into patterns. */
  ghost predicate PrefixSplits(current: Trie, root: Trie, s: seq<char>) {
    exists k | 1 <= k <= |s| :: Contains(current, s[..k]) && (k == |s| || Splits(root, s[k..]))
  }

  /**
   * The inner `is_possible`: walk the remaining characters from `current`;
   * wherever a pattern ends, try the rest of the design from the root; when
   * the characters run out, the design is possible if a pattern ends there.
   * On a non-empty rest it succeeds exactly when some prefix of the rest
   * completes a word from `current` and what follows is empty or can be cut
   * into patterns.
   */
  function IsPossible(s: seq<char>, current: Trie, root: Trie): (r: bool)
    ensures |s| > 0 ==> (r <==> PrefixSplits(current, root, s))
    decreases |s|
  {
    if |s| == 0 then IsEnd(current)
    else match Get(current, s[0])
      case None =>
        NoFirstStep(s, current, root);
        false
      case Some(next) =>
        var viaRoot, viaNext := IsPossible(s[1..], root, root), IsPossible(s[1..], next, root);
        IsPossibleStep(s, current, root, viaRoot, viaNext);
        (IsEnd(next) && viaRoot) || viaNext
  }

  /** Without a child for the first character, no prefix is a word from `current`. */
  lemma {:induction false} NoFirstStep(s: seq<char>, current: Trie, root: Trie)
    requires |s| > 0 && s[0] !in current.children
    ensures !PrefixSplits(current, root, s)
  {
    forall k | 1 <= k <= |s| ensures !Contains(current, s[..k]) {
      assert s[..k][0] == s[0];
    }
  }

  /**
   * One step of `is_possible`: given what the two recursive calls on the
   * rest decide, ending a pattern on the first character and restarting at
   * the root, or carrying on below it, covers every prefix.
   */
  lemma {:induction false} IsPossibleStep(s: seq<char>, current: Trie, root: Trie, viaRoot: bool, viaNext: bool)
    requires |s| > 0 && s[0] in current.children
    requires |s| == 1 ==> viaRoot == root.isEnd && viaNext == current.children[s[0]].isEnd
    requires |s| > 1 ==> (viaRoot <==> PrefixSplits(root, root, s[1..]))
    requires |s| > 1 ==> (viaNext <==> PrefixSplits(current.children[s[0]], root, s[1..]))
    ensures (current.children[s[0]].isEnd && viaRoot) || viaNext <==> PrefixSplits(current, root, s)
  {
    var next := current.children[s[0]];
    var rest := s[1..];
    assert forall k | 1 <= k <= |s| :: s[..k][1..] == rest[..k - 1];
    assert forall k | 1 <= k <= |s| :: s[k..] == rest[k - 1..];
    assert Contains(current, s[..1]) == IsEnd(next) by {
      assert s[..1][1..] == [];
    }
    if |rest| > 0 {
      assert viaRoot == Splits(root, rest);
      if (IsEnd(next) && viaRoot) || viaNext {
        if IsEnd(next) && Splits(root, rest) {
          assert Contains(current, s[..1]) && Splits(root, s[1..]);
        } else {
          var k' :| 1 <= k' <= |rest| && Contains(next, rest[..k']) && (k' == |rest| || Splits(root, rest[k'..]));
          assert Contains(current, s[..k' + 1]);
        }
      } else {
        forall k | 1 <= k <= |s| && Contains(current, s[..k]) ensures k < |s| && !Splits(root, s[k..]) {
          if k > 1 {
            assert Contains(next, rest[..k - 1]);
          }
        }
      }
    } else {
      assert |s| == 1 && s[..1] == s;
    }
  }

  /**
   * `design_is_possible`: an empty design is possible exactly when the
   * empty pattern was stored; any other exactly when it can be cut into
   * non-empty patterns.
   */
  function DesignIsPossible(design: seq<char>, trie: Trie): (r: bool)
    ensures |design| == 0 ==> (r <==> Contains(trie, []))
    ensures |design| > 0 ==> (r <==> Splits(trie, design))
  {
    IsPossible(design, trie, trie)
  }

  /** `solve_part_1`: how many designs are possible. */
  function SolvePart1(trie: Trie, designs: seq<seq<char>>): (r: nat)
    ensures r <= |designs|
    decreases |designs|
  {
    if |designs| == 0 then 0
    else SolvePart1(trie, designs[..|designs| - 1]) + (if DesignIsPossible(designs[|designs| - 1], trie) then 1 else 0)
  }

  // ---------------------------------------------------------------- Part 2

  /**
   * `count_arrangements`: `counts[i]` is the number of layouts of the
   * suffix from i, filled from the back; each is the sum, over the patterns
   * found walking the trie along the suffix, of the count past the pattern.
   */
  method CountArrangements(design: seq<char>, trie: Trie) returns (r: nat)
    ensures r == Ways(trie, design)
    ensures r == |Layouts(trie, design)|
  {
    var n := |design|;
    var counts: seq<nat> := seq(n + 1, m => if m == n then 1 else 0);
    var i := n;
    while i > 0
      invariant 0 <= i <= n && |counts| == n + 1
      invariant forall m | i <= m <= n :: counts[m] == Ways(trie, design[m..])
    {
      i := i - 1;
      var suffix := design[i..];
      var total := Tally(suffix, trie, counts[i + 1..]);
      counts := counts[i := total];
    }
    assert design[0..] == design;
    r := counts[0];
    LayoutsCard(trie, design);
  }

  /**
   * The inner loop of `count_arrangements` for one suffix: walk the trie
   * along it, adding the count past every pattern end, and stop where the
   * trie has no child. `later[j]` is the count for the suffix after j + 1
   * characters.
   */
  method Tally(suffix: seq<char>, trie: Trie, later: seq<nat>) returns (total: nat)
    requires |suffix| > 0 && |later| == |suffix|
    requires forall j | 0 <= j < |suffix| :: later[j] == Ways(trie, suffix[j + 1..])
    ensures total == Ways(trie, suffix)
  {
    total := 0;
    var node := trie;
    var j := 0;
    while j < |suffix|
      invariant j <= |suffix| && Walk(trie, suffix[..j]) == Some(node)
      invariant total == WaysUpTo(trie, suffix, j)
    {
      WalkSnoc(trie, suffix[..j], suffix[j]);
      assert suffix[..j + 1] == suffix[..j] + [suffix[j]];
      match Get(node, suffix[j])
      case None =>
        NoLongerPatterns(trie, suffix, j + 1);
        return;
      case Some(next) =>
        if IsEnd(next) {
          total := total + later[j];
        }
        node := next;
        j := j + 1;
    }
  }

  /** Once the walk along the suffix fails, no longer prefix is a pattern, so the count is complete. */
  lemma {:induction false} NoLongerPatterns(trie: Trie, s: seq<char>, j: nat)
    requires 0 < j <= |s| && Walk(trie, s[..j]) == None
    ensures WaysUpTo(trie, s, |s|) == WaysUpTo(trie, s, j - 1)
    decreases |s| - j
  {
    assert !Contains(trie, s[..j]);
    if j < |s| {
      WalkSnoc(trie, s[..j], s[j]);
      assert s[..j + 1] == s[..j] + [s[j]];
      NoLongerPatterns(trie, s, j + 1);
    }
  }

  /** The total of the arrangement counts. */
  function TotalWays(trie: Trie, designs: seq<seq<char>>): nat
    decreases |designs|
  {
    if |designs| == 0 then 0
    else TotalWays(trie, designs[..|designs| - 1]) + Ways(trie, designs[|designs| - 1])
  }

  /** `solve_part_2`: the sum of `count_arrangements` over the designs. */
  method SolvePart2(trie: Trie, designs: seq<seq<char>>) returns (r: nat)
    ensures r == TotalWays(trie, designs)
  {
    r := 0;
    var k := 0;
    while k < |designs|
      invariant k <= |designs| && r == TotalWays(trie, designs[..k])
    {
      var c := CountArrangements(designs[k], trie);
      assert designs[..k + 1][..k] == designs[..k];
      r := r + c;
      k := k + 1;
    }
    assert designs[..k] == designs;
  }

  /**
   * Non-empty designs (the only ones parsing keeps) that are possible each
   * have at least one arrangement, so part 2's total is at least part 1's
   * count.
   */
  lemma {:induction false} PossibleHaveWays(trie: Trie, designs: seq<seq<char>>)
    requires forall k | 0 <= k < |designs| :: |designs[k]| > 0
    ensures SolvePart1(trie, designs) <= TotalWays(trie, designs)
    decreases |designs|
  {
    if |designs| > 0 {
      var last := designs[|designs| - 1];
      PossibleHaveWays(trie, designs[..|designs| - 1]);
      WaysPositive(trie, last);
    }
  }
}
