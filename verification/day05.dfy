/**
 * Day 5, "Print Queue": page-ordering rules `x|y` say that page x must be
 * printed before page y. Updates already in order contribute their middle
 * page to part 1; the others are sorted with the rules as a comparator and
 * contribute their new middle page to part 2.
 */
module PrintQueue {

  /** For each page, the pages that must come after it. */
  type Rules = map<int, set<int>>

  /** `rules.get(a)`, with a missing entry read as no successors. */
  function Successors(rules: Rules, a: int): set<int> {
    if a in rules then rules[a] else {}
  }

  /** The rule `a|b` is present. */
  predicate Before(rules: Rules, a: int, b: int) {
    b in Successors(rules, a)
  }

  // ------------------------------------------------------- ordering check

  /** The pages of `update` up to and including index k. */
  function Seen(update: seq<int>, k: nat): set<int>
    requires k < |update|
  {
    set i | 0 <= i <= k :: update[i]
  }

  /**
   * The loop of `is_ordered_correctly` from index k on: insert the page into
   * the seen set, then fail if any of its successors has been seen. It fails
   * iff some page at or after k has a rule-successor at or before its own
   * position.
   */
  predicate OrderedFrom(update: seq<int>, rules: Rules, k: nat): (ok: bool)
    requires k <= |update|
    ensures ok <==> !exists i, j | 0 <= i <= j < |update| && k <= j :: Before(rules, update[j], update[i])
    decreases |update| - k
  {
    if k == |update| then true
    else
      ClashWithSeen(update, rules, k);
      if Successors(rules, update[k]) * Seen(update, k) != {} then false
      else OrderedFrom(update, rules, k + 1)
  }

  /** The seen set meets page k's successors iff page k has a rule-successor at or before it. */
  lemma {:induction false} ClashWithSeen(update: seq<int>, rules: Rules, k: nat)
    requires k < |update|
    ensures Successors(rules, update[k]) * Seen(update, k) != {}
            <==> exists i | 0 <= i <= k :: Before(rules, update[k], update[i])
  {
    var common := Successors(rules, update[k]) * Seen(update, k);
    if common != {} {
      assert exists b :: b in common by {
        if forall b :: b !in common {
          assert false;
        }
      }
      var b :| b in common;
      var i :| 0 <= i <= k && update[i] == b;
      assert Before(rules, update[k], update[i]);
    } else {
      forall i | 0 <= i <= k ensures !Before(rules, update[k], update[i]) {
        assert update[i] in Seen(update, k);
        assert update[i] !in common;
      }
    }
  }

  /** Some page has a rule-successor at or before its own position. */
  predicate HasViolation(update: seq<int>, rules: Rules) {
    exists i, j | 0 <= i <= j < |update| :: Before(rules, update[j], update[i])
  }

  /**
   * `is_ordered_correctly` fails exactly when some page has a rule-successor
   * among the pages at or before it, the page itself included; so the
   * empty update is in order.
   */
  predicate IsOrderedCorrectly(update: seq<int>, rules: Rules): (ok: bool)
    ensures ok <==> !HasViolation(update, rules)
  {
    OrderedFrom(update, rules, 0)
  }

  // ------------------------------------------------------------ comparator

  datatype Ordering = Less | Equal | Greater

  /** The comparator handed to `sort_by`. */
  function Compare(rules: Rules, a: int, b: int): (o: Ordering)
    ensures o == Less <==> Before(rules, a, b)
    ensures o == Greater <==> !Before(rules, a, b) && Before(rules, b, a)
  {
    if Before(rules, a, b) then Less
    else if Before(rules, b, a) then Greater
    else Equal
  }

  /** Where the rules never ask for both `a|b` and `b|a`, swapping the arguments flips the answer. */
  lemma {:induction false} CompareAntisymmetric(rules: Rules, a: int, b: int)
    requires !(Before(rules, a, b) && Before(rules, b, a))
    ensures Compare(rules, a, b) == Less <==> Compare(rules, b, a) == Greater
    ensures Compare(rules, a, b) == Equal <==> Compare(rules, b, a) == Equal
  {
  }

  // --------------------------------------------------------------- sorting

  /** Insert `x` before the first element it does not compare Greater to. */
  function Insert(rules: Rules, x: int, s: seq<int>): (r: seq<int>)
    ensures multiset(r) == multiset(s) + multiset{x}
  {
    if |s| == 0 then [x]
    else if Compare(rules, x, s[0]) == Greater then
      assert s == [s[0]] + s[1..];
      [s[0]] + Insert(rules, x, s[1..])
    else [x] + s
  }

  /**
   * `sort_pages`: a comparison sort with the rules as comparator. The
   * standard library's algorithm is not modelled; insertion sort stands in.
   */
  function SortPages(rules: Rules, pages: seq<int>): (r: seq<int>)
    ensures multiset(r) == multiset(pages)
    ensures |r| == |pages|
  {
    if |pages| == 0 then []
    else
      assert pages == [pages[0]] + pages[1..];
      Insert(rules, pages[0], SortPages(rules, pages[1..]))
  }

  /**
   * The rules order the given pages strictly and totally: no page precedes
   * itself, of two distinct pages exactly one precedes the other, and
   * precedence is transitive. Puzzle inputs satisfy this on every update.
   */
  ghost predicate StrictTotalOn(rules: Rules, pages: set<int>) {
    && (forall a | a in pages :: !Before(rules, a, a))
    && (forall a, b | a in pages && b in pages && a != b :: Before(rules, a, b) != Before(rules, b, a))
    && (forall a, b, c | a in pages && b in pages && c in pages && Before(rules, a, b) && Before(rules, b, c) ::
          Before(rules, a, c))
  }

  /** Every earlier element compares Less than every later one. */
  predicate SortedBy(rules: Rules, s: seq<int>) {
    forall i, j | 0 <= i < j < |s| :: Before(rules, s[i], s[j])
  }

  lemma {:induction false} InsertSorted(rules: Rules, x: int, s: seq<int>, pages: set<int>)
    requires StrictTotalOn(rules, pages) && x in pages && (forall k | 0 <= k < |s| :: s[k] in pages)
    requires x !in multiset(s)
    requires SortedBy(rules, s)
    ensures SortedBy(rules, Insert(rules, x, s))
  {
    if |s| > 0 {
      assert s[0] in multiset(s);
      if Compare(rules, x, s[0]) == Greater {
        var t := s[1..];
        assert forall k | 0 <= k < |t| :: t[k] == s[k + 1];
        assert x !in multiset(t) by {
          assert s == [s[0]] + t;
        }
        InsertSorted(rules, x, t, pages);
        var r := Insert(rules, x, t);
        forall k | 0 <= k < |t| ensures Before(rules, s[0], t[k]) {
          assert Before(rules, s[0], s[k + 1]);
        }
        HeadBeforeInserted(rules, s[0], x, t, r);
        HeadSorted(rules, s[0], r);
        assert Insert(rules, x, s) == [s[0]] + r;
      } else {
        assert Before(rules, x, s[0]);
        forall j | 1 <= j < |s| ensures Before(rules, x, s[j]) {
          assert Before(rules, s[0], s[j]);
        }
      }
    }
  }

  /** A page before x and before every page of t is before every page of t with x inserted. */
  lemma {:induction false} HeadBeforeInserted(rules: Rules, h: int, x: int, t: seq<int>, r: seq<int>)
    requires Before(rules, h, x) && forall k | 0 <= k < |t| :: Before(rules, h, t[k])
    requires multiset(r) == multiset(t) + multiset{x}
    ensures forall j | 0 <= j < |r| :: Before(rules, h, r[j])
  {
    forall j | 0 <= j < |r| ensures Before(rules, h, r[j]) {
      assert r[j] in multiset(r);
      if r[j] != x {
        assert r[j] in multiset(t);
        var k :| 0 <= k < |t| && t[k] == r[j];
      }
    }
  }

  /** A sorted list stays sorted with a page before all of it put in front. */
  lemma {:induction false} HeadSorted(rules: Rules, h: int, r: seq<int>)
    requires forall j | 0 <= j < |r| :: Before(rules, h, r[j])
    requires SortedBy(rules, r)
    ensures SortedBy(rules, [h] + r)
  {
    var s := [h] + r;
    forall i, j | 0 <= i < j < |s| ensures Before(rules, s[i], s[j]) {
      if i > 0 {
        assert s[i] == r[i - 1] && s[j] == r[j - 1];
      } else {
        assert s[j] == r[j - 1];
      }
    }
  }

  /** Under a strict total order on its distinct pages, `sort_pages` leaves them sorted. */
  lemma {:induction false} SortPagesSorted(rules: Rules, pages: seq<int>)
    requires StrictTotalOn(rules, set k | 0 <= k < |pages| :: pages[k])
    requires forall i, j | 0 <= i < j < |pages| :: pages[i] != pages[j]
    ensures SortedBy(rules, SortPages(rules, pages))
  {
    if |pages| > 0 {
      var all := set k | 0 <= k < |pages| :: pages[k];
      var rest := pages[1..];
      assert (set k | 0 <= k < |rest| :: rest[k]) <= all by {
        forall k | 0 <= k < |rest| ensures rest[k] in all {
          assert rest[k] == pages[k + 1];
        }
      }
      SortPagesSorted(rules, rest);
      var s := SortPages(rules, rest);
      forall k | 0 <= k < |s| ensures s[k] in all {
        assert s[k] in multiset(rest);
      }
      assert pages[0] !in multiset(rest);
      assert pages[0] in all;
      InsertSorted(rules, pages[0], s, all);
    }
  }

  /** A sorted update has no violation, so sorting repairs every update. */
  lemma {:induction false} SortedIsOrdered(rules: Rules, s: seq<int>)
    requires StrictTotalOn(rules, set k | 0 <= k < |s| :: s[k])
    requires SortedBy(rules, s)
    ensures IsOrderedCorrectly(s, rules)
  {
    forall i, j | 0 <= i <= j < |s| ensures !Before(rules, s[j], s[i]) {
      if i < j {
        assert Before(rules, s[i], s[j]);
        assert s[i] != s[j] by {
          assert !Before(rules, s[i], s[i]);
        }
      }
    }
  }

  /** An update already in order comes out of `sort_pages` unchanged. */
  lemma {:induction false} SortKeepsOrdered(rules: Rules, pages: seq<int>)
    requires StrictTotalOn(rules, set k | 0 <= k < |pages| :: pages[k])
    requires forall i, j | 0 <= i < j < |pages| :: pages[i] != pages[j]
    requires IsOrderedCorrectly(pages, rules)
    ensures SortPages(rules, pages) == pages
  {
    if |pages| > 0 {
      var all := set k | 0 <= k < |pages| :: pages[k];
      var rest := pages[1..];
      assert (set k | 0 <= k < |rest| :: rest[k]) <= all by {
        forall k | 0 <= k < |rest| ensures rest[k] in all {
          assert rest[k] == pages[k + 1];
        }
      }
      forall i, j | 0 <= i <= j < |rest| ensures !Before(rules, rest[j], rest[i]) {
        assert rest[j] == pages[j + 1] && rest[i] == pages[i + 1];
      }
      SortKeepsOrdered(rules, rest);
      if |rest| > 0 {
        assert pages[0] in all && pages[1] in all && pages[0] != pages[1];
        assert !Before(rules, pages[1], pages[0]);
      }
      assert pages == [pages[0]] + rest;
    }
  }

  // --------------------------------------------------------------- answers

  function Middle(u: seq<int>): int
    requires |u| > 0
  {
    u[|u| / 2]
  }

  /**
   * `solve`: middle pages of in-order updates go to the first answer, middle
   * pages of the sorted others to the second. An empty update would index
   * out of bounds, so every update must be non-empty. When the rules order
   * every update, each update contributes to exactly one answer, and what it
   * contributes is the middle page of its sorted form: the two answers
   * together are the sum of the sorted middles.
   */
  function Solve(rules: Rules, updates: seq<seq<int>>): (answers: (int, int))
    requires forall k | 0 <= k < |updates| :: |updates[k]| > 0
    ensures WellOrderedUpdates(rules, updates) ==> answers.0 + answers.1 == SortedMiddles(rules, updates)
    ensures (forall k | 0 <= k < |updates| :: IsOrderedCorrectly(updates[k], rules)) ==> answers.1 == 0
    ensures (forall k | 0 <= k < |updates| :: !IsOrderedCorrectly(updates[k], rules)) ==> answers.0 == 0
  {
    if |updates| == 0 then (0, 0)
    else
      var init := updates[..|updates| - 1];
      var prev := Solve(rules, init);
      var u := updates[|updates| - 1];
      LastUpdate(rules, updates);
      if IsOrderedCorrectly(u, rules) then (prev.0 + Middle(u), prev.1)
      else (prev.0, prev.1 + Middle(SortPages(rules, u)))
  }

  /** The sum of the middle pages of every update once sorted. */
  function SortedMiddles(rules: Rules, updates: seq<seq<int>>): int
    requires forall k | 0 <= k < |updates| :: |updates[k]| > 0
  {
    if |updates| == 0 then 0
    else SortedMiddles(rules, updates[..|updates| - 1]) + Middle(SortPages(rules, updates[|updates| - 1]))
  }

  /** The rules order each update's pages strictly and totally, and no update repeats a page. */
  ghost predicate WellOrderedUpdates(rules: Rules, updates: seq<seq<int>>) {
    forall k | 0 <= k < |updates| ::
      && StrictTotalOn(rules, set m | 0 <= m < |updates[k]| :: updates[k][m])
      && (forall i, j | 0 <= i < j < |updates[k]| :: updates[k][i] != updates[k][j])
  }

  /**
   * What `solve` needs of the last update: the earlier ones inherit the
   * ordering facts, and an in-order last update has the middle of its
   * sorted form.
   */
  lemma {:induction false} LastUpdate(rules: Rules, updates: seq<seq<int>>)
    requires |updates| > 0 && forall k | 0 <= k < |updates| :: |updates[k]| > 0
    ensures forall k | 0 <= k < |updates| - 1 :: updates[..|updates| - 1][k] == updates[k]
    ensures WellOrderedUpdates(rules, updates) ==> WellOrderedUpdates(rules, updates[..|updates| - 1])
    ensures WellOrderedUpdates(rules, updates) && IsOrderedCorrectly(updates[|updates| - 1], rules)
            ==> SortPages(rules, updates[|updates| - 1]) == updates[|updates| - 1]
  {
    var init := updates[..|updates| - 1];
    var u := updates[|updates| - 1];
    if WellOrderedUpdates(rules, updates) {
      assert WellOrderedUpdates(rules, init) by {
        forall k | 0 <= k < |init| ensures init[k] == updates[k] { }
      }
      if IsOrderedCorrectly(u, rules) {
        SortKeepsOrdered(rules, u);
      }
    }
  }
}
