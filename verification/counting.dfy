/**
 * Counting helpers shared by the puzzle models: how many indices below a
 * bound satisfy a predicate, and the same over a ragged two-dimensional
 * index space. Each count is tied to the size of the corresponding set.
 */
module Counting {

  /** The number of k in [0, n) with p(k). */
  function Count(n: nat, p: nat -> bool): (c: nat)
    ensures c <= n
  {
    if n == 0 then 0 else Count(n - 1, p) + (if p(n - 1) then 1 else 0)
  }

  /** The number of pairs (i, k) with i < n, k < m(i) and p(i, k). */
  function Count2(n: nat, m: nat -> nat, p: (nat, nat) -> bool): nat {
    if n == 0 then 0 else Count2(n - 1, m, p) + Count(m(n - 1), Row(p, n - 1))
  }

  /** The indices at which a sequence of flags is set. */
  function Holds(flags: seq<bool>): nat -> bool {
    (k: nat) => k < |flags| && flags[k]
  }

  /** Row i of a two-place predicate. */
  function Row(p: (nat, nat) -> bool, i: nat): nat -> bool {
    (k: nat) => p(i, k)
  }

  /** `Count` is the size of the set it counts. */
  lemma {:induction false} CountIsCard(n: nat, p: nat -> bool)
    ensures Count(n, p) == |set k: nat | k < n && p(k)|
  {
    if n > 0 {
      CountIsCard(n - 1, p);
      var below := set k: nat | k < n - 1 && p(k);
      if p(n - 1) {
        assert (set k: nat | k < n && p(k)) == below + {n - 1};
      } else {
        assert (set k: nat | k < n && p(k)) == below;
      }
    }
  }

  /** The pairs (i, k) with k < j and p(i, k): one row of a two-dimensional count. */
  function RowPairs(i: nat, j: nat, p: (nat, nat) -> bool): set<(nat, nat)> {
    set k: nat | k < j && p(i, k) :: (i, k)
  }

  /** The pairs (i, k) with i < n, k < m(i) and p(i, k). */
  function Pairs(n: nat, m: nat -> nat, p: (nat, nat) -> bool): set<(nat, nat)> {
    set i: nat, k: nat | i < n && k < m(i) && p(i, k) :: (i, k)
  }

  /** The pairs of one row i, counted. */
  lemma {:induction false} RowIsCard(i: nat, j: nat, p: (nat, nat) -> bool)
    ensures Count(j, Row(p, i)) == |RowPairs(i, j, p)|
  {
    if j > 0 {
      RowIsCard(i, j - 1, p);
      if p(i, j - 1) {
        assert RowPairs(i, j, p) == RowPairs(i, j - 1, p) + {(i, j - 1)};
      } else {
        assert RowPairs(i, j, p) == RowPairs(i, j - 1, p);
      }
    }
  }

  lemma {:induction false} PairsSplit(n: nat, m: nat -> nat, p: (nat, nat) -> bool)
    requires n > 0
    ensures Pairs(n, m, p) == Pairs(n - 1, m, p) + RowPairs(n - 1, m(n - 1), p)
    ensures Pairs(n - 1, m, p) !! RowPairs(n - 1, m(n - 1), p)
  {
  }

  /** `Count2` is the size of the set of pairs it counts. */
  lemma {:induction false} Count2IsCard(n: nat, m: nat -> nat, p: (nat, nat) -> bool)
    ensures Count2(n, m, p) == |Pairs(n, m, p)|
  {
    if n > 0 {
      Count2IsCard(n - 1, m, p);
      RowIsCard(n - 1, m(n - 1), p);
      var x, y := |Pairs(n - 1, m, p)|, |RowPairs(n - 1, m(n - 1), p)|;
      assert Count2(n, m, p) == x + y;
      PairsSplit(n, m, p);
    } else {
      assert Pairs(n, m, p) == {};
    }
  }

  /** Counting two predicates that agree below the bound gives the same number. */
  lemma {:induction false} CountCongruent(n: nat, p: nat -> bool, q: nat -> bool)
    requires forall k: nat | k < n :: p(k) == q(k)
    ensures Count(n, p) == Count(n, q)
  {
    if n > 0 {
      CountCongruent(n - 1, p, q);
    }
  }

  /** A subset is no larger than its superset. */
  lemma {:induction false} SubsetCard<T>(a: set<T>, b: set<T>)
    requires a <= b
    ensures |a| <= |b|
    decreases |a|
  {
    if a != {} {
      var x :| x in a;
      SubsetCard(a - {x}, b - {x});
    }
  }

  /** Two sets with nothing in common have as many members together as apart. */
  lemma {:induction false} DisjointUnionCard<T>(a: set<T>, b: set<T>)
    requires a * b == {}
    ensures |a + b| == |a| + |b|
  {
  }

  /** Counting over a longer range never finds fewer. */
  lemma {:induction false} CountMonotone(n: nat, n': nat, p: nat -> bool)
    requires n <= n'
    ensures Count(n, p) <= Count(n', p)
    decreases n' - n
  {
    if n < n' {
      CountMonotone(n, n' - 1, p);
    }
  }

  /** An index below the bound that satisfies the predicate makes the count positive. */
  lemma {:induction false} CountWitness(n: nat, p: nat -> bool, k: nat)
    requires k < n && p(k)
    ensures Count(n, p) > 0
  {
    CountMonotone(k + 1, n, p);
  }

  /** A pair inside the ragged range that satisfies the predicate makes the count positive. */
  lemma {:induction false} Count2Witness(n: nat, m: nat -> nat, p: (nat, nat) -> bool, i: nat, k: nat)
    requires i < n && k < m(i) && p(i, k)
    ensures Count2(n, m, p) > 0
    decreases n
  {
    if i < n - 1 {
      Count2Witness(n - 1, m, p, i, k);
    } else {
      CountWitness(m(i), Row(p, i), k);
    }
  }

  /** Nothing inside the ragged range satisfies the predicate, so nothing is counted. */
  lemma {:induction false} Count2None(n: nat, m: nat -> nat, p: (nat, nat) -> bool)
    requires forall i: nat, k: nat | i < n && k < m(i) :: !p(i, k)
    ensures Count2(n, m, p) == 0
  {
    if n > 0 {
      Count2None(n - 1, m, p);
      RowNone(m(n - 1), Row(p, n - 1));
    }
  }

  lemma {:induction false} RowNone(n: nat, p: nat -> bool)
    requires forall k: nat | k < n :: !p(k)
    ensures Count(n, p) == 0
  {
    if n > 0 {
      RowNone(n - 1, p);
    }
  }

  /** Counting over more rows never finds fewer. */
  lemma {:induction false} Count2Grows(n: nat, n': nat, m: nat -> nat, p: (nat, nat) -> bool)
    requires n <= n'
    ensures Count2(n, m, p) <= Count2(n', m, p)
    decreases n' - n
  {
    if n < n' {
      Count2Grows(n, n' - 1, m, p);
    }
  }
}
