/**
 * Day 13, "Claw Contraption": a claw machine has two buttons that move the
 * claw by fixed steps, A costing 3 tokens and B costing 1, and a prize at a
 * fixed position. Part 1 tries every number of A presses from 0 to 100,
 * works out the B presses that would land exactly on the prize, and keeps
 * the cheapest; a machine with no way to win adds nothing to the answer.
 *
 * The source divides with Rust's `i64` operators, which truncate toward
 * zero; `Quot` and `Rem` model them. Its stopping test compares one step
 * of button A with the prize instead of the distance already travelled, so
 * it also accepts negative numbers of B presses; `Rule` selects the test
 * as written or as intended. Overflow of `i64` is not modelled.
 */
module ClawContraption {

  import opened Options
  import Decimal

  datatype Machine = Machine(buttonA: (int, int), buttonB: (int, int), prize: (int, int))

  /**
   * What the parser guarantees (every number is written with digits only)
   * plus what `rx % bx` needs to not panic: button B moves on both axes.
   */
  predicate WellFormed(m: Machine) {
    && m.buttonA.0 >= 0 && m.buttonA.1 >= 0
    && m.buttonB.0 > 0 && m.buttonB.1 > 0
    && m.prize.0 >= 0 && m.prize.1 >= 0
  }

  /** Rust's `/` on `i64`: the quotient rounded toward zero. */
  function Quot(x: int, d: int): int
    requires d > 0
  {
    if x >= 0 then x / d else -((-x) / d)
  }

  /** Rust's `%` on `i64`: the remainder takes the sign of the dividend. */
  function Rem(x: int, d: int): int
    requires d > 0
  {
    if x >= 0 then x % d else -((-x) % d)
  }

  /** a presses of A and b presses of B put the claw exactly on the prize. */
  predicate Reaches(m: Machine, a: int, b: int) {
    a * m.buttonA.0 + b * m.buttonB.0 == m.prize.0 && a * m.buttonA.1 + b * m.buttonB.1 == m.prize.1
  }

  /** The stopping test of the search as written, and as evidently intended. */
  datatype Rule = AsWritten | Intended

  /**
   * Whether the search stops before trying a presses of A. As written the
   * test (`ax > px || ay > py`) looks at one step of A and so does not
   * depend on a; as intended it looks at the distance a presses travel.
   */
  predicate Stops(m: Machine, rule: Rule, a: int) {
    match rule
    case AsWritten => m.buttonA.0 > m.prize.0 || m.buttonA.1 > m.prize.1
    case Intended => a * m.buttonA.0 > m.prize.0 || a * m.buttonA.1 > m.prize.1
  }

  /**
   * The ways to win the search finds: a in 0 ..= 100 presses of A and b of
   * B reaching the prize. As written, any integer b, provided the step test
   * lets the search start at all; as intended, any b that is a number of
   * presses.
   */
  predicate Candidate(m: Machine, rule: Rule, a: int, b: int) {
    && 0 <= a <= 100 && Reaches(m, a, b)
    && match rule
       case AsWritten => !Stops(m, AsWritten, 0)
       case Intended => b >= 0
  }

  /** t is the cheapest cost 3a + b among the candidates. */
  ghost predicate IsFewest(m: Machine, rule: Rule, t: int) {
    && (exists a, b :: Candidate(m, rule, a, b) && 3 * a + b == t)
    && (forall a, b | Candidate(m, rule, a, b) :: t <= 3 * a + b)
  }

  /**
   * The B presses the checks for a presses of A accept: both remaining
   * distances divide exactly by B's steps, with the same quotient. The
   * source's later `bx == 0 || by == 0` test never fires here, because a
   * zero step would already have panicked in the remainder.
   */
  function BPresses(m: Machine, a: int): (r: Option<int>)
    requires WellFormed(m)
    ensures forall b :: r == Some(b) <==> Reaches(m, a, b)
  {
    var rx := m.prize.0 - a * m.buttonA.0;
    var ry := m.prize.1 - a * m.buttonA.1;
    ChecksAccept(m, a);
    if Rem(rx, m.buttonB.0) != 0 || Rem(ry, m.buttonB.1) != 0 then None
    else
      var b := Quot(rx, m.buttonB.0);
      if b != Quot(ry, m.buttonB.1) then None else Some(b)
  }

  /** The remainder is zero exactly when d divides x, and then the quotient is the cofactor. */
  lemma {:induction false} DividesExactly(x: int, d: int, b: int)
    requires d > 0
    ensures Rem(x, d) == 0 && Quot(x, d) == b <==> x == b * d
  {
    if x >= 0 {
      assert x == (x / d) * d + x % d;
      if x == b * d {
        MultipleUnique(x, d, b, x / d);
      }
    } else {
      var y := -x;
      assert y == (y / d) * d + y % d;
      if x == b * d {
        assert y == (-b) * d;
        MultipleUnique(y, d, -b, y / d);
      }
    }
  }

  /** x == b * d and x == q * d + r with 0 <= r < d force b == q and r == 0. */
  lemma {:induction false} MultipleUnique(x: int, d: int, b: int, q: int)
    requires d > 0 && x == b * d && 0 <= x - q * d < d
    ensures b == q && x - q * d == 0
  {
    assert x - q * d == (b - q) * d;
    Decimal.NonzeroMultiple(b - q, d);
  }

  /** Both remainders zero with equal quotients b is exactly b presses of B reaching the prize. */
  lemma {:induction false} ChecksAccept(m: Machine, a: int)
    requires WellFormed(m)
    ensures var rx, ry := m.prize.0 - a * m.buttonA.0, m.prize.1 - a * m.buttonA.1;
            forall b :: (&& Rem(rx, m.buttonB.0) == 0 && Rem(ry, m.buttonB.1) == 0
                         && Quot(rx, m.buttonB.0) == b && Quot(ry, m.buttonB.1) == b)
                        <==> Reaches(m, a, b)
  {
    var rx := m.prize.0 - a * m.buttonA.0;
    var ry := m.prize.1 - a * m.buttonA.1;
    forall b ensures (&& Rem(rx, m.buttonB.0) == 0 && Rem(ry, m.buttonB.1) == 0
                      && Quot(rx, m.buttonB.0) == b && Quot(ry, m.buttonB.1) == b)
                     <==> Reaches(m, a, b)
    {
      DividesExactly(rx, m.buttonB.0, b);
      DividesExactly(ry, m.buttonB.1, b);
    }
  }

  /** The cheaper of the best so far and a new cost, as `Option::min` on two `Some`s. */
  function Keep(best: Option<int>, t: int): (r: Option<int>)
    ensures r.Some? && r.value <= t && (best.Some? ==> r.value <= best.value)
    ensures r == Some(t) || r == best
  {
    if best.Some? && best.value <= t then best else Some(t)
  }

  /**
   * The `for a in 0 ..= 100` loop from a onward, with the cheapest cost so
   * far in `best`.
   */
  function Scan(m: Machine, rule: Rule, a: nat, best: Option<int>): (r: Option<int>)
    requires WellFormed(m) && a <= 101
    ensures best.Some? ==> r.Some? && r.value <= best.value
    ensures r.Some? ==> r == best || exists a', b :: a <= a' <= 100 && Reaches(m, a', b) && 3 * a' + b == r.value
    decreases 101 - a
  {
    if a > 100 || Stops(m, rule, a) then best
    else
      match BPresses(m, a)
      case None => Scan(m, rule, a + 1, best)
      case Some(b) => Scan(m, rule, a + 1, Keep(best, 3 * a + b))
  }

  /** A product of naturals grows with its first factor. */
  lemma {:induction false} MulMonotone(a: int, a': int, s: int)
    requires 0 <= a <= a' && s >= 0
    ensures a * s <= a' * s
  {
    assert a' * s - a * s == (a' - a) * s;
  }

  /** Once the intended test stops the search, no later number of A presses leaves a non-negative number of B presses. */
  lemma {:induction false} NoCandidateAfterStop(m: Machine, rule: Rule, a: nat)
    requires WellFormed(m) && Stops(m, rule, a)
    ensures forall a', b | a <= a' && Candidate(m, rule, a', b) :: false
  {
    forall a', b | a <= a' && Candidate(m, rule, a', b) ensures false {
      if rule == Intended {
        if a * m.buttonA.0 > m.prize.0 {
          MulMonotone(0, b, m.buttonB.0);
          MulMonotone(a, a', m.buttonA.0);
        } else {
          MulMonotone(0, b, m.buttonB.1);
          MulMonotone(a, a', m.buttonA.1);
        }
      }
    }
  }

  /** While the search runs, the b the checks accept is exactly the candidate with a presses of A. */
  lemma {:induction false} AcceptedIsCandidate(m: Machine, rule: Rule, a: nat, accepted: Option<int>)
    requires WellFormed(m) && a <= 100 && !Stops(m, rule, a)
    requires rule == AsWritten ==> !Stops(m, rule, 0)
    requires accepted == BPresses(m, a)
    ensures forall b :: accepted == Some(b) <==> Candidate(m, rule, a, b)
  {
    forall b ensures accepted == Some(b) <==> Candidate(m, rule, a, b) {
    }
  }

  /**
   * r is the cheapest of `best` and the candidates with at least a presses
   * of A: nothing exactly when there is neither, and otherwise one of them
   * that is no dearer than any.
   */
  ghost predicate FindsFewest(m: Machine, rule: Rule, a: int, best: Option<int>, r: Option<int>) {
    && (r == None <==> best == None && forall a', b | a <= a' :: !Candidate(m, rule, a', b))
    && (r.Some? ==> r == best || exists a', b :: a <= a' && Candidate(m, rule, a', b) && 3 * a' + b == r.value)
    && (r.Some? && best.Some? ==> r.value <= best.value)
    && (forall a', b | a <= a' && Candidate(m, rule, a', b) :: r.Some? && r.value <= 3 * a' + b)
  }

  /** The scan from a finds the cheapest of `best` and the candidates with at least a presses of A. */
  lemma {:induction false} ScanFindsFewest(m: Machine, rule: Rule, a: nat, best: Option<int>)
    requires WellFormed(m) && a <= 101
    requires rule == AsWritten ==> !Stops(m, rule, 0) || (a == 0 && best == None)
    ensures FindsFewest(m, rule, a, best, Scan(m, rule, a, best))
    decreases 101 - a
  {
    if a > 100 || Stops(m, rule, a) {
      if a <= 100 {
        NoCandidateAfterStop(m, rule, a);
      }
      FewestNone(m, rule, a, best);
    } else {
      match BPresses(m, a)
      case None =>
        AcceptedIsCandidate(m, rule, a, None);
        assert Scan(m, rule, a, best) == Scan(m, rule, a + 1, best);
        ScanFindsFewest(m, rule, a + 1, best);
        FewestSkip(m, rule, a, best, Scan(m, rule, a + 1, best));
      case Some(b) =>
        AcceptedIsCandidate(m, rule, a, Some(b));
        var best' := Keep(best, 3 * a + b);
        assert Scan(m, rule, a, best) == Scan(m, rule, a + 1, best');
        ScanFindsFewest(m, rule, a + 1, best');
        FewestTake(m, rule, a, best, b, Scan(m, rule, a + 1, best'));
    }
  }

  /** With no candidate from a presses of A on, the cheapest is `best` itself. */
  lemma {:induction false} FewestNone(m: Machine, rule: Rule, a: int, best: Option<int>)
    requires forall a', b | a <= a' :: !Candidate(m, rule, a', b)
    ensures FindsFewest(m, rule, a, best, best)
  {
  }

  /** With no candidate at a presses of A, the cheapest from a + 1 on is the cheapest from a on. */
  lemma {:induction false} FewestSkip(m: Machine, rule: Rule, a: int, best: Option<int>, r: Option<int>)
    requires forall b :: !Candidate(m, rule, a, b)
    requires FindsFewest(m, rule, a + 1, best, r)
    ensures FindsFewest(m, rule, a, best, r)
  {
    forall a', b | a <= a' && Candidate(m, rule, a', b) ensures a + 1 <= a' {
      assert a' != a;
    }
  }

  /** With the single candidate b at a presses of A kept in `best`, the cheapest from a + 1 on is the cheapest from a on. */
  lemma {:induction false} FewestTake(m: Machine, rule: Rule, a: int, best: Option<int>, b: int, r: Option<int>)
    requires forall b' :: Candidate(m, rule, a, b') <==> b' == b
    requires FindsFewest(m, rule, a + 1, Keep(best, 3 * a + b), r)
    ensures FindsFewest(m, rule, a, best, r)
  {
    assert Candidate(m, rule, a, b);
    forall a', b' | a <= a' && Candidate(m, rule, a', b') ensures r.Some? && r.value <= 3 * a' + b' {
      if a' == a {
        assert b' == b;
      }
    }
  }

  /**
   * The cost the source finds for one machine: `None` exactly when there is
   * no candidate, otherwise the cheapest candidate's cost.
   */
  function MachineTokens(m: Machine, rule: Rule): (r: Option<int>)
    requires WellFormed(m)
    ensures r == None <==> forall a, b :: !Candidate(m, rule, a, b)
    ensures r.Some? ==> IsFewest(m, rule, r.value)
  {
    ScanFindsFewest(m, rule, 0, None);
    Scan(m, rule, 0, None)
  }

  /** `solve_part_1`: the machines' costs summed, 0 for a machine that cannot be won. */
  function SolvePart1(machines: seq<Machine>, rule: Rule): (answer: int)
    requires forall k | 0 <= k < |machines| :: WellFormed(machines[k])
    ensures rule == Intended ==> answer >= 0
  {
    if |machines| == 0 then 0
    else
      var rest := SolvePart1(machines[1..], rule);
      match MachineTokens(machines[0], rule)
      case None => rest
      case Some(t) => t + rest
  }

  /** As intended, every candidate costs at least nothing, so the cheapest does too. */
  lemma {:induction false} IntendedTokensNonNegative(m: Machine)
    requires WellFormed(m)
    ensures var r := MachineTokens(m, Intended); r.Some? ==> r.value >= 0
  {
  }

  /**
   * Buttons A = (10, 10) and B = (1, 1) with the prize at (20, 20): the
   * step test never stops the search, and 100 presses of A with -980 of B
   * "reach" the prize, so the cost found is at most 300 - 980 = -680. As
   * intended the cheapest way is 2 presses of A and none of B: 6 tokens.
   */
  lemma {:induction false} NegativePressesCounted(m: Machine)
    requires m == Machine((10, 10), (1, 1), (20, 20))
    ensures MachineTokens(m, AsWritten).Some? && MachineTokens(m, AsWritten).value <= -680
    ensures MachineTokens(m, Intended) == Some(6)
  {
    NegativeWin(m);
    CheapestWin(m);
  }

  /** As written, 100 presses of A and -980 of B count as a win. */
  lemma {:induction false} NegativeWin(m: Machine)
    requires m == Machine((10, 10), (1, 1), (20, 20))
    ensures MachineTokens(m, AsWritten).Some? && MachineTokens(m, AsWritten).value <= -680
  {
    Scale(100, m.buttonA.0, 10);
    Scale(100, m.buttonA.1, 10);
    Scale(-980, m.buttonB.0, 1);
    Scale(-980, m.buttonB.1, 1);
    assert Candidate(m, AsWritten, 100, -980);
  }

  /** As intended, 2 presses of A and none of B are the cheapest win. */
  lemma {:induction false} CheapestWin(m: Machine)
    requires m == Machine((10, 10), (1, 1), (20, 20))
    ensures MachineTokens(m, Intended) == Some(6)
  {
    TwoZeroWins(m);
    NoCheaperWin(m);
    FewestIsTokens((a, b) => Candidate(m, Intended, a, b), 2, 0, MachineTokens(m, Intended));
  }

  /** On that machine 2 presses of A and none of B win as intended. */
  lemma {:induction false} TwoZeroWins(m: Machine)
    requires m == Machine((10, 10), (1, 1), (20, 20))
    ensures Candidate(m, Intended, 2, 0)
  {
    Scale(2, m.buttonA.0, 10);
    Scale(2, m.buttonA.1, 10);
    Scale(0, m.buttonB.0, 1);
    Scale(0, m.buttonB.1, 1);
  }

  /**
   * Whatever the candidates are, a candidate no other one undercuts fixes
   * any answer that meets the contract of `MachineTokens`.
   */
  lemma {:induction false} FewestIsTokens(cand: (int, int) -> bool, a: int, b: int, r: Option<int>)
    requires cand(a, b)
    requires forall a', b' | cand(a', b') :: 3 * a + b <= 3 * a' + b'
    requires r == None <==> forall a', b' :: !cand(a', b')
    requires r.Some? ==> exists a', b' :: cand(a', b') && 3 * a' + b' == r.value
    requires r.Some? ==> forall a', b' | cand(a', b') :: r.value <= 3 * a' + b'
    ensures r == Some(3 * a + b)
  {
    assert r.Some?;
    var a', b' :| cand(a', b') && 3 * a' + b' == r.value;
    assert 3 * a + b <= 3 * a' + b';
  }

  /** On that machine every intended win costs at least 6 tokens. */
  lemma {:induction false} NoCheaperWin(m: Machine)
    requires m == Machine((10, 10), (1, 1), (20, 20))
    ensures forall a, b | Candidate(m, Intended, a, b) :: 3 * 2 + 0 <= 3 * a + b
  {
    forall a, b | Candidate(m, Intended, a, b) ensures 3 * 2 + 0 <= 3 * a + b {
      Scale(a, m.buttonA.0, 10);
      Scale(b, m.buttonB.0, 1);
    }
  }

  /**
   * Buttons A = (30, 1) and B = (1, 1) with the prize at (20, 20): 20
   * presses of B alone win, but A's single step already passes the prize,
   * so the search as written stops before trying anything.
   */
  lemma {:induction false} BigStepStopsTooSoon(m: Machine)
    requires m == Machine((30, 1), (1, 1), (20, 20))
    ensures MachineTokens(m, AsWritten) == None
    ensures MachineTokens(m, Intended) == Some(20)
  {
    StepTestStops(m);
    Scale(0, m.buttonA.0, 30);
    Scale(0, m.buttonA.1, 1);
    Scale(20, m.buttonB.0, 1);
    Scale(20, m.buttonB.1, 1);
    assert Candidate(m, Intended, 0, 20);
    OnlyWayToWin(m);
    var r := MachineTokens(m, Intended);
    var a, b :| Candidate(m, Intended, a, b) && 3 * a + b == r.value;
  }

  lemma {:induction false} StepTestStops(m: Machine)
    requires m == Machine((30, 1), (1, 1), (20, 20))
    ensures MachineTokens(m, AsWritten) == None
  {
    assert Stops(m, AsWritten, 0);
    assert forall a, b :: !Candidate(m, AsWritten, a, b);
  }

  /** On the example machine only 0 presses of A and 20 of B reach the prize. */
  lemma {:induction false} OnlyWayToWin(m: Machine)
    requires m == Machine((30, 1), (1, 1), (20, 20))
    ensures forall a, b | Candidate(m, Intended, a, b) :: a == 0 && b == 20
  {
    forall a, b | Candidate(m, Intended, a, b) ensures a == 0 && b == 20 {
      Scale(a, m.buttonA.0, 30);
      Scale(a, m.buttonA.1, 1);
      Scale(b, m.buttonB.0, 1);
      Scale(b, m.buttonB.1, 1);
    }
  }

  /** Multiplying equals by the same number: keeps the example machines' steps linear for the solver. */
  lemma {:induction false} Scale(a: int, x: int, c: int)
    requires x == c
    ensures a * x == a * c
  {
  }
}
