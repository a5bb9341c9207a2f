/**
 * Day 7, "Bridge Repair": an equation is a target and a list of operands;
 * it is solvable when operators placed in the gaps, evaluated strictly
 * left to right, produce the target. Part 1 allows + and *, part 2 also
 * allows concatenation of decimal digits. Machine-word overflow is not
 * modelled: values are unbounded naturals.
 */
module BridgeRepair {

  import opened Decimal

  datatype Op = Add | Mul | Concat

  // ---------------------------------------------------------------- Reference semantics

  /** The number whose decimal text is a's text followed by b's text. */
  function Concatenate(a: nat, b: nat): (r: nat)
    ensures r >= a && r >= b
  {
    a * Pow10(Digits(b)) + b
  }

  /** Concatenation appends exactly b's digits: dropping the last Digits(b) digits gives a back. */
  lemma {:induction false} ConcatenateSplits(a: nat, b: nat)
    ensures Concatenate(a, b) / Pow10(Digits(b)) == a
    ensures Concatenate(a, b) % Pow10(Digits(b)) == b
  {
    DivisionUnique(Concatenate(a, b), Pow10(Digits(b)), a, b);
  }

  function Apply(op: Op, acc: nat, x: nat): nat {
    match op
    case Add => acc + x
    case Mul => acc * x
    case Concat => Concatenate(acc, x)
  }

  /** Left-to-right evaluation of acc op[0] xs[0] op[1] xs[1] ... */
  function Eval(acc: nat, ops: seq<Op>, xs: seq<nat>): nat
    requires |ops| == |xs|
    decreases |xs|
  {
    if |xs| == 0 then acc else Eval(Apply(ops[0], acc, xs[0]), ops[1..], xs[1..])
  }

  predicate OpsIn(ops: seq<Op>, allowed: set<Op>) {
    forall k | 0 <= k < |ops| :: ops[k] in allowed
  }

  /** Some choice of operators from `allowed` makes acc, xs evaluate to target. */
  ghost predicate Reachable(acc: nat, xs: seq<nat>, target: nat, allowed: set<Op>) {
    exists ops: seq<Op> | |ops| == |xs| && OpsIn(ops, allowed) :: Eval(acc, ops, xs) == target
  }

  // ---------------------------------------------------------------- Part 1: flag sets

  function Pow2(n: nat): (r: nat)
    ensures r >= 1
  {
    if n == 0 then 1 else 2 * Pow2(n - 1)
  }

  /** `1 & (flags >> i)`: bit i of flags. */
  function Bit(flags: nat, i: nat): (b: nat)
    ensures b < 2
  {
    if i == 0 then flags % 2 else Bit(flags / 2, i - 1)
  }

  /** The `for` loop over the operands from index i: bit i chooses * (1) or + (0). */
  function FlagAcc(acc: nat, xs: seq<nat>, flags: nat, i: nat): nat
    requires i <= |xs|
    decreases |xs| - i
  {
    if i == |xs| then acc
    else FlagAcc(if Bit(flags, i) == 0 then acc + xs[i] else acc * xs[i], xs, flags, i + 1)
  }

  /** `(f .. max).any(...)`: some flag set in [f, max) evaluates to val. */
  function AnyFlags(val: nat, first: nat, xs: seq<nat>, f: nat, max: nat): bool
    decreases max - f
  {
    f < max && (FlagAcc(first, xs, f, 0) == val || AnyFlags(val, first, xs, f + 1, max))
  }

  /**
   * Part 1's `eq_is_posible`: false without operands, else try every flag
   * set below 2^(n-1). It is exact: an equation is solvable iff it has an
   * operand and some choice of + and * in its gaps evaluates to the target.
   */
  function EqIsPossible1(val: nat, operands: seq<nat>): (ok: bool)
    ensures ok <==> |operands| > 0 && Reachable(operands[0], operands[1..], val, {Add, Mul})
  {
    if |operands| == 0 then false
    else
      Part1Characterization(val, operands);
      AnyFlags(val, operands[0], operands[1..], 0, Pow2(|operands| - 1))
  }

  /** The operators a flag set stands for: bit k set means *. */
  function FlagsToOps(flags: nat, n: nat): (ops: seq<Op>)
    ensures |ops| == n && OpsIn(ops, {Add, Mul})
  {
    if n == 0 then [] else [if flags % 2 == 0 then Add else Mul] + FlagsToOps(flags / 2, n - 1)
  }

  /** The flag set standing for a sequence of + and *. */
  function OpsToFlags(ops: seq<Op>): (flags: nat)
    ensures flags < Pow2(|ops|)
  {
    if |ops| == 0 then 0 else (if ops[0] == Mul then 1 else 0) + 2 * OpsToFlags(ops[1..])
  }

  lemma {:induction false} BitMatchesOps(flags: nat, n: nat, i: nat)
    requires i < n
    ensures (Bit(flags, i) == 0) == (FlagsToOps(flags, n)[i] == Add)
  {
    if i > 0 {
      BitMatchesOps(flags / 2, n - 1, i - 1);
    }
  }

  /** Flag sets below 2^n and operator sequences of length n are in one-to-one correspondence. */
  lemma {:induction false} FlagsRoundTrip(ops: seq<Op>)
    requires OpsIn(ops, {Add, Mul})
    ensures FlagsToOps(OpsToFlags(ops), |ops|) == ops
  {
    if |ops| > 0 {
      var rest := OpsToFlags(ops[1..]);
      var f := OpsToFlags(ops);
      assert f % 2 == (if ops[0] == Mul then 1 else 0) && f / 2 == rest;
      FlagsRoundTrip(ops[1..]);
    }
  }

  /** The loop from index i evaluates the remaining operands with the operators the flags name. */
  lemma {:induction false} FlagAccIsEval(acc: nat, xs: seq<nat>, flags: nat, i: nat)
    requires i <= |xs|
    ensures FlagAcc(acc, xs, flags, i) == Eval(acc, FlagsToOps(flags, |xs|)[i..], xs[i..])
    decreases |xs| - i
  {
    if i < |xs| {
      var ops := FlagsToOps(flags, |xs|);
      BitMatchesOps(flags, |xs|, i);
      var next := if Bit(flags, i) == 0 then acc + xs[i] else acc * xs[i];
      FlagAccIsEval(next, xs, flags, i + 1);
      assert ops[i..][1..] == ops[i + 1..] && xs[i..][1..] == xs[i + 1..];
    }
  }

  lemma {:induction false} AnyFlagsIsExists(val: nat, first: nat, xs: seq<nat>, f: nat, max: nat)
    ensures AnyFlags(val, first, xs, f, max) <==> exists g: nat | f <= g < max :: FlagAcc(first, xs, g, 0) == val
    decreases max - f
  {
    if f < max {
      AnyFlagsIsExists(val, first, xs, f + 1, max);
      if FlagAcc(first, xs, f, 0) == val {
        assert exists g: nat | f <= g < max :: FlagAcc(first, xs, g, 0) == val;
      } else {
        forall g: nat | f <= g < max && FlagAcc(first, xs, g, 0) == val ensures f + 1 <= g {
        }
      }
    }
  }

  /** Trying every flag set below 2^(n-1) finds a solution iff some choice of + and * hits the target. */
  lemma {:induction false} Part1Characterization(val: nat, operands: seq<nat>)
    requires |operands| > 0
    ensures AnyFlags(val, operands[0], operands[1..], 0, Pow2(|operands| - 1))
            <==> Reachable(operands[0], operands[1..], val, {Add, Mul})
  {
    var first, xs := operands[0], operands[1..];
    var n := |xs|;
    AnyFlagsIsExists(val, first, xs, 0, Pow2(n));
    if AnyFlags(val, first, xs, 0, Pow2(n)) {
      var g: nat :| g < Pow2(n) && FlagAcc(first, xs, g, 0) == val;
      FlagAccIsEval(first, xs, g, 0);
      assert FlagsToOps(g, n)[0..] == FlagsToOps(g, n) && xs[0..] == xs;
    }
    if Reachable(first, xs, val, {Add, Mul}) {
      var ops: seq<Op> :| |ops| == n && OpsIn(ops, {Add, Mul}) && Eval(first, ops, xs) == val;
      var g := OpsToFlags(ops);
      FlagsRoundTrip(ops);
      FlagAccIsEval(first, xs, g, 0);
      assert FlagsToOps(g, n)[0..] == ops && xs[0..] == xs;
    }
  }

  // ---------------------------------------------------------------- Part 2: recursion with pruning

  /**
   * Part 2's `eq_is_posible` as written: give up once the accumulator
   * exceeds the target; otherwise try concatenation, then +, then *.
   * Whatever it accepts is genuinely solvable with the three operators.
   */
  function EqIsPossible2(acc: nat, target: nat, xs: seq<nat>): (ok: bool)
    ensures ok ==> acc <= target && Reachable(acc, xs, target, AllOps)
    decreases |xs|
  {
    if acc > target then false
    else if |xs| > 0 then
      ReachableStep(acc, xs, target);
      EqIsPossible2(Concatenate(acc, xs[0]), target, xs[1..])
      || EqIsPossible2(acc + xs[0], target, xs[1..])
      || EqIsPossible2(acc * xs[0], target, xs[1..])
    else
      ReachableStep(acc, xs, target);
      target == acc
  }

  /**
   * One step of a witness: no operands left and acc on target, or a witness
   * for the rest after applying one of the three operators to the first.
   */
  lemma {:induction false} ReachableStep(acc: nat, xs: seq<nat>, target: nat)
    ensures |xs| == 0 && target == acc ==> Reachable(acc, xs, target, AllOps)
    ensures |xs| > 0 && Reachable(Concatenate(acc, xs[0]), xs[1..], target, AllOps) ==> Reachable(acc, xs, target, AllOps)
    ensures |xs| > 0 && Reachable(acc + xs[0], xs[1..], target, AllOps) ==> Reachable(acc, xs, target, AllOps)
    ensures |xs| > 0 && Reachable(acc * xs[0], xs[1..], target, AllOps) ==> Reachable(acc, xs, target, AllOps)
  {
    if |xs| == 0 {
      var none: seq<Op> := [];
      assert OpsIn(none, AllOps) && Eval(acc, none, xs) == acc;
    } else {
      if Reachable(Concatenate(acc, xs[0]), xs[1..], target, AllOps) {
        ReachableCons(acc, xs, target, Concat);
      }
      if Reachable(acc + xs[0], xs[1..], target, AllOps) {
        ReachableCons(acc, xs, target, Add);
      }
      if Reachable(acc * xs[0], xs[1..], target, AllOps) {
        ReachableCons(acc, xs, target, Mul);
      }
    }
  }

  /** The same search without the pruning step: the exhaustive check the pruning is meant to speed up. */
  function EqIsPossible2Exhaustive(acc: nat, target: nat, xs: seq<nat>): bool
    decreases |xs|
  {
    if |xs| > 0 then
      EqIsPossible2Exhaustive(Concatenate(acc, xs[0]), target, xs[1..])
      || EqIsPossible2Exhaustive(acc + xs[0], target, xs[1..])
      || EqIsPossible2Exhaustive(acc * xs[0], target, xs[1..])
    else target == acc
  }

  const AllOps: set<Op> := {Add, Mul, Concat}

  /** Prepending one operator to a witness for the rest. */
  lemma {:induction false} ReachableCons(acc: nat, xs: seq<nat>, target: nat, op: Op)
    requires |xs| > 0 && op in AllOps && Reachable(Apply(op, acc, xs[0]), xs[1..], target, AllOps)
    ensures Reachable(acc, xs, target, AllOps)
  {
    var ops: seq<Op> :| |ops| == |xs| - 1 && OpsIn(ops, AllOps) && Eval(Apply(op, acc, xs[0]), ops, xs[1..]) == target;
    var all := [op] + ops;
    assert all[1..] == ops;
    assert Eval(acc, all, xs) == target;
  }

  /** Whatever the exhaustive search accepts has a witness choice of operators. */
  lemma {:induction false} ExhaustiveSound(acc: nat, target: nat, xs: seq<nat>)
    requires EqIsPossible2Exhaustive(acc, target, xs)
    ensures Reachable(acc, xs, target, AllOps)
    decreases |xs|
  {
    if |xs| == 0 {
      var none: seq<Op> := [];
      assert OpsIn(none, AllOps) && Eval(acc, none, xs) == target;
    } else {
      var x, rest := xs[0], xs[1..];
      if EqIsPossible2Exhaustive(Concatenate(acc, x), target, rest) {
        ExhaustiveSound(Concatenate(acc, x), target, rest);
        ReachableCons(acc, xs, target, Concat);
      } else if EqIsPossible2Exhaustive(acc + x, target, rest) {
        ExhaustiveSound(acc + x, target, rest);
        ReachableCons(acc, xs, target, Add);
      } else {
        ExhaustiveSound(acc * x, target, rest);
        ReachableCons(acc, xs, target, Mul);
      }
    }
  }

  /** Every witness choice of operators is found by the exhaustive search. */
  lemma {:induction false} ExhaustiveComplete(acc: nat, target: nat, xs: seq<nat>)
    requires Reachable(acc, xs, target, AllOps)
    ensures EqIsPossible2Exhaustive(acc, target, xs)
    decreases |xs|
  {
    var ops: seq<Op> :| |ops| == |xs| && OpsIn(ops, AllOps) && Eval(acc, ops, xs) == target;
    if |xs| > 0 {
      var x, rest := xs[0], xs[1..];
      assert OpsIn(ops[1..], AllOps);
      assert Reachable(Apply(ops[0], acc, x), rest, target, AllOps);
      ExhaustiveComplete(Apply(ops[0], acc, x), target, rest);
    }
  }

  /** The exhaustive search is exact: it succeeds iff some choice of all three operators hits the target. */
  lemma Part2ExhaustiveCharacterization(acc: nat, target: nat, xs: seq<nat>)
    ensures EqIsPossible2Exhaustive(acc, target, xs) <==> Reachable(acc, xs, target, AllOps)
  {
    if EqIsPossible2Exhaustive(acc, target, xs) {
      ExhaustiveSound(acc, target, xs);
    }
    if Reachable(acc, xs, target, AllOps) {
      ExhaustiveComplete(acc, target, xs);
    }
  }

  /** With every operand at least 1 no operator lowers the accumulator. */
  lemma {:induction false} EvalNeverDrops(acc: nat, ops: seq<Op>, xs: seq<nat>)
    requires |ops| == |xs| && forall k | 0 <= k < |xs| :: xs[k] >= 1
    ensures Eval(acc, ops, xs) >= acc
    decreases |xs|
  {
    if |xs| > 0 {
      var next := Apply(ops[0], acc, xs[0]);
      assert next >= acc by {
        if ops[0] == Mul {
          assert acc * xs[0] == acc + acc * (xs[0] - 1);
        }
      }
      EvalNeverDrops(next, ops[1..], xs[1..]);
    }
  }

  /** With every operand at least 1 the pruning is safe: both searches agree. */
  lemma {:induction false} PruningSafeForPositiveOperands(acc: nat, target: nat, xs: seq<nat>)
    requires forall k | 0 <= k < |xs| :: xs[k] >= 1
    ensures EqIsPossible2(acc, target, xs) == EqIsPossible2Exhaustive(acc, target, xs)
    decreases |xs|
  {
    if acc > target {
      if EqIsPossible2Exhaustive(acc, target, xs) {
        ExhaustiveSound(acc, target, xs);
        var ops: seq<Op> :| |ops| == |xs| && OpsIn(ops, AllOps) && Eval(acc, ops, xs) == target;
        EvalNeverDrops(acc, ops, xs);
      }
    } else if |xs| > 0 {
      var x, rest := xs[0], xs[1..];
      assert forall k | 0 <= k < |rest| :: rest[k] == xs[k + 1];
      PruningSafeForPositiveOperands(Concatenate(acc, x), target, rest);
      PruningSafeForPositiveOperands(acc + x, target, rest);
      var product := Apply(Mul, acc, x);
      PruningSafeForPositiveOperands(product, target, rest);
    }
  }

  /** Whatever the pruned search accepts is genuinely solvable. */
  lemma {:induction false} Part2Sound(acc: nat, target: nat, xs: seq<nat>)
    requires EqIsPossible2(acc, target, xs)
    ensures EqIsPossible2Exhaustive(acc, target, xs)
    decreases |xs|
  {
    if |xs| > 0 {
      var x, rest := xs[0], xs[1..];
      if EqIsPossible2(Concatenate(acc, x), target, rest) {
        Part2Sound(Concatenate(acc, x), target, rest);
      } else if EqIsPossible2(acc + x, target, rest) {
        Part2Sound(acc + x, target, rest);
      } else {
        Part2Sound(acc * x, target, rest);
      }
    }
  }

  /**
   * The pruning relies on the accumulator never shrinking, but multiplying by a
   * 0 operand does: 7 * 0 + 5 reaches 5, yet the search stops at 7 > 5.
   */
  lemma PruningMissesZeroOperand()
    ensures !EqIsPossible2(7, 5, [0, 5])
    ensures EqIsPossible2Exhaustive(7, 5, [0, 5])
    ensures EqIsPossible1(5, [7, 0, 5])
  {
    assert Eval(7, [Mul, Add], [0, 5]) == 5;
    assert FlagAcc(7, [0, 5], 1, 0) == 5;
  }

  // ---------------------------------------------------------------- Answers

  /** The filter over equations: part 2 needs a first operand to start from. */
  function Solvable2(val: nat, operands: seq<nat>): bool {
    if |operands| == 0 then false else EqIsPossible2(operands[0], val, operands[1..])
  }

  function Solvable2Exhaustive(val: nat, operands: seq<nat>): bool {
    if |operands| == 0 then false else EqIsPossible2Exhaustive(operands[0], val, operands[1..])
  }

  /**
   * The puzzle's total calibration result: the sum of the test values of
   * the equations some choice of operators from `allowed` makes true.
   */
  ghost function Calibration(input: seq<(nat, seq<nat>)>, allowed: set<Op>): nat {
    if |input| == 0 then 0
    else Calibration(input[..|input| - 1], allowed)
         + (var (val, nums) := input[|input| - 1];
            if |nums| > 0 && Reachable(nums[0], nums[1..], val, allowed) then val else 0)
  }

  /** Part 1's answer: the sum of the targets of the equations + and * can make true. */
  function SolvePart1(input: seq<(nat, seq<nat>)>): (r: nat)
    ensures r == Calibration(input, {Add, Mul})
  {
    if |input| == 0 then 0
    else
      var (val, nums) := input[|input| - 1];
      SolvePart1(input[..|input| - 1]) + (if EqIsPossible1(val, nums) then val else 0)
  }

  /**
   * Part 2's answer as written, with the pruned search: never more than
   * the true total with all three operators, and equal to it when no
   * operand is 0.
   */
  function SolvePart2(input: seq<(nat, seq<nat>)>): (r: nat)
    ensures r <= Calibration(input, AllOps)
  {
    if |input| == 0 then 0
    else
      var (val, nums) := input[|input| - 1];
      Solvable2Sound(val, nums);
      SolvePart2(input[..|input| - 1]) + (if Solvable2(val, nums) then val else 0)
  }

  /** An equation the pruned search accepts is true with some choice of the three operators. */
  lemma Solvable2Sound(val: nat, nums: seq<nat>)
    ensures Solvable2(val, nums) ==> |nums| > 0 && Reachable(nums[0], nums[1..], val, AllOps)
  {
    if Solvable2(val, nums) {
      Part2Sound(nums[0], val, nums[1..]);
      Part2ExhaustiveCharacterization(nums[0], val, nums[1..]);
    }
  }

  /** The exhaustive search accepts exactly the equations some choice of the three operators makes true. */
  lemma Solvable2ExhaustiveMeans(val: nat, nums: seq<nat>)
    ensures Solvable2Exhaustive(val, nums) <==> |nums| > 0 && Reachable(nums[0], nums[1..], val, AllOps)
  {
    if |nums| > 0 {
      Part2ExhaustiveCharacterization(nums[0], val, nums[1..]);
    }
  }

  /** Part 2's answer with the exhaustive search: exactly the true total with all three operators. */
  function SolvePart2Exhaustive(input: seq<(nat, seq<nat>)>): (r: nat)
    ensures r == Calibration(input, AllOps)
  {
    if |input| == 0 then 0
    else
      var (val, nums) := input[|input| - 1];
      Solvable2ExhaustiveMeans(val, nums);
      SolvePart2Exhaustive(input[..|input| - 1]) + (if Solvable2Exhaustive(val, nums) then val else 0)
  }

  /** Anything + and * can reach, all three operators can reach. */
  lemma {:induction false} Part1ImpliesPart2(val: nat, operands: seq<nat>)
    requires EqIsPossible1(val, operands)
    ensures Solvable2Exhaustive(val, operands)
  {
    Part1Characterization(val, operands);
    var first, xs := operands[0], operands[1..];
    var ops: seq<Op> :| |ops| == |xs| && OpsIn(ops, {Add, Mul}) && Eval(first, ops, xs) == val;
    assert OpsIn(ops, AllOps);
    Part2ExhaustiveCharacterization(first, val, xs);
  }

  /** Every equation part 1 accepts adds its target to part 2's exhaustive answer too. */
  lemma {:induction false} Part2AtLeastPart1(input: seq<(nat, seq<nat>)>)
    ensures SolvePart1(input) <= SolvePart2Exhaustive(input)
  {
    if |input| > 0 {
      Part2AtLeastPart1(input[..|input| - 1]);
      var (val, nums) := input[|input| - 1];
      if EqIsPossible1(val, nums) {
        Part1ImpliesPart2(val, nums);
      }
    }
  }

  /** All operands are at least 1 in every equation. */
  predicate PositiveOperands(input: seq<(nat, seq<nat>)>) {
    forall e | 0 <= e < |input| :: forall k | 0 <= k < |input[e].1| :: input[e].1[k] >= 1
  }

  /** Without zero operands the answer as written equals the exhaustive one. */
  lemma {:induction false} Part2AsWrittenAgrees(input: seq<(nat, seq<nat>)>)
    requires PositiveOperands(input)
    ensures SolvePart2(input) == SolvePart2Exhaustive(input)
  {
    if |input| > 0 {
      var init := input[..|input| - 1];
      assert PositiveOperands(init) by {
        forall e | 0 <= e < |init| ensures init[e] == input[e] {
        }
      }
      Part2AsWrittenAgrees(init);
      var (val, nums) := input[|input| - 1];
      if |nums| > 0 {
        PruningSafeForPositiveOperands(nums[0], val, nums[1..]);
      }
    }
  }
}
