/**
 * Day 11, "Plutonian Pebbles": every blink changes each stone at once. A 0
 * becomes 1; a stone with an even number of decimal digits splits into
 * the numbers written by the two halves of its digits; any other stone is
 * multiplied by 2024. The answer is how many stones a line of stones turns
 * into after 25 (part 1) or 75 (part 2) blinks. Machine-word overflow is
 * not modelled: stones are unbounded naturals.
 */
module PlutonianPebbles {

  import opened Decimal

  /** What one blink turns a single stone into, in line order. */
  function Blink(stone: nat): (r: seq<nat>)
    ensures 1 <= |r| <= 2
  {
    if stone == 0 then [1]
    else
      var d := Digits(stone);
      if d % 2 == 0 then [Front(stone, d / 2), Back(stone, d / 2)]
      else [stone * 2024]
  }

  /**
   * The rules in the source's own terms: the even-digit case cuts the
   * decimal text of the stone in the middle and reads each half back, so a
   * right half with leading zeros becomes a smaller number.
   */
  lemma {:induction false} BlinkRules(stone: nat)
    ensures stone == 0 ==> Blink(stone) == [1]
    ensures var t := Text(stone);
            stone != 0 && |t| % 2 == 0 ==> Blink(stone) == [Parse(t[..|t| / 2]), Parse(t[|t| / 2..])]
    ensures stone != 0 && |Text(stone)| % 2 == 1 ==> Blink(stone) == [stone * 2024]
  {
    var t := Text(stone);
    if stone != 0 && |t| % 2 == 0 {
      SplitText(stone, |t| / 2);
      assert |t| - |t| / 2 == |t| / 2;
    }
  }

  /** The whole line after one blink: each stone replaced by what it turns into. */
  function BlinkAll(stones: seq<nat>): (r: seq<nat>)
    ensures |stones| <= |r|
  {
    if |stones| == 0 then [] else Blink(stones[0]) + BlinkAll(stones[1..])
  }

  /** The line after `blinks` blinks. */
  function Expand(stones: seq<nat>, blinks: nat): seq<nat>
    decreases blinks
  {
    if blinks == 0 then stones else Expand(BlinkAll(stones), blinks - 1)
  }

  /** An empty line stays empty. */
  lemma {:induction false} ExpandEmpty(blinks: nat)
    ensures Expand([], blinks) == []
    decreases blinks
  {
    if blinks > 0 {
      ExpandEmpty(blinks - 1);
    }
  }

  lemma {:induction false} BlinkAllAppend(a: seq<nat>, b: seq<nat>)
    ensures BlinkAll(a + b) == BlinkAll(a) + BlinkAll(b)
    decreases |a|
  {
    if |a| == 0 {
      assert a + b == b;
    } else {
      assert (a + b)[0] == a[0] && (a + b)[1..] == a[1..] + b;
      BlinkAllAppend(a[1..], b);
    }
  }

  /** Stones do not interact: the line after n blinks is the concatenation of what each part becomes. */
  lemma {:induction false} ExpandAppend(a: seq<nat>, b: seq<nat>, blinks: nat)
    ensures Expand(a + b, blinks) == Expand(a, blinks) + Expand(b, blinks)
    decreases blinks
  {
    if blinks > 0 {
      BlinkAllAppend(a, b);
      ExpandAppend(BlinkAll(a), BlinkAll(b), blinks - 1);
    }
  }

  /**
   * The plain recursion of `count_resulting_stones`, without the memo:
   * how many stones one stone turns into after `blinks` blinks.
   */
  function Count(stone: nat, blinks: nat): (c: nat)
    ensures c >= 1
    decreases blinks
  {
    if blinks == 0 then 1
    else if stone == 0 then Count(1, blinks - 1)
    else
      var d := Digits(stone);
      if d % 2 == 0 then Count(Front(stone, d / 2), blinks - 1) + Count(Back(stone, d / 2), blinks - 1)
      else Count(stone * 2024, blinks - 1)
  }

  /** A stone with an even number of digits counts what its two halves count. */
  lemma {:induction false} CountOfSplit(stone: nat, blinks: nat)
    requires stone != 0 && blinks > 0 && Digits(stone) % 2 == 0
    ensures Count(stone, blinks) == Count(Front(stone, Digits(stone) / 2), blinks - 1)
                                    + Count(Back(stone, Digits(stone) / 2), blinks - 1)
  {
  }

  /** The count is the length of the line a single stone becomes. */
  lemma {:induction false} CountIsLength(stone: nat, blinks: nat)
    ensures Count(stone, blinks) == |Expand([stone], blinks)|
    decreases blinks
  {
    if blinks > 0 {
      assert [stone][1..] == [];
      assert BlinkAll([stone]) == Blink(stone);
      var b := Blink(stone);
      if |b| == 1 {
        CountIsLength(b[0], blinks - 1);
        assert b == [b[0]];
      } else {
        CountIsLength(b[0], blinks - 1);
        CountIsLength(b[1], blinks - 1);
        assert b == [b[0]] + [b[1]];
        ExpandAppend([b[0]], [b[1]], blinks - 1);
      }
    }
  }

  /** Every entry of the memo is the true count for its stone and blink number. */
  ghost predicate MemoValid(memo: map<(nat, nat), nat>) {
    forall key | key in memo :: memo[key] == Count(key.0, key.1)
  }

  /**
   * `count_resulting_stones`: the same recursion, answering from the memo
   * when it can and recording every result it computes. The memo is passed
   * in and handed back instead of being borrowed mutably. Since every entry
   * is a true count, the answer never depends on what the memo held.
   */
  method CountResultingStones(stone: nat, blinks: nat, memo: map<(nat, nat), nat>)
    returns (count: nat, memo': map<(nat, nat), nat>)
    requires MemoValid(memo)
    ensures count == Count(stone, blinks)
    ensures MemoValid(memo') && memo.Keys <= memo'.Keys
    decreases blinks, 1
  {
    if blinks == 0 {
      return 1, memo;
    }
    if (stone, blinks) in memo {
      return memo[(stone, blinks)], memo;
    }
    count, memo' := BlinkOnce(stone, blinks, memo);
    MemoExtend(memo', stone, blinks, count);
    memo' := memo'[(stone, blinks) := count];
  }

  /** The three rules of one blink, each followed by the remaining blinks. */
  method BlinkOnce(stone: nat, blinks: nat, memo: map<(nat, nat), nat>)
    returns (count: nat, memo': map<(nat, nat), nat>)
    requires MemoValid(memo) && blinks > 0
    ensures count == Count(stone, blinks)
    ensures MemoValid(memo') && memo.Keys <= memo'.Keys
    decreases blinks, 0
  {
    if stone == 0 {
      count, memo' := CountResultingStones(1, blinks - 1, memo);
      assert count == Count(stone, blinks);
    } else {
      var d := Digits(stone);
      if d % 2 == 0 {
        var left, right := Front(stone, d / 2), Back(stone, d / 2);
        var a, b, m;
        a, m := CountResultingStones(left, blinks - 1, memo);
        b, memo' := CountResultingStones(right, blinks - 1, m);
        CountOfSplit(stone, blinks);
        assert a == Count(left, blinks - 1) && b == Count(right, blinks - 1);
        count := a + b;
      } else {
        count, memo' := CountResultingStones(stone * 2024, blinks - 1, memo);
        assert count == Count(stone, blinks);
      }
    }
  }

  /** Recording a true count keeps the memo valid. */
  lemma {:induction false} MemoExtend(memo: map<(nat, nat), nat>, stone: nat, blinks: nat, count: nat)
    requires MemoValid(memo) && count == Count(stone, blinks)
    ensures MemoValid(memo[(stone, blinks) := count])
  {
  }

  /**
   * `solve_part_1` and `solve_part_2`: one memo shared across the stones,
   * and the per-stone counts summed. The total is the length of the line
   * after `blinks` blinks, so at least the number of stones.
   */
  method Solve(stones: seq<nat>, blinks: nat) returns (total: nat)
    ensures total == |Expand(stones, blinks)|
    ensures total >= |stones|
  {
    var memo: map<(nat, nat), nat> := map[];
    total := 0;
    var k := 0;
    ExpandEmpty(blinks);
    while k < |stones|
      invariant k <= |stones| && MemoValid(memo)
      invariant total == |Expand(stones[..k], blinks)| && total >= k
    {
      var c;
      c, memo := CountResultingStones(stones[k], blinks, memo);
      CountIsLength(stones[k], blinks);
      assert stones[..k + 1] == stones[..k] + [stones[k]];
      ExpandAppend(stones[..k], [stones[k]], blinks);
      total := total + c;
      k := k + 1;
    }
    assert stones[..k] == stones;
  }

  method SolvePart1(stones: seq<nat>) returns (total: nat)
    ensures total == |Expand(stones, 25)| && total >= |stones|
  {
    total := Solve(stones, 25);
  }

  method SolvePart2(stones: seq<nat>) returns (total: nat)
    ensures total == |Expand(stones, 75)| && total >= |stones|
  {
    total := Solve(stones, 75);
  }
}
