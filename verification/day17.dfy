/**
 * Day 17, "Chronospatial Computer": an interpreter for a machine with three
 * `i64` registers A, B and C and a program of 3-bit instructions, each an
 * opcode followed by an operand. It runs until the instruction pointer
 * leaves the program and returns what `out` printed, comma-separated.
 *
 * The source computes the combo operand before it looks at the opcode, so
 * operand 7 panics even for instructions that read their operand as a
 * literal or ignore it. `Rule` selects that behaviour (`AsWritten`) or the
 * one the machine's description intends (`Intended`), where only adv, bst,
 * out, bdv and cdv evaluate a combo operand.
 *
 * Arithmetic follows a debug build: `1 << c` panics for a shift outside
 * 0..63, `/` and `%` truncate toward zero, `^` is two's-complement
 * exclusive or. The interpreter need not halt; runs take a step budget.
 */
module ChronospatialComputer {

  import opened Options
  import Decimal

  /** 2^63: `i64` holds -2^63 up to 2^63 - 1. */
  const Two63: int := 0x8000_0000_0000_0000
  const Two64: int := 0x1_0000_0000_0000_0000

  predicate IsI64(x: int) {
    -Two63 <= x < Two63
  }

  /** A program: the bytes `parse` read, each an opcode or an operand. */
  predicate IsProgram(prog: seq<int>) {
    forall k | 0 <= k < |prog| :: 0 <= prog[k] < 256
  }

  /** Registers, instruction pointer and the text printed so far. */
  datatype Machine = Machine(a: int, b: int, c: int, ip: nat, out: seq<char>)

  predicate Valid(m: Machine) {
    IsI64(m.a) && IsI64(m.b) && IsI64(m.c)
  }

  // ---------------------------------------------------------------- i64 arithmetic

  function Pow2(n: nat): (r: nat)
    ensures r >= 1
  {
    if n == 0 then 1 else 2 * Pow2(n - 1)
  }

  function Abs(x: int): nat {
    if x < 0 then -x else x
  }

  /**
   * `1 << c` on `i64`: an overflow panic (`None`) outside 0..63, and
   * otherwise the `i64` whose two's complement bits are 2^c, which is
   * `i64::MIN` for c = 63.
   */
  function Shl(c: int): (r: Option<int>)
    ensures r.Some? <==> 0 <= c < 64
    ensures r.Some? ==> IsI64(r.value) && Unsigned(r.value) == Pow2(c)
  {
    if 0 <= c < 63 then
      Pow2Below(c, 63);
      Pow2At63();
      Some(Pow2(c))
    else if c == 63 then
      Pow2At63();
      Some(-Two63)
    else None
  }

  /**
   * Rust's `/` on `i64`: the quotient truncated toward zero. Its size is
   * the number of whole divisors in the dividend, and a non-zero quotient
   * is negative exactly when the signs differ.
   */
  function Quot(x: int, y: int): (q: int)
    requires y != 0
    ensures Abs(q) * Abs(y) <= Abs(x) < (Abs(q) + 1) * Abs(y)
    ensures q > 0 ==> (x < 0) == (y < 0)
    ensures q < 0 ==> (x < 0) != (y < 0)
  {
    var n, d := Abs(x), Abs(y);
    var k := n / d;
    DivBounds(n, d);
    var q := if (x < 0) == (y < 0) then k else -k;
    assert Abs(q) == k;
    q
  }

  /** Floor division of naturals: the quotient counts the whole divisors. */
  lemma {:induction false} DivBounds(n: nat, d: nat)
    requires d > 0
    ensures 0 <= n / d && (n / d) * d <= n < (n / d + 1) * d
  {
    var k, r := n / d, n % d;
    assert n == k * d + r && 0 <= r < d;
    assert (k + 1) * d == k * d + d;
  }

  /** Rust's `% 8`: the remainder takes the sign of the dividend. */
  function Rem8(x: int): int {
    if x >= 0 then x % 8 else -((-x) % 8)
  }

  /**
   * Truncating division: the quotient's size is the largest number of
   * whole divisors in the dividend, its sign the product of the signs, and
   * the remainder makes up the difference with the dividend's sign.
   */
  lemma {:induction false} QuotRem8(x: int)
    ensures var q, r := Quot(x, 8), Rem8(x);
            && x == 8 * q + r
            && -8 < r < 8
            && (r == 0 || (r < 0 <==> x < 0))
            && (q == 0 || (q < 0 <==> x < 0))
  {
  }

  /** For a non-negative dividend and a positive divisor, truncation is the floor division of mathematics. */
  lemma {:induction false} QuotNonNegative(x: int, y: int)
    requires x >= 0 && y > 0
    ensures Quot(x, y) == x / y && Quot(x, y) * y <= x < (Quot(x, y) + 1) * y
  {
  }

  /** A whole divisor fits no more often than the dividend's size. */
  lemma {:induction false} DivAtMost(n: nat, d: nat)
    requires d >= 1
    ensures n / d <= n
  {
    var q, r := n / d, n % d;
    assert n == q * d + r && r >= 0;
    MulAtLeast(q, d);
  }

  lemma {:induction false} MulAtLeast(q: nat, d: nat)
    requires d >= 1
    ensures q * d >= q
  {
    assert q * d == q + q * (d - 1);
  }

  /** A positive divisor moves the quotient toward zero, never past it. */
  lemma {:induction false} QuotPositive(x: int, y: int)
    requires y >= 1
    ensures x >= 0 ==> 0 <= Quot(x, y) <= x
    ensures x < 0 ==> x <= Quot(x, y) <= 0
  {
    var n: nat := Abs(x);
    DivAtMost(n, y);
    assert Quot(x, y) == if x < 0 then -(n / y) else n / y;
  }

  /** Dividing an `i64` by `i64::MIN` leaves -1, 0 or 1. */
  lemma {:induction false} QuotByMin(x: int)
    requires IsI64(x)
    ensures -1 <= Quot(x, -Two63) <= 1
  {
    assert Abs(x) <= Abs(-Two63);
  }

  /** Dividing by a power of two, or by `i64::MIN`, stays within `i64`. */
  lemma {:induction false} QuotInRange(x: int, c: int)
    requires IsI64(x) && Shl(c).Some?
    ensures IsI64(Quot(x, Shl(c).value))
  {
    if c == 63 {
      QuotByMin(x);
    } else {
      QuotPositive(x, Pow2(c));
    }
  }

  /** Exclusive or of two naturals, bit by bit from the lowest. */
  function XorNat(u: nat, v: nat): nat
    decreases u + v
  {
    if u == 0 && v == 0 then 0
    else 2 * XorNat(u / 2, v / 2) + (if u % 2 == v % 2 then 0 else 1)
  }

  /** Exclusive or of values below 2^n stays below 2^n. */
  lemma {:induction false} XorNatBelow(u: nat, v: nat, n: nat)
    requires u < Pow2(n) && v < Pow2(n)
    ensures XorNat(u, v) < Pow2(n)
    decreases n
  {
    if n > 0 && !(u == 0 && v == 0) {
      XorNatBelow(u / 2, v / 2, n - 1);
    }
  }

  /** Exclusive or with the same value twice gives the first value back. */
  lemma {:induction false} XorNatTwice(u: nat, v: nat)
    ensures XorNat(XorNat(u, v), v) == u
    decreases u + v
  {
    if !(u == 0 && v == 0) {
      var w := XorNat(u, v);
      XorNatTwice(u / 2, v / 2);
      assert w / 2 == XorNat(u / 2, v / 2) && w % 2 == (if u % 2 == v % 2 then 0 else 1);
    }
  }

  /** Powers of two multiply by adding exponents. */
  lemma {:induction false} Pow2Add(i: nat, j: nat)
    ensures Pow2(i + j) == Pow2(i) * Pow2(j)
    decreases i
  {
    if i > 0 {
      Pow2Add(i - 1, j);
    }
  }

  /** Powers of two grow with the exponent. */
  lemma {:induction false} Pow2Below(i: nat, n: nat)
    requires i < n
    ensures Pow2(i) < Pow2(n)
    decreases n
  {
    if i < n - 1 {
      Pow2Below(i, n - 1);
    }
  }

  lemma {:induction false} Pow2At63()
    ensures Pow2(63) == Two63
  {
    Pow2At64();
  }

  lemma {:induction false} Pow2At64()
    ensures Pow2(64) == Two64
  {
    assert Pow2(8) == 256;
    Pow2Add(8, 8);
    assert Pow2(16) == 0x1_0000;
    Pow2Add(16, 16);
    assert Pow2(32) == 0x1_0000_0000;
    Pow2Add(32, 32);
    assert Pow2(64) == 0x1_0000_0000 * 0x1_0000_0000;
  }

  /** Two's complement bits of an `i64`, as an unsigned number below 2^64. */
  function Unsigned(x: int): (u: nat)
    requires IsI64(x)
    ensures u < Two64
  {
    if x < 0 then x + Two64 else x
  }

  /** The `i64` with the given two's complement bits. */
  function Signed(u: nat): (x: int)
    requires u < Two64
    ensures IsI64(x)
  {
    if u >= Two63 then u - Two64 else u
  }

  /** `^` on `i64`: exclusive or of the two's complement bits. */
  function Xor(x: int, y: int): (r: int)
    requires IsI64(x) && IsI64(y)
    ensures IsI64(r)
  {
    Pow2At64();
    XorNatBelow(Unsigned(x), Unsigned(y), 64);
    Signed(XorNat(Unsigned(x), Unsigned(y)))
  }

  /** Exclusive or with the same value twice gives the value back. */
  lemma {:induction false} XorInvolution(x: int, y: int)
    requires IsI64(x) && IsI64(y)
    ensures Xor(Xor(x, y), y) == x
  {
    var u, v := Unsigned(x), Unsigned(y);
    Pow2At64();
    XorNatBelow(u, v, 64);
    var w := XorNat(u, v);
    assert Unsigned(Signed(w)) == w;
    XorNatTwice(u, v);
  }

  // ---------------------------------------------------------------- Output

  /** `to_string` of an `i64`: a minus sign or a digit comes first, never a comma. */
  function Show(v: int): (s: seq<char>)
    ensures |s| >= 1 && (s[0] == '-' || Decimal.IsDigit(s[0]))
  {
    if v < 0 then ['-'] + Decimal.Text(-v) else Decimal.Text(v)
  }

  /** The printed text does not start with a separator. */
  predicate NoLeadingComma(out: seq<char>) {
    |out| == 0 || out[0] != ','
  }

  /** The out instruction's append: a comma first unless nothing is printed yet, then the value. */
  function Emit(out: seq<char>, v: int): seq<char> {
    (if |out| == 0 then out else out + [',']) + Show(v)
  }

  /** The values printed, separated by commas. */
  function Join(vs: seq<int>): seq<char>
    decreases |vs|
  {
    if |vs| == 0 then []
    else if |vs| == 1 then Show(vs[0])
    else Join(vs[..|vs| - 1]) + [','] + Show(vs[|vs| - 1])
  }

  /** Appending value by value builds the comma-separated list: no leading comma, one between neighbours. */
  lemma {:induction false} EmitJoin(vs: seq<int>, v: int)
    ensures Emit(Join(vs), v) == Join(vs + [v])
  {
    var ws := vs + [v];
    assert ws[..|ws| - 1] == vs;
    if |vs| == 0 {
      assert ws == [v];
    } else if |vs| == 1 {
      assert |Join(vs)| >= 1;
    } else {
      assert |Show(vs[|vs| - 1])| >= 1;
    }
  }

  // ---------------------------------------------------------------- Stepping

  datatype Rule = AsWritten | Intended

  /** What one step does: stop, panic, or go on with a new machine. */
  datatype Effect = Halt | Fault | Next(m: Machine)

  /**
   * The combo operand: 0 to 3 stand for themselves, 4 to 6 for A, B and C;
   * anything else, 7 included, is `unreachable!`. A defined value fits `i64`.
   */
  function Combo(lit: int, m: Machine): (r: Option<int>)
    ensures r.Some? <==> 0 <= lit <= 6
    ensures r.Some? && Valid(m) ==> IsI64(r.value)
  {
    if 0 <= lit <= 3 then Some(lit)
    else if lit == 4 then Some(m.a)
    else if lit == 5 then Some(m.b)
    else if lit == 6 then Some(m.c)
    else None
  }

  /** adv, bst, out, bdv and cdv are the instructions that read a combo operand. */
  predicate UsesCombo(op: int) {
    op == 0 || op == 2 || op == 5 || op == 6 || op == 7
  }

  /** A / 2^combo, which fits `i64`, or the shift's panic for a combo outside 0..63. */
  function DivideA(m: Machine, combo: int): (r: Option<int>)
    requires IsI64(m.a)
    ensures r.Some? <==> 0 <= combo < 64
    ensures r.Some? ==> IsI64(r.value)
  {
    match Shl(combo)
    case None => None
    case Some(p) =>
      QuotInRange(m.a, combo);
      Some(Quot(m.a, p))
  }

  /**
   * One instruction once its operands are known. It panics only for an
   * opcode outside 0..7 or a division whose shift is outside 0..63;
   * otherwise the registers stay within `i64`, `ip` goes to jnz's literal
   * when it jumps and on by 2 otherwise, and the printed text only grows,
   * never gaining a leading comma.
   */
  function Execute(op: int, lit: int, combo: int, m: Machine): (r: Effect)
    requires Valid(m) && 0 <= lit < 256
    ensures r != Halt
    ensures r == Fault <==> !(0 <= op <= 7) || ((op == 0 || op == 6 || op == 7) && !(0 <= combo < 64))
    ensures r.Next? ==> && Valid(r.m) && m.out <= r.m.out
                        && r.m.ip == (if op == 3 && m.a != 0 then lit else m.ip + 2)
    ensures r.Next? && NoLeadingComma(m.out) ==> NoLeadingComma(r.m.out)
  {
    var ip := m.ip + 2;
    if op == 0 then
      match DivideA(m, combo) case None => Fault case Some(q) => Next(m.(a := q, ip := ip))
    else if op == 1 then Next(m.(b := Xor(m.b, lit), ip := ip))
    else if op == 2 then Next(m.(b := Rem8(combo), ip := ip))
    else if op == 3 then (if m.a != 0 then Next(m.(ip := lit)) else Next(m.(ip := ip)))
    else if op == 4 then Next(m.(b := Xor(m.b, m.c), ip := ip))
    else if op == 5 then Next(m.(out := Emit(m.out, Rem8(combo)), ip := ip))
    else if op == 6 then
      match DivideA(m, combo) case None => Fault case Some(q) => Next(m.(b := q, ip := ip))
    else if op == 7 then
      match DivideA(m, combo) case None => Fault case Some(q) => Next(m.(c := q, ip := ip))
    else Fault
  }

  /**
   * One turn of the `while let` loop: halt when `ip` is past the program;
   * the operand's `unwrap` panics at the last byte; then the combo operand
   * (eagerly as written, on demand as intended) and the instruction.
   */
  function Step(prog: seq<int>, m: Machine, rule: Rule): (r: Effect)
    requires IsProgram(prog) && Valid(m)
    ensures r == Halt <==> m.ip >= |prog|
    ensures r.Next? ==> Valid(r.m) && m.out <= r.m.out
    ensures r.Next? && NoLeadingComma(m.out) ==> NoLeadingComma(r.m.out)
  {
    if m.ip >= |prog| then Halt
    else if m.ip + 1 >= |prog| then Fault
    else
      var op, lit := prog[m.ip], prog[m.ip + 1];
      match Combo(lit, m)
      case None => if rule == AsWritten || UsesCombo(op) then Fault else Execute(op, lit, 0, m)
      case Some(v) => Execute(op, lit, v, m)
  }

  /**
   * The shape of a step: it halts exactly when `ip` is past the program;
   * otherwise the registers stay within `i64`, jnz jumps to its literal
   * when A is not 0, every other instruction moves `ip` on by 2, and only
   * out prints.
   */
  lemma {:induction false} StepShape(prog: seq<int>, m: Machine, rule: Rule)
    requires IsProgram(prog) && Valid(m)
    ensures Step(prog, m, rule) == Halt <==> m.ip >= |prog|
    ensures Step(prog, m, rule).Next? ==>
              var m' := Step(prog, m, rule).m;
              && Valid(m')
              && m'.ip == (if prog[m.ip] == 3 && m.a != 0 then prog[m.ip + 1] else m.ip + 2)
              && (prog[m.ip] != 5 ==> m'.out == m.out)
  {
    if m.ip + 1 < |prog| {
      var op, lit := prog[m.ip], prog[m.ip + 1];
      if Combo(lit, m).Some? && Shl(Combo(lit, m).value).Some? {
        QuotInRange(m.a, Combo(lit, m).value);
      }
    }
  }

  /**
   * adv, bdv and cdv: with a combo operand c in 0..62, the target register
   * gets A / 2^c truncated, which for a non-negative A is the floor
   * quotient; the other registers keep their values.
   */
  lemma {:induction false} StepDivides(prog: seq<int>, m: Machine, rule: Rule)
    requires IsProgram(prog) && Valid(m) && m.ip + 1 < |prog|
    requires var op, lit := prog[m.ip], prog[m.ip + 1];
             (op == 0 || op == 6 || op == 7) && 0 <= lit <= 6 && 0 <= Combo(lit, m).value < 63
    ensures var op, c := prog[m.ip], Combo(prog[m.ip + 1], m).value;
            var q := Quot(m.a, Pow2(c));
            && Step(prog, m, rule) == Next(if op == 0 then m.(a := q, ip := m.ip + 2)
                                           else if op == 6 then m.(b := q, ip := m.ip + 2)
                                           else m.(c := q, ip := m.ip + 2))
            && (m.a >= 0 ==> q == m.a / Pow2(c))
  {
  }

  /** bxl: B becomes B ^ literal, whatever the literal, when it is a valid combo operand too. */
  lemma {:induction false} StepBxl(prog: seq<int>, m: Machine, rule: Rule)
    requires IsProgram(prog) && Valid(m) && m.ip + 1 < |prog|
    requires prog[m.ip] == 1 && prog[m.ip + 1] <= 6
    ensures Step(prog, m, rule) == Next(m.(b := Xor(m.b, prog[m.ip + 1]), ip := m.ip + 2))
  {
  }

  /** bst sets B to the combo operand's truncated remainder by 8 and advances by 2. */
  lemma {:induction false} StepBst(prog: seq<int>, m: Machine, rule: Rule)
    requires IsProgram(prog) && Valid(m) && m.ip + 1 < |prog|
    requires prog[m.ip] == 2 && prog[m.ip + 1] <= 6
    ensures Step(prog, m, rule) == Next(m.(b := Rem8(Combo(prog[m.ip + 1], m).value), ip := m.ip + 2))
  {
  }

  /** jnz jumps to its literal when A is not 0 and otherwise advances by 2. */
  lemma {:induction false} StepJnz(prog: seq<int>, m: Machine, rule: Rule)
    requires IsProgram(prog) && Valid(m) && m.ip + 1 < |prog|
    requires prog[m.ip] == 3 && prog[m.ip + 1] <= 6
    ensures Step(prog, m, rule) == Next(if m.a != 0 then m.(ip := prog[m.ip + 1]) else m.(ip := m.ip + 2))
  {
  }

  /** bxc sets B to B xor C, ignoring its operand, and advances by 2. */
  lemma {:induction false} StepBxc(prog: seq<int>, m: Machine, rule: Rule)
    requires IsProgram(prog) && Valid(m) && m.ip + 1 < |prog|
    requires prog[m.ip] == 4 && prog[m.ip + 1] <= 6
    ensures Step(prog, m, rule) == Next(m.(b := Xor(m.b, m.c), ip := m.ip + 2))
  {
  }

  /** bxl twice with the same literal gives B back. */
  lemma {:induction false} BxlTwice(prog: seq<int>, m: Machine, rule: Rule)
    requires IsProgram(prog) && Valid(m) && m.ip + 3 < |prog|
    requires prog[m.ip] == 1 && prog[m.ip + 2] == 1 && prog[m.ip + 1] == prog[m.ip + 3] <= 6
    ensures Step(prog, m, rule).Next?
    ensures var m1 := Step(prog, m, rule).m;
            Step(prog, m1, rule) == Next(m.(ip := m.ip + 4))
  {
    var lit := prog[m.ip + 1];
    StepBxl(prog, m, rule);
    var m1 := m.(b := Xor(m.b, lit), ip := m.ip + 2);
    StepBxl(prog, m1, rule);
    XorInvolution(m.b, lit);
  }

  /** out appends its value to the comma-separated list printed so far. */
  lemma {:induction false} StepPrints(prog: seq<int>, m: Machine, rule: Rule, vs: seq<int>)
    requires IsProgram(prog) && Valid(m) && m.ip + 1 < |prog| && m.out == Join(vs)
    requires prog[m.ip] == 5 && prog[m.ip + 1] <= 6
    ensures var v := Rem8(Combo(prog[m.ip + 1], m).value);
            && -8 < v < 8
            && Step(prog, m, rule) == Next(m.(out := Join(vs + [v]), ip := m.ip + 2))
  {
    var lit := prog[m.ip + 1];
    var c := Combo(lit, m).value;
    var v := Rem8(c);
    EmitJoin(vs, v);
    assert Step(prog, m, rule) == Execute(5, lit, c, m);
    assert Execute(5, lit, c, m) == Next(m.(out := Emit(m.out, v), ip := m.ip + 2));
  }

  // ---------------------------------------------------------------- Runs

  /** Where a run stands after its step budget: halted with its output, panicked, or still running. */
  datatype Outcome = Halted(out: seq<char>) | Panicked | Running(m: Machine)

  /**
   * Up to `fuel` steps of the interpreter loop. The text printed only
   * grows, a comma never comes first, and a run still going has its
   * registers within `i64`.
   */
  function Run(prog: seq<int>, m: Machine, rule: Rule, fuel: nat): (r: Outcome)
    requires IsProgram(prog) && Valid(m)
    ensures r.Halted? ==> m.out <= r.out
    ensures r.Running? ==> Valid(r.m) && m.out <= r.m.out
    ensures NoLeadingComma(m.out) ==> && (r.Halted? ==> NoLeadingComma(r.out))
                                      && (r.Running? ==> NoLeadingComma(r.m.out))
    decreases fuel
  {
    if fuel == 0 then Running(m)
    else match Step(prog, m, rule)
      case Halt => Halted(m.out)
      case Fault => Panicked
      case Next(m') =>
        var r := Run(prog, m', rule, fuel - 1);
        assert r.Halted? ==> m.out <= r.out by {
          if r.Halted? { PrefixTrans(m.out, m'.out, r.out); }
        }
        assert r.Running? ==> m.out <= r.m.out by {
          if r.Running? { PrefixTrans(m.out, m'.out, r.m.out); }
        }
        r
  }

  lemma {:induction false} PrefixTrans(a: seq<char>, b: seq<char>, c: seq<char>)
    requires a <= b && b <= c
    ensures a <= c
  {
    assert c[..|b|][..|a|] == c[..|a|];
  }

  /** A run that has finished, by halting or panicking, ends the same way with any larger budget. */
  lemma {:induction false} RunSettled(prog: seq<int>, m: Machine, rule: Rule, fuel: nat, more: nat)
    requires IsProgram(prog) && Valid(m)
    requires !Run(prog, m, rule, fuel).Running?
    ensures Run(prog, m, rule, fuel + more) == Run(prog, m, rule, fuel)
    decreases fuel
  {
    if Step(prog, m, rule).Next? {
      StepShape(prog, m, rule);
      RunSettled(prog, Step(prog, m, rule).m, rule, fuel - 1, more);
    }
  }

  /**
   * `solve_part_1`: run the program from `ip` 0 with nothing printed. The
   * text returned never starts with a comma, and a run still going keeps
   * its registers within `i64`.
   */
  function SolvePart1(prog: seq<int>, a: int, b: int, c: int, rule: Rule, fuel: nat): (r: Outcome)
    requires IsProgram(prog) && IsI64(a) && IsI64(b) && IsI64(c)
    ensures r.Halted? ==> NoLeadingComma(r.out)
    ensures r.Running? ==> Valid(r.m)
  {
    Run(prog, Machine(a, b, c, 0, []), rule, fuel)
  }

  // ---------------------------------------------------------------- The eager combo operand

  /** Wherever the combo operand is defined, evaluating it eagerly changes nothing. */
  lemma {:induction false} RulesAgree(prog: seq<int>, m: Machine)
    requires IsProgram(prog) && Valid(m) && m.ip + 1 < |prog| && prog[m.ip + 1] <= 6
    ensures Step(prog, m, AsWritten) == Step(prog, m, Intended)
  {
  }

  /** As intended, bxl, jnz and bxc never panic, whatever their operand. */
  lemma {:induction false} LiteralInstructionsRun(prog: seq<int>, m: Machine)
    requires IsProgram(prog) && Valid(m) && m.ip + 1 < |prog|
    requires prog[m.ip] == 1 || prog[m.ip] == 3 || prog[m.ip] == 4
    ensures Step(prog, m, Intended).Next?
  {
  }

  /**
   * The program `1,7` (bxl 7) is well formed: as written it panics on its
   * first step, whatever the registers, while as intended it sets B to
   * B ^ 7 and halts with nothing printed.
   */
  lemma {:induction false} BxlSevenPanics(prog: seq<int>, a: int, b: int, c: int)
    requires prog == [1, 7] && IsI64(a) && IsI64(b) && IsI64(c)
    ensures SolvePart1(prog, a, b, c, AsWritten, 2) == Panicked
    ensures SolvePart1(prog, a, b, c, Intended, 2) == Halted([])
    ensures Step(prog, Machine(a, b, c, 0, []), Intended) == Next(Machine(a, Xor(b, 7), c, 2, []))
  {
    var m := Machine(a, b, c, 0, []);
    assert Step(prog, m, AsWritten) == Fault;
    var m' := Machine(a, Xor(b, 7), c, 2, []);
    assert Step(prog, m, Intended) == Next(m');
    assert Step(prog, m', Intended) == Halt;
  }
}
