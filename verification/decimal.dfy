/**
 * Decimal notation of naturals, shared by the puzzles that read numbers as
 * text: powers of ten, digit counts, the digit string `to_string` writes,
 * the value `parse` reads back, and how cutting the string splits the value.
 */
module Decimal {

  function Pow10(n: nat): (r: nat)
    ensures r >= 1
  {
    if n == 0 then 1 else 10 * Pow10(n - 1)
  }

  /** The number of decimal digits of x, as `to_string` writes it: 0 has one digit. */
  function Digits(x: nat): (d: nat)
    ensures d >= 1 && x < Pow10(d)
    ensures d > 1 ==> Pow10(d - 1) <= x
  {
    if x < 10 then 1 else 1 + Digits(x / 10)
  }

  /** n without its last k digits. */
  function Front(n: nat, k: nat): nat
    decreases k
  {
    if k == 0 then n else Front(n / 10, k - 1)
  }

  /** The last k digits of n, as a number. */
  function Back(n: nat, k: nat): nat
    decreases k
  {
    if k == 0 then 0 else 10 * Back(n / 10, k - 1) + n % 10
  }

  // ---------------------------------------------------------------- Division facts

  /** A non-zero multiple of p is at least p away from 0. */
  lemma {:induction false} NonzeroMultiple(k: int, p: int)
    requires p >= 0
    ensures k != 0 ==> k * p >= p || k * p <= -p
  {
    if k > 0 {
      AtLeastOnce(k, p);
    } else if k < 0 {
      AtLeastOnce(-k, p);
      assert k * p == -((-k) * p);
    }
  }

  lemma {:induction false} AtLeastOnce(k: nat, p: nat)
    requires k >= 1
    ensures k * p >= p
    decreases k
  {
    if k > 1 {
      AtLeastOnce(k - 1, p);
      assert k * p == (k - 1) * p + p;
    }
  }

  /** x = a * p + b with 0 <= b < p determines quotient and remainder. */
  lemma {:induction false} DivisionUnique(x: nat, p: nat, a: nat, b: nat)
    requires p > 0 && x == a * p + b && b < p
    ensures x / p == a && x % p == b
  {
    var q, r := x / p, x % p;
    assert (q - a) * p == b - r;
    NonzeroMultiple(q - a, p);
  }

  /** Dropping k + 1 trailing digits is dropping one and then k; the k + 1 last digits are the k last of n / 10 and then n's last. */
  lemma {:induction false} DivModStep(n: nat, k: nat)
    ensures n / Pow10(k + 1) == (n / 10) / Pow10(k)
    ensures n % Pow10(k + 1) == 10 * ((n / 10) % Pow10(k)) + n % 10
  {
    var p := Pow10(k);
    var q, r := n / 10, n % 10;
    var a, b := q / p, q % p;
    assert q == a * p + b;
    assert n == 10 * q + r;
    assert n == a * (10 * p) + (10 * b + r);
    assert 10 * b + r < 10 * p;
    DivisionUnique(n, 10 * p, a, 10 * b + r);
  }

  // ---------------------------------------------------------------- Text

  predicate IsDigit(c: char) {
    '0' <= c <= '9'
  }

  predicate AllDigits(s: seq<char>) {
    forall k | 0 <= k < |s| :: IsDigit(s[k])
  }

  function DigitChar(d: nat): (c: char)
    requires d < 10
    ensures IsDigit(c)
  {
    (48 + d) as char
  }

  function DigitValue(c: char): (d: nat)
    requires IsDigit(c)
    ensures d < 10
  {
    c as int - 48
  }

  /** `to_string`: the decimal digits of n, most significant first, without leading zeros. */
  function Text(n: nat): (s: seq<char>)
    ensures |s| == Digits(n) && AllDigits(s)
    decreases n
  {
    if n < 10 then [DigitChar(n)] else Text(n / 10) + [DigitChar(n % 10)]
  }

  /** `parse`: the value of a digit string, leading zeros included. */
  function Parse(s: seq<char>): nat
    requires AllDigits(s)
    decreases |s|
  {
    if |s| == 0 then 0 else 10 * Parse(s[..|s| - 1]) + DigitValue(s[|s| - 1])
  }

  /** Reading back what `to_string` wrote gives the number. */
  lemma {:induction false} ParseText(n: nat)
    ensures Parse(Text(n)) == n
    decreases n
  {
    var t := Text(n);
    if n < 10 {
      assert t[..0] == [];
    } else {
      ParseText(n / 10);
      assert t[..|t| - 1] == Text(n / 10);
    }
  }

  /** Dropping the last k digits is dividing by 10^k; keeping them is the remainder. */
  lemma {:induction false} FrontBackDivMod(n: nat, k: nat)
    ensures Front(n, k) == n / Pow10(k) && Back(n, k) == n % Pow10(k)
    decreases k
  {
    if k > 0 {
      FrontBackDivMod(n / 10, k - 1);
      DivModStep(n, k - 1);
    }
  }

  /**
   * Cutting the text of n before its last k digits: the front reads as n
   * without those digits and the back, leading zeros and all, as the
   * number they write.
   */
  lemma {:induction false} SplitText(n: nat, k: nat)
    requires k <= Digits(n)
    ensures var t := Text(n);
            && Parse(t[..|t| - k]) == Front(n, k)
            && Parse(t[|t| - k..]) == Back(n, k)
    decreases n
  {
    var t := Text(n);
    if k == 0 {
      ParseText(n);
      assert t[..|t|] == t && t[|t|..] == [];
    } else if n < 10 {
      assert t[..0] == [] && t[0..] == t;
      ParseText(n);
      FrontSmall(n, k);
    } else {
      SplitText(n / 10, k - 1);
      FrontStep(n, k);
      BackStep(n, k);
    }
  }

  /** A one-digit number loses everything when its last k >= 1 digits go. */
  lemma {:induction false} FrontSmall(n: nat, k: nat)
    requires n < 10 && k >= 1
    ensures Front(n, k) == 0 && (k == 1 ==> Back(n, k) == n)
    decreases k
  {
    if k > 1 {
      FrontSmall(0, k - 1);
    }
  }

  /** The front of n's text before its last k digits is the front of (n / 10)'s before its last k - 1. */
  lemma {:induction false} FrontStep(n: nat, k: nat)
    requires 1 <= k <= Digits(n) && n >= 10
    requires var t' := Text(n / 10); Parse(t'[..|t'| - (k - 1)]) == Front(n / 10, k - 1)
    ensures var t := Text(n); Parse(t[..|t| - k]) == Front(n, k)
  {
    var t, t' := Text(n), Text(n / 10);
    assert t == t' + [DigitChar(n % 10)];
    assert t[..|t| - k] == t'[..|t'| - (k - 1)];
  }

  /** The last k digits of n's text are the last k - 1 of (n / 10)'s and then n's last digit. */
  lemma {:induction false} BackStep(n: nat, k: nat)
    requires 1 <= k <= Digits(n) && n >= 10
    requires var t' := Text(n / 10); Parse(t'[|t'| - (k - 1)..]) == Back(n / 10, k - 1)
    ensures var t := Text(n); Parse(t[|t| - k..]) == Back(n, k)
  {
    var t, t' := Text(n), Text(n / 10);
    var c := DigitChar(n % 10);
    assert t == t' + [c];
    var back' := t'[|t'| - (k - 1)..];
    assert t[|t| - k..] == back' + [c];
    ParseSnoc(back', c);
    DigitRoundTrip(n % 10);
  }

  lemma {:induction false} DigitRoundTrip(d: nat)
    requires d < 10
    ensures DigitValue(DigitChar(d)) == d
  {
  }

  /** Appending a digit shifts the value one place and adds the digit. */
  lemma {:induction false} ParseSnoc(s: seq<char>, c: char)
    requires AllDigits(s) && IsDigit(c)
    ensures AllDigits(s + [c]) && Parse(s + [c]) == 10 * Parse(s) + DigitValue(c)
  {
    assert (s + [c])[..|s|] == s;
  }
}
