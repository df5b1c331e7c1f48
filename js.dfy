/** The parts of JavaScript's value semantics that the page controller's
    expressions depend on: nullable values, settled promises, integral numbers
    that may be NaN, the `%` operator, and a few string methods. */
module Js {

  /** A value that may be `null` or `undefined`. */
  datatype Option<+T> = None | Some(value: T)

  /** How an awaited promise settled: with a value, or by throwing. */
  datatype Settled<+T> = Fulfilled(value: T) | Rejected

  /** An integral JavaScript number, or NaN (what `x % 0` evaluates to). */
  datatype Number = Int(value: int) | NaN

  function Abs(x: int): nat {
    if x < 0 then -x else x
  }

  /** `a % b`: NaN for a zero divisor; otherwise the remainder of the
      division truncated toward zero, which takes the sign of `a`. */
  function Rem(a: int, b: int): (r: Number)
    ensures r.NaN? <==> b == 0
    ensures r.Int? && a >= 0 ==> 0 <= r.value < Abs(b)
    ensures r.Int? && a < 0 ==> r.value <= 0 && Abs(r.value) < Abs(b)
    ensures r.Int? ==> (a - r.value) % Abs(b) == 0
  {
    if b == 0 then NaN
    else
      var magnitude := Abs(a) % Abs(b);
      RemainderLeavesMultiple(Abs(a), Abs(b));
      Int(if a >= 0 then magnitude else -magnitude)
  }

  /** Taking away the remainder leaves a multiple of the divisor, of either sign. */
  lemma RemainderLeavesMultiple(x: nat, m: nat)
    requires m > 0
    ensures (x - x % m) % m == 0 && (x % m - x) % m == 0
  {
    var q := x / m;
    assert x - x % m == m * q;
    assert x % m - x == m * -q;
    ModUnique(m * q, m, q, 0);
    ModUnique(m * -q, m, -q, 0);
  }

  /** Euclidean division has one quotient and remainder. */
  lemma ModUnique(x: int, m: int, q: int, r: int)
    requires m > 0 && 0 <= r < m && x == m * q + r
    ensures x % m == r
  {
    var q', r' := x / m, x % m;
    assert x == m * q' + r';
    assert m * (q - q') == r' - r;
    MultipleBounds(m, q - q');
  }

  /** A non-zero multiple of a positive number is at least that number away
      from zero. */
  lemma MultipleBounds(m: int, d: int)
    requires m > 0
    ensures d >= 1 ==> m * d >= m
    ensures d <= -1 ==> m * d <= -m
  {
  }

  /** A non-negative dividend below the divisor is its own remainder. */
  lemma RemOfSmall(a: int, b: int)
    requires 0 <= a < b
    ensures Rem(a, b) == Int(a)
  {
    assert a % b == a;
  }

  /** A dividend between one and two divisors loses exactly one divisor. */
  lemma RemWrapOnce(a: int, b: int)
    requires 0 < b <= a < 2 * b
    ensures Rem(a, b) == Int(a - b)
  {
    assert a % b == a - b;
  }

  // ---- Strings ----

  function LowerChar(c: char): char {
    if 'A' <= c <= 'Z' then (c as int + 32) as char else c
  }

  /** `s.toLowerCase()` on the ASCII letters; every other character is kept. */
  function Lower(s: string): (r: string)
    ensures |r| == |s|
    ensures forall i :: 0 <= i < |s| ==> r[i] == LowerChar(s[i])
  {
    if s == [] then [] else [LowerChar(s[0])] + Lower(s[1..])
  }

  predicate StartsWith(s: string, prefix: string) {
    |prefix| <= |s| && s[..|prefix|] == prefix
  }

  predicate EndsWith(s: string, suffix: string) {
    |suffix| <= |s| && s[|s| - |suffix|..] == suffix
  }

  // ---- Decimal numerals (template literals `${n}` of a non-negative integer) ----

  predicate IsDigit(c: char) {
    '0' <= c <= '9'
  }

  function DigitChar(d: nat): (c: char)
    requires d < 10
    ensures IsDigit(c)
  {
    (48 + d) as char
  }

  function DigitValue(c: char): (d: nat)
    requires IsDigit(c)
    ensures d < 10
  {
    c as int - 48
  }

  predicate AllDigits(s: string) {
    forall i :: 0 <= i < |s| ==> IsDigit(s[i])
  }

  /** The decimal numeral JavaScript prints for `n`: at least one digit and
      no leading zero. */
  function Decimal(n: nat): (s: string)
    ensures |s| >= 1 && AllDigits(s)
    ensures s[0] == '0' ==> n == 0
    decreases n
  {
    if n < 10 then [DigitChar(n)] else Decimal(n / 10) + [DigitChar(n % 10)]
  }

  /** The value a string of decimal digits denotes. */
  function ParseDecimal(s: string): nat
    requires AllDigits(s)
  {
    if s == [] then 0 else ParseDecimal(s[..|s| - 1]) * 10 + DigitValue(s[|s| - 1])
  }

  /** Reading back a printed numeral yields the number printed. */
  lemma {:induction false} DecimalRoundTrip(n: nat)
    ensures ParseDecimal(Decimal(n)) == n
    decreases n
  {
    if n >= 10 {
      var s := Decimal(n / 10);
      var t := s + [DigitChar(n % 10)];
      assert Decimal(n) == t;
      assert t[..|t| - 1] == s;
      DecimalRoundTrip(n / 10);
    }
  }

  /** `n + 1`: NaN stays NaN. */
  function Inc(n: Number): (r: Number)
    ensures r.NaN? <==> n.NaN?
    ensures r.Int? ==> r.value - 1 == n.value
  {
    match n
    case NaN => NaN
    case Int(v) => Int(v + 1)
  }

  /** The text `${n}` gives for an integral number or NaN. */
  function NumberText(n: Number): (s: string)
    ensures |s| >= 1
    ensures n.Int? && n.value >= 0 ==> AllDigits(s) && (s[0] == '0' ==> n.value == 0)
  {
    match n
    case NaN => "NaN"
    case Int(v) => if v >= 0 then Decimal(v) else "-" + Decimal(-v)
  }

  /** Reads back the text of a number: `NaN`, a digit string, or a minus sign
      followed by one. */
  function ParseNumber(s: string): Option<Number> {
    if s == "NaN" then Some(NaN)
    else if |s| >= 2 && s[0] == '-' && AllDigits(s[1..]) then Some(Int(-(ParseDecimal(s[1..]) as int)))
    else if |s| >= 1 && AllDigits(s) then Some(Int(ParseDecimal(s)))
    else None
  }

  /** Reading back the text of a number yields that number. */
  lemma NumberTextRoundTrip(n: Number)
    ensures ParseNumber(NumberText(n)) == Some(n)
  {
    match n
    case NaN =>
    case Int(v) =>
      var s := NumberText(n);
      if v >= 0 {
        DecimalRoundTrip(v);
        assert s[0] != 'N' && s[0] != '-';
      } else {
        DecimalRoundTrip(-v);
        assert s[0] == '-' && s[1..] == Decimal(-v);
      }
  }
}
