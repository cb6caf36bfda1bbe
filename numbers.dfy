/** The numbers the calculator computes with, JavaScript's `parseFloat`
    and the four arithmetic operators.

    A number is an exact real, an infinity or NaN: the special values follow
    IEEE 754 (what `5 / 0` or `Infinity - Infinity` gives), but finite
    results are not rounded to double precision and there is no negative zero. */
module Numbers {
  import opened Strings

  datatype Num = Finite(r: real) | Infinite(positive: bool) | NaN

  function DigitValue(c: char): (d: nat)
    requires IsDigit(c)
    ensures d < 10
  {
    c as int - '0' as int
  }

  function Digit(d: nat): (c: char)
    requires d < 10
    ensures IsDigit(c) && DigitValue(c) == d
  {
    ('0' as int + d) as char
  }

  /** The value of a run of decimal digits, most significant first; 0 for none. */
  function DigitsValue(s: string): nat
    requires IsDigits(s)
  {
    if s == [] then 0 else 10 * DigitsValue(s[..|s| - 1]) + DigitValue(s[|s| - 1])
  }

  function Pow10(n: nat): (p: nat)
    ensures p >= 1
  {
    if n == 0 then 1 else 10 * Pow10(n - 1)
  }

  /** The value of `whole.fraction` written in decimal. */
  function DecimalValue(whole: string, fraction: string): real
    requires IsDigits(whole) && IsDigits(fraction)
  {
    DigitsValue(whole) as real + DigitsValue(fraction) as real / Pow10(|fraction|) as real
  }

  /** The length of the run of digits that starts `s`. */
  function DigitRun(s: string): (n: nat)
    ensures n <= |s| && IsDigits(s[..n])
    ensures n < |s| ==> !IsDigit(s[n])
  {
    if s == [] || !IsDigit(s[0]) then 0 else 1 + DigitRun(s[1..])
  }

  /** The run of digits stops where the first non-digit is. */
  lemma {:induction false} DigitRunStops(a: string, rest: string)
    requires IsDigits(a)
    requires rest == [] || !IsDigit(rest[0])
    ensures DigitRun(a + rest) == |a|
  {
    if a != [] {
      assert (a + rest)[1..] == a[1..] + rest;
      DigitRunStops(a[1..], rest);
    } else {
      assert a + rest == rest;
    }
  }

  /** The exponent that an `e`/`E` part at the start of `s` denotes; 0 when
      `s` does not start with one (an `e` without digits is not one). */
  function Exponent(s: string): int {
    if |s| >= 2 && (s[0] == 'e' || s[0] == 'E') then
      var digits := if s[1] == '-' || s[1] == '+' then s[2..] else s[1..];
      var n := DigitRun(digits);
      var magnitude: int := DigitsValue(digits[..n]);
      if s[1] == '-' then -magnitude else magnitude
    else 0
  }

  function Scale(x: real, e: int): real {
    if e >= 0 then x * Pow10(e) as real else x / Pow10(-e) as real
  }

  /** `parseFloat(s)`: the value of the longest prefix of `s` that reads as a
      decimal literal (an optional sign, then `Infinity`, or digits with an
      optional point, fraction digits and exponent, with at least one digit
      before the exponent), and NaN when no prefix does. */
  function ParseFloat(s: string): (r: Num)
    ensures |s| > 0 && IsDigit(s[0]) ==> r.Finite?
    ensures (forall i | 0 <= i < |s| :: !IsDigit(s[i]) && s[i] != 'I') ==> r.NaN?
  {
    if |s| > 0 && s[0] == '-' then Negate(ParseUnsigned(s[1..]))
    else if |s| > 0 && s[0] == '+' then ParseUnsigned(s[1..])
    else ParseUnsigned(s)
  }

  /** A literal without its sign: a number when it starts with a digit, and
      NaN when it has no digit and does not start with `Infinity`. */
  function ParseUnsigned(s: string): (r: Num)
    ensures |s| > 0 && IsDigit(s[0]) ==> r.Finite?
    ensures (forall i | 0 <= i < |s| :: !IsDigit(s[i]) && s[i] != 'I') ==> r.NaN?
  {
    if |s| >= 8 && s[..8] == "Infinity" then assert s[0] == s[..8][0]; Infinite(true)
    else
      var i := DigitRun(s);
      if i < |s| && s[i] == '.' then ParseFraction(s[..i], s[i + 1..])
      else if i == 0 then NaN
      else Finite(Scale(DigitsValue(s[..i]) as real, Exponent(s[i..])))
  }

  /** The rest of a literal whose integer digits `whole` and point are read. */
  function ParseFraction(whole: string, s: string): (r: Num)
    requires IsDigits(whole)
    ensures whole != [] ==> r.Finite?
    ensures whole == [] && (s == [] || !IsDigit(s[0])) ==> r.NaN?
  {
    var f := DigitRun(s);
    if |whole| + f == 0 then NaN
    else Finite(Scale(DecimalValue(whole, s[..f]), Exponent(s[f..])))
  }

  /** Text that starts with a digit or a point reads without sign or `Infinity`. */
  lemma ParsePlain(s: string)
    requires |s| > 0 && (IsDigit(s[0]) || s[0] == '.')
    ensures ParseFloat(s) == ParseUnsigned(s)
    ensures !(|s| >= 8 && s[..8] == "Infinity")
  {
    if |s| >= 8 {
      assert s[..8][0] == s[0];
    }
  }

  /** A run of digits reads as its value; nothing reads as NaN. */
  lemma ParseDigits(a: string)
    requires IsDigits(a)
    ensures ParseFloat(a) == if a == [] then NaN else Finite(DigitsValue(a) as real)
  {
    if a != [] {
      ParsePlain(a);
      DigitRunStops(a, []);
      assert a + [] == a;
      assert a[..|a|] == a && a[|a|..] == [];
      var v := DigitsValue(a) as real;
      assert Scale(v, Exponent([])) == v;
      assert ParseUnsigned(a) == Finite(Scale(v, Exponent(a[|a|..])));
    }
  }

  /** Digits, a point and digits read as that decimal, whatever follows from
      the next point on; a lone point reads as NaN. */
  lemma ParseDecimal(a: string, b: string, rest: string)
    requires IsDigits(a) && IsDigits(b)
    requires rest == [] || rest[0] == '.'
    ensures ParseFloat(a + "." + b + rest) ==
            if a == [] && b == [] then NaN else Finite(DecimalValue(a, b))
  {
    ParsePointAfterDigits(a, b + rest);
    assert a + "." + b + rest == a + "." + (b + rest);
    ParseFractionDigits(a, b, rest);
  }

  lemma ParseDecimalEnd(a: string, b: string)
    requires IsDigits(a) && IsDigits(b)
    ensures ParseFloat(a + "." + b) ==
            if a == [] && b == [] then NaN else Finite(DecimalValue(a, b))
  {
    assert a + "." + b + [] == a + "." + b;
    ParseDecimal(a, b, []);
  }

  lemma ParsePointAfterDigits(a: string, t: string)
    requires IsDigits(a)
    ensures ParseFloat(a + "." + t) == ParseFraction(a, t)
  {
    var s := a + "." + t;
    assert s[..|a|] == a;
    assert s[|a| + 1..] == t;
    assert s == a + s[|a|..];
    assert s[0] == if a == [] then '.' else a[0];
    ParsePlain(s);
    DigitRunStops(a, s[|a|..]);
  }

  lemma ParseFractionDigits(a: string, b: string, rest: string)
    requires IsDigits(a) && IsDigits(b)
    requires rest == [] || rest[0] == '.'
    ensures ParseFraction(a, b + rest) ==
            if a == [] && b == [] then NaN else Finite(DecimalValue(a, b))
  {
    var tail := b + rest;
    DigitRunStops(b, rest);
    var f := DigitRun(tail);
    assert tail[..f] == b;
    assert tail[f..] == rest;
    assert Exponent(rest) == 0;
  }

  function Negate(x: Num): (r: Num)
    ensures r.NaN? <==> x.NaN?
    ensures r.Finite? <==> x.Finite?
  {
    match x
    case Finite(r) => Finite(-r)
    case Infinite(positive) => Infinite(!positive)
    case NaN => NaN
  }

  /** `a + b`: finite exactly when both operands are, and NaN exactly when
      an operand is NaN or infinities of opposite signs meet. */
  function Add(a: Num, b: Num): (r: Num)
    ensures r.Finite? <==> a.Finite? && b.Finite?
    ensures r.NaN? <==> a.NaN? || b.NaN? || (a.Infinite? && b.Infinite? && a.positive != b.positive)
  {
    match (a, b)
    case (NaN, _) => NaN
    case (_, NaN) => NaN
    case (Infinite(p), Infinite(q)) => if p == q then a else NaN
    case (Infinite(_), Finite(_)) => a
    case (Finite(_), Infinite(_)) => b
    case (Finite(x), Finite(y)) => Finite(x + y)
  }

  /** `a - b`: NaN exactly when an operand is NaN or an infinity is taken
      from an infinity of the same sign. */
  function Subtract(a: Num, b: Num): (r: Num)
    ensures r.Finite? <==> a.Finite? && b.Finite?
    ensures r.NaN? <==> a.NaN? || b.NaN? || (a.Infinite? && b.Infinite? && a.positive == b.positive)
  {
    Add(a, Negate(b))
  }

  /** `a * b`: NaN exactly when an operand is NaN or an infinity meets zero. */
  function Multiply(a: Num, b: Num): (r: Num)
    ensures r.Finite? <==> a.Finite? && b.Finite?
    ensures r.NaN? <==> a.NaN? || b.NaN? || (a.Infinite? && b == Finite(0.0)) || (a == Finite(0.0) && b.Infinite?)
  {
    match (a, b)
    case (NaN, _) => NaN
    case (_, NaN) => NaN
    case (Infinite(p), Infinite(q)) => Infinite(p == q)
    case (Infinite(p), Finite(y)) => if y == 0.0 then NaN else Infinite(p == (y > 0.0))
    case (Finite(x), Infinite(q)) => if x == 0.0 then NaN else Infinite(q == (x > 0.0))
    case (Finite(x), Finite(y)) => Finite(x * y)
  }

  /** `a / b`: a non-zero number over zero is an infinity of its sign, and
      zero over zero is NaN. */
  function Divide(a: Num, b: Num): (r: Num)
    ensures r.NaN? <==> a.NaN? || b.NaN? || (a.Infinite? && b.Infinite?) || (a == Finite(0.0) && b == Finite(0.0))
    ensures r.Infinite? <==> (a.Infinite? && b.Finite?) || (a.Finite? && a != Finite(0.0) && b == Finite(0.0))
  {
    match (a, b)
    case (NaN, _) => NaN
    case (_, NaN) => NaN
    case (Infinite(_), Infinite(_)) => NaN
    case (Infinite(p), Finite(y)) => Infinite(p == (y >= 0.0))
    case (Finite(_), Infinite(_)) => Finite(0.0)
    case (Finite(x), Finite(y)) =>
      if y != 0.0 then Finite(x / y)
      else if x == 0.0 then NaN
      else Infinite(x > 0.0)
  }

  /** Dividing by zero gives no finite number: an infinity of the dividend's
      sign, or NaN for zero over zero. */
  lemma DivideByZero(x: real)
    ensures x > 0.0 ==> Divide(Finite(x), Finite(0.0)) == Infinite(true)
    ensures x < 0.0 ==> Divide(Finite(x), Finite(0.0)) == Infinite(false)
    ensures x == 0.0 ==> Divide(Finite(x), Finite(0.0)) == NaN
  {
  }
}
