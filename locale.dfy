/** `toLocaleString('en', { maximumFractionDigits: 0 })`: a number rounded
    to a whole number and written in decimal with a comma before every group
    of three digits counted from the right. */
module Locale {
  import opened Strings
  import opened Numbers

  /** The shortest decimal numeral of `n`. */
  function DecimalText(n: nat): (s: string)
    ensures IsDigits(s) && |s| > 0
  {
    if n < 10 then [Digit(n)] else DecimalText(n / 10) + [Digit(n % 10)]
  }

  /** A numeral without superfluous leading zeros. */
  predicate Canonical(s: string) {
    IsDigits(s) && |s| > 0 && (s[0] == '0' ==> |s| == 1)
  }

  lemma {:induction false} DecimalTextCanonical(n: nat)
    ensures Canonical(DecimalText(n))
    ensures DigitsValue(DecimalText(n)) == n
  {
    if n >= 10 {
      DecimalTextCanonical(n / 10);
      var s := DecimalText(n);
      assert s[..|s| - 1] == DecimalText(n / 10);
    }
  }

  lemma {:induction false} LeadingDigitPositive(s: string)
    requires IsDigits(s) && |s| > 0 && s[0] != '0'
    ensures DigitsValue(s) > 0
  {
    if |s| > 1 {
      LeadingDigitPositive(s[..|s| - 1]);
    }
  }

  /** A canonical numeral is the decimal text of its own value. */
  lemma {:induction false} CanonicalDecimalText(s: string)
    requires Canonical(s)
    ensures DecimalText(DigitsValue(s)) == s
  {
    if |s| > 1 {
      var init := s[..|s| - 1];
      LeadingDigitPositive(init);
      CanonicalDecimalText(init);
      var n := DigitsValue(s);
      assert n / 10 == DigitsValue(init) && n % 10 == DigitValue(s[|s| - 1]);
      assert [Digit(n % 10)] == [s[|s| - 1]];
    } else {
      assert DecimalText(DigitsValue(s)) == [s[0]];
    }
  }

  /** The three digits of `m`, with leading zeros. */
  function Pad3(m: nat): (s: string)
    requires m < 1000
    ensures IsDigits(s) && |s| == 3
  {
    [Digit(m / 10 / 10), Digit(m / 10 % 10), Digit(m % 10)]
  }

  /** The digits of `n` with a comma before every group of three. */
  function Group(n: nat): (g: string)
    ensures |g| > 0 && g[0] != '-' && '.' !in g
  {
    if n < 1000 then DecimalText(n) else Group(n / 1000) + "," + Pad3(n % 1000)
  }

  function RemoveCommas(s: string): (r: string)
    ensures ',' !in r
  {
    if s == [] then [] else (if s[0] == ',' then [] else [s[0]]) + RemoveCommas(s[1..])
  }

  lemma {:induction false} RemoveCommasAppend(s: string, t: string)
    ensures RemoveCommas(s + t) == RemoveCommas(s) + RemoveCommas(t)
  {
    if s == [] {
      assert s + t == t;
    } else {
      var head := if s[0] == ',' then [] else [s[0]];
      assert (s + t)[0] == s[0] && (s + t)[1..] == s[1..] + t;
      assert RemoveCommas(s + t) == head + RemoveCommas(s[1..] + t);
      RemoveCommasAppend(s[1..], t);
      assert RemoveCommas(s) == head + RemoveCommas(s[1..]);
    }
  }

  lemma {:induction false} RemoveCommasNone(s: string)
    requires ',' !in s
    ensures RemoveCommas(s) == s
  {
    if s != [] {
      RemoveCommasNone(s[1..]);
      assert [s[0]] + s[1..] == s;
    }
  }

  /** Removing the commas around a comma-free piece keeps the piece. */
  lemma RemoveCommasGroup(g: string, p: string)
    requires IsDigits(p)
    ensures RemoveCommas(g + "," + p) == RemoveCommas(g) + p
  {
    assert ',' !in p by {
      assert forall i | 0 <= i < |p| :: IsDigit(p[i]);
    }
    RemoveCommasNone(p);
    assert RemoveCommas(",") == [] + RemoveCommas([]);
    RemoveCommasAppend(g, ",");
    var h := g + ",";
    assert RemoveCommas(h) == RemoveCommas(g);
    RemoveCommasAppend(h, p);
  }

  lemma DivTen(x: nat, y: nat, d: nat)
    requires d < 10 && x == 10 * y + d
    ensures x / 10 == y && x % 10 == d
  {
  }

  lemma DecimalTextStep(n: nat)
    requires n >= 10
    ensures DecimalText(n) == DecimalText(n / 10) + [Digit(n % 10)]
  {
  }

  /** The last three digits of a number of four or more digits are Pad3 of its
      remainder by 1000. */
  lemma ThousandsSplit(n: nat)
    requires n >= 1000
    ensures DecimalText(n) == DecimalText(n / 1000) + Pad3(n % 1000)
  {
    var q, m := n / 1000, n % 1000;
    var m1, c := m / 10, m % 10;
    var m2, b := m1 / 10, m1 % 10;
    DivTen(n, 100 * q + m1, c);
    DivTen(n / 10, 10 * q + m2, b);
    DivTen(n / 10 / 10, q, m2);
    DecimalTextStep(n);
    DecimalTextStep(n / 10);
    DecimalTextStep(n / 10 / 10);
    assert Pad3(m) == [Digit(m2), Digit(b), Digit(c)];
  }

  /** Removing the commas from a grouped number gives back its numeral. */
  lemma {:induction false} GroupDigits(n: nat)
    ensures RemoveCommas(Group(n)) == DecimalText(n)
  {
    if n < 1000 {
      DecimalTextCanonical(n);
      RemoveCommasNone(DecimalText(n));
    } else {
      GroupDigits(n / 1000);
      RemoveCommasGroup(Group(n / 1000), Pad3(n % 1000));
      ThousandsSplit(n);
    }
  }

  /** Digit groups separated by commas: one to three digits first, then
      exactly three in every later group. */
  predicate WellGrouped(s: string) {
    var groups := Split(s, ',');
    && 1 <= |groups[0]| <= 3
    && (forall k | 0 <= k < |groups| :: IsDigits(groups[k]))
    && (forall k | 1 <= k < |groups| :: |groups[k]| == 3)
  }

  /** A number below a thousand has at most three digits. */
  lemma SmallDecimalText(n: nat)
    requires n < 1000
    ensures |DecimalText(n)| <= 3
  {
    if n >= 10 {
      DecimalTextStep(n);
      if n / 10 >= 10 {
        DecimalTextStep(n / 10);
      }
    }
  }

  lemma WellGroupedSingle(s: string)
    requires IsDigits(s) && 1 <= |s| <= 3
    ensures WellGrouped(s)
  {
    assert ',' !in s by {
      assert forall i | 0 <= i < |s| :: IsDigit(s[i]);
    }
    SplitNoSep(s, ',');
  }

  lemma WellGroupedAppend(g: string, p: string)
    requires WellGrouped(g) && IsDigits(p) && |p| == 3
    ensures WellGrouped(g + "," + p)
  {
    assert ',' !in p by {
      assert forall i | 0 <= i < |p| :: IsDigit(p[i]);
    }
    SplitAround(g, ',', p);
    SplitNoSep(p, ',');
    assert Split(g + "," + p, ',') == Split(g, ',') + [p];
  }

  lemma {:induction false} GroupShape(n: nat)
    ensures WellGrouped(Group(n))
  {
    if n < 1000 {
      SmallDecimalText(n);
      WellGroupedSingle(DecimalText(n));
    } else {
      GroupShape(n / 1000);
      WellGroupedAppend(Group(n / 1000), Pad3(n % 1000));
    }
  }

  /** Rounding to the nearest whole number with ties away from zero, the
      default rounding of `Intl.NumberFormat`. */
  function RoundHalfExpand(r: real): (k: int)
    ensures r >= 0.0 ==> k as real - 0.5 <= r < k as real + 0.5
    ensures r < 0.0 ==> k as real - 0.5 < r <= k as real + 0.5
  {
    if r >= 0.0 then (r + 0.5).Floor else -((-r + 0.5).Floor)
  }

  /** `x.toLocaleString('en', { maximumFractionDigits: 0 })`: no fraction
      digits; a finite number is shown with a minus sign exactly when it is
      negative (one that rounds to zero as `-0`), followed by the digits of
      its rounded magnitude grouped by thousands. */
  function LocaleText(x: Num): (shown: string)
    ensures '.' !in shown && |shown| > 0
    ensures x.Finite? ==>
              var k := RoundHalfExpand(x.r);
              && (shown[0] == '-' <==> x.r < 0.0)
              && RemoveCommas(shown) == if x.r < 0.0 then "-" + DecimalText(-k) else DecimalText(k)
  {
    match x
    case NaN => "NaN"
    case Infinite(positive) => if positive then "∞" else "-∞"
    case Finite(r) =>
      var k := RoundHalfExpand(r);
      if r < 0.0 then
        GroupDigits(-k);
        RemoveCommasAppend("-", Group(-k));
        RemoveCommasNone("-");
        "-" + Group(-k)
      else
        GroupDigits(k);
        Group(k)
  }

  /** A whole number that is not negative is shown as its grouped digits, and
      the digits alone give back its value. */
  lemma LocaleWhole(n: nat)
    ensures LocaleText(Finite(n as real)) == Group(n)
    ensures WellGrouped(Group(n))
    ensures RemoveCommas(Group(n)) == DecimalText(n)
    ensures DigitsValue(RemoveCommas(Group(n))) == n
  {
    assert RoundHalfExpand(n as real) == n;
    GroupShape(n);
    GroupDigits(n);
    DecimalTextCanonical(n);
  }
}
