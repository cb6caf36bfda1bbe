/** `getDisplayNumber`: the text of a number as the display shows it, its
    integer part grouped with commas and its fraction exactly as typed. */
module Display {
  import opened Strings
  import opened Numbers
  import opened Locale

  /** `getDisplayNumber(number)`, given `number.toString()`: the text is split
      at its points; the piece before the first one is read with `parseFloat`
      and shown grouped, or as nothing when it reads as NaN; when the text has
      a point, the display goes on with a point and the piece after it. The
      display has one point when the text has any, and none otherwise. */
  function GetDisplayNumber(text: string): (display: string)
    ensures Count(display, '.') == if '.' in text then 1 else 0
  {
    var parts := Split(text, '.');
    var integerDisplay := IntegerDisplay(parts[0]);
    if |parts| > 1 then
      CountAppend(integerDisplay, ".", '.');
      CountAppend(integerDisplay + ".", parts[1], '.');
      integerDisplay + "." + parts[1]
    else integerDisplay
  }

  /** The integer digits as shown: nothing exactly when they read as NaN, and
      never a point. `parseFloat` reads text with a minus sign and a zero
      value as negative zero, which is shown as `-0`; the numbers of this
      model carry no sign on zero, so that sign is taken from the text. */
  function IntegerDisplay(integerPart: string): (shown: string)
    ensures '.' !in shown
    ensures shown == [] <==> ParseFloat(integerPart).NaN?
  {
    var integerDigits := ParseFloat(integerPart);
    if integerDigits.NaN? then ""
    else if integerDigits == Finite(0.0) && |integerPart| > 0 && integerPart[0] == '-' then "-0"
    else LocaleText(integerDigits)
  }

  /** Keyed text with at most one point whose integer part has no
      superfluous leading zero. The keys can also type `007`, which is shown
      as `7` (see LeadingZerosExample). */
  predicate IsTypedNumber(text: string) {
    && IsKeyed(text)
    && Count(text, '.') <= 1
    && var whole := Split(text, '.')[0]; whole == [] || Canonical(whole)
  }

  /** The first piece of keyed text is digits, followed by nothing or by a point. */
  lemma KeyedFirstPiece(text: string)
    requires IsKeyed(text)
    ensures var p := Split(text, '.')[0];
            && IsDigits(p) && |p| <= |text| && text == p + text[|p|..]
            && (|p| < |text| ==> text[|p|] == '.')
  {
    var p := Split(text, '.')[0];
    SplitFirst(text, '.');
    assert forall i | 0 <= i < |p| :: p[i] == text[i];
  }

  /** Keyed text is its integer digits, optionally followed by a point, the
      fraction digits and whatever follows from a second point on. */
  lemma KeyedParts(text: string) returns (whole: string, fraction: string, rest: string)
    requires IsKeyed(text)
    ensures IsDigits(whole) && IsDigits(fraction) && whole == Split(text, '.')[0]
    ensures '.' !in text ==> text == whole
    ensures '.' in text ==>
              && text == whole + "." + fraction + rest
              && IsDigits(fraction) && fraction == Split(text, '.')[1]
              && (rest == [] || rest[0] == '.')
  {
    whole, fraction, rest := Split(text, '.')[0], [], [];
    KeyedFirstPiece(text);
    if |whole| == |text| {
      assert whole == text;
    } else {
      var tail := text[|whole| + 1..];
      assert text == whole + "." + tail;
      assert IsKeyed(tail) by {
        assert forall i | 0 <= i < |tail| :: tail[i] == text[|whole| + 1 + i];
      }
      SplitAround(whole, '.', tail);
      SplitNoSep(whole, '.');
      assert Split(text, '.') == [whole] + Split(tail, '.');
      fraction := Split(tail, '.')[0];
      KeyedFirstPiece(tail);
      rest := tail[|fraction|..];
    }
  }

  /** The display has a point exactly when the text has one, and after it
      exactly the fraction digits of the text, unformatted. */
  lemma FractionAsTyped(text: string)
    ensures '.' in GetDisplayNumber(text) <==> '.' in text
    ensures '.' in text ==> Split(GetDisplayNumber(text), '.')[1..] == [Split(text, '.')[1]]
  {
    var parts := Split(text, '.');
    var integerDisplay := IntegerDisplay(parts[0]);
    if |parts| > 1 {
      SplitAround(integerDisplay, '.', parts[1]);
      SplitNoSep(integerDisplay, '.');
      SplitNoSep(parts[1], '.');
      assert GetDisplayNumber(text) == integerDisplay + "." + parts[1];
      assert Split(GetDisplayNumber(text), '.') == [integerDisplay, parts[1]];
    }
  }

  lemma RemoveCommasPoint(d: string, fraction: string)
    requires IsDigits(fraction)
    ensures RemoveCommas(d + "." + fraction) == RemoveCommas(d) + "." + fraction
  {
    assert d + "." + fraction == d + ("." + fraction);
    RemoveCommasAppend(d, "." + fraction);
    RemoveCommasNone("." + fraction);
  }

  /** Integer digits are shown as their value grouped by thousands, and no
      digits as nothing. */
  lemma IntegerDisplayDigits(whole: string)
    requires IsDigits(whole)
    ensures IntegerDisplay(whole) == if whole == [] then "" else Group(DigitsValue(whole))
    ensures '.' !in IntegerDisplay(whole)
  {
    ParseDigits(whole);
    LocaleWhole(DigitsValue(whole));
    assert whole != [] ==> whole[0] != '-';
  }

  /** The display of keyed text in terms of its pieces. */
  lemma KeyedDisplay(text: string) returns (whole: string, fraction: string, rest: string)
    requires IsKeyed(text)
    ensures IsDigits(whole) && IsDigits(fraction) && whole == Split(text, '.')[0]
    ensures '.' !in text ==> text == whole && GetDisplayNumber(text) == IntegerDisplay(whole)
    ensures '.' in text ==>
              && text == whole + "." + fraction + rest
              && (rest == [] || rest[0] == '.')
              && GetDisplayNumber(text) == IntegerDisplay(whole) + "." + fraction
  {
    whole, fraction, rest := KeyedParts(text);
    if '.' !in text {
      SplitNoSep(text, '.');
    }
  }

  /** The integer digits of keyed text are shown as their value grouped by
      thousands, and as nothing when there are none. */
  lemma IntegerPartGrouped(text: string)
    requires IsKeyed(text)
    ensures IsDigits(Split(text, '.')[0])
    ensures var whole := Split(text, '.')[0];
            var shown := Split(GetDisplayNumber(text), '.')[0];
            && (shown == [] <==> whole == [])
            && (shown != [] ==> WellGrouped(shown) && RemoveCommas(shown) == DecimalText(DigitsValue(whole)))
  {
    var whole, fraction, rest := KeyedDisplay(text);
    IntegerDisplayDigits(whole);
    assert IsDigits(Split(text, '.')[0]);
    var shown := IntegerDisplay(whole);
    LocaleWhole(DigitsValue(whole));
    SplitNoSep(shown, '.');
    if '.' in text {
      SplitAround(shown, '.', fraction);
    }
    assert Split(GetDisplayNumber(text), '.')[0] == shown;
  }

  /** The display denotes the same number as the keyed text it shows: with
      the commas taken out, `parseFloat` reads the same value from both. */
  lemma DisplayKeepsValue(text: string)
    requires IsKeyed(text)
    ensures ParseFloat(RemoveCommas(GetDisplayNumber(text))) == ParseFloat(text)
  {
    var whole, fraction, rest := KeyedDisplay(text);
    IntegerDisplayDigits(whole);
    var n := DigitsValue(whole);
    var shownWhole := if whole == [] then "" else DecimalText(n);
    LocaleWhole(n);
    DecimalTextCanonical(n);
    assert RemoveCommas(IntegerDisplay(whole)) == shownWhole;
    assert IsDigits(shownWhole) && DigitsValue(shownWhole) == n;
    if '.' in text {
      var v := if whole == [] && fraction == [] then NaN else Finite(DecimalValue(whole, fraction));
      RemoveCommasPoint(IntegerDisplay(whole), fraction);
      var plain := RemoveCommas(GetDisplayNumber(text));
      assert plain == shownWhole + "." + fraction;
      ParseDecimalEnd(shownWhole, fraction);
      assert DecimalValue(shownWhole, fraction) == DecimalValue(whole, fraction);
      assert ParseFloat(plain) == v;
      ParseDecimal(whole, fraction, rest);
      assert ParseFloat(text) == v;
    } else {
      ParseDigits(shownWhole);
      ParseDigits(whole);
    }
  }

  /** For keyed text with at most one point and a canonical integer part,
      removing the commas from the display gives back exactly that text. */
  lemma DisplayRoundTrip(text: string)
    requires IsTypedNumber(text)
    ensures RemoveCommas(GetDisplayNumber(text)) == text
  {
    var whole, fraction, rest := KeyedDisplay(text);
    IntegerDisplayDigits(whole);
    LocaleWhole(DigitsValue(whole));
    if whole != [] {
      CanonicalDecimalText(whole);
    }
    assert RemoveCommas(IntegerDisplay(whole)) == whole;
    if '.' in text {
      RemoveCommasPoint(IntegerDisplay(whole), fraction);
      CountAppend(whole + "." + fraction, rest, '.');
      CountAppend(whole + ".", fraction, '.');
      CountAppend(whole, ".", '.');
      assert rest == [];
    }
  }

  /** Digits alone are shown as their integer display. */
  lemma DigitsDisplay(whole: string)
    requires IsDigits(whole)
    ensures GetDisplayNumber(whole) == IntegerDisplay(whole)
  {
    SplitNoSep(whole, '.');
  }

  /** Digits, a point and digits are shown as the integer display, the point
      and the fraction digits. */
  lemma DecimalDisplay(whole: string, fraction: string)
    requires IsDigits(whole) && IsDigits(fraction)
    ensures GetDisplayNumber(whole + "." + fraction) == IntegerDisplay(whole) + "." + fraction
  {
    SplitAround(whole, '.', fraction);
    SplitNoSep(whole, '.');
    SplitNoSep(fraction, '.');
  }

  lemma DigitsValueThousand()
    ensures IsDigits("1000") && DigitsValue("1000") == 1000
  {
    assert DigitsValue("1") == 1;
    assert DigitsValue("10") == 10 by { assert "10"[..1] == "1"; }
    assert DigitsValue("100") == 100 by { assert "100"[..2] == "10"; }
    assert "1000"[..3] == "100";
  }

  lemma GroupThousand()
    ensures Group(1000) == "1,000"
  {
    assert Digit(0) == '0' && Digit(1) == '1';
    assert Pad3(0) == "000";
    assert Group(1) == "1";
  }

  lemma ThousandIntegerDisplay()
    ensures IsDigits("1000") && IntegerDisplay("1000") == "1,000"
  {
    DigitsValueThousand();
    GroupThousand();
    IntegerDisplayDigits("1000");
  }

  /** A thousand is shown with its comma. */
  lemma ThousandExample()
    ensures GetDisplayNumber("1000") == "1,000"
  {
    ThousandIntegerDisplay();
    DigitsDisplay("1000");
  }

  /** A thousand is shown with its comma before the fraction: `1000.5` as
      `1,000.5`. */
  lemma ThousandFractionExample()
    ensures GetDisplayNumber("1000" + "." + "5") == "1,000" + "." + "5"
  {
    ThousandIntegerDisplay();
    DecimalDisplay("1000", "5");
  }

  /** Nothing shows nothing. */
  lemma EmptyExample()
    ensures GetDisplayNumber("") == ""
  {
    IntegerDisplayDigits("");
    DigitsDisplay("");
  }

  /** A point with no digits after it is kept as typed: `1.` is shown as `1.`. */
  lemma TrailingPointExample()
    ensures GetDisplayNumber("1" + "." + "") == "1" + "." + ""
  {
    assert IntegerDisplay("1") == "1" by {
      IntegerDisplayDigits("1");
      assert DigitsValue("1") == 1 && Group(1) == [Digit(1)];
    }
    DecimalDisplay("1", "");
  }

  /** A point with no digits before it is kept as typed: `.5` is shown as `.5`. */
  lemma LeadingPointExample()
    ensures GetDisplayNumber("" + "." + "5") == "" + "." + "5"
  {
    IntegerDisplayDigits("");
    DecimalDisplay("", "5");
  }

  /** Keyed zeros before a digit are not kept: `007` is shown as `7`, so the
      round trip through the display needs a canonical integer part. */
  lemma LeadingZerosExample()
    ensures IsKeyed("007") && !IsTypedNumber("007")
    ensures GetDisplayNumber("007") == "7" && RemoveCommas(GetDisplayNumber("007")) != "007"
  {
    assert DigitsValue("0") == 0;
    assert DigitsValue("00") == 0 by { assert "00"[..1] == "0"; }
    assert DigitsValue("007") == 7 by { assert "007"[..2] == "00"; }
    assert Group(7) == "7" by { assert Digit(7) == '7'; }
    IntegerDisplayDigits("007");
    DigitsDisplay("007");
    SplitNoSep("007", '.');
    assert RemoveCommas("7") == "7";
  }

  /** Digits that read as zero, after a minus sign, read as negative zero
      and are shown as `-0`. */
  lemma NegativeZeroDisplay(w: string)
    requires IsDigits(w) && w != [] && DigitsValue(w) == 0
    ensures IntegerDisplay("-" + w) == "-0"
  {
    ParseDigits(w);
    ParsePlain(w);
    assert ("-" + w)[1..] == w;
  }

  /** A negative fraction of magnitude below one keeps its minus sign:
      `-0.5` is shown as `-0.5`. */
  lemma NegativeHalfExample()
    ensures GetDisplayNumber("-0" + "." + "5") == "-0" + "." + "5"
  {
    assert IntegerDisplay("-0") == "-0" by {
      assert DigitsValue("0") == 0 && "-" + "0" == "-0";
      NegativeZeroDisplay("0");
    }
    SplitAround("-0", '.', "5");
    SplitNoSep("-0", '.');
    SplitNoSep("5", '.');
  }
}
