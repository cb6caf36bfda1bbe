/** The calculator's state machine: the entry being typed (`currentNumber`),
    the operand waiting for its second argument (`previousNumber`) and the
    operator chosen for them (`operator`). */
module Calc {
  import opened Strings
  import opened Numbers
  import Display
  import Locale

  datatype Option<T> = None | Some(value: T)

  /** What a number field holds: text typed on the keys, or the number that
      `compute` stored there. */
  datatype Entry = Typed(text: string) | Computed(value: Num)

  /** The empty text `''` that `clear` puts in both fields. */
  const Empty: Entry := Typed("")

  /** What one key of the keypad types: a digit or the decimal point. */
  predicate IsKey(number: string) {
    number == "." || (|number| == 1 && IsDigit(number[0]))
  }

  /** `parseFloat(field)`: typed text is read; a stored number reads as itself,
      since `parseFloat` of a number's own text gives that number back. */
  function Parse(e: Entry): (n: Num)
    ensures e == Empty ==> n.NaN?
    ensures e.Typed? && e.text != [] && IsDigits(e.text) ==> n == Finite(DigitsValue(e.text) as real)
  {
    match e
    case Typed(text) =>
      if IsDigits(text) then ParseDigits(text); ParseFloat(text) else ParseFloat(text)
    case Computed(value) => value
  }

  /** The four operators the `switch` of `compute` knows. */
  predicate IsOperator(op: string) {
    op == "+" || op == "-" || op == "*" || op == "÷"
  }

  /** The result `compute` stores for a pending operation, or None when it
      returns without a change: an operand that reads as NaN, or an operator
      that is none of `+`, `-`, `*`, `÷`. */
  function Evaluate(previous: Entry, current: Entry, operator: Option<string>): (result: Option<Num>)
    ensures result.Some? <==>
              !Parse(previous).NaN? && !Parse(current).NaN? && operator.Some? && IsOperator(operator.value)
  {
    var prev, cur := Parse(previous), Parse(current);
    if prev.NaN? || cur.NaN? || operator.None? then None
    else Apply(operator.value, prev, cur)
  }

  /** The `switch` on the operator; None for the `default` case. Finite
      operands give a finite result except under division. */
  function Apply(operator: string, prev: Num, current: Num): (result: Option<Num>)
    ensures result.Some? <==> IsOperator(operator)
    ensures result.Some? && prev.Finite? && current.Finite? && operator != "÷" ==> result.value.Finite?
  {
    if operator == "+" then Some(Add(prev, current))
    else if operator == "-" then Some(Subtract(prev, current))
    else if operator == "*" then Some(Multiply(prev, current))
    else if operator == "÷" then Some(Divide(prev, current))
    else None
  }

  /** On finite operands the four operators are real arithmetic, division
      by a non-zero number included. */
  lemma ApplyFinite(x: real, y: real)
    ensures Apply("+", Finite(x), Finite(y)) == Some(Finite(x + y))
    ensures Apply("-", Finite(x), Finite(y)) == Some(Finite(x - y))
    ensures Apply("*", Finite(x), Finite(y)) == Some(Finite(x * y))
    ensures y != 0.0 ==> Apply("÷", Finite(x), Finite(y)) == Some(Finite(x / y))
  {
    assert "*" != "+" && "*" != "-";
    assert Multiply(Finite(x), Finite(y)) == Finite(x * y);
  }

  /** With an empty field there is nothing to compute. */
  lemma EvaluateNeedsOperands(previous: Entry, current: Entry, operator: Option<string>)
    requires previous == Empty || current == Empty
    ensures Evaluate(previous, current, operator) == None
  {
    ParseDigits("");
  }

  /** Two typed whole numbers combine by the operator applied to their values. */
  lemma EvaluateWholeNumbers(a: string, b: string, operator: string)
    requires IsDigits(a) && a != [] && IsDigits(b) && b != []
    ensures Evaluate(Typed(a), Typed(b), Some(operator)) ==
              Apply(operator, Finite(DigitsValue(a) as real), Finite(DigitsValue(b) as real))
  {
    ParseDigits(a);
    ParseDigits(b);
  }

  /** A typed point is refused when the entry has one, so an entry keyed with
      at most one point keeps at most one. */
  lemma AppendKeepsOnePoint(text: string, number: string)
    requires Count(text, '.') <= 1 && IsKey(number)
    requires !(number == "." && '.' in text)
    ensures Count(text + number, '.') <= 1
  {
    CountAppend(text, number, '.');
    if number != "." {
      assert Count(number[1..], '.') == 0;
    }
  }

  /** `delete` undoes what a key appended: the entry is the text it was before. */
  lemma DeleteUndoesAppend(text: string, number: string)
    requires IsKey(number)
    ensures DropLast(text + number) == text
  {
    assert (text + number)[..|text|] == text;
  }

  class Calculator {
    /** `Number.prototype.toString`, which this model does not spell out. */
    const numberText: Num -> string
    var currentNumber: Entry
    var previousNumber: Entry
    var operator: Option<string>

    /** An operator is pending exactly when an operand waits for it. */
    ghost predicate Valid()
      reads this
    {
      operator.None? <==> previousNumber == Empty
    }

    /** `field.toString()` */
    function Text(e: Entry): string {
      match e
      case Typed(text) => text
      case Computed(value) => numberText(value)
    }

    constructor (numberText: Num -> string)
      ensures Valid()
      ensures this.numberText == numberText
      ensures currentNumber == Empty && previousNumber == Empty && operator == None
    {
      this.numberText := numberText;
      new;
      Clear();
    }

    /** `clear` */
    method Clear()
      modifies this
      ensures Valid()
      ensures currentNumber == Empty && previousNumber == Empty && operator == None
    {
      currentNumber := Empty;
      previousNumber := Empty;
      operator := None;
    }

    /** `delete`: drops the last character of the entry's text. */
    method Delete()
      requires Valid()
      modifies this
      ensures Valid()
      ensures currentNumber == Typed(DropLast(Text(old(currentNumber))))
      ensures previousNumber == old(previousNumber) && operator == old(operator)
      ensures Count(Text(currentNumber), '.') <= Count(Text(old(currentNumber)), '.')
    {
      DropLastCount(Text(currentNumber), '.');
      currentNumber := Typed(DropLast(Text(currentNumber)));
    }

    /** `appendNumber`: a second point is refused; on a stored number, a point
        makes `includes` throw a TypeError before anything changes. */
    method AppendNumber(number: string) returns (thrown: bool)
      requires Valid()
      modifies this
      ensures Valid()
      ensures thrown <==> number == "." && old(currentNumber).Computed?
      ensures previousNumber == old(previousNumber) && operator == old(operator)
      ensures currentNumber ==
                if thrown || (number == "." && '.' in Text(old(currentNumber))) then old(currentNumber)
                else Typed(Text(old(currentNumber)) + number)
      ensures IsKey(number) && old(currentNumber).Typed? && Count(Text(old(currentNumber)), '.') <= 1 ==>
                Count(Text(currentNumber), '.') <= 1
    {
      thrown := false;
      if number == "." && currentNumber.Computed? {
        thrown := true;
        return;
      }
      if number == "." && '.' in currentNumber.text {
        return;
      }
      if IsKey(number) && Count(Text(currentNumber), '.') <= 1 {
        AppendKeepsOnePoint(Text(currentNumber), number);
      }
      currentNumber := Typed(Text(currentNumber) + number);
    }

    /** `chooseOperation`: nothing happens without an entry; otherwise a
        pending operation is computed first, and the entry (or the result)
        becomes the operand waiting for `op`. */
    method ChooseOperation(op: string)
      requires Valid()
      modifies this
      ensures Valid()
      ensures old(currentNumber) == Empty ==>
                currentNumber == old(currentNumber) && previousNumber == old(previousNumber) && operator == old(operator)
      ensures old(currentNumber) != Empty ==>
                && operator == Some(op)
                && currentNumber == Empty
                && previousNumber ==
                     if old(previousNumber) == Empty then old(currentNumber)
                     else match Evaluate(old(previousNumber), old(currentNumber), old(operator))
                          case Some(result) => Computed(result)
                          case None => old(currentNumber)
    {
      if currentNumber == Empty {
        return;
      }
      if previousNumber != Empty {
        Compute();
      }
      operator := Some(op);
      previousNumber := currentNumber;
      currentNumber := Empty;
    }

    /** `compute`: stores the pending operation's result in the entry and
        clears the operand and operator; changes nothing when an operand reads
        as NaN or the operator is unknown. The body follows the source's
        `switch`; `Evaluate` is the reference it is proved against. */
    method Compute()
      requires Valid()
      modifies this
      ensures Valid()
      ensures match Evaluate(old(previousNumber), old(currentNumber), old(operator))
              case Some(result) =>
                currentNumber == Computed(result) && previousNumber == Empty && operator == None
              case None =>
                currentNumber == old(currentNumber) && previousNumber == old(previousNumber) && operator == old(operator)
    {
      var prev := Parse(previousNumber);
      var current := Parse(currentNumber);
      if prev.NaN? || current.NaN? {
        return;
      }
      var computation: Num;
      if operator == Some("+") {
        computation := Add(prev, current);
      } else if operator == Some("-") {
        computation := Subtract(prev, current);
      } else if operator == Some("*") {
        computation := Multiply(prev, current);
      } else if operator == Some("÷") {
        computation := Divide(prev, current);
      } else {
        return;
      }
      currentNumber := Computed(computation);
      operator := None;
      previousNumber := Empty;
    }

    /** The two texts `updateDisplay` writes, current line first. The previous
        line is formatted only while an operator is pending; otherwise it is
        the raw field, which in a valid state is the empty text and so reads
        the same as its formatted display. */
    function UpdateDisplay(): (lines: (string, string))
      reads this
      ensures lines.0 == Display.GetDisplayNumber(Text(currentNumber))
      ensures operator.Some? ==>
                lines.1 == Display.GetDisplayNumber(Text(previousNumber)) + " " + operator.value
      ensures Valid() && operator.None? ==>
                lines.1 == "" && lines.1 == Display.GetDisplayNumber(Text(previousNumber))
      ensures currentNumber.Typed? && Display.IsTypedNumber(currentNumber.text) ==>
                Locale.RemoveCommas(lines.0) == currentNumber.text
    {
      Display.EmptyExample();
      var current := Display.GetDisplayNumber(Text(currentNumber));
      var previous :=
        if operator.Some? then Display.GetDisplayNumber(Text(previousNumber)) + " " + operator.value
        else Text(previousNumber);
      if currentNumber.Typed? && Display.IsTypedNumber(currentNumber.text) then
        Display.DisplayRoundTrip(currentNumber.text);
        (current, previous)
      else
        (current, previous)
    }
  }

  /** A second point is refused, and clearing leaves nothing to show. */
  method PointScenario(numberText: Num -> string) {
    var c := new Calculator(numberText);
    var thrown := c.AppendNumber(".");
    thrown := c.AppendNumber(".");
    assert c.currentNumber == Typed(".");
    c.Clear();
    Display.EmptyExample();
    assert c.UpdateDisplay() == ("", "");
  }

  /** 5 + 3 = 8 */
  method SumScenario(numberText: Num -> string) {
    ChainSums();
    var c := new Calculator(numberText);
    var thrown := c.AppendNumber("5");
    assert c.currentNumber == Typed("5");
    c.ChooseOperation("+");
    thrown := c.AppendNumber("3");
    assert c.currentNumber == Typed("3");
    c.Compute();
    assert c.currentNumber == Computed(Finite(8.0));
    assert c.previousNumber == Empty && c.operator == None;
  }

  /** 5 + 3 + 2 = 10: the second `+` computes 5 + 3 first. */
  method ChainScenario(numberText: Num -> string) {
    ChainSums();
    var c := new Calculator(numberText);
    var thrown := c.AppendNumber("5");
    assert c.currentNumber == Typed("5");
    c.ChooseOperation("+");
    thrown := c.AppendNumber("3");
    assert c.currentNumber == Typed("3");
    c.ChooseOperation("+");
    assert c.previousNumber == Computed(Finite(8.0)) && c.operator == Some("+");
    thrown := c.AppendNumber("2");
    assert c.currentNumber == Typed("2");
    c.Compute();
    assert c.currentNumber == Computed(Finite(10.0));
  }

  /** The sums the scenarios above key in. */
  lemma ChainSums()
    ensures Evaluate(Typed("5"), Typed("3"), Some("+")) == Some(Finite(8.0))
    ensures Evaluate(Computed(Finite(8.0)), Typed("2"), Some("+")) == Some(Finite(10.0))
  {
    assert Parse(Typed("5")) == Finite(5.0) && Parse(Typed("3")) == Finite(3.0) by {
      assert DigitsValue("5") == 5 && DigitsValue("3") == 3;
    }
    assert Parse(Typed("2")) == Finite(2.0) by {
      assert DigitsValue("2") == 2;
    }
    ApplyFinite(5.0, 3.0);
    ApplyFinite(8.0, 2.0);
  }

  /** 5 ÷ 0 stores an infinity, not an error. */
  method DivisionByZeroScenario(numberText: Num -> string) {
    FiveOverZero();
    var c := new Calculator(numberText);
    var thrown := c.AppendNumber("5");
    assert c.currentNumber == Typed("5");
    c.ChooseOperation("÷");
    thrown := c.AppendNumber("0");
    assert c.currentNumber == Typed("0");
    c.Compute();
    assert c.currentNumber == Computed(Infinite(true));
  }

  lemma FiveOverZero()
    ensures Evaluate(Typed("5"), Typed("0"), Some("÷")) == Some(Infinite(true))
  {
    assert Parse(Typed("5")) == Finite(5.0) && Parse(Typed("0")) == Finite(0.0) by {
      assert DigitsValue("5") == 5 && DigitsValue("0") == 0;
    }
    DivideByZero(5.0);
  }

  /** No operator is chosen without an entry, even while an operand waits. */
  method NoEntryScenario(numberText: Num -> string) {
    var c := new Calculator(numberText);
    var thrown := c.AppendNumber("2");
    assert c.currentNumber == Typed("2");
    c.ChooseOperation("+");
    assert c.previousNumber == Typed("2") && c.currentNumber == Empty;
    c.ChooseOperation("*");
    assert c.previousNumber == Typed("2") && c.operator == Some("+");
  }
}
