# A verified model of the JavaScript calculator

This project models the `Calculator` class of the browser calculator in
`script.js` and proves properties of it. The class is a small state machine
with three fields:

- `currentNumber`: the entry being typed;
- `previousNumber`: the operand waiting for a second argument;
- `operator`: the operator chosen for them.

The five operations that change those fields are modelled as methods of the
Dafny class `Calc.Calculator`: `clear`, `delete`, `appendNumber`,
`chooseOperation` and `compute`. `getDisplayNumber` and the two strings that
`updateDisplay` writes are pure functions, with lemmas about them.

Modules, one per file:

- `Strings` (`strings.dfy`): counting a character, `slice(0, -1)`, and
  `split` with a one-character separator, together with its inverse `Join`.
- `Numbers` (`numbers.dfy`): the numbers the calculator computes with.
  - A number is an exact real, a signed infinity or NaN.
  - `parseFloat` reads the longest prefix of its text that is a decimal
    literal: an optional sign, then `Infinity` or digits with an optional
    point, fraction and exponent.
  - `+`, `-`, `*` and `/` follow IEEE 754 for infinities and NaN. So `5 ÷ 0`
    stores `Infinity` rather than failing.
- `Locale` (`locale.dfy`): `toLocaleString('en', { maximumFractionDigits: 0 })`.
  It rounds half away from zero, then puts a comma before every group of three
  digits. The infinities are shown as `∞` and `-∞`.
- `Display` (`display.dfy`): `getDisplayNumber`.
- `Calc` (`calculator.dfy`): the class and `compute`'s choice of operation.

A field holds an `Entry`, which is one of two things:

- `Typed(text)`: text typed on the keys. `''` is the empty entry.
- `Computed(value)`: the number that `compute` stores (script.js:87).

`chooseOperation` can move a computed number into `previousNumber`. Reading a
computed number with `parseFloat` gives that number back.
`Number.prototype.toString` is not spelled out. It is the class's constant
`numberText`, which the constructor takes instead of the two display
elements.

The code's behaviour is modelled as written in these places:

- `appendNumber('.')` on a computed entry calls `includes` on a number, which
  throws a `TypeError` before any field changes. `AppendNumber` returns
  `thrown` for this and leaves the state as it was.
- When `chooseOperation` finds a pending operation that `compute` cannot
  evaluate, the entry replaces the waiting operand. An example is an entry
  `.` that reads as NaN: the entry `.` becomes the operand, and the old
  operand is lost.
- The entry has at most one point only while it is typed text. That is what
  `AppendNumber` and `Delete` preserve. The text of a computed number is
  whatever `numberText` gives.
- The invariant "an operator is pending exactly when an operand waits for it"
  is `Calculator.Valid()`. Every method preserves it.

## Model

| member | source | states |
|---|---|---|
| Calc.Calculator.constructor | script.js:13-18 | the calculator starts with both fields `''` and no operator, in a valid state |
| Calc.Calculator.Clear | script.js:21-25 | both fields become `''` and the operator becomes unset, whatever the state was |
| Calc.Calculator.Delete | script.js:28-32 | the entry becomes its text without the last character (`''` stays `''`); the operand and operator are unchanged; the number of points does not grow |
| Calc.Calculator.AppendNumber | script.js:35-40 | throws exactly for a point on a computed entry, and then changes nothing; a second point is refused; otherwise the key is appended to the entry's text; the operand and operator never change; an entry with at most one point keeps at most one |
| Calc.Calculator.ChooseOperation | script.js:43-55 | with an empty entry nothing changes, even while an operand waits; otherwise the operator becomes `op` and the entry `''`, and the waiting operand becomes the old entry (no operand waited), the result of the pending operation, or the old entry when that operation cannot be evaluated |
| Calc.Calculator.Compute | script.js:58-91 | when the pending operation evaluates, the entry becomes its result and the operand and operator are cleared; otherwise nothing changes |
| Calc.Calculator.UpdateDisplay | script.js:118-123 | the current line is the entry's display, and for a typed entry with a canonical integer part it gives back the entry once its commas are removed; with an operator pending, the previous line is the operand's display, a space and the operator; otherwise, in a valid state, it is `''`, the same as the operand's display |
| Calc.Parse | script.js:62-63 | `parseFloat` of a field: `''` reads as NaN, and typed digits as their decimal value |
| Calc.Evaluate | script.js:62-84 | the pending operation has a result exactly when neither field reads as NaN and the operator is one of `+`, `-`, `*`, `÷` |
| Calc.Apply | script.js:69-84 | the `switch` gives a result exactly for the four operators (otherwise the `default` return); finite operands give a finite result except under `÷` |
| Calc.EvaluateNeedsOperands | script.js:62-66 | an empty operand or entry reads as NaN, so there is nothing to compute |
| Calc.EvaluateWholeNumbers | script.js:62-84 | two typed whole numbers combine by the operator applied to their decimal values |
| Calc.ApplyFinite | script.js:69-84 | on finite operands `+`, `-`, `*` are exact sum, difference and product, and `÷` by a non-zero number is the quotient |
| Calc.AppendKeepsOnePoint | script.js:37-39 | the guard against a second point keeps an entry to at most one point |
| Calc.DeleteUndoesAppend | script.js:31-39 | deleting right after a key is appended restores the entry's text |
| Calc.ChainSums | script.js:43-90 | keying 5 + 3 evaluates to 8, and 8 + 2 to 10 |
| Calc.FiveOverZero | script.js:80 | 5 ÷ 0 evaluates to positive infinity |
| Numbers.ParseFloat | script.js:62-63 | text that starts with a digit reads as a finite number; text with no digit and no `I` (of `Infinity`) reads as NaN |
| Numbers.Add | script.js:71 | the sum is finite exactly when both operands are, and NaN exactly when an operand is NaN or infinities of opposite signs meet |
| Numbers.Subtract | script.js:74 | the difference is finite exactly when both operands are, and NaN exactly when an operand is NaN or an infinity is taken from one of the same sign |
| Numbers.Multiply | script.js:77 | the product is finite exactly when both operands are, and NaN exactly when an operand is NaN or an infinity meets zero |
| Numbers.Divide | script.js:80 | the quotient is NaN exactly when an operand is NaN, both are infinite, or both are zero; it is infinite exactly for an infinity over a finite number or a non-zero number over zero |
| Numbers.ParseDigits | script.js:62-63 | `parseFloat` reads a run of digits as its decimal value, and `''` as NaN |
| Numbers.ParseDecimal | script.js:62-63 | `parseFloat` reads digits, a point and digits as that decimal, whatever follows from a second point on; a lone point reads as NaN |
| Numbers.DivideByZero | script.js:80 | a number divided by zero is an infinity of the dividend's sign, and 0 ÷ 0 is NaN |
| Strings.DropLast | script.js:31 | `slice(0, -1)`: the empty text stays empty, and otherwise the result followed by the last character is the text |
| Strings.Split | script.js:97-99 | `split('.')`: one more piece than the text has separators, and no piece contains one |
| Strings.DropLastCount | script.js:31 | dropping the last character never adds an occurrence of a character |
| Strings.JoinSplit | script.js:97-99 | joining the pieces of `split` with the separator gives back the text |
| Strings.SplitJoin | script.js:97-99 | splitting pieces that contain no separator, joined with it, gives back the pieces |
| Strings.SplitFirst | script.js:97 | the first piece of `split` is the text up to the first separator, or all of it |
| Locale.LocaleText | script.js:107 | the text has no fraction digits; a finite number has a minus sign exactly when it is negative, and without its commas the text is the decimal numeral of its rounded magnitude |
| Locale.RoundHalfExpand | script.js:107 | the whole number shown is within one half of the value, ties rounded away from zero |
| Locale.GroupDigits | script.js:107 | removing the commas from a grouped number gives its decimal numeral |
| Locale.GroupShape | script.js:107 | a grouped number is one to three digits, then groups of exactly three digits, each after a comma |
| Locale.LocaleWhole | script.js:107 | a whole number is shown grouped, and its digits give back its value |
| Locale.CanonicalDecimalText | script.js:107 | a numeral without superfluous leading zeros is the numeral of its own value |
| Display.GetDisplayNumber | script.js:93-115 | the display has exactly one point when the text has any, and none otherwise |
| Display.IntegerDisplay | script.js:97-108 | the integer part is shown as nothing exactly when it reads as NaN, and never with a point |
| Display.FractionAsTyped | script.js:95-114 | the display has a point exactly when the text has one, and after it exactly the text's fraction digits |
| Display.IntegerPartGrouped | script.js:97-108 | the integer part of keyed text is shown empty exactly when it is empty, and otherwise well grouped with the digits of its value |
| Display.DisplayKeepsValue | script.js:95-114 | for keyed text, `parseFloat` of the display with its commas removed is `parseFloat` of the text |
| Display.DisplayRoundTrip | script.js:95-114 | for keyed text with at most one point whose integer part has no superfluous leading zero, the display with its commas removed is that text |
| Display.LeadingZerosExample | script.js:97-107 | keyed `007` is shown as `7`, so the round trip needs a canonical integer part |
| Display.ThousandExample | script.js:95-114 | `1000` is shown as `1,000` |
| Display.ThousandFractionExample | script.js:95-114 | `1000.5` is shown as `1,000.5` |
| Display.EmptyExample | script.js:95-114 | `''` is shown as `''` |
| Display.TrailingPointExample | script.js:95-114 | `1.` is shown as `1.` |
| Display.LeadingPointExample | script.js:95-114 | `.5` is shown as `.5` |
| Display.NegativeZeroDisplay | script.js:97-107 | a minus sign before digits that read as zero is shown as `-0` |
| Display.NegativeHalfExample | script.js:95-114 | `-0.5` is shown as `-0.5` |

## Left out

- The DOM lookups, the event listeners and the `innerText` writes
  (script.js:3-9, 120, 122, 127-163). `UpdateDisplay` returns the two strings
  those writes would receive.
- The constructor's two display elements. They are only ever written by
  `updateDisplay`, and the class takes `numberText` in their place.
- `Number.prototype.toString` is the parameter `numberText`, and is not
  spelled out. What `delete` and the display do to a computed entry is stated
  in terms of that parameter.
- Calc.Calculator.AppendNumber: a thrown `TypeError` ends only the click
  handler that called it. The model reports it through `thrown` and does not
  model the browser's reporting of it.
- Double-precision rounding and precision beyond 2^53. Numbers are exact
  reals, so `0.1 + 0.2` is exactly `0.3` here.
- Negative zero as a number: zero carries no sign. Where the sign is visible,
  in the display of an integer part such as the `-0` of `-0.5`, it is taken
  from the text. A computed negative zero (`0 * -1`) is not distinguished,
  and its text is whatever `numberText` gives.
- The exponent form of very large or very small numbers, which is part of
  `numberText`.
- The white space that `parseFloat` skips before a literal. Keyed text and
  the text of a number have none.
- Calc.Calculator.UpdateDisplay: when no operator is pending, the previous
  line is the operand's raw text. Its equality with the formatted text is
  stated only for a valid state, where that operand is `''`.
