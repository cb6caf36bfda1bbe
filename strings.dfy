/** Text primitives the calculator relies on: the characters a number key
    produces, counting a character, `slice(0, -1)` and `split`. */
module Strings {

  predicate IsDigit(c: char) {
    '0' <= c <= '9'
  }

  predicate IsDigits(s: string) {
    forall i | 0 <= i < |s| :: IsDigit(s[i])
  }

  /** Text made only of what the number keys type: digits and decimal points. */
  predicate IsKeyed(s: string) {
    forall i | 0 <= i < |s| :: IsDigit(s[i]) || s[i] == '.'
  }

  /** The number of occurrences of `c` in `s`. */
  function Count(s: string, c: char): (n: nat)
    ensures n <= |s|
    ensures n == 0 <==> c !in s
  {
    if s == [] then 0
    else (if s[0] == c then 1 else 0) + Count(s[1..], c)
  }

  lemma {:induction false} CountAppend(s: string, t: string, c: char)
    ensures Count(s + t, c) == Count(s, c) + Count(t, c)
  {
    if s == [] {
      assert s + t == t;
    } else {
      assert (s + t)[1..] == s[1..] + t;
      CountAppend(s[1..], t, c);
    }
  }

  /** `s.slice(0, -1)`: every character but the last; the empty text stays empty. */
  function DropLast(s: string): (r: string)
    ensures s == [] ==> r == []
    ensures s != [] ==> r + [s[|s| - 1]] == s
  {
    if s == [] then [] else s[..|s| - 1]
  }

  /** Dropping a character never adds an occurrence of any character. */
  lemma DropLastCount(s: string, c: char)
    ensures Count(DropLast(s), c) <= Count(s, c)
  {
    if s != [] {
      CountAppend(DropLast(s), [s[|s| - 1]], c);
    }
  }

  /** `s.split(sep)` with a one-character separator: the pieces between
      separators, one more piece than there are separators. */
  function Split(s: string, sep: char): (parts: seq<string>)
    ensures |parts| == Count(s, sep) + 1
    ensures forall k | 0 <= k < |parts| :: sep !in parts[k]
  {
    if s == [] then [[]]
    else
      var rest := Split(s[1..], sep);
      if s[0] == sep then [[]] + rest
      else [[s[0]] + rest[0]] + rest[1..]
  }

  /** The inverse of Split: the pieces glued back with the separator. */
  function Join(parts: seq<string>, sep: char): string
    requires |parts| > 0
  {
    if |parts| == 1 then parts[0] else parts[0] + [sep] + Join(parts[1..], sep)
  }

  lemma {:induction false} JoinSplit(s: string, sep: char)
    ensures Join(Split(s, sep), sep) == s
  {
    if s != [] {
      var rest := Split(s[1..], sep);
      JoinSplit(s[1..], sep);
      if s[0] == sep {
        assert ([[]] + rest)[1..] == rest;
      } else if |rest| > 1 {
        var parts := [[s[0]] + rest[0]] + rest[1..];
        assert parts[1..] == rest[1..];
        assert Join(rest, sep) == rest[0] + [sep] + Join(rest[1..], sep);
      }
    }
  }

  /** A separator splits the text into the pieces of either side. */
  lemma {:induction false} SplitAround(x: string, sep: char, y: string)
    ensures Split(x + [sep] + y, sep) == Split(x, sep) + Split(y, sep)
  {
    var s := x + [sep] + y;
    if x == [] {
      assert s[1..] == y;
    } else {
      assert s[1..] == x[1..] + [sep] + y;
      SplitAround(x[1..], sep, y);
    }
  }

  lemma {:induction false} SplitNoSep(s: string, sep: char)
    requires sep !in s
    ensures Split(s, sep) == [s]
  {
    if s != [] {
      assert sep !in s[1..];
      SplitNoSep(s[1..], sep);
      assert [s[0]] + s[1..] == s;
    }
  }

  /** The first piece is the text up to the first separator, or all of it. */
  lemma {:induction false} SplitFirst(s: string, sep: char)
    ensures var p := Split(s, sep)[0];
            |p| <= |s| && s[..|p|] == p && (|p| < |s| ==> s[|p|] == sep)
  {
    if s != [] && s[0] != sep {
      SplitFirst(s[1..], sep);
      var q := Split(s[1..], sep)[0];
      assert Split(s, sep)[0] == [s[0]] + q;
      assert s[..1 + |q|] == [s[0]] + s[1..][..|q|];
    }
  }

  lemma {:induction false} SplitJoin(parts: seq<string>, sep: char)
    requires |parts| > 0
    requires forall k | 0 <= k < |parts| :: sep !in parts[k]
    ensures Split(Join(parts, sep), sep) == parts
  {
    SplitNoSep(parts[0], sep);
    if |parts| > 1 {
      SplitJoin(parts[1..], sep);
      SplitAround(parts[0], sep, Join(parts[1..], sep));
    }
  }
}
