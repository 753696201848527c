/** Decimal text for integers: Python's `str()` of an int and `int()` of a
    string, as the history records store and read values. */
module Numerals {
  import opened Common

  predicate IsDigit(c: char) {
    '0' <= c <= '9'
  }

  predicate AllDigits(s: string) {
    forall i :: 0 <= i < |s| ==> IsDigit(s[i])
  }

  function DigitChar(d: int): (c: char)
    requires 0 <= d < 10
    ensures IsDigit(c) && (c as int) - ('0' as int) == d
  {
    (('0' as int) + d) as char
  }

  /** The decimal digits of `n`, without leading zeros. */
  function NatToString(n: nat): (s: string)
    ensures |s| >= 1 && AllDigits(s)
    ensures |s| > 1 ==> s[0] != '0'
    decreases n
  {
    if n < 10 then [DigitChar(n)]
    else NatToString(n / 10) + [DigitChar(n % 10)]
  }

  /** `str(i)` for an int: a minus sign before the digits of a negative. */
  function IntToString(i: int): (s: string)
    ensures |s| >= 1
    ensures i < 0 <==> s[0] == '-'
  {
    if i < 0 then "-" + NatToString(-i) else NatToString(i)
  }

  /** The number a non-empty run of digits denotes. */
  function DigitsValue(s: string): nat
    requires |s| >= 1 && AllDigits(s)
    decreases |s|
  {
    var last := (s[|s| - 1] as int) - ('0' as int);
    if |s| == 1 then last
    else DigitsValue(s[..|s| - 1]) * 10 + last
  }

  /** The ASCII characters Python 2's `int()` of unicode text skips as
      whitespace: the six of C's `isspace` and the separators U+001C to
      U+001F. */
  predicate IsSpace(c: char) {
    || c == ' ' || c == '\t' || c == '\n' || c == '\r' || c == '\U{b}' || c == '\U{c}'
    || c == '\U{1c}' || c == '\U{1d}' || c == '\U{1e}' || c == '\U{1f}'
  }

  predicate AllSpaces(s: string) {
    forall i :: 0 <= i < |s| ==> IsSpace(s[i])
  }

  /** `s` without its leading whitespace. */
  function TrimLeft(s: string): string
    decreases |s|
  {
    if |s| > 0 && IsSpace(s[0]) then TrimLeft(s[1..]) else s
  }

  /** `s` without its trailing whitespace. */
  function TrimRight(s: string): string
    decreases |s|
  {
    if |s| > 0 && IsSpace(s[|s| - 1]) then TrimRight(s[..|s| - 1]) else s
  }

  /** What `TrimLeft` drops is all whitespace, and what it keeps starts
      with a non-space character. */
  lemma {:induction false} TrimLeftSplits(s: string)
    ensures exists w :: AllSpaces(w) && s == w + TrimLeft(s)
    ensures |TrimLeft(s)| > 0 ==> !IsSpace(TrimLeft(s)[0])
    decreases |s|
  {
    var t := TrimLeft(s);
    if |s| > 0 && IsSpace(s[0]) {
      TrimLeftSplits(s[1..]);
      var w :| AllSpaces(w) && s[1..] == w + t;
      assert AllSpaces([s[0]] + w) && s == [s[0]] + w + t;
    } else {
      assert s == [] + t;
    }
  }

  /** What `TrimRight` drops is all whitespace, and what it keeps ends
      with a non-space character. */
  lemma {:induction false} TrimRightSplits(s: string)
    ensures exists w :: AllSpaces(w) && s == TrimRight(s) + w
    ensures |TrimRight(s)| > 0 ==> !IsSpace(TrimRight(s)[|TrimRight(s)| - 1])
    decreases |s|
  {
    var t := TrimRight(s);
    if |s| > 0 && IsSpace(s[|s| - 1]) {
      TrimRightSplits(s[..|s| - 1]);
      var w :| AllSpaces(w) && s[..|s| - 1] == t + w;
      assert AllSpaces(w + [s[|s| - 1]]) && s == t + (w + [s[|s| - 1]]);
    } else {
      assert s == t + [];
    }
  }

  /** The digits after a sign: Python 2 also skips whitespace between the
      sign and the first digit. */
  function SignedDigits(t: string): string
    requires |t| >= 1
  {
    TrimLeft(t[1..])
  }

  /** `s` without surrounding whitespace. */
  function Strip(s: string): string {
    TrimRight(TrimLeft(s))
  }

  /** `int()` of text with no surrounding whitespace: an optional sign
      (itself optionally followed by whitespace) and at least one digit. */
  function ParseStripped(t: string): (r: Result<int>)
    ensures r.Err? ==> r.error == ValueError
    ensures r.Ok? <==>
      (|t| >= 1 && AllDigits(t)) ||
      (|t| >= 2 && (t[0] == '-' || t[0] == '+') && |SignedDigits(t)| >= 1 && AllDigits(SignedDigits(t)))
  {
    if |t| >= 1 && AllDigits(t) then Ok(DigitsValue(t))
    else if |t| >= 2 && (t[0] == '-' || t[0] == '+') then
      var d := SignedDigits(t);
      if |d| >= 1 && AllDigits(d) then
        Ok(if t[0] == '-' then -(DigitsValue(d) as int) else DigitsValue(d))
      else Err(ValueError)
    else Err(ValueError)
  }

  /** `int(s)` in base 10 on Python 2: surrounding whitespace, an optional
      sign (itself optionally followed by whitespace) and at least one
      digit; anything else raises ValueError. */
  function ParseInt(s: string): (r: Result<int>)
    ensures r.Err? ==> r.error == ValueError
    ensures var t := Strip(s);
      r.Ok? <==>
        (|t| >= 1 && AllDigits(t)) ||
        (|t| >= 2 && (t[0] == '-' || t[0] == '+') && |SignedDigits(t)| >= 1 && AllDigits(SignedDigits(t)))
  {
    ParseStripped(Strip(s))
  }

  /** Reading back the digits of a natural number gives the number. */
  lemma {:induction false} NatRoundTrip(n: nat)
    ensures DigitsValue(NatToString(n)) == n
    decreases n
  {
    if n >= 10 {
      var s := NatToString(n);
      var prefix := NatToString(n / 10);
      assert s[..|s| - 1] == prefix;
      NatRoundTrip(n / 10);
    }
  }

  /** `int(str(i)) == i` for every int: what the history stores as text
      reads back as the same number, even with whitespace around it. */
  lemma IntRoundTrip(i: int, before: string, after: string)
    requires AllSpaces(before) && AllSpaces(after)
    ensures ParseInt(before + IntToString(i) + after) == Ok(i)
  {
    var s := IntToString(i);
    assert !IsSpace(s[0]) && !IsSpace(s[|s| - 1]) by {
      if i < 0 {
        assert s[|s| - 1] == NatToString(-i)[|NatToString(-i)| - 1];
        assert IsDigit(NatToString(-i)[|NatToString(-i)| - 1]);
      } else {
        assert IsDigit(s[0]) && IsDigit(s[|s| - 1]);
      }
    }
    PaddedParse(before, s, after);
    IntParse(i);
  }

  /** Whitespace around a text that starts and ends with other characters
      does not change what `int()` reads. */
  lemma PaddedParse(before: string, s: string, after: string)
    requires AllSpaces(before) && AllSpaces(after)
    requires |s| > 0 && !IsSpace(s[0]) && !IsSpace(s[|s| - 1])
    ensures ParseInt(before + s + after) == ParseInt(s)
  {
    assert Strip(before + s + after) == Strip(s) by {
      TrimLeftSkips(before, s + after);
      assert before + s + after == before + (s + after);
      TrimRightSkips(s, after);
      assert TrimLeft(s) == s;
      assert TrimRight(s) == s;
    }
  }

  /** `int(str(i)) == i` without padding. */
  lemma IntParse(i: int)
    ensures ParseInt(IntToString(i)) == Ok(i)
  {
    if i < 0 {
      NatRoundTrip(-i);
      NegativeParse(NatToString(-i), -i);
    } else {
      NatParse(i);
    }
  }

  /** The digits of a natural number read back as that number. */
  lemma NatParse(n: nat)
    ensures ParseInt(NatToString(n)) == Ok(n)
  {
    var s := NatToString(n);
    assert Strip(s) == s by {
      assert IsDigit(s[0]) && IsDigit(s[|s| - 1]);
      assert TrimLeft(s) == s;
    }
    UnpaddedParse(s);
    NatRoundTrip(n);
  }

  /** A minus sign before a run of digits reads as the negated number. */
  lemma NegativeParse(digits: string, n: nat)
    requires |digits| >= 1 && AllDigits(digits) && DigitsValue(digits) == n
    ensures ParseInt("-" + digits) == Ok(-(n as int))
  {
    var s := "-" + digits;
    assert ParseInt(s) == Ok(-(DigitsValue(digits) as int)) by {
      NegativeShape(digits);
      assert |s| >= 2 && s[0] == '-';
      SignedParse(s, digits);
    }
  }

  /** A minus sign before a run of digits needs no stripping, is not all
      digits, and has those digits after its sign. */
  lemma NegativeShape(digits: string)
    requires |digits| >= 1 && AllDigits(digits)
    ensures Strip("-" + digits) == "-" + digits
    ensures !AllDigits("-" + digits)
    ensures SignedDigits("-" + digits) == digits
  {
    var s := "-" + digits;
    assert Strip(s) == s by {
      TrimLeftKeeps(s);
      assert s[|s| - 1] == digits[|digits| - 1];
      assert IsDigit(digits[|digits| - 1]);
      TrimRightKeeps(s);
    }
    assert !AllDigits(s) by {
      assert !IsDigit(s[0]);
    }
    assert SignedDigits(s) == digits by {
      assert s[1..] == digits;
      assert IsDigit(digits[0]);
      TrimLeftKeeps(digits);
    }
  }

  /** Text that ends with a non-space character has nothing to trim. */
  lemma TrimRightKeeps(s: string)
    requires |s| > 0 && !IsSpace(s[|s| - 1])
    ensures TrimRight(s) == s
  {
  }

  /** The parse of a minus sign and its digits, once the text is known to
      need no stripping. */
  lemma SignedParse(s: string, digits: string)
    requires Strip(s) == s && |s| >= 2 && s[0] == '-' && !AllDigits(s)
    requires SignedDigits(s) == digits && |digits| >= 1 && AllDigits(digits)
    ensures ParseInt(s) == Ok(-(DigitsValue(digits) as int))
  {
    UnpaddedParse(s);
    NegatedDigits(s, digits);
  }

  /** Text with nothing to strip is parsed as it stands. */
  lemma UnpaddedParse(s: string)
    requires Strip(s) == s
    ensures ParseInt(s) == ParseStripped(s)
  {
  }

  /** A minus sign followed by digits is their negated value. */
  lemma NegatedDigits(t: string, digits: string)
    requires |t| >= 2 && t[0] == '-' && !AllDigits(t)
    requires SignedDigits(t) == digits && |digits| >= 1 && AllDigits(digits)
    ensures ParseStripped(t) == Ok(-(DigitsValue(digits) as int))
  {
  }

  /** Text that starts with a non-space character has nothing to trim. */
  lemma TrimLeftKeeps(s: string)
    requires |s| > 0 && !IsSpace(s[0])
    ensures TrimLeft(s) == s
  {
  }

  /** Leading whitespace is skipped up to a non-space character. */
  lemma {:induction false} TrimLeftSkips(w: string, s: string)
    requires AllSpaces(w) && |s| > 0 && !IsSpace(s[0])
    ensures TrimLeft(w + s) == s
    decreases |w|
  {
    if |w| > 0 {
      assert (w + s)[1..] == w[1..] + s;
      TrimLeftSkips(w[1..], s);
    } else {
      assert w + s == s;
    }
  }

  /** Trailing whitespace is skipped back to a non-space character. */
  lemma {:induction false} TrimRightSkips(s: string, w: string)
    requires AllSpaces(w) && |s| > 0 && !IsSpace(s[|s| - 1])
    ensures TrimRight(s + w) == s
    decreases |w|
  {
    if |w| > 0 {
      assert (s + w)[..|s + w| - 1] == s + w[..|w| - 1];
      TrimRightSkips(s, w[..|w| - 1]);
    } else {
      assert s + w == s;
    }
  }
}
