/** Python's `int(s)` on a `str`, base 10: surrounding whitespace, one
    optional sign, and ASCII digits with single underscores between them. */
module PyInt {

  import opened Wrappers
  import opened Chars

  /** Whitespace `int()` skips around its argument: Python's whitespace
      without the four separators U+001C..U+001F */
  predicate IsIntSpace(c: char) {
    IsSpace(c) && !('\U{1C}' <= c <= '\U{1F}')
  }

  predicate IsDigitOrUnderscore(c: char) {
    IsDigit(c) || c == '_'
  }

  /** Digits, with single underscores allowed between two digits */
  predicate UnderscoredDigits(b: string) {
    && |b| > 0 && IsDigit(b[0]) && IsDigit(b[|b| - 1])
    && (forall k | 0 <= k < |b| :: IsDigitOrUnderscore(b[k]))
    && (forall k | 0 <= k < |b| - 1 :: b[k] == '_' ==> b[k + 1] != '_')
  }

  function RemoveUnderscores(b: string): (r: string)
    requires forall k | 0 <= k < |b| :: IsDigitOrUnderscore(b[k])
    ensures AllDigits(r)
    ensures AllDigits(b) ==> r == b
  {
    if |b| == 0 then []
    else
      var head := if b[0] == '_' then [] else [b[0]];
      var rest := RemoveUnderscores(b[1..]);
      assert IsDigitOrUnderscore(b[0]);
      assert AllDigits(head);
      assert forall k | 0 <= k < |head + rest| :: (head + rest)[k] == if k < |head| then head[k] else rest[k - |head|];
      head + rest
  }

  /** The literal left once `int()` has skipped the surrounding whitespace */
  function IntBody(s: string): string {
    var (lo, hi) := StripBounds(s, IsIntSpace);
    s[lo..hi]
  }

  predicate IsSign(c: char) {
    c == '+' || c == '-'
  }

  /** The literal without its sign */
  function Unsigned(t: string): string
    requires |t| > 0
  {
    if IsSign(t[0]) then t[1..] else t
  }

  /** A string `int()` accepts */
  predicate IsIntLiteral(s: string) {
    var t := IntBody(s);
    |t| > 0 && UnderscoredDigits(Unsigned(t))
  }

  /** Value of an accepted, already stripped literal */
  function LiteralValue(t: string): int
    requires |t| > 0 && UnderscoredDigits(Unsigned(t))
  {
    var v: int := DigitsValue(RemoveUnderscores(Unsigned(t)));
    if t[0] == '-' then -v else v
  }

  /** Python's `int(s)`; None where it raises ValueError */
  function PyIntOf(s: string): (r: Option<int>)
    ensures r.Some? <==> IsIntLiteral(s)
  {
    var t := IntBody(s);
    if |t| > 0 && UnderscoredDigits(Unsigned(t)) then Some(LiteralValue(t)) else None
  }

  /** Nothing to skip around a string with no whitespace at either end */
  lemma IntBodyUnpadded(s: string)
    requires |s| > 0 && !IsIntSpace(s[0]) && !IsIntSpace(s[|s| - 1])
    ensures IntBody(s) == s
  {
    SpanEndUnique(s, 0, 0, IsIntSpace);
    assert s[0..|s|] == s;
  }

  /** The general accepted form: whitespace, an optional sign, and digits
      with single underscores, then whitespace again, parse to the signed
      value of the digits. */
  lemma PyIntOfLiteral(ws1: string, sign: string, b: string, ws2: string)
    requires AllIn(ws1, 0, |ws1|, IsIntSpace) && AllIn(ws2, 0, |ws2|, IsIntSpace)
    requires sign == "" || sign == "+" || sign == "-"
    requires UnderscoredDigits(b)
    ensures var v: int := DigitsValue(RemoveUnderscores(b));
      PyIntOf(ws1 + sign + b + ws2) == Some(if sign == "-" then -v else v)
  {
    var t := sign + b;
    assert ws1 + sign + b + ws2 == ws1 + t + ws2;
    SignedBody(ws1, sign, b, ws2);
    SignedValue(sign, b);
  }

  /** `int()` skips exactly the whitespace around a signed literal. */
  lemma SignedBody(ws1: string, sign: string, b: string, ws2: string)
    requires AllIn(ws1, 0, |ws1|, IsIntSpace) && AllIn(ws2, 0, |ws2|, IsIntSpace)
    requires sign == "" || sign == "+" || sign == "-"
    requires UnderscoredDigits(b)
    ensures IntBody(ws1 + (sign + b) + ws2) == sign + b
  {
    var t := sign + b;
    assert t[|t| - 1] == b[|b| - 1];
    assert !IsIntSpace(t[0]) by {
      if sign == "" { assert t[0] == b[0]; } else { assert t[0] == sign[0]; }
    }
    StripBoundsPadded(ws1, t, ws2, IsIntSpace);
    var s := ws1 + t + ws2;
    assert s[|ws1|..|ws1| + |t|] == t;
  }

  /** The sign decides the sign of the value. */
  lemma SignedValue(sign: string, b: string)
    requires sign == "" || sign == "+" || sign == "-"
    requires UnderscoredDigits(b)
    ensures |sign + b| > 0 && UnderscoredDigits(Unsigned(sign + b))
    ensures var v: int := DigitsValue(RemoveUnderscores(b));
      LiteralValue(sign + b) == if sign == "-" then -v else v
  {
    var t := sign + b;
    if sign == "" {
      assert t == b;
    } else {
      assert t[0] == sign[0] && t[1..] == b;
    }
  }

  /** `int(" +1_2 ") == 12` */
  lemma PaddedLiteralExample()
    ensures PyIntOf(" +1_2 ") == Some(12)
  {
    OneUnderscoreTwo();
    BlankIsIntSpace();
    PyIntOfLiteral(" ", "+", "1_2", " ");
    PaddedText();
  }

  lemma BlankIsIntSpace()
    ensures AllIn(" ", 0, 1, IsIntSpace)
  {
    assert " "[0] == ' ';
  }

  lemma PaddedText()
    ensures " " + "+" + "1_2" + " " == " +1_2 "
  {
  }

  lemma OneUnderscoreTwo()
    ensures UnderscoredDigits("1_2")
    ensures DigitsValue(RemoveUnderscores("1_2")) == 12
  {
    assert RemoveUnderscores("1_2") == "12" by {
      assert "1_2"[1..] == "_2" && "_2"[1..] == "2" && "2"[1..] == [];
    }
    assert "12"[..1] == "1" && "1"[..0] == [];
  }

  /** A plain run of ASCII digits parses to its decimal value. */
  lemma PyIntOfDigits(ds: string)
    requires |ds| > 0 && AllDigits(ds)
    ensures PyIntOf(ds) == Some(DigitsValue(ds))
  {
    IntBodyUnpadded(ds);
    assert UnderscoredDigits(ds);
  }

  /** A leading minus sign negates. */
  lemma PyIntOfNegative(s: string)
    requires |s| > 1 && s[0] == '-' && AllDigits(s[1..])
    ensures PyIntOf(s) == Some(-(DigitsValue(s[1..]) as int))
  {
    NegativeBody(s[1..]);
    NegativeValue(s[1..]);
    assert "-" + s[1..] == s;
  }

  lemma NegativeBody(ds: string)
    requires |ds| > 0 && AllDigits(ds)
    ensures IntBody("-" + ds) == "-" + ds
    ensures UnderscoredDigits(Unsigned("-" + ds))
  {
    var s := "-" + ds;
    assert s[|s| - 1] == ds[|ds| - 1];
    IntBodyUnpadded(s);
    assert Unsigned(s) == ds by {
      assert s[0] == '-' && s[1..] == ds;
    }
    assert UnderscoredDigits(ds);
  }

  lemma NegativeValue(ds: string)
    requires |ds| > 0 && AllDigits(ds)
    ensures UnderscoredDigits(Unsigned("-" + ds))
    ensures LiteralValue("-" + ds) == -(DigitsValue(ds) as int)
  {
    var s := "-" + ds;
    assert Unsigned(s) == ds by {
      assert s[0] == '-' && s[1..] == ds;
    }
    assert UnderscoredDigits(ds) && RemoveUnderscores(ds) == ds;
  }

  /** `int(str(n)) == n` and `int("-" + str(n)) == -n` */
  lemma PyIntRoundTrip(n: nat)
    ensures PyIntOf(Decimal(n)) == Some(n)
    ensures PyIntOf("-" + Decimal(n)) == Some(-(n as int))
  {
    PyIntOfDigits(Decimal(n));
    var neg := "-" + Decimal(n);
    assert neg[1..] == Decimal(n);
    PyIntOfNegative(neg);
    DecimalRoundTrip(n);
  }
}
