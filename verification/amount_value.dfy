/** What the page does with the display text before it can use it as a
    number (`validateForm` and `handleSubmit`): drop the grouping dots,
    turn the first comma into a decimal point, and hand the result to
    `parseFloat`. Numbers are exact rationals here, not binary floats. */
module AmountValue {
  import opened Wrappers
  import opened Text
  import AmountFormat

  /** `s` with its first occurrence of `from` replaced by `to`
      (`String.prototype.replace` with a one-character string pattern). */
  function ReplaceFirst(s: string, from: char, to: char): (r: string)
    ensures |r| == |s|
    ensures from !in s ==> r == s
    decreases |s|
  {
    if s == [] then []
    else if s[0] == from then [to] + s[1..]
    else [s[0]] + ReplaceFirst(s[1..], from, to)
  }

  /** The display text as `parseFloat` receives it. */
  function Normalise(amount: string): string {
    ReplaceFirst(Filter(amount, IsNotDot), ',', '.')
  }

  function DigitValue(c: char): nat
    requires IsDigit(c)
  {
    c as int - '0' as int
  }

  /** The number a string of decimal digits denotes (0 for no digits). */
  function DigitsValue(d: string): nat
    requires AllDigits(d)
    decreases |d|
  {
    if d == [] then 0 else 10 * DigitsValue(d[..|d| - 1]) + DigitValue(d[|d| - 1])
  }

  function Pow10(n: nat): (p: nat)
    ensures p >= 1
  {
    if n == 0 then 1 else 10 * Pow10(n - 1)
  }

  /** Integer digits plus fraction digits over ten to their count. */
  function Decimal(whole: string, fraction: string): real
    requires AllDigits(whole) && AllDigits(fraction)
  {
    DigitsValue(whole) as real + DigitsValue(fraction) as real / Pow10(|fraction|) as real
  }

  /** The longest prefix of `s` made of digits. */
  function LeadingDigits(s: string): (r: string)
    ensures AllDigits(r) && r <= s
    ensures |r| < |s| ==> !IsDigit(s[|r|])
    decreases |s|
  {
    if s != [] && IsDigit(s[0]) then [s[0]] + LeadingDigits(s[1..]) else []
  }

  /** `parseFloat` on unsigned decimal text: the value of the longest prefix
      of the form digits, optionally followed by a point and more digits,
      provided it holds at least one digit; `None` stands for `NaN`. */
  function ParseFloat(s: string): (r: Option<real>)
    ensures r.None? <==>
      (s == [] || (!IsDigit(s[0]) && (s[0] != '.' || |s| < 2 || !IsDigit(s[1]))))
  {
    var whole := LeadingDigits(s);
    var rest := s[|whole|..];
    var fraction := if rest != [] && rest[0] == '.' then LeadingDigits(rest[1..]) else "";
    if whole == "" && fraction == "" then None
    else Some(Decimal(whole, fraction))
  }

  /** `validateForm`: the form may be submitted when the amount is present
      and parses, and both currency codes are present and differ. */
  predicate Valid(amount: string, fromCurrency: string, toCurrency: string) {
    && amount != ""
    && ParseFloat(Normalise(amount)).Some?
    && fromCurrency != ""
    && toCurrency != ""
    && fromCurrency != toCurrency
  }

  // ---------------------------------------------------------------------

  lemma {:induction false} ReplaceFirstAfter(a: string, b: string, from: char, to: char)
    requires from !in a
    ensures ReplaceFirst(a + b, from, to) == a + ReplaceFirst(b, from, to)
    decreases |a|
  {
    if a == [] {
      assert a + b == b;
    } else {
      assert (a + b)[1..] == a[1..] + b;
      ReplaceFirstAfter(a[1..], b, from, to);
      assert [a[0]] + (a[1..] + ReplaceFirst(b, from, to)) == a + ReplaceFirst(b, from, to);
    }
  }

  lemma {:induction false} LeadingDigitsAfter(a: string, b: string)
    requires AllDigits(a)
    ensures LeadingDigits(a + b) == a + LeadingDigits(b)
    decreases |a|
  {
    if a == [] {
      assert a + b == b;
    } else {
      assert (a + b)[1..] == a[1..] + b;
      LeadingDigitsAfter(a[1..], b);
      assert [a[0]] + (a[1..] + LeadingDigits(b)) == a + LeadingDigits(b);
    }
  }

  /** The text a formatted amount normalises to: integer digits, then a
      point and the fraction digits when there are any. */
  lemma {:induction false} NormaliseAssembled(g: string, i: string, f: string)
    requires AllDigits(i) && AllDigits(f)
    requires Filter(g, IsNotDot) == i
    ensures Normalise(AmountFormat.Assemble(g, f)) == if f != "" then i + "." + f else i
  {
    AmountFormat.NoCommaInDigits(i);
    if f != "" {
      var tail := "," + f;
      assert AmountFormat.Assemble(g, f) == g + tail;
      FilterConcat(g, tail, IsNotDot);
      assert forall k :: 0 <= k < |tail| ==> IsNotDot(tail[k]) by {
        assert forall k :: 1 <= k < |tail| ==> tail[k] == f[k - 1];
      }
      FilterKeepsAll(tail, IsNotDot);
      assert Filter(g + tail, IsNotDot) == i + tail;
      ReplaceFirstAfter(i, tail, ',', '.');
      assert tail[1..] == f;
      assert ReplaceFirst(tail, ',', '.') == "." + f;
      assert i + ("." + f) == i + "." + f;
    } else {
      assert AmountFormat.Assemble(g, f) == g;
      assert Filter(g, IsNotDot) == i;
    }
  }

  /** `parseFloat` reads integer digits followed by an optional point and
      fraction digits in full. */
  lemma {:induction false} ParseDecimalText(i: string, f: string)
    requires AllDigits(i) && AllDigits(f)
    requires i != "" || f != ""
    ensures ParseFloat(if f != "" then i + "." + f else i) == Some(Decimal(i, f))
  {
    if f != "" {
      var s := i + "." + f;
      assert s == i + ("." + f);
      LeadingDigitsAfter(i, "." + f);
      assert LeadingDigits("." + f) == "";
      assert i + "" == i;
      assert LeadingDigits(s) == i;
      assert s[|i|..] == "." + f;
      assert ("." + f)[1..] == f;
      LeadingDigitsAfter(f, "");
      assert f + "" == f;
    } else {
      LeadingDigitsAfter(i, "");
      assert i + "" == i;
    }
  }

  /** The value of a formatted amount: `NaN` exactly for the empty text, and
      otherwise the kept integer digits plus the kept fraction digits over
      ten to their count. */
  lemma {:induction false} FormattedValue(value: string)
    ensures var a := AmountFormat.Format(value);
      ParseFloat(Normalise(a))
        == if a == "" then None
           else Some(Decimal(AmountFormat.KeptInteger(value), AmountFormat.KeptFraction(value)))
  {
    var i, f := AmountFormat.KeptInteger(value), AmountFormat.KeptFraction(value);
    AmountFormat.FormatAssembles(value);
    AmountFormat.GroupShape(i);
    NormaliseAssembled(AmountFormat.Group(i), i, f);
    if i == "" && f == "" {
      assert AmountFormat.Format(value) == "";
      assert Normalise("") == "";
    } else {
      ParseDecimalText(i, f);
      if f == "" {
        assert Filter(AmountFormat.Group(i), IsNotDot) != "";
      }
      assert AmountFormat.Format(value) != "";
    }
  }

  /** For any formatted amount (a fixed point of the formatter, as every
      amount the page holds is), validity is just: amount present, codes
      present and different. */
  lemma {:induction false} FormattedValidity(amount: string, fromCurrency: string, toCurrency: string)
    requires AmountFormat.Format(amount) == amount
    ensures Valid(amount, fromCurrency, toCurrency)
        <==> amount != "" && fromCurrency != "" && toCurrency != "" && fromCurrency != toCurrency
  {
    FormattedValue(amount);
  }

  /** Round trip for whole numbers: up to 15 digits typed with nothing else
      are read back as the number they denote. */
  lemma {:induction false} WholeNumberRoundTrip(digits: string)
    requires AllDigits(digits) && 1 <= |digits| <= AmountFormat.MaxIntegerDigits
    ensures ParseFloat(Normalise(AmountFormat.Format(digits))) == Some(DigitsValue(digits) as real)
  {
    WholeNumberParts(digits);
    FormattedValue(digits);
    AmountFormat.FormatAssembles(digits);
    AmountFormat.GroupShape(digits);
    var g := AmountFormat.Group(digits);
    assert AmountFormat.Format(digits) == g;
    assert g != "" by {
      assert Filter(g, IsNotDot) == digits;
    }
    assert Decimal(digits, "") == DigitsValue(digits) as real;
  }

  /** The reference reading of a short run of digits: all of it is the
      integer part and there is no fraction. */
  lemma {:induction false} WholeNumberParts(digits: string)
    requires AllDigits(digits) && |digits| <= AmountFormat.MaxIntegerDigits
    ensures AmountFormat.KeptInteger(digits) == digits
    ensures AmountFormat.KeptFraction(digits) == ""
  {
    AmountFormat.NoCommaInDigits(digits);
    SplitJoin([digits], ',');
    FilterKeepsAll(digits, IsDigit);
  }

  /** "1.234.567,5" reads as 1234567.5. */
  lemma {:induction false} GroupedAmountValue()
    ensures ParseFloat(Normalise("1.234.567,5")) == Some(1234567.5)
  {
    var v := "1234567,5";
    AmountFormat.TypedAmountGrouped();
    AmountFormat.TypedAmountParts();
    FormattedValue(v);
    var d := Decimal(AmountFormat.KeptInteger(v), AmountFormat.KeptFraction(v));
    assert ParseFloat(Normalise(AmountFormat.Format(v))) == Some(d);
    SampleDecimal();
  }

  lemma {:induction false} SampleDecimal()
    ensures Decimal("1234567", "5") == 1234567.5
  {
    SevenDigitsValue();
    assert DigitsValue("5") == 5 by { assert "5"[..0] == ""; }
  }

  lemma {:induction false} SevenDigitsValue()
    ensures DigitsValue("1234567") == 1234567
  {
    assert "1234567"[..6] == "123456";
    assert "123456"[..5] == "12345";
    assert "12345"[..4] == "1234";
    assert "1234"[..3] == "123";
    assert "123"[..2] == "12";
    assert "12"[..1] == "1";
    assert "1"[..0] == "";
  }
}
