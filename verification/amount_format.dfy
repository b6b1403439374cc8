/** The amount input formatter of the conversion page (`formatAmountInput`):
    it turns whatever the user typed into Indonesian-style display text,
    with `.` between groups of three integer digits and `,` before at most
    two fraction digits. */
module AmountFormat {
  import opened Text

  const MaxIntegerDigits: nat := 15
  const MaxFractionDigits: nat := 2

  /** The regular-expression replacement `/\B(?=(\d{3})+(?!\d))/g -> "."`
      on a run of digits: a dot goes before every digit that is not the
      first of the run and that starts a block of digits whose length,
      up to the end of the run, is a multiple of three. `e` is the rest of
      the run and `atStart` says whether it is the whole run. */
  function Separate(e: string, atStart: bool): string
    decreases |e|
  {
    if e == [] then []
    else (if !atStart && |e| % 3 == 0 then "." else "") + [e[0]] + Separate(e[1..], false)
  }

  /** Thousands grouping of the integer digits, applied only to more than
      three digits. */
  function Group(digits: string): string {
    if |digits| > 3 then Separate(digits, true) else digits
  }

  /** The formatter: keep digits and commas, take the segment before the
      first comma as the integer part and the one after it as the
      fraction, cap them at 15 and 2 digits, group the integer part and
      append the fraction after a comma when there is one. */
  function Format(value: string): string {
    var kept := Filter(value, IsDigitOrComma);
    var parts := Split(kept, ',');
    var integerDigits := Take(Filter(parts[0], IsDigit), MaxIntegerDigits);
    var decimalDigits := if |parts| > 1 && parts[1] != "" then Filter(parts[1], IsDigit) else "";
    var fraction := Take(decimalDigits, MaxFractionDigits);
    Assemble(Group(integerDigits), fraction)
  }

  /** The grouped integer part, followed by a comma and the fraction when
      the fraction is not empty. */
  function Assemble(grouped: string, fraction: string): string {
    if fraction != "" then grouped + "," + fraction else grouped
  }

  /** Reference reading of the input: the first 15 digits that come before
      its first comma. */
  function KeptInteger(value: string): string {
    Take(Filter(Split(value, ',')[0], IsDigit), MaxIntegerDigits)
  }

  /** Reference reading of the input: the first 2 digits between its first
      and second comma (empty when it has no comma). */
  function KeptFraction(value: string): string {
    var segments := Split(value, ',');
    if |segments| > 1 then Take(Filter(segments[1], IsDigit), MaxFractionDigits) else ""
  }

  /** `g` is a run of digit groups separated by single dots: the first group
      has one to three digits and every later group exactly three. */
  ghost predicate WellGrouped(g: string) {
    var groups := Split(g, '.');
    && 1 <= |groups[0]| <= 3
    && (forall k :: 1 <= k < |groups| ==> |groups[k]| == 3)
    && (forall k :: 0 <= k < |groups| ==> AllDigits(groups[k]))
  }

  // ---------------------------------------------------------------------
  // Grouping

  /** Length of the leading group of an `n`-digit run. */
  function LeadLength(n: nat): (k: nat)
    requires n >= 1
    ensures 1 <= k <= 3 && k <= n && (n - k) % 3 == 0
  {
    if n % 3 == 0 then 3 else n % 3
  }

  /** Consecutive three-character slices of `e`. */
  function Triples(e: string): (r: seq<string>)
    requires |e| % 3 == 0
    ensures forall k :: 0 <= k < |r| ==> |r[k]| == 3
    ensures forall k, c :: 0 <= k < |r| && c in r[k] ==> c in e
    decreases |e|
  {
    if e == [] then []
    else
      var rest := Triples(e[3..]);
      assert forall c :: c in e[3..] ==> c in e;
      [e[..3]] + rest
  }

  /** The digit groups of a non-empty run: a leading group of one to three
      digits followed by groups of three. */
  function Chunks(d: string): seq<string>
    requires |d| >= 1
  {
    var k := LeadLength(|d|);
    [d[..k]] + Triples(d[k..])
  }

  /** After the first digit, a separator-free step of `Separate`. */
  lemma {:induction false} SeparateStep(e: string)
    requires e != [] && |e| % 3 != 0
    ensures Separate(e, false) == [e[0]] + Separate(e[1..], false)
  {
  }

  /** A block whose length is a multiple of three becomes dot-led triples. */
  lemma {:induction false} SeparateTriples(e: string)
    requires e != [] && |e| % 3 == 0
    ensures Separate(e, false) == "." + Join(Triples(e), '.')
    decreases |e|
  {
    var tail := e[3..];
    SeparateThree(e);
    var ts := Triples(e);
    assert ts == [e[..3]] + Triples(tail);
    if tail == [] {
      assert ts == [e[..3]];
    } else {
      SeparateTriples(tail);
      assert ts[1..] == Triples(tail);
    }
  }

  /** One dot-led block of three. */
  lemma {:induction false} SeparateThree(e: string)
    requires e != [] && |e| % 3 == 0
    ensures Separate(e, false) == "." + e[..3] + Separate(e[3..], false)
  {
    assert Separate(e, false) == "." + [e[0]] + Separate(e[1..], false);
    SeparateStep(e[1..]);
    SeparateStep(e[2..]);
    assert e[1..][1..] == e[2..] && e[2..][1..] == e[3..];
    assert e[..3] == [e[0]] + [e[1]] + [e[2]];
  }

  /** The leading group comes out without a dot. */
  lemma {:induction false} SeparateLead(d: string)
    requires |d| >= 1
    ensures Separate(d, true) == d[..LeadLength(|d|)] + Separate(d[LeadLength(|d|)..], false)
  {
    var k := LeadLength(|d|);
    assert Separate(d, true) == [d[0]] + Separate(d[1..], false);
    if k >= 2 {
      SeparateStep(d[1..]);
      assert d[1..][1..] == d[2..];
      if k == 3 {
        SeparateStep(d[2..]);
        assert d[2..][1..] == d[3..];
        assert d[..3] == [d[0]] + [d[1]] + [d[2]];
      } else {
        assert d[..2] == [d[0]] + [d[1]];
      }
    } else {
      assert d[..1] == [d[0]];
    }
  }

  /** The regular-expression replacement inserts exactly the dots that
      separate the digit groups. */
  lemma {:induction false} SeparateIsJoinedChunks(d: string)
    requires |d| >= 1
    ensures Separate(d, true) == Join(Chunks(d), '.')
  {
    var k := LeadLength(|d|);
    SeparateLead(d);
    var cs := Chunks(d);
    if k == |d| {
      assert d[k..] == [];
      assert cs == [d[..k]];
    } else {
      SeparateTriples(d[k..]);
      assert cs[1..] == Triples(d[k..]);
    }
  }

  /** The groups of a digit run are digit strings with the promised sizes. */
  lemma {:induction false} ChunksShape(d: string)
    requires AllDigits(d) && |d| >= 1
    ensures var cs := Chunks(d);
      && 1 <= |cs[0]| <= 3
      && (forall k :: 1 <= k < |cs| ==> |cs[k]| == 3)
      && (forall k :: 0 <= k < |cs| ==> AllDigits(cs[k]) && '.' !in cs[k] && ',' !in cs[k])
  {
    var n := LeadLength(|d|);
    var cs := Chunks(d);
    assert forall c :: c in d[n..] ==> c in d;
    assert forall c :: c in d[..n] ==> c in d;
    assert forall c :: c in d ==> IsDigit(c);
    forall k | 0 <= k < |cs|
      ensures AllDigits(cs[k]) && '.' !in cs[k] && ',' !in cs[k]
    {
      assert forall c :: c in cs[k] ==> IsDigit(c);
      assert forall i :: 0 <= i < |cs[k]| ==> cs[k][i] in cs[k];
    }
  }

  /** Grouping keeps every digit, adds only dots, and leaves well-formed
      groups; a run of at most three digits is left alone. */
  lemma {:induction false} GroupShape(d: string)
    requires AllDigits(d)
    ensures Filter(Group(d), IsDigit) == d
    ensures Filter(Group(d), IsNotDot) == d
    ensures forall c :: c in Group(d) ==> IsDigit(c) || c == '.'
    ensures d != "" ==> WellGrouped(Group(d)) && Split(Group(d), '.') == Chunks(d)
    ensures |d| <= 3 ==> '.' !in Group(d)
  {
    if d == "" {
    } else {
      ChunksShape(d);
      var cs := Chunks(d);
      if |d| > 3 {
        SeparateIsJoinedChunks(d);
        SeparateDigits(d, true);
      } else {
        FilterKeepsAll(d, IsDigit);
        FilterKeepsAll(d, IsNotDot);
        assert LeadLength(|d|) == |d|;
        assert d[..|d|] == d && d[|d|..] == [];
        assert cs == [d];
      }
      SplitJoin(cs, '.');
    }
  }

  /** `Separate` adds nothing but dots to a digit run. */
  lemma {:induction false} SeparateDigits(e: string, atStart: bool)
    requires AllDigits(e)
    ensures Filter(Separate(e, atStart), IsDigit) == e
    ensures Filter(Separate(e, atStart), IsNotDot) == e
    ensures forall c :: c in Separate(e, atStart) ==> IsDigit(c) || c == '.'
    decreases |e|
  {
    if e != [] {
      var dot: string := if !atStart && |e| % 3 == 0 then "." else "";
      var rest := Separate(e[1..], false);
      SeparateDigits(e[1..], false);
      assert Separate(e, atStart) == dot + ([e[0]] + rest);
      SeparateDigitsStep(dot, e[0], rest, IsDigit);
      SeparateDigitsStep(dot, e[0], rest, IsNotDot);
      assert e == [e[0]] + e[1..];
    }
  }

  /** Filtering a dot (or nothing), a digit and the rest. */
  lemma {:induction false} SeparateDigitsStep(dot: string, digit: char, rest: string, keep: char -> bool)
    requires dot == "" || dot == "."
    requires !keep('.')
    requires keep(digit)
    ensures Filter(dot + ([digit] + rest), keep) == [digit] + Filter(rest, keep)
    ensures forall c :: c in dot + ([digit] + rest) ==> c == '.' || c == digit || c in rest
  {
    FilterConcat(dot, [digit] + rest, keep);
    FilterConcat([digit], rest, keep);
    assert Filter([digit], keep) == [digit] by { assert [digit][1..] == []; }
    if dot == "." {
      assert Filter(dot, keep) == [] by { assert dot[1..] == []; }
    }
  }

  // ---------------------------------------------------------------------
  // The formatter against the reference reading of its input

  /** The formatter's output is the grouped integer digits and, when there
      are any, a comma and the fraction digits, both read straight off the
      raw input. */
  lemma {:induction false} FormatAssembles(value: string)
    ensures Format(value) == Assemble(Group(KeptInteger(value)), KeptFraction(value))
    ensures AllDigits(KeptInteger(value)) && |KeptInteger(value)| <= MaxIntegerDigits
    ensures AllDigits(KeptFraction(value)) && |KeptFraction(value)| <= MaxFractionDigits
  {
    var segments := Split(value, ',');
    var parts := Split(Filter(value, IsDigitOrComma), ',');
    SplitFilter(value, IsDigitOrComma, ',');
    assert parts[0] == Filter(segments[0], IsDigitOrComma);
    FilterFilter(segments[0], IsDigitOrComma, IsDigit);
    if |parts| > 1 {
      assert parts[1] == Filter(segments[1], IsDigitOrComma);
      FilterFilter(segments[1], IsDigitOrComma, IsDigit);
    }
    TakeDigits(Filter(segments[0], IsDigit), MaxIntegerDigits);
    if |segments| > 1 {
      TakeDigits(Filter(segments[1], IsDigit), MaxFractionDigits);
    }
  }

  /** A prefix of filtered digits is all digits. */
  lemma {:induction false} TakeDigits(s: string, n: nat)
    requires forall k :: 0 <= k < |s| ==> IsDigit(s[k])
    ensures AllDigits(Take(s, n))
  {
    var t := Take(s, n);
    assert forall k :: 0 <= k < |t| ==> t[k] == s[k];
  }

  /** Splitting assembled text at commas gives back its two parts. */
  lemma {:induction false} AssembleSplit(g: string, f: string)
    requires ',' !in g && ',' !in f
    ensures Split(Assemble(g, f), ',') == if f == "" then [g] else [g, f]
  {
    if f == "" {
      SplitJoin([g], ',');
    } else {
      SplitJoin([g, f], ',');
      assert Join([g, f], ',') == g + "," + f;
    }
  }

  /** Shape of assembled text. */
  lemma {:induction false} AssembleShape(g: string, f: string)
    requires forall c :: c in g ==> IsDigit(c) || c == '.'
    requires AllDigits(f) && |f| <= 2
    ensures var r := Assemble(g, f);
      && (forall c :: c in r ==> IsDigit(c) || c == '.' || c == ',')
      && (forall i :: 0 <= i < |r| && r[i] == ',' ==> |r| - 3 <= i <= |r| - 2 && AllDigits(r[i + 1..]))
  {
    var r := Assemble(g, f);
    if f != "" {
      assert r == g + "," + f;
      assert forall c :: c in f ==> IsDigit(c);
      assert forall k :: 0 <= k < |g| ==> r[k] == g[k] && g[k] in g;
      assert forall k :: |g| < k < |r| ==> r[k] == f[k - |g| - 1] && f[k - |g| - 1] in f;
      forall j | 0 <= j < |r| && r[j] == ','
        ensures |r| - 3 <= j <= |r| - 2 && AllDigits(r[j + 1..])
      {
        assert j == |g|;
        assert r[j + 1..] == f;
      }
    } else {
      assert ',' !in r;
    }
  }

  /** Digits kept: with the dots removed, the integer part of the output is
      the first 15 digits before the input's first comma; there is a
      fraction part exactly when a digit follows that comma before any
      second comma, and it is the first two such digits. */
  lemma {:induction false} FormatKeepsDigits(value: string)
    ensures var out := Split(Format(value), ',');
      && |out| == (if KeptFraction(value) == "" then 1 else 2)
      && Filter(out[0], IsNotDot) == KeptInteger(value)
      && (|out| == 2 ==> out[1] == KeptFraction(value))
  {
    var i, f := KeptInteger(value), KeptFraction(value);
    FormatAssembles(value);
    GroupShape(i);
    NoCommaInDigits(f);
    AssembleSplit(Group(i), f);
  }

  /** Digits are not commas. */
  lemma {:induction false} NoCommaInDigits(s: string)
    requires AllDigits(s)
    ensures ',' !in s && '.' !in s
  {
    assert forall c :: c in s ==> exists k :: 0 <= k < |s| && s[k] == c;
  }

  /** Output shape: only digits, dots and commas, and a comma is always the
      last-but-one or last-but-two character, with only digits after it
      (so at most one comma, never a trailing one). */
  lemma {:induction false} FormatShape(value: string)
    ensures var r := Format(value);
      && (forall c :: c in r ==> IsDigit(c) || c == '.' || c == ',')
      && (forall i :: 0 <= i < |r| && r[i] == ',' ==> |r| - 3 <= i <= |r| - 2 && AllDigits(r[i + 1..]))
  {
    var i, f := KeptInteger(value), KeptFraction(value);
    FormatAssembles(value);
    GroupShape(i);
    AssembleShape(Group(i), f);
  }

  /** Grouping: the integer part of the output is empty when no digit was
      kept; otherwise it is well grouped, with no dot at either end, and it
      carries no dot at all when at most three digits were kept. */
  lemma {:induction false} FormatGrouping(value: string)
    ensures var g := Split(Format(value), ',')[0];
      && (KeptInteger(value) == "" ==> g == "")
      && (KeptInteger(value) != "" ==> WellGrouped(g) && g[0] != '.' && g[|g| - 1] != '.')
      && (|KeptInteger(value)| <= 3 ==> g == KeptInteger(value))
  {
    var i, f := KeptInteger(value), KeptFraction(value);
    FormatAssembles(value);
    GroupShape(i);
    NoCommaInDigits(f);
    AssembleSplit(Group(i), f);
    var g := Split(Format(value), ',')[0];
    assert g == Group(i);
    if i != "" {
      WellGroupedEnds(g);
    }
  }

  /** A well-grouped string neither starts nor ends with a dot. */
  lemma {:induction false} WellGroupedEnds(g: string)
    requires WellGrouped(g)
    ensures g != "" && g[0] != '.' && g[|g| - 1] != '.'
  {
    var groups := Split(g, '.');
    JoinSplit(g, '.');
    JoinEnds(groups, '.');
    assert groups[|groups| - 1] != "";
    assert groups[0][0] in groups[0];
    assert groups[|groups| - 1][|groups[|groups| - 1]| - 1] in groups[|groups| - 1];
  }

  /** A join begins with its first segment and ends with its last. */
  lemma {:induction false} JoinEnds(parts: seq<string>, sep: char)
    requires |parts| >= 1
    ensures parts[0] <= Join(parts, sep)
    ensures var j, last := Join(parts, sep), parts[|parts| - 1];
      |last| <= |j| && j[|j| - |last|..] == last
    decreases |parts|
  {
    if |parts| > 1 {
      JoinEnds(parts[1..], sep);
      var rest := Join(parts[1..], sep);
      assert Join(parts, sep) == (parts[0] + [sep]) + rest;
    }
  }

  /** Formatting is idempotent: formatted text is a fixed point, because
      the dots are stripped and regenerated and the caps already hold. */
  lemma {:induction false} FormatIdempotent(value: string)
    ensures Format(Format(value)) == Format(value)
  {
    var i, f := KeptInteger(value), KeptFraction(value);
    FormatAssembles(value);
    ReadAssembled(i, f);
    FormatAssembles(Format(value));
  }

  /** Reading assembled output again finds the same digits. */
  lemma {:induction false} ReadAssembled(i: string, f: string)
    requires AllDigits(i) && |i| <= MaxIntegerDigits
    requires AllDigits(f) && |f| <= MaxFractionDigits
    ensures var a := Assemble(Group(i), f);
      KeptInteger(a) == i && KeptFraction(a) == f
  {
    var a := Assemble(Group(i), f);
    GroupShape(i);
    NoCommaInDigits(f);
    AssembleSplit(Group(i), f);
    FilterKeepsAll(i, IsDigit);
    if f != "" {
      FilterKeepsAll(f, IsDigit);
    }
  }

  // ---------------------------------------------------------------------
  // Worked inputs

  /** Seven digits fall into groups of one, three and three. */
  lemma {:induction false} GroupSevenDigits()
    ensures Group("1234567") == "1.234.567"
  {
    var d := "1234567";
    assert Join(["1", "234", "567"], '.') == "1.234.567";
    assert LeadLength(7) == 1;
    assert d[..1] == "1";
    assert d[1..] == "234567";
    assert "234567"[..3] == "234";
    assert "234567"[3..] == "567";
    assert "567"[..3] == "567";
    assert "567"[3..] == "";
    assert Triples("") == [];
    assert Triples("567") == ["567"];
    assert Triples("234567") == ["234", "567"];
    assert Chunks(d) == ["1", "234", "567"];
    SeparateIsJoinedChunks(d);
  }

  /** Everything after a second comma is discarded. */
  lemma {:induction false} SecondCommaDiscarded()
    ensures Format("1,2,3") == "1,2"
  {
    var v := "1,2,3";
    assert v == Join(["1", "2", "3"], ',');
    SplitJoin(["1", "2", "3"], ',');
    FilterKeepsAll("1", IsDigit);
    FilterKeepsAll("2", IsDigit);
    FormatAssembles(v);
  }

  /** A comma with no digit after it is dropped. */
  lemma {:induction false} TrailingCommaDropped()
    ensures Format("12,") == "12"
  {
    var v := "12,";
    assert v == Join(["12", ""], ',');
    SplitJoin(["12", ""], ',');
    FilterKeepsAll("12", IsDigit);
    FormatAssembles(v);
  }

  /** The reference reading of `"1234567,5"`. */
  lemma {:induction false} TypedAmountParts()
    ensures KeptInteger("1234567,5") == "1234567" && KeptFraction("1234567,5") == "5"
  {
    var whole, fraction := "1234567", "5";
    assert AllDigits(whole) && AllDigits(fraction);
    NoCommaInDigits(whole);
    NoCommaInDigits(fraction);
    assert whole + "," + fraction == "1234567,5";
    SplitJoin([whole, fraction], ',');
    assert Join([whole, fraction], ',') == whole + "," + fraction;
    FilterKeepsAll(whole, IsDigit);
    FilterKeepsAll(fraction, IsDigit);
  }

  /** Typing seven digits, a comma and a digit gives the grouped text. */
  lemma {:induction false} TypedAmountGrouped()
    ensures Format("1234567,5") == "1.234.567,5"
  {
    assert "1.234.567" + "," + "5" == "1.234.567,5";
    TypedAmountParts();
    GroupSevenDigits();
    FormatFromParts("1234567,5", "1234567", "1.234.567", "5");
  }

  /** The formatter's output once the integer digits, their grouping and
      the fraction read off `value` are known. */
  lemma {:induction false} FormatFromParts(value: string, integer: string, grouped: string, fraction: string)
    requires KeptInteger(value) == integer && Group(integer) == grouped
    requires KeptFraction(value) == fraction
    ensures fraction != "" ==> Format(value) == grouped + "," + fraction
    ensures fraction == "" ==> Format(value) == grouped
  {
    FormatAssembles(value);
  }

  /** Grouped text is left as it is when formatted again. */
  lemma {:induction false} GroupedAmountStays()
    ensures Format("1.234.567,5") == "1.234.567,5"
  {
    TypedAmountGrouped();
    FormatIdempotent("1234567,5");
  }
}
