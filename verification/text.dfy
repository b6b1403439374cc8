/** Character-level string operations that the page's formatter and
    normaliser are built from: filtering by a character class, splitting at
    a separator (JavaScript's `String.prototype.split` with a one-character
    separator), joining, and taking a prefix (`substring(0, n)`). */
module Text {

  predicate IsDigit(c: char) { '0' <= c <= '9' }

  predicate IsNotDot(c: char) { c != '.' }

  predicate IsDigitOrComma(c: char) { IsDigit(c) || c == ',' }

  predicate AllDigits(s: string) {
    forall i :: 0 <= i < |s| ==> IsDigit(s[i])
  }

  /** The characters of `s` that satisfy `keep`, in order. */
  function Filter(s: string, keep: char -> bool): (r: string)
    ensures |r| <= |s|
    ensures forall i :: 0 <= i < |r| ==> keep(r[i])
    decreases |s|
  {
    if s == [] then []
    else (if keep(s[0]) then [s[0]] else []) + Filter(s[1..], keep)
  }

  lemma {:induction false} FilterConcat(a: string, b: string, keep: char -> bool)
    ensures Filter(a + b, keep) == Filter(a, keep) + Filter(b, keep)
    decreases |a|
  {
    if a == [] {
      assert a + b == b;
    } else {
      assert (a + b)[1..] == a[1..] + b;
      FilterConcat(a[1..], b, keep);
    }
  }

  /** Filtering keeps everything when every character already qualifies. */
  lemma {:induction false} FilterKeepsAll(s: string, keep: char -> bool)
    requires forall i :: 0 <= i < |s| ==> keep(s[i])
    ensures Filter(s, keep) == s
    decreases |s|
  {
    if s != [] {
      FilterKeepsAll(s[1..], keep);
    }
  }

  /** A coarser filter followed by a finer one is the finer one alone. */
  lemma {:induction false} FilterFilter(s: string, coarse: char -> bool, fine: char -> bool)
    requires forall c :: fine(c) ==> coarse(c)
    ensures Filter(Filter(s, coarse), fine) == Filter(s, fine)
    decreases |s|
  {
    if s != [] {
      var rest := Filter(s[1..], coarse);
      FilterFilter(s[1..], coarse, fine);
      if coarse(s[0]) {
        assert Filter(s, coarse) == [s[0]] + rest;
        FilterConcat([s[0]], rest, fine);
        assert Filter([s[0]], fine) == (if fine(s[0]) then [s[0]] else []) + Filter([], fine) by {
          assert [s[0]][1..] == [];
        }
      } else {
        assert Filter(s, coarse) == [] + rest;
        assert [] + rest == rest;
      }
    }
  }

  /** The segments of `s` between occurrences of `sep`: an empty string
      gives one empty segment, and `n` separators give `n + 1` segments. */
  function Split(s: string, sep: char): (parts: seq<string>)
    ensures |parts| >= 1
    ensures forall k :: 0 <= k < |parts| ==> sep !in parts[k]
    decreases |s|
  {
    if s == [] then [""]
    else
      var rest := Split(s[1..], sep);
      if s[0] == sep then [""] + rest
      else [[s[0]] + rest[0]] + rest[1..]
  }

  /** The segments glued back together with `sep` between neighbours. */
  function Join(parts: seq<string>, sep: char): string
    requires |parts| >= 1
    decreases |parts|
  {
    if |parts| == 1 then parts[0] else parts[0] + [sep] + Join(parts[1..], sep)
  }

  /** Splitting and joining again gives back the original string. */
  lemma {:induction false} JoinSplit(s: string, sep: char)
    ensures Join(Split(s, sep), sep) == s
    decreases |s|
  {
    if s != [] {
      var rest := Split(s[1..], sep);
      JoinSplit(s[1..], sep);
      if s[0] == sep {
        assert Split(s, sep)[1..] == rest;
      } else {
        var parts := Split(s, sep);
        if |rest| == 1 {
          assert parts == [[s[0]] + rest[0]];
        } else {
          assert parts[1..] == rest[1..];
          assert Join(rest, sep) == rest[0] + [sep] + Join(rest[1..], sep);
        }
      }
    }
  }

  /** Splitting a string with no separator in front of `b` extends the
      first segment of `b`. */
  lemma {:induction false} SplitPrefix(a: string, b: string, sep: char)
    requires sep !in a
    ensures Split(a + b, sep) == [a + Split(b, sep)[0]] + Split(b, sep)[1..]
    decreases |a|
  {
    if a != [] {
      assert (a + b)[1..] == a[1..] + b;
      SplitPrefix(a[1..], b, sep);
      assert [a[0]] + (a[1..] + Split(b, sep)[0]) == a + Split(b, sep)[0];
    } else {
      assert a + b == b;
      assert a + Split(b, sep)[0] == Split(b, sep)[0];
    }
  }

  /** Joining segments that contain no separator and splitting again gives
      back the segments. */
  lemma {:induction false} SplitJoin(parts: seq<string>, sep: char)
    requires |parts| >= 1
    requires forall k :: 0 <= k < |parts| ==> sep !in parts[k]
    ensures Split(Join(parts, sep), sep) == parts
    decreases |parts|
  {
    if |parts| == 1 {
      SplitPrefix(parts[0], "", sep);
      assert parts[0] + "" == parts[0];
    } else {
      var tail := Join(parts[1..], sep);
      SplitJoin(parts[1..], sep);
      assert [sep] + tail != [];
      assert ([sep] + tail)[1..] == tail;
      assert Split([sep] + tail, sep) == [""] + parts[1..];
      assert parts[0] + [sep] + tail == parts[0] + ([sep] + tail);
      SplitPrefix(parts[0], [sep] + tail, sep);
      assert parts[0] + "" == parts[0];
    }
  }

  /** Each segment filtered on its own. */
  function FilterEach(parts: seq<string>, keep: char -> bool): (r: seq<string>)
    ensures |r| == |parts|
    ensures forall k :: 0 <= k < |parts| ==> r[k] == Filter(parts[k], keep)
    decreases |parts|
  {
    if parts == [] then [] else [Filter(parts[0], keep)] + FilterEach(parts[1..], keep)
  }

  /** Splitting after removing characters (but never the separator) gives
      the filtered segments of the original. */
  lemma {:induction false} SplitFilter(s: string, keep: char -> bool, sep: char)
    requires keep(sep)
    ensures Split(Filter(s, keep), sep) == FilterEach(Split(s, sep), keep)
    decreases |s|
  {
    if s == [] {
    } else {
      var f := Filter(s[1..], keep);
      var rest := Split(s[1..], sep);
      SplitFilter(s[1..], keep, sep);
      assert Split(f, sep) == FilterEach(rest, keep);
      if !keep(s[0]) {
        SplitFilterDrop(s, keep, sep);
      } else if s[0] == sep {
        assert Filter(s, keep) == [sep] + f;
        assert ([sep] + f)[1..] == f;
        assert Split(s, sep) == [""] + rest;
      } else {
        assert Filter(s, keep) == [s[0]] + f;
        assert ([s[0]] + f)[1..] == f;
        assert Filter([s[0]] + rest[0], keep) == [s[0]] + Filter(rest[0], keep) by {
          assert ([s[0]] + rest[0])[1..] == rest[0];
        }
      }
    }
  }

  /** The step of `SplitFilter` for a leading character that is removed. */
  lemma {:induction false} SplitFilterDrop(s: string, keep: char -> bool, sep: char)
    requires keep(sep) && s != [] && !keep(s[0])
    requires Split(Filter(s[1..], keep), sep) == FilterEach(Split(s[1..], sep), keep)
    ensures Split(Filter(s, keep), sep) == FilterEach(Split(s, sep), keep)
  {
    var rest := Split(s[1..], sep);
    assert Filter(s, keep) == [] + Filter(s[1..], keep);
    assert Filter([s[0]] + rest[0], keep) == [] + Filter(rest[0], keep) by {
      assert ([s[0]] + rest[0])[1..] == rest[0];
    }
    var whole := Split(s, sep);
    assert whole == [[s[0]] + rest[0]] + rest[1..];
    var lhs := FilterEach(whole, keep);
    var rhs := FilterEach(rest, keep);
    assert |lhs| == |rhs|;
    forall k | 0 <= k < |lhs|
      ensures lhs[k] == rhs[k]
    {
      if k > 0 {
        assert whole[k] == rest[k];
      }
    }
    assert lhs == rhs;
    assert Filter(s, keep) == Filter(s[1..], keep);
  }

  /** The first `n` characters of `s`, or all of `s` when it is shorter
      (`substring(0, n)`). */
  function Take(s: string, n: nat): (r: string)
    ensures |r| == if |s| < n then |s| else n
    ensures r <= s
  {
    if |s| > n then s[..n] else s
  }
}
