/**
 * The Python string operations the scripts rely on: `str.strip()`, the ordering `sorted()`
 * uses on strings, `sorted(list(set))`, `str(n)` for integers and `int(s)` for strings.
 */
module Text {
  import opened Wrappers

  /** The code points for which Python's `str.isspace()` holds: Unicode white space
      (bidirectional class WS, B or S, or general category Zs). */
  const SpaceCodes: set<int> :=
    {0x09, 0x0A, 0x0B, 0x0C, 0x0D, 0x1C, 0x1D, 0x1E, 0x1F, 0x20, 0x85, 0xA0, 0x1680,
     0x2000, 0x2001, 0x2002, 0x2003, 0x2004, 0x2005, 0x2006, 0x2007, 0x2008, 0x2009, 0x200A,
     0x2028, 0x2029, 0x202F, 0x205F, 0x3000}

  /** Python's `str.isspace()` for one character. */
  predicate IsSpace(c: char) {
    c as int in SpaceCodes
  }

  /** Every character of `s` from position `lo` up to `hi` is white space. */
  predicate SpaceBetween(s: string, lo: nat, hi: nat)
    requires lo <= hi <= |s|
  {
    forall k :: lo <= k < hi ==> IsSpace(s[k])
  }

  /** The first position at or after `i` that is not white space (`|s|` when there is none). */
  function TextStart(s: string, i: nat): (j: nat)
    requires i <= |s|
    ensures i <= j <= |s|
    ensures SpaceBetween(s, i, j)
    ensures j < |s| ==> !IsSpace(s[j])
    decreases |s| - i
  {
    if i < |s| && IsSpace(s[i]) then TextStart(s, i + 1) else i
  }

  /** The end of the text in `s[lo..hi]`: the least position `j >= lo` such that `s[j..hi]`
      is all white space. */
  function TextEnd(s: string, lo: nat, hi: nat): (j: nat)
    requires lo <= hi <= |s|
    ensures lo <= j <= hi
    ensures SpaceBetween(s, j, hi)
    ensures j > lo ==> !IsSpace(s[j - 1])
    decreases hi
  {
    if hi > lo && IsSpace(s[hi - 1]) then TextEnd(s, lo, hi - 1) else hi
  }

  /** `s.strip()`: the text between the leading and the trailing white space. */
  function Strip(s: string): (r: string)
    ensures var i := TextStart(s, 0);
      var j := TextEnd(s, i, |s|);
      && r == s[i..j]
      && SpaceBetween(s, 0, i)
      && SpaceBetween(s, j, |s|)
      && (|r| > 0 ==> !IsSpace(r[0]) && !IsSpace(r[|r| - 1]))
  {
    var i := TextStart(s, 0);
    var j := TextEnd(s, i, |s|);
    s[i..j]
  }

  /** A string without white space at either end is its own strip. */
  lemma StripFixed(s: string)
    requires |s| > 0 ==> !IsSpace(s[0]) && !IsSpace(s[|s| - 1])
    ensures Strip(s) == s
  {
    assert TextStart(s, 0) == 0;
    assert |s| > 0 ==> TextEnd(s, 0, |s|) == |s|;
    assert s[0..|s|] == s;
  }

  /** Stripping twice is stripping once. */
  lemma StripIdempotent(s: string)
    ensures Strip(Strip(s)) == Strip(s)
  {
    StripFixed(Strip(s));
  }

  // ---------------------------------------------------------------- ordering

  /** Python's `a < b` on strings: lexicographic by code point, a proper prefix first. */
  predicate StrLess(a: string, b: string)
    decreases |a|
  {
    if |a| == 0 then |b| > 0
    else |b| > 0 && (if a[0] == b[0] then StrLess(a[1..], b[1..]) else a[0] < b[0])
  }

  lemma {:induction false} StrLessIrreflexive(a: string)
    ensures !StrLess(a, a)
    decreases |a|
  {
    if |a| > 0 {
      StrLessIrreflexive(a[1..]);
    }
  }

  lemma {:induction false} StrLessTransitive(a: string, b: string, c: string)
    requires StrLess(a, b) && StrLess(b, c)
    ensures StrLess(a, c)
    decreases |a|
  {
    if |a| > 0 && a[0] == b[0] && b[0] == c[0] {
      StrLessTransitive(a[1..], b[1..], c[1..]);
    }
  }

  lemma {:induction false} StrLessTotal(a: string, b: string)
    requires a != b
    ensures StrLess(a, b) || StrLess(b, a)
    decreases |a|
  {
    if |a| > 0 && |b| > 0 && a[0] == b[0] {
      assert a == [a[0]] + a[1..] && b == [b[0]] + b[1..];
      StrLessTotal(a[1..], b[1..]);
    }
  }

  /** The shape of Python's `sorted(list(some_set))` for strings. */
  predicate StrictlySorted(xs: seq<string>) {
    forall i, j :: 0 <= i < j < |xs| ==> StrLess(xs[i], xs[j])
  }

  /** Adds `x` to a sorted duplicate-free sequence, keeping it so. */
  function InsertSorted(xs: seq<string>, x: string): (r: seq<string>)
    requires StrictlySorted(xs)
    ensures StrictlySorted(r)
    ensures forall y :: y in r <==> y in xs || y == x
  {
    if |xs| == 0 then [x]
    else if x == xs[0] then xs
    else if StrLess(x, xs[0]) then
      assert forall j :: 0 < j < |xs| ==> StrLess(x, xs[j]) by {
        forall j | 0 < j < |xs| {
          StrLessTransitive(x, xs[0], xs[j]);
        }
      }
      [x] + xs
    else
      StrLessTotal(x, xs[0]);
      var rest := InsertSorted(xs[1..], x);
      assert forall j :: 0 <= j < |rest| ==> StrLess(xs[0], rest[j]) by {
        forall j | 0 <= j < |rest| ensures StrLess(xs[0], rest[j]) {
          if rest[j] != x {
            assert rest[j] in rest;
            var k :| 0 <= k < |xs[1..]| && xs[1..][k] == rest[j];
            assert xs[k + 1] == rest[j];
          }
        }
      }
      [xs[0]] + rest
  }

  /** Sorting a set has one answer: two sorted duplicate-free sequences with the
      same elements are equal. */
  lemma {:induction false} SortedUnique(xs: seq<string>, ys: seq<string>)
    requires StrictlySorted(xs) && StrictlySorted(ys)
    requires forall s :: s in xs <==> s in ys
    ensures xs == ys
  {
    assert |xs| > 0 ==> xs[0] in ys;
    assert |ys| > 0 ==> ys[0] in xs;
    if |xs| > 0 && |ys| > 0 {
      if xs[0] != ys[0] {
        assert ys[0] in ys;
        var i :| 0 <= i < |xs| && xs[i] == ys[0];
        assert xs[0] in xs;
        var j :| 0 <= j < |ys| && ys[j] == xs[0];
        assert StrLess(xs[0], ys[0]) by { assert 0 < i; }
        assert StrLess(ys[0], xs[0]) by { assert 0 < j; }
        StrLessTransitive(xs[0], ys[0], xs[0]);
        StrLessIrreflexive(xs[0]);
      }
      assert forall s :: s in xs[1..] <==> s in xs && s != xs[0] by {
        forall s | s in xs[1..] ensures s != xs[0] {
          var k :| 1 <= k < |xs| && xs[k] == s;
          StrLessIrreflexive(s);
        }
      }
      assert forall s :: s in ys[1..] <==> s in ys && s != ys[0] by {
        forall s | s in ys[1..] ensures s != ys[0] {
          var k :| 1 <= k < |ys| && ys[k] == s;
          StrLessIrreflexive(s);
        }
      }
      SortedUnique(xs[1..], ys[1..]);
      assert xs == [xs[0]] + xs[1..] && ys == [ys[0]] + ys[1..];
    }
  }

  // ---------------------------------------------------------------- integers

  predicate IsDigit(c: char) {
    '0' <= c <= '9'
  }

  function DigitChar(d: nat): (c: char)
    requires d < 10
    ensures IsDigit(c) && c as int - '0' as int == d
  {
    ('0' as int + d) as char
  }

  /** Python's `str(n)` for a natural number: decimal, no leading zeros. */
  function NatToDecimal(n: nat): (s: string)
    ensures |s| > 0 && forall k :: 0 <= k < |s| ==> IsDigit(s[k])
    ensures |s| > 1 ==> s[0] != '0'
    decreases n
  {
    if n < 10 then [DigitChar(n)] else NatToDecimal(n / 10) + [DigitChar(n % 10)]
  }

  /** Python's `str(n)` for an integer. */
  function IntToDecimal(n: int): string {
    if n < 0 then "-" + NatToDecimal(-n) else NatToDecimal(n)
  }

  /** A run of ASCII digits with single underscores between digits: what `int()` accepts after the sign. */
  predicate IsDigitGroup(s: string) {
    && |s| > 0
    && IsDigit(s[0])
    && IsDigit(s[|s| - 1])
    && (forall k :: 0 <= k < |s| ==> IsDigit(s[k]) || s[k] == '_')
    && (forall k :: 0 <= k < |s| - 1 && s[k] == '_' ==> s[k + 1] != '_')
  }

  /** The number a digit group denotes, underscores ignored. */
  function DigitsValue(s: string): nat
    requires forall k :: 0 <= k < |s| ==> IsDigit(s[k]) || s[k] == '_'
  {
    if |s| == 0 then 0
    else if s[|s| - 1] == '_' then DigitsValue(s[..|s| - 1])
    else
      assert IsDigit(s[|s| - 1]);
      DigitsValue(s[..|s| - 1]) * 10 + (s[|s| - 1] as int - '0' as int)
  }

  /** The ASCII information separators U+001C to U+001F. `str.isspace()` holds for them, but
      `int()` does not skip them. */
  predicate IsInfoSeparator(c: char) {
    0x1C <= c as int <= 0x1F
  }

  /** The code points `int()` skips around its digits: the ASCII white space `\t\n\v\f\r` and
      space, and every `str.isspace()` character outside ASCII. */
  const IntSpaceCodes: set<int> :=
    {0x09, 0x0A, 0x0B, 0x0C, 0x0D, 0x20, 0x85, 0xA0, 0x1680,
     0x2000, 0x2001, 0x2002, 0x2003, 0x2004, 0x2005, 0x2006, 0x2007, 0x2008, 0x2009, 0x200A,
     0x2028, 0x2029, 0x202F, 0x205F, 0x3000}

  predicate IsIntSpace(c: char) {
    c as int in IntSpaceCodes
  }

  /** `int()` skips exactly the `str.isspace()` characters other than the information separators. */
  lemma IntSpaceIsSpace(c: char)
    ensures IsIntSpace(c) <==> IsSpace(c) && !IsInfoSeparator(c)
  {
  }

  /** `int()` skips every character of `s` from position `lo` up to `hi`. */
  predicate IntSpaceBetween(s: string, lo: nat, hi: nat)
    requires lo <= hi <= |s|
  {
    forall k :: lo <= k < hi ==> IsIntSpace(s[k])
  }

  /** The first position at or after `i` that `int()` does not skip (`|s|` when there is none). */
  function IntStart(s: string, i: nat): (j: nat)
    requires i <= |s|
    ensures i <= j <= |s|
    ensures IntSpaceBetween(s, i, j)
    ensures j < |s| ==> !IsIntSpace(s[j])
    decreases |s| - i
  {
    if i < |s| && IsIntSpace(s[i]) then IntStart(s, i + 1) else i
  }

  /** The least position `j >= lo` such that `int()` skips all of `s[j..hi]`. */
  function IntEnd(s: string, lo: nat, hi: nat): (j: nat)
    requires lo <= hi <= |s|
    ensures lo <= j <= hi
    ensures IntSpaceBetween(s, j, hi)
    ensures j > lo ==> !IsIntSpace(s[j - 1])
    decreases hi
  {
    if hi > lo && IsIntSpace(s[hi - 1]) then IntEnd(s, lo, hi - 1) else hi
  }

  /** Python's `int(s)` for a string: white space around, an optional sign, then a digit group;
      `None` where Python raises `ValueError`. */
  function ParseInt(s: string): Option<int> {
    ParseStripped(IntStrip(s))
  }

  /** The text `int()` reads between the white space it skips. */
  function IntStrip(s: string): string {
    var i := IntStart(s, 0);
    s[i..IntEnd(s, i, |s|)]
  }

  /** `int()` once the surrounding white space is gone. */
  function ParseStripped(t: string): Option<int> {
    if |t| > 0 && (t[0] == '+' || t[0] == '-') then
      if IsDigitGroup(t[1..]) then
        var v: int := DigitsValue(t[1..]);
        Some(if t[0] == '-' then -v else v)
      else None
    else if IsDigitGroup(t) then Some(DigitsValue(t))
    else None
  }

  lemma {:induction false} DigitsValueOfDecimal(n: nat)
    ensures DigitsValue(NatToDecimal(n)) == n
    decreases n
  {
    var s := NatToDecimal(n);
    if n >= 10 {
      DigitsValueOfDecimal(n / 10);
      assert s[..|s| - 1] == NatToDecimal(n / 10);
    }
  }

  /** The decimal text of a natural number is a digit group. */
  lemma DecimalIsDigitGroup(n: nat)
    ensures IsDigitGroup(NatToDecimal(n))
  {
    var s := NatToDecimal(n);
    assert IsDigit(s[0]) && IsDigit(s[|s| - 1]);
  }

  /** The decimal text of an integer, once stripped, parses back to it. */
  lemma ParseStrippedDecimal(n: int)
    ensures ParseStripped(IntToDecimal(n)) == Some(n)
  {
    var s := IntToDecimal(n);
    if n < 0 {
      var d := NatToDecimal(-n);
      assert s == "-" + d && s[1..] == d;
      DecimalIsDigitGroup(-n);
      DigitsValueOfDecimal(-n);
    } else {
      assert IsDigit(s[0]);
      DecimalIsDigitGroup(n);
      DigitsValueOfDecimal(n);
    }
  }

  /** `int(str(n)) == n`: the decimal text of an integer parses back to it. */
  lemma IntDecimalRoundTrip(n: int)
    ensures ParseInt(IntToDecimal(n)) == Some(n)
  {
    PaddedDecimalRoundTrip([], n, []);
    assert [] + IntToDecimal(n) + [] == IntToDecimal(n);
  }

  /** The white space `int()` skips at the front of `s[i..]` ends at position `m`. */
  lemma {:induction false} IntStartAt(s: string, i: nat, m: nat)
    requires i <= m < |s| && !IsIntSpace(s[m]) && IntSpaceBetween(s, i, m)
    ensures IntStart(s, i) == m
    decreases m - i
  {
    if i < m {
      IntStartAt(s, i + 1, m);
    }
  }

  /** The white space `int()` skips at the back of `s[lo..hi]` starts at position `m`. */
  lemma {:induction false} IntEndAt(s: string, lo: nat, m: nat, hi: nat)
    requires lo < m <= hi <= |s| && !IsIntSpace(s[m - 1]) && IntSpaceBetween(s, m, hi)
    ensures IntEnd(s, lo, hi) == m
    decreases hi
  {
    if m < hi {
      IntEndAt(s, lo, m, hi - 1);
    }
  }

  /** `int(pad + str(n) + pad) == n` for any padding of white space other than the
      information separators, ASCII or not. */
  lemma PaddedDecimalRoundTrip(pre: string, n: int, post: string)
    requires forall k :: 0 <= k < |pre| ==> IsIntSpace(pre[k])
    requires forall k :: 0 <= k < |post| ==> IsIntSpace(post[k])
    ensures ParseInt(pre + IntToDecimal(n) + post) == Some(n)
  {
    var d := IntToDecimal(n);
    DecimalEndsNotSpace(n);
    var s := pre + d + post;
    var i, j := |pre|, |pre| + |d|;
    assert forall k :: 0 <= k < i ==> s[k] == pre[k];
    assert forall k :: j <= k < |s| ==> s[k] == post[k - j];
    assert s[i] == d[0] && s[j - 1] == d[|d| - 1];
    IntStartAt(s, 0, i);
    IntEndAt(s, i, j, |s|);
    assert s[i..j] == d;
    ParseStrippedDecimal(n);
  }

  /** The decimal text of an integer neither starts nor ends with white space. */
  lemma DecimalEndsNotSpace(n: int)
    ensures var d := IntToDecimal(n); |d| > 0 && !IsSpace(d[0]) && !IsSpace(d[|d| - 1])
  {
    var d := IntToDecimal(n);
    assert IsDigit(d[|d| - 1]);
  }

  /** An information separator at either end makes `int()` raise, although `str.strip()`
      removes it. */
  lemma SeparatorAtEndRejected(s: string)
    requires |s| > 0 && (IsInfoSeparator(s[0]) || IsInfoSeparator(s[|s| - 1]))
    ensures IsSpace(s[0]) || IsSpace(s[|s| - 1])
    ensures ParseInt(s).None?
  {
    var i := IntStart(s, 0);
    var j := IntEnd(s, i, |s|);
    var t := s[i..j];
    if IsInfoSeparator(s[0]) {
      assert i == 0 && j > 0 && t[0] == s[0];
    } else {
      assert j == |s| && t[|t| - 1] == s[|s| - 1];
    }
  }

  /** `str(n)` is injective on naturals. */
  lemma NatToDecimalInjective(m: nat, n: nat)
    requires NatToDecimal(m) == NatToDecimal(n)
    ensures m == n
  {
    IntDecimalRoundTrip(m);
    IntDecimalRoundTrip(n);
  }
}
