/** Numeric coercion of cell text. `pd.to_numeric(..., errors='coerce')` and
    `float()` are modelled by a partial decimal parser (optional sign, digits,
    at most one point); a cell it rejects is NaN in the source, `None` here.
    `extract_value` of the highlighter is modelled by `ExtractValue`. */
module Numbers {
  import opened Wrappers
  import opened Strings
  import opened Seqs

  /** Every character is a digit (so the empty string qualifies). */
  predicate AllDigits(s: string) {
    forall i :: 0 <= i < |s| ==> IsDigit(s[i])
  }

  function Pow10(n: nat): (r: nat)
    ensures r >= 1
  {
    if n == 0 then 1 else 10 * Pow10(n - 1)
  }

  /** The value of the digits written after a decimal point. */
  function FractionValue(d: string): (r: real)
    requires AllDigits(d)
    ensures 0.0 <= r
  {
    DigitsValue(d) as real / Pow10(|d|) as real
  }

  /** Position of the first `c` in `s`, or `|s|` when there is none. */
  function IndexOf(s: string, c: char): (k: nat)
    ensures k <= |s|
    ensures forall i :: 0 <= i < k ==> s[i] != c
    ensures k < |s| ==> s[k] == c
  {
    if s == [] then 0
    else if s[0] == c then 0
    else 1 + IndexOf(s[1..], c)
  }

  /** An unsigned decimal: digits, optionally a point and more digits, at least one digit in all. */
  function ParseUnsigned(s: string): (r: Option<real>)
    ensures r.Some? ==> r.value >= 0.0
  {
    var k := IndexOf(s, '.');
    var whole := s[..k];
    var frac := if k < |s| then s[k + 1..] else [];
    if AllDigits(whole) && AllDigits(frac) && |whole| + |frac| > 0 then
      Some(DigitsValue(whole) as real + FractionValue(frac))
    else None
  }

  /** The number a cell holds, or `None` where the source gets NaN. */
  function ParseDecimal(s: string): (r: Option<real>)
    ensures r.Some? ==> |s| > 0
    ensures r.Some? && r.value < 0.0 ==> s[0] == '-'
  {
    if |s| > 0 && (s[0] == '-' || s[0] == '+') then
      match ParseUnsigned(s[1..])
      case None => None
      case Some(v) => Some(if s[0] == '-' then -v else v)
    else ParseUnsigned(s)
  }

  /** The text `str(w) + "." + f` of a decimal with whole part `w` and fraction digits `f`. */
  function FormatDecimal(w: nat, f: string): string
    requires AllDigits(f)
  {
    NatToString(w) + "." + f
  }

  /** Parsing a digit string gives its integer value: `float(str(n)) == n`. */
  lemma ParseDigits(s: string)
    requires IsDigits(s)
    ensures ParseDecimal(s) == Some(DigitsValue(s) as real)
  {
    assert '.' !in s by {
      forall i | 0 <= i < |s| ensures s[i] != '.' {
        assert IsDigit(s[i]);
      }
    }
    IndexOfAbsent(s, '.');
    assert IsDigit(s[0]);
    assert s[..|s|] == s;
    assert FractionValue([]) == 0.0 by {
      assert DigitsValue([]) == 0 && Pow10(0) == 1;
    }
  }

  lemma {:induction false} IndexOfAbsent(s: string, c: char)
    requires c !in s
    ensures IndexOf(s, c) == |s|
  {
    if s != [] {
      assert s[1..] == s[1..];
      IndexOfAbsent(s[1..], c);
    }
  }

  lemma ParseNatToString(n: nat)
    ensures ParseDecimal(NatToString(n)) == Some(n as real)
  {
    ParseDigits(NatToString(n));
    DigitsValueOfNatToString(n);
  }

  /** Parsing a formatted decimal gives back its value. */
  lemma ParseFormatted(w: nat, f: string)
    requires AllDigits(f)
    ensures ParseDecimal(FormatDecimal(w, f)) == Some(w as real + FractionValue(f))
  {
    var d := NatToString(w);
    var s := FormatDecimal(w, f);
    assert s == d + ("." + f);
    assert s[0] == d[0] && IsDigit(d[0]);
    assert '.' !in d by {
      forall i | 0 <= i < |d| ensures d[i] != '.' {
        assert IsDigit(d[i]);
      }
    }
    assert IndexOf(s, '.') == |d| by {
      IndexOfPrefix(d, "." + f, '.');
    }
    assert s[..|d|] == d;
    assert s[|d| + 1..] == f;
    DigitsValueOfNatToString(w);
  }

  lemma {:induction false} IndexOfPrefix(d: string, t: string, c: char)
    requires c !in d && |t| > 0 && t[0] == c
    ensures IndexOf(d + t, c) == |d|
    decreases |d|
  {
    if d != [] {
      assert (d + t)[1..] == d[1..] + t;
      IndexOfPrefix(d[1..], t, c);
    } else {
      assert d + t == t;
    }
  }

  /** Selects the characters other than `c`. */
  function Unequal(c: char): char -> bool {
    x => x != c
  }

  /** `s` without any occurrence of `c`, Python's `s.replace(c, '')`. */
  function RemoveChar(s: string, c: char): (r: string)
    ensures c !in r
    ensures forall x :: x in r <==> x in s && x != c
    ensures c !in s ==> r == s
  {
    if s == [] then []
    else (if s[0] == c then [] else [s[0]]) + RemoveChar(s[1..], c)
  }

  /** `replace(c, '')` keeps every other character, in order and as often as it occurs. */
  lemma {:induction false} RemoveCharIsFilter(s: string, c: char)
    ensures RemoveChar(s, c) == Filter(s, Unequal(c))
  {
    if s != [] {
      RemoveCharIsFilter(s[1..], c);
    }
  }

  /** Length of the run of digits starting at position `i`. */
  function DigitRun(s: string, i: nat): (n: nat)
    requires i <= |s|
    ensures i + n <= |s| && AllDigits(s[i..i + n])
    ensures i + n == |s| || !IsDigit(s[i + n])
    decreases |s| - i
  {
    if i < |s| && IsDigit(s[i]) then
      var n := 1 + DigitRun(s, i + 1);
      assert s[i..i + n] == [s[i]] + s[i + 1..i + n];
      n
    else 0
  }

  /** Position of the first digit, or `|s|`. */
  function FirstDigit(s: string): (k: nat)
    ensures k <= |s| && (k < |s| ==> IsDigit(s[k]))
    ensures forall i :: 0 <= i < k ==> !IsDigit(s[i])
  {
    if s == [] then 0
    else if IsDigit(s[0]) then 0
    else 1 + FirstDigit(s[1..])
  }

  /** `extract_value` on a string: with `%` removed, the first match of `\d+\.?\d*`
      as a float, or 0.0 when there is no digit at all. */
  function ExtractValue(val: string): (r: real)
    ensures r >= 0.0
    ensures (forall i :: 0 <= i < |val| ==> !IsDigit(val[i])) ==> r == 0.0
  {
    var t := RemoveChar(val, '%');
    var i := FirstDigit(t);
    assert i < |t| ==> t[i] in val;
    if i == |t| then 0.0 else NumberAt(t, i)
  }

  /** The value of `\d+\.?\d*` matched greedily at position `i`. */
  function NumberAt(t: string, i: nat): (r: real)
    requires i < |t|
    ensures r >= 0.0
  {
    var n := DigitRun(t, i);
    DigitsValue(t[i..i + n]) as real + PointFraction(t, i + n)
  }

  /** The value of `\.?\d*` at position `j`: a point and the digits after it, else nothing. */
  function PointFraction(t: string, j: nat): (r: real)
    requires j <= |t|
    ensures r >= 0.0
  {
    if j < |t| && t[j] == '.' then FractionValue(t[j + 1..j + 1 + DigitRun(t, j + 1)]) else 0.0
  }

  /** On a formatted decimal the highlighter reads the same value the parser does. */
  lemma ExtractFormatted(w: nat, f: string)
    requires AllDigits(f)
    ensures ExtractValue(FormatDecimal(w, f)) == w as real + FractionValue(f)
  {
    var d := NatToString(w);
    var s := FormatDecimal(w, f);
    FormattedPieces(w, f);
    ExtractPointed(s, d, f);
    DigitsValueOfNatToString(w);
  }

  /** A formatted decimal is the integer digits, a point, and the fraction digits, each run maximal. */
  lemma FormattedPieces(w: nat, f: string)
    requires AllDigits(f)
    ensures var d, s := NatToString(w), FormatDecimal(w, f);
      && |d| < |s| && '%' !in s && IsDigit(s[0]) && s[|d|] == '.'
      && DigitRun(s, 0) == |d| && DigitRun(s, |d| + 1) == |f|
      && s[0..|d|] == d && s[|d| + 1..|d| + 1 + |f|] == f
  {
    var d := NatToString(w);
    var s := FormatDecimal(w, f);
    FormattedShape(w, f);
    DigitRunPrefix(d, "." + f);
    DigitRunSuffix(s, |d| + 1);
    assert |s| == |d| + 1 + |f|;
  }

  /** `ExtractValue` of digits `d`, a point and digits `f`, each run maximal. */
  lemma {:induction false} ExtractPointed(t: string, d: string, f: string)
    requires AllDigits(f) && '%' !in t && |d| < |t| && IsDigit(t[0]) && t[|d|] == '.'
    requires DigitRun(t, 0) == |d| && DigitRun(t, |d| + 1) == |f|
    requires t[0..|d|] == d && t[|d| + 1..|d| + 1 + |f|] == f
    ensures ExtractValue(t) == DigitsValue(d) as real + FractionValue(f)
  {
    ExtractAtStart(t);
    NumberAtPointed(t, |d|, |f|);
  }

  /** Without `%` and starting with a digit, the value is the number at the start. */
  lemma ExtractAtStart(t: string)
    requires '%' !in t && |t| > 0 && IsDigit(t[0])
    ensures ExtractValue(t) == NumberAt(t, 0)
  {
    assert RemoveChar(t, '%') == t;
    assert FirstDigit(t) == 0;
  }

  lemma NumberAtPointed(t: string, n: nat, m: nat)
    requires n < |t| && DigitRun(t, 0) == n && t[n] == '.' && DigitRun(t, n + 1) == m
    ensures NumberAt(t, 0) == DigitsValue(t[0..n]) as real + FractionValue(t[n + 1..n + 1 + m])
  {
    NumberAtWhole(t, n);
    PointFractionAt(t, n, m);
  }

  lemma NumberAtWhole(t: string, n: nat)
    requires n < |t| && DigitRun(t, 0) == n
    ensures NumberAt(t, 0) == DigitsValue(t[0..n]) as real + PointFraction(t, n)
  {
  }

  lemma PointFractionAt(t: string, n: nat, m: nat)
    requires n < |t| && t[n] == '.' && DigitRun(t, n + 1) == m
    ensures PointFraction(t, n) == FractionValue(t[n + 1..n + 1 + m])
  {
    var frac := t[n + 1..n + 1 + m];
    assert t[n + 1..n + 1 + DigitRun(t, n + 1)] == frac;
  }

  lemma FormattedShape(w: nat, f: string)
    requires AllDigits(f)
    ensures var d, s := NatToString(w), FormatDecimal(w, f);
      && s == d + ("." + f) && '%' !in s && IsDigit(s[0])
      && s[0..|d|] == d && s[|d|] == '.' && s[|d| + 1..] == f
  {
    var d := NatToString(w);
    var s := FormatDecimal(w, f);
    assert s == d + ("." + f);
    forall i | 0 <= i < |s| ensures s[i] != '%' {
      if i < |d| {
        assert s[i] == d[i] && IsDigit(d[i]);
      } else if i > |d| {
        assert s[i] == f[i - |d| - 1] && IsDigit(f[i - |d| - 1]);
      }
    }
    assert s[0] == d[0] && IsDigit(d[0]);
    assert s[0..|d|] == d;
    assert s[|d| + 1..] == f;
  }

  lemma {:induction false} DigitRunPrefix(d: string, t: string)
    requires IsDigits(d) && |t| > 0 && !IsDigit(t[0])
    ensures DigitRun(d + t, 0) == |d|
  {
    var s := d + t;
    assert s[0..|d|] == d;
    DigitRunFrom(s, 0, |d|);
  }

  lemma {:induction false} DigitRunFrom(s: string, i: nat, e: nat)
    requires i <= e < |s| && AllDigits(s[i..e]) && !IsDigit(s[e])
    ensures DigitRun(s, i) == e - i
    decreases e - i
  {
    if i < e {
      assert IsDigit(s[i..e][0]);
      assert s[i + 1..e] == s[i..e][1..];
      DigitRunFrom(s, i + 1, e);
    }
  }

  lemma {:induction false} DigitRunSuffix(s: string, i: nat)
    requires i <= |s| && AllDigits(s[i..])
    ensures DigitRun(s, i) == |s| - i
    decreases |s| - i
  {
    if i < |s| {
      assert IsDigit(s[i..][0]);
      assert s[i + 1..] == s[i..][1..];
      DigitRunSuffix(s, i + 1);
    }
  }
}
