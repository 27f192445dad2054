/** The Python string operations the extraction engine relies on: `isspace`,
    `isdigit`, `upper`, `lower`, `strip`, `in`, `find`, `int()` of a digit
    string, `str()` of an int, and the whitespace collapse `re.sub(r'\s+', ' ', t)`. */
module Strings {

  import opened Seqs

  /** Python's `str.isspace()`, which is also what `\s` matches in a str pattern. */
  predicate IsSpace(c: char) {
    c == ' ' || ('\t' <= c <= '\r') || ('\U{1c}' <= c <= '\U{1f}') || c == '\U{85}' || c == '\U{a0}'
    || c == '\U{1680}' || ('\U{2000}' <= c <= '\U{200a}') || c == '\U{2028}' || c == '\U{2029}'
    || c == '\U{202f}' || c == '\U{205f}' || c == '\U{3000}'
  }

  predicate NotSpace(c: char) {
    !IsSpace(c)
  }

  predicate IsDigit(c: char) {
    '0' <= c <= '9'
  }

  /** Python's `str.isdigit()` for ASCII text: non-empty and all digits. */
  predicate IsDigits(s: string) {
    |s| > 0 && forall i :: 0 <= i < |s| ==> IsDigit(s[i])
  }

  function UpperChar(c: char): char {
    if 'a' <= c <= 'z' then c - 'a' + 'A' else c
  }

  function LowerChar(c: char): char {
    if 'A' <= c <= 'Z' then c - 'A' + 'a' else c
  }

  /**
   * `s.upper()` on ASCII letters. Changing only ASCII letters keeps the length, so positions
   * found in the result index `s` too. Python's full Unicode upper-casing can lengthen a
   * string ('ß' becomes "SS"); this model does not capture that.
   */
  function Upper(s: string): string {
    seq(|s|, i requires 0 <= i < |s| => UpperChar(s[i]))
  }

  function Lower(s: string): string {
    seq(|s|, i requires 0 <= i < |s| => LowerChar(s[i]))
  }

  /** The number of whitespace characters `s` starts with. */
  function LeadingSpaces(s: string): (k: nat)
    ensures k <= |s|
    ensures forall i :: 0 <= i < k ==> IsSpace(s[i])
    ensures k == |s| || !IsSpace(s[k])
  {
    if s == [] || !IsSpace(s[0]) then 0
    else
      var k := LeadingSpaces(s[1..]);
      assert forall i :: 1 <= i < 1 + k ==> s[i] == s[1..][i - 1];
      1 + k
  }

  /** The position where the whitespace `s` ends with begins. */
  function TrailingStart(s: string): (k: nat)
    ensures k <= |s|
    ensures forall i :: k <= i < |s| ==> IsSpace(s[i])
    ensures k == 0 || !IsSpace(s[k - 1])
  {
    if s == [] || !IsSpace(s[|s| - 1]) then |s|
    else TrailingStart(s[..|s| - 1])
  }

  /** `s.lstrip()`: the suffix of `s` after its leading whitespace. */
  function StripLeft(s: string): (r: string)
    ensures |r| <= |s| && r == s[|s| - |r|..]
    ensures forall i :: 0 <= i < |s| - |r| ==> IsSpace(s[i])
    ensures r == [] || !IsSpace(r[0])
  {
    s[LeadingSpaces(s)..]
  }

  /** `s.rstrip()`: the prefix of `s` before its trailing whitespace. */
  function StripRight(s: string): (r: string)
    ensures |r| <= |s| && r == s[..|r|]
    ensures forall i :: |r| <= i < |s| ==> IsSpace(s[i])
    ensures r == [] || !IsSpace(r[|r| - 1])
  {
    s[..TrailingStart(s)]
  }

  /** `s.strip()`: `s` without its leading and trailing whitespace. */
  function Strip(s: string): (r: string)
    ensures |r| <= |s|
    ensures r == [] || (!IsSpace(r[0]) && !IsSpace(r[|r| - 1]))
  {
    var l := StripLeft(s);
    var r := StripRight(l);
    assert r != [] ==> r[0] == l[0];
    r
  }

  /** What `Strip` keeps is a slice of `s`, and what it cuts off on either side is whitespace. */
  lemma StripIsSlice(s: string)
    ensures exists a, b :: (0 <= a <= b <= |s| && Strip(s) == s[a..b]
                              && (forall i :: 0 <= i < a ==> IsSpace(s[i]))
                              && (forall i :: b <= i < |s| ==> IsSpace(s[i])))
  {
    var l := StripLeft(s);
    var r := StripRight(l);
    var a := |s| - |l|;
    var b := a + |r|;
    assert r == s[a..b];
    forall i | b <= i < |s| ensures IsSpace(s[i]) {
      assert s[i] == l[i - a];
    }
  }

  /** A string that starts and ends with non-whitespace is its own strip. */
  lemma StripOfStripped(s: string)
    requires s == [] || (!IsSpace(s[0]) && !IsSpace(s[|s| - 1]))
    ensures Strip(s) == s
  {
  }

  /** `p` occurs in `s` at position `i`. */
  predicate OccursAt(s: string, p: string, i: nat) {
    i + |p| <= |s| && s[i..i + |p|] == p
  }

  /** Python's `p in s`. */
  predicate Contains(s: string, p: string) {
    exists i: nat | i <= |s| :: OccursAt(s, p, i)
  }

  /** An occurrence in the tail of `s` is an occurrence in `s`. */
  lemma ContainsInTail(s: string, p: string)
    requires s != []
    ensures Contains(s[1..], p) ==> Contains(s, p)
  {
    if Contains(s[1..], p) {
      var i: nat :| i <= |s[1..]| && OccursAt(s[1..], p, i);
      assert s[i + 1..i + 1 + |p|] == s[1..][i..i + |p|];
      assert OccursAt(s, p, i + 1);
    }
  }

  /** Lower-casing keeps every occurrence, lower-cased. */
  lemma LowerContains(s: string, p: string)
    ensures Contains(s, p) ==> Contains(Lower(s), Lower(p))
  {
    if Contains(s, p) {
      var i: nat :| i <= |s| && OccursAt(s, p, i);
      assert forall j :: 0 <= j < |p| ==> p[j] == s[i + j];
      assert Lower(s)[i..i + |p|] == Lower(p);
      assert OccursAt(Lower(s), Lower(p), i);
    }
  }

  /** Python's `s.find(p, from)`: the least position at or after `from` where `p` occurs, or -1. */
  function FindFrom(s: string, p: string, from: nat): (r: int)
    ensures r == -1 || (from <= r && OccursAt(s, p, r))
    ensures forall i: nat :: from <= i && (r == -1 || i < r) ==> !OccursAt(s, p, i)
    decreases |s| - from
  {
    if from + |p| > |s| then -1
    else if s[from..from + |p|] == p then from
    else FindFrom(s, p, from + 1)
  }

  /** `s.find(p)` succeeds exactly when `p in s`. */
  lemma FindIffContains(s: string, p: string)
    ensures FindFrom(s, p, 0) >= 0 <==> Contains(s, p)
  {
  }

  /** An occurrence can be shown character by character. */
  lemma OccursAtByChars(s: string, p: string, i: nat)
    requires i + |p| <= |s|
    requires forall j :: 0 <= j < |p| ==> s[i + j] == p[j]
    ensures OccursAt(s, p, i)
  {
    assert s[i..i + |p|] == p;
  }

  /** `p` is absent from `s` when one of its characters is. */
  lemma NotContainsByChar(s: string, p: string, j: nat)
    requires j < |p| && p[j] !in s
    ensures !Contains(s, p)
  {
    forall i: nat | i <= |s| ensures !OccursAt(s, p, i) {
      if i + |p| <= |s| {
        assert s[i..i + |p|][j] == s[i + j];
      }
    }
  }

  /** `p` is absent from `s` when its first character is never followed by its second. */
  lemma NotContainsByPair(s: string, p: string)
    requires |p| >= 2
    requires forall i :: 0 <= i < |s| - 1 && s[i] == p[0] ==> s[i + 1] != p[1]
    ensures !Contains(s, p)
  {
    forall i: nat | i <= |s| ensures !OccursAt(s, p, i) {
      if i + |p| <= |s| {
        assert s[i..i + |p|][0] == s[i] && s[i..i + |p|][1] == s[i + 1];
      }
    }
  }

  /** `int(s)` of a digit string (leading zeros allowed). */
  function DigitsValue(s: string): nat
    requires forall i :: 0 <= i < |s| ==> IsDigit(s[i])
  {
    if s == [] then 0
    else
      assert IsDigit(s[|s| - 1]);
      DigitsValue(s[..|s| - 1]) * 10 + (s[|s| - 1] as int - '0' as int) as nat
  }

  function DigitChar(d: nat): char
    requires d < 10
  {
    '0' + d as char
  }

  /** `str(n)` for a non-negative int. */
  function NatToString(n: nat): (r: string)
    ensures IsDigits(r)
    ensures |r| > 1 ==> r[0] != '0'
    decreases n
  {
    if n < 10 then [DigitChar(n)]
    else NatToString(n / 10) + [DigitChar(n % 10)]
  }

  /** `int(str(n)) == n`. */
  lemma {:induction false} DigitsValueOfNatToString(n: nat)
    ensures DigitsValue(NatToString(n)) == n
    decreases n
  {
    if n >= 10 {
      var s := NatToString(n);
      assert s[..|s| - 1] == NatToString(n / 10);
      DigitsValueOfNatToString(n / 10);
    }
  }

  /** `str` is injective on the naturals. */
  lemma NatToStringInjective(m: nat, n: nat)
    requires NatToString(m) == NatToString(n)
    ensures m == n
  {
    DigitsValueOfNatToString(m);
    DigitsValueOfNatToString(n);
  }

  /** The text after the last `_`, Python's `s.split('_')[-1]`. */
  function LastSegment(s: string): (r: string)
    ensures '_' !in r
    ensures exists a :: 0 <= a <= |s| && r == s[a..] && (a == 0 || s[a - 1] == '_')
  {
    if s == [] then
      assert s[0..] == [];
      []
    else if s[|s| - 1] == '_' then
      assert s[|s|..] == [];
      []
    else
      var r := LastSegment(s[..|s| - 1]);
      var a :| 0 <= a <= |s| - 1 && r == s[..|s| - 1][a..] && (a == 0 || s[..|s| - 1][a - 1] == '_');
      assert r == s[a..|s| - 1];
      assert a == 0 || s[a - 1] == '_';
      assert r + [s[|s| - 1]] == s[a..];
      r + [s[|s| - 1]]
  }

  /** Splitting `prefix + "_" + tail` at the last `_` gives back `tail` when `tail` has no `_`. */
  lemma {:induction false} LastSegmentAfterUnderscore(prefix: string, tail: string)
    requires '_' !in tail
    ensures LastSegment(prefix + "_" + tail) == tail
    decreases |tail|
  {
    var s := prefix + "_" + tail;
    if tail != [] {
      assert s[..|s| - 1] == prefix + "_" + tail[..|tail| - 1];
      LastSegmentAfterUnderscore(prefix, tail[..|tail| - 1]);
      assert tail[..|tail| - 1] + [tail[|tail| - 1]] == tail;
    }
  }

  /** `s` with every maximal run of whitespace replaced by one space: `re.sub(r'\s+', ' ', s)`. */
  function Collapse(s: string): (r: string)
    ensures forall i :: 0 <= i < |r| && IsSpace(r[i]) ==> r[i] == ' '
    ensures forall i :: 0 <= i < |r| - 1 ==> !(IsSpace(r[i]) && IsSpace(r[i + 1]))
    ensures r == [] <==> s == []
    ensures r != [] ==> (IsSpace(r[0]) <==> IsSpace(s[0]))
    decreases |s|
  {
    if s == [] then []
    else if IsSpace(s[0]) then
      var t := StripLeft(s);
      var c := Collapse(t);
      assert ([' '] + c)[1..] == c;
      [' '] + c
    else
      var c := Collapse(s[1..]);
      assert ([s[0]] + c)[1..] == c;
      [s[0]] + c
  }

  /** Every character other than whitespace is kept, in order and as often as it occurs. */
  lemma {:induction false} CollapseKeepsText(s: string)
    ensures Filter(Collapse(s), NotSpace) == Filter(s, NotSpace)
    decreases |s|
  {
    if s != [] {
      var r := Collapse(s);
      if IsSpace(s[0]) {
        var t := StripLeft(s);
        assert r == [' '] + Collapse(t);
        assert r[1..] == Collapse(t);
        CollapseKeepsText(t);
        FilterSkipsRejected(s, NotSpace, |s| - |t|);
        assert s[|s| - |t|..] == t;
      } else {
        assert r == [s[0]] + Collapse(s[1..]);
        assert r[1..] == Collapse(s[1..]);
        CollapseKeepsText(s[1..]);
      }
    }
  }

  /** The result ends with whitespace exactly when the input does. */
  lemma {:induction false} CollapseTrailing(s: string)
    requires s != []
    ensures IsSpace(Collapse(s)[|Collapse(s)| - 1]) <==> IsSpace(s[|s| - 1])
    decreases |s|
  {
    var r := Collapse(s);
    if IsSpace(s[0]) {
      var t := StripLeft(s);
      assert r == [' '] + Collapse(t);
      if t == [] {
        assert IsSpace(s[|s| - 1]);
      } else {
        assert t[|t| - 1] == s[|s| - 1];
        CollapseTrailing(t);
      }
    } else if |s| == 1 {
      assert r == [s[0]];
    } else {
      assert r == [s[0]] + Collapse(s[1..]);
      assert s[1..][|s| - 2] == s[|s| - 1];
      CollapseTrailing(s[1..]);
    }
  }

  /** Text without whitespace is left as it is. */
  lemma {:induction false} CollapseNoSpace(s: string)
    requires forall i :: 0 <= i < |s| ==> !IsSpace(s[i])
    ensures Collapse(s) == s
    decreases |s|
  {
    if s != [] {
      CollapseNoSpace(s[1..]);
    }
  }

  /** A leading whitespace run becomes one space. */
  lemma CollapseLeading(w: string, b: string)
    requires w != [] && forall i :: 0 <= i < |w| ==> IsSpace(w[i])
    requires b == [] || !IsSpace(b[0])
    ensures Collapse(w + b) == " " + Collapse(b)
  {
    StripLeftOfSpaces(w, b);
    assert (w + b)[0] == w[0];
  }

  /** A whitespace run between two pieces of text becomes one space, and each side
      collapses on its own. */
  lemma CollapseJoin(a: string, w: string, b: string)
    requires a != [] && !IsSpace(a[|a| - 1])
    requires w != [] && forall i :: 0 <= i < |w| ==> IsSpace(w[i])
    requires b == [] || !IsSpace(b[0])
    ensures Collapse(a + w + b) == Collapse(a) + " " + Collapse(b)
  {
    StripLeftOfSpaces(w, b);
    assert (w + b)[0] == w[0];
    CollapseBeforeSpace(a, w + b);
    assert a + (w + b) == a + w + b;
  }

  /** `a` followed by text that starts with whitespace. */
  lemma {:induction false} CollapseBeforeSpace(a: string, v: string)
    requires a != [] && !IsSpace(a[|a| - 1])
    requires v != [] && IsSpace(v[0])
    ensures Collapse(a + v) == Collapse(a) + " " + Collapse(StripLeft(v))
    decreases |a|, 1
  {
    if IsSpace(a[0]) {
      CollapseBeforeSpaceSpaced(a, v);
    } else if |a| == 1 {
      CollapseBeforeSpaceChar(a, v);
    } else {
      CollapseBeforeSpaceWord(a, v);
    }
  }

  lemma {:induction false} CollapseBeforeSpaceSpaced(a: string, v: string)
    requires a != [] && IsSpace(a[0]) && !IsSpace(a[|a| - 1])
    requires v != [] && IsSpace(v[0])
    ensures Collapse(a + v) == Collapse(a) + " " + Collapse(StripLeft(v))
    decreases |a|, 0
  {
    var t := StripLeft(a);
    assert t != [] && t[|t| - 1] == a[|a| - 1];
    StripLeftAppend(a, v);
    assert (a + v)[0] == a[0];
    assert Collapse(a + v) == [' '] + Collapse(t + v);
    assert Collapse(a) == [' '] + Collapse(t);
    CollapseBeforeSpace(t, v);
    AppendAssoc([' '], Collapse(t), " ", Collapse(StripLeft(v)));
  }

  lemma CollapseBeforeSpaceChar(a: string, v: string)
    requires |a| == 1 && !IsSpace(a[0])
    requires v != [] && IsSpace(v[0])
    ensures Collapse(a + v) == Collapse(a) + " " + Collapse(StripLeft(v))
  {
    assert a == [a[0]];
    CollapseSingle(a[0]);
    CollapseCharThenSpace(a[0], v);
  }

  lemma CollapseSingle(x: char)
    requires !IsSpace(x)
    ensures Collapse([x]) == [x]
  {
    assert [x][1..] == [];
  }

  lemma CollapseCharThenSpace(x: char, v: string)
    requires !IsSpace(x)
    requires v != [] && IsSpace(v[0])
    ensures Collapse([x] + v) == [x] + " " + Collapse(StripLeft(v))
  {
    CollapseWordStart([x] + v);
    assert ([x] + v)[1..] == v;
    CollapseSpaceStart(v);
  }

  lemma CollapseWordStart(s: string)
    requires s != [] && !IsSpace(s[0])
    ensures Collapse(s) == [s[0]] + Collapse(s[1..])
  {
  }

  lemma CollapseSpaceStart(s: string)
    requires s != [] && IsSpace(s[0])
    ensures Collapse(s) == [' '] + Collapse(StripLeft(s))
  {
  }

  lemma {:induction false} CollapseBeforeSpaceWord(a: string, v: string)
    requires |a| > 1 && !IsSpace(a[0]) && !IsSpace(a[|a| - 1])
    requires v != [] && IsSpace(v[0])
    ensures Collapse(a + v) == Collapse(a) + " " + Collapse(StripLeft(v))
    decreases |a|, 0
  {
    assert (a + v)[0] == a[0] && (a + v)[1..] == a[1..] + v;
    assert Collapse(a + v) == [a[0]] + Collapse(a[1..] + v);
    assert Collapse(a) == [a[0]] + Collapse(a[1..]);
    CollapseBeforeSpace(a[1..], v);
    AppendAssoc([a[0]], Collapse(a[1..]), " ", Collapse(StripLeft(v)));
  }

  lemma LeadingSpacesAt(s: string, k: nat)
    requires k <= |s| && forall i :: 0 <= i < k ==> IsSpace(s[i])
    requires k == |s| || !IsSpace(s[k])
    ensures LeadingSpaces(s) == k
  {
  }

  lemma StripLeftOfSpaces(w: string, b: string)
    requires forall i :: 0 <= i < |w| ==> IsSpace(w[i])
    requires b == [] || !IsSpace(b[0])
    ensures StripLeft(w + b) == b
  {
    LeadingSpacesAt(w + b, |w|);
    assert (w + b)[|w|..] == b;
  }

  lemma StripLeftAppend(a: string, t: string)
    requires a != [] && !IsSpace(a[|a| - 1])
    ensures StripLeft(a + t) == StripLeft(a) + t
  {
    var k := LeadingSpaces(a);
    assert k < |a|;
    LeadingSpacesAt(a + t, k);
    assert (a + t)[k..] == a[k..] + t;
  }

  /** Collapsing twice changes nothing more. */
  lemma {:induction false} CollapseIdempotent(s: string)
    ensures Collapse(Collapse(s)) == Collapse(s)
    decreases |s|
  {
    if s != [] {
      if IsSpace(s[0]) {
        var t := StripLeft(s);
        var c := Collapse(t);
        CollapseIdempotent(t);
        assert Collapse(s) == [' '] + c;
        assert StripLeft([' '] + c) == c;
      } else {
        CollapseIdempotent(s[1..]);
        assert Collapse(s)[1..] == Collapse(s[1..]);
      }
    }
  }
}
