/** Name strings: the component text of a report's file name, the per-file sheet
    prefix `parse_filename_for_sheet_name`, the table abbreviation
    `get_table_abbreviation`, the per-file sheet names `H_{I|V}{D|F}_{95|99}_{O|E}`
    and the collision-free allocation of bulk sheet names. */
module Naming {
  import opened Wrappers
  import opened Strings
  import opened Numbers
  import opened Seqs
  import opened Config

  /** Python's `s[:n]` for `n >= 0`. */
  function Prefix(s: string, n: nat): (r: string)
    ensures |r| <= n && |r| <= |s| && r == s[..|r|]
    ensures |s| <= n ==> r == s
    ensures |s| > n ==> |r| == n
  {
    if |s| <= n then s else s[..n]
  }

  // ---------------------------------------------------------------------
  // Component text: the first match of `\((.*?)\)`

  /** The lazy `.*?\)` from position `k`: the first `)` reached before any newline. */
  function CloseFrom(s: string, k: nat): (e: Option<nat>)
    requires k <= |s|
    ensures e.Some? ==> k <= e.value < |s| && s[e.value] == ')'
    ensures e.Some? ==> forall t :: k <= t < e.value ==> s[t] != ')' && s[t] != '\n'
    ensures e.None? ==> forall t :: k <= t < |s| && s[t] == ')' ==> exists u :: k <= u < t && s[u] == '\n'
    decreases |s| - k
  {
    if k == |s| then None
    else if s[k] == ')' then Some(k)
    else if s[k] == '\n' then None
    else CloseFrom(s, k + 1)
  }

  /** `\((.*?)\)` can match at `q`: an `(` closed by a `)` on the same line. */
  predicate OpensAt(s: string, q: nat) {
    q < |s| && s[q] == '(' && CloseFrom(s, q + 1).Some?
  }

  /** The group of the leftmost match of `\((.*?)\)` starting at or after `i`: the text
      between the first `(` that can open a match and the first `)` after it. */
  function GroupFrom(s: string, i: nat): (g: Option<string>)
    requires i <= |s|
    ensures g.Some? ==> ')' !in g.value && '\n' !in g.value
    decreases |s| - i
  {
    if i == |s| then None
    else if s[i] == '(' && CloseFrom(s, i + 1).Some? then
      var e := CloseFrom(s, i + 1).value;
      assert forall t :: i + 1 <= t < e ==> s[t] != ')' && s[t] != '\n';
      Some(s[i + 1..e])
    else GroupFrom(s, i + 1)
  }

  /** The leftmost position from `i` where `\((.*?)\)` can match, or `|s|` when there is none. */
  function FirstOpen(s: string, i: nat): (p: nat)
    requires i <= |s|
    ensures i <= p <= |s| && (p < |s| ==> OpensAt(s, p))
    ensures forall q :: i <= q < p ==> !OpensAt(s, q)
    decreases |s| - i
  {
    if i == |s| || OpensAt(s, i) then i else FirstOpen(s, i + 1)
  }

  /** The group found is that of the leftmost position where a match can start, and there is
      none when no position can start one. */
  lemma {:induction false} GroupFromLeftmost(s: string, i: nat)
    requires i <= |s|
    ensures var p := FirstOpen(s, i);
      GroupFrom(s, i) == if p < |s| then Some(s[p + 1..CloseFrom(s, p + 1).value]) else None
    decreases |s| - i
  {
    if i == |s| {
      assert GroupFrom(s, i) == None;
    } else if OpensAt(s, i) {
      assert FirstOpen(s, i) == i;
    } else {
      assert FirstOpen(s, i) == FirstOpen(s, i + 1);
      assert GroupFrom(s, i) == GroupFrom(s, i + 1);
      GroupFromLeftmost(s, i + 1);
    }
  }

  /** `component_info[0] if component_info else "Not found"`: the group of the leftmost
      match, or "Not found" when no `(` is closed on its line. */
  function ComponentText(name: string): string {
    GroupFrom(name, 0).GetOr("Not found")
  }

  /** The component is the group of the leftmost match, and "Not found" when no `(` of the
      name is closed on its line. */
  lemma ComponentTextLeftmost(name: string)
    ensures var p := FirstOpen(name, 0);
      ComponentText(name) == if p < |name| then name[p + 1..CloseFrom(name, p + 1).value] else "Not found"
  {
    GroupFromLeftmost(name, 0);
  }

  /** A name without `(` has no component. */
  lemma NoParenthesisNotFound(name: string)
    requires '(' !in name
    ensures ComponentText(name) == "Not found"
  {
    ComponentTextLeftmost(name);
  }

  lemma {:induction false} CloseAt(s: string, k: nat, e: nat)
    requires k <= e < |s| && s[e] == ')'
    requires forall t :: k <= t < e ==> s[t] != ')' && s[t] != '\n'
    ensures CloseFrom(s, k) == Some(e)
    decreases e - k
  {
    if k < e {
      CloseAt(s, k + 1, e);
    }
  }

  lemma {:induction false} GroupAfterPlainPrefix(s: string, i: nat, p: nat)
    requires i <= p < |s| && s[p] == '(' && CloseFrom(s, p + 1).Some?
    requires forall t :: i <= t < p ==> s[t] != '('
    ensures GroupFrom(s, i) == Some(s[p + 1..CloseFrom(s, p + 1).value])
    decreases p - i
  {
    if i < p {
      GroupAfterPlainPrefix(s, i + 1, p);
    }
  }

  /** The component is the text between the first `(` and the `)` that closes it on the same line. */
  lemma {:induction false} ComponentOfName(a: string, c: string, b: string)
    requires '(' !in a && ')' !in c && '\n' !in c
    ensures ComponentText(a + "(" + c + ")" + b) == c
  {
    var s := a + "(" + c + ")" + b;
    PiecesOfName(a, c, b);
    GroupAfterPlainPrefix(s, 0, |a|);
  }

  /** In `a + "(" + c + ")" + b` the `(` after `a` is the first, and it is closed right after `c`. */
  lemma {:induction false} PiecesOfName(a: string, c: string, b: string)
    requires '(' !in a && ')' !in c && '\n' !in c
    ensures var s, p := a + "(" + c + ")" + b, |a|;
      && p < |s| && s[p] == '(' && CloseFrom(s, p + 1) == Some(p + 1 + |c|)
      && (forall t :: 0 <= t < p ==> s[t] != '(')
      && s[p + 1..p + 1 + |c|] == c
  {
    var s := a + "(" + c + ")" + b;
    var p := |a|;
    assert s[p] == '(';
    forall t | p + 1 <= t < p + 1 + |c| ensures s[t] != ')' && s[t] != '\n' {
      assert s[t] == c[t - p - 1];
    }
    CloseAt(s, p + 1, p + 1 + |c|);
    forall t | 0 <= t < p ensures s[t] != '(' {
      assert s[t] == a[t];
    }
    assert s[p + 1..p + 1 + |c|] == c;
  }

  // ---------------------------------------------------------------------
  // parse_filename_for_sheet_name

  /** Position just after the whitespace run that starts at `i` (`\s*`). */
  function SkipSpaces(s: string, i: nat): (j: nat)
    requires i <= |s|
    ensures i <= j <= |s|
    ensures forall t :: i <= t < j ==> IsSpace(s[t])
    ensures j == |s| || !IsSpace(s[j])
    decreases |s| - i
  {
    if i < |s| && IsSpace(s[i]) then SkipSpaces(s, i + 1) else i
  }

  /** `DAY\s*(\d+)` matched at position `p`: the bounds of the digit group. Since
      neither `\s` nor `\d` can match what follows each greedy run, backtracking
      finds no other split, so the greedy runs are the match. */
  function DayNumberAt(u: string, p: nat): (r: Option<(nat, nat)>)
    ensures r.Some? ==> OccursAt(u, "DAY", p)
    ensures r.Some? ==> p + 3 <= r.value.0 < r.value.1 <= |u| && IsDigits(u[r.value.0..r.value.1])
    ensures OccursAt(u, "DAY", p) ==>
      var a := SkipSpaces(u, p + 3);
      && (r.Some? <==> a < |u| && IsDigit(u[a]))
      && (r.Some? ==> r.value.0 == a && (r.value.1 == |u| || !IsDigit(u[r.value.1])))
  {
    if OccursAt(u, "DAY", p) then
      var a := SkipSpaces(u, p + 3);
      var n := DigitRun(u, a);
      if n > 0 then
        assert forall t :: a <= t < a + n ==> IsDigit(u[t]) by {
          forall t | a <= t < a + n ensures IsDigit(u[t]) {
            assert u[a..a + n][t - a] == u[t];
          }
        }
        Some((a, a + n))
      else None
    else None
  }

  /** The two day patterns of the sheet prefix. */
  datatype DayPattern = DayAndPeriod | DayOnly

  /** A match of a day pattern: the day digits (group 1) and the period letter. */
  datatype DayMatch = DayMatch(digits: string, period: char)

  /** The match can name a sheet: digits, and `D` or `N`. */
  predicate WellFormed(d: DayMatch) {
    IsDigits(d.digits) && (d.period == 'D' || d.period == 'N')
  }

  /** `\s*(DAY|NIGHT)` after the digits, ending at `c` once spaces are skipped: `D` for `DAY`, `N` for `NIGHT`. */
  function PeriodAt(u: string, c: nat): (r: Option<char>)
    ensures r.Some? ==> r.value == 'D' || r.value == 'N'
    ensures r == Some('D') <==> OccursAt(u, "DAY", c)
    ensures r == Some('N') <==> !OccursAt(u, "DAY", c) && OccursAt(u, "NIGHT", c)
  {
    if OccursAt(u, "DAY", c) then Some('D')
    else if OccursAt(u, "NIGHT", c) then Some('N')
    else None
  }

  /** The pattern matched at `p`: the day digits and `D` (for `DAY`, and always for
      the day-only pattern) or `N` (for `NIGHT`). */
  function MatchAt(pat: DayPattern, u: string, p: nat): (r: Option<DayMatch>)
    ensures r.Some? ==> OccursAt(u, "DAY", p) && WellFormed(r.value)
    ensures r.Some? ==> (
      && OccursAt(u, "DAY", p)
      && var a, n := SkipSpaces(u, p + 3), |r.value.digits|;
         a + n <= |u| && r.value.digits == u[a..a + n] && (a + n == |u| || !IsDigit(u[a + n])))
    ensures pat.DayOnly? ==> (r.Some? <==> DayNumberAt(u, p).Some?) && (r.Some? ==> r.value.period == 'D')
    ensures pat.DayAndPeriod? && r.Some? ==> (
      && OccursAt(u, "DAY", p)
      && var b := SkipSpaces(u, p + 3) + |r.value.digits|;
         b <= |u| && PeriodAt(u, SkipSpaces(u, b)) == Some(r.value.period))
    ensures (pat.DayAndPeriod? && DayNumberAt(u, p).Some?
             && PeriodAt(u, SkipSpaces(u, DayNumberAt(u, p).value.1)).Some?) ==> r.Some?
  {
    match DayNumberAt(u, p)
    case None => None
    case Some((a, b)) =>
      if pat.DayOnly? then Some(DayMatch(u[a..b], 'D'))
      else
        match PeriodAt(u, SkipSpaces(u, b))
        case None => None
        case Some(period) => Some(DayMatch(u[a..b], period))
  }

  /** The first position from `from` to `n` where `m` finds a match, and that match. */
  function FirstMatch(m: nat -> Option<DayMatch>, from: nat, n: nat): (r: Option<DayMatch>)
    ensures r.Some? ==> exists p :: from <= p <= n && m(p) == r && forall q :: from <= q < p ==> m(q).None?
    ensures r.None? ==> forall p :: from <= p <= n ==> m(p).None?
    decreases n + 1 - from
  {
    if from > n then None
    else if m(from).Some? then m(from)
    else FirstMatch(m, from + 1, n)
  }

  /** The day pattern tried at each position of `u`. */
  function Matcher(pat: DayPattern, u: string): nat -> Option<DayMatch> {
    (p: nat) => MatchAt(pat, u, p)
  }

  /** `re.search`: the match at the least position of `u`. */
  function Search(pat: DayPattern, u: string): Option<DayMatch> {
    FirstMatch(Matcher(pat, u), 0, |u|)
  }

  /** A match at `p` with none before it is the one `FirstMatch` finds. */
  lemma {:induction false} FirstMatchLeast(m: nat -> Option<DayMatch>, from: nat, n: nat, p: nat)
    requires from <= p <= n && m(p).Some?
    requires forall q :: from <= q < p ==> m(q).None?
    ensures FirstMatch(m, from, n) == m(p)
    decreases p - from
  {
    if from < p {
      FirstMatchSkip(m, from, n);
      FirstMatchLeast(m, from + 1, n, p);
    } else {
      FirstMatchHere(m, p, n);
    }
  }

  lemma FirstMatchHere(m: nat -> Option<DayMatch>, p: nat, n: nat)
    requires p <= n && m(p).Some?
    ensures FirstMatch(m, p, n) == m(p)
  {
  }

  lemma FirstMatchSkip(m: nat -> Option<DayMatch>, from: nat, n: nat)
    requires from < n && m(from).None?
    ensures FirstMatch(m, from, n) == FirstMatch(m, from + 1, n)
  {
  }

  /** `re.search` finds the match at the least position where the pattern matches, and
      nothing when it matches nowhere. */
  lemma SearchLeast(pat: DayPattern, u: string, p: nat)
    requires p <= |u| && MatchAt(pat, u, p).Some?
    requires forall q :: 0 <= q < p ==> MatchAt(pat, u, q).None?
    ensures Search(pat, u) == MatchAt(pat, u, p)
  {
    FirstMatchLeast(Matcher(pat, u), 0, |u|, p);
  }

  /** What `Search` finds is a match of the pattern at some position of `u`. */
  lemma SearchFound(pat: DayPattern, u: string)
    requires Search(pat, u).Some?
    ensures exists p :: 0 <= p <= |u| && MatchAt(pat, u, p) == Search(pat, u)
  {
  }

  /** What `Search` finds has a `DAY` at its start and can name a sheet. */
  lemma SearchShape(pat: DayPattern, u: string)
    requires Search(pat, u).Some?
    ensures WellFormed(Search(pat, u).value) && Contains(u, "DAY")
  {
    SearchFound(pat, u);
  }

  /** Python's `s.replace(p, '')`: occurrences removed left to right, without rescanning. */
  function RemoveAll(s: string, p: string): (r: string)
    requires |p| > 0
    ensures |r| <= |s|
    ensures forall x :: x in r ==> x in s
    ensures !Contains(s, p) ==> r == s
    decreases |s|
  {
    if s == [] then []
    else if OccursAt(s, p, 0) then RemoveAll(s[|p|..], p)
    else
      ContainsInTail(s, p);
      [s[0]] + RemoveAll(s[1..], p)
  }

  /** Removing ".pdf" from a stem followed by ".pdf" gives the stem back: no proper suffix
      of ".pdf" is also a prefix of it, so the appended copy is found whole. */
  lemma {:induction false} RemoveExtension(stem: string)
    requires !Contains(stem, ".pdf")
    ensures RemoveAll(stem + ".pdf", ".pdf") == stem
    decreases |stem|
  {
    var s := stem + ".pdf";
    if stem == [] {
      assert OccursAt(s, ".pdf", 0);
      assert s[4..] == [];
    } else {
      var k := |stem|;
      if k >= 4 {
        assert s[0..4] == stem[0..4];
        assert !OccursAt(stem, ".pdf", 0);
      } else {
        assert s[0..4][k] == s[k] == '.';
        assert ".pdf"[k] != '.';
      }
      assert !OccursAt(s, ".pdf", 0);
      assert s[1..] == stem[1..] + ".pdf";
      ContainsInTail(stem, ".pdf");
      RemoveExtension(stem[1..]);
      assert [stem[0]] + stem[1..] == stem;
    }
  }

  /** `\w` on ASCII: a letter, a digit or `_`. */
  predicate IsWordChar(c: char) {
    'a' <= c <= 'z' || 'A' <= c <= 'Z' || '0' <= c <= '9' || c == '_'
  }

  /** `re.sub(r'[^\w]', '', filename.replace('.pdf', ''))[:4]`. */
  function FallbackPrefix(filename: string): (r: string)
    ensures |r| <= 4 && forall i :: 0 <= i < |r| ==> IsWordChar(r[i])
    ensures var w := Filter(RemoveAll(filename, ".pdf"), IsWordChar);
      |r| == (if |w| < 4 then |w| else 4) && r == w[..|r|]
  {
    var w := Filter(RemoveAll(filename, ".pdf"), IsWordChar);
    var r := Prefix(w, 4);
    assert forall i :: 0 <= i < |r| ==> r[i] in w;
    r
  }

  /** `f"{day_num}{period}"`. */
  function DayPrefix(d: DayMatch): string {
    d.digits + [d.period]
  }

  /** Day digits followed by `D` or `N`. */
  predicate DayShaped(r: string) {
    |r| >= 2 && IsDigits(r[..|r| - 1]) && (r[|r| - 1] == 'D' || r[|r| - 1] == 'N')
  }

  /** `parse_filename_for_sheet_name`: "7Days" for a name with a `7` and a `DAY`, else the
      day digits of the name with `D` or `N`, else at most four word characters of it;
      a name without `DAY` always gets the fallback. */
  function SheetPrefix(filename: string): (r: string)
    ensures Contains(Upper(filename), "7") && Contains(Upper(filename), "DAY") ==> r == "7Days"
    ensures r == "7Days" || DayShaped(r) || (|r| <= 4 && forall i :: 0 <= i < |r| ==> IsWordChar(r[i]))
    ensures !Contains(Upper(filename), "DAY") ==> r == FallbackPrefix(filename)
  {
    var u := Upper(filename);
    if Contains(u, "7") && Contains(u, "DAY") then "7Days"
    else match Search(DayAndPeriod, u)
      case Some(d) =>
        SearchShape(DayAndPeriod, u);
        assert DayPrefix(d)[..|DayPrefix(d)| - 1] == d.digits;
        DayPrefix(d)
      case None =>
        match Search(DayOnly, u)
        case Some(d) =>
          SearchShape(DayOnly, u);
          assert DayPrefix(d)[..|DayPrefix(d)| - 1] == d.digits;
          DayPrefix(d)
        case None => FallbackPrefix(filename)
  }

  /** Without a `7` and a `DAY` the prefix is the first day match, with its period,
      else the first day number with `D`, else the fallback. */
  lemma SheetPrefixCases(filename: string)
    requires !(Contains(Upper(filename), "7") && Contains(Upper(filename), "DAY"))
    ensures var r, u := SheetPrefix(filename), Upper(filename);
      || (Search(DayAndPeriod, u).Some? && WellFormed(Search(DayAndPeriod, u).value) && r == DayPrefix(Search(DayAndPeriod, u).value))
      || (Search(DayAndPeriod, u).None? && Search(DayOnly, u).Some?
          && WellFormed(Search(DayOnly, u).value) && r == DayPrefix(Search(DayOnly, u).value))
      || (Search(DayAndPeriod, u).None? && Search(DayOnly, u).None? && r == FallbackPrefix(filename))
  {
    var u := Upper(filename);
    if Search(DayAndPeriod, u).Some? {
      SearchShape(DayAndPeriod, u);
    } else if Search(DayOnly, u).Some? {
      SearchShape(DayOnly, u);
    }
  }

  /** Without a `7` and a `DAY`, the prefix is the day match of `DAY…(DAY|NIGHT)` at the
      least position where it matches. */
  lemma SheetPrefixDayAndPeriod(filename: string, p: nat)
    requires !(Contains(Upper(filename), "7") && Contains(Upper(filename), "DAY"))
    requires p <= |Upper(filename)| && MatchAt(DayAndPeriod, Upper(filename), p).Some?
    requires forall q :: 0 <= q < p ==> MatchAt(DayAndPeriod, Upper(filename), q).None?
    ensures SheetPrefix(filename) == DayPrefix(MatchAt(DayAndPeriod, Upper(filename), p).value)
  {
    SearchLeast(DayAndPeriod, Upper(filename), p);
  }

  /** Where `DAY…(DAY|NIGHT)` matches nowhere, the prefix is the day number found at the
      least position where `DAY` and digits match, with `D`. */
  lemma SheetPrefixDayOnly(filename: string, p: nat)
    requires !(Contains(Upper(filename), "7") && Contains(Upper(filename), "DAY"))
    requires forall q :: 0 <= q <= |Upper(filename)| ==> MatchAt(DayAndPeriod, Upper(filename), q).None?
    requires p <= |Upper(filename)| && MatchAt(DayOnly, Upper(filename), p).Some?
    requires forall q :: 0 <= q < p ==> MatchAt(DayOnly, Upper(filename), q).None?
    ensures SheetPrefix(filename) == DayPrefix(MatchAt(DayOnly, Upper(filename), p).value)
  {
    var u := Upper(filename);
    SearchLeast(DayOnly, u, p);
    assert Search(DayAndPeriod, u).None? by {
      if Search(DayAndPeriod, u).Some? {
        SearchFound(DayAndPeriod, u);
      }
    }
  }

  /** Where neither day pattern matches, the prefix is the fallback. */
  lemma SheetPrefixNoDay(filename: string)
    requires !(Contains(Upper(filename), "7") && Contains(Upper(filename), "DAY"))
    requires forall q :: 0 <= q <= |Upper(filename)| ==> MatchAt(DayAndPeriod, Upper(filename), q).None?
    requires forall q :: 0 <= q <= |Upper(filename)| ==> MatchAt(DayOnly, Upper(filename), q).None?
    ensures SheetPrefix(filename) == FallbackPrefix(filename)
  {
    var u := Upper(filename);
    assert Search(DayAndPeriod, u).None? by {
      if Search(DayAndPeriod, u).Some? {
        SearchFound(DayAndPeriod, u);
      }
    }
    assert Search(DayOnly, u).None? by {
      if Search(DayOnly, u).Some? {
        SearchFound(DayOnly, u);
      }
    }
  }

  /** The prefix "7Days" is given exactly to names with a `7` and a `DAY`, wherever they are. */
  lemma SevenDays(filename: string)
    ensures SheetPrefix(filename) == "7Days" <==> Contains(Upper(filename), "7") && Contains(Upper(filename), "DAY")
  {
    if !(Contains(Upper(filename), "7") && Contains(Upper(filename), "DAY")) {
      SheetPrefixCases(filename);
      var r := SheetPrefix(filename);
      if r != FallbackPrefix(filename) {
        assert r[|r| - 1] == 'D' || r[|r| - 1] == 'N';
      }
    }
  }

  /** A name without `DAY` (in any case) gets the first four word characters of its stem. */
  lemma NoDayFallback(filename: string)
    requires !Contains(Upper(filename), "DAY")
    ensures SheetPrefix(filename) == FallbackPrefix(filename)
  {
    var u := Upper(filename);
    assert Search(DayAndPeriod, u).None? by {
      if Search(DayAndPeriod, u).Some? {
        SearchShape(DayAndPeriod, u);
      }
    }
    assert Search(DayOnly, u).None? by {
      if Search(DayOnly, u).Some? {
        SearchShape(DayOnly, u);
      }
    }
  }

  /** The day-and-period pattern matches only where the day-only pattern does. */
  lemma PeriodNeedsDay(u: string, p: nat)
    requires MatchAt(DayAndPeriod, u, p).Some?
    ensures MatchAt(DayOnly, u, p).Some?
  {
  }

  // ---------------------------------------------------------------------
  // get_table_abbreviation

  /** `get_table_abbreviation`: I/V/X for current/voltage/neither, then F/D/X for full time range/daily/neither. */
  function TableAbbreviation(name: string): (r: string)
    ensures |r| == 2
    ensures var u := Upper(name);
      && (r[0] == 'I' <==> Contains(u, "CURRENT"))
      && (r[0] == 'V' <==> !Contains(u, "CURRENT") && Contains(u, "VOLTAGE"))
      && (r[1] == 'F' <==> Contains(u, "FULL TIME RANGE"))
      && (r[1] == 'D' <==> !Contains(u, "FULL TIME RANGE") && Contains(u, "DAILY"))
  {
    var u := Upper(name);
    var prefix := if Contains(u, "CURRENT") then 'I' else if Contains(u, "VOLTAGE") then 'V' else 'X';
    var suffix := if Contains(u, "FULL TIME RANGE") then 'F' else if Contains(u, "DAILY") then 'D' else 'X';
    [prefix, suffix]
  }

  /** The abbreviation each table's name gets. */
  function Abbreviation(k: TableKind): string {
    match k
    case VoltageFull => "VF"
    case CurrentFull => "IF"
    case VoltageDaily => "VD"
    case CurrentDaily => "ID"
  }

  /** Each table's name abbreviates to its own two letters, so the four never clash. */
  lemma AbbreviationOfTitle(k: TableKind)
    ensures TableAbbreviation(Title(k)) == Abbreviation(k)
  {
    HeaderIsUpperTitle(k);
    match k
    case VoltageFull => AbbreviateVoltageFull();
    case CurrentFull => AbbreviateCurrentFull();
    case VoltageDaily => AbbreviateVoltageDaily();
    case CurrentDaily => AbbreviateCurrentDaily();
  }

  lemma AbbreviateVoltageFull()
    ensures var u := Header(VoltageFull);
      !Contains(u, "CURRENT") && Contains(u, "VOLTAGE") && Contains(u, "FULL TIME RANGE")
  {
    var u := Header(VoltageFull);
    NotContainsByPair(u, "CURRENT");
    OccursAtByChars(u, "VOLTAGE", 9);
    OccursAtByChars(u, "FULL TIME RANGE", 17);
  }

  lemma AbbreviateCurrentFull()
    ensures var u := Header(CurrentFull);
      Contains(u, "CURRENT") && Contains(u, "FULL TIME RANGE")
  {
    var u := Header(CurrentFull);
    OccursAtByChars(u, "CURRENT", 9);
    OccursAtByChars(u, "FULL TIME RANGE", 17);
  }

  lemma AbbreviateVoltageDaily()
    ensures var u := Header(VoltageDaily);
      !Contains(u, "CURRENT") && Contains(u, "VOLTAGE") && !Contains(u, "FULL TIME RANGE") && Contains(u, "DAILY")
  {
    var u := Header(VoltageDaily);
    NotContainsByPair(u, "CURRENT");
    OccursAtByChars(u, "VOLTAGE", 9);
    NotContainsByChar(u, "FULL TIME RANGE", 0);
    OccursAtByChars(u, "DAILY", 17);
  }

  lemma AbbreviateCurrentDaily()
    ensures var u := Header(CurrentDaily);
      Contains(u, "CURRENT") && !Contains(u, "FULL TIME RANGE") && Contains(u, "DAILY")
  {
    var u := Header(CurrentDaily);
    OccursAtByChars(u, "CURRENT", 9);
    NotContainsByChar(u, "FULL TIME RANGE", 0);
    OccursAtByChars(u, "DAILY", 17);
  }

  // ---------------------------------------------------------------------
  // Per-file sheet names

  /** `f"H_{table_prefix}{table_suffix}_{limit}_{suffix}"[:31]` of `create_excel_download`. */
  function PerFileSheetName(tableName: string, limit: string, odd: bool): (r: string)
    ensures 5 <= |r| <= 31 && r[..2] == "H_" && r[4] == '_'
    ensures r[2] == (if Contains(tableName, "Current") then 'I' else 'V')
    ensures r[3] == (if Contains(tableName, "Daily") then 'D' else 'F')
    ensures |limit| <= 24 ==> |r| == 7 + |limit| && r[5..5 + |limit|] == limit && r[|r| - 1] == (if odd then 'O' else 'E')
  {
    var prefix := if Contains(tableName, "Current") then 'I' else 'V';
    var suffix := if Contains(tableName, "Daily") then 'D' else 'F';
    Prefix("H_" + [prefix, suffix] + "_" + limit + "_" + [if odd then 'O' else 'E'], 31)
  }

  predicate IsLimit(limit: string) { limit == "95" || limit == "99" }

  /** The per-file sheet names are 9 characters long, so the cut at 31 never applies, and
      no two (table, limit, half) combinations share one. */
  lemma PerFileSheetNames(k1: TableKind, l1: string, o1: bool, k2: TableKind, l2: string, o2: bool)
    requires IsLimit(l1) && IsLimit(l2)
    ensures |PerFileSheetName(Title(k1), l1, o1)| == 9
    ensures PerFileSheetName(Title(k1), l1, o1) == PerFileSheetName(Title(k2), l2, o2) ==> k1 == k2 && l1 == l2 && o1 == o2
  {
    TitleMentionsCurrent(k1);
    TitleMentionsDaily(k1);
    TitleMentionsCurrent(k2);
    TitleMentionsDaily(k2);
    var n1 := PerFileSheetName(Title(k1), l1, o1);
    var n2 := PerFileSheetName(Title(k2), l2, o2);
    if n1 == n2 {
      assert n1[2] == n2[2] && n1[3] == n2[3] && n1[8] == n2[8];
      assert n1[5..7] == l1 && n2[5..7] == l2;
    }
  }

  // ---------------------------------------------------------------------
  // Bulk sheet names

  /** `f"{file_prefix}_H_{table_abbrev}"`, cut to 31 characters. */
  function BulkBaseName(filePrefix: string, abbrev: string): (r: string)
    ensures |r| <= 31
    ensures var full := filePrefix + "_H_" + abbrev;
      |r| == (if |full| <= 31 then |full| else 31) && r == full[..|r|]
  {
    Prefix(filePrefix + "_H_" + abbrev, 31)
  }

  /** Python's `s[:n]`, a negative `n` counting from the end. */
  function PySliceTo(s: string, n: int): (r: string)
    ensures |r| <= |s| && r == s[..|r|]
    ensures n >= 0 ==> |r| == (if n <= |s| then n else |s|)
    ensures n < 0 ==> |r| == (if |s| + n <= 0 then 0 else |s| + n)
  {
    if n >= 0 then Prefix(s, n)
    else if |s| + n <= 0 then []
    else s[..|s| + n]
  }

  /** The name tried at attempt `c`: the base itself, then `"{base}_{c}"`, with the
      base cut so that the whole stays within 31 characters. */
  function Candidate(base: string, c: nat): string {
    if c == 0 then base else CandidateHead(base, c) + Suffix(c)
  }

  /** `f"_{counter}"`. */
  function Suffix(c: nat): string {
    "_" + NatToString(c)
  }

  /** The part of a numbered candidate before `_` and the counter. */
  function CandidateHead(base: string, c: nat): string {
    if |base| + |Suffix(c)| > 31 then PySliceTo(base, 31 - |Suffix(c)|) else base
  }

  /** Every numbered candidate ends in `_` and its counter. */
  lemma CandidateEnds(base: string, c: nat)
    requires c >= 1
    ensures LastSegment(Candidate(base, c)) == NatToString(c)
  {
    NoUnderscoreInNumber(c);
    CandidateParts(base, c);
    LastSegmentAfterUnderscore(CandidateHead(base, c), NatToString(c));
  }

  lemma CandidateParts(base: string, c: nat)
    requires c >= 1
    ensures Candidate(base, c) == CandidateHead(base, c) + "_" + NatToString(c)
  {
  }

  lemma NoUnderscoreInNumber(c: nat)
    ensures '_' !in NatToString(c)
  {
    var d := NatToString(c);
    forall i | 0 <= i < |d| ensures d[i] != '_' {
      assert IsDigit(d[i]);
    }
  }

  /** Numbered candidates are pairwise different. */
  lemma CandidatesDistinct(base: string, i: nat, j: nat)
    requires 1 <= i && 1 <= j && Candidate(base, i) == Candidate(base, j)
    ensures i == j
  {
    CandidateEnds(base, i);
    CandidateEnds(base, j);
    NatToStringInjective(i, j);
  }

  /** The numbered candidates `1..n`. */
  function Tried(base: string, n: nat): set<string> {
    set c | 1 <= c <= n :: Candidate(base, c)
  }

  lemma {:induction false} TriedSize(base: string, n: nat)
    ensures |Tried(base, n)| == n
  {
    if n > 0 {
      TriedSize(base, n - 1);
      assert Tried(base, n) == Tried(base, n - 1) + {Candidate(base, n)};
      if Candidate(base, n) in Tried(base, n - 1) {
        var c :| 1 <= c <= n - 1 && Candidate(base, c) == Candidate(base, n);
        CandidatesDistinct(base, c, n);
      }
    }
  }

  lemma SubsetSize(a: set<string>, b: set<string>)
    requires a <= b
    ensures |a| <= |b|
  {
    assert b == a + (b - a);
  }

  /** Decimal digits: a number below `10^d` has at most `d` of them. */
  lemma {:induction false} NatToStringLength(n: nat, d: nat)
    requires 1 <= d && n < Pow10(d)
    ensures |NatToString(n)| <= d
  {
    if n >= 10 {
      NatToStringLength(n / 10, d - 1);
    }
  }

  /** A candidate whose counter has at most 30 digits is within the 31-character limit. */
  lemma CandidateLength(base: string, c: nat)
    requires |base| <= 31 && |NatToString(c)| <= 30
    ensures |Candidate(base, c)| <= 31
  {
  }

  /** The attempt `n` is the first whose candidate is not in `taken`. */
  predicate FirstFree(base: string, taken: set<string>, n: nat) {
    Candidate(base, n) !in taken && forall i: nat :: i < n ==> Candidate(base, i) in taken
  }

  /** When candidates `1..c` are all taken, there are at least `c` taken names. */
  lemma TriedBound(base: string, taken: set<string>, c: nat)
    requires forall i: nat :: 1 <= i <= c ==> Candidate(base, i) in taken
    ensures c <= |taken|
  {
    forall x | x in Tried(base, c) ensures x in taken {
      var i :| 1 <= i <= c && x == Candidate(base, i);
    }
    TriedSize(base, c);
    SubsetSize(Tried(base, c), taken);
  }

  /** The first free name stays within 31 characters unless its counter needs more than 30 digits. */
  lemma FirstFreeLength(base: string, taken: set<string>, n: nat)
    requires |base| <= 31 && FirstFree(base, taken, n) && |taken| + 1 < Pow10(30)
    ensures |Candidate(base, n)| <= 31
  {
    if n >= 1 {
      TriedBound(base, taken, n - 1);
      NatToStringLength(n, 30);
    }
    CandidateLength(base, n);
  }

  /** The `while sheet_name in sheet_file_map` loop: the first candidate not yet taken. */
  method FreeSheetName(original: string, taken: set<string>) returns (name: string)
    ensures exists n: nat :: name == Candidate(original, n) && FirstFree(original, taken, n)
  {
    name := original;
    var counter := 1;
    while name in taken
      invariant counter >= 1
      invariant name == Candidate(original, counter - 1)
      invariant forall i: nat :: i < counter - 1 ==> Candidate(original, i) in taken
      decreases |taken| + 2 - counter
    {
      if counter >= 2 {
        TriedBound(original, taken, counter - 1);
      }
      var suffix := Suffix(counter);
      name := original + suffix;
      if |name| > 31 {
        var truncated := PySliceTo(original, 31 - |suffix|);
        name := truncated + suffix;
      }
      counter := counter + 1;
    }
    assert FirstFree(original, taken, counter - 1);
  }

  /** The map from sheet names to the file each sheet shows, `sheet_file_map`. */
  class SheetBook {
    var sheets: map<string, string>

    constructor()
      ensures sheets == map[]
    {
      sheets := map[];
    }

    /** The sheet name the bulk export gives the table with abbreviation `abbrev` of
        the file `file` with prefix `filePrefix`: the first candidate not yet taken,
        which is then recorded. */
    method AddSheet(filePrefix: string, abbrev: string, file: string) returns (name: string)
      modifies this
      ensures name !in old(sheets)
      ensures sheets == old(sheets)[name := file]
      ensures exists n: nat :: name == Candidate(BulkBaseName(filePrefix, abbrev), n)
                               && FirstFree(BulkBaseName(filePrefix, abbrev), old(sheets).Keys, n)
      ensures |old(sheets)| + 1 < Pow10(30) ==> |name| <= 31
    {
      var sheetName := filePrefix + "_H_" + abbrev;
      if |sheetName| > 31 {
        sheetName := sheetName[..31];
      }
      assert sheetName == BulkBaseName(filePrefix, abbrev);
      name := FreeSheetName(sheetName, sheets.Keys);
      ghost var n: nat :| name == Candidate(sheetName, n) && FirstFree(sheetName, sheets.Keys, n);
      if |sheets| + 1 < Pow10(30) {
        FirstFreeLength(sheetName, sheets.Keys, n);
      }
      sheets := sheets[name := file];
    }
  }
}
