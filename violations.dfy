/** The failure rules: `analyze_failures` (a value strictly above Reg Max is a
    violation), the order of the violation summary, and the highlighter's
    per-row predicate `apply_row` (above the threshold, or a result that says
    "fail"). */
module Violations {
  import opened Wrappers
  import opened Strings
  import opened Numbers
  import opened Config
  import opened Rows
  import opened Normalize

  /** One line of the `analyze_failures` frame. */
  datatype Violation = Violation(harmonic: int, phase: string, timeLimit: real,
                                 allowed: real, measured: real, exceedance: real)

  /** The value in measured column `c` (0, 1, 2) of a validated row. */
  function Measured(r: Row, c: nat): real
    requires c < 3
  {
    if c == 0 then r.m1 else if c == 1 then r.m2 else r.m3
  }

  /** The violation of row `r` in measured column `c`, named `cols[c]`: the phase is `col.split('_')[-1]`. */
  function MakeViolation(r: Row, cols: seq<string>, c: nat): (v: Violation)
    requires |cols| == 3 && c < 3
    ensures v.measured == Measured(r, c) && v.allowed == r.regMax && v.timeLimit == r.pct
    ensures v.exceedance == v.measured - v.allowed
    ensures Measured(r, c) > r.regMax ==> v.exceedance > 0.0
    ensures '_' !in v.phase
    ensures 2.0 <= r.n <= 50.0 ==> 2 <= v.harmonic <= 50 && v.harmonic as real <= r.n < v.harmonic as real + 1.0
  {
    var value := Measured(r, c);
    Violation(Harmonic(r.n), LastSegment(cols[c]), r.pct, r.regMax, value, value - r.regMax)
  }

  /** The violations of the first `c` measured columns of one row, in column order. */
  function RowViolationsUpTo(r: Row, cols: seq<string>, c: nat): (vs: seq<Violation>)
    requires |cols| == 3 && c <= 3
    ensures |vs| <= c
  {
    if c == 0 then []
    else RowViolationsUpTo(r, cols, c - 1) + (if Measured(r, c - 1) > r.regMax then [MakeViolation(r, cols, c - 1)] else [])
  }

  function RowViolations(r: Row, cols: seq<string>): seq<Violation>
    requires |cols| == 3
  {
    RowViolationsUpTo(r, cols, 3)
  }

  /** `analyze_failures` on a validated table whose measured columns are `cols`:
      row-major, then column order. */
  function Violations(rows: seq<Row>, cols: seq<string>): (vs: seq<Violation>)
    requires |cols| == 3
    ensures |vs| <= 3 * |rows|
  {
    if rows == [] then []
    else Violations(rows[..|rows| - 1], cols) + RowViolations(rows[|rows| - 1], cols)
  }

  /** `analyze_failures`, accumulating `violations` row by row and column by column. */
  method AnalyzeFailures(rows: seq<Row>, cols: seq<string>) returns (vs: seq<Violation>)
    requires |cols| == 3
    ensures vs == Violations(rows, cols)
  {
    vs := [];
    for i := 0 to |rows|
      invariant vs == Violations(rows[..i], cols)
    {
      var r := rows[i];
      ghost var before := vs;
      for c := 0 to 3
        invariant vs == before + RowViolationsUpTo(r, cols, c)
      {
        var value := Measured(r, c);
        if value > r.regMax {
          vs := vs + [MakeViolation(r, cols, c)];
        }
      }
      assert rows[..i + 1][..i] == rows[..i];
    }
    assert rows[..|rows|] == rows;
  }

  /** Row `r` exceeds its Reg Max in column `j`, which yields `v`. */
  predicate ViolatesAt(r: Row, cols: seq<string>, j: nat, v: Violation)
    requires |cols| == 3
  {
    j < 3 && Measured(r, j) > r.regMax && v == MakeViolation(r, cols, j)
  }

  lemma {:induction false} RowViolationsUpToMembers(r: Row, cols: seq<string>, c: nat, v: Violation)
    requires |cols| == 3 && c <= 3
    ensures v in RowViolationsUpTo(r, cols, c) <==> exists j: nat :: j < c && ViolatesAt(r, cols, j, v)
  {
    if c > 0 {
      RowViolationsUpToMembers(r, cols, c - 1, v);
      if ViolatesAt(r, cols, c - 1, v) {
        assert v in RowViolationsUpTo(r, cols, c);
      }
      if exists j: nat :: j < c && ViolatesAt(r, cols, j, v) {
        var j: nat :| j < c && ViolatesAt(r, cols, j, v);
        if j < c - 1 {
          assert exists j: nat :: j < c - 1 && ViolatesAt(r, cols, j, v);
        }
      }
    }
  }

  /** A row yields a violation for exactly those columns whose value is strictly above Reg Max. */
  lemma RowViolationsMembers(r: Row, cols: seq<string>, v: Violation)
    requires |cols| == 3
    ensures v in RowViolations(r, cols) <==> exists j: nat :: ViolatesAt(r, cols, j, v)
  {
    RowViolationsUpToMembers(r, cols, 3, v);
  }

  /** The violations are exactly one per (row, column) whose value is strictly above the row's Reg Max. */
  lemma {:induction false} ViolationsMembers(rows: seq<Row>, cols: seq<string>, v: Violation)
    requires |cols| == 3
    ensures v in Violations(rows, cols) <==> exists i, j: nat :: 0 <= i < |rows| && ViolatesAt(rows[i], cols, j, v)
  {
    if rows != [] {
      var n := |rows| - 1;
      var init := rows[..n];
      ViolationsMembers(init, cols, v);
      RowViolationsMembers(rows[n], cols, v);
      if exists i, j: nat :: 0 <= i < |rows| && ViolatesAt(rows[i], cols, j, v) {
        var i, j: nat :| 0 <= i < |rows| && ViolatesAt(rows[i], cols, j, v);
        if i < n {
          assert init[i] == rows[i];
        }
      }
      if exists i, j: nat :: 0 <= i < |init| && ViolatesAt(init[i], cols, j, v) {
        var i, j: nat :| 0 <= i < |init| && ViolatesAt(init[i], cols, j, v);
        assert rows[i] == init[i];
      }
    }
  }

  /** Analysing two row blocks one after the other lists the first block's violations first. */
  lemma {:induction false} ViolationsAppend(a: seq<Row>, b: seq<Row>, cols: seq<string>)
    requires |cols| == 3
    ensures Violations(a + b, cols) == Violations(a, cols) + Violations(b, cols)
    decreases |b|
  {
    if b == [] {
      assert a + b == a;
    } else {
      var n := |b| - 1;
      var last := RowViolations(b[n], cols);
      assert (a + b)[..|a + b| - 1] == a + b[..n];
      assert (a + b)[|a + b| - 1] == b[n];
      calc {
        Violations(a + b, cols);
        Violations(a + b[..n], cols) + last;
        { ViolationsAppend(a, b[..n], cols); }
        (Violations(a, cols) + Violations(b[..n], cols)) + last;
        Violations(a, cols) + (Violations(b[..n], cols) + last);
      }
    }
  }

  /** Every violation is strictly over its limit, by its exceedance. */
  lemma ViolationsExceed(rows: seq<Row>, cols: seq<string>)
    requires |cols| == 3
    ensures forall v :: v in Violations(rows, cols) ==>
      v.exceedance == v.measured - v.allowed && v.exceedance > 0.0
  {
    forall v | v in Violations(rows, cols)
      ensures v.exceedance == v.measured - v.allowed && v.exceedance > 0.0
    {
      ViolationsMembers(rows, cols, v);
    }
  }

  /** With the table's own measured columns, every violation names one of the table's phases. */
  lemma ViolationPhases(rows: seq<Row>, k: TableKind)
    ensures forall v :: v in Violations(rows, MeasuredColumns(k)) ==> v.phase in Phases(k)
  {
    var cols := MeasuredColumns(k);
    forall v | v in Violations(rows, cols) ensures v.phase in Phases(k) {
      ViolationsMembers(rows, cols, v);
      var i, j: nat :| 0 <= i < |rows| && ViolatesAt(rows[i], cols, j, v);
    }
  }

  /** A value equal to Reg Max is not a violation. */
  lemma AtLimitPasses(r: Row, cols: seq<string>)
    requires |cols| == 3
    requires r.m1 == r.regMax && r.m2 == r.regMax && r.m3 == r.regMax
    ensures RowViolations(r, cols) == []
  {
    if RowViolations(r, cols) != [] {
      var v := RowViolations(r, cols)[0];
      RowViolationsMembers(r, cols, v);
    }
  }

  // ---------------------------------------------------------------------
  // The violation summary

  /** A line of the combined summary: the violation and the table it came from. */
  datatype Entry = Entry(table: TableKind, v: Violation)

  /** `sort_values(['Exceedance (%)', 'Harmonic'], ascending=False)`: `a` may precede `b`. */
  predicate ReportBefore(a: Entry, b: Entry) {
    a.v.exceedance > b.v.exceedance || (a.v.exceedance == b.v.exceedance && a.v.harmonic >= b.v.harmonic)
  }

  predicate ReportOrdered(es: seq<Entry>) {
    forall i, j :: 0 <= i < j < |es| ==> ReportBefore(es[i], es[j])
  }

  /** `e` placed before the first entry it comes before in report order. */
  function InsertEntry(e: Entry, s: seq<Entry>): (r: seq<Entry>)
    ensures multiset(r) == multiset(s) + multiset{e}
  {
    if s == [] then [e]
    else if ReportBefore(e, s[0]) then [e] + s
    else
      assert s == [s[0]] + s[1..];
      [s[0]] + InsertEntry(e, s[1..])
  }

  /** Inserting into a sequence in report order keeps it in report order. */
  lemma {:induction false} InsertEntryOrdered(e: Entry, s: seq<Entry>)
    requires ReportOrdered(s)
    ensures ReportOrdered(InsertEntry(e, s))
  {
    if s != [] && !ReportBefore(e, s[0]) {
      var rest := InsertEntry(e, s[1..]);
      InsertEntryOrdered(e, s[1..]);
      var r := [s[0]] + rest;
      forall i, j | 0 <= i < j < |r| ensures ReportBefore(r[i], r[j]) {
        if i == 0 {
          assert r[j] in multiset(rest);
          assert r[j] == e || r[j] in s[1..];
        } else {
          assert r[i] == rest[i - 1] && r[j] == rest[j - 1];
        }
      }
    }
  }

  /** The summary's sort: the same entries, largest exceedance first, ties by larger harmonic. */
  function ReportSort(es: seq<Entry>): (r: seq<Entry>)
    ensures ReportOrdered(r)
    ensures multiset(r) == multiset(es)
  {
    if es == [] then []
    else
      assert es == [es[0]] + es[1..];
      var t := ReportSort(es[1..]);
      InsertEntryOrdered(es[0], t);
      InsertEntry(es[0], t)
  }

  function Tag(k: TableKind, vs: seq<Violation>): seq<Entry> {
    seq(|vs|, i requires 0 <= i < |vs| => Entry(k, vs[i]))
  }

  lemma TagMembers(k: TableKind, vs: seq<Violation>, e: Entry)
    ensures e in Tag(k, vs) <==> e.table == k && e.v in vs
  {
    if e in Tag(k, vs) {
      var i :| 0 <= i < |vs| && Tag(k, vs)[i] == e;
      assert vs[i] == e.v;
    }
    if e.table == k && e.v in vs {
      var i :| 0 <= i < |vs| && vs[i] == e.v;
      assert Tag(k, vs)[i] == e;
    }
  }

  /** The violations `display_violation_summary` finds in one table's rows. */
  function TableViolations(tables: map<TableKind, seq<RawRow>>, k: TableKind): seq<Violation>
    requires k in tables
  {
    Violations(Process(tables[k]), MeasuredColumns(k))
  }

  /** The tagged violations of the tables `ks`, concatenated in that order. */
  function Combined(tables: map<TableKind, seq<RawRow>>, ks: seq<TableKind>): seq<Entry>
    requires forall k :: k in ks ==> k in tables
  {
    if ks == [] then []
    else
      var k := ks[|ks| - 1];
      Combined(tables, ks[..|ks| - 1]) + Tag(k, TableViolations(tables, k))
  }

  /** The violation summary table: every table's violations, tagged, in report order. */
  function Summary(tables: map<TableKind, seq<RawRow>>): (es: seq<Entry>)
    requires forall k :: k in tables
    ensures ReportOrdered(es)
    ensures multiset(es) == multiset(Combined(tables, SupportedTables))
  {
    ReportSort(Combined(tables, SupportedTables))
  }

  lemma {:induction false} CombinedMembers(tables: map<TableKind, seq<RawRow>>, ks: seq<TableKind>, e: Entry)
    requires forall k :: k in ks ==> k in tables
    ensures e in Combined(tables, ks) <==> e.table in ks && e.v in TableViolations(tables, e.table)
  {
    if ks != [] {
      var n := |ks| - 1;
      var front, k := ks[..n], ks[n];
      assert ks == front + [k];
      assert e.table in ks <==> e.table in front || e.table == k;
      var tagged := Tag(k, TableViolations(tables, k));
      assert Combined(tables, ks) == Combined(tables, front) + tagged;
      CombinedMembers(tables, front, e);
      TagMembers(k, TableViolations(tables, k), e);
    }
  }

  /** The summary lists, in report order, exactly the violations of the four tables,
      each with the table it belongs to. */
  lemma SummaryExact(tables: map<TableKind, seq<RawRow>>, e: Entry)
    requires forall k :: k in tables
    ensures ReportOrdered(Summary(tables))
    ensures e in Summary(tables) <==> e.v in TableViolations(tables, e.table)
  {
    var c := Combined(tables, SupportedTables);
    CombinedMembers(tables, SupportedTables, e);
    assert e in Summary(tables) <==> e in c by {
      assert e in Summary(tables) <==> e in multiset(Summary(tables));
    }
    assert e.table in SupportedTables by {
      match e.table
      case VoltageFull => assert SupportedTables[0] == VoltageFull;
      case CurrentFull => assert SupportedTables[1] == CurrentFull;
      case VoltageDaily => assert SupportedTables[2] == VoltageDaily;
      case CurrentDaily => assert SupportedTables[3] == CurrentDaily;
    }
  }

  // ---------------------------------------------------------------------
  // The highlighter's predicate

  /** A cell of the styled frame: a number, a text, or missing (NaN). */
  datatype Cell = Num(x: real) | Str(s: string) | Missing

  /** `float(row[reg_max_col])` when present, 0.0 when missing or unparseable. */
  function Threshold(c: Cell): (t: real)
    ensures c.Num? ==> t == c.x
    ensures c.Missing? ==> t == 0.0
    ensures c.Str? && IsDigits(Strip(c.s)) ==> t == DigitsValue(Strip(c.s)) as real
    ensures c.Str? && ParseDecimal(Strip(c.s)).None? ==> t == 0.0
  {
    match c
    case Num(x) => x
    case Str(s) =>
      if IsDigits(Strip(s)) then ParseDigits(Strip(s)); ParseDecimal(Strip(s)).GetOr(0.0)
      else ParseDecimal(Strip(s)).GetOr(0.0)
    case Missing => 0.0
  }

  /** `extract_value`; `None` is the NaN a missing cell gives, which exceeds nothing. */
  function CellValue(c: Cell): (v: Option<real>)
    ensures v.None? <==> c.Missing?
    ensures c.Num? ==> v == Some(c.x)
    ensures c.Str? ==> v.value >= 0.0
    ensures c.Str? && (forall i :: 0 <= i < |c.s| ==> !IsDigit(c.s[i])) ==> v == Some(0.0)
  {
    match c
    case Num(x) => Some(x)
    case Str(s) => Some(ExtractValue(s))
    case Missing => None
  }

  /** `'fail' in str(result).lower()` for a present result (a number's text never says "fail"):
      only a text says "fail", and one that holds "fail", "Fail" or "FAIL" does. */
  function SaysFail(c: Cell): (b: bool)
    ensures b ==> c.Str?
    ensures c.Str? && (Contains(c.s, "fail") || Contains(c.s, "Fail") || Contains(c.s, "FAIL")) ==> b
  {
    if c.Str? then
      LowerContains(c.s, "fail");
      LowerContains(c.s, "Fail");
      LowerContains(c.s, "FAIL");
      assert Lower("fail") == Lower("Fail") == Lower("FAIL") == "fail";
      Contains(Lower(c.s), "fail")
    else false
  }

  /** Measured column `i` is flagged: its value exceeds the threshold, or its result (if any) says "fail". */
  function Flagged(threshold: real, measured: seq<Cell>, results: seq<Cell>, i: nat): (f: bool)
    requires i < |measured|
    ensures measured[i].Missing? ==> (f <==> i < |results| && SaysFail(results[i]))
    ensures measured[i].Num? && measured[i].x > threshold ==> f
    ensures i < |results| && SaysFail(results[i]) ==> f
    ensures !(i < |results| && SaysFail(results[i])) ==>
              (f <==> CellValue(measured[i]).Some? && CellValue(measured[i]).value > threshold)
  {
    var v := CellValue(measured[i]);
    (v.Some? && v.value > threshold) || (i < |results| && SaysFail(results[i]))
  }

  /** The fill a row gets: per measured column, per result column, and for N. */
  datatype Styles = Styles(measured: seq<bool>, results: seq<bool>, index: bool)

  /** `apply_row`: each flagged measured column is filled, with its result column, and then N is highlighted. */
  method ApplyRow(regMax: Cell, measured: seq<Cell>, results: seq<Cell>) returns (st: Styles)
    ensures |st.measured| == |measured| && |st.results| == |results|
    ensures forall i :: 0 <= i < |measured| ==> (st.measured[i] <==> Flagged(Threshold(regMax), measured, results, i))
    ensures forall j :: 0 <= j < |results| ==>
      (st.results[j] <==> j < |measured| && Flagged(Threshold(regMax), measured, results, j))
    ensures st.index <==> exists i :: 0 <= i < |measured| && Flagged(Threshold(regMax), measured, results, i)
  {
    var threshold := Threshold(regMax);
    var ms := seq(|measured|, _ => false);
    var rs := seq(|results|, _ => false);
    var index := false;
    for i := 0 to |measured|
      invariant |ms| == |measured| && |rs| == |results|
      invariant forall j :: 0 <= j < |measured| ==> (ms[j] <==> j < i && Flagged(threshold, measured, results, j))
      invariant forall j :: 0 <= j < |results| ==> (rs[j] <==> j < i && j < |measured| && Flagged(threshold, measured, results, j))
      invariant index <==> exists j :: 0 <= j < i && Flagged(threshold, measured, results, j)
    {
      var v := CellValue(measured[i]);
      var fail := v.Some? && v.value > threshold;
      if i < |results| && SaysFail(results[i]) {
        fail := true;
      }
      assert fail == Flagged(threshold, measured, results, i);
      if fail {
        ms := ms[i := true];
        if i < |results| {
          rs := rs[i := true];
        }
        index := true;
      }
    }
    st := Styles(ms, rs, index);
  }

  /** The cells of a validated row as the highlighter sees them. */
  function RegMaxCell(r: Row): Cell { Num(r.regMax) }

  function MeasuredCells(r: Row): (cs: seq<Cell>)
    ensures |cs| == 3
    ensures forall j :: 0 <= j < 3 ==> CellValue(cs[j]) == Some(Measured(r, j))
  {
    [Num(r.m1), Num(r.m2), Num(r.m3)]
  }

  /** The result texts of a validated row are present cells, so their "fail" test applies. */
  function ResultCells(r: Row): (cs: seq<Cell>)
    ensures |cs| == 3
    ensures forall j :: 0 <= j < 3 ==> cs[j].Str?
  {
    [Str(r.r1), Str(r.r2), Str(r.r3)]
  }

  /** On a validated row the highlighter flags every column `analyze_failures` reports,
      and only those, unless the column's result text says "fail". */
  lemma HighlightAgreesWithViolations(r: Row, cols: seq<string>, j: nat)
    requires |cols| == 3 && j < 3
    ensures Flagged(Threshold(RegMaxCell(r)), MeasuredCells(r), ResultCells(r), j) <==>
      (MakeViolation(r, cols, j) in RowViolations(r, cols) || SaysFail(ResultCells(r)[j]))
  {
    var v := MakeViolation(r, cols, j);
    RowViolationsMembers(r, cols, v);
    if Measured(r, j) > r.regMax {
      assert ViolatesAt(r, cols, j, v);
    }
    if v in RowViolations(r, cols) {
      var i: nat :| ViolatesAt(r, cols, i, v);
      assert Measured(r, j) == Measured(r, i);
    }
    assert CellValue(MeasuredCells(r)[j]) == Some(Measured(r, j));
  }
}
