/** Row extraction from one page: the structured-table extractor
    `_extract_structured_data`, the text extractor `extract_table_data_from_text`
    and the merge of `_extract_text_data`, in which structured rows win. */
module Rows {
  import opened Wrappers
  import opened Strings
  import opened Seqs
  import opened Config

  /** The first cell of a raw row: the stripped text of a structured cell, or
      the `int` a text match produced. */
  datatype IndexCell = Text(text: string) | Whole(value: int)

  /** One raw row in column order: N, [%], Reg Max[%], the three measured
      values and the three results. */
  datatype RawRow = RawRow(index: IndexCell, pct: string, regMax: string,
                           m1: string, m2: string, m3: string,
                           r1: string, r2: string, r3: string)

  /** A structured table as the PDF parser returns it: rows of cells, a missing cell being `None`. */
  type Table = seq<seq<Option<string>>>

  /** The groups of one regular-expression match, group 1 first. */
  type Match = seq<string>

  /** The regular-expression engine: for a whitespace-collapsed text, the matches
      of each of the three extraction patterns, in pattern order and, within a
      pattern, in text order. The `Pass (x)` to `Pass(x)` rewrite is part of it. */
  type Finder = string -> seq<seq<Match>>

  /** The value the merge reads from an index cell: `int(row[0])` where `str(row[0]).isdigit()`. */
  function IndexValue(c: IndexCell): (v: Option<int>)
    ensures v.Some? ==> v.value >= 0
    ensures c.Text? ==> (v.Some? <==> IsDigits(c.text)) && (v.Some? ==> v.value == DigitsValue(c.text))
    ensures c.Whole? ==> (v.Some? <==> c.value >= 0) && (v.Some? ==> v.value == c.value)
  {
    match c
    case Text(s) => if IsDigits(s) then Some(DigitsValue(s)) else None
    case Whole(v) => if v >= 0 then Some(v) else None
  }

  /** `str(cell).strip()` of a present cell, `""` for a missing one. */
  function CleanCell(c: Option<string>): string {
    match c
    case None => ""
    case Some(s) => Strip(s)
  }

  /** A cleaned cell is its own strip. */
  lemma CleanCellStripped(c: Option<string>)
    ensures Strip(CleanCell(c)) == CleanCell(c)
  {
    if c.Some? {
      StripOfStripped(Strip(c.value));
    }
  }

  /** Every cell of the row is already stripped. */
  predicate Stripped(r: RawRow) {
    && (r.index.Text? ==> Strip(r.index.text) == r.index.text)
    && Strip(r.pct) == r.pct && Strip(r.regMax) == r.regMax
    && Strip(r.m1) == r.m1 && Strip(r.m2) == r.m2 && Strip(r.m3) == r.m3
    && Strip(r.r1) == r.r1 && Strip(r.r2) == r.r2 && Strip(r.r3) == r.r3
  }

  /** The structured extractor's test on a row: a first cell whose stripped text
      is all digits, an index in 2..50 and at least nine cells. */
  predicate AcceptsRow(row: seq<Option<string>>) {
    && |row| >= 9
    && row[0].Some? && IsDigits(Strip(row[0].value))
    && var h := DigitsValue(Strip(row[0].value));
    && h != 1 && 2 <= h <= 50 && h <= 1000
  }

  /** The first nine cells, stripped. */
  function CleanRow(row: seq<Option<string>>): RawRow
    requires |row| >= 9
  {
    RawRow(Text(CleanCell(row[0])), CleanCell(row[1]), CleanCell(row[2]),
           CleanCell(row[3]), CleanCell(row[4]), CleanCell(row[5]),
           CleanCell(row[6]), CleanCell(row[7]), CleanCell(row[8]))
  }

  /** A digit-only index cell whose value lies in 2..50. */
  predicate StructuredIndex(r: RawRow) {
    r.index.Text? && IsDigits(r.index.text) && 2 <= DigitsValue(r.index.text) <= 50
  }

  /** What every structured row looks like: a digit-only index in 2..50 and nine stripped cells. */
  predicate StructuredShape(r: RawRow) {
    StructuredIndex(r) && Stripped(r)
  }

  lemma CleanRowShape(row: seq<Option<string>>)
    requires AcceptsRow(row)
    ensures StructuredShape(CleanRow(row))
  {
    CleanCellStripped(row[0]); CleanCellStripped(row[1]); CleanCellStripped(row[2]);
    CleanCellStripped(row[3]); CleanCellStripped(row[4]); CleanCellStripped(row[5]);
    CleanCellStripped(row[6]); CleanCellStripped(row[7]); CleanCellStripped(row[8]);
  }

  /** The accepted rows of one table, in table order. */
  function TableRows(t: Table): (rows: seq<RawRow>)
    ensures |rows| <= |t|
    ensures forall r :: r in rows ==> StructuredIndex(r)
  {
    if t == [] then []
    else
      var last := t[|t| - 1];
      TableRows(t[..|t| - 1]) + (if AcceptsRow(last) then [CleanRow(last)] else [])
  }

  /** The rows `_extract_structured_data` appends for one page: the accepted rows
      of every table with more than one row, table by table. Each has a digit-only
      index in 2..50. */
  function StructuredRows(pts: seq<Table>): (rows: seq<RawRow>)
    ensures forall r :: r in rows ==> StructuredIndex(r)
  {
    if pts == [] then []
    else
      var t := pts[|pts| - 1];
      StructuredRows(pts[..|pts| - 1]) + (if |t| > 1 then TableRows(t) else [])
  }

  /** The structured extractor turns table row `row` into `r`. */
  predicate Yields(row: seq<Option<string>>, r: RawRow) {
    AcceptsRow(row) && CleanRow(row) == r
  }

  /** A row is extracted from a table exactly when some row of that table yields it. */
  lemma TableRowsMembers(t: Table, r: RawRow)
    ensures r in TableRows(t) <==> exists j :: 0 <= j < |t| && Yields(t[j], r)
  {
    if r in TableRows(t) {
      TableRowsSound(t, r);
    }
    if exists j :: 0 <= j < |t| && Yields(t[j], r) {
      var j :| 0 <= j < |t| && Yields(t[j], r);
      TableRowsComplete(t, j);
    }
  }

  lemma {:induction false} TableRowsSound(t: Table, r: RawRow)
    requires r in TableRows(t)
    ensures exists j :: 0 <= j < |t| && Yields(t[j], r)
  {
    var init, last := t[..|t| - 1], t[|t| - 1];
    if r in TableRows(init) {
      TableRowsSound(init, r);
      var j :| 0 <= j < |init| && Yields(init[j], r);
      assert t[j] == init[j];
    } else {
      assert Yields(t[|t| - 1], r);
    }
  }

  lemma {:induction false} TableRowsComplete(t: Table, j: nat)
    requires j < |t| && AcceptsRow(t[j])
    ensures CleanRow(t[j]) in TableRows(t)
  {
    var init := t[..|t| - 1];
    if j < |t| - 1 {
      assert init[j] == t[j];
      TableRowsComplete(init, j);
    }
  }

  /** A row is among a page's structured rows exactly when a row of a table with
      more than one row yields it. */
  lemma StructuredRowsMembers(pts: seq<Table>, r: RawRow)
    ensures r in StructuredRows(pts) <==>
      exists i, j :: 0 <= i < |pts| && |pts[i]| > 1 && 0 <= j < |pts[i]| && Yields(pts[i][j], r)
  {
    if r in StructuredRows(pts) {
      StructuredRowsSound(pts, r);
    }
    if exists i, j :: 0 <= i < |pts| && |pts[i]| > 1 && 0 <= j < |pts[i]| && Yields(pts[i][j], r) {
      var i, j :| 0 <= i < |pts| && |pts[i]| > 1 && 0 <= j < |pts[i]| && Yields(pts[i][j], r);
      StructuredRowsComplete(pts, i, j);
    }
  }

  lemma {:induction false} StructuredRowsSound(pts: seq<Table>, r: RawRow)
    requires r in StructuredRows(pts)
    ensures exists i, j :: 0 <= i < |pts| && |pts[i]| > 1 && 0 <= j < |pts[i]| && Yields(pts[i][j], r)
  {
    var init, t := pts[..|pts| - 1], pts[|pts| - 1];
    if r in StructuredRows(init) {
      StructuredRowsSound(init, r);
      var i, j :| 0 <= i < |init| && |init[i]| > 1 && 0 <= j < |init[i]| && Yields(init[i][j], r);
      assert pts[i] == init[i];
    } else {
      TableRowsSound(t, r);
      var j :| 0 <= j < |t| && Yields(t[j], r);
      assert pts[|pts| - 1] == t;
    }
  }

  lemma {:induction false} StructuredRowsComplete(pts: seq<Table>, i: nat, j: nat)
    requires i < |pts| && |pts[i]| > 1 && j < |pts[i]| && AcceptsRow(pts[i][j])
    ensures CleanRow(pts[i][j]) in StructuredRows(pts)
  {
    var init := pts[..|pts| - 1];
    if i < |pts| - 1 {
      assert init[i] == pts[i];
      StructuredRowsComplete(init, i, j);
    } else {
      TableRowsComplete(pts[i], j);
    }
  }

  /** Every structured row has a digit-only index in 2..50 and nine stripped cells. */
  lemma {:induction false} StructuredRowsShape(pts: seq<Table>)
    ensures forall r :: r in StructuredRows(pts) ==> StructuredShape(r)
  {
    forall r | r in StructuredRows(pts) ensures StructuredShape(r) {
      StructuredRowsMembers(pts, r);
      var i, j :| 0 <= i < |pts| && |pts[i]| > 1 && 0 <= j < |pts[i]| && Yields(pts[i][j], r);
      CleanRowShape(pts[i][j]);
    }
  }

  /** One more table extends the structured rows by that table's rows, when it has more than one row. */
  lemma StructuredRowsSnoc(pts: seq<Table>, i: nat)
    requires i < |pts|
    ensures StructuredRows(pts[..i + 1]) == StructuredRows(pts[..i]) + (if |pts[i]| > 1 then TableRows(pts[i]) else [])
  {
    assert pts[..i + 1][..i] == pts[..i];
  }

  /** One more row extends a table's rows by its cleaned form, when it is accepted. */
  lemma TableRowsSnoc(t: Table, j: nat)
    requires j < |t|
    ensures TableRows(t[..j + 1]) == TableRows(t[..j]) + (if AcceptsRow(t[j]) then [CleanRow(t[j])] else [])
  {
    assert t[..j + 1][..j] == t[..j];
  }

  /** `f"{word}({arg})"`. */
  function Call(word: string, arg: string): string {
    word + "(" + arg + ")"
  }

  /** The row one match yields, or `None` when the match is skipped: a group 1 that
      `int()` rejects, an index outside 2..50, or too few groups for the result columns. */
  function MatchRow(g: Match, hasResults: bool): (r: Option<RawRow>)
    ensures r.Some? <==>
      |g| > 0 && IsDigits(g[0]) && 2 <= DigitsValue(g[0]) <= 50 && (|g| >= 9 || (|g| >= 6 && !hasResults))
    ensures r.Some? ==> r.value.index == Whole(DigitsValue(g[0]))
  {
    if |g| == 0 || !IsDigits(g[0]) then None
    else
      var h := DigitsValue(g[0]);
      if h == 1 || h < 2 || h > 50 || h > 1000 then None
      else if |g| >= 12 then
        Some(RawRow(Whole(h), g[1], g[2], g[3], g[4], g[5],
                    Call(g[6], g[7]), Call(g[8], g[9]), Call(g[10], g[11])))
      else if |g| >= 9 then
        Some(RawRow(Whole(h), g[1], g[2], g[3], g[4], g[5],
                    Call("Pass", g[6]), Call("Pass", g[7]), Call("Pass", g[8])))
      else if |g| >= 6 && !hasResults then
        Some(RawRow(Whole(h), g[1], g[2], g[3], g[4], g[5], "N/A", "N/A", "N/A"))
      else None
  }

  /** A text row carries an `int` index in 2..50. */
  predicate TextShape(r: RawRow) {
    r.index.Whole? && 2 <= r.index.value <= 50
  }

  /** What either extractor produces: a digit-only or an `int` index in 2..50. */
  predicate Extracted(r: RawRow) {
    StructuredIndex(r) || TextShape(r)
  }

  /** The rows of one pattern's matches, in match order: every match that yields a
      row contributes it, and nothing else is there. */
  function PatternRows(ms: seq<Match>, hasResults: bool): (rows: seq<RawRow>)
    ensures |rows| <= |ms|
    ensures forall r :: r in rows ==> TextShape(r)
    ensures forall g :: g in ms && MatchRow(g, hasResults).Some? ==> MatchRow(g, hasResults).value in rows
    ensures forall r :: r in rows ==> exists g :: g in ms && MatchRow(g, hasResults) == Some(r)
  {
    if ms == [] then []
    else
      var init, g := ms[..|ms| - 1], ms[|ms| - 1];
      assert ms == init + [g];
      PatternRows(init, hasResults) + (if MatchRow(g, hasResults).Some? then [MatchRow(g, hasResults).value] else [])
  }

  /** The rows of all patterns, pattern by pattern: every match of every pattern
      that yields a row contributes it, and nothing else is there. */
  function TextRows(mss: seq<seq<Match>>, hasResults: bool): (rows: seq<RawRow>)
    ensures forall r :: r in rows ==> TextShape(r)
    ensures forall i, g :: 0 <= i < |mss| && g in mss[i] && MatchRow(g, hasResults).Some? ==>
      MatchRow(g, hasResults).value in rows
    ensures forall r :: r in rows ==> exists i, g :: 0 <= i < |mss| && g in mss[i] && MatchRow(g, hasResults) == Some(r)
  {
    if mss == [] then []
    else
      var init := mss[..|mss| - 1];
      assert forall i :: 0 <= i < |init| ==> init[i] == mss[i];
      TextRows(init, hasResults) + PatternRows(mss[|mss| - 1], hasResults)
  }

  /** When the table has result columns, a match with fewer than nine groups gives no row,
      and one with nine to eleven groups has its results read as passes. */
  lemma ResultsNeedNineGroups(g: Match)
    ensures |g| < 9 ==> MatchRow(g, true).None?
    ensures 9 <= |g| < 12 && MatchRow(g, true).Some? ==>
      var r := MatchRow(g, true).value;
      r.r1 == Call("Pass", g[6]) && r.r2 == Call("Pass", g[7]) && r.r3 == Call("Pass", g[8])
  {
  }

  /** `extract_table_data_from_text`: every match of every pattern over the
      whitespace-collapsed text, turned into rows and filtered. */
  method ExtractTableDataFromText(text: string, hasResults: bool, find: Finder) returns (data: seq<RawRow>)
    ensures data == TextRows(find(Collapse(text)), hasResults)
    ensures forall r :: r in data ==> TextShape(r)
  {
    var mss := find(Collapse(text));
    data := [];
    for p := 0 to |mss|
      invariant data == TextRows(mss[..p], hasResults)
    {
      var rows := CollectPatternRows(mss[p], hasResults);
      data := data + rows;
      assert mss[..p + 1][..p] == mss[..p];
    }
    assert mss[..|mss|] == mss;
  }

  /** The inner loop of `extract_table_data_from_text`: the rows of one pattern's matches. */
  method CollectPatternRows(ms: seq<Match>, hasResults: bool) returns (rows: seq<RawRow>)
    ensures rows == PatternRows(ms, hasResults)
  {
    rows := [];
    for m := 0 to |ms|
      invariant rows == PatternRows(ms[..m], hasResults)
    {
      var row := MatchRow(ms[m], hasResults);
      PatternRowsSnoc(ms, m, hasResults);
      if row.Some? {
        rows := rows + [row.value];
      }
    }
    assert ms[..|ms|] == ms;
  }

  lemma PatternRowsSnoc(ms: seq<Match>, m: nat, hasResults: bool)
    requires m < |ms|
    ensures PatternRows(ms[..m + 1], hasResults) ==
      PatternRows(ms[..m], hasResults) + (if MatchRow(ms[m], hasResults).Some? then [MatchRow(ms[m], hasResults).value] else [])
  {
    assert ms[..m + 1][..m] == ms[..m];
  }

  /** The indices already present in a table: `{int(row[0]) for row in rows if str(row[0]).isdigit()}`. */
  function ExistingIndices(rows: seq<RawRow>): set<int> {
    set r | r in rows && IndexValue(r.index).Some? :: IndexValue(r.index).value
  }

  /** The merge keeps a text row whose index lies in 2..50 and was not present when the merge began. */
  predicate KeepsTextRow(existing: set<int>, r: RawRow) {
    r.index.Whole? && 2 <= r.index.value <= 50 && r.index.value !in existing
  }

  /** `KeepsTextRow(existing, _)` as a selector for `Filter`. */
  function Keeps(existing: set<int>): RawRow -> bool {
    (r: RawRow) => KeepsTextRow(existing, r)
  }

  /** The text rows `_extract_text_data` appends, in order: exactly those with a
      fresh index in 2..50. */
  function NewTextRows(existing: set<int>, data: seq<RawRow>): (kept: seq<RawRow>)
    ensures forall r :: r in kept <==> r in data && KeepsTextRow(existing, r)
    ensures Subseq(kept, data)
  {
    FilterIsSubseq(data, Keeps(existing));
    Filter(data, Keeps(existing))
  }

  /** `tables[k]` after `_extract_structured_data(page_tables, tables, k)`. */
  function WithStructured(tables: map<TableKind, seq<RawRow>>, k: TableKind, pts: seq<Table>): map<TableKind, seq<RawRow>>
    requires k in tables
  {
    tables[k := tables[k] + StructuredRows(pts)]
  }

  /** `tables` after `_extract_text_data(text, tables, k)`. */
  function WithText(tables: map<TableKind, seq<RawRow>>, k: TableKind, text: string, find: Finder): (r: map<TableKind, seq<RawRow>>)
    requires k in tables
    ensures r.Keys == tables.Keys
    ensures forall j :: j in tables && j != k ==> r[j] == tables[j]
    ensures tables[k] <= r[k]
    ensures forall x :: x in r[k][|tables[k]|..] ==> TextShape(x) && x.index.value !in ExistingIndices(tables[k])
  {
    tables[k := tables[k] + NewTextRows(ExistingIndices(tables[k]), TextRows(find(Collapse(text)), true))]
  }

  /** The text merge keeps what was there, adds only rows with a fresh index in 2..50,
      and so never adds a row for an index a structured row already holds. */
  lemma TextMergeKeepsStructured(tables: map<TableKind, seq<RawRow>>, k: TableKind, text: string, find: Finder)
    requires k in tables
    ensures var before, after := tables[k], WithText(tables, k, text, find)[k];
      && before <= after
      && (forall r :: r in after[|before|..] ==>
            r.index.Whole? && 2 <= r.index.value <= 50 && r.index.value !in ExistingIndices(before))
      && (forall r :: r in after && IndexValue(r.index).Some? && IndexValue(r.index).value in ExistingIndices(before) ==> r in before)
  {
    var before, after := tables[k], WithText(tables, k, text, find)[k];
    var added := NewTextRows(ExistingIndices(before), TextRows(find(Collapse(text)), true));
    assert after == before + added;
    assert after[|before|..] == added;
  }

  /** Rows of other tables are untouched, and the table only grows at its end. */
  lemma ExtractionOnlyAppends(tables: map<TableKind, seq<RawRow>>, k: TableKind, pts: seq<Table>, text: string, find: Finder)
    requires k in tables
    ensures var t := WithText(WithStructured(tables, k, pts), k, text, find);
      && t.Keys == tables.Keys
      && (forall j :: j in tables && j != k ==> t[j] == tables[j])
      && t[k] == tables[k] + StructuredRows(pts) + t[k][|tables[k]| + |StructuredRows(pts)|..]
  {
  }
}
