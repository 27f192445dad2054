/** The page loop of `extract_tables_from_pdf`: header detection, section bounds,
    the boundary check `_check_boundary_hit` and the active-table state carried
    from page to page. The pure `Step` says what one page does; the `Extractor`
    class does it in place and is proved to agree with `Step`. */
module Locator {
  import opened Wrappers
  import opened Strings
  import opened Config
  import opened Rows
  import opened Seqs

  /** One PDF page as the extractor sees it: its text (`""` where the parser finds
      none) and its structured tables. */
  datatype Page = Page(text: string, tables: seq<Table>)

  /** The extractor's state between pages: the rows gathered per table and the active table. */
  datatype State = State(tables: map<TableKind, seq<RawRow>>, active: Option<TableKind>)

  /** Every table kind has a row list. */
  predicate Complete(tables: map<TableKind, seq<RawRow>>) {
    forall k: TableKind :: k in tables
  }

  /** `{table_name: [] for table_name in SUPPORTED_TABLES}` and no active table. */
  function Initial(): (s: State)
    ensures Complete(s.tables) && s.active.None?
    ensures forall k :: s.tables[k] == []
  {
    var m: map<TableKind, seq<RawRow>> := map[VoltageFull := [], CurrentFull := [], VoltageDaily := [], CurrentDaily := []];
    assert forall k: TableKind :: k in m && m[k] == [] by {
      forall k: TableKind ensures k in m && m[k] == [] {
        if k.VoltageFull? {
        } else if k.CurrentFull? {
        } else if k.VoltageDaily? {
        } else {
          assert k == CurrentDaily;
        }
      }
    }
    State(m, None)
  }

  /** `_check_boundary_hit`: one of the table's terminators occurs somewhere on the
      (upper-cased) page. The "HARMONIC 5" filter of Harmonic Current Daily drops none of
      its terminators, so every terminator of the table counts. */
  function BoundaryHit(upper: string, k: TableKind): (hit: bool)
    ensures hit <==> exists t :: t in Terminators(k) && Contains(upper, t)
  {
    ActiveTerminatorsAreAll(k);
    exists t :: t in ActiveTerminators(k) && Contains(upper, t)
  }

  /** The two tests at the end of the page loop's body: the active table stays active when
      the page holds none of its terminators, or when it is Harmonic Current Daily and the
      page mentions "HARMONIC 5:". */
  method CheckStaysActive(upper: string, k: TableKind) returns (stays: bool)
    ensures stays == StaysActive(upper, k)
    ensures stays <==> (forall t :: t in Terminators(k) ==> !Contains(upper, t))
                       || (k == CurrentDaily && Contains(upper, "HARMONIC 5:"))
  {
    var hit := BoundaryHit(upper, k);
    stays := !hit || (k == CurrentDaily && Contains(upper, Harmonic5Marker));
  }

  /** The least position at or after `from` where one of `ts` occurs, or `n` when
      none occurs before `n`. */
  function SectionEnd(upper: string, from: nat, ts: seq<string>, n: nat): (e: nat)
    ensures e <= n
    ensures from <= n ==> from <= e
    ensures forall t, i :: t in ts && from <= i < e ==> !OccursAt(upper, t, i)
    ensures e == n || exists t :: t in ts && OccursAt(upper, t, e)
  {
    if ts == [] then n
    else
      var init, last := ts[..|ts| - 1], ts[|ts| - 1];
      var e := SectionEnd(upper, from, init, n);
      var b := FindFrom(upper, last, from);
      assert forall t :: t in ts ==> t in init || t == last;
      if b != -1 && b < e then b else e
  }

  /** The loop over the terminators of a header page. */
  method FindSectionEnd(upper: string, from: nat, ts: seq<string>) returns (e: nat)
    ensures e == SectionEnd(upper, from, ts, |upper|)
  {
    e := |upper|;
    for i := 0 to |ts|
      invariant e == SectionEnd(upper, from, ts[..i], |upper|)
    {
      var b := FindFrom(upper, ts[i], from);
      if b != -1 && b < e {
        e := b;
      }
      assert ts[..i + 1][..i] == ts[..i];
    }
    assert ts[..|ts|] == ts;
  }

  /** `start_idx` and `end_idx` of a header page whose header is `h` and whose terminators are `ts`. */
  method LocateSection(upper: string, h: string, ts: seq<string>) returns (start: nat, end: nat)
    requires Contains(upper, h)
    ensures start == Bounds(upper, h, ts).0 && end == Bounds(upper, h, ts).1
  {
    FindIffContains(upper, h);
    start := FindFrom(upper, h, 0);
    end := FindSectionEnd(upper, start + |h|, ts);
  }

  /** The section opened by header `h`: it starts at the first occurrence of `h` and ends at
      the least position, after `h`, of one of the terminators `ts`, or at the end of the page. */
  function Bounds(upper: string, h: string, ts: seq<string>): (b: (nat, nat))
    requires Contains(upper, h)
    ensures b.0 + |h| <= b.1 <= |upper|
  {
    FindIffContains(upper, h);
    var start := FindFrom(upper, h, 0);
    (start, SectionEnd(upper, start + |h|, ts, |upper|))
  }

  /** The section starts at the first occurrence of the header and ends at the first
      terminator after it, or at the end of the page. */
  lemma BoundsMeaning(upper: string, h: string, ts: seq<string>)
    requires Contains(upper, h)
    ensures var b := Bounds(upper, h, ts);
      && OccursAt(upper, h, b.0)
      && (forall i :: 0 <= i < b.0 ==> !OccursAt(upper, h, i))
      && (forall t, i :: t in ts && b.0 + |h| <= i < b.1 ==> !OccursAt(upper, t, i))
      && (b.1 == |upper| || exists t :: t in ts && OccursAt(upper, t, b.1))
  {
    FindIffContains(upper, h);
  }

  /** The section of table `k` on a page where its header occurs. */
  function SectionBounds(upper: string, k: TableKind): (nat, nat)
    requires Contains(upper, Header(k))
  {
    Bounds(upper, Header(k), Terminators(k))
  }

  /** The loops of `_extract_structured_data`: every accepted row of every table
      with more than one row, in order. */
  method CollectStructured(pts: seq<Table>) returns (rows: seq<RawRow>)
    ensures rows == StructuredRows(pts)
  {
    rows := [];
    for i := 0 to |pts|
      invariant rows == StructuredRows(pts[..i])
    {
      var t := pts[i];
      StructuredRowsSnoc(pts, i);
      if |t| > 1 {
        var more := CollectTableRows(t);
        rows := rows + more;
      }
    }
    assert pts[..|pts|] == pts;
  }

  /** The inner loop of `_extract_structured_data`, over the rows of one table. */
  method CollectTableRows(t: Table) returns (rows: seq<RawRow>)
    ensures rows == TableRows(t)
  {
    rows := [];
    for j := 0 to |t|
      invariant rows == TableRows(t[..j])
    {
      var row := t[j];
      TableRowsSnoc(t, j);
      if AcceptsRow(row) {
        rows := rows + [CleanRow(row)];
      }
    }
    assert t[..|t|] == t;
  }

  /** The loop of `_extract_text_data`: the text rows with an index in 2..50 that
      `existing` does not hold, in order. */
  method CollectNewTextRows(existing: set<int>, data: seq<RawRow>) returns (kept: seq<RawRow>)
    ensures kept == NewTextRows(existing, data)
  {
    kept := [];
    for i := 0 to |data|
      invariant kept == NewTextRows(existing, data[..i])
    {
      var r := data[i];
      assert data[..i + 1] == data[..i] + [r];
      FilterSnoc(data[..i], r, Keeps(existing));
      if KeepsTextRow(existing, r) {
        kept := kept + [r];
      }
    }
    assert data[..|data|] == data;
  }

  /** Rows of one page appended to table `k`: the structured rows, then the rows the text merge keeps. */
  function ExtractInto(tables: map<TableKind, seq<RawRow>>, k: TableKind, page: Page, text: string, find: Finder): map<TableKind, seq<RawRow>>
    requires k in tables
  {
    WithText(WithStructured(tables, k, page.tables), k, text, find)
  }

  /** A header found on the page: its section is extracted and `k` becomes the active table. */
  function VisitHeader(s: State, page: Page, k: TableKind, find: Finder): State
    requires k in s.tables
    requires Contains(Upper(page.text), Header(k))
  {
    var b := SectionBounds(Upper(page.text), k);
    State(ExtractInto(s.tables, k, page, page.text[b.0..b.1], find), Some(k))
  }

  /** The header loop over the first `n` kinds of `SupportedTables`. */
  function HeaderPass(s: State, page: Page, find: Finder, n: nat): (r: State)
    requires Complete(s.tables) && n <= |SupportedTables|
    ensures Complete(r.tables)
  {
    if n == 0 then s
    else
      var r := HeaderPass(s, page, find, n - 1);
      var k := SupportedTables[n - 1];
      if Contains(Upper(page.text), Header(k)) then VisitHeader(r, page, k, find) else r
  }

  /** What a page does after its header loop: either the whole page is extracted again for
      the active table (no terminator of it on the page, or the Harmonic Current Daily
      "HARMONIC 5:" exception), or the active table is cleared. */
  function AfterHeaders(h: State, page: Page, find: Finder): (r: State)
    requires Complete(h.tables)
    ensures Complete(r.tables)
  {
    match h.active
    case None => h
    case Some(k) =>
      if StaysActive(Upper(page.text), k) then
        State(ExtractInto(h.tables, k, page, page.text, find), h.active)
      else State(h.tables, None)
  }

  /** The active table `k` stays active on a page: none of its terminators is on the page,
      or it is Harmonic Current Daily and the page mentions "HARMONIC 5:". */
  predicate StaysActive(upper: string, k: TableKind) {
    !BoundaryHit(upper, k) || (k == CurrentDaily && Contains(upper, Harmonic5Marker))
  }

  /** One page: the header loop, then the active-table continuation. */
  function Step(s: State, page: Page, find: Finder): (r: State)
    requires Complete(s.tables)
    ensures Complete(r.tables)
  {
    AfterHeaders(HeaderPass(s, page, find, |SupportedTables|), page, find)
  }

  /** The pages, one `Step` after another. */
  function Steps(s: State, pages: seq<Page>, find: Finder): (r: State)
    requires Complete(s.tables)
    ensures Complete(r.tables)
  {
    if pages == [] then s else Step(Steps(s, pages[..|pages| - 1], find), pages[|pages| - 1], find)
  }

  /** `extract_tables_from_pdf`: every page but the first, from the initial state. */
  function ExtractTables(pages: seq<Page>, find: Finder): (tables: map<TableKind, seq<RawRow>>)
    ensures Complete(tables)
    ensures forall k: TableKind, r :: r in tables[k] ==> Extracted(r)
    ensures |pages| <= 1 ==> forall k: TableKind :: tables[k] == []
  {
    if |pages| <= 1 then Initial().tables
    else
      StepsExtracted(Initial(), pages[1..], find);
      Steps(Initial(), pages[1..], find).tables
  }

  /** The extractor's mutable state: `tables` and `active_table`. */
  class Extractor {
    var tables: map<TableKind, seq<RawRow>>
    var active: Option<TableKind>

    predicate Valid()
      reads this
    {
      Complete(tables)
    }

    function Snapshot(): State
      reads this
    {
      State(tables, active)
    }

    constructor ()
      ensures Valid() && Snapshot() == Initial()
    {
      tables := Initial().tables;
      active := None;
    }

    /** `_extract_structured_data(page_tables, tables, k)`. */
    method AppendStructured(pts: seq<Table>, k: TableKind)
      requires Valid()
      modifies this
      ensures Valid() && active == old(active)
      ensures tables == WithStructured(old(tables), k, pts)
    {
      var rows := CollectStructured(pts);
      tables := tables[k := tables[k] + rows];
    }

    /** `_extract_text_data(text, tables, k)`. */
    method AppendText(text: string, k: TableKind, find: Finder)
      requires Valid()
      modifies this
      ensures Valid() && active == old(active)
      ensures tables == WithText(old(tables), k, text, find)
    {
      var data := ExtractTableDataFromText(text, true, find);
      var kept := CollectNewTextRows(ExistingIndices(tables[k]), data);
      tables := tables[k := tables[k] + kept];
    }

    /** The header branch of the page loop for table `k`. */
    method VisitHeaderOf(page: Page, k: TableKind, find: Finder)
      requires Valid() && Contains(Upper(page.text), Header(k))
      modifies this
      ensures Valid() && Snapshot() == VisitHeader(old(Snapshot()), page, k, find)
    {
      var start, end := LocateSection(Upper(page.text), Header(k), Terminators(k));
      active := Some(k);
      AppendStructured(page.tables, k);
      AppendText(page.text[start..end], k, find);
    }

    /** The header loop of one page, over `SupportedTables` in order. */
    method VisitHeaders(page: Page, find: Finder)
      requires Valid()
      modifies this
      ensures Valid() && Snapshot() == HeaderPass(old(Snapshot()), page, find, |SupportedTables|)
    {
      var upper := Upper(page.text);
      for n := 0 to |SupportedTables|
        invariant Valid() && Snapshot() == HeaderPass(old(Snapshot()), page, find, n)
      {
        var k := SupportedTables[n];
        if Contains(upper, Header(k)) {
          VisitHeaderOf(page, k, find);
        }
      }
    }

    /** The end of the page loop's body, after the header loop. */
    method ContinueActive(page: Page, find: Finder)
      requires Valid()
      modifies this
      ensures Valid() && Snapshot() == AfterHeaders(old(Snapshot()), page, find)
    {
      if active.Some? {
        var k := active.value;
        var stays := CheckStaysActive(Upper(page.text), k);
        if stays {
          AppendStructured(page.tables, k);
          AppendText(page.text, k, find);
        } else {
          active := None;
        }
      }
    }

    /** One iteration of the page loop. */
    method ProcessPage(page: Page, find: Finder)
      requires Valid()
      modifies this
      ensures Valid() && Snapshot() == Step(old(Snapshot()), page, find)
    {
      VisitHeaders(page, find);
      ContinueActive(page, find);
    }
  }

  /** `extract_tables_from_pdf` over an already parsed document. */
  method ExtractTablesFromPdf(pages: seq<Page>, find: Finder) returns (tables: map<TableKind, seq<RawRow>>)
    ensures tables == ExtractTables(pages, find)
  {
    if |pages| <= 1 {
      return Initial().tables;
    }
    var x := new Extractor();
    for p := 1 to |pages|
      invariant x.Valid() && x.Snapshot() == Steps(Initial(), pages[1..p], find)
    {
      x.ProcessPage(pages[p], find);
      assert pages[1..p + 1] == pages[1..p] + [pages[p]];
      assert pages[1..p + 1][..p - 1] == pages[1..p];
    }
    assert pages[1..|pages|] == pages[1..];
    tables := x.tables;
  }

  /** No header of the first `n` kinds on the page: the header loop changes nothing. */
  predicate NoHeaderAmong(page: Page, n: nat)
    requires n <= |SupportedTables|
  {
    forall i :: 0 <= i < n ==> !Contains(Upper(page.text), Header(SupportedTables[i]))
  }

  lemma {:induction false} HeaderPassWithoutHeaders(s: State, page: Page, find: Finder, n: nat)
    requires Complete(s.tables) && n <= |SupportedTables| && NoHeaderAmong(page, n)
    ensures HeaderPass(s, page, find, n) == s
  {
    if n > 0 {
      HeaderPassWithoutHeaders(s, page, find, n - 1);
    }
  }

  /** When several headers are on one page, the last one tried stays active. */
  lemma {:induction false} LastHeaderActive(s: State, page: Page, find: Finder, n: nat, i: nat)
    requires Complete(s.tables) && i < n <= |SupportedTables|
    requires Contains(Upper(page.text), Header(SupportedTables[i]))
    requires forall j :: i < j < n ==> !Contains(Upper(page.text), Header(SupportedTables[j]))
    ensures HeaderPass(s, page, find, n).active == Some(SupportedTables[i])
  {
    if n - 1 > i {
      LastHeaderActive(s, page, find, n - 1, i);
    }
  }

  /** The active table persists across a page without headers that holds none of its terminators,
      and the whole page is extracted for it. */
  lemma ActivePersists(s: State, page: Page, find: Finder, k: TableKind)
    requires Complete(s.tables) && s.active == Some(k)
    requires NoHeaderAmong(page, |SupportedTables|)
    requires !BoundaryHit(Upper(page.text), k)
    ensures Step(s, page, find) == State(ExtractInto(s.tables, k, page, page.text, find), Some(k))
  {
    HeaderPassWithoutHeaders(s, page, find, |SupportedTables|);
  }

  /** A page without headers that holds a terminator of the active table clears it, and adds
      no rows, unless the Harmonic Current Daily exception applies. */
  lemma ActiveCleared(s: State, page: Page, find: Finder, k: TableKind)
    requires Complete(s.tables) && s.active == Some(k)
    requires NoHeaderAmong(page, |SupportedTables|)
    requires BoundaryHit(Upper(page.text), k)
    requires !(k == CurrentDaily && Contains(Upper(page.text), Harmonic5Marker))
    ensures Step(s, page, find) == State(s.tables, None)
  {
    HeaderPassWithoutHeaders(s, page, find, |SupportedTables|);
  }

  /** Harmonic Current Daily stays active on a page that mentions "HARMONIC 5:", whatever
      terminators the page holds, and the page is extracted for it. */
  lemma Harmonic5KeepsCurrentDaily(s: State, page: Page, find: Finder)
    requires Complete(s.tables) && s.active == Some(CurrentDaily)
    requires NoHeaderAmong(page, |SupportedTables|)
    requires Contains(Upper(page.text), Harmonic5Marker)
    ensures Step(s, page, find) == State(ExtractInto(s.tables, CurrentDaily, page, page.text, find), Some(CurrentDaily))
  {
    HeaderPassWithoutHeaders(s, page, find, |SupportedTables|);
  }

  /** With no active table, a page without headers changes nothing. */
  lemma InactivePageIgnored(s: State, page: Page, find: Finder)
    requires Complete(s.tables) && s.active.None?
    requires NoHeaderAmong(page, |SupportedTables|)
    ensures Step(s, page, find) == s
  {
    HeaderPassWithoutHeaders(s, page, find, |SupportedTables|);
  }

  /** On a header page the last header found is active afterwards, unless the page also
      holds one of its terminators; then no table is (barring the "HARMONIC 5:" exception). */
  lemma HeaderPageActive(s: State, page: Page, find: Finder, i: nat)
    requires Complete(s.tables) && i < |SupportedTables|
    requires Contains(Upper(page.text), Header(SupportedTables[i]))
    requires forall j :: i < j < |SupportedTables| ==> !Contains(Upper(page.text), Header(SupportedTables[j]))
    ensures var k, upper := SupportedTables[i], Upper(page.text);
      Step(s, page, find).active == (if !BoundaryHit(upper, k) || (k == CurrentDaily && Contains(upper, Harmonic5Marker)) then Some(k) else None)
  {
    LastHeaderActive(s, page, find, |SupportedTables|, i);
  }

  /** Every gathered row has a digit-only or an `int` index in 2..50. */
  predicate AllExtracted(tables: map<TableKind, seq<RawRow>>)
    requires Complete(tables)
  {
    forall k: TableKind, r :: r in tables[k] ==> Extracted(r)
  }

  lemma ExtractIntoExtracted(tables: map<TableKind, seq<RawRow>>, k: TableKind, page: Page, text: string, find: Finder)
    requires Complete(tables) && AllExtracted(tables)
    ensures Complete(ExtractInto(tables, k, page, text, find))
    ensures AllExtracted(ExtractInto(tables, k, page, text, find))
  {
    var w := WithStructured(tables, k, page.tables);
    var t := ExtractInto(tables, k, page, text, find);
    assert w[k] == tables[k] + StructuredRows(page.tables);
    assert t[k] == w[k] + t[k][|w[k]|..];
    forall j: TableKind, r | r in t[j] ensures Extracted(r) {
      if j == k && r !in w[k] {
        assert r in t[k][|w[k]|..];
      }
    }
  }

  lemma {:induction false} HeaderPassExtracted(s: State, page: Page, find: Finder, n: nat)
    requires Complete(s.tables) && AllExtracted(s.tables) && n <= |SupportedTables|
    ensures AllExtracted(HeaderPass(s, page, find, n).tables)
  {
    if n > 0 {
      HeaderPassExtracted(s, page, find, n - 1);
      var r := HeaderPass(s, page, find, n - 1);
      var k := SupportedTables[n - 1];
      if Contains(Upper(page.text), Header(k)) {
        ExtractIntoExtracted(r.tables, k, page, page.text[SectionBounds(Upper(page.text), k).0..SectionBounds(Upper(page.text), k).1], find);
      }
    }
  }

  lemma StepExtracted(s: State, page: Page, find: Finder)
    requires Complete(s.tables) && AllExtracted(s.tables)
    ensures AllExtracted(Step(s, page, find).tables)
  {
    HeaderPassExtracted(s, page, find, |SupportedTables|);
    var h := HeaderPass(s, page, find, |SupportedTables|);
    if h.active.Some? {
      ExtractIntoExtracted(h.tables, h.active.value, page, page.text, find);
    }
  }

  /** Only rows either extractor produces are ever gathered. */
  lemma {:induction false} StepsExtracted(s: State, pages: seq<Page>, find: Finder)
    requires Complete(s.tables) && AllExtracted(s.tables)
    ensures AllExtracted(Steps(s, pages, find).tables)
  {
    if pages != [] {
      StepsExtracted(s, pages[..|pages| - 1], find);
      StepExtracted(Steps(s, pages[..|pages| - 1], find), pages[|pages| - 1], find);
    }
  }

  /** Tables only grow at their end. */
  predicate Grows(a: map<TableKind, seq<RawRow>>, b: map<TableKind, seq<RawRow>>)
    requires Complete(a) && Complete(b)
  {
    forall k: TableKind :: a[k] <= b[k]
  }

  lemma ExtractIntoGrows(tables: map<TableKind, seq<RawRow>>, k: TableKind, page: Page, text: string, find: Finder)
    requires Complete(tables)
    ensures Complete(ExtractInto(tables, k, page, text, find))
    ensures Grows(tables, ExtractInto(tables, k, page, text, find))
  {
    ExtractionOnlyAppends(tables, k, page.tables, text, find);
  }

  lemma {:induction false} HeaderPassGrows(s: State, page: Page, find: Finder, n: nat)
    requires Complete(s.tables) && n <= |SupportedTables|
    ensures Grows(s.tables, HeaderPass(s, page, find, n).tables)
  {
    if n > 0 {
      HeaderPassGrows(s, page, find, n - 1);
      var r := HeaderPass(s, page, find, n - 1);
      var k := SupportedTables[n - 1];
      if Contains(Upper(page.text), Header(k)) {
        ExtractIntoGrows(r.tables, k, page, page.text[SectionBounds(Upper(page.text), k).0..SectionBounds(Upper(page.text), k).1], find);
      }
    }
  }

  /** A page never removes or changes rows already gathered: every table only grows at its end. */
  lemma StepGrows(s: State, page: Page, find: Finder)
    requires Complete(s.tables)
    ensures Grows(s.tables, Step(s, page, find).tables)
  {
    HeaderPassGrows(s, page, find, |SupportedTables|);
    var h := HeaderPass(s, page, find, |SupportedTables|);
    if h.active.Some? {
      ExtractIntoGrows(h.tables, h.active.value, page, page.text, find);
    }
  }

  /** The first page never contributes rows. */
  lemma FirstPageSkipped(p: Page, q: Page, rest: seq<Page>, find: Finder)
    ensures ExtractTables([p] + rest, find) == ExtractTables([q] + rest, find)
  {
    assert ([p] + rest)[1..] == rest;
    assert ([q] + rest)[1..] == rest;
  }
}
