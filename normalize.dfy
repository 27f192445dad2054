/** The validator `process_table_data`: numeric coercion of N, the fundamental
    and range filters, `drop_duplicates` on (N, raw `[%]`), the list of missing
    harmonics, and the numeric coercion of the value columns with `dropna`. */
module Normalize {
  import opened Wrappers
  import opened Strings
  import opened Numbers
  import opened Seqs
  import opened Rows

  /** A validated row: the six numeric columns as numbers, the three results as text. */
  datatype Row = Row(n: real, pct: real, regMax: real,
                     m1: real, m2: real, m3: real,
                     r1: string, r2: string, r3: string)

  /** `pd.to_numeric(df['N'], errors='coerce')` on one cell; `None` is NaN. */
  function CoerceIndex(c: IndexCell): Option<real> {
    match c
    case Text(s) => ParseDecimal(s)
    case Whole(v) => Some(v as real)
  }

  /** The row passes the index filters: N is numeric, it is not 1, and it lies in 2..50. */
  predicate IndexKept(r: RawRow) {
    var n := CoerceIndex(r.index);
    n.Some? && n.value != 1.0 && 2.0 <= n.value <= 50.0
  }

  /** The `drop_duplicates(subset=['N', '[%]'])` key: numeric N and the `[%]` text as extracted. */
  function Key(r: RawRow): (real, string) {
    (CoerceIndex(r.index).GetOr(0.0), r.pct)
  }

  /** `drop_duplicates` keeping the first row of each key, where the keys in `seen` are already taken. */
  function DedupFrom(rows: seq<RawRow>, seen: set<(real, string)>): (r: seq<RawRow>)
    ensures |r| <= |rows|
    ensures forall x :: x in r ==> x in rows && Key(x) !in seen
  {
    if rows == [] then []
    else if Key(rows[0]) in seen then DedupFrom(rows[1..], seen)
    else [rows[0]] + DedupFrom(rows[1..], seen + {Key(rows[0])})
  }

  /** No two rows share a key. */
  predicate UniqueKeys(rows: seq<RawRow>) {
    forall i, j :: 0 <= i < j < |rows| ==> Key(rows[i]) != Key(rows[j])
  }

  /** `drop_duplicates(subset=['N', '[%]'])`: after it no two rows share (numeric N,
      raw `[%]` text), and the rows kept are input rows in input order. */
  function Dedup(rows: seq<RawRow>): (r: seq<RawRow>)
    ensures UniqueKeys(r)
    ensures Subseq(r, rows)
  {
    DedupFromUnique(rows, {});
    DedupFromSubseq(rows, {});
    DedupFrom(rows, {})
  }

  lemma {:induction false} DedupFromUnique(rows: seq<RawRow>, seen: set<(real, string)>)
    ensures UniqueKeys(DedupFrom(rows, seen))
  {
    if rows != [] {
      var k := Key(rows[0]);
      if k in seen {
        DedupFromUnique(rows[1..], seen);
      } else {
        var rest := DedupFrom(rows[1..], seen + {k});
        DedupFromUnique(rows[1..], seen + {k});
        var r := [rows[0]] + rest;
        forall i, j | 0 <= i < j < |r| ensures Key(r[i]) != Key(r[j]) {
          if i == 0 {
            assert r[j] in rest;
          } else {
            assert r[i] == rest[i - 1] && r[j] == rest[j - 1];
          }
        }
      }
    }
  }

  lemma {:induction false} DedupFromSubseq(rows: seq<RawRow>, seen: set<(real, string)>)
    ensures Subseq(DedupFrom(rows, seen), rows)
  {
    if rows != [] {
      var k := Key(rows[0]);
      if k in seen {
        DedupFromSubseq(rows[1..], seen);
      } else {
        DedupFromSubseq(rows[1..], seen + {k});
        var r := DedupFrom(rows, seen);
        assert r[0] == rows[0] && r[1..] == DedupFrom(rows[1..], seen + {k});
      }
    }
  }

  lemma {:induction false} DedupFromKeys(rows: seq<RawRow>, seen: set<(real, string)>, x: RawRow)
    requires x in rows && Key(x) !in seen
    ensures exists y :: y in DedupFrom(rows, seen) && Key(y) == Key(x)
  {
    var k := Key(rows[0]);
    if x == rows[0] {
      assert rows[0] in DedupFrom(rows, seen);
    } else {
      assert x in rows[1..];
      if k in seen {
        DedupFromKeys(rows[1..], seen, x);
      } else if Key(x) == k {
        assert rows[0] in DedupFrom(rows, seen);
      } else {
        DedupFromKeys(rows[1..], seen + {k}, x);
        var y :| y in DedupFrom(rows[1..], seen + {k}) && Key(y) == Key(x);
        assert y in DedupFrom(rows, seen);
      }
    }
  }

  lemma {:induction false} DedupFromFirst(rows: seq<RawRow>, seen: set<(real, string)>, y: RawRow)
    requires y in DedupFrom(rows, seen)
    ensures exists i :: 0 <= i < |rows| && rows[i] == y && forall j :: 0 <= j < i ==> Key(rows[j]) != Key(y)
  {
    var k := Key(rows[0]);
    if k in seen {
      DedupFromFirst(rows[1..], seen, y);
      var i :| 0 <= i < |rows[1..]| && rows[1..][i] == y && forall j :: 0 <= j < i ==> Key(rows[1..][j]) != Key(y);
      assert rows[i + 1] == y;
      forall j | 0 <= j < i + 1 ensures Key(rows[j]) != Key(y) {
        if j > 0 {
          assert rows[j] == rows[1..][j - 1];
        }
      }
    } else if y == rows[0] {
      assert rows[0] == y;
    } else {
      assert y in DedupFrom(rows[1..], seen + {k});
      DedupFromFirst(rows[1..], seen + {k}, y);
      var i :| 0 <= i < |rows[1..]| && rows[1..][i] == y && forall j :: 0 <= j < i ==> Key(rows[1..][j]) != Key(y);
      assert rows[i + 1] == y;
      forall j | 0 <= j < i + 1 ensures Key(rows[j]) != Key(y) {
        if j > 0 {
          assert rows[j] == rows[1..][j - 1];
        }
      }
    }
  }

  /** `drop_duplicates` keeps, in order, exactly the first row of every key. */
  lemma Deduplicated(rows: seq<RawRow>)
    ensures forall x :: x in rows ==> exists y :: y in Dedup(rows) && Key(y) == Key(x)
    ensures forall y :: y in Dedup(rows) ==>
      exists i :: 0 <= i < |rows| && rows[i] == y && forall j :: 0 <= j < i ==> Key(rows[j]) != Key(y)
  {
    forall x | x in rows ensures exists y :: y in Dedup(rows) && Key(y) == Key(x) {
      DedupFromKeys(rows, {}, x);
    }
    forall y | y in Dedup(rows)
      ensures exists i :: 0 <= i < |rows| && rows[i] == y && forall j :: 0 <= j < i ==> Key(rows[j]) != Key(y)
    {
      DedupFromFirst(rows, {}, y);
    }
  }

  /** Every value column parses: `[%]`, Reg Max and the three measured values. */
  predicate Coercible(r: RawRow) {
    && ParseDecimal(r.pct).Some? && ParseDecimal(r.regMax).Some?
    && ParseDecimal(r.m1).Some? && ParseDecimal(r.m2).Some? && ParseDecimal(r.m3).Some?
  }

  /** The raw rows behind the output, in order: index filters, then `drop_duplicates`, then `dropna`. */
  function Survivors(raw: seq<RawRow>): (s: seq<RawRow>)
    ensures forall r :: r in s ==> IndexKept(r) && Coercible(r)
  {
    Filter(Dedup(Filter(raw, IndexKept)), Coercible)
  }

  /** The validated form of a surviving row. */
  function ToRow(r: RawRow): (row: Row)
    requires IndexKept(r) && Coercible(r)
    ensures 2.0 <= row.n <= 50.0
  {
    Row(CoerceIndex(r.index).value, ParseDecimal(r.pct).value, ParseDecimal(r.regMax).value,
        ParseDecimal(r.m1).value, ParseDecimal(r.m2).value, ParseDecimal(r.m3).value,
        r.r1, r.r2, r.r3)
  }

  /** `process_table_data`. */
  function Process(raw: seq<RawRow>): (out: seq<Row>)
    ensures raw == [] ==> out == []
    ensures forall r :: r in out ==> 2.0 <= r.n <= 50.0
  {
    if raw == [] then []
    else
      var s := Survivors(raw);
      seq(|s|, i requires 0 <= i < |s| => ToRow(s[i]))
  }

  /** The output is the survivors, validated one for one. */
  lemma ProcessIsSurvivors(raw: seq<RawRow>)
    ensures |Process(raw)| == |Survivors(raw)|
    ensures forall i :: 0 <= i < |Process(raw)| ==> Process(raw)[i] == ToRow(Survivors(raw)[i])
  {
  }

  /** The surviving rows keep their input order, and no two share (N, raw `[%]`). */
  lemma SurvivorsOrderedAndUnique(raw: seq<RawRow>)
    ensures Subseq(Survivors(raw), raw)
    ensures UniqueKeys(Survivors(raw))
  {
    var kept := Filter(raw, IndexKept);
    var d := Dedup(kept);
    FilterIsSubseq(raw, IndexKept);
    SubseqTrans(d, kept, raw);
    FilterIsSubseq(d, Coercible);
    SubseqTrans(Survivors(raw), d, raw);
    FilterKeepsUnique(d, Coercible);
  }

  lemma {:induction false} FilterKeepsUnique(rows: seq<RawRow>, p: RawRow -> bool)
    requires UniqueKeys(rows)
    ensures UniqueKeys(Filter(rows, p))
  {
    if rows != [] {
      FilterKeepsUnique(rows[1..], p);
      var rest := Filter(rows[1..], p);
      if p(rows[0]) {
        var r := [rows[0]] + rest;
        forall i, j | 0 <= i < j < |r| ensures Key(r[i]) != Key(r[j]) {
          if i == 0 {
            assert r[j] in rows[1..];
            var k :| 0 <= k < |rows[1..]| && rows[1..][k] == r[j];
            assert rows[k + 1] == r[j];
          } else {
            assert r[i] == rest[i - 1] && r[j] == rest[j - 1];
          }
        }
      }
    }
  }

  /** No two output rows share N and the raw `[%]` they were read from. */
  lemma ProcessUnique(raw: seq<RawRow>)
    ensures var out, s := Process(raw), Survivors(raw);
      forall i, j :: 0 <= i < j < |out| ==> !(out[i].n == out[j].n && s[i].pct == s[j].pct)
  {
    ProcessIsSurvivors(raw);
    SurvivorsOrderedAndUnique(raw);
  }

  /** `int(N)` of a validated N (which is positive, so truncation is the floor). */
  function Harmonic(n: real): int {
    if n >= 0.0 then n.Floor else -((-n).Floor)
  }

  /** `set(df['N'].astype(int))` after `drop_duplicates`. */
  function FoundHarmonics(rows: seq<RawRow>): set<int> {
    set r | r in rows && IndexKept(r) :: Harmonic(CoerceIndex(r.index).value)
  }

  /** `sorted(EXPECTED_HARMONICS - found)` restricted to `lo..50`. */
  function MissingFrom(found: set<int>, lo: int): (m: seq<int>)
    requires 2 <= lo <= 51
    ensures forall x :: x in m <==> lo <= x <= 50 && x !in found
    ensures forall i, j :: 0 <= i < j < |m| ==> m[i] < m[j]
    decreases 51 - lo
  {
    if lo == 51 then []
    else
      var rest := MissingFrom(found, lo + 1);
      var m := (if lo in found then [] else [lo]) + rest;
      assert forall x :: x in m <==> x in rest || (x == lo && lo !in found);
      assert forall j :: 0 <= j < |rest| ==> lo < rest[j] by {
        forall j | 0 <= j < |rest| ensures lo < rest[j] {
          assert rest[j] in rest;
        }
      }
      m
  }

  /** The missing harmonics: the indices 2..50 that no row of the deduplicated table has, ascending. */
  function Missing(raw: seq<RawRow>): (m: seq<int>)
    ensures forall h :: h in m ==> 2 <= h <= 50
    ensures forall i, j :: 0 <= i < j < |m| ==> m[i] < m[j]
  {
    MissingFrom(FoundHarmonics(Dedup(Filter(raw, IndexKept))), 2)
  }

  /** An index is reported missing exactly when no row that passes the index filters has it. */
  lemma MissingIffAbsent(raw: seq<RawRow>, h: int)
    ensures h in Missing(raw) <==>
      2 <= h <= 50 && forall r :: r in raw && IndexKept(r) ==> Harmonic(CoerceIndex(r.index).value) != h
  {
    var kept := Filter(raw, IndexKept);
    Deduplicated(kept);
    if exists r :: r in raw && IndexKept(r) && Harmonic(CoerceIndex(r.index).value) == h {
      var r :| r in raw && IndexKept(r) && Harmonic(CoerceIndex(r.index).value) == h;
      assert r in kept;
      var y :| y in Dedup(kept) && Key(y) == Key(r);
      assert y in kept;
      assert CoerceIndex(y.index).value == CoerceIndex(r.index).value;
      assert h in FoundHarmonics(Dedup(kept));
    }
  }

  /** A row either extractor produces passes the index filters, and its numeric N is a whole
      number: a structured index is all digits and a text index is an `int`. */
  lemma ExtractedIndexWhole(r: RawRow)
    requires Extracted(r)
    ensures IndexKept(r)
    ensures CoerceIndex(r.index).value == CoerceIndex(r.index).value.Floor as real
  {
    if r.index.Text? {
      ParseDigits(r.index.text);
    }
  }

  /** Validating extracted rows yields whole-number harmonic orders only. */
  lemma ProcessWhole(raw: seq<RawRow>)
    requires forall r :: r in raw ==> Extracted(r)
    ensures forall x :: x in Process(raw) ==> x.n == x.n.Floor as real
  {
    var out, s := Process(raw), Survivors(raw);
    forall x | x in out ensures x.n == x.n.Floor as real {
      var i :| 0 <= i < |out| && out[i] == x;
      assert s[i] in raw;
      ExtractedIndexWhole(s[i]);
    }
  }
}
