/** `split_table`: the validated rows of one table split by percentile (95 and
    99) and, each sorted by N, into odd and even harmonics. */
module Splitter {
  import opened Seqs
  import opened Normalize
  import Config
  import Rows
  import Locator

  /** Python's `x % 2` on a float (floored remainder). */
  function Mod2(x: real): (m: real)
    ensures 0.0 <= m < 2.0
  {
    x - 2.0 * ((x / 2.0).Floor as real)
  }

  predicate IsOdd(r: Row) { Mod2(r.n) == 1.0 }

  predicate IsEven(r: Row) { Mod2(r.n) == 0.0 }

  predicate Is95(r: Row) { r.pct == 95.0 }

  predicate Is99(r: Row) { r.pct == 99.0 }

  predicate SortedByN(rows: seq<Row>) {
    forall i, j :: 0 <= i < j < |rows| ==> rows[i].n <= rows[j].n
  }

  /** `x` placed before the first row with a larger N. */
  function Insert(x: Row, s: seq<Row>): (r: seq<Row>)
    ensures multiset(r) == multiset(s) + multiset{x}
  {
    if s == [] then [x]
    else if x.n <= s[0].n then [x] + s
    else
      assert s == [s[0]] + s[1..];
      [s[0]] + Insert(x, s[1..])
  }

  /** Inserting into a sequence sorted by N keeps it sorted. */
  lemma {:induction false} InsertSorted(x: Row, s: seq<Row>)
    requires SortedByN(s)
    ensures SortedByN(Insert(x, s))
  {
    if s != [] && x.n > s[0].n {
      var rest := Insert(x, s[1..]);
      InsertSorted(x, s[1..]);
      var r := [s[0]] + rest;
      forall i, j | 0 <= i < j < |r| ensures r[i].n <= r[j].n {
        if i == 0 {
          assert r[j] in multiset(rest);
          assert r[j] == x || r[j] in s[1..];
        } else {
          assert r[i] == rest[i - 1] && r[j] == rest[j - 1];
        }
      }
    }
  }

  /** `sort_values("N")`: the same rows, ascending in N. */
  function SortByN(rows: seq<Row>): (r: seq<Row>)
    ensures SortedByN(r)
    ensures multiset(r) == multiset(rows)
  {
    if rows == [] then []
    else
      assert rows == [rows[0]] + rows[1..];
      var t := SortByN(rows[1..]);
      InsertSorted(rows[0], t);
      Insert(rows[0], t)
  }

  datatype Halves = Halves(odd: seq<Row>, even: seq<Row>)

  /** The result of `split_table`: the "95" and the "99" pair. */
  datatype Split = Split(p95: Halves, p99: Halves)

  /** `split_odd_even`: each half ascending in N, holding input rows of its parity only. */
  function SplitOddEven(rows: seq<Row>): (h: Halves)
    ensures SortedByN(h.odd) && SortedByN(h.even)
    ensures forall r :: r in h.odd ==> r in rows && IsOdd(r)
    ensures forall r :: r in h.even ==> r in rows && IsEven(r)
  {
    if rows == [] then Halves([], [])
    else
      var s := SortByN(rows);
      FilterSorted(s, IsOdd);
      FilterSorted(s, IsEven);
      assert forall r :: r in s ==> r in multiset(s);
      Halves(Filter(s, IsOdd), Filter(s, IsEven))
  }

  /** `split_table`: four outputs, each ascending in N and holding input rows of its
      percentile and parity only. */
  function SplitTable(rows: seq<Row>): (sp: Split)
    ensures SortedByN(sp.p95.odd) && SortedByN(sp.p95.even)
    ensures SortedByN(sp.p99.odd) && SortedByN(sp.p99.even)
    ensures forall r :: r in sp.p95.odd ==> r in rows && Is95(r) && IsOdd(r)
    ensures forall r :: r in sp.p95.even ==> r in rows && Is95(r) && IsEven(r)
    ensures forall r :: r in sp.p99.odd ==> r in rows && Is99(r) && IsOdd(r)
    ensures forall r :: r in sp.p99.even ==> r in rows && Is99(r) && IsEven(r)
  {
    if rows == [] then Split(Halves([], []), Halves([], []))
    else Split(SplitOddEven(Filter(rows, Is95)), SplitOddEven(Filter(rows, Is99)))
  }

  lemma {:induction false} FilterSorted(s: seq<Row>, p: Row -> bool)
    requires SortedByN(s)
    ensures SortedByN(Filter(s, p))
  {
    if s != [] {
      FilterSorted(s[1..], p);
      var rest := Filter(s[1..], p);
      if p(s[0]) {
        var r := [s[0]] + rest;
        forall i, j | 0 <= i < j < |r| ensures r[i].n <= r[j].n {
          if i == 0 {
            assert r[j] in s[1..];
          } else {
            assert r[i] == rest[i - 1] && r[j] == rest[j - 1];
          }
        }
      }
    }
  }

  /** A row is in a half exactly when it is an input row of that parity. */
  lemma HalvesMember(rows: seq<Row>, r: Row)
    ensures r in SplitOddEven(rows).odd <==> r in rows && IsOdd(r)
    ensures r in SplitOddEven(rows).even <==> r in rows && IsEven(r)
  {
    if rows != [] {
      var s := SortByN(rows);
      assert r in s <==> r in multiset(s);
    }
  }

  /** Each of the four outputs holds exactly the rows of its percentile and parity. */
  lemma SplitMember(rows: seq<Row>, r: Row)
    ensures r in SplitTable(rows).p95.odd <==> r in rows && Is95(r) && IsOdd(r)
    ensures r in SplitTable(rows).p95.even <==> r in rows && Is95(r) && IsEven(r)
    ensures r in SplitTable(rows).p99.odd <==> r in rows && Is99(r) && IsOdd(r)
    ensures r in SplitTable(rows).p99.even <==> r in rows && Is99(r) && IsEven(r)
  {
    if rows != [] {
      HalvesMember(Filter(rows, Is95), r);
      HalvesMember(Filter(rows, Is99), r);
    }
  }

  /** No row lands in two of the four outputs. */
  lemma SplitDisjoint(rows: seq<Row>, r: Row)
    ensures var sp := SplitTable(rows);
      && !(r in sp.p95.odd && r in sp.p95.even)
      && !(r in sp.p95.odd && r in sp.p99.odd)
      && !(r in sp.p95.odd && r in sp.p99.even)
      && !(r in sp.p95.even && r in sp.p99.odd)
      && !(r in sp.p95.even && r in sp.p99.even)
      && !(r in sp.p99.odd && r in sp.p99.even)
  {
    SplitMember(rows, r);
  }

  /** A whole number is odd or even. */
  lemma WholeHasParity(x: real)
    requires x == x.Floor as real
    ensures Mod2(x) == 0.0 || Mod2(x) == 1.0
  {
    var k := x.Floor;
    var q := (x / 2.0).Floor;
    assert q as real <= x / 2.0 < q as real + 1.0;
    assert 2 * q <= k < 2 * q + 2;
  }

  /** The odd and even halves of one percentile hold, together, every row of it with
      a whole N, each as often as in the input. */
  lemma HalvesPartition(rows: seq<Row>)
    requires forall r :: r in rows ==> r.n == r.n.Floor as real
    ensures var h := SplitOddEven(rows);
      multiset(h.odd) + multiset(h.even) == multiset(rows)
  {
    if rows != [] {
      var s := SortByN(rows);
      forall x ensures (multiset(Filter(s, IsOdd)) + multiset(Filter(s, IsEven)))[x] == multiset(rows)[x] {
        FilterMultiset(s, IsOdd, x);
        FilterMultiset(s, IsEven, x);
        if x in rows {
          WholeHasParity(x.n);
        } else {
          assert x !in multiset(rows);
        }
      }
      assert multiset(Filter(s, IsOdd)) + multiset(Filter(s, IsEven)) == multiset(rows);
    }
  }

  /** For rows with whole harmonic numbers, the four outputs together are exactly the
      input rows at the 95th or 99th percentile, none lost and none repeated. */
  lemma SplitUnion(rows: seq<Row>)
    requires forall r :: r in rows ==> r.n == r.n.Floor as real
    ensures var sp := SplitTable(rows);
      multiset(sp.p95.odd) + multiset(sp.p95.even) == multiset(Filter(rows, Is95))
      && multiset(sp.p99.odd) + multiset(sp.p99.even) == multiset(Filter(rows, Is99))
  {
    if rows != [] {
      HalvesPartition(Filter(rows, Is95));
      HalvesPartition(Filter(rows, Is99));
    }
  }

  /** What the validator makes of extracted rows can be split without loss: the four outputs
      together are exactly its rows at the 95th or 99th percentile. */
  lemma SplitProcessed(raw: seq<Rows.RawRow>)
    requires forall r :: r in raw ==> Rows.Extracted(r)
    ensures var rows := Process(raw);
      var sp := SplitTable(rows);
      multiset(sp.p95.odd) + multiset(sp.p95.even) == multiset(Filter(rows, Is95))
      && multiset(sp.p99.odd) + multiset(sp.p99.even) == multiset(Filter(rows, Is99))
  {
    ProcessWhole(raw);
    SplitUnion(Process(raw));
  }

  /** From a document to the split: no validated row of a gathered table is lost or repeated. */
  lemma SplitGathered(pages: seq<Locator.Page>, find: Rows.Finder, k: Config.TableKind)
    ensures var rows := Process(Locator.ExtractTables(pages, find)[k]);
      var sp := SplitTable(rows);
      multiset(sp.p95.odd) + multiset(sp.p95.even) == multiset(Filter(rows, Is95))
      && multiset(sp.p99.odd) + multiset(sp.p99.even) == multiset(Filter(rows, Is99))
  {
    SplitProcessed(Locator.ExtractTables(pages, find)[k]);
  }
}
