/** Participation over the editions (helper.py: data_over_time): for each
    edition, how many distinct values a column takes. */
module Trends {
  import opened Seqs
  import opened Table
  import opened Grouping

  /** A row of the series: an edition (year) and the number of distinct values seen in it. */
  datatype EditionCount = EditionCount(edition: int, count: nat)

  /** The (Year, column) pair `drop_duplicates(['Year', col])` compares. */
  function YearCell(col: Column): Row -> (int, Cell) {
    (r: Row) => (r.rec.year, Get(r, col))
  }

  function CellOf(col: Column): Row -> Cell {
    (r: Row) => Get(r, col)
  }

  function CountOf(e: EditionCount): nat { e.count }

  /** The distinct values column `col` takes among the rows of year `y`
      (NaN is one value). */
  ghost function ValuesInYear(df: seq<Row>, col: Column, y: int): set<Cell> {
    set r | r in df && r.rec.year == y :: Get(r, col)
  }

  /** `drop_duplicates(['Year', col])['Year'].value_counts()`, sorted by edition. */
  function EditionCounts(pairs: seq<Row>, years: seq<int>): (r: seq<EditionCount>)
    ensures |r| == |years|
    ensures forall i :: 0 <= i < |r| ==> r[i].edition == years[i] && r[i].count == |InYear(pairs, years[i])|
  {
    seq(|years|, i requires 0 <= i < |years| => EditionCount(years[i], |InYear(pairs, years[i])|))
  }

  /** `data_over_time(df, col)`. */
  function DataOverTime(df: seq<Row>, col: Column): (r: seq<EditionCount>)
    ensures forall i, j :: 0 <= i < j < |r| ==> r[i].edition < r[j].edition
    ensures forall y :: y in YearSet(df) <==> exists i :: 0 <= i < |r| && r[i].edition == y
    ensures forall i :: 0 <= i < |r| ==> r[i].count == |ValuesInYear(df, col, r[i].edition)|
    ensures SumOf(r, CountOf) == |KeySet(df, YearCell(col))|
  {
    var pairs := DedupBy(df, YearCell(col));
    var years := SortedYears(pairs);
    var r := EditionCounts(pairs, years);
    EditionCountsFacts(df, col, pairs, years, r);
    r
  }

  lemma EditionCountsFacts(df: seq<Row>, col: Column, pairs: seq<Row>, years: seq<int>, r: seq<EditionCount>)
    requires pairs == DedupBy(df, YearCell(col)) && years == SortedYears(pairs) && r == EditionCounts(pairs, years)
    ensures forall y :: y in YearSet(df) <==> exists i :: 0 <= i < |r| && r[i].edition == y
    ensures forall i :: 0 <= i < |r| ==> r[i].count == |ValuesInYear(df, col, r[i].edition)|
    ensures SumOf(r, CountOf) == |KeySet(df, YearCell(col))|
  {
    PairYears(df, pairs, col);
    EditionsCover(df, years, r);
    CountsAreDistinctValues(df, col, pairs, years, r);
    EditionTotal(df, col, pairs, years, r);
  }

  lemma EditionsCover(df: seq<Row>, years: seq<int>, r: seq<EditionCount>)
    requires forall y :: y in years <==> y in YearSet(df)
    requires |r| == |years| && forall i :: 0 <= i < |r| ==> r[i].edition == years[i]
    ensures forall y :: y in YearSet(df) <==> exists i :: 0 <= i < |r| && r[i].edition == y
  {
    forall y | y in YearSet(df) ensures exists i :: 0 <= i < |r| && r[i].edition == y {
      var i :| 0 <= i < |years| && years[i] == y;
      assert r[i].edition == y;
    }
  }

  lemma CountsAreDistinctValues(df: seq<Row>, col: Column, pairs: seq<Row>, years: seq<int>, r: seq<EditionCount>)
    requires KeysDistinct(pairs, YearCell(col))
    requires KeySet(pairs, YearCell(col)) == KeySet(df, YearCell(col))
    requires |r| == |years|
    requires forall i :: 0 <= i < |r| ==> r[i].edition == years[i] && r[i].count == |InYear(pairs, years[i])|
    ensures forall i :: 0 <= i < |r| ==> r[i].count == |ValuesInYear(df, col, r[i].edition)|
  {
    forall i | 0 <= i < |r| ensures r[i].count == |ValuesInYear(df, col, r[i].edition)| {
      DistinctValuesCount(df, pairs, col, years[i]);
    }
  }

  lemma EditionTotal(df: seq<Row>, col: Column, pairs: seq<Row>, years: seq<int>, r: seq<EditionCount>)
    requires KeysDistinct(pairs, YearCell(col))
    requires KeySet(pairs, YearCell(col)) == KeySet(df, YearCell(col))
    requires forall i, j :: 0 <= i < j < |years| ==> years[i] < years[j]
    requires forall y :: y in years <==> y in YearSet(pairs)
    requires |r| == |years|
    requires forall i :: 0 <= i < |r| ==> r[i].count == |InYear(pairs, years[i])|
    ensures SumOf(r, CountOf) == |KeySet(df, YearCell(col))|
  {
    SumOfGroupCounts(r, CountOf, pairs, YearOf, years);
    assert Distinct(years);
    assert forall x :: x in pairs ==> YearOf(x) in years;
    CountsOverPartition(pairs, YearOf, years);
    DistinctKeysCard(pairs, YearCell(col));
  }

  /** De-duplicating on (Year, col) keeps every year. */
  lemma PairYears(df: seq<Row>, pairs: seq<Row>, col: Column)
    requires KeySet(pairs, YearCell(col)) == KeySet(df, YearCell(col))
    ensures YearSet(pairs) == YearSet(df)
  {
    forall y | y in YearSet(df) ensures y in YearSet(pairs) {
      var x :| x in df && x.rec.year == y;
      assert YearCell(col)(x) in KeySet(df, YearCell(col));
      var p :| p in pairs && YearCell(col)(p) == YearCell(col)(x);
    }
    forall y | y in YearSet(pairs) ensures y in YearSet(df) {
      var p :| p in pairs && p.rec.year == y;
      assert YearCell(col)(p) in KeySet(pairs, YearCell(col));
      var x :| x in df && YearCell(col)(x) == YearCell(col)(p);
    }
  }

  /** After de-duplicating on (Year, col), a year's rows are one per
      distinct value of the column in that year. */
  lemma DistinctValuesCount(df: seq<Row>, pairs: seq<Row>, col: Column, y: int)
    requires KeysDistinct(pairs, YearCell(col))
    requires KeySet(pairs, YearCell(col)) == KeySet(df, YearCell(col))
    ensures |InYear(pairs, y)| == |ValuesInYear(df, col, y)|
  {
    var p := InYear(pairs, y);
    YearRowsDistinctCells(pairs, col, y);
    DistinctKeysCard(p, CellOf(col));
    YearCellsAreValues(df, pairs, col, y);
  }

  /** Within one year, the (Year, col)-distinct rows have distinct cells. */
  lemma YearRowsDistinctCells(pairs: seq<Row>, col: Column, y: int)
    requires KeysDistinct(pairs, YearCell(col))
    ensures KeysDistinct(InYear(pairs, y), CellOf(col))
  {
    var p := InYear(pairs, y);
    SelectKeepsDistinct(pairs, YearOf, y, YearCell(col));
    forall i, j | 0 <= i < j < |p| ensures CellOf(col)(p[i]) != CellOf(col)(p[j]) {
      assert p[i] in p && p[j] in p;
      assert YearCell(col)(p[i]) != YearCell(col)(p[j]);
    }
  }

  /** The cells of a year's de-duplicated rows are that year's values. */
  lemma YearCellsAreValues(df: seq<Row>, pairs: seq<Row>, col: Column, y: int)
    requires KeySet(pairs, YearCell(col)) == KeySet(df, YearCell(col))
    ensures KeySet(InYear(pairs, y), CellOf(col)) == ValuesInYear(df, col, y)
  {
    var p := InYear(pairs, y);
    forall c | c in KeySet(p, CellOf(col)) ensures c in ValuesInYear(df, col, y) {
      var q :| q in p && CellOf(col)(q) == c;
      assert YearCell(col)(q) in KeySet(pairs, YearCell(col));
      var x :| x in df && YearCell(col)(x) == YearCell(col)(q);
    }
    forall c | c in ValuesInYear(df, col, y) ensures c in KeySet(p, CellOf(col)) {
      var x :| x in df && x.rec.year == y && Get(x, col) == c;
      assert YearCell(col)(x) in KeySet(df, YearCell(col));
      var q :| q in pairs && YearCell(col)(q) == YearCell(col)(x);
      assert q in p;
    }
  }
}
