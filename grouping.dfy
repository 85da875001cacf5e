/** The group-by keys shared by the views: distinct regions and years in
    ascending order, and selection of one region's or one year's rows. */
module Grouping {
  import opened Wrappers
  import opened Seqs
  import opened Order
  import opened Table

  /** The distinct non-null regions of `rows`. */
  ghost function RegionSet(rows: seq<Row>): set<string> {
    set x | x in rows && x.region.Some? :: x.region.value
  }

  /** The distinct years of `rows`. */
  ghost function YearSet(rows: seq<Row>): set<int> {
    set x | x in rows :: x.rec.year
  }

  /** `df['region'].dropna()`, in row order. */
  function RegionValues(rows: seq<Row>): (r: seq<string>)
    ensures forall g :: g in r <==> g in RegionSet(rows)
    decreases |rows|
  {
    if rows == [] then []
    else
      var init, last := rows[..|rows| - 1], rows[|rows| - 1];
      assert rows == init + [last];
      var r := RegionValues(init);
      assert forall g :: g in RegionSet(rows) <==> g in RegionSet(init) || last.region == Some(g);
      match last.region
      case None => r
      case Some(g) => r + [g]
  }

  /** `df['Year']`, in row order. */
  function YearValues(rows: seq<Row>): (r: seq<int>)
    ensures forall y :: y in r <==> y in YearSet(rows)
  {
    var r := seq(|rows|, i requires 0 <= i < |rows| => rows[i].rec.year);
    assert forall y :: y in YearSet(rows) ==> y in r by {
      forall y | y in YearSet(rows) ensures y in r {
        var x :| x in rows && x.rec.year == y;
        var i :| 0 <= i < |rows| && rows[i] == x;
        assert r[i] == y;
      }
    }
    r
  }

  /** `sorted(np.unique(df['region'].dropna()))`: the distinct non-null regions, ascending. */
  function SortedRegions(rows: seq<Row>): (ks: seq<string>)
    ensures forall i, j :: 0 <= i < j < |ks| ==> StrLt(ks[i], ks[j])
    ensures forall g :: g in ks <==> g in RegionSet(rows)
    ensures |ks| == |RegionSet(rows)|
  {
    StrLtIsStrictTotal();
    var ks := SortedUnique(RegionValues(rows), StrLt);
    SortedIsDistinct(ks, StrLt);
    DistinctCard(ks);
    assert (set k | k in ks) == RegionSet(rows);
    ks
  }

  /** `sorted(df['Year'].unique())`: the distinct years, ascending. */
  function SortedYears(rows: seq<Row>): (ks: seq<int>)
    ensures forall i, j :: 0 <= i < j < |ks| ==> ks[i] < ks[j]
    ensures forall y :: y in ks <==> y in YearSet(rows)
    ensures |ks| == |YearSet(rows)|
  {
    IntLtIsStrictTotal();
    var ks := SortedUnique(YearValues(rows), IntLt);
    SortedIsDistinct(ks, IntLt);
    DistinctCard(ks);
    assert (set k | k in ks) == YearSet(rows);
    ks
  }

  /** `df[df['region'] == g]`: NaN regions never match. */
  function InRegion(rows: seq<Row>, g: string): seq<Row> {
    Select(rows, RegionOf, Some(g))
  }

  /** `df[df['Year'] == y]`. */
  function InYear(rows: seq<Row>, y: int): seq<Row> {
    Select(rows, YearOf, y)
  }

  /** Group counts over distinct years that cover every row add up to the
      number of rows. */
  lemma YearCountsTotal<U>(r: seq<U>, f: U -> nat, rows: seq<Row>, years: seq<int>)
    requires Distinct(years)
    requires forall x :: x in rows ==> x.rec.year in years
    requires |r| == |years| && forall i :: 0 <= i < |r| ==> f(r[i]) == |InYear(rows, years[i])|
    ensures SumOf(r, f) == |rows|
  {
    SumOfGroupCounts(r, f, rows, YearOf, years);
    CountsOverPartition(rows, YearOf, years);
  }
}
