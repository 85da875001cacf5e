/** The Country-wise Analysis views (helper.py: yearwise_medal,
    country_event_heatmap): medals of one region, a team medal counted once. */
module CountryView {
  import opened Wrappers
  import opened Seqs
  import opened Order
  import opened Table
  import opened Grouping

  /** `df.dropna(subset=['Medal'])`. */
  function MedalRows(df: seq<Row>): (r: seq<Row>)
    ensures forall x :: x in r <==> x in df && x.rec.medal.Some?
  {
    Filter(df, HasMedal)
  }

  /** The medal rows are those of `df`, each as often as in `df` and in the
      order of `df`. */
  lemma MedalRowsExactly(df: seq<Row>)
    ensures forall x :: multiset(MedalRows(df))[x] == if x.rec.medal.Some? then multiset(df)[x] else 0
    ensures exists idx :: PickedAt(MedalRows(df), df, idx)
  {
    FilterInOrder(df, HasMedal);
    var idx :| PickedAt(Filter(df, HasMedal), df, idx);
    assert PickedAt(MedalRows(df), df, idx);
  }

  /** The shared first steps of both views: medal rows, de-duplicated on
      (Team, NOC, Games, Year, City, Sport, Event, Medal) keeping the first,
      then restricted to region `country`. */
  function CountryMedals(df: seq<Row>, country: string): (r: seq<Row>)
    ensures forall x :: x in r ==> x in df && x.rec.medal.Some? && x.region == Some(country)
    ensures KeysDistinct(r, MedalKey)
  {
    var once := DedupBy(MedalRows(df), MedalKey);
    SelectKeepsDistinct(once, RegionOf, Some(country), MedalKey);
    InRegion(once, country)
  }

  /** A medal key is counted for the region exactly when the first medal
      row carrying that key belongs to the region. */
  lemma CountryMedalsKeepFirst(df: seq<Row>, country: string, k: (string, string, string, int, string, string, string, Option<string>))
    requires k in KeySet(MedalRows(df), MedalKey)
    ensures k in KeySet(CountryMedals(df, country), MedalKey) <==>
            FirstWith(MedalRows(df), MedalKey, k).value.region == Some(country)
  {
    var medals := MedalRows(df);
    var once := DedupBy(medals, MedalKey);
    var r := CountryMedals(df, country);
    assert r == InRegion(once, country);
    var f := FirstWith(medals, MedalKey, k).value;
    assert k in KeySet(once, MedalKey);
    var y :| y in once && MedalKey(y) == k;
    assert y == f;
    if k in KeySet(r, MedalKey) {
      var z :| z in r && MedalKey(z) == k;
      assert z in once;
      assert z == f;
    }
    if f.region == Some(country) {
      assert f in r;
    }
  }

  /** A row of the year-wise series: a year and its medal count. */
  datatype YearCount = YearCount(year: int, medals: nat)

  function MedalsOf(c: YearCount): nat { c.medals }

  /** `yearwise_medal(df, country)`: `groupby('Year').count()` of the
      region's de-duplicated medal rows, ascending by year. */
  function YearwiseMedal(df: seq<Row>, country: string): (r: seq<YearCount>)
    ensures forall i, j :: 0 <= i < j < |r| ==> r[i].year < r[j].year
    ensures forall y :: y in YearSet(CountryMedals(df, country)) <==> exists i :: 0 <= i < |r| && r[i].year == y
    ensures forall i :: 0 <= i < |r| ==> r[i].medals == |InYear(CountryMedals(df, country), r[i].year)| && r[i].medals > 0
    ensures SumOf(r, MedalsOf) == |CountryMedals(df, country)|
    ensures r == [] <==> CountryMedals(df, country) == []
  {
    var rows := CountryMedals(df, country);
    var years := SortedYears(rows);
    var r := seq(|years|, i requires 0 <= i < |years| => YearCount(years[i], |InYear(rows, years[i])|));
    YearwiseFacts(rows, years, r);
    r
  }

  lemma YearwiseFacts(rows: seq<Row>, years: seq<int>, r: seq<YearCount>)
    requires forall i, j :: 0 <= i < j < |years| ==> years[i] < years[j]
    requires forall y :: y in years <==> y in YearSet(rows)
    requires |r| == |years| && forall i :: 0 <= i < |r| ==> r[i] == YearCount(years[i], |InYear(rows, years[i])|)
    ensures forall y :: y in YearSet(rows) <==> exists i :: 0 <= i < |r| && r[i].year == y
    ensures forall i :: 0 <= i < |r| ==> r[i].medals > 0
    ensures SumOf(r, MedalsOf) == |rows|
    ensures r == [] <==> rows == []
  {
    forall y | y in YearSet(rows) ensures exists i :: 0 <= i < |r| && r[i].year == y {
      var i :| 0 <= i < |years| && years[i] == y;
      assert r[i].year == y;
    }
    forall i | 0 <= i < |r| ensures r[i].medals > 0 {
      assert years[i] in years;
      var x :| x in rows && x.rec.year == years[i];
      assert x in InYear(rows, years[i]);
    }
    GroupsCoverRows(rows, years, r);
    if rows != [] {
      assert rows[0].rec.year in YearSet(rows);
    }
  }

  lemma GroupsCoverRows(rows: seq<Row>, years: seq<int>, r: seq<YearCount>)
    requires forall i, j :: 0 <= i < j < |years| ==> years[i] < years[j]
    requires forall y :: y in years <==> y in YearSet(rows)
    requires |r| == |years| && forall i :: 0 <= i < |r| ==> r[i].medals == |InYear(rows, years[i])|
    ensures SumOf(r, MedalsOf) == |rows|
  {
    assert Distinct(years);
    YearCountsTotal(r, MedalsOf, rows, years);
  }

  /** The sport-by-year grid: `cells[i][j]` counts the medals in sport
      `sports[i]` at the Games of year `years[j]`. */
  datatype Heatmap = Heatmap(sports: seq<string>, years: seq<int>, cells: seq<seq<nat>>)

  /** The distinct sports of `rows`. */
  ghost function SportSet(rows: seq<Row>): set<string> {
    set x | x in rows :: x.rec.sport
  }

  /** The pivot table's index: the distinct sports, ascending. */
  function SortedSports(rows: seq<Row>): (ks: seq<string>)
    ensures forall i, j :: 0 <= i < j < |ks| ==> StrLt(ks[i], ks[j])
    ensures forall s :: s in ks <==> s in SportSet(rows)
  {
    StrLtIsStrictTotal();
    var sports := seq(|rows|, i requires 0 <= i < |rows| => rows[i].rec.sport);
    assert forall s :: s in SportSet(rows) ==> s in sports by {
      forall s | s in SportSet(rows) ensures s in sports {
        var x :| x in rows && x.rec.sport == s;
        var i :| 0 <= i < |rows| && rows[i] == x;
        assert sports[i] == s;
      }
    }
    SortedUnique(sports, StrLt)
  }

  /** `df[df['Sport'] == s]`. */
  function InSport(rows: seq<Row>, s: string): seq<Row> {
    Select(rows, SportOf, s)
  }

  function NatValue(n: nat): nat { n }

  /** Sum of one grid row. */
  function LineTotal(line: seq<nat>): nat { SumOf(line, NatValue) }

  /** Sum of every cell of the grid. */
  function GridTotal(h: Heatmap): nat { SumOf(h.cells, LineTotal) }

  /** The pivot's cells: medals of each sport in each year. */
  function Grid(rows: seq<Row>, sports: seq<string>, years: seq<int>): (cells: seq<seq<nat>>)
    ensures |cells| == |sports|
    ensures forall i :: 0 <= i < |cells| ==> |cells[i]| == |years|
    ensures forall i, j :: 0 <= i < |sports| && 0 <= j < |years| ==>
              cells[i][j] == |InYear(InSport(rows, sports[i]), years[j])|
  {
    seq(|sports|, i requires 0 <= i < |sports| =>
      seq(|years|, j requires 0 <= j < |years| => |InYear(InSport(rows, sports[i]), years[j])|))
  }

  /** `country_event_heatmap(df, country)`: `pivot_table(index='Sport',
      columns='Year', aggfunc='count').fillna(0).astype(int)`. */
  function CountryEventHeatmap(df: seq<Row>, country: string): (h: Heatmap)
    ensures forall i, j :: 0 <= i < j < |h.sports| ==> StrLt(h.sports[i], h.sports[j])
    ensures forall s :: s in h.sports <==> s in SportSet(CountryMedals(df, country))
    ensures forall i, j :: 0 <= i < j < |h.years| ==> h.years[i] < h.years[j]
    ensures forall y :: y in h.years <==> y in YearSet(CountryMedals(df, country))
    ensures h.cells == Grid(CountryMedals(df, country), h.sports, h.years)
  {
    var rows := CountryMedals(df, country);
    var sports := SortedSports(rows);
    var years := SortedYears(rows);
    Heatmap(sports, years, Grid(rows, sports, years))
  }

  /** A cell counts nothing exactly when no row has its sport and year. */
  lemma EmptyCell(rows: seq<Row>, sport: string, year: int)
    ensures |InYear(InSport(rows, sport), year)| == 0 <==>
            forall x :: x in rows ==> !(x.rec.sport == sport && x.rec.year == year)
  {
    var cell := InYear(InSport(rows, sport), year);
    if x :| x in rows && x.rec.sport == sport && x.rec.year == year {
      assert x in InSport(rows, sport);
      assert x in cell;
    }
    if cell != [] {
      assert cell[0] in cell;
    }
  }

  /** A cell is 0 exactly when the region won no medal in that sport that year. */
  lemma HeatmapZeroCells(df: seq<Row>, country: string, i: int, j: int)
    requires var h := CountryEventHeatmap(df, country); 0 <= i < |h.sports| && 0 <= j < |h.years|
    ensures var h := CountryEventHeatmap(df, country);
            h.cells[i][j] == 0 <==>
            forall x :: x in CountryMedals(df, country) ==> !(x.rec.sport == h.sports[i] && x.rec.year == h.years[j])
  {
    var h := CountryEventHeatmap(df, country);
    EmptyCell(CountryMedals(df, country), h.sports[i], h.years[j]);
  }

  /** The heatmap and the year-wise series count the same medals: the grid's
      cells add up to the sum of the year-wise counts. */
  lemma HeatmapAgreesWithYearwise(df: seq<Row>, country: string)
    ensures GridTotal(CountryEventHeatmap(df, country)) == SumOf(YearwiseMedal(df, country), MedalsOf)
  {
    var rows := CountryMedals(df, country);
    var h := CountryEventHeatmap(df, country);
    var lines: seq<seq<nat>> := h.cells;
    forall i | 0 <= i < |lines| ensures LineTotal(lines[i]) == |InSport(rows, h.sports[i])| {
      var inSport := InSport(rows, h.sports[i]);
      SumOfGroupCounts(lines[i], NatValue, inSport, YearOf, h.years);
      assert Distinct(h.years);
      assert forall x :: x in inSport ==> YearOf(x) in h.years;
      CountsOverPartition(inSport, YearOf, h.years);
    }
    SumOfGroupCounts(lines, LineTotal, rows, SportOf, h.sports);
    StrLtIsStrictTotal();
    SortedIsDistinct(h.sports, StrLt);
    assert forall x :: x in rows ==> SportOf(x) in h.sports;
    CountsOverPartition(rows, SportOf, h.sports);
  }
}
