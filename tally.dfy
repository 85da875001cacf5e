/** The medal tally and the selector lists of the Medal Tally page
    (helper.py: fetch_medal_tally, country_year_list). */
module Tally {
  import opened Wrappers
  import opened Seqs
  import opened Order
  import opened Text
  import opened Table
  import opened Grouping

  /** A year selector: a year from the list, or text ('Overall', or a year typed as text). */
  datatype YearSel = YearNum(n: int) | YearText(s: string)

  /** The sentinel meaning "no year filter". */
  const Overall: YearSel := YearText("Overall")

  /** What a tally row is grouped by. */
  datatype GroupKey = ByRegion(region: string) | ByYear(year: int)

  /** A group's indicator sums, before the Total column is added. */
  datatype Sums = Sums(key: GroupKey, gold: nat, silver: nat, bronze: nat)

  /** A row of the medal tally. */
  datatype TallyRow = TallyRow(key: GroupKey, gold: nat, silver: nat, bronze: nat, total: nat)

  /** `sum()` of the indicator columns of one group. */
  function GroupSums(key: GroupKey, rows: seq<Row>): Sums {
    Sums(key, SumOf(rows, GoldOf), SumOf(rows, SilverOf), SumOf(rows, BronzeOf))
  }

  /** The row carries the indicator sums of `rows`. */
  ghost predicate CountsOf(t: TallyRow, rows: seq<Row>) {
    t.gold == SumOf(rows, GoldOf) && t.silver == SumOf(rows, SilverOf) && t.bronze == SumOf(rows, BronzeOf)
  }

  /** The sums of the groups `ks` of a region grouping, in the order of `ks`. */
  function RegionSumsOver(rows: seq<Row>, ks: seq<string>): (r: seq<Sums>)
    ensures |r| == |ks|
    ensures forall i :: 0 <= i < |r| ==> r[i] == GroupSums(ByRegion(ks[i]), InRegion(rows, ks[i]))
  {
    seq(|ks|, i requires 0 <= i < |ks| => GroupSums(ByRegion(ks[i]), InRegion(rows, ks[i])))
  }

  /** The sums of the groups `ks` of a year grouping, in the order of `ks`. */
  function YearSumsOver(rows: seq<Row>, ks: seq<int>): (r: seq<Sums>)
    ensures |r| == |ks|
    ensures forall i :: 0 <= i < |r| ==> r[i] == GroupSums(ByYear(ks[i]), InYear(rows, ks[i]))
  {
    seq(|ks|, i requires 0 <= i < |ks| => GroupSums(ByYear(ks[i]), InYear(rows, ks[i])))
  }

  /** `groupby('region').sum()`: one group per non-null region, in ascending order. */
  function RegionGroups(rows: seq<Row>): (r: seq<Sums>)
    ensures |r| == |RegionSet(rows)|
    ensures forall i :: 0 <= i < |r| ==> && r[i].key.ByRegion? && r[i].key.region in RegionSet(rows)
                                         && r[i] == GroupSums(r[i].key, InRegion(rows, r[i].key.region))
    ensures forall i, j :: 0 <= i < j < |r| ==> StrLt(r[i].key.region, r[j].key.region)
    ensures forall g :: g in RegionSet(rows) ==> exists i :: 0 <= i < |r| && r[i].key == ByRegion(g)
  {
    var ks := SortedRegions(rows);
    RegionSumsCover(rows, ks);
    RegionSumsOver(rows, ks)
  }

  lemma RegionSumsCover(rows: seq<Row>, ks: seq<string>)
    requires forall g :: g in ks <==> g in RegionSet(rows)
    ensures var r := RegionSumsOver(rows, ks);
            && (forall i :: 0 <= i < |r| ==> r[i].key == ByRegion(ks[i]) && ks[i] in RegionSet(rows))
            && (forall g :: g in RegionSet(rows) ==> exists i :: 0 <= i < |r| && r[i].key == ByRegion(g))
  {
    var r := RegionSumsOver(rows, ks);
    forall i | 0 <= i < |r| ensures ks[i] in RegionSet(rows) {
      assert ks[i] in ks;
    }
    forall g | g in RegionSet(rows) ensures exists i :: 0 <= i < |r| && r[i].key == ByRegion(g) {
      var i :| 0 <= i < |ks| && ks[i] == g;
      assert r[i].key == ByRegion(g);
    }
  }

  /** `groupby('Year').sum()`: one group per year, in ascending order. */
  function YearGroups(rows: seq<Row>): (r: seq<Sums>)
    ensures |r| == |YearSet(rows)|
    ensures forall i :: 0 <= i < |r| ==> && r[i].key.ByYear? && r[i].key.year in YearSet(rows)
                                         && r[i] == GroupSums(r[i].key, InYear(rows, r[i].key.year))
    ensures forall i, j :: 0 <= i < j < |r| ==> r[i].key.year < r[j].key.year
    ensures forall y :: y in YearSet(rows) ==> exists i :: 0 <= i < |r| && r[i].key == ByYear(y)
  {
    var ks := SortedYears(rows);
    YearSumsCover(rows, ks);
    YearSumsOver(rows, ks)
  }

  lemma YearSumsCover(rows: seq<Row>, ks: seq<int>)
    requires forall y :: y in ks <==> y in YearSet(rows)
    ensures var r := YearSumsOver(rows, ks);
            && (forall i :: 0 <= i < |r| ==> r[i].key == ByYear(ks[i]) && ks[i] in YearSet(rows))
            && (forall y :: y in YearSet(rows) ==> exists i :: 0 <= i < |r| && r[i].key == ByYear(y))
  {
    var r := YearSumsOver(rows, ks);
    forall i | 0 <= i < |r| ensures ks[i] in YearSet(rows) {
      assert ks[i] in ks;
    }
    forall y | y in YearSet(rows) ensures exists i :: 0 <= i < |r| && r[i].key == ByYear(y) {
      var i :| 0 <= i < |ks| && ks[i] == y;
      assert r[i].key == ByYear(y);
    }
  }

  function GoldScore(s: Sums): int { s.gold }

  /** `x['Total'] = x['Gold'] + x['Silver'] + x['Bronze']`. */
  function WithTotal(xs: seq<Sums>): (r: seq<TallyRow>)
    ensures |r| == |xs|
    ensures forall i :: 0 <= i < |xs| ==>
              r[i].key == xs[i].key && r[i].gold == xs[i].gold && r[i].silver == xs[i].silver && r[i].bronze == xs[i].bronze
  {
    seq(|xs|, i requires 0 <= i < |xs| => TallyRow(xs[i].key, xs[i].gold, xs[i].silver, xs[i].bronze,
                                                   xs[i].gold + xs[i].silver + xs[i].bronze))
  }

  /** The year a selector stands for: `int(year)`, which fails on non-numeric text. */
  function SelectedYear(year: YearSel): Option<int> {
    match year
    case YearNum(n) => Some(n)
    case YearText(s) => ParseInt(s)
  }

  /** `fetch_medal_tally(df, year, country)`. */
  function FetchMedalTally(df: seq<Row>, year: YearSel, country: string): (r: Result<seq<TallyRow>>)
    ensures r.Err? <==> year != Overall && SelectedYear(year).None?
    ensures r.Ok? ==> forall t :: t in r.value ==> t.total == t.gold + t.silver + t.bronze
  {
    if year == Overall && country == "Overall" then
      Ok(WithTotal(SortDesc(RegionGroups(df), GoldScore)))
    else if year == Overall then
      Ok(WithTotal(YearGroups(InRegion(df, country))))
    else
      match SelectedYear(year)
      case None => Err(ValueError("invalid literal for int() with base 10"))
      case Some(y) =>
        if country == "Overall" then
          Ok(WithTotal(SortDesc(RegionGroups(InYear(df, y)), GoldScore)))
        else
          Ok(WithTotal(RegionGroups(InRegion(InYear(df, y), country))))
  }

  /** A tally grouped by region over `rows`: one row per distinct non-null
      region, each carrying that region's indicator sums. */
  ghost predicate RegionTally(t: seq<TallyRow>, rows: seq<Row>) {
    && |t| == |RegionSet(rows)|
    && (forall g :: g in RegionSet(rows) ==> exists i :: 0 <= i < |t| && t[i].key == ByRegion(g))
    && (forall i :: 0 <= i < |t| ==>
          t[i].key.ByRegion? && t[i].key.region in RegionSet(rows) && CountsOf(t[i], InRegion(rows, t[i].key.region)))
  }

  /** The rows a year selector keeps. */
  function RowsOfYear(df: seq<Row>, year: YearSel): seq<Row>
    requires year == Overall || SelectedYear(year).Some?
  {
    if year == Overall then df else InYear(df, SelectedYear(year).value)
  }

  /** The region groups sorted by Gold form a region tally of `rows`. */
  lemma SortedRegionTally(rows: seq<Row>)
    ensures var t := WithTotal(SortDesc(RegionGroups(rows), GoldScore));
            && RegionTally(t, rows)
            && forall i, j :: 0 <= i < j < |t| ==> t[i].gold >= t[j].gold
  {
    var g := RegionGroups(rows);
    var s := SortDesc(g, GoldScore);
    var t := WithTotal(s);
    assert |s| == |g| by {
      assert |multiset(s)| == |multiset(g)|;
    }
    forall i | 0 <= i < |t|
      ensures t[i].key.ByRegion? && t[i].key.region in RegionSet(rows)
      ensures CountsOf(t[i], InRegion(rows, t[i].key.region))
    {
      assert s[i] in multiset(g);
      var k :| 0 <= k < |g| && g[k] == s[i];
    }
    forall rg | rg in RegionSet(rows) ensures exists i :: 0 <= i < |t| && t[i].key == ByRegion(rg) {
      var k :| 0 <= k < |g| && g[k].key == ByRegion(rg);
      assert g[k] in multiset(s);
      var i :| 0 <= i < |s| && s[i] == g[k];
      assert t[i].key == ByRegion(rg);
    }
  }

  /** With country 'Overall' the tally has one row per region of the
      selected year's rows (all rows for year 'Overall'), Gold never
      increasing down the table. */
  lemma TallyOverallCountries(df: seq<Row>, year: YearSel)
    requires year == Overall || SelectedYear(year).Some?
    ensures FetchMedalTally(df, year, "Overall").Ok?
    ensures RegionTally(FetchMedalTally(df, year, "Overall").value, RowsOfYear(df, year))
    ensures var t := FetchMedalTally(df, year, "Overall").value;
            forall i, j :: 0 <= i < j < |t| ==> t[i].gold >= t[j].gold
  {
    var rows := RowsOfYear(df, year);
    assert FetchMedalTally(df, year, "Overall") == Ok(WithTotal(SortDesc(RegionGroups(rows), GoldScore)));
    SortedRegionTally(rows);
  }

  /** With the year 'Overall' and a country fixed, the tally has one row per
      year of that country's rows, in ascending year order. */
  lemma TallyOverallYears(df: seq<Row>, country: string)
    requires country != "Overall"
    ensures FetchMedalTally(df, Overall, country).Ok?
    ensures var t := FetchMedalTally(df, Overall, country).value;
            var rows := InRegion(df, country);
            && |t| == |YearSet(rows)|
            && (forall y :: y in YearSet(rows) ==> exists i :: 0 <= i < |t| && t[i].key == ByYear(y))
            && (forall i :: 0 <= i < |t| ==> t[i].key.ByYear? && CountsOf(t[i], InYear(rows, t[i].key.year)))
            && (forall i, j :: 0 <= i < j < |t| ==> t[i].key.year < t[j].key.year)
  {
    var rows := InRegion(df, country);
    var g := YearGroups(rows);
    var t := WithTotal(g);
    assert FetchMedalTally(df, Overall, country) == Ok(t);
    forall y | y in YearSet(rows) ensures exists i :: 0 <= i < |t| && t[i].key == ByYear(y) {
      var i :| 0 <= i < |g| && g[i].key == ByYear(y);
      assert t[i].key == ByYear(y);
    }
  }

  /** With both a year and a country fixed, the tally has at most one row:
      the country's sums over its rows of that year, or none when it has no
      such rows. */
  lemma TallyYearAndCountry(df: seq<Row>, year: YearSel, country: string)
    requires year != Overall && SelectedYear(year).Some? && country != "Overall"
    ensures FetchMedalTally(df, year, country).Ok?
    ensures var t := FetchMedalTally(df, year, country).value;
            var rows := InRegion(InYear(df, SelectedYear(year).value), country);
            && |t| <= 1
            && (|t| == 1 <==> rows != [])
            && (|t| == 1 ==> t[0].key == ByRegion(country) && CountsOf(t[0], rows))
  {
    var y := SelectedYear(year).value;
    var inYear := InYear(df, y);
    var rows := InRegion(inYear, country);
    var g := RegionGroups(rows);
    var t := WithTotal(g);
    assert FetchMedalTally(df, year, country) == Ok(t);
    SingleRegion(rows, country);
  }

  /** Rows all of region `g` have that one region, and selecting it keeps them all. */
  lemma SingleRegion(rows: seq<Row>, g: string)
    requires forall x :: x in rows ==> RegionOf(x) == Some(g)
    ensures RegionSet(rows) == if rows == [] then {} else {g}
    ensures InRegion(rows, g) == rows
  {
    assert RegionSet(rows) <= {g} by {
      forall h | h in RegionSet(rows) ensures h == g {
        var x :| x in rows && x.region == Some(h);
        assert RegionOf(x) == Some(g);
      }
    }
    if rows != [] {
      assert rows[0] in rows;
      assert g in RegionSet(rows);
    }
    SelectAll(rows, RegionOf, Some(g));
  }

  /** Selecting by a key every element already has changes nothing. */
  lemma {:induction false} SelectAll<T(!new), K>(s: seq<T>, key: T -> K, k: K)
    requires forall x :: x in s ==> key(x) == k
    ensures Select(s, key, k) == s
    decreases |s|
  {
    if s != [] {
      var init := s[..|s| - 1];
      assert s == init + [s[|s| - 1]];
      assert forall x :: x in init ==> x in s;
      SelectAll(init, key, k);
    }
  }

  function IsGold(r: Row): bool { r.rec.medal == Some("Gold") }
  function IsSilver(r: Row): bool { r.rec.medal == Some("Silver") }
  function IsBronze(r: Row): bool { r.rec.medal == Some("Bronze") }

  /** On the canonical table the indicator sums are medal counts: each is
      the number of rows carrying that medal, one per athlete row (a team
      medal counts once for every team member). */
  lemma IndicatorSumsCountMedals(rows: seq<Row>)
    requires forall x :: x in rows ==> IndicatorsMatchMedal(x)
    ensures SumOf(rows, GoldOf) == |Filter(rows, IsGold)|
    ensures SumOf(rows, SilverOf) == |Filter(rows, IsSilver)|
    ensures SumOf(rows, BronzeOf) == |Filter(rows, IsBronze)|
  {
    IndicatorSum(rows, GoldOf, IsGold);
    IndicatorSum(rows, SilverOf, IsSilver);
    IndicatorSum(rows, BronzeOf, IsBronze);
  }

  /** 'Overall' followed by the years `years` as selectors. */
  function YearSelectors(years: seq<int>): (ys: seq<YearSel>)
    ensures |ys| == |years| + 1 && ys[0] == Overall
    ensures forall i :: 1 <= i < |ys| ==> ys[i] == YearNum(years[i - 1])
    ensures forall y :: YearNum(y) in ys <==> y in years
  {
    var ys := [Overall] + seq(|years|, i requires 0 <= i < |years| => YearNum(years[i]));
    assert forall y :: YearNum(y) in ys <==> y in years by {
      forall y ensures YearNum(y) in ys <==> y in years {
        if YearNum(y) in ys {
          var i :| 0 <= i < |ys| && ys[i] == YearNum(y);
          assert years[i - 1] == y;
        }
        if y in years {
          var i :| 0 <= i < |years| && years[i] == y;
          assert ys[i + 1] == YearNum(y);
        }
      }
    }
    ys
  }

  /** `country_year_list(df)`: 'Overall' followed by the distinct non-null
      regions in ascending order, and 'Overall' followed by the distinct
      years in ascending order. */
  function CountryYearList(df: seq<Row>): (r: (seq<string>, seq<YearSel>))
    ensures |r.0| >= 1 && r.0[0] == "Overall"
    ensures forall i, j :: 1 <= i < j < |r.0| ==> StrLt(r.0[i], r.0[j])
    ensures forall g :: g in r.0[1..] <==> g in RegionSet(df)
    ensures |r.1| >= 1 && r.1[0] == Overall
    ensures forall i :: 1 <= i < |r.1| ==> r.1[i].YearNum?
    ensures forall i, j :: 1 <= i < j < |r.1| ==> r.1[i].n < r.1[j].n
    ensures forall y :: YearNum(y) in r.1 <==> y in YearSet(df)
  {
    var years := SortedYears(df);
    var ys := YearSelectors(years);
    var cs := ["Overall"] + SortedRegions(df);
    assert cs[1..] == SortedRegions(df);
    (cs, ys)
  }

  /** Every pair of selector values the lists offer yields a tally, never
      the int() error. */
  lemma SelectorsNeverFail(df: seq<Row>, c: string, y: YearSel)
    requires y in CountryYearList(df).1
    ensures FetchMedalTally(df, y, c).Ok?
  {
    var ys := CountryYearList(df).1;
    var i :| 0 <= i < |ys| && ys[i] == y;
    if i > 0 {
      assert y.YearNum?;
    }
  }
}
