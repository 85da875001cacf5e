/** The Athlete-wise Analysis views (helper.py: weight_height, men_women):
    one row per athlete, an athlete being a distinct (Name, region) pair. */
module Athletes {
  import opened Wrappers
  import opened Seqs
  import opened Table
  import opened Grouping

  /** `df.drop_duplicates(subset=['Name', 'region'])`: each athlete's first row. */
  function AthleteRows(df: seq<Row>): (r: seq<Row>)
    ensures KeysDistinct(r, NameRegion)
    ensures |r| == |KeySet(df, NameRegion)|
    ensures forall x :: x in r ==> FirstWith(df, NameRegion, NameRegion(x)) == Some(x)
    ensures forall k :: k in KeySet(df, NameRegion) ==> FirstWith(df, NameRegion, k).value in r
  {
    var r := DedupBy(df, NameRegion);
    DistinctKeysCard(r, NameRegion);
    assert forall k :: k in KeySet(df, NameRegion) ==> FirstWith(df, NameRegion, k).value in r by {
      forall k | k in KeySet(df, NameRegion) ensures FirstWith(df, NameRegion, k).value in r {
        assert k in KeySet(r, NameRegion);
        var y :| y in r && NameRegion(y) == k;
      }
    }
    r
  }

  /** `fillna('No Medal')` on one row's Medal column. */
  function FillMedal(x: Row): (r: Row)
    ensures r.rec.medal.Some?
    ensures x.rec.medal.Some? ==> r == x
    ensures x.rec.medal.None? ==> r == x.(rec := x.rec.(medal := Some("No Medal")))
  {
    match x.rec.medal
    case Some(_) => x
    case None => x.(rec := x.rec.(medal := Some("No Medal")))
  }

  /** `fillna('No Medal')` on the Medal column of every row. */
  function FillMedals(rows: seq<Row>): (r: seq<Row>)
    ensures |r| == |rows|
    ensures forall i :: 0 <= i < |r| ==> r[i] == FillMedal(rows[i])
  {
    seq(|rows|, i requires 0 <= i < |rows| => FillMedal(rows[i]))
  }

  /** Filling the Medal column leaves Name and region, so the athletes stay distinct. */
  lemma FillMedalsKeepsAthletes(rows: seq<Row>)
    requires KeysDistinct(rows, NameRegion)
    ensures KeysDistinct(FillMedals(rows), NameRegion)
    ensures forall x :: x in FillMedals(rows) <==> exists y :: y in rows && x == FillMedal(y)
  {
    var r := FillMedals(rows);
    forall x | x in r ensures exists y :: y in rows && x == FillMedal(y) {
      var i :| 0 <= i < |r| && r[i] == x;
      assert rows[i] in rows;
    }
    forall y | y in rows ensures FillMedal(y) in r {
      var i :| 0 <= i < |rows| && rows[i] == y;
      assert r[i] == FillMedal(y);
    }
  }

  /** `weight_height(df, sport)`: every athlete's first row with the Medal
      gap filled, restricted to the given sport unless it is 'Overall'. */
  function WeightHeight(df: seq<Row>, sport: string): (r: seq<Row>)
    ensures forall x :: x in r ==> x.rec.medal.Some?
    ensures KeysDistinct(r, NameRegion)
    ensures sport != "Overall" ==> forall x :: x in r ==> x.rec.sport == sport
  {
    var athletes := AthleteRows(df);
    FillMedalsKeepsAthletes(athletes);
    var filled := FillMedals(athletes);
    if sport != "Overall" then
      SelectKeepsDistinct(filled, SportOf, sport, NameRegion);
      Select(filled, SportOf, sport)
    else filled
  }

  /** An athlete appears in the weight/height table exactly when the sport
      is 'Overall' or the athlete's first row is in that sport, and then
      with that first row, Medal filled. */
  lemma WeightHeightAthletes(df: seq<Row>, sport: string, k: (string, Option<string>))
    requires k in KeySet(df, NameRegion)
    ensures var first := FirstWith(df, NameRegion, k).value;
            FillMedal(first) in WeightHeight(df, sport) <==> (sport == "Overall" || first.rec.sport == sport)
  {
    var athletes := AthleteRows(df);
    FillMedalsKeepsAthletes(athletes);
  }

  /** Every row of the weight/height table is some athlete's first row, Medal filled. */
  lemma WeightHeightRows(df: seq<Row>, sport: string, x: Row)
    requires x in WeightHeight(df, sport)
    ensures NameRegion(x) in KeySet(df, NameRegion)
    ensures x == FillMedal(FirstWith(df, NameRegion, NameRegion(x)).value)
  {
    var athletes := AthleteRows(df);
    FillMedalsKeepsAthletes(athletes);
    var y :| y in athletes && x == FillMedal(y);
    assert NameRegion(y) == NameRegion(x);
  }

  /** A row of the participation series: a year and the number of male and
      female athletes counted in it (0 where a sex has none). */
  datatype SexCount = SexCount(year: int, male: nat, female: nat)

  function MaleOf(c: SexCount): nat { c.male }
  function FemaleOf(c: SexCount): nat { c.female }

  predicate IsMale(x: Row) { x.rec.sex == "M" }
  predicate IsFemale(x: Row) { x.rec.sex == "F" }

  /** The outer merge of the two per-year counts: one entry per year that
      `men` or `women` has, ascending, each side counting its rows of that
      year (0 where it has none). */
  function SexCounts(men: seq<Row>, women: seq<Row>): (r: seq<SexCount>)
    ensures |r| == |YearSet(men) + YearSet(women)|
    ensures forall i, j :: 0 <= i < j < |r| ==> r[i].year < r[j].year
    ensures forall i :: 0 <= i < |r| ==>
              r[i].male == |InYear(men, r[i].year)| && r[i].female == |InYear(women, r[i].year)|
  {
    var years := SortedYears(men + women);
    assert YearSet(men + women) == YearSet(men) + YearSet(women) by {
      assert forall x :: x in men + women <==> x in men || x in women;
    }
    SexCountsOver(men, women, years)
  }

  /** The per-year counts of both sides over the years `ys`, in their order. */
  function SexCountsOver(men: seq<Row>, women: seq<Row>, ys: seq<int>): (r: seq<SexCount>)
    ensures |r| == |ys|
    ensures forall i :: 0 <= i < |r| ==> r[i] == SexCount(ys[i], |InYear(men, ys[i])|, |InYear(women, ys[i])|)
  {
    seq(|ys|, i requires 0 <= i < |ys| => SexCount(ys[i], |InYear(men, ys[i])|, |InYear(women, ys[i])|))
  }

  /** The merge has exactly the years either side has, and no all-zero entry. */
  lemma SexCountsYears(men: seq<Row>, women: seq<Row>)
    ensures var r := SexCounts(men, women);
            && (forall y :: (exists i :: 0 <= i < |r| && r[i].year == y) <==> y in YearSet(men) + YearSet(women))
            && (forall i :: 0 <= i < |r| ==> r[i].male + r[i].female > 0)
  {
    var years := SortedYears(men + women);
    var r := SexCounts(men, women);
    assert forall x :: x in men + women <==> x in men || x in women;
    forall i | 0 <= i < |r| ensures r[i].male + r[i].female > 0 {
      assert r[i].year == years[i] && years[i] in YearSet(men + women);
      var x :| x in men + women && x.rec.year == years[i];
      if x in men {
        assert x in InYear(men, years[i]);
      } else {
        assert x in InYear(women, years[i]);
      }
    }
    forall y | y in YearSet(men) + YearSet(women) ensures exists i :: 0 <= i < |r| && r[i].year == y {
      assert y in YearSet(men + women);
      var i :| 0 <= i < |years| && years[i] == y;
      assert r[i].year == y;
    }
    forall i | 0 <= i < |r| ensures r[i].year in YearSet(men) + YearSet(women) {
      assert r[i].year == years[i];
      assert years[i] in years;
    }
  }

  /** `men_women(df)`: per year, the athletes whose first row is male and
      those whose first row is female, grouped by that row's year. */
  function MenWomen(df: seq<Row>): (r: seq<SexCount>)
    ensures var men, women := Filter(AthleteRows(df), IsMale), Filter(AthleteRows(df), IsFemale);
            && (forall i, j :: 0 <= i < j < |r| ==> r[i].year < r[j].year)
            && (forall y :: (exists i :: 0 <= i < |r| && r[i].year == y) <==> y in YearSet(men) + YearSet(women))
            && (forall i :: 0 <= i < |r| ==>
                  r[i].male == |InYear(men, r[i].year)| && r[i].female == |InYear(women, r[i].year)|)
  {
    var athletes := AthleteRows(df);
    SexCountsYears(Filter(athletes, IsMale), Filter(athletes, IsFemale));
    SexCounts(Filter(athletes, IsMale), Filter(athletes, IsFemale))
  }

  /** A column of the merge adds up to the number of rows on its side. */
  lemma SexColumnsTotal(men: seq<Row>, women: seq<Row>)
    ensures SumOf(SexCounts(men, women), MaleOf) == |men|
    ensures SumOf(SexCounts(men, women), FemaleOf) == |women|
  {
    var years := SortedYears(men + women);
    var r := SexCounts(men, women);
    assert forall x :: x in men ==> YearOf(x) in years by {
      forall x | x in men ensures YearOf(x) in years {
        assert x in men + women;
      }
    }
    assert forall x :: x in women ==> YearOf(x) in years by {
      forall x | x in women ensures YearOf(x) in years {
        assert x in men + women;
      }
    }
    assert forall i :: 0 <= i < |r| ==> r[i].year == years[i];
    YearCountsTotal(r, MaleOf, men, years);
    YearCountsTotal(r, FemaleOf, women, years);
  }

  /** The Male column counts the male athletes and the Female column the
      female ones; every year in the table has at least one of them. */
  lemma MenWomenColumns(df: seq<Row>)
    ensures var r := MenWomen(df);
            && SumOf(r, MaleOf) == |Filter(AthleteRows(df), IsMale)|
            && SumOf(r, FemaleOf) == |Filter(AthleteRows(df), IsFemale)|
            && (forall i :: 0 <= i < |r| ==> r[i].male + r[i].female > 0)
  {
    var athletes := AthleteRows(df);
    SexColumnsTotal(Filter(athletes, IsMale), Filter(athletes, IsFemale));
    SexCountsYears(Filter(athletes, IsMale), Filter(athletes, IsFemale));
  }

  /** Nobody is counted twice: all the counts together are at most the
      number of distinct (Name, region) athletes. */
  lemma MenWomenCountsAthletesOnce(df: seq<Row>)
    ensures SumOf(MenWomen(df), MaleOf) + SumOf(MenWomen(df), FemaleOf) <= |KeySet(df, NameRegion)|
  {
    MenWomenColumns(df);
    DisjointFilters(AthleteRows(df), IsMale, IsFemale);
  }
}
