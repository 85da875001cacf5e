/** The "most successful athletes" leaderboard (helper.py: most_successful). */
module Leaderboard {
  import opened Wrappers
  import opened Seqs
  import opened Text
  import opened Table

  /** A leaderboard row: athlete, medal count, and the sport and region of
      the athlete's first row in the whole table (NaN when there is none). */
  datatype Leader = Leader(name: string, medals: nat, sport: Option<string>, region: Option<string>)

  /** A row of `value_counts()` on the Name column. */
  datatype NameCount = NameCount(name: string, count: nat)

  function CountScore(c: NameCount): int { c.count }
  function CountName(c: NameCount): string { c.name }

  /** The medal rows the leaderboard counts: rows with a medal, then, for
      filter type 'sport' (unless the value is 'Overall'), the rows whose
      sport equals the value ignoring case, or, for filter type 'country',
      the rows whose region contains the value ignoring case (NaN regions
      never match); any other filter type keeps every medal row. */
  function MatchingMedalRows(df: seq<Row>, filterValue: string, filterType: string): (r: seq<Row>)
    ensures filterType == "sport" && filterValue != "Overall" ==>
              forall x :: x in r <==> x in df && x.rec.medal.Some? && Lower(x.rec.sport) == Lower(filterValue)
    ensures filterType == "country" ==>
              forall x :: x in r <==> (x in df && x.rec.medal.Some? && x.region.Some?
                                       && Contains(Lower(x.region.value), Lower(filterValue)))
    ensures filterType != "country" && (filterType != "sport" || filterValue == "Overall") ==>
              forall x :: x in r <==> x in df && x.rec.medal.Some?
  {
    var medals := Filter(df, HasMedal);
    if filterType == "sport" && filterValue != "Overall" then
      Filter(medals, (x: Row) => Lower(x.rec.sport) == Lower(filterValue))
    else if filterType == "country" then
      Filter(medals, (x: Row) => x.region.Some? && Contains(Lower(x.region.value), Lower(filterValue)))
    else
      medals
  }

  /** Row `x` passes the filter of `most_successful`; the sport test is
      equality up to ASCII case. */
  ghost predicate Wanted(x: Row, filterValue: string, filterType: string) {
    && x.rec.medal.Some?
    && if filterType == "sport" && filterValue != "Overall" then EqualIgnoringAsciiCase(x.rec.sport, filterValue)
       else if filterType == "country" then x.region.Some? && Contains(Lower(x.region.value), Lower(filterValue))
       else true
  }

  /** The matching medal rows are the wanted rows of `df`, each as often as
      in `df` and in the order of `df`. */
  lemma MatchingMedalRowsExactly(df: seq<Row>, filterValue: string, filterType: string)
    ensures var r := MatchingMedalRows(df, filterValue, filterType);
            forall x :: multiset(r)[x] == if Wanted(x, filterValue, filterType) then multiset(df)[x] else 0
    ensures exists idx :: PickedAt(MatchingMedalRows(df, filterValue, filterType), df, idx)
  {
    var medals := Filter(df, HasMedal);
    var r := MatchingMedalRows(df, filterValue, filterType);
    FilterInOrder(df, HasMedal);
    var outer :| PickedAt(medals, df, outer);
    if filterType == "sport" && filterValue != "Overall" {
      var p := (x: Row) => Lower(x.rec.sport) == Lower(filterValue);
      assert r == Filter(medals, p);
      forall x: Row ensures p(x) == EqualIgnoringAsciiCase(x.rec.sport, filterValue) {
        LowerEqualIffIgnoringCase(x.rec.sport, filterValue);
      }
      FilterInOrder(medals, p);
      var inner :| PickedAt(r, medals, inner);
      PickedTwice(r, medals, df, inner, outer);
    } else if filterType == "country" {
      var p := (x: Row) => x.region.Some? && Contains(Lower(x.region.value), Lower(filterValue));
      assert r == Filter(medals, p);
      FilterInOrder(medals, p);
      var inner :| PickedAt(r, medals, inner);
      PickedTwice(r, medals, df, inner, outer);
    } else {
      assert r == medals;
    }
  }

  /** `rows['Name'].value_counts()` before sorting: one entry per distinct
      name, in order of first appearance, with its number of rows. */
  function NameCounts(rows: seq<Row>): (r: seq<NameCount>)
    ensures |r| == |KeySet(rows, NameOf)|
    ensures KeysDistinct(r, CountName)
    ensures forall c :: c in r ==> c.name in KeySet(rows, NameOf) && c.count == |Select(rows, NameOf, c.name)|
    ensures forall n :: n in KeySet(rows, NameOf) ==> exists c :: c in r && c.name == n
  {
    var firsts := DedupBy(rows, NameOf);
    var r := CountsOf(rows, firsts);
    CountsOfNames(rows, firsts);
    CountsOfCover(rows, firsts);
    r
  }

  /** Counting the names of a de-duplicated sequence keeps them distinct. */
  lemma CountsOfNames(rows: seq<Row>, firsts: seq<Row>)
    requires KeysDistinct(firsts, NameOf)
    ensures KeysDistinct(CountsOf(rows, firsts), CountName)
    ensures |KeySet(firsts, NameOf)| == |CountsOf(rows, firsts)|
  {
    var r := CountsOf(rows, firsts);
    assert forall i :: 0 <= i < |r| ==> CountName(r[i]) == NameOf(firsts[i]);
    DistinctKeysCard(firsts, NameOf);
  }

  /** The counts cover the names of `rows` and count each correctly. */
  lemma CountsOfCover(rows: seq<Row>, firsts: seq<Row>)
    requires KeySet(firsts, NameOf) == KeySet(rows, NameOf)
    ensures forall c :: c in CountsOf(rows, firsts) ==>
              c.name in KeySet(rows, NameOf) && c.count == |Select(rows, NameOf, c.name)|
    ensures forall n :: n in KeySet(rows, NameOf) ==> exists c :: c in CountsOf(rows, firsts) && c.name == n
  {
    var r := CountsOf(rows, firsts);
    forall c | c in r ensures c.name in KeySet(rows, NameOf) && c.count == |Select(rows, NameOf, c.name)| {
      var i :| 0 <= i < |r| && r[i] == c;
      assert firsts[i] in firsts;
    }
    forall n | n in KeySet(rows, NameOf) ensures exists c :: c in r && c.name == n {
      var y :| y in firsts && NameOf(y) == n;
      var i :| 0 <= i < |firsts| && firsts[i] == y;
      assert r[i] in r;
    }
  }

  /** The count of each name of `firsts` among `rows`, in the order of `firsts`. */
  function CountsOf(rows: seq<Row>, firsts: seq<Row>): (r: seq<NameCount>)
    ensures |r| == |firsts|
    ensures forall i :: 0 <= i < |r| ==> r[i] == NameCount(NameOf(firsts[i]), |Select(rows, NameOf, NameOf(firsts[i]))|)
  {
    seq(|firsts|, i requires 0 <= i < |firsts| => NameCount(NameOf(firsts[i]), |Select(rows, NameOf, NameOf(firsts[i]))|))
  }

  /** `.head(n)`. */
  function Head<T>(s: seq<T>, n: nat): (r: seq<T>)
    ensures |r| == if |s| < n then |s| else n
    ensures r == s[..|r|]
  {
    if |s| <= n then s else s[..n]
  }

  /** Adds the sport and region of the athlete's row in `info`, NaN when absent. */
  function Enrich(c: NameCount, info: seq<Row>): Leader {
    match FirstWith(info, NameOf, c.name)
    case None => Leader(c.name, c.count, None, None)
    case Some(x) => Leader(c.name, c.count, Some(x.rec.sport), x.region)
  }

  /** `top_athletes.merge(info, on='Name', how='left')`. */
  function MergeInfo(top: seq<NameCount>, info: seq<Row>): (r: seq<Leader>)
    ensures |r| == |top|
    ensures forall i :: 0 <= i < |r| ==> r[i].name == top[i].name && r[i].medals == top[i].count
    ensures forall i :: 0 <= i < |r| ==> r[i] == Enrich(top[i], info)
  {
    seq(|top|, i requires 0 <= i < |top| => Enrich(top[i], info))
  }

  /** `value_counts().reset_index().head(10)`: min(10, distinct names)
      entries with distinct names, counts never increasing, each count the
      number of that name's rows. */
  function TopTen(rows: seq<Row>): (r: seq<NameCount>)
    ensures |r| == (if |KeySet(rows, NameOf)| < 10 then |KeySet(rows, NameOf)| else 10)
    ensures forall i, j :: 0 <= i < j < |r| ==> r[i].count >= r[j].count && r[i].name != r[j].name
    ensures forall c :: c in r ==> c.name in KeySet(rows, NameOf) && c.count == |Select(rows, NameOf, c.name)|
  {
    HeadOfRanked(NameCounts(rows));
    Head(SortDesc(NameCounts(rows), CountScore), 10)
  }

  /** `most_successful(df, filter_value, filter_type)`. */
  function MostSuccessful(df: seq<Row>, filterValue: string, filterType: string): (r: seq<Leader>)
    ensures |r| <= 10
    ensures r == [] <==> MatchingMedalRows(df, filterValue, filterType) == []
  {
    var rows := MatchingMedalRows(df, filterValue, filterType);
    if rows == [] then []
    else
      assert NameOf(rows[0]) in KeySet(rows, NameOf);
      MergeInfo(TopTen(rows), DedupBy(df, NameOf))
  }

  /** The ten best of distinct-named counts: min(10, |counts|) of them,
      taken from `counts`, names distinct, counts never increasing. */
  lemma HeadOfRanked(counts: seq<NameCount>)
    requires KeysDistinct(counts, CountName)
    ensures var t := Head(SortDesc(counts, CountScore), 10);
            && |t| == (if |counts| < 10 then |counts| else 10)
            && (forall i, j :: 0 <= i < j < |t| ==> t[i].count >= t[j].count && t[i].name != t[j].name)
            && (forall c :: c in t ==> c in counts)
  {
    var ranked := SortDesc(counts, CountScore);
    var t := Head(ranked, 10);
    assert |ranked| == |counts| by {
      assert |multiset(ranked)| == |multiset(counts)|;
    }
    PermutationKeepsDistinct(counts, ranked, CountName);
    forall c | c in t ensures c in counts {
      assert c in ranked;
      assert c in multiset(counts);
    }
    forall i, j | 0 <= i < j < |t| ensures t[i].count >= t[j].count && t[i].name != t[j].name {
      assert t[i] == ranked[i] && t[j] == ranked[j];
      assert CountName(ranked[i]) != CountName(ranked[j]);
    }
  }

  /** An entry missing from the ten best has no higher count than the tenth. */
  lemma HeadOfRankedIsTop(counts: seq<NameCount>, c: NameCount)
    requires c in counts
    requires c !in Head(SortDesc(counts, CountScore), 10)
    ensures |Head(SortDesc(counts, CountScore), 10)| == 10
    ensures c.count <= Head(SortDesc(counts, CountScore), 10)[9].count
  {
    var ranked := SortDesc(counts, CountScore);
    var t := Head(ranked, 10);
    assert c in multiset(ranked);
    var k :| 0 <= k < |ranked| && ranked[k] == c;
    assert k >= |t|;
    assert ranked[9] == t[9];
  }

  /** A name missing from the top ten has no more rows than the tenth entry. */
  lemma TopTenIsTop(rows: seq<Row>, n: string)
    requires n in KeySet(rows, NameOf)
    requires forall c :: c in TopTen(rows) ==> c.name != n
    ensures |TopTen(rows)| == 10
    ensures |Select(rows, NameOf, n)| <= TopTen(rows)[9].count
  {
    var counts := NameCounts(rows);
    var c :| c in counts && c.name == n;
    HeadOfRankedIsTop(counts, c);
  }

  /** The leaderboard built from a non-empty set of medal rows. */
  lemma BoardRanking(rows: seq<Row>, info: seq<Row>)
    ensures var r := MergeInfo(TopTen(rows), info);
            && |r| == (if |KeySet(rows, NameOf)| < 10 then |KeySet(rows, NameOf)| else 10)
            && (forall i, j :: 0 <= i < j < |r| ==> r[i].medals >= r[j].medals && r[i].name != r[j].name)
            && (forall i :: 0 <= i < |r| ==>
                  r[i].name in KeySet(rows, NameOf) && r[i].medals == |Select(rows, NameOf, r[i].name)|)
  {
    var t := TopTen(rows);
    var r := MergeInfo(t, info);
    forall i | 0 <= i < |r|
      ensures r[i].name in KeySet(rows, NameOf) && r[i].medals == |Select(rows, NameOf, r[i].name)|
    {
      assert t[i] in t;
    }
  }

  /** The same, for the board built from given medal rows. */
  lemma BoardIsTop(rows: seq<Row>, info: seq<Row>, n: string)
    requires n in KeySet(rows, NameOf)
    requires forall i :: 0 <= i < |MergeInfo(TopTen(rows), info)| ==> MergeInfo(TopTen(rows), info)[i].name != n
    ensures var r := MergeInfo(TopTen(rows), info);
            |r| == 10 && |Select(rows, NameOf, n)| <= r[9].medals
  {
    var t := TopTen(rows);
    var r := MergeInfo(t, info);
    forall c | c in t ensures c.name != n {
      var k :| 0 <= k < |t| && t[k] == c;
      assert r[k].name == c.name;
    }
    TopTenIsTop(rows, n);
  }

  /** The leaderboard has min(10, distinct names) rows with distinct names,
      medal counts never increasing, each count the number of that
      athlete's matching medal rows. */
  lemma LeaderboardRanking(df: seq<Row>, filterValue: string, filterType: string)
    ensures var rows := MatchingMedalRows(df, filterValue, filterType);
            var r := MostSuccessful(df, filterValue, filterType);
            && |r| == (if |KeySet(rows, NameOf)| < 10 then |KeySet(rows, NameOf)| else 10)
            && (forall i, j :: 0 <= i < j < |r| ==> r[i].medals >= r[j].medals && r[i].name != r[j].name)
            && (forall i :: 0 <= i < |r| ==>
                  r[i].name in KeySet(rows, NameOf) && r[i].medals == |Select(rows, NameOf, r[i].name)|)
  {
    var rows := MatchingMedalRows(df, filterValue, filterType);
    if rows != [] {
      BoardRanking(rows, DedupBy(df, NameOf));
    } else {
      assert KeySet(rows, NameOf) == {};
    }
  }

  /** Nobody left off the leaderboard has more medals than its last row. */
  lemma LeaderboardIsTop(df: seq<Row>, filterValue: string, filterType: string, n: string)
    requires n in KeySet(MatchingMedalRows(df, filterValue, filterType), NameOf)
    requires forall i :: 0 <= i < |MostSuccessful(df, filterValue, filterType)| ==>
               MostSuccessful(df, filterValue, filterType)[i].name != n
    ensures var r := MostSuccessful(df, filterValue, filterType);
            r != [] && |Select(MatchingMedalRows(df, filterValue, filterType), NameOf, n)| <= r[|r| - 1].medals
  {
    var rows := MatchingMedalRows(df, filterValue, filterType);
    var r := MostSuccessful(df, filterValue, filterType);
    assert rows != [];
    BoardIsTop(rows, DedupBy(df, NameOf), n);
  }

  /** Each leaderboard row shows the sport and region of that athlete's
      first row in the unfiltered table. */
  lemma LeaderboardInfo(df: seq<Row>, filterValue: string, filterType: string, i: int)
    requires 0 <= i < |MostSuccessful(df, filterValue, filterType)|
    ensures var l := MostSuccessful(df, filterValue, filterType)[i];
            var first := FirstWith(df, NameOf, l.name);
            first.Some? && l.sport == Some(first.value.rec.sport) && l.region == first.value.region
  {
    var rows := MatchingMedalRows(df, filterValue, filterType);
    var r := MostSuccessful(df, filterValue, filterType);
    LeaderboardRanking(df, filterValue, filterType);
    var info := DedupBy(df, NameOf);
    var name := r[i].name;
    var x :| x in rows && NameOf(x) == name;
    assert x in df;
    assert name in KeySet(df, NameOf);
    assert name in KeySet(info, NameOf);
    var top := TopTen(rows);
    assert r[i] == Enrich(top[i], info);
    var f := FirstWith(info, NameOf, name).value;
    assert FirstWith(df, NameOf, NameOf(f)) == Some(f);
  }
}
