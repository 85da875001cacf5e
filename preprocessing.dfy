/** Construction of the canonical table (preprosesing.py): keep the Summer
    Games, left-join the region lookup on NOC, drop exact duplicate rows and
    add the Bronze/Gold/Silver indicator columns. The two CSV files are the
    parameters `athletes` and `regions`. */
module Preprocessing {
  import opened Wrappers
  import opened Seqs
  import opened Table

  function IsSummer(a: Record): bool { a.season == "Summer" }

  /** `athlete[athlete['Season'] == 'Summer']`. */
  function SummerRecords(athletes: seq<Record>): (r: seq<Record>)
    ensures forall a :: a in r ==> a.season == "Summer"
    ensures forall a: Record :: a.season == "Summer" ==> multiset(r)[a] == multiset(athletes)[a]
  {
    Filter(athletes, IsSummer)
  }

  /** The Summer rows keep their order in the file. */
  lemma SummerInOrder(athletes: seq<Record>)
    ensures exists idx :: PickedAt(SummerRecords(athletes), athletes, idx)
  {
    FilterInOrder(athletes, IsSummer);
    var idx :| PickedAt(Filter(athletes, IsSummer), athletes, idx);
    assert PickedAt(SummerRecords(athletes), athletes, idx);
  }

  function EntryNoc(e: RegionEntry): string { e.noc }

  /** The lookup has at most one row per NOC. */
  ghost predicate NocsUnique(regions: seq<RegionEntry>) {
    KeysDistinct(regions, EntryNoc)
  }

  /** The lookup rows that match `noc`, in lookup order. */
  function MatchesFor(regions: seq<RegionEntry>, noc: string): seq<RegionEntry> {
    Select(regions, EntryNoc, noc)
  }

  /** `a` is a joined row of record `a.rec`: either an entry of the lookup
      for its NOC supplied region and notes, or there is no such entry and
      both are NaN. */
  ghost predicate JoinedFrom(j: Joined, regions: seq<RegionEntry>) {
    if j.rec.noc in KeySet(regions, EntryNoc) then
      exists e :: e in regions && e.noc == j.rec.noc && j.region == e.region && j.notes == e.notes
    else
      j.region == None && j.notes == None
  }

  /** The rows a left join produces for one record: one per matching entry,
      or one with NaN region and notes when nothing matches. */
  function JoinRecord(a: Record, regions: seq<RegionEntry>): (r: seq<Joined>)
    ensures |r| >= 1
    ensures forall j :: j in r ==> j.rec == a && JoinedFrom(j, regions)
  {
    var ms := MatchesFor(regions, a.noc);
    if ms == [] then
      assert forall e :: e in regions && EntryNoc(e) == a.noc ==> e in ms;
      assert a.noc !in KeySet(regions, EntryNoc);
      [Joined(a, None, None)]
    else
      var r := seq(|ms|, i requires 0 <= i < |ms| => Joined(a, ms[i].region, ms[i].notes));
      assert forall j :: j in r ==> JoinedFrom(j, regions) by {
        forall j | j in r ensures JoinedFrom(j, regions) {
          var i :| 0 <= i < |r| && r[i] == j;
          assert ms[i] in ms;
          assert ms[i] in regions && EntryNoc(ms[i]) == a.noc;
        }
      }
      r
  }

  /** `merge(region, on='NOC', how='left')`: left rows in order, each
      followed by its matches in lookup order. */
  function LeftJoin(records: seq<Record>, regions: seq<RegionEntry>): (r: seq<Joined>)
    ensures |r| >= |records|
    ensures forall j :: j in r ==> j.rec in records && JoinedFrom(j, regions)
    decreases |records|
  {
    if records == [] then []
    else
      var init, last := records[..|records| - 1], records[|records| - 1];
      assert records == init + [last];
      LeftJoin(init, regions) + JoinRecord(last, regions)
  }

  /** The left join never drops a record: every record has a joined row. */
  lemma {:induction false} LeftJoinKeepsRecords(records: seq<Record>, regions: seq<RegionEntry>)
    ensures forall a :: a in records ==> exists j :: j in LeftJoin(records, regions) && j.rec == a
    decreases |records|
  {
    if records != [] {
      var init, last := records[..|records| - 1], records[|records| - 1];
      assert records == init + [last];
      LeftJoinKeepsRecords(init, regions);
      var left, right := LeftJoin(init, regions), JoinRecord(last, regions);
      assert LeftJoin(records, regions) == left + right;
      forall a | a in records ensures exists j: Joined :: j in left + right && j.rec == a {
        if a == last {
          assert right[0] in left + right;
        } else {
          assert a in init;
          var j :| j in left && j.rec == a;
          assert j in left + right;
        }
      }
    }
  }

  /** The joined row for a record when the lookup has at most one row per NOC. */
  function JoinedUnique(a: Record, regions: seq<RegionEntry>): Joined {
    match FirstWith(regions, EntryNoc, a.noc)
    case None => Joined(a, None, None)
    case Some(e) => Joined(a, e.region, e.notes)
  }

  /** With NOCs unique in the lookup, the left join keeps exactly one row
      per record, in order, carrying the region of the record's NOC or NaN. */
  lemma {:induction false} LeftJoinUniqueNocs(records: seq<Record>, regions: seq<RegionEntry>)
    requires NocsUnique(regions)
    ensures |LeftJoin(records, regions)| == |records|
    ensures forall i :: 0 <= i < |records| ==> LeftJoin(records, regions)[i] == JoinedUnique(records[i], regions)
    decreases |records|
  {
    if records != [] {
      var init, last := records[..|records| - 1], records[|records| - 1];
      assert records == init + [last];
      LeftJoinUniqueNocs(init, regions);
      MatchesUnique(regions, last.noc);
      assert JoinRecord(last, regions) == [JoinedUnique(last, regions)];
      var r := LeftJoin(records, regions);
      assert r == LeftJoin(init, regions) + [JoinedUnique(last, regions)];
      forall i | 0 <= i < |records| ensures r[i] == JoinedUnique(records[i], regions) {
        if i < |init| {
          assert records[i] == init[i];
        }
      }
    }
  }

  /** At most one lookup row matches a NOC when NOCs are unique, and it is
      the first one. */
  lemma MatchesUnique(regions: seq<RegionEntry>, noc: string)
    requires NocsUnique(regions)
    ensures MatchesFor(regions, noc) == match FirstWith(regions, EntryNoc, noc)
                                        case None => []
                                        case Some(e) => [e]
  {
    var ms := MatchesFor(regions, noc);
    var f := FirstWith(regions, EntryNoc, noc);
    SelectKeepsDistinct(regions, EntryNoc, noc, EntryNoc);
    if f.Some? {
      assert f.value in ms;
    }
  }

  function JoinedSelf(j: Joined): Joined { j }

  /** `drop_duplicates()` over every column. */
  function DropDuplicateRows(js: seq<Joined>): (r: seq<Joined>)
    ensures |r| <= |js|
    ensures Distinct(r)
    ensures forall j :: j in r <==> j in js
  {
    var r := DedupBy(js, JoinedSelf);
    assert forall j :: j in r <==> j in KeySet(r, JoinedSelf);
    assert forall j :: j in js <==> j in KeySet(js, JoinedSelf);
    r
  }

  /** `drop_duplicates()` keeps, in their order, the first occurrence of
      each row: the kept rows sit at increasing positions of `js`, and no
      earlier position holds the same row. */
  lemma DropDuplicatesInOrder(js: seq<Joined>)
    ensures exists idx :: PickedAt(DropDuplicateRows(js), js, idx) && FirstPositions(js, JoinedSelf, idx)
  {
    DedupByInOrder(js, JoinedSelf);
  }

  /** After dropping duplicate rows every joined row occurs exactly once. */
  lemma DropDuplicatesOnce(js: seq<Joined>, j: Joined)
    ensures multiset(DropDuplicateRows(js))[j] == if j in js then 1 else 0
  {
    DistinctOnce(DropDuplicateRows(js), j);
  }

  function Indicator(medal: Option<string>, colour: string): nat {
    if medal == Some(colour) then 1 else 0
  }

  /** `pd.get_dummies(df['Medal'])`, with the three columns fixed. */
  function OneHot(j: Joined): (r: Row)
    ensures IndicatorsMatchMedal(r)
    ensures r.rec == j.rec && r.region == j.region && r.notes == j.notes
  {
    Row(j.rec, j.region, j.notes,
        Indicator(j.rec.medal, "Bronze"), Indicator(j.rec.medal, "Gold"), Indicator(j.rec.medal, "Silver"))
  }

  /** The indicator columns added to every row. */
  function OneHotAll(js: seq<Joined>): (r: seq<Row>)
    ensures |r| == |js|
    ensures forall i :: 0 <= i < |js| ==> r[i] == OneHot(js[i])
  {
    seq(|js|, i requires 0 <= i < |js| => OneHot(js[i]))
  }

  /** Adding the indicator columns neither merges nor splits rows. */
  lemma OneHotAllRows(js: seq<Joined>)
    ensures Distinct(js) ==> Distinct(OneHotAll(js))
    ensures forall j :: j in js <==> OneHot(j) in OneHotAll(js)
    ensures forall x :: x in OneHotAll(js) ==> Joined(x.rec, x.region, x.notes) in js
  {
    var r := OneHotAll(js);
    forall j ensures j in js <==> OneHot(j) in r {
      if OneHot(j) in r {
        var i :| 0 <= i < |r| && r[i] == OneHot(j);
        assert js[i] == j;
      }
    }
    forall x | x in r ensures Joined(x.rec, x.region, x.notes) in js {
      var i :| 0 <= i < |r| && r[i] == x;
      assert js[i] == Joined(x.rec, x.region, x.notes);
    }
  }

  /** `preprocess()`: the canonical table all views are computed from. */
  function Preprocess(athletes: seq<Record>, regions: seq<RegionEntry>): (r: seq<Row>)
    ensures forall x :: x in r ==> x.rec.season == "Summer" && IndicatorsMatchMedal(x)
    ensures |r| <= |LeftJoin(SummerRecords(athletes), regions)|
    ensures Distinct(r)
    ensures forall j :: j in LeftJoin(SummerRecords(athletes), regions) <==> OneHot(j) in r
    ensures forall x :: x in r ==> x.rec in athletes && JoinedFrom(Joined(x.rec, x.region, x.notes), regions)
  {
    var summer := SummerRecords(athletes);
    var joined := LeftJoin(summer, regions);
    var kept := DropDuplicateRows(joined);
    OneHotAllRows(kept);
    OneHotAll(kept)
  }

  /** The canonical table lists the first occurrence of each row of the
      Summer left join, in join order, with its indicator columns added. */
  lemma PreprocessInOrder(athletes: seq<Record>, regions: seq<RegionEntry>)
    ensures var joined := LeftJoin(SummerRecords(athletes), regions);
            var r := Preprocess(athletes, regions);
            exists idx :: && |idx| == |r|
                          && (forall k, l :: 0 <= k < l < |idx| ==> idx[k] < idx[l])
                          && (forall k :: 0 <= k < |idx| ==> 0 <= idx[k] < |joined| && r[k] == OneHot(joined[idx[k]]))
                          && FirstPositions(joined, JoinedSelf, idx)
  {
    var joined := LeftJoin(SummerRecords(athletes), regions);
    var kept := DropDuplicateRows(joined);
    var r := Preprocess(athletes, regions);
    assert r == OneHotAll(kept);
    DropDuplicatesInOrder(joined);
    var idx :| PickedAt(kept, joined, idx) && FirstPositions(joined, JoinedSelf, idx);
    assert forall k :: 0 <= k < |idx| ==> r[k] == OneHot(kept[k]);
  }
}
