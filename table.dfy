/** The rows the dashboard works on: the athlete-event records of
    athlete_events.csv, the NOC-to-region lookup of noc_regions.csv, the
    joined record and the canonical row with its three medal indicators. */
module Table {
  import opened Wrappers

  /** One athlete's participation in one event (a row of athlete_events.csv).
      Age, height and weight are passed through untouched; NaN is None. */
  datatype Record = Record(
    id: int, name: string, sex: string,
    age: Option<real>, height: Option<real>, weight: Option<real>,
    team: string, noc: string, games: string, year: int, season: string,
    city: string, sport: string, event: string, medal: Option<string>)

  /** A row of noc_regions.csv; region and notes may be NaN. */
  datatype RegionEntry = RegionEntry(noc: string, region: Option<string>, notes: Option<string>)

  /** A record after the left join on NOC: the lookup's region and notes columns added. */
  datatype Joined = Joined(rec: Record, region: Option<string>, notes: Option<string>)

  /** A row of the canonical table: the joined columns plus the one-hot
      columns Bronze, Gold and Silver. */
  datatype Row = Row(rec: Record, region: Option<string>, notes: Option<string>,
                     bronze: nat, gold: nat, silver: nat)

  /** The columns a caller can name. */
  datatype Column =
    | Id | Name | Sex | Age | Height | Weight | Team | Noc | Games | Year
    | Season | City | Sport | Event | Medal | Region | Notes

  /** A cell of the table; NaN cells are Null (and `drop_duplicates` treats
      two of them as equal). */
  datatype Cell = Null | IntCell(i: int) | RealCell(x: real) | StrCell(s: string)

  function OptStr(o: Option<string>): Cell {
    match o
    case None => Null
    case Some(s) => StrCell(s)
  }

  function OptReal(o: Option<real>): Cell {
    match o
    case None => Null
    case Some(x) => RealCell(x)
  }

  /** `row[column]`. */
  function Get(r: Row, c: Column): Cell {
    match c
    case Id => IntCell(r.rec.id)
    case Name => StrCell(r.rec.name)
    case Sex => StrCell(r.rec.sex)
    case Age => OptReal(r.rec.age)
    case Height => OptReal(r.rec.height)
    case Weight => OptReal(r.rec.weight)
    case Team => StrCell(r.rec.team)
    case Noc => StrCell(r.rec.noc)
    case Games => StrCell(r.rec.games)
    case Year => IntCell(r.rec.year)
    case Season => StrCell(r.rec.season)
    case City => StrCell(r.rec.city)
    case Sport => StrCell(r.rec.sport)
    case Event => StrCell(r.rec.event)
    case Medal => OptStr(r.rec.medal)
    case Region => OptStr(r.region)
    case Notes => OptStr(r.notes)
  }

  // Column projections, used as grouping and de-duplication keys.

  function YearOf(r: Row): int { r.rec.year }
  function NameOf(r: Row): string { r.rec.name }
  function SportOf(r: Row): string { r.rec.sport }
  function RegionOf(r: Row): Option<string> { r.region }
  function GoldOf(r: Row): nat { r.gold }
  function SilverOf(r: Row): nat { r.silver }
  function BronzeOf(r: Row): nat { r.bronze }
  function HasMedal(r: Row): bool { r.rec.medal.Some? }

  /** The (Name, region) pair that identifies an athlete. */
  function NameRegion(r: Row): (string, Option<string>) { (r.rec.name, r.region) }

  /** The key (Team, NOC, Games, Year, City, Sport, Event, Medal) under which
      one team medal is counted once. */
  function MedalKey(r: Row): (string, string, string, int, string, string, string, Option<string>) {
    (r.rec.team, r.rec.noc, r.rec.games, r.rec.year, r.rec.city, r.rec.sport, r.rec.event, r.rec.medal)
  }

  /** The indicator columns agree with the Medal column: Gold, Silver and
      Bronze each set exactly one indicator, anything else (NaN included) none. */
  ghost predicate IndicatorsMatchMedal(r: Row) {
    && (r.rec.medal == Some("Gold") ==> r.gold == 1 && r.silver == 0 && r.bronze == 0)
    && (r.rec.medal == Some("Silver") ==> r.gold == 0 && r.silver == 1 && r.bronze == 0)
    && (r.rec.medal == Some("Bronze") ==> r.gold == 0 && r.silver == 0 && r.bronze == 1)
    && (r.rec.medal !in {Some("Gold"), Some("Silver"), Some("Bronze")} ==> r.gold == 0 && r.silver == 0 && r.bronze == 0)
  }
}
