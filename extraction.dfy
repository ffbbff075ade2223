/**
 * The session extractor: turns one loaded session into one row per entry of
 * its results table, with the session's weather summary on every row and
 * the fields of a race row or of a qualifying row.
 */
module Extraction {
  import opened Wrappers
  import opened Frames
  import opened Sessions

  /**
   * The weather fields of every row of a session.  `None` stands for a field
   * that was never assigned (no weather table, or the column is absent).
   */
  datatype WeatherSummary = WeatherSummary(
    avgTemp: Option<Cell<real>>,
    rainFlag: Option<int>,
    avgHumidity: Option<Cell<real>>,
    windSpeed: Option<Cell<real>>)

  /** The columns every row carries: event, driver identity, team and weather. */
  datatype Base = Base(
    year: int,
    roundNumber: int,
    race: string,
    driver: string,
    code: string,
    team: string,
    weather: WeatherSummary)

  /** A row of a race table or of a qualifying table. */
  datatype Row =
    | RaceRow(
        base: Base,
        grid: Cell<int>,
        finalPos: Cell<int>,
        status: string,
        points: Cell<real>,
        avgLapTime: Option<Cell<real>>,
        bestLap: Option<Cell<real>>,
        pitStops: nat,
        tyreStints: nat,
        tyreCompounds: Option<string>,
        winner: int,
        top3: int)
    | QualiRow(base: Base, qualiPos: Cell<int>, qualiTime: Option<real>)

  /** `(col > 0).any()`: some sample is present and strictly positive. */
  predicate AnyPositive(col: seq<Cell<real>>) {
    exists i :: 0 <= i < |col| && col[i].Val? && col[i].value > 0.0
  }

  /**
   * The session-wide weather summary.  An empty table leaves all four fields
   * unset.  Otherwise each field is set exactly when its column exists; the
   * rain flag is then 1 when some rain-intensity sample is positive and 0
   * when none is, and a mean is NaN only when its column holds no value.
   */
  function WeatherOf(w: WeatherTable): (s: WeatherSummary)
    ensures IsEmpty(w) ==> s == WeatherSummary(None, None, None, None)
    ensures s.rainFlag.Some? <==> !IsEmpty(w) && RainIntensity in w.columns
    ensures s.rainFlag == Some(1) <==> s.rainFlag.Some? && AnyPositive(Column(w, RainIntensity))
    ensures s.rainFlag == Some(0) <==> s.rainFlag.Some? && !AnyPositive(Column(w, RainIntensity))
    ensures s.avgTemp.Some? <==> !IsEmpty(w) && Temperature in w.columns
    ensures s.avgTemp.Some? ==> (s.avgTemp.value.Na? <==> AllNa(Column(w, Temperature)))
    ensures s.avgHumidity.Some? <==> !IsEmpty(w) && Humidity in w.columns
    ensures s.avgHumidity.Some? ==> (s.avgHumidity.value.Na? <==> AllNa(Column(w, Humidity)))
    ensures s.windSpeed.Some? <==> !IsEmpty(w) && WindSpeed in w.columns
    ensures s.windSpeed.Some? ==> (s.windSpeed.value.Na? <==> AllNa(Column(w, WindSpeed)))
  {
    if IsEmpty(w) then WeatherSummary(None, None, None, None)
    else
      WeatherSummary(
        if Temperature in w.columns then Some(Mean(Column(w, Temperature))) else None,
        if RainIntensity in w.columns then Some(if AnyPositive(Column(w, RainIntensity)) then 1 else 0) else None,
        if Humidity in w.columns then Some(Mean(Column(w, Humidity))) else None,
        if WindSpeed in w.columns then Some(Mean(Column(w, WindSpeed))) else None)
  }

  /** The two derived flags of a race row follow its final position. */
  predicate FlagsFromPosition(r: Row)
    requires r.RaceRow?
  {
    && (r.winner == 1 || r.winner == 0)
    && (r.top3 == 1 || r.top3 == 0)
    && (r.winner == 1 <==> r.finalPos == Val(1))
    && (r.top3 == 1 <==> r.finalPos.Val? && r.finalPos.value <= 3)
  }

  /** The distinct tyre compounds a driver used, in order of first use. */
  function CompoundList(laps: seq<Lap>): seq<string> {
    Unique(DropNa(Compounds(laps)))
  }

  /**
   * A race row: the classification columns of the results entry, the lap
   * aggregates of the driver's laps and the Winner/Top3 flags.  Without laps
   * the lap times and the compound list are unset and both counts are 0.
   * What the aggregates are when there are laps is stated by RaceRowLapTimes
   * and RaceRowCounts.
   */
  function RaceRowOf(base: Base, res: ResultEntry, laps: seq<Lap>): (r: Row)
    ensures r.RaceRow? && r.base == base
    ensures r.grid == res.gridPosition && r.finalPos == res.position
    ensures r.status == res.status && r.points == res.points
    ensures FlagsFromPosition(r)
    ensures r.winner == 1 ==> r.top3 == 1
    ensures laps == [] ==> r.avgLapTime == None && r.bestLap == None && r.tyreCompounds == None
    ensures laps == [] ==> r.pitStops == 0 && r.tyreStints == 0
    ensures laps != [] ==> r.avgLapTime.Some? && r.bestLap.Some? && r.tyreCompounds.Some?
  {
    var times := LapTimes(laps);
    RaceRow(
      base,
      res.gridPosition,
      res.position,
      res.status,
      res.points,
      if laps != [] then Some(Mean(times)) else None,
      if laps != [] then Some(Minimum(times)) else None,
      Count(PitOutTimes(laps)),
      NUnique(Compounds(laps)),
      if laps != [] then Some(JoinComma(CompoundList(laps))) else None,
      if res.position == Val(1) then 1 else 0,
      if res.position.Val? && res.position.value <= 3 then 1 else 0)
  }

  /**
   * The lap times of a race row: the mean and the best lap are NaN exactly
   * when no lap time is recorded, and a best lap is the fastest recorded lap.
   */
  lemma RaceRowLapTimes(base: Base, res: ResultEntry, laps: seq<Lap>)
    ensures var r := RaceRowOf(base, res, laps);
      && (r.avgLapTime.Some? ==> (r.avgLapTime.value.Na? <==> forall i :: 0 <= i < |laps| ==> laps[i].lapTime.Na?))
      && (r.bestLap.Some? ==> (r.bestLap.value.Na? <==> forall i :: 0 <= i < |laps| ==> laps[i].lapTime.Na?))
      && (r.bestLap.Some? && r.bestLap.value.Val? ==>
            (exists i :: 0 <= i < |laps| && laps[i].lapTime == r.bestLap.value) &&
            forall i :: 0 <= i < |laps| && laps[i].lapTime.Val? ==> r.bestLap.value.value <= laps[i].lapTime.value)
  {
    var times := LapTimes(laps);
    assert forall i :: 0 <= i < |laps| ==> times[i] == laps[i].lapTime;
    assert AllNa(times) <==> forall i :: 0 <= i < |laps| ==> laps[i].lapTime.Na?;
    var best := Minimum(times);
    if best.Val? {
      var k :| 0 <= k < |times| && times[k] == Val(best.value);
      assert laps[k].lapTime == best;
    }
  }

  /**
   * The counts of a race row: PitStops is the number of recorded pit-out
   * times, 0 exactly when there is none, and TyreStints the number of
   * distinct compounds.
   */
  lemma RaceRowCounts(base: Base, res: ResultEntry, laps: seq<Lap>)
    ensures var r := RaceRowOf(base, res, laps);
      && r.pitStops == Count(PitOutTimes(laps)) && r.pitStops <= |laps|
      && (r.pitStops == 0 <==> forall i :: 0 <= i < |laps| ==> laps[i].pitOutTime.Na?)
      && r.tyreStints == |CompoundList(laps)|
  {
    var pits := PitOutTimes(laps);
    assert forall i :: 0 <= i < |laps| ==> pits[i] == laps[i].pitOutTime;
    assert AllNa(pits) <==> forall i :: 0 <= i < |laps| ==> laps[i].pitOutTime.Na?;
  }

  /**
   * The qualifying time: the fastest recorded lap, unset when the driver has
   * no lap or no recorded lap time.
   */
  function QualiTimeOf(laps: seq<Lap>): (t: Option<real>)
    ensures t.None? <==> forall i :: 0 <= i < |laps| ==> laps[i].lapTime.Na?
    ensures t.Some? ==> exists i :: 0 <= i < |laps| && laps[i].lapTime == Val(t.value)
    ensures t.Some? ==> forall i :: 0 <= i < |laps| && laps[i].lapTime.Val? ==> t.value <= laps[i].lapTime.value
  {
    if laps == [] then None
    else
      var times := LapTimes(laps);
      assert forall i :: 0 <= i < |laps| ==> times[i] == laps[i].lapTime;
      match Minimum(times)
      case Na => None
      case Val(best) =>
        assert Val(best) in times;
        Some(best)
  }

  function BaseOf(event: EventInfo, weather: WeatherSummary, res: ResultEntry): Base {
    Base(event.year, event.roundNumber, event.eventName, res.fullName, res.abbreviation, res.teamName, weather)
  }

  /** The row of one results entry, given the session's weather summary. */
  function DriverRow(s: Session, kind: SessionKind, weather: WeatherSummary, res: ResultEntry): (r: Row)
    ensures r.base == BaseOf(s.event, weather, res)
    ensures r.RaceRow? <==> kind == Race
    ensures r.RaceRow? ==> r.finalPos == res.position && FlagsFromPosition(r)
    ensures r.QualiRow? ==> r.qualiPos == res.position
    ensures kind == Race ==> r == RaceRowOf(BaseOf(s.event, weather, res), res, PickDriver(s.laps, res.abbreviation))
    ensures kind == Qualifying ==> r.qualiTime == QualiTimeOf(PickDriver(s.laps, res.abbreviation))
  {
    var base := BaseOf(s.event, weather, res);
    var laps := PickDriver(s.laps, res.abbreviation);
    match kind
    case Race => RaceRowOf(base, res, laps)
    case Qualifying => QualiRow(base, res.position, QualiTimeOf(laps))
  }

  /**
   * The table extracted from a session: one row per results entry, in
   * results order, each carrying that entry's identity and team, the
   * session's event and the session-wide weather summary.
   */
  function SessionRows(s: Session, kind: SessionKind): (rows: seq<Row>)
    ensures |rows| == |s.results|
    ensures forall i :: 0 <= i < |rows| ==> rows[i].base == BaseOf(s.event, WeatherOf(s.weather), s.results[i])
    ensures forall i :: 0 <= i < |rows| ==> (rows[i].RaceRow? <==> kind == Race)
    ensures forall i :: 0 <= i < |rows| && rows[i].RaceRow? ==>
      rows[i].finalPos == s.results[i].position && FlagsFromPosition(rows[i])
    ensures forall i :: 0 <= i < |rows| && rows[i].QualiRow? ==> rows[i].qualiPos == s.results[i].position
  {
    var weather := WeatherOf(s.weather);
    seq(|s.results|, i requires 0 <= i < |s.results| => DriverRow(s, kind, weather, s.results[i]))
  }

  /**
   * The weather block of `extract_session_data`: each average is taken only
   * when the table has rows and that column, the rain flag only when it has
   * the rainfall column.
   */
  method SummarizeWeather(w: WeatherTable) returns (weather: WeatherSummary)
    ensures weather == WeatherOf(w)
  {
    var avgTemp, rainFlag, avgHumidity, windSpeed := None, None, None, None;
    if !IsEmpty(w) {
      if Temperature in w.columns {
        avgTemp := Some(Mean(Column(w, Temperature)));
      }
      if RainIntensity in w.columns {
        rainFlag := Some(if AnyPositive(Column(w, RainIntensity)) then 1 else 0);
      }
      if Humidity in w.columns {
        avgHumidity := Some(Mean(Column(w, Humidity)));
      }
      if WindSpeed in w.columns {
        windSpeed := Some(Mean(Column(w, WindSpeed)));
      }
    }
    weather := WeatherSummary(avgTemp, rainFlag, avgHumidity, windSpeed);
  }

  /**
   * The body of the driver loop of `extract_session_data`: the base columns,
   * then the race columns or the qualifying columns.
   */
  method BuildDriverRow(s: Session, kind: SessionKind, weather: WeatherSummary, res: ResultEntry) returns (row: Row)
    ensures row == DriverRow(s, kind, weather, res)
  {
    var laps := PickDriver(s.laps, res.abbreviation);
    var base := BaseOf(s.event, weather, res);
    match kind {
      case Race =>
        row := RaceRowOf(base, res, laps);
      case Qualifying =>
        var qtime := None;
        if laps != [] {
          var best := Minimum(LapTimes(laps));
          qtime := if best.Val? then Some(best.value) else None;
        }
        row := QualiRow(base, res.position, qtime);
    }
  }

  /** `extract_session_data`: weather first, then one appended row per results entry. */
  method ExtractSessionData(s: Session, kind: SessionKind) returns (rows: seq<Row>)
    ensures rows == SessionRows(s, kind)
  {
    var weather := SummarizeWeather(s.weather);
    ghost var table := SessionRows(s, kind);
    rows := [];
    for i := 0 to |s.results|
      invariant rows == table[..i]
    {
      var row := BuildDriverRow(s, kind, weather, s.results[i]);
      SessionRowsAt(s, kind, i);
      PrefixStep(table, i);
      rows := rows + [row];
    }
    PrefixAll(table);
  }

  lemma SessionRowsAt(s: Session, kind: SessionKind, i: nat)
    requires i < |s.results|
    ensures SessionRows(s, kind)[i] == DriverRow(s, kind, WeatherOf(s.weather), s.results[i])
  {
  }

  /**
   * A driver of the results table with no lap in the session's lap table
   * gets the defaults: no lap times, no compound list and zero counts in a
   * race, no qualifying time in qualifying.
   */
  lemma DriverWithoutLaps(s: Session, kind: SessionKind, i: nat)
    requires i < |s.results|
    requires forall j :: 0 <= j < |s.laps| ==> s.laps[j].driver != s.results[i].abbreviation
    ensures var r := SessionRows(s, kind)[i];
      && (r.RaceRow? ==> r.avgLapTime == None && r.bestLap == None && r.tyreCompounds == None)
      && (r.RaceRow? ==> r.pitStops == 0 && r.tyreStints == 0)
      && (r.QualiRow? ==> r.qualiTime == None)
  {
    SessionRowsAt(s, kind, i);
  }

  /**
   * The qualifying time of a driver is taken from that driver's own laps in
   * the session's lap table: unset exactly when none of them has a recorded
   * time, and otherwise the time of one of them, no slower than any other.
   */
  lemma SessionQualiTime(s: Session, i: nat)
    requires i < |s.results|
    ensures var t := SessionRows(s, Qualifying)[i].qualiTime;
      var code := s.results[i].abbreviation;
      && (t.None? <==> forall j :: 0 <= j < |s.laps| && s.laps[j].driver == code ==> s.laps[j].lapTime.Na?)
      && (t.Some? ==> exists j :: 0 <= j < |s.laps| && s.laps[j].driver == code && s.laps[j].lapTime == Val(t.value))
      && (t.Some? ==> forall j :: 0 <= j < |s.laps| && s.laps[j].driver == code && s.laps[j].lapTime.Val? ==>
            t.value <= s.laps[j].lapTime.value)
  {
    SessionRowsAt(s, Qualifying, i);
    PickedQualiTime(s.laps, s.results[i].abbreviation);
  }

  /** The qualifying time of the laps picked for `code`, in terms of the whole lap table. */
  lemma PickedQualiTime(laps: seq<Lap>, code: string)
    ensures var t := QualiTimeOf(PickDriver(laps, code));
      && (t.None? <==> forall j :: 0 <= j < |laps| && laps[j].driver == code ==> laps[j].lapTime.Na?)
      && (t.Some? ==> exists j :: 0 <= j < |laps| && laps[j].driver == code && laps[j].lapTime == Val(t.value))
      && (t.Some? ==> forall j :: 0 <= j < |laps| && laps[j].driver == code && laps[j].lapTime.Val? ==>
            t.value <= laps[j].lapTime.value)
  {
    var mine := PickDriver(laps, code);
    var t := QualiTimeOf(mine);
    if t.None? {
      forall j | 0 <= j < |laps| && laps[j].driver == code ensures laps[j].lapTime.Na? {
        assert laps[j] in mine;
      }
    } else {
      var k :| 0 <= k < |mine| && mine[k].lapTime == Val(t.value);
      assert mine[k] in laps;
      var j :| 0 <= j < |laps| && laps[j] == mine[k];
      assert laps[j].driver == code && laps[j].lapTime == Val(t.value);
      forall j | 0 <= j < |laps| && laps[j].driver == code && laps[j].lapTime.Val?
        ensures t.value <= laps[j].lapTime.value
      {
        assert laps[j] in mine;
      }
    }
  }

  /**
   * With compound names that hold no comma, the comma-joined compound list of a
   * driver with laps has exactly TyreStints entries; a driver whose laps
   * record no compound gets the empty string and 0 stints.
   */
  lemma TyreCompoundsListStints(base: Base, res: ResultEntry, laps: seq<Lap>)
    requires laps != []
    requires forall i :: 0 <= i < |laps| && laps[i].compound.Val? ==> ',' !in laps[i].compound.value
    ensures RaceRowOf(base, res, laps).tyreCompounds.Some?
    ensures AllNa(Compounds(laps)) ==>
      RaceRowOf(base, res, laps).tyreCompounds == Some("") && RaceRowOf(base, res, laps).tyreStints == 0
    ensures !AllNa(Compounds(laps)) ==>
      Split(RaceRowOf(base, res, laps).tyreCompounds.value) == CompoundList(laps) &&
      |Split(RaceRowOf(base, res, laps).tyreCompounds.value)| == RaceRowOf(base, res, laps).tyreStints
  {
    var names := CompoundList(laps);
    DropNaEmpty(Compounds(laps));
    forall n | n in names ensures ',' !in n {
      assert Val(n) in Compounds(laps);
      var i :| 0 <= i < |laps| && Compounds(laps)[i] == Val(n);
    }
    if !AllNa(Compounds(laps)) {
      assert DropNa(Compounds(laps))[0] in names;
      SplitJoinComma(names);
    }
  }

  // Counting the Winner and Top3 flags of one race table.

  /** The race rows classified at position `k` or better. */
  predicate PlacedWithin(r: Row, k: int) {
    r.RaceRow? && r.finalPos.Val? && r.finalPos.value <= k
  }

  /** The number of race rows classified at position `k` or better. */
  function CountPlaced(rows: seq<Row>, k: int): nat {
    if rows == [] then 0
    else CountPlaced(rows[..|rows| - 1], k) + (if PlacedWithin(rows[|rows| - 1], k) then 1 else 0)
  }

  /** The number of rows flagged Winner. */
  function Winners(rows: seq<Row>): nat {
    if rows == [] then 0
    else
      var last := rows[|rows| - 1];
      Winners(rows[..|rows| - 1]) + (if last.RaceRow? && last.winner == 1 then 1 else 0)
  }

  /** The number of rows flagged Top3. */
  function Podium(rows: seq<Row>): nat {
    if rows == [] then 0
    else
      var last := rows[|rows| - 1];
      Podium(rows[..|rows| - 1]) + (if last.RaceRow? && last.top3 == 1 then 1 else 0)
  }

  /** The final positions up to `k` that race rows hold. */
  function PlacesTaken(rows: seq<Row>, k: int): (places: set<int>)
    ensures forall v :: v in places ==> v <= k && exists i :: 0 <= i < |rows| && PlacedWithin(rows[i], k) && rows[i].finalPos == Val(v)
  {
    if rows == [] then {}
    else
      var init, last := rows[..|rows| - 1], rows[|rows| - 1];
      assert forall i :: 0 <= i < |init| ==> init[i] == rows[i];
      PlacesTaken(init, k) + (if PlacedWithin(last, k) then {last.finalPos.value} else {})
  }

  /** No two race rows share a final position, and positions start at 1. */
  predicate ProperClassification(rows: seq<Row>) {
    && (forall i, j :: 0 <= i < j < |rows| && rows[i].RaceRow? && rows[j].RaceRow? && rows[i].finalPos.Val? ==>
          rows[i].finalPos != rows[j].finalPos)
    && (forall i :: 0 <= i < |rows| && rows[i].RaceRow? && rows[i].finalPos.Val? ==> rows[i].finalPos.value >= 1)
  }

  /** With positions starting at 1, the Winner rows are the rows placed first. */
  lemma {:induction false} WinnersArePlacedFirst(rows: seq<Row>)
    requires forall i :: 0 <= i < |rows| && rows[i].RaceRow? ==> FlagsFromPosition(rows[i])
    requires ProperClassification(rows)
    ensures Winners(rows) == CountPlaced(rows, 1)
  {
    if rows != [] {
      var init := rows[..|rows| - 1];
      assert forall i :: 0 <= i < |init| ==> init[i] == rows[i];
      WinnersArePlacedFirst(init);
    }
  }

  /** The Top3 rows are the rows placed third or better. */
  lemma {:induction false} PodiumIsPlacedTop3(rows: seq<Row>)
    requires forall i :: 0 <= i < |rows| && rows[i].RaceRow? ==> FlagsFromPosition(rows[i])
    ensures Podium(rows) == CountPlaced(rows, 3)
  {
    if rows != [] {
      var init := rows[..|rows| - 1];
      assert forall i :: 0 <= i < |init| ==> init[i] == rows[i];
      PodiumIsPlacedTop3(init);
    }
  }

  /** Distinct positions: each counted row holds a position no other counted row holds. */
  lemma {:induction false} CountPlacedIsPlacesTaken(rows: seq<Row>, k: int)
    requires ProperClassification(rows)
    ensures CountPlaced(rows, k) == |PlacesTaken(rows, k)|
  {
    if rows != [] {
      var init, last := rows[..|rows| - 1], rows[|rows| - 1];
      assert forall i :: 0 <= i < |init| ==> init[i] == rows[i];
      CountPlacedIsPlacesTaken(init, k);
    }
  }

  /** The positions 1 to `k`. */
  function PositionRange(k: nat): (r: set<int>)
    ensures forall v :: v in r <==> 1 <= v <= k
    ensures |r| == k
  {
    if k == 0 then {} else PositionRange(k - 1) + {k}
  }

  /** At most `k` race rows are classified at position `k` or better. */
  lemma PlacedWithinBound(rows: seq<Row>, k: nat)
    requires ProperClassification(rows)
    ensures CountPlaced(rows, k) <= k
  {
    CountPlacedIsPlacesTaken(rows, k);
    var places := PlacesTaken(rows, k);
    var upTo := PositionRange(k);
    forall v | v in places ensures v in upTo {
      var i :| 0 <= i < |rows| && PlacedWithin(rows[i], k) && rows[i].finalPos == Val(v);
    }
    SubsetCardinality(places, upTo);
  }

  /**
   * In a race table whose classification gives each position to one driver,
   * at most one row is flagged Winner and at most three Top3; when some
   * driver finished first exactly one row is flagged Winner.
   */
  lemma PodiumBound(rows: seq<Row>)
    requires forall i :: 0 <= i < |rows| ==> rows[i].RaceRow? && FlagsFromPosition(rows[i])
    requires ProperClassification(rows)
    ensures Winners(rows) <= 1
    ensures Podium(rows) <= 3
    ensures (exists i :: 0 <= i < |rows| && rows[i].finalPos == Val(1)) ==> Winners(rows) == 1
  {
    WinnersArePlacedFirst(rows);
    PodiumIsPlacedTop3(rows);
    PlacedWithinBound(rows, 1);
    PlacedWithinBound(rows, 3);
    CountPlacedIsPlacesTaken(rows, 1);
    if i :| 0 <= i < |rows| && rows[i].finalPos == Val(1) {
      PlaceIsTaken(rows, 1, i);
    }
  }

  lemma {:induction false} PlaceIsTaken(rows: seq<Row>, k: int, i: nat)
    requires i < |rows| && PlacedWithin(rows[i], k)
    ensures rows[i].finalPos.value in PlacesTaken(rows, k)
  {
    var init := rows[..|rows| - 1];
    if i < |init| {
      assert init[i] == rows[i];
      PlaceIsTaken(init, k, i);
    }
  }

  /** Race tables extracted from a session inherit the classification's properties. */
  lemma SessionPodium(s: Session)
    requires forall i, j :: 0 <= i < j < |s.results| && s.results[i].position.Val? ==>
      s.results[i].position != s.results[j].position
    requires forall i :: 0 <= i < |s.results| && s.results[i].position.Val? ==> s.results[i].position.value >= 1
    ensures Winners(SessionRows(s, Race)) <= 1
    ensures Podium(SessionRows(s, Race)) <= 3
    ensures (exists i :: 0 <= i < |s.results| && s.results[i].position == Val(1)) ==> Winners(SessionRows(s, Race)) == 1
  {
    var rows := SessionRows(s, Race);
    PodiumBound(rows);
  }
}
