/**
 * One timed session as the timing-data library hands it over after loading:
 * the event it belongs to, the results table (one entry per driver), the lap
 * table and the weather samples.  Loading itself is not modelled; the season
 * builder receives sessions through a fetch function.
 */
module Sessions {
  import opened Frames

  /** The session tags the pipeline requests: 'Q' and 'R'. */
  datatype SessionKind = Qualifying | Race

  /** `session.event`: the year of the event date, the round number and the event name. */
  datatype EventInfo = EventInfo(year: int, roundNumber: int, eventName: string)

  /** One row of `session.results`. Positions are whole numbers or NaN. */
  datatype ResultEntry = ResultEntry(
    abbreviation: string,
    fullName: string,
    teamName: string,
    gridPosition: Cell<int>,
    position: Cell<int>,
    status: string,
    points: Cell<real>)

  /** One row of `session.laps`; lap times and pit-out times in seconds. */
  datatype Lap = Lap(driver: string, lapTime: Cell<real>, pitOutTime: Cell<real>, compound: Cell<string>)

  /**
   * The columns of `session.weather_data` the extractor looks at; any other
   * column the table may carry stands as OtherColumn.
   */
  datatype WeatherColumn = Temperature | RainIntensity | Humidity | WindSpeed | OtherColumn

  /** One weather sample; a value in a column the table lacks is never read. */
  datatype WeatherSample = WeatherSample(
    temperature: Cell<real>,
    rainIntensity: Cell<real>,
    humidity: Cell<real>,
    windSpeed: Cell<real>)

  datatype WeatherTable = WeatherTable(columns: set<WeatherColumn>, samples: seq<WeatherSample>)

  datatype Session = Session(event: EventInfo, results: seq<ResultEntry>, laps: seq<Lap>, weather: WeatherTable)

  /** `DataFrame.empty`: no rows or no columns. */
  predicate IsEmpty(w: WeatherTable) {
    w.samples == [] || w.columns == {}
  }

  function SampleValue(s: WeatherSample, c: WeatherColumn): Cell<real> {
    match c
    case Temperature => s.temperature
    case RainIntensity => s.rainIntensity
    case Humidity => s.humidity
    case WindSpeed => s.windSpeed
    case OtherColumn => Na
  }

  /** `weather[c]`: the column's values, one per sample. */
  function Column(w: WeatherTable, c: WeatherColumn): seq<Cell<real>> {
    seq(|w.samples|, i requires 0 <= i < |w.samples| => SampleValue(w.samples[i], c))
  }

  /**
   * `laps.pick_driver(code)`: the driver's laps, each as often as the lap
   * table holds it (PickDriverCopies), in lap-table order (PickDriverAppend).
   */
  function PickDriver(laps: seq<Lap>, code: string): (mine: seq<Lap>)
    ensures |mine| <= |laps|
    ensures forall lap :: lap in mine <==> lap in laps && lap.driver == code
  {
    if laps == [] then []
    else
      var init := PickDriver(laps[..|laps| - 1], code);
      var lap := laps[|laps| - 1];
      assert laps == laps[..|laps| - 1] + [lap];
      if lap.driver == code then init + [lap] else init
  }

  /** Picking a driver keeps every lap of that driver, as often as it occurs, and no other. */
  lemma {:induction false} PickDriverCopies(laps: seq<Lap>, code: string, lap: Lap)
    ensures multiset(PickDriver(laps, code))[lap] == if lap.driver == code then multiset(laps)[lap] else 0
  {
    if laps != [] {
      var init, last := laps[..|laps| - 1], laps[|laps| - 1];
      assert laps == init + [last];
      assert multiset(laps) == multiset(init) + multiset{last};
      PickDriverCopies(init, code, lap);
    }
  }

  /** Picking a driver keeps lap-table order: it distributes over concatenation. */
  lemma {:induction false} PickDriverAppend(laps: seq<Lap>, more: seq<Lap>, code: string)
    ensures PickDriver(laps + more, code) == PickDriver(laps, code) + PickDriver(more, code)
  {
    if more != [] {
      var init := more[..|more| - 1];
      assert (laps + more)[..|laps + more| - 1] == laps + init;
      assert (laps + more)[|laps + more| - 1] == more[|more| - 1];
      PickDriverAppend(laps, init, code);
    } else {
      assert laps + more == laps;
    }
  }

  // The lap columns `LapTime`, `PitOutTime` and `Compound`.

  function LapTimes(laps: seq<Lap>): seq<Cell<real>> {
    seq(|laps|, i requires 0 <= i < |laps| => laps[i].lapTime)
  }

  function PitOutTimes(laps: seq<Lap>): seq<Cell<real>> {
    seq(|laps|, i requires 0 <= i < |laps| => laps[i].pitOutTime)
  }

  function Compounds(laps: seq<Lap>): seq<Cell<string>> {
    seq(|laps|, i requires 0 <= i < |laps| => laps[i].compound)
  }
}
