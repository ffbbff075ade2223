# F1 dataset assembly, modelled in Dafny

This project models the dataset builder of an F1 winner-prediction project
(`dataLoader.py`). For every season in `YEARS`, the builder loads each
conventional Grand Prix's qualifying and race sessions through the FastF1
timing library. It turns each session into one row per entry of the session's results table,
left-joins the qualifying position and time onto the race rows by
(Year, Race, Code), and concatenates the per-event tables into a season table.
It then concatenates the non-empty season tables into one corpus.

The model is split into modules that follow the pipeline:

- `Wrappers`: `Option` and `Result`.
- `Frames`: the pandas semantics the builder relies on.
  - A cell is missing (`Na`, for NaN/NaT) or holds a value.
  - `mean`, `min`, `count`, `unique`, `nunique` and `dropna` are defined on columns of cells.
  - `','.join` and `str.split(',')` are modelled.
  - `concat` is `Flatten`.
- `Sessions`: a loaded session is plain input data: its event, its results
  table, its lap table, and a weather table whose columns may be absent.
  `pick_driver` is modelled here.
- `Extraction`: `extract_session_data`.
  - The weather block and the per-driver rules are functions.
  - The extractor is a method with the source's append loop. It is proved
    equal to `SessionRows`, the table-valued specification.
- `Season`: `build_race_dataset`, the left merge, the `'conventional'`
  filter and `build_season_dataset`. The season builder is a method with the
  source's loop and `continue`, proved equal to `SeasonRows`.
- `Corpus`: the top-level loop over `YEARS`, as the method `BuildCorpus`,
  proved equal to `CorpusOf`.

How Python and pandas values are represented:

- Python `None` is `Option.None`.
- A pandas missing value is `Cell.Na`.
- The race table distinguishes the two kinds of null:
  - `BestLap` is `None` for a driver without laps.
  - `BestLap` is `Some(Na)` for a driver whose laps have no recorded time.
- Durations are exact real numbers of seconds.

The timing library is a parameter:

- `fetch(year, name, kind)` is the session after `get_session(...).load()`.
  It is `None` when loading raised and `build_race_dataset` caught the exception.
- `scheduleOf(year)` is `get_event_schedule(year)`.

The final `pd.concat(all_years)` raises on an empty list, because pandas has no
object to concatenate. The model makes this an error result,
`Failure(NoObjectsToConcatenate)`, instead of a precondition. The case then stays
reachable and is stated in `CorpusIsAllSeasons`.

## Model

| member | source | states |
|---|---|---|
| Frames.DropNa | dataLoader.py:69 | `dropna()` keeps exactly the present values and is no longer than the column |
| Frames.DropNaCopies | dataLoader.py:69 | `dropna()` keeps each present value as many times as the column holds it |
| Frames.DropNaAppend | dataLoader.py:69 | `dropna()` keeps column order: it distributes over concatenation of columns |
| Frames.DropNaEmpty | dataLoader.py:69 | `dropna()` is empty exactly when every cell is missing |
| Frames.Mean | dataLoader.py:32-38 | `mean()` is NaN exactly when no value is present; otherwise it lies between the least and the greatest present value |
| Frames.MeanWithinValues | dataLoader.py:65 | the arithmetic mean of a non-empty list is bounded below and above by members of the list |
| Frames.Minimum | dataLoader.py:66 | `min()` is NaN exactly when no value is present; otherwise it is a present value no greater than any other |
| Frames.DropNaFull | dataLoader.py:67 | `dropna()` keeps the column's length exactly when no cell is missing |
| Frames.Count | dataLoader.py:67 | `count()` is the number of present cells, counted with multiplicity (the length of `dropna()`). It is at most the column length, 0 exactly when all cells are missing, and the full length exactly when none is |
| Frames.Unique | dataLoader.py:69 | `unique()` holds the same values as its input, each once, in order of first appearance, and is no longer |
| Frames.NUnique | dataLoader.py:68 | `nunique()` is the length of `dropna().unique()`, and 0 exactly when every cell is missing |
| Frames.SplitJoinComma | dataLoader.py:69 | splitting `','.join(names)` at commas gives the names back when no name holds a comma |
| Frames.FlattenLength | dataLoader.py:124 | `concat` is as long as all tables together |
| Frames.FlattenMember | dataLoader.py:124 | a row is in the `concat` exactly when it is in one of the tables |
| Frames.FlattenAppend | dataLoader.py:121-124 | appending a table to the list appends its rows to the `concat` |
| Frames.FlattenSingle | dataLoader.py:141 | the `concat` of one table is that table |
| Sessions.PickDriver | dataLoader.py:42 | `pick_driver(code)` keeps exactly the laps of that driver and is no longer than the lap table |
| Sessions.PickDriverCopies | dataLoader.py:42 | `pick_driver(code)` keeps each lap of that driver as many times as the lap table holds it, and no lap of another driver |
| Sessions.PickDriverAppend | dataLoader.py:42 | `pick_driver(code)` keeps lap-table order: it distributes over concatenation of lap tables |
| Extraction.WeatherOf | dataLoader.py:28-38 | an empty table leaves all four fields `None`; otherwise a field is set exactly when its column exists; the rain flag is 1 exactly when some sample is positive and 0 exactly when none is; a mean is NaN exactly when its column holds no value |
| Extraction.SummarizeWeather | dataLoader.py:28-38 | the imperative weather block, with its conditional reassignments, computes `WeatherOf` |
| Extraction.RaceRowOf | dataLoader.py:58-72 | a race row copies the results entry's grid, position, status and points. Winner is 1 exactly for position 1 and Top3 exactly for positions up to 3, so Winner implies Top3. Without laps AvgLapTime, BestLap and TyreCompounds are `None` and both counts 0; with laps the three are set |
| Extraction.RaceRowLapTimes | dataLoader.py:65-66 | AvgLapTime and BestLap are NaN exactly when none of the laps has a recorded time; a best lap is attained by some lap and is no slower than any |
| Extraction.RaceRowCounts | dataLoader.py:67-68 | PitStops is the number of recorded pit-out times, at most the number of laps, and 0 exactly when none is recorded; TyreStints is the number of distinct compounds |
| Extraction.QualiTimeOf | dataLoader.py:73-77 | the qualifying time is `None` exactly when no lap time is recorded (in particular without laps); otherwise it is attained by some lap and no slower than any |
| Extraction.DriverRow | dataLoader.py:41-82 | a row carries the entry's base columns. It is a race row exactly for the race session, built from the laps that `pick_driver` gives for the entry's code, with flags following its position. A qualifying row carries the entry's position and the qualifying time of those laps |
| Extraction.SessionRows | dataLoader.py:40-86 | one row per results entry, in results order, each with that entry's driver, code and team, the session's event and the one weather summary of the session |
| Extraction.DriverWithoutLaps | dataLoader.py:65-69 | a results entry with no lap in the session's lap table gets `None` lap times and compound list and zero counts in a race, and no qualifying time in qualifying |
| Extraction.PickedQualiTime | dataLoader.py:74-77 | the qualifying time of the laps picked for a code is unset exactly when none of that driver's laps in the lap table has a time, and otherwise is one of their times, no slower than any |
| Extraction.SessionQualiTime | dataLoader.py:73-82 | the QualiTime of results entry `i` comes from that driver's own laps: unset exactly when none has a recorded time, otherwise the fastest of them |
| Extraction.BuildDriverRow | dataLoader.py:41-83 | the loop body computes the driver's row, including the qualifying-time choice |
| Extraction.ExtractSessionData | dataLoader.py:20-86 | the append loop yields exactly `SessionRows` |
| Extraction.TyreCompoundsListStints | dataLoader.py:68-69 | for a driver with laps the compound list is set; it is "" with 0 stints when no compound is recorded, and otherwise splits back into the distinct compounds, as many as TyreStints |
| Extraction.WinnersArePlacedFirst | dataLoader.py:70 | with positions starting at 1, the rows flagged Winner are the rows classified first |
| Extraction.PodiumIsPlacedTop3 | dataLoader.py:71 | the rows flagged Top3 are the rows classified third or better |
| Extraction.PlacedWithinBound | dataLoader.py:70-71 | with distinct positions at most `k` race rows are classified `k`-th or better |
| Extraction.PodiumBound | dataLoader.py:70-71 | in a properly classified race table at most one row is Winner and at most three Top3, and exactly one is Winner when someone finished first |
| Extraction.SessionPodium | dataLoader.py:40-72 | the race table extracted from a session with distinct positions has at most one Winner and three Top3, and exactly one Winner when someone finished first |
| Season.Matching | dataLoader.py:116-117 | the qualifying rows with a given key, exactly, and none exactly when no row has that key |
| Season.MatchingCopies | dataLoader.py:116-117 | each qualifying row with the key is matched as many times as the qualifying table holds it, and no other row is matched |
| Season.MatchingAppend | dataLoader.py:116-117 | the matches keep the order of the qualifying table: matching distributes over concatenation |
| Season.Attach | dataLoader.py:114-119 | a race row is emitted once per matching qualifying row, carrying that row's QualiPos and QualiTime, or once with null columns when nothing matches |
| Season.LeftMerge | dataLoader.py:114-119 | the left merge has at least as many rows as the race table, and every row it emits is a race row |
| Season.LeftMergeKeepsEveryRow | dataLoader.py:114-119 | the left merge never drops a race row: each race row appears in it |
| Season.AttachUnique | dataLoader.py:114-119 | with unique keys a race row is emitted once, with its looked-up columns |
| Season.LeftMergeAt | dataLoader.py:114-119 | with unique keys row `i` of the merge is race row `i` with the columns of its matching qualifying row |
| Season.LeftMergeOneToOne | dataLoader.py:114-119 | with unique keys the merge keeps every race row exactly once and in order; the qualifying columns of a row are those of the qualifying row with the same (Year, Race, Code), and are absent exactly when there is none (a matched driver can still have an unset QualiTime) |
| Season.AtMostOneMatch | dataLoader.py:117 | with unique keys a key matches at most one qualifying row, the one that has it |
| Season.SessionKeysUnique | dataLoader.py:44-50 | a qualifying table of drivers with distinct codes has unique (Year, Race, Code) keys |
| Season.RaceDataset | dataLoader.py:88-96 | a failed load gives no rows; a loaded session gives one row per results entry, of the requested kind |
| Season.BuildRaceDataset | dataLoader.py:88-96 | `build_race_dataset` computes `RaceDataset`; a failed load yields the empty table |
| Season.Conventional | dataLoader.py:103 | the filter is no longer than the schedule |
| Season.ConventionalMembers | dataLoader.py:103 | an event is kept exactly when it is scheduled and its format is exactly 'conventional' |
| Season.ConventionalAppend | dataLoader.py:103 | the filter keeps schedule order |
| Season.RetainedTablesAppend | dataLoader.py:105-121 | visiting one more event appends its merged table when both of its tables had rows, and nothing otherwise |
| Season.BuildSeasonDataset | dataLoader.py:99-125 | the loop with `continue` and the final `concat`-or-empty yields exactly `SeasonRows` |
| Season.EventGate | dataLoader.py:107-111 | an event contributes rows exactly when it is conventional and both its qualifying and race tables are non-empty; a failed load of either session contributes nothing |
| Season.SeasonRowsAppend | dataLoader.py:103-124 | one more schedule entry appends exactly that event's rows to the season table |
| Season.OpeningEvent | dataLoader.py:103-124 | an event followed by a non-conventional one gives that event's rows only |
| Season.TwoEventsAndATest | dataLoader.py:103-124 | two conventional events around a testing event give their rows in order, and the second event's rows vanish when its race fails to load |
| Season.SeasonProvenance | dataLoader.py:103-124 | every season row comes from the merged table of a scheduled conventional event |
| Season.RetainedFrom | dataLoader.py:105-121 | every kept table is the merged table of one of the visited events |
| Season.EventKeepsRaceRows | dataLoader.py:107-119 | when each driver qualifies once, a kept event's table is its race table row for row |
| Season.SeasonRowCount | dataLoader.py:105-124 | when each driver qualifies once, the season table has exactly as many rows as the kept events' race tables |
| Corpus.NonEmptySeasonsAppend | dataLoader.py:136-139 | one more year appends its season table exactly when that table has rows |
| Corpus.BuildCorpus | dataLoader.py:135-141 | the top-level loop yields exactly `CorpusOf`: the `concat` of the non-empty seasons in year order, or the error of `concat` of nothing |
| Corpus.BuildConfiguredCorpus | dataLoader.py:133-141 | the script's run over `YEARS`, 2018 to 2024 in order, yields `CorpusOf` those years |
| Corpus.CorpusIsAllSeasons | dataLoader.py:135-141 | skipping empty seasons loses no row: the corpus fails exactly when all seasons are empty, and otherwise is every season's rows in year order, as many as all seasons together |
| Corpus.NonEmptyKeepsRows | dataLoader.py:136-141 | the concatenation of the non-empty seasons equals that of all seasons |
| Corpus.EmptyFirstSeason | dataLoader.py:135-141 | with an empty first season and a non-empty second, the corpus is exactly the second season |

## Left out

- FastF1 itself is not modelled and becomes the parameters `fetch` and `scheduleOf`. This covers the cache, `get_session`, `session.load`, `get_event_schedule` and the download. An exception while loading a session is a `None` session.
- `get_event_schedule` is called outside any `try`, so a failure there ends the whole run. `scheduleOf` cannot fail, so the model does not capture that abort.
- `build_race_dataset` also catches exceptions raised inside the extraction of a loaded session, such as a missing column. The model has no such failure: an exception is represented only by a `None` session.
- Session tags other than 'Q' and 'R' are never requested by the builder. `SessionKind` has only these two.
- Floating-point rounding and `total_seconds()` are not modelled. Durations are exact reals in seconds.
- Frames.Mean: states the null behaviour and that the mean lies within the present values. The exact value is the sum divided by the count by definition.
- Building a DataFrame from row dicts is reduced to the list of rows. The model leaves out the `None`→NaN coercion of mixed columns and the union of columns.
- The `ignore_index=True` renumbering of `concat` is left out: the model has no index.
- Season.LeftMerge: for every input, the model states only that every race row is kept (`LeftMergeKeepsEveryRow`) and that no other row appears. The provenance of the qualifying columns and the one-to-one order are proved only when qualifying keys are unique (`LeftMergeOneToOne`), which is the case the builder meets.
- Writing the CSV, the progress bar, the prints and `df_all.head()` are I/O or display and are left out.
- `app_streamlit/app.py` is UI code that loads trained artefacts. It is not part of this model.
