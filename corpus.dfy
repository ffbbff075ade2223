/**
 * The corpus builder: the season table of every configured year, in year
 * order, leaving out empty seasons, concatenated into one table.
 */
module Corpus {
  import opened Wrappers
  import opened Frames
  import opened Season

  /** The configured seasons. */
  const Years: seq<int> := [2018, 2019, 2020, 2021, 2022, 2023, 2024]

  /** `ff1.get_event_schedule(year)`: the schedule of a season. */
  type ScheduleOf = int -> seq<ScheduleEntry>

  /** `pd.concat([])` raises: there is no table to concatenate. */
  datatype CorpusError = NoObjectsToConcatenate

  /** The non-empty season tables, in year order. */
  function NonEmptySeasons(years: seq<int>, scheduleOf: ScheduleOf, fetch: Fetch): seq<seq<MergedRow>> {
    if years == [] then []
    else
      var y := years[|years| - 1];
      var season := SeasonRows(y, scheduleOf(y), fetch);
      NonEmptySeasons(years[..|years| - 1], scheduleOf, fetch) + (if season != [] then [season] else [])
  }

  /** One more year appends its season table, when that table has rows. */
  lemma NonEmptySeasonsAppend(years: seq<int>, y: int, scheduleOf: ScheduleOf, fetch: Fetch)
    ensures NonEmptySeasons(years + [y], scheduleOf, fetch) == NonEmptySeasons(years, scheduleOf, fetch) +
      (var season := SeasonRows(y, scheduleOf(y), fetch); if season != [] then [season] else [])
  {
    assert (years + [y])[..|years|] == years;
  }

  /** The corpus: the concatenation of the non-empty seasons, or an error when there is none. */
  function CorpusOf(years: seq<int>, scheduleOf: ScheduleOf, fetch: Fetch): Result<seq<MergedRow>, CorpusError> {
    var seasons := NonEmptySeasons(years, scheduleOf, fetch);
    if seasons == [] then Failure(NoObjectsToConcatenate) else Success(Flatten(seasons))
  }

  /** The top-level loop: build each season, keep the non-empty ones, concatenate. */
  method BuildCorpus(years: seq<int>, scheduleOf: ScheduleOf, fetch: Fetch) returns (corpus: Result<seq<MergedRow>, CorpusError>)
    ensures corpus == CorpusOf(years, scheduleOf, fetch)
  {
    var allYears: seq<seq<MergedRow>> := [];
    for i := 0 to |years|
      invariant allYears == NonEmptySeasons(years[..i], scheduleOf, fetch)
    {
      var y := years[i];
      var dfSeason := BuildSeasonDataset(y, scheduleOf(y), fetch);
      PrefixStep(years, i);
      NonEmptySeasonsAppend(years[..i], y, scheduleOf, fetch);
      if dfSeason != [] {
        allYears := allYears + [dfSeason];
      }
    }
    PrefixAll(years);
    if allYears == [] {
      corpus := Failure(NoObjectsToConcatenate);
    } else {
      corpus := Success(Flatten(allYears));
    }
  }

  /** The script's run: the corpus of the configured seasons, 2018 to 2024 in order. */
  method BuildConfiguredCorpus(scheduleOf: ScheduleOf, fetch: Fetch) returns (corpus: Result<seq<MergedRow>, CorpusError>)
    ensures corpus == CorpusOf(Years, scheduleOf, fetch)
  {
    corpus := BuildCorpus(Years, scheduleOf, fetch);
  }

  /** Every season table, empty or not, in year order. */
  function AllSeasons(years: seq<int>, scheduleOf: ScheduleOf, fetch: Fetch): seq<seq<MergedRow>> {
    if years == [] then []
    else
      var y := years[|years| - 1];
      AllSeasons(years[..|years| - 1], scheduleOf, fetch) + [SeasonRows(y, scheduleOf(y), fetch)]
  }

  /**
   * Skipping empty seasons loses no row: the corpus fails exactly when every
   * season is empty, and otherwise is the concatenation of all seasons in
   * year order, as long as all of them together.
   */
  lemma {:induction false} CorpusIsAllSeasons(years: seq<int>, scheduleOf: ScheduleOf, fetch: Fetch)
    ensures CorpusOf(years, scheduleOf, fetch).Failure? <==> Flatten(AllSeasons(years, scheduleOf, fetch)) == []
    ensures CorpusOf(years, scheduleOf, fetch).Success? ==>
      CorpusOf(years, scheduleOf, fetch).value == Flatten(AllSeasons(years, scheduleOf, fetch)) &&
      |CorpusOf(years, scheduleOf, fetch).value| == TotalLength(AllSeasons(years, scheduleOf, fetch))
  {
    NonEmptyKeepsRows(years, scheduleOf, fetch);
    FlattenLength(AllSeasons(years, scheduleOf, fetch));
  }

  lemma {:induction false} NonEmptyKeepsRows(years: seq<int>, scheduleOf: ScheduleOf, fetch: Fetch)
    ensures Flatten(NonEmptySeasons(years, scheduleOf, fetch)) == Flatten(AllSeasons(years, scheduleOf, fetch))
    ensures NonEmptySeasons(years, scheduleOf, fetch) == [] <==> Flatten(AllSeasons(years, scheduleOf, fetch)) == []
  {
    if years != [] {
      var init, y := years[..|years| - 1], years[|years| - 1];
      var season := SeasonRows(y, scheduleOf(y), fetch);
      var kept, all := NonEmptySeasons(init, scheduleOf, fetch), AllSeasons(init, scheduleOf, fetch);
      NonEmptyKeepsRows(init, scheduleOf, fetch);
      FlattenAppend(all, season);
      if season != [] {
        FlattenAppend(kept, season);
      } else {
        assert kept + [] == kept;
      }
    }
  }

  /**
   * Two configured years, the first of which yields no rows: the corpus is
   * the second season, with exactly its rows.
   */
  lemma EmptyFirstSeason(y1: int, y2: int, scheduleOf: ScheduleOf, fetch: Fetch)
    requires SeasonRows(y1, scheduleOf(y1), fetch) == []
    requires SeasonRows(y2, scheduleOf(y2), fetch) != []
    ensures CorpusOf([y1, y2], scheduleOf, fetch) == Success(SeasonRows(y2, scheduleOf(y2), fetch))
  {
    var second := SeasonRows(y2, scheduleOf(y2), fetch);
    PairAppend(y1, y2);
    NonEmptySeasonsAppend([], y1, scheduleOf, fetch);
    NonEmptySeasonsAppend([y1], y2, scheduleOf, fetch);
    PairAppend(second, second);
    assert NonEmptySeasons([y1, y2], scheduleOf, fetch) == [second];
    FlattenSingle(second);
  }
}
