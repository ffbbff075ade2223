/**
 * The season builder: for every conventional event of a season's schedule,
 * extract the qualifying and the race session, keep the event only when both
 * tables have rows, left-join the qualifying position and time onto the race
 * rows by (Year, Race, Code), and concatenate the per-event tables in
 * schedule order.
 */
module Season {
  import opened Wrappers
  import opened Frames
  import opened Sessions
  import opened Extraction

  /** One entry of the event schedule: its name and its weekend format. */
  datatype ScheduleEntry = ScheduleEntry(eventName: string, eventFormat: string)

  /**
   * Loading a session of the timing-data library: `None` when getting or
   * loading it raises (network error, unknown event, session not held).
   */
  type Fetch = (int, string, SessionKind) -> Option<Session>

  /** The two qualifying columns the join attaches to a race row. */
  datatype QualiColumns = QualiColumns(qualiPos: Cell<int>, qualiTime: Option<real>)

  /** A row of the season table: a race row and, when it matched, the qualifying columns. */
  datatype MergedRow = MergedRow(race: Row, quali: Option<QualiColumns>)

  /** The join key (Year, Race, Code). */
  function Key(r: Row): (int, string, string) {
    (r.base.year, r.base.race, r.base.code)
  }

  predicate UniqueKeys(rows: seq<Row>) {
    forall i, j :: 0 <= i < j < |rows| ==> Key(rows[i]) != Key(rows[j])
  }

  /**
   * The rows of `right` whose key is `k`, each as often as `right` holds it
   * (MatchingCopies), in the order of `right` (MatchingAppend).
   */
  function Matching(right: seq<Row>, k: (int, string, string)): (m: seq<Row>)
    ensures |m| <= |right|
    ensures forall q :: q in m <==> q in right && Key(q) == k
    ensures m == [] <==> forall q :: q in right ==> Key(q) != k
  {
    if right == [] then []
    else (if Key(right[0]) == k then [right[0]] else []) + Matching(right[1..], k)
  }

  /** Matching keeps every row with the key, as often as it occurs, and no other. */
  lemma {:induction false} MatchingCopies(right: seq<Row>, k: (int, string, string), q: Row)
    ensures multiset(Matching(right, k))[q] == if Key(q) == k then multiset(right)[q] else 0
  {
    if right != [] {
      assert right == [right[0]] + right[1..];
      assert multiset(right) == multiset{right[0]} + multiset(right[1..]);
      MatchingCopies(right[1..], k, q);
    }
  }

  /** Matching keeps the order of the qualifying table: it distributes over concatenation. */
  lemma {:induction false} MatchingAppend(right: seq<Row>, more: seq<Row>, k: (int, string, string))
    ensures Matching(right + more, k) == Matching(right, k) + Matching(more, k)
  {
    if right != [] {
      var first: seq<Row> := if Key(right[0]) == k then [right[0]] else [];
      TailAppend(right, more);
      assert Matching(right + more, k) == first + Matching(right[1..] + more, k);
      MatchingAppend(right[1..], more, k);
      AppendAssociative(first, Matching(right[1..], k), Matching(more, k));
    } else {
      assert right + more == more;
    }
  }

  function QualiColumnsOf(q: Row): QualiColumns
    requires q.QualiRow?
  {
    QualiColumns(q.qualiPos, q.qualiTime)
  }

  /** The output rows for one left row: one per match, or one with null columns. */
  function Attach(l: Row, matches: seq<Row>): (m: seq<MergedRow>)
    requires forall q :: q in matches ==> q.QualiRow?
    ensures |m| == if matches == [] then 1 else |matches|
    ensures forall i :: 0 <= i < |m| ==> m[i].race == l
    ensures matches == [] ==> m[0].quali.None?
    ensures matches != [] ==> forall i :: 0 <= i < |m| ==> m[i].quali == Some(QualiColumnsOf(matches[i]))
  {
    if matches == [] then [MergedRow(l, None)]
    else seq(|matches|, i requires 0 <= i < |matches| => MergedRow(l, Some(QualiColumnsOf(matches[i]))))
  }

  /**
   * `pd.merge(left, right, on=[Year, Race, Code], how='left')` restricted to
   * the qualifying columns: left rows in order, each repeated once per
   * matching right row, or kept once with null columns when nothing matches.
   * No left row is ever dropped.
   */
  function LeftMerge(left: seq<Row>, right: seq<Row>): (m: seq<MergedRow>)
    requires forall q :: q in right ==> q.QualiRow?
    ensures |m| >= |left|
    ensures forall r :: r in m ==> r.race in left
  {
    if left == [] then []
    else
      var head := Attach(left[0], Matching(right, Key(left[0])));
      var rest := LeftMerge(left[1..], right);
      assert forall r :: r in rest ==> r.race in left[1..];
      head + rest
  }

  /** No race row is dropped: each appears in the merge. */
  lemma {:induction false} LeftMergeKeepsEveryRow(left: seq<Row>, right: seq<Row>)
    requires forall q :: q in right ==> q.QualiRow?
    ensures forall i :: 0 <= i < |left| ==> exists j :: 0 <= j < |LeftMerge(left, right)| && LeftMerge(left, right)[j].race == left[i]
  {
    if left != [] {
      var head := Attach(left[0], Matching(right, Key(left[0])));
      var rest := LeftMerge(left[1..], right);
      var m: seq<MergedRow> := head + rest;
      assert LeftMerge(left, right) == m;
      LeftMergeKeepsEveryRow(left[1..], right);
      forall i | 0 <= i < |left|
        ensures exists j :: 0 <= j < |m| && m[j].race == left[i]
      {
        if i == 0 {
          assert m[0] == head[0];
        } else {
          assert left[1..][i - 1] == left[i];
          var j :| 0 <= j < |rest| && rest[j].race == left[1..][i - 1];
          assert m[|head| + j] == rest[j];
        }
      }
    }
  }

  /** The qualifying columns of the first row with key `k`, if any. */
  function Lookup(right: seq<Row>, k: (int, string, string)): Option<QualiColumns>
    requires forall q :: q in right ==> q.QualiRow?
  {
    var matches := Matching(right, k);
    if matches == [] then None else Some(QualiColumnsOf(matches[0]))
  }

  /** With unique keys a left row is attached to its looked-up columns only. */
  lemma AttachUnique(l: Row, right: seq<Row>)
    requires forall q :: q in right ==> q.QualiRow?
    requires UniqueKeys(right)
    ensures Attach(l, Matching(right, Key(l))) == [MergedRow(l, Lookup(right, Key(l)))]
  {
    AtMostOneMatch(right, Key(l));
  }

  /** With unique keys, row `i` of the merge is race row `i` with its looked-up columns. */
  lemma {:induction false} LeftMergeAt(left: seq<Row>, right: seq<Row>, i: nat)
    requires forall q :: q in right ==> q.QualiRow?
    requires UniqueKeys(right)
    requires i < |left|
    ensures |LeftMerge(left, right)| == |left|
    ensures LeftMerge(left, right)[i] == MergedRow(left[i], Lookup(right, Key(left[i])))
  {
    AttachUnique(left[0], right);
    var first := MergedRow(left[0], Lookup(right, Key(left[0])));
    var rest := LeftMerge(left[1..], right);
    assert LeftMerge(left, right) == [first] + rest;
    if |left| > 1 {
      LeftMergeAt(left[1..], right, if i == 0 then 0 else i - 1);
      if i > 0 {
        assert left[1..][i - 1] == left[i];
        assert ([first] + rest)[i] == rest[i - 1];
      }
    }
  }

  /**
   * When the keys of the qualifying rows are unique, the left merge keeps
   * every race row exactly once and in order; the qualifying columns come
   * from the row with the same key, and are null exactly when there is none.
   */
  lemma LeftMergeOneToOne(left: seq<Row>, right: seq<Row>)
    requires forall q :: q in right ==> q.QualiRow?
    requires UniqueKeys(right)
    ensures |LeftMerge(left, right)| == |left|
    ensures forall i :: 0 <= i < |left| ==> LeftMerge(left, right)[i].race == left[i]
    ensures forall i :: 0 <= i < |left| ==>
      (LeftMerge(left, right)[i].quali.None? <==> forall q :: q in right ==> Key(q) != Key(left[i]))
    ensures forall i, j :: 0 <= i < |left| && 0 <= j < |right| && Key(right[j]) == Key(left[i]) ==>
      LeftMerge(left, right)[i].quali == Some(QualiColumnsOf(right[j]))
  {
    if left != [] {
      LeftMergeAt(left, right, 0);
    }
    forall i | 0 <= i < |left|
      ensures LeftMerge(left, right)[i] == MergedRow(left[i], Lookup(right, Key(left[i])))
    {
      LeftMergeAt(left, right, i);
    }
    forall i | 0 <= i < |left|
      ensures Lookup(right, Key(left[i])).None? <==> forall q :: q in right ==> Key(q) != Key(left[i])
    {
      var matches := Matching(right, Key(left[i]));
      if matches != [] {
        assert matches[0] in matches;
      }
    }
    forall i, j | 0 <= i < |left| && 0 <= j < |right| && Key(right[j]) == Key(left[i])
      ensures Lookup(right, Key(left[i])) == Some(QualiColumnsOf(right[j]))
    {
      AtMostOneMatch(right, Key(left[i]));
    }
  }

  /** With unique keys a key has at most one matching row. */
  lemma {:induction false} AtMostOneMatch(right: seq<Row>, k: (int, string, string))
    requires UniqueKeys(right)
    ensures |Matching(right, k)| <= 1
    ensures forall j :: 0 <= j < |right| && Key(right[j]) == k ==> Matching(right, k) == [right[j]]
  {
    if right != [] {
      assert UniqueKeys(right[1..]) by {
        forall i, j | 0 <= i < j < |right[1..]| ensures Key(right[1..][i]) != Key(right[1..][j]) {
          assert right[1..][i] == right[i + 1] && right[1..][j] == right[j + 1];
        }
      }
      AtMostOneMatch(right[1..], k);
      if Key(right[0]) == k {
        forall q | q in right[1..] ensures Key(q) != k {
          var j :| 0 <= j < |right[1..]| && right[1..][j] == q;
          assert right[j + 1] == q;
        }
      }
      forall j | 0 < j < |right| && Key(right[j]) == k ensures Matching(right, k) == [right[j]] {
        assert right[1..][j - 1] == right[j];
      }
    }
  }

  /** Drivers with distinct abbreviations give a qualifying table with unique keys. */
  lemma SessionKeysUnique(s: Session, kind: SessionKind)
    requires forall i, j :: 0 <= i < j < |s.results| ==> s.results[i].abbreviation != s.results[j].abbreviation
    ensures UniqueKeys(SessionRows(s, kind))
  {
  }

  /** `build_race_dataset` as a value: the extracted table, or no rows when loading failed. */
  function RaceDataset(loaded: Option<Session>, kind: SessionKind): (rows: seq<Row>)
    ensures loaded.None? ==> rows == []
    ensures loaded.Some? ==> |rows| == |loaded.value.results|
    ensures forall r :: r in rows ==> (r.RaceRow? <==> kind == Race)
  {
    match loaded
    case None => []
    case Some(s) => SessionRows(s, kind)
  }

  /**
   * `build_race_dataset`: extract the loaded session; a session that could
   * not be loaded yields an empty table.
   */
  method BuildRaceDataset(loaded: Option<Session>, kind: SessionKind) returns (rows: seq<Row>)
    ensures rows == RaceDataset(loaded, kind)
    ensures loaded.None? ==> rows == []
  {
    match loaded {
      case None =>
        rows := [];
      case Some(s) =>
        rows := ExtractSessionData(s, kind);
    }
  }

  /**
   * The merged table of one event, or `None` when its qualifying or its
   * race table has no rows.
   */
  function EventTable(year: int, name: string, fetch: Fetch): Option<seq<MergedRow>> {
    var quali := RaceDataset(fetch(year, name, Qualifying), Qualifying);
    var race := RaceDataset(fetch(year, name, Race), Race);
    if quali == [] || race == [] then None
    else Some(LeftMerge(race, quali))
  }

  /** `schedule[schedule['EventFormat'] == 'conventional']`, in schedule order. */
  function Conventional(schedule: seq<ScheduleEntry>): (events: seq<ScheduleEntry>)
    ensures |events| <= |schedule|
  {
    if schedule == [] then []
    else
      var init, last := schedule[..|schedule| - 1], schedule[|schedule| - 1];
      Conventional(init) + (if last.eventFormat == "conventional" then [last] else [])
  }

  /** Filtering one more schedule entry appends it when it is conventional. */
  lemma ConventionalAppend(schedule: seq<ScheduleEntry>, e: ScheduleEntry)
    ensures Conventional(schedule + [e]) ==
      Conventional(schedule) + (if e.eventFormat == "conventional" then [e] else [])
  {
    assert (schedule + [e])[..|schedule|] == schedule;
  }

  /** An event is retained by the filter exactly when it is scheduled and conventional. */
  lemma {:induction false} ConventionalMembers(schedule: seq<ScheduleEntry>, e: ScheduleEntry)
    ensures e in Conventional(schedule) <==> e in schedule && e.eventFormat == "conventional"
  {
    if schedule != [] {
      var init, last := schedule[..|schedule| - 1], schedule[|schedule| - 1];
      assert schedule == init + [last];
      ConventionalMembers(init, e);
    }
  }

  /** The merged tables of the events that were kept, in order. */
  function RetainedTables(year: int, events: seq<ScheduleEntry>, fetch: Fetch): seq<seq<MergedRow>> {
    if events == [] then []
    else
      var last := events[|events| - 1];
      RetainedTables(year, events[..|events| - 1], fetch) +
        match EventTable(year, last.eventName, fetch)
        case None => []
        case Some(t) => [t]
  }

  /** One more event appends its merged table, if it was kept. */
  lemma RetainedTablesAppend(year: int, events: seq<ScheduleEntry>, e: ScheduleEntry, fetch: Fetch)
    ensures RetainedTables(year, events + [e], fetch) == RetainedTables(year, events, fetch) +
      (var t := EventTable(year, e.eventName, fetch); if t.Some? then [t.value] else [])
  {
    assert (events + [e])[..|events|] == events;
  }

  /** The tables kept from a prefix of the events, one event longer. */
  lemma RetainedTablesStep(year: int, events: seq<ScheduleEntry>, i: nat, fetch: Fetch)
    requires i < |events|
    ensures RetainedTables(year, events[..i + 1], fetch) == RetainedTables(year, events[..i], fetch) +
      (var t := EventTable(year, events[i].eventName, fetch); if t.Some? then [t.value] else [])
  {
    assert events[..i + 1] == events[..i] + [events[i]];
    RetainedTablesAppend(year, events[..i], events[i], fetch);
  }

  /** The season table: the kept events' tables, concatenated in schedule order. */
  function SeasonRows(year: int, schedule: seq<ScheduleEntry>, fetch: Fetch): seq<MergedRow> {
    Flatten(RetainedTables(year, Conventional(schedule), fetch))
  }

  /** `build_season_dataset`. */
  method BuildSeasonDataset(year: int, schedule: seq<ScheduleEntry>, fetch: Fetch) returns (table: seq<MergedRow>)
    ensures table == SeasonRows(year, schedule, fetch)
  {
    var races := Conventional(schedule);
    var allRaces: seq<seq<MergedRow>> := [];
    for i := 0 to |races|
      invariant allRaces == RetainedTables(year, races[..i], fetch)
    {
      var gpName := races[i].eventName;
      var qualiDf := BuildRaceDataset(fetch(year, gpName, Qualifying), Qualifying);
      var raceDf := BuildRaceDataset(fetch(year, gpName, Race), Race);
      ghost var table := EventTable(year, gpName, fetch);
      assert table == if qualiDf == [] || raceDf == [] then None else Some(LeftMerge(raceDf, qualiDf));
      RetainedTablesStep(year, races, i, fetch);
      if qualiDf == [] || raceDf == [] {
        continue;
      }
      var merged := LeftMerge(raceDf, qualiDf);
      allRaces := allRaces + [merged];
    }
    assert races[..|races|] == races;
    if allRaces != [] {
      table := Flatten(allRaces);
    } else {
      table := [];
    }
  }

  /** The rows an event adds to the season: its merged table, or nothing. */
  function EventRows(year: int, e: ScheduleEntry, fetch: Fetch): seq<MergedRow> {
    if e.eventFormat != "conventional" then []
    else
      match EventTable(year, e.eventName, fetch)
      case None => []
      case Some(t) => t
  }

  /**
   * The all-or-nothing gate: an event adds rows exactly when it is
   * conventional and both its qualifying and its race table have rows.
   */
  lemma EventGate(year: int, e: ScheduleEntry, fetch: Fetch)
    ensures EventRows(year, e, fetch) != [] <==>
      e.eventFormat == "conventional" &&
      RaceDataset(fetch(year, e.eventName, Qualifying), Qualifying) != [] &&
      RaceDataset(fetch(year, e.eventName, Race), Race) != []
    ensures fetch(year, e.eventName, Qualifying).None? || fetch(year, e.eventName, Race).None? ==>
      EventRows(year, e, fetch) == []
  {
  }

  /**
   * Schedule order: one more schedule entry appends exactly that event's rows
   * to the season table, nothing when it is not conventional or was skipped.
   */
  lemma SeasonRowsAppend(year: int, schedule: seq<ScheduleEntry>, e: ScheduleEntry, fetch: Fetch)
    ensures SeasonRows(year, schedule + [e], fetch) == SeasonRows(year, schedule, fetch) + EventRows(year, e, fetch)
  {
    var events := Conventional(schedule);
    var tables := RetainedTables(year, events, fetch);
    ConventionalAppend(schedule, e);
    if e.eventFormat == "conventional" {
      assert Conventional(schedule + [e]) == events + [e];
      RetainedTablesAppend(year, events, e, fetch);
      match EventTable(year, e.eventName, fetch)
      case None =>
        assert RetainedTables(year, events + [e], fetch) == tables + [];
        assert tables + [] == tables;
      case Some(t) =>
        assert RetainedTables(year, events + [e], fetch) == tables + [t];
        FlattenAppend(tables, t);
    } else {
      assert events + [] == events;
      assert EventRows(year, e, fetch) == [];
      assert SeasonRows(year, schedule, fetch) + [] == SeasonRows(year, schedule, fetch);
    }
  }

  /** A season that opens with one event and then a testing event holds that event's rows. */
  lemma OpeningEvent(year: int, a: ScheduleEntry, t: ScheduleEntry, fetch: Fetch)
    requires t.eventFormat != "conventional"
    ensures SeasonRows(year, [a, t], fetch) == EventRows(year, a, fetch)
  {
    assert SeasonRows(year, [], fetch) == [];
    assert [] + [a] == [a];
    SeasonRowsAppend(year, [], a, fetch);
    assert SeasonRows(year, [a], fetch) == EventRows(year, a, fetch);
    assert [a] + [t] == [a, t];
    SeasonRowsAppend(year, [a], t, fetch);
    assert EventRows(year, t, fetch) == [];
  }

  /**
   * Two conventional events around a testing event: the season holds the
   * rows of the two conventional events only, and none of an event whose
   * race session failed to load.
   */
  lemma TwoEventsAndATest(year: int, a: ScheduleEntry, t: ScheduleEntry, b: ScheduleEntry, fetch: Fetch)
    requires a.eventFormat == "conventional" && b.eventFormat == "conventional"
    requires t.eventFormat == "testing"
    ensures SeasonRows(year, [a, t, b], fetch) == EventRows(year, a, fetch) + EventRows(year, b, fetch)
    ensures fetch(year, b.eventName, Race).None? ==> SeasonRows(year, [a, t, b], fetch) == EventRows(year, a, fetch)
  {
    OpeningEvent(year, a, t, fetch);
    SeasonRowsAppend(year, [a, t], b, fetch);
    assert [a, t] + [b] == [a, t, b];
    EventGate(year, b, fetch);
  }

  /** The season holds only rows of conventional events whose two sessions both had rows. */
  lemma SeasonProvenance(year: int, schedule: seq<ScheduleEntry>, fetch: Fetch, r: MergedRow)
    requires r in SeasonRows(year, schedule, fetch)
    ensures exists e :: (e in schedule && e.eventFormat == "conventional" &&
      EventTable(year, e.eventName, fetch).Some? && r in EventTable(year, e.eventName, fetch).value)
  {
    var events := Conventional(schedule);
    FlattenMember(RetainedTables(year, events, fetch), r);
    var i :| 0 <= i < |RetainedTables(year, events, fetch)| && r in RetainedTables(year, events, fetch)[i];
    var e := RetainedFrom(year, events, fetch, i);
    ConventionalMembers(schedule, e);
  }

  /** Every kept table is the table of one of the events. */
  lemma {:induction false} RetainedFrom(year: int, events: seq<ScheduleEntry>, fetch: Fetch, i: nat) returns (e: ScheduleEntry)
    requires i < |RetainedTables(year, events, fetch)|
    ensures e in events && EventTable(year, e.eventName, fetch) == Some(RetainedTables(year, events, fetch)[i])
  {
    var init := events[..|events| - 1];
    var tables := RetainedTables(year, init, fetch);
    if i < |tables| {
      e := RetainedFrom(year, init, fetch, i);
    } else {
      e := events[|events| - 1];
    }
  }

  /** The qualifying session of an event, when loaded, lists each driver once. */
  predicate DistinctQualifiers(year: int, name: string, fetch: Fetch) {
    var q := fetch(year, name, Qualifying);
    q.Some? ==> forall i, j :: 0 <= i < j < |q.value.results| ==>
      q.value.results[i].abbreviation != q.value.results[j].abbreviation
  }

  /**
   * A kept event's table is its race table, row for row, with the
   * qualifying columns attached.
   */
  lemma EventKeepsRaceRows(year: int, name: string, fetch: Fetch)
    requires DistinctQualifiers(year, name, fetch)
    requires EventTable(year, name, fetch).Some?
    ensures var race := RaceDataset(fetch(year, name, Race), Race);
      |EventTable(year, name, fetch).value| == |race| &&
      forall i :: 0 <= i < |race| ==> EventTable(year, name, fetch).value[i].race == race[i]
  {
    var quali := RaceDataset(fetch(year, name, Qualifying), Qualifying);
    var race := RaceDataset(fetch(year, name, Race), Race);
    SessionKeysUnique(fetch(year, name, Qualifying).value, Qualifying);
    LeftMergeOneToOne(race, quali);
  }

  /** The number of race rows of the kept events. */
  function KeptRaceRows(year: int, events: seq<ScheduleEntry>, fetch: Fetch): nat {
    if events == [] then 0
    else
      var last := events[|events| - 1];
      KeptRaceRows(year, events[..|events| - 1], fetch) +
        if EventTable(year, last.eventName, fetch).Some?
        then |RaceDataset(fetch(year, last.eventName, Race), Race)|
        else 0
  }

  /**
   * When every qualifying session lists each driver once, the season table
   * has exactly as many rows as the kept events' race tables together.
   */
  lemma {:induction false} SeasonRowCount(year: int, events: seq<ScheduleEntry>, fetch: Fetch)
    requires forall e :: e in events ==> DistinctQualifiers(year, e.eventName, fetch)
    ensures |Flatten(RetainedTables(year, events, fetch))| == KeptRaceRows(year, events, fetch)
  {
    if events != [] {
      var init, last := events[..|events| - 1], events[|events| - 1];
      assert forall e :: e in init ==> e in events;
      SeasonRowCount(year, init, fetch);
      var tables := RetainedTables(year, init, fetch);
      var et := EventTable(year, last.eventName, fetch);
      assert RetainedTables(year, events, fetch) == tables + (if et.Some? then [et.value] else []);
      assert KeptRaceRows(year, events, fetch) == KeptRaceRows(year, init, fetch) +
        (if et.Some? then |RaceDataset(fetch(year, last.eventName, Race), Race)| else 0);
      if et.Some? {
        EventKeepsRaceRows(year, last.eventName, fetch);
        FlattenAppend(tables, et.value);
        assert |Flatten(tables + [et.value])| == |Flatten(tables)| + |et.value|;
      } else {
        assert tables + [] == tables;
      }
    }
  }
}
