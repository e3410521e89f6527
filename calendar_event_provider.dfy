/** `CalendarEventProvider`: how the calendar instances shown by the widget are
    queried and filtered — the query window, the SQL selection, the keyword
    fold over the query rows, the precise time post-filter, the past events
    with the default color moved to the end, and the collapse of recurring
    events to their closest instance. */
module CalendarEvents {
  import opened Seqs
  import opened WidgetEntries

  datatype FilterMode = NormalFilter | DebugFilter | NoFiltering

  /** One calendar instance as read from a query row. `closestTime` is the
      instant of the instance closest to now. */
  datatype CalendarEvent = CalendarEvent(
    eventId: int,
    title: string,
    startDate: int,
    endDate: int,
    closestTime: int,
    hasDefaultCalendarColor: bool)

  /** The settings the provider reads; `activeSources` are the ids of the
      active calendars in their configured order, `now` is `settings.clock.now()`,
      and `startOfTimeRange`/`endOfTimeRange` are `mStartOfTimeRange`/`mEndOfTimeRange`. */
  datatype ProviderSettings = ProviderSettings(
    filterMode: FilterMode,
    showPastEventsWithDefaultColor: bool,
    showOnlyClosestInstanceOfRecurringEvent: bool,
    activeSources: seq<int>,
    now: int,
    startOfTimeRange: int,
    endOfTimeRange: int)

  /** The collaborators whose code is not part of this model: whether the
      calendar permission is missing; the content provider, answering a query
      window and a selection with its rows (already read into events, in the
      query's sort order); the hide and show keyword filters on titles; and
      `MyClock.minutesTo`. */
  datatype ContentSource = ContentSource(
    permissionNeeded: bool,
    query: (int, int, string) -> seq<CalendarEvent>,
    hideMatched: string -> bool,
    showMatched: string -> bool,
    minutesTo: int -> int)

  // ---------------------------------------------------------------------------
  // The selection string (calendarSelection)

  /** Column names of the calendar instances table and the SQL fragments of `EventProvider`. */
  const CALENDAR_ID: string := "calendar_id"
  const DISPLAY_COLOR: string := "displayColor"
  const CALENDAR_COLOR: string := "calendar_color"
  const AND_BRACKET: string := " AND ("
  const OR: string := " OR "
  const EQUALS: string := " = "
  const CLOSING_BRACKET: string := " )"

  /** Instances the user has not declined (status 2), or without an attendee status. */
  const EVENT_SELECTION: string := "(selfAttendeeStatus!=2 OR selfAttendeeStatus IS NULL)"

  function DigitChar(d: int): char
    requires 0 <= d < 10
  {
    ('0' as int + d) as char
  }

  predicate IsDigits(s: string) {
    forall i :: 0 <= i < |s| ==> '0' <= s[i] <= '9'
  }

  /** The decimal digits of `n`, most significant first, without leading zeros. */
  function NatToString(n: nat): (r: string)
    ensures |r| >= 1 && IsDigits(r)
    ensures |r| > 1 ==> r[0] != '0'
  {
    if n < 10 then [DigitChar(n)] else NatToString(n / 10) + [DigitChar(n % 10)]
  }

  function ParseNat(s: string): nat
    requires IsDigits(s)
  {
    if s == [] then 0 else ParseNat(s[..|s| - 1]) * 10 + (s[|s| - 1] as int - '0' as int)
  }

  /** `StringBuilder.append(Int)`: the decimal form, with a minus sign when negative. */
  function IntToString(i: int): string {
    if i < 0 then "-" + NatToString(-i) else NatToString(i)
  }

  function ParseInt(s: string): int {
    if |s| > 0 && s[0] == '-' && IsDigits(s[1..]) then -(ParseNat(s[1..]) as int)
    else if IsDigits(s) then ParseNat(s)
    else 0
  }

  lemma {:induction false} ParseNatToString(n: nat)
    ensures ParseNat(NatToString(n)) == n
  {
    if n >= 10 {
      ParseNatToString(n / 10);
      var r := NatToString(n);
      assert r[..|r| - 1] == NatToString(n / 10);
    }
  }

  /** The number written into a selection clause reads back as the calendar id. */
  lemma IntToStringRoundTrip(i: int)
    ensures ParseInt(IntToString(i)) == i
  {
    if i < 0 {
      ParseNatToString(-i);
      assert IntToString(i)[1..] == NatToString(-i);
    } else {
      ParseNatToString(i);
    }
  }

  /** `calendar_id = <id>` */
  function Clause(id: int): string {
    CALENDAR_ID + EQUALS + IntToString(id)
  }

  /** The clauses of the ids, separated by `OR`. */
  function JoinedClauses(ids: seq<int>): string {
    if ids == [] then ""
    else if |ids| == 1 then Clause(ids[0])
    else JoinedClauses(ids[..|ids| - 1]) + OR + Clause(ids[|ids| - 1])
  }

  /** Reference definition of `calendarSelection`. */
  function Selection(activeSources: seq<int>): string {
    if activeSources == [] then EVENT_SELECTION
    else EVENT_SELECTION + AND_BRACKET + JoinedClauses(activeSources) + CLOSING_BRACKET
  }

  /** What follows the `i`-th clause of `n`: `OR` when another clause comes. */
  function Separator(i: int, n: int): string {
    if 0 < i < n then OR else ""
  }

  lemma JoinedClausesSnoc(ids: seq<int>, i: int)
    requires 0 <= i < |ids|
    ensures JoinedClauses(ids[..i + 1]) == JoinedClauses(ids[..i]) + (if i > 0 then OR else "") + Clause(ids[i])
  {
    assert ids[..i + 1][..i] == ids[..i];
  }

  lemma SelectionStep(head: string, ids: seq<int>, i: int)
    requires 0 <= i < |ids|
    ensures head + JoinedClauses(ids[..i]) + Separator(i, |ids|) + Clause(ids[i]) + Separator(i + 1, |ids|)
         == head + JoinedClauses(ids[..i + 1]) + Separator(i + 1, |ids|)
  {
    JoinedClausesSnoc(ids, i);
    var sep := if i > 0 then OR else "";
    assert Separator(i, |ids|) == sep;
    Regroup(head, JoinedClauses(ids[..i]), sep, Clause(ids[i]), Separator(i + 1, |ids|));
  }

  /** Concatenation regrouped around its middle three parts, kept apart from
      `SelectionStep` so the solver sees it without the clause definitions. */
  lemma Regroup<T>(a: seq<T>, b: seq<T>, c: seq<T>, d: seq<T>, e: seq<T>)
    ensures a + b + c + d + e == a + (b + c + d) + e
  {
  }

  /** `calendarSelection`: appends a clause per active source, with `OR` after
      every clause that has a next one. */
  method CalendarSelection(activeSources: seq<int>) returns (r: string)
    ensures r == Selection(activeSources)
  {
    r := EVENT_SELECTION;
    if activeSources != [] {
      r := r + AND_BRACKET;
      ghost var head := r;
      var i := 0;
      while i < |activeSources|
        invariant 0 <= i <= |activeSources|
        invariant r == head + JoinedClauses(activeSources[..i]) + Separator(i, |activeSources|)
      {
        SelectionStep(head, activeSources, i);
        r := r + Clause(activeSources[i]);
        i := i + 1;
        if i < |activeSources| {
          r := r + OR;
        }
      }
      assert activeSources[..i] == activeSources;
      r := r + CLOSING_BRACKET;
    }
  }

  /** `pastEventsWithColorSelection`: the calendar selection, narrowed to
      instances shown in their calendar's own color. */
  function PastEventsWithColorSelection(activeSources: seq<int>): string {
    Selection(activeSources) + AND_BRACKET + DISPLAY_COLOR + EQUALS + CALENDAR_COLOR + CLOSING_BRACKET
  }

  // ---------------------------------------------------------------------------
  // The query window (correctStartOfTimeRangeForQuery, timeFilteredEventList)

  /** `correctStartOfTimeRangeForQuery`: two days earlier, unless the start is
      already the unbounded DATETIME_MIN (or before it). */
  function CorrectStartOfTimeRangeForQuery(startDateIn: int): (r: int)
    ensures startDateIn > DATETIME_MIN ==> r == startDateIn - 2 * MILLIS_PER_DAY
    ensures startDateIn <= DATETIME_MIN ==> r == startDateIn
  {
    if startDateIn > DATETIME_MIN then startDateIn - 2 * MILLIS_PER_DAY else startDateIn
  }

  /** The window the content provider is asked for: only the normal filter uses
      the corrected range; every other mode asks for everything. */
  function QueryWindow(filterMode: FilterMode, startOfTimeRange: int, endOfTimeRange: int): (w: (int, int))
    ensures filterMode == NormalFilter ==> w == (CorrectStartOfTimeRangeForQuery(startOfTimeRange), endOfTimeRange)
    ensures filterMode != NormalFilter ==> w == (DATETIME_MIN, DATETIME_MAX)
    ensures DATETIME_MIN <= startOfTimeRange && endOfTimeRange <= DATETIME_MAX ==>
      w.0 <= startOfTimeRange && endOfTimeRange <= w.1
  {
    if filterMode == NormalFilter then (CorrectStartOfTimeRangeForQuery(startOfTimeRange), endOfTimeRange)
    else (DATETIME_MIN, DATETIME_MAX)
  }

  // ---------------------------------------------------------------------------
  // The keyword fold over the query rows (queryList)

  /** The rows whose title the hide filter does not match and the show filter matches, in order. */
  function KeywordVisible(rows: seq<CalendarEvent>, hideMatched: string -> bool, showMatched: string -> bool): (r: seq<CalendarEvent>)
    ensures forall i :: 0 <= i < |r| ==> r[i] in rows && !hideMatched(r[i].title) && showMatched(r[i].title)
    ensures forall i :: 0 <= i < |rows| && !hideMatched(rows[i].title) && showMatched(rows[i].title) ==> rows[i] in r
  {
    if rows == [] then []
    else
      var p, last := rows[..|rows| - 1], rows[|rows| - 1];
      assert rows == p + [last];
      KeywordVisible(p, hideMatched, showMatched)
        + (if !hideMatched(last.title) && showMatched(last.title) then [last] else [])
  }

  /** The keyword filter keeps the rows in query order. */
  lemma {:induction false} KeywordVisibleIsSubsequence(rows: seq<CalendarEvent>, hideMatched: string -> bool, showMatched: string -> bool)
    ensures IsSubsequence(KeywordVisible(rows, hideMatched, showMatched), rows)
  {
    if rows == [] {
      SubsequenceEmpty<CalendarEvent>();
    } else {
      var p, last := rows[..|rows| - 1], rows[|rows| - 1];
      KeywordVisibleIsSubsequence(p, hideMatched, showMatched);
      SubsequenceSnoc(KeywordVisible(p, hideMatched, showMatched), p, last, !hideMatched(last.title) && showMatched(last.title));
      assert rows == p + [last];
    }
  }

  /** The keyword filter keeps every copy of a matching row and none of the others. */
  lemma {:induction false} KeywordVisibleCounts(rows: seq<CalendarEvent>, hideMatched: string -> bool, showMatched: string -> bool)
    ensures forall x :: multiset(KeywordVisible(rows, hideMatched, showMatched))[x] == if !hideMatched(x.title) && showMatched(x.title) then multiset(rows)[x] else 0
  {
    if rows != [] {
      var p, last := rows[..|rows| - 1], rows[|rows| - 1];
      KeywordVisibleCounts(p, hideMatched, showMatched);
      assert rows == p + [last];
      assert multiset(rows) == multiset(p) + multiset{last};
      assert multiset(KeywordVisible(rows, hideMatched, showMatched)) == multiset(KeywordVisible(p, hideMatched, showMatched)) + multiset(if !hideMatched(last.title) && showMatched(last.title) then [last] else []);
    }
  }

  /** The fold of `queryList`: each row is appended when the list does not
      contain it yet, the hide filter does not match its title and the show
      filter does. */
  method QueryList(rows: seq<CalendarEvent>, hideMatched: string -> bool, showMatched: string -> bool)
    returns (eventList: seq<CalendarEvent>)
    ensures eventList == Distinct(KeywordVisible(rows, hideMatched, showMatched))
  {
    eventList := [];
    for i := 0 to |rows|
      invariant eventList == Distinct(KeywordVisible(rows[..i], hideMatched, showMatched))
    {
      var event := rows[i];
      QueryListStep(rows, i, hideMatched, showMatched);
      if !(event in eventList) && !hideMatched(event.title) && showMatched(event.title) {
        eventList := eventList + [event];
      }
    }
    assert rows[..|rows|] == rows;
  }

  lemma QueryListStep(rows: seq<CalendarEvent>, i: int, hideMatched: string -> bool, showMatched: string -> bool)
    requires 0 <= i < |rows|
    ensures var d := Distinct(KeywordVisible(rows[..i], hideMatched, showMatched));
      Distinct(KeywordVisible(rows[..i + 1], hideMatched, showMatched))
        == if !(rows[i] in d) && !hideMatched(rows[i].title) && showMatched(rows[i].title) then d + [rows[i]] else d
  {
    assert rows[..i + 1][..i] == rows[..i];
    var visible := KeywordVisible(rows[..i], hideMatched, showMatched);
    if !hideMatched(rows[i].title) && showMatched(rows[i].title) {
      assert (visible + [rows[i]])[..|visible|] == visible;
    } else {
      assert visible + [] == visible;
    }
  }

  /** The fold keeps, once each and in the order of their first row, exactly
      the rows that pass both keyword filters. */
  lemma QueryListShape(rows: seq<CalendarEvent>, hideMatched: string -> bool, showMatched: string -> bool)
    ensures var r := Distinct(KeywordVisible(rows, hideMatched, showMatched));
      && NoDuplicates(r)
      && (forall i :: 0 <= i < |r| ==> r[i] in rows && !hideMatched(r[i].title) && showMatched(r[i].title))
      && (forall i :: 0 <= i < |rows| && !hideMatched(rows[i].title) && showMatched(rows[i].title) ==> rows[i] in r)
  {
    var v := KeywordVisible(rows, hideMatched, showMatched);
    var r := Distinct(v);
    forall i | 0 <= i < |r| ensures r[i] in rows && !hideMatched(r[i].title) && showMatched(r[i].title) {
      var j :| 0 <= j < |v| && v[j] == r[i];
    }
    forall i | 0 <= i < |rows| && !hideMatched(rows[i].title) && showMatched(rows[i].title) ensures rows[i] in r {
      var j :| 0 <= j < |v| && v[j] == rows[i];
    }
  }

  // ---------------------------------------------------------------------------
  // The precise time filter after the query

  /** An event overlaps the range when it ends after its start and starts before its end. */
  predicate Overlaps(event: CalendarEvent, startOfTimeRange: int, endOfTimeRange: int) {
    event.endDate > startOfTimeRange && endOfTimeRange > event.startDate
  }

  /** The events of `s` that overlap the range, in order. */
  function Overlapping(s: seq<CalendarEvent>, startOfTimeRange: int, endOfTimeRange: int): (r: seq<CalendarEvent>)
    ensures forall i :: 0 <= i < |r| ==> r[i] in s && Overlaps(r[i], startOfTimeRange, endOfTimeRange)
    ensures forall i :: 0 <= i < |s| && Overlaps(s[i], startOfTimeRange, endOfTimeRange) ==> s[i] in r
  {
    if s == [] then []
    else
      var p, last := s[..|s| - 1], s[|s| - 1];
      assert s == p + [last];
      Overlapping(p, startOfTimeRange, endOfTimeRange)
        + (if Overlaps(last, startOfTimeRange, endOfTimeRange) then [last] else [])
  }

  /** The range filter keeps the retained events in their order. */
  lemma {:induction false} OverlappingIsSubsequence(s: seq<CalendarEvent>, startOfTimeRange: int, endOfTimeRange: int)
    ensures IsSubsequence(Overlapping(s, startOfTimeRange, endOfTimeRange), s)
  {
    if s == [] {
      SubsequenceEmpty<CalendarEvent>();
    } else {
      var p, last := s[..|s| - 1], s[|s| - 1];
      OverlappingIsSubsequence(p, startOfTimeRange, endOfTimeRange);
      SubsequenceSnoc(Overlapping(p, startOfTimeRange, endOfTimeRange), p, last, Overlaps(last, startOfTimeRange, endOfTimeRange));
      assert s == p + [last];
    }
  }

  /** The range filter keeps every copy of an overlapping event and none of the others. */
  lemma {:induction false} OverlappingCounts(s: seq<CalendarEvent>, startOfTimeRange: int, endOfTimeRange: int)
    ensures forall x :: multiset(Overlapping(s, startOfTimeRange, endOfTimeRange))[x] == if Overlaps(x, startOfTimeRange, endOfTimeRange) then multiset(s)[x] else 0
  {
    if s != [] {
      var p, last := s[..|s| - 1], s[|s| - 1];
      OverlappingCounts(p, startOfTimeRange, endOfTimeRange);
      assert s == p + [last];
      assert multiset(s) == multiset(p) + multiset{last};
      assert multiset(Overlapping(s, startOfTimeRange, endOfTimeRange)) == multiset(Overlapping(p, startOfTimeRange, endOfTimeRange)) + multiset(if Overlaps(last, startOfTimeRange, endOfTimeRange) then [last] else []);
    }
  }

  /** The iterator loop of `timeFilteredEventList`: removes, in place, every
      event that ends at or before the range's start or starts at or after its end. */
  method RemoveEventsOutsideRange(eventList: seq<CalendarEvent>, startOfTimeRange: int, endOfTimeRange: int)
    returns (r: seq<CalendarEvent>)
    ensures r == Overlapping(eventList, startOfTimeRange, endOfTimeRange)
  {
    r := eventList;
    var i := 0;
    ghost var j := 0;
    while i < |r|
      invariant 0 <= i <= |r| && 0 <= j <= |eventList| && |r| - i == |eventList| - j
      invariant r[..i] == Overlapping(eventList[..j], startOfTimeRange, endOfTimeRange)
      invariant r[i..] == eventList[j..]
      decreases |r| - i
    {
      var event := r[i];
      assert event == eventList[j] by {
        assert r[i..][0] == eventList[j..][0];
      }
      assert eventList[..j + 1][..j] == eventList[..j];
      ghost var before := r;
      assert before[i + 1..] == eventList[j + 1..] by {
        assert before[i..][1..] == eventList[j..][1..];
      }
      if !(event.endDate > startOfTimeRange) || !(endOfTimeRange > event.startDate) {
        r := r[..i] + r[i + 1..];
        assert r[..i] == before[..i] && r[i..] == before[i + 1..];
      } else {
        i := i + 1;
        assert r[..i] == before[..i - 1] + [event];
      }
      j := j + 1;
    }
    assert eventList[..j] == eventList;
    assert r[..i] == r;
  }

  // ---------------------------------------------------------------------------
  // timeFilteredEventList

  /** Reference definition of `timeFilteredEventList`: the keyword fold over the
      rows of the chosen window, then, unless filtering is off, only the events
      that overlap the widget's own (uncorrected) range. */
  function TimeFiltered(settings: ProviderSettings, source: ContentSource): seq<CalendarEvent> {
    var (s, e) := QueryWindow(settings.filterMode, settings.startOfTimeRange, settings.endOfTimeRange);
    var listed := Distinct(KeywordVisible(source.query(s, e, Selection(settings.activeSources)), source.hideMatched, source.showMatched));
    if settings.filterMode == NoFiltering then listed
    else Overlapping(listed, settings.startOfTimeRange, settings.endOfTimeRange)
  }

  method TimeFilteredEventList(settings: ProviderSettings, source: ContentSource) returns (eventList: seq<CalendarEvent>)
    ensures eventList == TimeFiltered(settings, source)
  {
    var filterMode := settings.filterMode;
    var startDateForQuery := if filterMode == NormalFilter then CorrectStartOfTimeRangeForQuery(settings.startOfTimeRange) else DATETIME_MIN;
    var endDateForQuery := if filterMode == NormalFilter then settings.endOfTimeRange else DATETIME_MAX;
    var selection := CalendarSelection(settings.activeSources);
    eventList := QueryList(source.query(startDateForQuery, endDateForQuery, selection), source.hideMatched, source.showMatched);
    if filterMode != NoFiltering {
      eventList := RemoveEventsOutsideRange(eventList, settings.startOfTimeRange, settings.endOfTimeRange);
    }
  }

  /** The time-filtered list has no duplicates and, unless filtering is off,
      every event in it overlaps the widget's range. */
  lemma TimeFilteredShape(settings: ProviderSettings, source: ContentSource)
    ensures NoDuplicates(TimeFiltered(settings, source))
    ensures settings.filterMode != NoFiltering ==>
      forall i :: 0 <= i < |TimeFiltered(settings, source)| ==>
        Overlaps(TimeFiltered(settings, source)[i], settings.startOfTimeRange, settings.endOfTimeRange)
  {
    var (s, e) := QueryWindow(settings.filterMode, settings.startOfTimeRange, settings.endOfTimeRange);
    var listed := Distinct(KeywordVisible(source.query(s, e, Selection(settings.activeSources)), source.hideMatched, source.showMatched));
    if settings.filterMode != NoFiltering {
      OverlappingNoDuplicates(listed, settings.startOfTimeRange, settings.endOfTimeRange);
    }
  }

  lemma {:induction false} OverlappingNoDuplicates(s: seq<CalendarEvent>, startOfTimeRange: int, endOfTimeRange: int)
    requires NoDuplicates(s)
    ensures NoDuplicates(Overlapping(s, startOfTimeRange, endOfTimeRange))
  {
    if s != [] {
      var p, last := s[..|s| - 1], s[|s| - 1];
      OverlappingNoDuplicates(p, startOfTimeRange, endOfTimeRange);
      if Overlaps(last, startOfTimeRange, endOfTimeRange) {
        assert last !in p;
        NoDuplicatesAppend(Overlapping(p, startOfTimeRange, endOfTimeRange), last);
      }
    }
  }

  // ---------------------------------------------------------------------------
  // Past events shown in their calendar's color (pastEventsWithColorList,
  // addPastEventsWithDefaultColor)

  /** `filter { filterMode != DEBUG_FILTER || it.hasDefaultCalendarColor }` */
  function ColorFiltered(s: seq<CalendarEvent>, filterMode: FilterMode): (r: seq<CalendarEvent>)
    ensures forall i :: 0 <= i < |r| ==> r[i] in s && (filterMode != DebugFilter || r[i].hasDefaultCalendarColor)
    ensures forall i :: 0 <= i < |s| && (filterMode != DebugFilter || s[i].hasDefaultCalendarColor) ==> s[i] in r
  {
    if s == [] then []
    else
      var p, last := s[..|s| - 1], s[|s| - 1];
      assert s == p + [last];
      ColorFiltered(p, filterMode) + (if filterMode != DebugFilter || last.hasDefaultCalendarColor then [last] else [])
  }

  /** The color filter keeps the events in their order. */
  lemma {:induction false} ColorFilteredIsSubsequence(s: seq<CalendarEvent>, filterMode: FilterMode)
    ensures IsSubsequence(ColorFiltered(s, filterMode), s)
  {
    if s == [] {
      SubsequenceEmpty<CalendarEvent>();
    } else {
      var p, last := s[..|s| - 1], s[|s| - 1];
      ColorFilteredIsSubsequence(p, filterMode);
      SubsequenceSnoc(ColorFiltered(p, filterMode), p, last, filterMode != DebugFilter || last.hasDefaultCalendarColor);
      assert s == p + [last];
    }
  }

  /** The colour filter keeps every copy of a retained event and none of the others. */
  lemma {:induction false} ColorFilteredCounts(s: seq<CalendarEvent>, filterMode: FilterMode)
    ensures forall x :: multiset(ColorFiltered(s, filterMode))[x] == if filterMode != DebugFilter || x.hasDefaultCalendarColor then multiset(s)[x] else 0
  {
    if s != [] {
      var p, last := s[..|s| - 1], s[|s| - 1];
      ColorFilteredCounts(p, filterMode);
      assert s == p + [last];
      assert multiset(s) == multiset(p) + multiset{last};
      assert multiset(ColorFiltered(s, filterMode)) == multiset(ColorFiltered(p, filterMode)) + multiset(if filterMode != DebugFilter || last.hasDefaultCalendarColor then [last] else []);
    }
  }

  lemma {:induction false} ColorFilteredNoDuplicates(s: seq<CalendarEvent>, filterMode: FilterMode)
    requires NoDuplicates(s)
    ensures NoDuplicates(ColorFiltered(s, filterMode))
  {
    if s != [] {
      var p, last := s[..|s| - 1], s[|s| - 1];
      ColorFilteredNoDuplicates(p, filterMode);
      if filterMode != DebugFilter || last.hasDefaultCalendarColor {
        assert last !in p;
        NoDuplicatesAppend(ColorFiltered(p, filterMode), last);
      }
    }
  }

  /** Reference definition of `pastEventsWithColorList`: the fold over the rows
      from the epoch to now with the past-events selection. */
  function PastEventsWithColor(settings: ProviderSettings, source: ContentSource): seq<CalendarEvent> {
    var rows := source.query(0, settings.now, PastEventsWithColorSelection(settings.activeSources));
    ColorFiltered(Distinct(KeywordVisible(rows, source.hideMatched, source.showMatched)), settings.filterMode)
  }

  method PastEventsWithColorList(settings: ProviderSettings, source: ContentSource) returns (r: seq<CalendarEvent>)
    ensures r == PastEventsWithColor(settings, source)
    ensures NoDuplicates(r)
  {
    var selection := CalendarSelection(settings.activeSources);
    selection := selection + AND_BRACKET + DISPLAY_COLOR + EQUALS + CALENDAR_COLOR + CLOSING_BRACKET;
    var listed := QueryList(source.query(0, settings.now, selection), source.hideMatched, source.showMatched);
    r := ColorFiltered(listed, settings.filterMode);
    ColorFilteredNoDuplicates(listed, settings.filterMode);
  }

  /** Reference definition of `addPastEventsWithDefaultColor`: each past event
      in turn is removed where it was and appended. */
  function MovedToEnd(eventList: seq<CalendarEvent>, past: seq<CalendarEvent>): seq<CalendarEvent> {
    if past == [] then eventList
    else
      var last := past[|past| - 1];
      RemoveFirst(MovedToEnd(eventList, past[..|past| - 1]), last) + [last]
  }

  method AddPastEventsWithDefaultColor(eventList: seq<CalendarEvent>, pastEventsWithColorList: seq<CalendarEvent>)
    returns (r: seq<CalendarEvent>)
    ensures r == MovedToEnd(eventList, pastEventsWithColorList)
  {
    r := eventList;
    for k := 0 to |pastEventsWithColorList|
      invariant r == MovedToEnd(eventList, pastEventsWithColorList[..k])
    {
      var event := pastEventsWithColorList[k];
      assert pastEventsWithColorList[..k + 1][..k] == pastEventsWithColorList[..k];
      if event in r {
        r := RemoveFirst(r, event);
      }
      r := r + [event];
    }
    assert pastEventsWithColorList[..|pastEventsWithColorList|] == pastEventsWithColorList;
  }

  /** With both lists free of duplicates, the past events end up once each, at
      the tail, in their own order, after the other events in their old order. */
  lemma {:induction false} MovedToEndIsTail(eventList: seq<CalendarEvent>, past: seq<CalendarEvent>)
    requires NoDuplicates(eventList) && NoDuplicates(past)
    ensures MovedToEnd(eventList, past) == WithoutAll(eventList, past) + past
  {
    if past == [] {
      WithoutAllNone(eventList);
    } else {
      var p, x := past[..|past| - 1], past[|past| - 1];
      NoDuplicatesInit(past);
      MovedToEndIsTail(eventList, p);
      MovedToEndStep(eventList, p, x);
      assert past == p + [x];
    }
  }

  /** One more past event: the step of `MovedToEndIsTail`. */
  lemma MovedToEndStep(eventList: seq<CalendarEvent>, p: seq<CalendarEvent>, x: CalendarEvent)
    requires NoDuplicates(eventList) && x !in p
    requires MovedToEnd(eventList, p) == WithoutAll(eventList, p) + p
    ensures MovedToEnd(eventList, p + [x]) == WithoutAll(eventList, p + [x]) + (p + [x])
  {
    var w := WithoutAll(eventList, p);
    calc {
      MovedToEnd(eventList, p + [x]);
      { assert (p + [x])[..|p|] == p; }
      RemoveFirst(w + p, x) + [x];
      { RemoveFirstPastTail(w, p, x); }
      RemoveFirst(w, x) + p + [x];
      { WithoutAllSnoc(eventList, p, x); }
      WithoutAll(eventList, p + [x]) + (p + [x]);
    }
  }

  /** Removing a value that the back part lacks touches only the front part. */
  lemma RemoveFirstPastTail(w: seq<CalendarEvent>, p: seq<CalendarEvent>, x: CalendarEvent)
    requires x !in p
    ensures RemoveFirst(w + p, x) == RemoveFirst(w, x) + p
  {
    if x in w {
      RemoveFirstConcat(w, p, x);
    } else {
      RemoveFirstConcatAbsent(w, p, x);
      assert RemoveFirst(p, x) == p;
    }
  }

  /** The resulting list is free of duplicates when both lists are. */
  lemma MovedToEndNoDuplicates(eventList: seq<CalendarEvent>, past: seq<CalendarEvent>)
    requires NoDuplicates(eventList) && NoDuplicates(past)
    ensures NoDuplicates(MovedToEnd(eventList, past))
  {
    MovedToEndIsTail(eventList, past);
    WithoutAllNoDuplicates(eventList, past);
    NoDuplicatesConcat(WithoutAll(eventList, past), past);
  }

  // ---------------------------------------------------------------------------
  // One instance per recurring event (filterShowOnlyClosestInstanceOfRecurringEvent)

  /** `abs(minutesTo(closestTime))`: how far, in minutes, the instance is from now. */
  function Distance(event: CalendarEvent, minutesTo: int -> int): nat {
    var m := minutesTo(event.closestTime);
    if m < 0 then -m else m
  }

  /** Among the first `n` events, `s[c]` is the instance of its event closest to
      now: strictly closer than every earlier instance of the same event, and
      at least as close as every later one (so the earliest wins a tie). */
  predicate ClosestAmong(s: seq<CalendarEvent>, n: int, c: int, minutesTo: int -> int)
    requires 0 <= n <= |s|
  {
    && 0 <= c < n
    && forall k :: 0 <= k < n && s[k].eventId == s[c].eventId ==>
         (k < c ==> Distance(s[c], minutesTo) < Distance(s[k], minutesTo))
         && (c < k ==> Distance(s[c], minutesTo) <= Distance(s[k], minutesTo))
  }

  predicate IsClosestInstance(s: seq<CalendarEvent>, c: int, minutesTo: int -> int) {
    ClosestAmong(s, |s|, c, minutesTo)
  }

  /** Two different closest instances belong to different events. */
  lemma ClosestAmongUnique(s: seq<CalendarEvent>, n: int, a: int, b: int, minutesTo: int -> int)
    requires 0 <= n <= |s| && ClosestAmong(s, n, a, minutesTo) && 0 <= b < n && a != b
    ensures s[a].eventId == s[b].eventId ==> !ClosestAmong(s, n, b, minutesTo)
  {
  }

  /** Every event has a closest instance. */
  lemma ClosestExists(s: seq<CalendarEvent>, j: int, minutesTo: int -> int)
    requires 0 <= j < |s|
    ensures exists c :: 0 <= c < |s| && s[c].eventId == s[j].eventId && IsClosestInstance(s, c, minutesTo)
    decreases Distance(s[j], minutesTo), j
  {
    if !IsClosestInstance(s, j, minutesTo) {
      var k :| 0 <= k < |s| && s[k].eventId == s[j].eventId
        && ((k < j && Distance(s[k], minutesTo) <= Distance(s[j], minutesTo))
            || (j < k && Distance(s[k], minutesTo) < Distance(s[j], minutesTo)));
      ClosestExists(s, k, minutesTo);
    }
  }

  /** The closest instances among the first `n` events, in order. */
  function ClosestUpTo(s: seq<CalendarEvent>, n: int, minutesTo: int -> int): seq<CalendarEvent>
    requires 0 <= n <= |s|
  {
    if n == 0 then []
    else
      var p := ClosestUpTo(s, n - 1, minutesTo);
      if IsClosestInstance(s, n - 1, minutesTo) then p + [s[n - 1]] else p
  }

  /** What the collapse keeps is a closest instance, and it keeps every closest instance. */
  lemma {:induction false} ClosestUpToMembers(s: seq<CalendarEvent>, n: int, minutesTo: int -> int)
    requires 0 <= n <= |s|
    ensures forall x :: x in ClosestUpTo(s, n, minutesTo) ==>
      exists c :: 0 <= c < n && x == s[c] && IsClosestInstance(s, c, minutesTo)
    ensures forall c :: 0 <= c < n && IsClosestInstance(s, c, minutesTo) ==> s[c] in ClosestUpTo(s, n, minutesTo)
  {
    if n > 0 {
      ClosestUpToMembers(s, n - 1, minutesTo);
    }
  }

  /** Reference definition of the collapse: every instance that is the closest of its event, in order. */
  function ClosestInstances(s: seq<CalendarEvent>, minutesTo: int -> int): seq<CalendarEvent> {
    ClosestUpTo(s, |s|, minutesTo)
  }

  /** No two instances in `r` belong to the same event. */
  ghost predicate OnePerEvent(r: seq<CalendarEvent>) {
    forall a, b :: 0 <= a < b < |r| ==> r[a].eventId != r[b].eventId
  }

  /** After the collapse each event occurs once. */
  lemma {:induction false} ClosestInstancesOnePerEvent(s: seq<CalendarEvent>, n: int, minutesTo: int -> int)
    requires 0 <= n <= |s|
    ensures OnePerEvent(ClosestUpTo(s, n, minutesTo))
  {
    if n > 0 {
      ClosestInstancesOnePerEvent(s, n - 1, minutesTo);
      var p := ClosestUpTo(s, n - 1, minutesTo);
      if IsClosestInstance(s, n - 1, minutesTo) {
        forall a | 0 <= a < |p| ensures p[a].eventId != s[n - 1].eventId {
          OtherEventThanLast(s, n, p[a], minutesTo);
        }
        OnePerEventAppend(p, s[n - 1]);
        assert ClosestUpTo(s, n, minutesTo) == p + [s[n - 1]];
      }
    }
  }

  lemma OtherEventThanLast(s: seq<CalendarEvent>, n: int, x: CalendarEvent, minutesTo: int -> int)
    requires 0 < n <= |s| && IsClosestInstance(s, n - 1, minutesTo)
    requires x in ClosestUpTo(s, n - 1, minutesTo)
    ensures x.eventId != s[n - 1].eventId
  {
    ClosestUpToMembers(s, n - 1, minutesTo);
    var c :| 0 <= c < n - 1 && x == s[c] && IsClosestInstance(s, c, minutesTo);
    ClosestAmongUnique(s, |s|, c, n - 1, minutesTo);
  }

  lemma OnePerEventAppend(p: seq<CalendarEvent>, e: CalendarEvent)
    requires OnePerEvent(p)
    requires forall a :: 0 <= a < |p| ==> p[a].eventId != e.eventId
    ensures OnePerEvent(p + [e])
  {
    var r := p + [e];
    forall a, b | 0 <= a < b < |r| ensures r[a].eventId != r[b].eventId {
      assert r[a] == p[a];
      if b < |p| {
        assert r[b] == p[b];
      }
    }
  }

  /** Every event of the list keeps its closest instance through the collapse. */
  lemma ClosestInstancesKeepEveryEvent(s: seq<CalendarEvent>, j: int, minutesTo: int -> int)
    requires 0 <= j < |s|
    ensures exists c :: 0 <= c < |s| && s[c].eventId == s[j].eventId && IsClosestInstance(s, c, minutesTo)
                        && s[c] in ClosestInstances(s, minutesTo)
  {
    ClosestExists(s, j, minutesTo);
    var c :| 0 <= c < |s| && s[c].eventId == s[j].eventId && IsClosestInstance(s, c, minutesTo);
    ClosestUpToMembers(s, |s|, minutesTo);
  }

  /** `removeAll` of values that are, position by position, exactly the instances
      that are not the closest leaves the closest instances. */
  lemma {:induction false} WithoutAllClosest(s: seq<CalendarEvent>, n: int, toRemove: seq<CalendarEvent>, minutesTo: int -> int)
    requires 0 <= n <= |s|
    requires forall j :: 0 <= j < |s| ==> (s[j] in toRemove <==> !IsClosestInstance(s, j, minutesTo))
    ensures WithoutAll(s[..n], toRemove) == ClosestUpTo(s, n, minutesTo)
  {
    if n > 0 {
      WithoutAllClosest(s, n - 1, toRemove, minutesTo);
      assert s[..n][..n - 1] == s[..n - 1];
      assert s[..n][n - 1] == s[n - 1];
    }
  }

  /** The loop state of the collapse after `n` events: `eventIds` maps each
      event seen so far to its closest instance, found at `closestAt[id]`. */
  ghost predicate Champions(s: seq<CalendarEvent>, n: int, eventIds: map<int, CalendarEvent>,
                            closestAt: map<int, int>, minutesTo: int -> int)
    requires 0 <= n <= |s|
  {
    && eventIds.Keys == closestAt.Keys
    && (forall j :: 0 <= j < n ==> s[j].eventId in closestAt)
    && forall id :: id in closestAt ==>
         && 0 <= closestAt[id] < n
         && s[closestAt[id]].eventId == id
         && eventIds[id] == s[closestAt[id]]
         && ClosestAmong(s, n, closestAt[id], minutesTo)
  }

  lemma ChampionsFirst(s: seq<CalendarEvent>, i: int, eventIds: map<int, CalendarEvent>,
                       closestAt: map<int, int>, minutesTo: int -> int)
    requires 0 <= i < |s| && Champions(s, i, eventIds, closestAt, minutesTo)
    requires s[i].eventId !in eventIds
    ensures Champions(s, i + 1, eventIds[s[i].eventId := s[i]], closestAt[s[i].eventId := i], minutesTo)
  {
    forall id | id in closestAt ensures ClosestAmong(s, i + 1, closestAt[id], minutesTo) {
      assert ClosestAmong(s, i, closestAt[id], minutesTo);
    }
  }

  lemma ChampionsCloser(s: seq<CalendarEvent>, i: int, eventIds: map<int, CalendarEvent>,
                        closestAt: map<int, int>, minutesTo: int -> int)
    requires 0 <= i < |s| && Champions(s, i, eventIds, closestAt, minutesTo)
    requires s[i].eventId in eventIds && Distance(s[i], minutesTo) < Distance(eventIds[s[i].eventId], minutesTo)
    ensures Champions(s, i + 1, eventIds[s[i].eventId := s[i]], closestAt[s[i].eventId := i], minutesTo)
  {
    var c := closestAt[s[i].eventId];
    assert ClosestAmong(s, i, c, minutesTo);
    forall id | id in closestAt && id != s[i].eventId ensures ClosestAmong(s, i + 1, closestAt[id], minutesTo) {
      assert ClosestAmong(s, i, closestAt[id], minutesTo);
    }
  }

  lemma ChampionsFarther(s: seq<CalendarEvent>, i: int, eventIds: map<int, CalendarEvent>,
                         closestAt: map<int, int>, minutesTo: int -> int)
    requires 0 <= i < |s| && Champions(s, i, eventIds, closestAt, minutesTo)
    requires s[i].eventId in eventIds && Distance(eventIds[s[i].eventId], minutesTo) <= Distance(s[i], minutesTo)
    ensures Champions(s, i + 1, eventIds, closestAt, minutesTo)
  {
    forall id | id in closestAt ensures ClosestAmong(s, i + 1, closestAt[id], minutesTo) {
      assert ClosestAmong(s, i, closestAt[id], minutesTo);
    }
  }

  /** The removal list after `n` events holds exactly the instances seen so far
      that are not their event's current closest one. */
  ghost predicate Superseded(s: seq<CalendarEvent>, n: int, toRemove: seq<CalendarEvent>, closestAt: map<int, int>)
    requires 0 <= n <= |s|
  {
    && (forall j :: 0 <= j < n && s[j].eventId in closestAt && j != closestAt[s[j].eventId] ==> s[j] in toRemove)
    && forall k :: 0 <= k < |toRemove| ==>
         exists j :: 0 <= j < n && toRemove[k] == s[j] && s[j].eventId in closestAt && j != closestAt[s[j].eventId]
  }

  lemma SupersededFirst(s: seq<CalendarEvent>, i: int, toRemove: seq<CalendarEvent>, closestAt: map<int, int>)
    requires 0 <= i < |s| && Superseded(s, i, toRemove, closestAt)
    requires forall j :: 0 <= j < i ==> s[j].eventId in closestAt && closestAt[s[j].eventId] < i
    requires s[i].eventId !in closestAt
    ensures Superseded(s, i + 1, toRemove, closestAt[s[i].eventId := i])
  {
    var at := closestAt[s[i].eventId := i];
    forall k | 0 <= k < |toRemove|
      ensures exists j :: 0 <= j < i + 1 && toRemove[k] == s[j] && s[j].eventId in at && j != at[s[j].eventId]
    {
      var j :| 0 <= j < i && toRemove[k] == s[j] && s[j].eventId in closestAt && j != closestAt[s[j].eventId];
      assert s[j].eventId != s[i].eventId;
      assert s[j].eventId in at && j != at[s[j].eventId];
    }
    assert Superseded(s, i + 1, toRemove, at);
  }

  lemma SupersededCloser(s: seq<CalendarEvent>, i: int, toRemove: seq<CalendarEvent>, closestAt: map<int, int>)
    requires 0 <= i < |s| && Superseded(s, i, toRemove, closestAt)
    requires forall j :: 0 <= j < i ==> s[j].eventId in closestAt && closestAt[s[j].eventId] < i
    requires s[i].eventId in closestAt && 0 <= closestAt[s[i].eventId] < i
    requires s[closestAt[s[i].eventId]].eventId == s[i].eventId
    ensures Superseded(s, i + 1, toRemove + [s[closestAt[s[i].eventId]]], closestAt[s[i].eventId := i])
  {
    var c := closestAt[s[i].eventId];
    var at := closestAt[s[i].eventId := i];
    var removed := toRemove + [s[c]];
    forall k | 0 <= k < |removed|
      ensures exists j :: 0 <= j < i + 1 && removed[k] == s[j] && s[j].eventId in at && j != at[s[j].eventId]
    {
      if k < |toRemove| {
        var j :| 0 <= j < i && toRemove[k] == s[j] && s[j].eventId in closestAt && j != closestAt[s[j].eventId];
        assert removed[k] == s[j] && s[j].eventId in at && j != at[s[j].eventId];
      } else {
        assert removed[k] == s[c] && s[c].eventId in at && c != at[s[c].eventId];
      }
    }
  }

  lemma SupersededFarther(s: seq<CalendarEvent>, i: int, toRemove: seq<CalendarEvent>, closestAt: map<int, int>)
    requires 0 <= i < |s| && Superseded(s, i, toRemove, closestAt)
    requires s[i].eventId in closestAt && closestAt[s[i].eventId] < i
    ensures Superseded(s, i + 1, toRemove + [s[i]], closestAt)
  {
    var removed := toRemove + [s[i]];
    forall k | 0 <= k < |removed|
      ensures exists j :: 0 <= j < i + 1 && removed[k] == s[j] && s[j].eventId in closestAt && j != closestAt[s[j].eventId]
    {
      if k < |toRemove| {
        var j :| 0 <= j < i && toRemove[k] == s[j] && s[j].eventId in closestAt && j != closestAt[s[j].eventId];
        assert removed[k] == s[j];
      } else {
        assert removed[k] == s[i];
      }
    }
  }

  /** The loop state of `filterShowOnlyClosestInstanceOfRecurringEvent`: the
      `eventIds` map, the position of each champion, and the removal list. */
  datatype ClosestScan = ClosestScan(eventIds: map<int, CalendarEvent>, closestAt: map<int, int>, toRemove: seq<CalendarEvent>)

  /** One iteration of the loop, on the scan state. */
  ghost function ScanStep(s: seq<CalendarEvent>, i: int, st: ClosestScan, minutesTo: int -> int): ClosestScan
    requires 0 <= i < |s|
  {
    var id := s[i].eventId;
    if id !in st.eventIds then
      ClosestScan(st.eventIds[id := s[i]], st.closestAt[id := i], st.toRemove)
    else if Distance(s[i], minutesTo) < Distance(st.eventIds[id], minutesTo) then
      ClosestScan(st.eventIds[id := s[i]], st.closestAt[id := i], st.toRemove + [st.eventIds[id]])
    else
      ClosestScan(st.eventIds, st.closestAt, st.toRemove + [s[i]])
  }

  ghost predicate ScanInvariant(s: seq<CalendarEvent>, n: int, st: ClosestScan, minutesTo: int -> int)
    requires 0 <= n <= |s|
  {
    Champions(s, n, st.eventIds, st.closestAt, minutesTo) && Superseded(s, n, st.toRemove, st.closestAt)
  }

  lemma ScanStepKeeps(s: seq<CalendarEvent>, i: int, st: ClosestScan, minutesTo: int -> int)
    requires 0 <= i < |s| && ScanInvariant(s, i, st, minutesTo)
    ensures ScanInvariant(s, i + 1, ScanStep(s, i, st, minutesTo), minutesTo)
  {
    var id := s[i].eventId;
    if id !in st.eventIds {
      ChampionsFirst(s, i, st.eventIds, st.closestAt, minutesTo);
      SupersededFirst(s, i, st.toRemove, st.closestAt);
    } else if Distance(s[i], minutesTo) < Distance(st.eventIds[id], minutesTo) {
      ChampionsCloser(s, i, st.eventIds, st.closestAt, minutesTo);
      SupersededCloser(s, i, st.toRemove, st.closestAt);
    } else {
      ChampionsFarther(s, i, st.eventIds, st.closestAt, minutesTo);
      SupersededFarther(s, i, st.toRemove, st.closestAt);
    }
  }

  /** `filterShowOnlyClosestInstanceOfRecurringEvent`: keeps, for each `eventId`,
      the instance nearest to now (the first one met on a tie) and removes the
      others with `removeAll`. */
  method FilterShowOnlyClosestInstanceOfRecurringEvent(eventList: seq<CalendarEvent>, minutesTo: int -> int)
    returns (r: seq<CalendarEvent>)
    ensures forall i :: 0 <= i < |r| ==> r[i] in eventList
    ensures NoDuplicates(eventList) ==> r == ClosestInstances(eventList, minutesTo)
  {
    var eventIds: map<int, CalendarEvent> := map[];
    var toRemove: seq<CalendarEvent> := [];
    ghost var st := ClosestScan(map[], map[], []);
    for i := 0 to |eventList|
      invariant ScanInvariant(eventList, i, st, minutesTo)
      invariant st.eventIds == eventIds && st.toRemove == toRemove
    {
      var event := eventList[i];
      ScanStepKeeps(eventList, i, st, minutesTo);
      st := ScanStep(eventList, i, st, minutesTo);
      if event.eventId !in eventIds {
        eventIds := eventIds[event.eventId := event];
      } else {
        var otherEvent := eventIds[event.eventId];
        if Distance(event, minutesTo) < Distance(otherEvent, minutesTo) {
          toRemove := toRemove + [otherEvent];
          eventIds := eventIds[event.eventId := event];
        } else {
          toRemove := toRemove + [event];
        }
      }
    }
    r := WithoutAll(eventList, toRemove);
    if NoDuplicates(eventList) {
      ClosestIsKept(eventList, eventIds, st.closestAt, toRemove, minutesTo);
      WithoutAllClosest(eventList, |eventList|, toRemove, minutesTo);
      assert eventList[..|eventList|] == eventList;
    }
  }

  /** At the end of the loop, an instance is removed exactly when it is not its event's closest. */
  lemma ClosestIsKept(s: seq<CalendarEvent>, eventIds: map<int, CalendarEvent>, closestAt: map<int, int>,
                      toRemove: seq<CalendarEvent>, minutesTo: int -> int)
    requires NoDuplicates(s)
    requires Champions(s, |s|, eventIds, closestAt, minutesTo) && Superseded(s, |s|, toRemove, closestAt)
    ensures forall j :: 0 <= j < |s| ==> (s[j] in toRemove <==> !IsClosestInstance(s, j, minutesTo))
  {
    forall j | 0 <= j < |s|
      ensures s[j] in toRemove <==> !IsClosestInstance(s, j, minutesTo)
    {
      var c := closestAt[s[j].eventId];
      if j != c {
        ClosestAmongUnique(s, |s|, c, j, minutesTo);
      } else {
        assert IsClosestInstance(s, j, minutesTo);
        forall k | 0 <= k < |toRemove| ensures toRemove[k] != s[j] {
          var j' :| 0 <= j' < |s| && toRemove[k] == s[j'] && s[j'].eventId in closestAt && j' != closestAt[s[j'].eventId];
          assert j' != j;
        }
      }
    }
  }

  /** The closest instances of a duplicate-free list are duplicate-free. */
  lemma {:induction false} ClosestUpToNoDuplicates(s: seq<CalendarEvent>, n: int, minutesTo: int -> int)
    requires 0 <= n <= |s| && NoDuplicates(s)
    ensures NoDuplicates(ClosestUpTo(s, n, minutesTo))
  {
    if n > 0 {
      ClosestUpToNoDuplicates(s, n - 1, minutesTo);
      if IsClosestInstance(s, n - 1, minutesTo) {
        ClosestUpToMembers(s, n - 1, minutesTo);
        NoDuplicatesAppend(ClosestUpTo(s, n - 1, minutesTo), s[n - 1]);
      }
    }
  }

  // ---------------------------------------------------------------------------
  // queryEvents

  /** The events after the time filter and, when configured, the past events
      with the default color moved to the end. */
  function WithPastEvents(settings: ProviderSettings, source: ContentSource): seq<CalendarEvent> {
    if settings.showPastEventsWithDefaultColor
    then MovedToEnd(TimeFiltered(settings, source), PastEventsWithColor(settings, source))
    else TimeFiltered(settings, source)
  }

  /** Reference definition of `queryEvents`. */
  function QueriedEvents(settings: ProviderSettings, source: ContentSource): seq<CalendarEvent> {
    if source.permissionNeeded || settings.activeSources == [] then []
    else if settings.filterMode != NoFiltering && settings.showOnlyClosestInstanceOfRecurringEvent
    then ClosestInstances(WithPastEvents(settings, source), source.minutesTo)
    else WithPastEvents(settings, source)
  }

  lemma WithPastEventsNoDuplicates(settings: ProviderSettings, source: ContentSource)
    ensures NoDuplicates(WithPastEvents(settings, source))
  {
    TimeFilteredShape(settings, source);
    if settings.showPastEventsWithDefaultColor {
      var rows := source.query(0, settings.now, PastEventsWithColorSelection(settings.activeSources));
      ColorFilteredNoDuplicates(Distinct(KeywordVisible(rows, source.hideMatched, source.showMatched)), settings.filterMode);
      MovedToEndNoDuplicates(TimeFiltered(settings, source), PastEventsWithColor(settings, source));
    }
  }

  /** `queryEvents`: nothing without the calendar permission or an active calendar;
      otherwise the time-filtered events, the past events with the default
      color moved to the end when configured, and, unless filtering is off,
      only the closest instance of each recurring event when configured. */
  method QueryEvents(settings: ProviderSettings, source: ContentSource) returns (r: seq<CalendarEvent>)
    ensures source.permissionNeeded || settings.activeSources == [] ==> r == []
    ensures r == QueriedEvents(settings, source)
  {
    if source.permissionNeeded || |settings.activeSources| == 0 {
      return [];
    }
    var eventList := TimeFilteredEventList(settings, source);
    if settings.showPastEventsWithDefaultColor {
      var past := PastEventsWithColorList(settings, source);
      eventList := AddPastEventsWithDefaultColor(eventList, past);
    }
    if settings.filterMode != NoFiltering {
      if settings.showOnlyClosestInstanceOfRecurringEvent {
        WithPastEventsNoDuplicates(settings, source);
        eventList := FilterShowOnlyClosestInstanceOfRecurringEvent(eventList, source.minutesTo);
      }
    }
    r := eventList;
  }

  /** The provider never returns the same event twice. */
  lemma QueriedEventsNoDuplicates(settings: ProviderSettings, source: ContentSource)
    ensures NoDuplicates(QueriedEvents(settings, source))
  {
    WithPastEventsNoDuplicates(settings, source);
    var w := WithPastEvents(settings, source);
    ClosestUpToNoDuplicates(w, |w|, source.minutesTo);
  }

  /** With the collapse on, each recurring event appears once, as its closest
      instance, and no event of the filtered list is lost. */
  lemma QueriedEventsOnePerEvent(settings: ProviderSettings, source: ContentSource)
    requires !source.permissionNeeded && settings.activeSources != []
    requires settings.filterMode != NoFiltering && settings.showOnlyClosestInstanceOfRecurringEvent
    ensures OnePerEvent(QueriedEvents(settings, source))
    ensures forall e :: e in WithPastEvents(settings, source) ==>
      exists x :: x in QueriedEvents(settings, source) && x.eventId == e.eventId
  {
    var w := WithPastEvents(settings, source);
    var q := ClosestInstances(w, source.minutesTo);
    assert QueriedEvents(settings, source) == q;
    ClosestInstancesOnePerEvent(w, |w|, source.minutesTo);
    forall e | e in w ensures exists x :: x in q && x.eventId == e.eventId {
      var j :| 0 <= j < |w| && w[j] == e;
      ClosestInstancesKeepEveryEvent(w, j, source.minutesTo);
      var c :| 0 <= c < |w| && w[c].eventId == w[j].eventId && IsClosestInstance(w, c, source.minutesTo) && w[c] in q;
      assert w[c] in q && w[c].eventId == e.eventId;
    }
  }

  /** Unless filtering is off and unless past events are added, every event
      returned overlaps the time range. */
  lemma QueriedEventsInRange(settings: ProviderSettings, source: ContentSource)
    requires settings.filterMode != NoFiltering && !settings.showPastEventsWithDefaultColor
    ensures forall e :: e in QueriedEvents(settings, source) ==>
      Overlaps(e, settings.startOfTimeRange, settings.endOfTimeRange)
  {
    TimeFilteredShape(settings, source);
    var w := WithPastEvents(settings, source);
    ClosestUpToMembers(w, |w|, source.minutesTo);
  }

  /** Past events with the default color come last, in their own order, and
      the time-filtered events keep theirs ahead of them. */
  lemma QueriedEventsPastAtEnd(settings: ProviderSettings, source: ContentSource)
    requires !source.permissionNeeded && settings.activeSources != [] && settings.showPastEventsWithDefaultColor
    requires !(settings.filterMode != NoFiltering && settings.showOnlyClosestInstanceOfRecurringEvent)
    ensures QueriedEvents(settings, source)
         == WithoutAll(TimeFiltered(settings, source), PastEventsWithColor(settings, source))
            + PastEventsWithColor(settings, source)
  {
    TimeFilteredShape(settings, source);
    var rows := source.query(0, settings.now, PastEventsWithColorSelection(settings.activeSources));
    ColorFilteredNoDuplicates(Distinct(KeywordVisible(rows, source.hideMatched, source.showMatched)), settings.filterMode);
    MovedToEndIsTail(TimeFiltered(settings, source), PastEventsWithColor(settings, source));
  }
}
