# Agenda list assembly — a Dafny model

This project models the list-assembly pipeline of the Todo Agenda Android
widget (trajano/todoagenda, Kotlin):

- `RemoteViewsFactory` builds the rows of the widget list. It collects the
  entries of every visualizer, sorts them stably, drops hidden entries,
  optionally removes duplicates, caps the list at `maxNumberOfEvents`, marks
  the first upcoming entry with `showTimeUntil`, optionally inserts the
  current-time line, optionally inserts day headers (with headers for days
  without events), and appends the last entry. It also answers
  `todaysPosition`, `tomorrowsPosition` and `visualizerFor`, and `reload`
  reassigns its `visualizers` and `widgetEntries` fields.
- `CalendarEventProvider` produces the calendar instances. It builds the
  SQL selection for the active calendars, chooses the query window by filter
  mode, folds the query rows through the keyword filters without duplicates,
  removes instances outside the time range, moves the past events with the
  default color to the end, and keeps only the closest instance of each
  recurring event.

Files:

- `seqs.dfy` (module `Seqs`): the Kotlin collection operations the code
  relies on — `remove` (`RemoveFirst`), `removeAll` (`WithoutAll`), the
  "add unless `contains`" fold (`Distinct`) — and duplicate-freedom.
- `widget_entries.dfy` (module `WidgetEntries`): `WidgetEntry` and its
  enums, the clock sentinels, day headers, the current-time entry, and the
  stable sort over an abstract `compareTo`.
- `remote_views_factory.dfy` (module `WidgetList`): reference definitions of
  each pipeline stage, lemmas about them, and the class `RemoteViewsFactory`
  whose loop methods are proved equal to those definitions.
- `calendar_event_provider.dfy` (module `CalendarEvents`): the same for the
  calendar provider. Its operations do not update fields of the provider, so
  they are module-level methods working on the event list they are given.

Instants are milliseconds since the epoch; a day is the index of its UTC
start-of-day instant. Collaborators whose code is not part of this model
are parameters: `WidgetEntry.compareTo` (a total preorder `le`),
`WidgetEntry.duplicates`, `WidgetEntryVisualizer.isFor` and
`queryEventEntries`, `LastEntry.getLastEntry`, the keyword filters'
`matched`, `MyClock.minutesTo`, the content provider's answer to a query
window and selection, and whether the calendar permission is missing.
Entries and events are values, compared structurally.

The constants of `EventProvider` (`AND_BRACKET` = `" AND ("`, `OR` =
`" OR "`, `EQUALS` = `" = "`, `CLOSING_BRACKET` = `" )"`) and of `MyClock`
(`DATETIME_MIN` = 0000-01-01T00:00Z, `DATETIME_MAX` = 5000-01-01T00:00Z)
come from files that are not part of this model; their values are stated
in the Dafny constants.

## Model

| member | source | states |
|---|---|---|
| WidgetEntries.NewDayHeader | app/src/main/kotlin/org/andstatus/todoagenda/RemoteViewsFactory.kt:215 | a day header is a visible day-header entry with the given position, dated at the start of its day (`day * MILLIS_PER_DAY`), without `showTimeUntil` |
| WidgetEntries.NewCurrentTimeEntry | app/src/main/kotlin/org/andstatus/todoagenda/RemoteViewsFactory.kt:182 | the current-time entry is visible and dated at `now` |
| WidgetEntries.SortEntriesPermutes | app/src/main/kotlin/org/andstatus/todoagenda/RemoteViewsFactory.kt:164 | `sort()` keeps every entry, as often as it occurs (same multiset and length) |
| WidgetEntries.SortEntriesSorted | app/src/main/kotlin/org/andstatus/todoagenda/RemoteViewsFactory.kt:164 | the sorted list is ordered by `compareTo` |
| WidgetEntries.SortEntriesStable | app/src/main/kotlin/org/andstatus/todoagenda/RemoteViewsFactory.kt:164 | the sort is stable: entries that compare equal keep their relative order |
| WidgetList.DedupIsSubsequence | app/src/main/kotlin/org/andstatus/todoagenda/RemoteViewsFactory.kt:194-210 | the deduplicated list is a subsequence of the input (strictly increasing source indices) and always keeps the first entry |
| WidgetList.DedupNoLaterDuplicate | app/src/main/kotlin/org/andstatus/todoagenda/RemoteViewsFactory.kt:194-210 | no kept entry `duplicates` a later kept entry |
| WidgetList.DedupDropsOnlyDuplicates | app/src/main/kotlin/org/andstatus/todoagenda/RemoteViewsFactory.kt:194-210 | every dropped entry is duplicated by a kept entry that comes before it |
| WidgetList.Visible | app/src/main/kotlin/org/andstatus/todoagenda/RemoteViewsFactory.kt:165 | exactly the entries that are not hidden remain (how many copies: `VisibleCounts`) |
| WidgetList.VisibleIsSubsequence | app/src/main/kotlin/org/andstatus/todoagenda/RemoteViewsFactory.kt:165 | `filter` keeps the visible entries in their order |
| WidgetList.VisibleCounts | app/src/main/kotlin/org/andstatus/todoagenda/RemoteViewsFactory.kt:165 | every copy of a visible entry is kept and every copy of a hidden one dropped: the count of each entry in the result is its count in the input when it is visible and zero otherwise |
| WidgetList.Limited | app/src/main/kotlin/org/andstatus/todoagenda/RemoteViewsFactory.kt:167-172 | with `maxNumberOfEvents > 0` the result is the prefix of length min(max, n); otherwise the list is unchanged |
| WidgetList.FirstUpcoming | app/src/main/kotlin/org/andstatus/todoagenda/RemoteViewsFactory.kt:173-179 | the index of the first entry dated at or after `now`, or the length when there is none |
| WidgetList.TaggedExactlyFirstUpcoming | app/src/main/kotlin/org/andstatus/todoagenda/RemoteViewsFactory.kt:173-179 | tagging changes only `showTimeUntil`, and sets it on exactly the first entry dated at or after `now` |
| WidgetList.CurrentTimeLine | app/src/main/kotlin/org/andstatus/todoagenda/RemoteViewsFactory.kt:180-185 | the current-time entry is added only when the setting is on and the list is non-empty; the result then holds the old entries plus that entry (length n+1) and is sorted |
| WidgetList.DayRangeShape | app/src/main/kotlin/org/andstatus/todoagenda/RemoteViewsFactory.kt:268-271 | the day loop emits one `DAY_HEADER` per day from the first day up to the exclusive end, in increasing order |
| WidgetList.EmptyDayHeadersShape | app/src/main/kotlin/org/andstatus/todoagenda/RemoteViewsFactory.kt:260-274 | one `DAY_HEADER` per day d with max(from+1, today) <= d < to, in increasing order; nothing when that range is empty |
| WidgetList.HeadersForAreDayHeaders | app/src/main/kotlin/org/andstatus/todoagenda/RemoteViewsFactory.kt:220-244 | everything emitted before an entry is a visible day header |
| WidgetList.DayHeadersKeepEntries | app/src/main/kotlin/org/andstatus/todoagenda/RemoteViewsFactory.kt:212-250 | the empty list maps to the empty list; otherwise the input entries appear in order, the last one last, and every other output element is a visible day header |
| WidgetList.EntryIndicesPlaced | app/src/main/kotlin/org/andstatus/todoagenda/RemoteViewsFactory.kt:212-250 | every input entry is copied into the output at its recorded position, the last one last, and the output is empty exactly when the input is |
| WidgetList.EntryIndicesIncreasing | app/src/main/kotlin/org/andstatus/todoagenda/RemoteViewsFactory.kt:212-250 | the input entries keep their relative order in the output |
| WidgetList.OthersAreDayHeaders | app/src/main/kotlin/org/andstatus/todoagenda/RemoteViewsFactory.kt:212-250 | every output row that is not an input entry is a visible day header |
| WidgetList.HeadersForSpecial | app/src/main/kotlin/org/andstatus/todoagenda/RemoteViewsFactory.kt:221-235 | a past-and-due header is emitted only for the first `PAST_AND_DUE` entry, an end-of-list header only for the first `END_OF_LIST` entry |
| WidgetList.SpecialHeadersAtMostOnce | app/src/main/kotlin/org/andstatus/todoagenda/RemoteViewsFactory.kt:215-244 | `addDayHeaders` emits one `PAST_AND_DUE_HEADER` if some entry is `PAST_AND_DUE` and none otherwise, and likewise for `END_OF_LIST_HEADER` |
| WidgetList.DayHeaderBeforeEntry | app/src/main/kotlin/org/andstatus/todoagenda/RemoteViewsFactory.kt:236-245 | an ordinary entry whose day differs from the current bucket is preceded by a `DAY_HEADER` for its own day, immediately before it |
| WidgetList.CountAtDayRange | app/src/main/kotlin/org/andstatus/todoagenda/RemoteViewsFactory.kt:268-271 | headers for empty days are never past-and-due or end-of-list headers |
| WidgetList.AssembledEntriesVisible | app/src/main/kotlin/org/andstatus/todoagenda/RemoteViewsFactory.kt:165-186 | nothing before the last entry is hidden (hidden entries are dropped before deduplication and the cap, and every later stage adds only visible entries); the whole list is visible unless the entry `getLastEntry` supplies is itself hidden |
| WidgetList.RemoteViewsFactory.constructor | app/src/main/kotlin/org/andstatus/todoagenda/RemoteViewsFactory.kt:46-56 | a new factory has only the last-entry visualizer and no entries |
| WidgetList.RemoteViewsFactory.VisualizerFor | app/src/main/kotlin/org/andstatus/todoagenda/RemoteViewsFactory.kt:98-103 | the first visualizer, in list order, that is for the entry; none exactly when no visualizer is for it |
| WidgetList.RemoteViewsFactory.Reload | app/src/main/kotlin/org/andstatus/todoagenda/RemoteViewsFactory.kt:113-118 | the visualizers become the default set and the entries become the assembled list for them |
| WidgetList.RemoteViewsFactory.GetVisualizers | app/src/main/kotlin/org/andstatus/todoagenda/RemoteViewsFactory.kt:120-129 | the day-header visualizer, one per active provider type in order, the current-time visualizer and the last-entry visualizer |
| WidgetList.RemoteViewsFactory.TodaysPosition | app/src/main/kotlin/org/andstatus/todoagenda/RemoteViewsFactory.kt:131-137 | the first index below size-1 whose section is not past, otherwise size-1 (-1 when empty) |
| WidgetList.RemoteViewsFactory.TomorrowsPosition | app/src/main/kotlin/org/andstatus/todoagenda/RemoteViewsFactory.kt:138-144 | the first index below size-1 whose section is future, otherwise 0 when non-empty and -1 when empty |
| WidgetList.RemoteViewsFactory.QueryWidgetEntries | app/src/main/kotlin/org/andstatus/todoagenda/RemoteViewsFactory.kt:146-192 | the loop that collects and processes the entries equals the reference pipeline `AssembledEntries` |
| WidgetList.RemoteViewsFactory.MarkShowTimeUntil | app/src/main/kotlin/org/andstatus/todoagenda/RemoteViewsFactory.kt:173-179 | the break loop sets `showTimeUntil` as `TagFirstUpcoming` does |
| WidgetList.RemoteViewsFactory.FilterOutDuplicates | app/src/main/kotlin/org/andstatus/todoagenda/RemoteViewsFactory.kt:194-210 | the nested loops with the `hidden` list compute `Dedup` |
| WidgetList.RemoteViewsFactory.AddDayHeaders | app/src/main/kotlin/org/andstatus/todoagenda/RemoteViewsFactory.kt:212-250 | the loop with the bucket and the two flags computes `DayHeadersLayout` |
| WidgetList.RemoteViewsFactory.AddEmptyDayHeadersBetweenTwoDays | app/src/main/kotlin/org/andstatus/todoagenda/RemoteViewsFactory.kt:260-274 | the while loop appends exactly `EmptyDayHeaders(from, to, today)` |
| Seqs.RemoveFirst | app/src/main/kotlin/org/andstatus/todoagenda/calendar/CalendarEventProvider.kt:71 | `remove` of an absent value changes nothing; of a present value it drops one element and keeps only elements of the list |
| Seqs.RemoveFirstDropsFirst | app/src/main/kotlin/org/andstatus/todoagenda/calendar/CalendarEventProvider.kt:71 | `remove` of a present value drops exactly its first occurrence: the result is the list without the element at `IndexOf` |
| Seqs.WithoutAll | app/src/main/kotlin/org/andstatus/todoagenda/calendar/CalendarEventProvider.kt:95 | `removeAll` keeps exactly the elements equal to none of the removed values |
| Seqs.WithoutAllIsSubsequence | app/src/main/kotlin/org/andstatus/todoagenda/calendar/CalendarEventProvider.kt:68-75 | the events that are not moved to the end keep their relative order: `removeAll` returns a subsequence of its input |
| Seqs.WithoutAllCounts | app/src/main/kotlin/org/andstatus/todoagenda/calendar/CalendarEventProvider.kt:95 | `removeAll` keeps every copy of a value it does not remove and none of one it removes |
| Seqs.WithoutAllSnoc | app/src/main/kotlin/org/andstatus/todoagenda/calendar/CalendarEventProvider.kt:95 | on a duplicate-free list, removing one more value is one more `remove` |
| Seqs.Distinct | app/src/main/kotlin/org/andstatus/todoagenda/calendar/CalendarEventProvider.kt:188-193 | the "add unless contained" fold has no duplicates and holds every value of its input |
| Seqs.DistinctFirstOccurrenceOrder | app/src/main/kotlin/org/andstatus/todoagenda/calendar/CalendarEventProvider.kt:188-193 | the fold lists the values in the order of their first occurrence in the rows |
| Seqs.DistinctIsSubsequence | app/src/main/kotlin/org/andstatus/todoagenda/calendar/CalendarEventProvider.kt:178-197 | the fold keeps the rows in query order: its result is a subsequence of the rows |
| CalendarEvents.NatToString | app/src/main/kotlin/org/andstatus/todoagenda/calendar/CalendarEventProvider.kt:164 | a source id is written as a non-empty decimal digit string without leading zeros |
| CalendarEvents.IntToStringRoundTrip | app/src/main/kotlin/org/andstatus/todoagenda/calendar/CalendarEventProvider.kt:164 | the id written into the selection reads back as the same id |
| CalendarEvents.CalendarSelection | app/src/main/kotlin/org/andstatus/todoagenda/calendar/CalendarEventProvider.kt:153-172 | the selection is `EVENT_SELECTION` with no sources, else `EVENT_SELECTION` + `AND_BRACKET` + the clauses joined by `OR` + `CLOSING_BRACKET` |
| CalendarEvents.CorrectStartOfTimeRangeForQuery | app/src/main/kotlin/org/andstatus/todoagenda/calendar/CalendarEventProvider.kt:304-309 | two days earlier when after `DATETIME_MIN`, unchanged otherwise |
| CalendarEvents.QueryWindow | app/src/main/kotlin/org/andstatus/todoagenda/calendar/CalendarEventProvider.kt:104-117 | `NORMAL_FILTER` queries [`correctStartOfTimeRangeForQuery(start)`, `end`]; every other mode queries [`DATETIME_MIN`, `DATETIME_MAX`]; when `DATETIME_MIN <= startOfTimeRange` and `endOfTimeRange <= DATETIME_MAX`, the window covers the configured range |
| CalendarEvents.KeywordVisible | app/src/main/kotlin/org/andstatus/todoagenda/calendar/CalendarEventProvider.kt:188-191 | exactly the rows not matched by the hide filter and matched by the show filter |
| CalendarEvents.KeywordVisibleIsSubsequence | app/src/main/kotlin/org/andstatus/todoagenda/calendar/CalendarEventProvider.kt:188-193 | the keyword tests keep the rows in query order |
| CalendarEvents.KeywordVisibleCounts | app/src/main/kotlin/org/andstatus/todoagenda/calendar/CalendarEventProvider.kt:188-191 | every copy of a row that passes both keyword tests is kept, and no copy of one that fails them |
| CalendarEvents.QueryList | app/src/main/kotlin/org/andstatus/todoagenda/calendar/CalendarEventProvider.kt:174-197 | the fold over the rows computes `Distinct(KeywordVisible(rows))` |
| CalendarEvents.QueryListStep | app/src/main/kotlin/org/andstatus/todoagenda/calendar/CalendarEventProvider.kt:187-194 | a row is appended exactly when it is not already in the list and passes both keyword filters |
| CalendarEvents.QueryListShape | app/src/main/kotlin/org/andstatus/todoagenda/calendar/CalendarEventProvider.kt:174-197 | the folded list has no duplicates, holds only rows that pass the filters, and holds every such row |
| CalendarEvents.Overlapping | app/src/main/kotlin/org/andstatus/todoagenda/calendar/CalendarEventProvider.kt:142-147 | exactly the events with `endDate` after the start and the end after `startDate` remain |
| CalendarEvents.OverlappingIsSubsequence | app/src/main/kotlin/org/andstatus/todoagenda/calendar/CalendarEventProvider.kt:139-148 | the iterator removal keeps the retained events in their order |
| CalendarEvents.OverlappingCounts | app/src/main/kotlin/org/andstatus/todoagenda/calendar/CalendarEventProvider.kt:139-148 | the iterator removal keeps every copy of an overlapping event and removes every copy of the others |
| CalendarEvents.RemoveEventsOutsideRange | app/src/main/kotlin/org/andstatus/todoagenda/calendar/CalendarEventProvider.kt:139-148 | the iterator removal loop leaves exactly `Overlapping` of the list, in order |
| CalendarEvents.TimeFilteredEventList | app/src/main/kotlin/org/andstatus/todoagenda/calendar/CalendarEventProvider.kt:102-152 | queries the window of the filter mode and post-filters unless `NO_FILTERING`, as `TimeFiltered` states |
| CalendarEvents.TimeFilteredShape | app/src/main/kotlin/org/andstatus/todoagenda/calendar/CalendarEventProvider.kt:133-150 | the time-filtered list has no duplicates, and unless `NO_FILTERING` every event overlaps the uncorrected range (also in `DEBUG_FILTER`) |
| CalendarEvents.OverlappingNoDuplicates | app/src/main/kotlin/org/andstatus/todoagenda/calendar/CalendarEventProvider.kt:139-148 | removing events keeps a duplicate-free list duplicate-free |
| CalendarEvents.ColorFiltered | app/src/main/kotlin/org/andstatus/todoagenda/calendar/CalendarEventProvider.kt:205 | in `DEBUG_FILTER` only events with the default calendar color remain; otherwise all remain |
| CalendarEvents.ColorFilteredIsSubsequence | app/src/main/kotlin/org/andstatus/todoagenda/calendar/CalendarEventProvider.kt:205 | `filter` keeps the events in their order |
| CalendarEvents.ColorFilteredCounts | app/src/main/kotlin/org/andstatus/todoagenda/calendar/CalendarEventProvider.kt:205 | the color filter keeps every copy of a retained event and none of the others |
| CalendarEvents.ColorFilteredNoDuplicates | app/src/main/kotlin/org/andstatus/todoagenda/calendar/CalendarEventProvider.kt:205 | the color filter keeps a duplicate-free list duplicate-free |
| CalendarEvents.PastEventsWithColorList | app/src/main/kotlin/org/andstatus/todoagenda/calendar/CalendarEventProvider.kt:199-212 | queries [0, now] with the selection extended by `displayColor = calendar_color` and applies the color filter; the result has no duplicates |
| CalendarEvents.AddPastEventsWithDefaultColor | app/src/main/kotlin/org/andstatus/todoagenda/calendar/CalendarEventProvider.kt:68-75 | the remove-then-add loop computes `MovedToEnd` |
| CalendarEvents.MovedToEndIsTail | app/src/main/kotlin/org/andstatus/todoagenda/calendar/CalendarEventProvider.kt:68-75 | the past events appear once each, at the tail, in their own order, after the other events in their old order |
| CalendarEvents.MovedToEndStep | app/src/main/kotlin/org/andstatus/todoagenda/calendar/CalendarEventProvider.kt:68-75 | moving one more past event, absent from those already moved, removes it from the front part and appends it |
| CalendarEvents.MovedToEndNoDuplicates | app/src/main/kotlin/org/andstatus/todoagenda/calendar/CalendarEventProvider.kt:68-75 | moving the past events to the end creates no duplicates |
| CalendarEvents.ClosestAmongUnique | app/src/main/kotlin/org/andstatus/todoagenda/calendar/CalendarEventProvider.kt:85-93 | an event has at most one closest instance (ties go to the earliest because the comparison is strict) |
| CalendarEvents.ClosestExists | app/src/main/kotlin/org/andstatus/todoagenda/calendar/CalendarEventProvider.kt:85-93 | every event of the list has a closest instance |
| CalendarEvents.ClosestUpToMembers | app/src/main/kotlin/org/andstatus/todoagenda/calendar/CalendarEventProvider.kt:77-96 | the collapse keeps exactly the closest instances |
| CalendarEvents.ClosestInstancesOnePerEvent | app/src/main/kotlin/org/andstatus/todoagenda/calendar/CalendarEventProvider.kt:77-96 | after the collapse each `eventId` occurs at most once |
| CalendarEvents.ClosestInstancesKeepEveryEvent | app/src/main/kotlin/org/andstatus/todoagenda/calendar/CalendarEventProvider.kt:77-96 | every event keeps its closest instance: minimal `abs(minutesTo(closestTime))`, the earliest on a tie |
| CalendarEvents.ClosestUpToNoDuplicates | app/src/main/kotlin/org/andstatus/todoagenda/calendar/CalendarEventProvider.kt:77-96 | the collapse keeps a duplicate-free list duplicate-free |
| CalendarEvents.WithoutAllClosest | app/src/main/kotlin/org/andstatus/todoagenda/calendar/CalendarEventProvider.kt:95 | `removeAll` of exactly the non-closest instances leaves the closest instances in order |
| CalendarEvents.ChampionsFirst | app/src/main/kotlin/org/andstatus/todoagenda/calendar/CalendarEventProvider.kt:81-85 | the first instance of an event becomes its closest so far |
| CalendarEvents.ChampionsCloser | app/src/main/kotlin/org/andstatus/todoagenda/calendar/CalendarEventProvider.kt:86-91 | a strictly closer instance replaces the stored one in the map |
| CalendarEvents.ChampionsFarther | app/src/main/kotlin/org/andstatus/todoagenda/calendar/CalendarEventProvider.kt:92-93 | an instance that is not strictly closer leaves the map unchanged |
| CalendarEvents.SupersededFirst | app/src/main/kotlin/org/andstatus/todoagenda/calendar/CalendarEventProvider.kt:81-85 | the first instance of an event is not scheduled for removal |
| CalendarEvents.SupersededCloser | app/src/main/kotlin/org/andstatus/todoagenda/calendar/CalendarEventProvider.kt:86-91 | the replaced instance is scheduled for removal |
| CalendarEvents.SupersededFarther | app/src/main/kotlin/org/andstatus/todoagenda/calendar/CalendarEventProvider.kt:92-93 | the farther instance is scheduled for removal |
| CalendarEvents.ScanStepKeeps | app/src/main/kotlin/org/andstatus/todoagenda/calendar/CalendarEventProvider.kt:80-94 | each iteration of the `eventIds` loop keeps both invariants: every event seen has a champion that is its closest instance so far, and the removal list holds exactly the instances seen that are not champions |
| CalendarEvents.ClosestIsKept | app/src/main/kotlin/org/andstatus/todoagenda/calendar/CalendarEventProvider.kt:77-96 | after the loop an instance is scheduled for removal exactly when it is not its event's closest |
| CalendarEvents.FilterShowOnlyClosestInstanceOfRecurringEvent | app/src/main/kotlin/org/andstatus/todoagenda/calendar/CalendarEventProvider.kt:77-96 | the loop over the `eventIds` map followed by `removeAll` keeps only events of the list, and on a duplicate-free list computes `ClosestInstances` |
| CalendarEvents.WithPastEventsNoDuplicates | app/src/main/kotlin/org/andstatus/todoagenda/calendar/CalendarEventProvider.kt:56-59 | the time-filtered list with the past events moved to the end has no duplicates |
| CalendarEvents.QueryEvents | app/src/main/kotlin/org/andstatus/todoagenda/calendar/CalendarEventProvider.kt:48-66 | empty without permission or active calendars; otherwise computes `QueriedEvents`, collapsing recurrences only when the mode is not `NO_FILTERING` and the setting is on |
| CalendarEvents.QueriedEventsNoDuplicates | app/src/main/kotlin/org/andstatus/todoagenda/calendar/CalendarEventProvider.kt:48-66 | the provider never returns the same event twice |
| CalendarEvents.QueriedEventsOnePerEvent | app/src/main/kotlin/org/andstatus/todoagenda/calendar/CalendarEventProvider.kt:60-64 | with the collapse on, each `eventId` occurs once and no event of the filtered list is lost |
| CalendarEvents.QueriedEventsInRange | app/src/main/kotlin/org/andstatus/todoagenda/calendar/CalendarEventProvider.kt:56-64 | unless filtering is off or past events are added, every returned event overlaps the time range |
| CalendarEvents.QueriedEventsPastAtEnd | app/src/main/kotlin/org/andstatus/todoagenda/calendar/CalendarEventProvider.kt:56-59 | without the collapse, the past events with the default color come last in their own order, after the other events in theirs |

## Left out

- Rendering: `getViewAt`, `getCount`, `getItemId`, `getViewTypeCount`,
  `getLoadingView`, the widget header, action icons, intents and
  `PendingIntent`s, `headerParentVisibility` and `updateWidget` are UI code.
- Concurrency and the registry: the `factories` map, `@Volatile`,
  `InstanceState.listReloaded` and `onDataSetChanged` are not modelled; each
  method runs alone.
- Content-resolver I/O: `foldEvents`, the cursor reading of
  `newCalendarEvent`, `projection`, `fetchAvailableSources` and the permission
  check are a `ContentSource` parameter that answers a query window and a
  selection with rows already read into events, in the query's sort order.
- Joda time: time zones and daylight saving time are not modelled; days are
  UTC day indices and `minusDays(2)` subtracts two 24-hour days.
- Collaborators whose code is not part of this model (`WidgetEntry.compareTo`,
  `WidgetEntry.duplicates`, `isFor`, `queryEventEntries`,
  `LastEntry.getLastEntry`, `KeywordsFilter.matched`, `MyClock.minutesTo`,
  `initialiseParameters`) are parameters; `equals` of entries and events is
  structural equality.
- The clock: one `now` stands for every clock read of a refresh. The source
  reads `settings.clock.now()` separately for the `showTimeUntil` tag, for
  each `addEmptyDayHeadersBetweenTwoDays` call, and for the past-events
  window, and each `minutesTo` call reads it again. A refresh that crosses
  midnight can therefore see two different days, which the model does not
  capture.
- The `DayHeader` and `CurrentTimeEntry` classes are not part of this model.
  The model assumes the fields of the synthetic entries:
  - a day header has item id 0, its `timeSection` is `SectionOf(day, today)`
    (past, today or future relative to today's day), and it is not hidden;
  - the current-time entry has item id 0, position `ENTRY_DATE`, section
    `TODAY`, and is not hidden.
  `TodaysPosition` and `TomorrowsPosition` read `timeSection`, so on lists
  with headers or the time line their results rest on these assumptions.
- `LastEntry.getLastEntry` is a parameter. Whether the entry it appends is
  hidden is not modelled, so `AssembledEntriesVisible` covers the whole list
  only when that entry is visible.
- Logging, `settings.isForTestsReplaying` and `logWidgetEntries`.
- `WidgetEntry.showTimeUntil` is set in place on a shared object in the
  source; the model rebuilds the list with the flag set, so aliasing between
  lists is not captured.
- `CalendarEvents.Distance`: `abs` of `Int.MIN_VALUE` minutes, which stays
  negative in Kotlin, is not modelled; distances are mathematical absolute
  values.
- FilterShowOnlyClosestInstanceOfRecurringEvent: the result is tied to
  `ClosestInstances` only when the list has no duplicates (the lists the
  provider passes in never do); on a list with equal events `removeAll` also
  drops the equal copies of a closest instance, which the model does not
  characterise beyond "only events of the list remain".
- `EventProvider` and `MyClock` are not part of this model; the constants
  taken from them are written out in `calendar_event_provider.dfy` and
  `widget_entries.dfy`.
- The test files `FakeCalendarContentProviderTest` and
  `WidgetHeaderVisibilityTest` exercise code outside this model.
