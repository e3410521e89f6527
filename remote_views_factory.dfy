/** The widget list assembly of `RemoteViewsFactory`: collecting the entries of
    every visualizer, sorting, hiding, de-duplicating, capping, tagging the
    first upcoming entry, and injecting the current-time line, the day headers
    and the last entry. */
module WidgetList {
  import opened Seqs
  import opened WidgetEntries

  /** The settings the list assembly reads. `now` is `settings.clock.now()`. */
  datatype WidgetSettings = WidgetSettings(
    hideDuplicates: bool,
    maxNumberOfEvents: int,
    now: int,
    showCurrentTimeLine: bool,
    showDayHeaders: bool,
    showDaysWithoutEvents: bool)
  {
    /** `settings.clock.now().withTimeAtStartOfDay()` */
    function Today(): int {
      DayOf(now)
    }
  }

  /** A visualizer renders, and queries, one kind of entry. */
  datatype Visualizer =
    | DayHeaderVisualizer
    | EventProviderVisualizer(providerType: int)
    | CurrentTimeVisualizer
    | LastEntryVisualizer

  /** The collaborators whose code is not part of this model, as parameters:
      `le(a, b)` is `a.compareTo(b) <= 0`; `duplicates` is `WidgetEntry.duplicates`;
      `isFor` is `WidgetEntryVisualizer.isFor`; `queryEventEntries` is what a
      visualizer's query returns; `lastEntry` is `LastEntry.getLastEntry`. */
  datatype EntryRules = EntryRules(
    le: (WidgetEntry, WidgetEntry) -> bool,
    duplicates: (WidgetEntry, WidgetEntry) -> bool,
    isFor: (Visualizer, WidgetEntry) -> bool,
    queryEventEntries: Visualizer -> seq<WidgetEntry>,
    lastEntry: seq<WidgetEntry> -> Option<WidgetEntry>)

  // ---------------------------------------------------------------------------
  // Cross-entry de-duplication (filterOutDuplicates)

  /** Some entry of `kept` duplicates `e`. */
  predicate DuplicatedBy(kept: seq<WidgetEntry>, e: WidgetEntry, duplicates: (WidgetEntry, WidgetEntry) -> bool) {
    exists k :: 0 <= k < |kept| && duplicates(kept[k], e)
  }

  /** Reference definition: an entry is kept when no entry kept before it duplicates it. */
  function Dedup(s: seq<WidgetEntry>, duplicates: (WidgetEntry, WidgetEntry) -> bool): seq<WidgetEntry> {
    if s == [] then []
    else
      var d := Dedup(s[..|s| - 1], duplicates);
      if DuplicatedBy(d, s[|s| - 1], duplicates) then d else d + [s[|s| - 1]]
  }

  /** The positions in `s` of the entries `Dedup` keeps. */
  ghost function DedupIndices(s: seq<WidgetEntry>, duplicates: (WidgetEntry, WidgetEntry) -> bool): seq<nat> {
    if s == [] then []
    else
      var p := s[..|s| - 1];
      if DuplicatedBy(Dedup(p, duplicates), s[|s| - 1], duplicates) then DedupIndices(p, duplicates)
      else DedupIndices(p, duplicates) + [|s| - 1]
  }

  /** De-duplication returns a subsequence of its input (at the positions
      `DedupIndices`) and always keeps the first entry. */
  lemma {:induction false} DedupIsSubsequence(s: seq<WidgetEntry>, duplicates: (WidgetEntry, WidgetEntry) -> bool)
    ensures |DedupIndices(s, duplicates)| == |Dedup(s, duplicates)|
    ensures forall k :: 0 <= k < |DedupIndices(s, duplicates)| ==>
      DedupIndices(s, duplicates)[k] < |s| && s[DedupIndices(s, duplicates)[k]] == Dedup(s, duplicates)[k]
    ensures forall k1, k2 :: 0 <= k1 < k2 < |DedupIndices(s, duplicates)| ==>
      DedupIndices(s, duplicates)[k1] < DedupIndices(s, duplicates)[k2]
    ensures s != [] ==> |DedupIndices(s, duplicates)| > 0 && DedupIndices(s, duplicates)[0] == 0
  {
    if s != [] {
      var p := s[..|s| - 1];
      DedupIsSubsequence(p, duplicates);
      if p == [] {
        assert Dedup(p, duplicates) == [];
        assert !DuplicatedBy([], s[|s| - 1], duplicates);
      }
    }
  }

  /** No kept entry duplicates a later kept entry. */
  lemma {:induction false} DedupNoLaterDuplicate(s: seq<WidgetEntry>, duplicates: (WidgetEntry, WidgetEntry) -> bool)
    ensures forall i, j :: 0 <= i < j < |Dedup(s, duplicates)| ==>
      !duplicates(Dedup(s, duplicates)[i], Dedup(s, duplicates)[j])
  {
    if s != [] {
      var p, last := s[..|s| - 1], s[|s| - 1];
      DedupNoLaterDuplicate(p, duplicates);
      var d, d' := Dedup(p, duplicates), Dedup(s, duplicates);
      if !DuplicatedBy(d, last, duplicates) {
        forall i, j | 0 <= i < j < |d'| ensures !duplicates(d'[i], d'[j]) {
          if j == |d| {
            assert d'[i] == d[i];
          } else {
            assert d'[i] == d[i] && d'[j] == d[j];
          }
        }
      }
    }
  }

  /** Every dropped entry is duplicated by an entry kept before it: the earliest
      occurrence in sort order wins. */
  lemma {:induction false} DedupDropsOnlyDuplicates(s: seq<WidgetEntry>, duplicates: (WidgetEntry, WidgetEntry) -> bool)
    ensures |DedupIndices(s, duplicates)| == |Dedup(s, duplicates)|
    ensures forall j :: 0 <= j < |s| && j !in DedupIndices(s, duplicates) ==>
      exists k :: 0 <= k < |Dedup(s, duplicates)| && DedupIndices(s, duplicates)[k] < j
                  && duplicates(Dedup(s, duplicates)[k], s[j])
  {
    if s != [] {
      var p, last := s[..|s| - 1], s[|s| - 1];
      DedupDropsOnlyDuplicates(p, duplicates);
      var d, idx := Dedup(p, duplicates), DedupIndices(p, duplicates);
      var d', idx' := Dedup(s, duplicates), DedupIndices(s, duplicates);
      var dropped := DuplicatedBy(d, last, duplicates);
      assert d' == (if dropped then d else d + [last]);
      assert idx' == (if dropped then idx else idx + [|s| - 1]);
      forall j | 0 <= j < |s| && j !in idx'
        ensures exists k :: 0 <= k < |d'| && idx'[k] < j && duplicates(d'[k], s[j])
      {
        var k: int;
        if j == |s| - 1 {
          assert dropped;
          k :| 0 <= k < |d| && duplicates(d[k], last);
          DedupIsSubsequence(p, duplicates);
        } else {
          assert j !in idx && p[j] == s[j];
          k :| 0 <= k < |d| && idx[k] < j && duplicates(d[k], p[j]);
        }
        assert d'[k] == d[k] && idx'[k] == idx[k];
      }
    }
  }

  lemma DuplicatedByExtend(kept: seq<WidgetEntry>, x: WidgetEntry, v: WidgetEntry, duplicates: (WidgetEntry, WidgetEntry) -> bool)
    requires DuplicatedBy(kept, v, duplicates) || duplicates(x, v)
    ensures DuplicatedBy(kept + [x], v, duplicates)
  {
    if duplicates(x, v) {
      assert (kept + [x])[|kept|] == x;
    } else {
      var k :| 0 <= k < |kept| && duplicates(kept[k], v);
      assert (kept + [x])[k] == kept[k];
    }
  }

  // ---------------------------------------------------------------------------
  // Hidden entries and the cap

  /** `filter { it.notHidden() }`: the entries that are not hidden, in order. */
  function Visible(s: seq<WidgetEntry>): (r: seq<WidgetEntry>)
    ensures forall i :: 0 <= i < |r| ==> r[i].NotHidden() && r[i] in s
    ensures forall i :: 0 <= i < |s| && s[i].NotHidden() ==> s[i] in r
    ensures |r| <= |s|
  {
    if s == [] then []
    else
      var p, last := s[..|s| - 1], s[|s| - 1];
      assert s == p + [last];
      Visible(p) + (if last.NotHidden() then [last] else [])
  }

  /** The filter keeps the visible entries in their order. */
  lemma {:induction false} VisibleIsSubsequence(s: seq<WidgetEntry>)
    ensures IsSubsequence(Visible(s), s)
  {
    if s == [] {
      SubsequenceEmpty<WidgetEntry>();
    } else {
      var p, last := s[..|s| - 1], s[|s| - 1];
      VisibleIsSubsequence(p);
      SubsequenceSnoc(Visible(p), p, last, last.NotHidden());
      assert s == p + [last];
    }
  }

  /** The filter keeps every copy of a visible entry and none of a hidden one. */
  lemma {:induction false} VisibleCounts(s: seq<WidgetEntry>)
    ensures forall x :: multiset(Visible(s))[x] == if x.NotHidden() then multiset(s)[x] else 0
  {
    if s != [] {
      var p, last := s[..|s| - 1], s[|s| - 1];
      VisibleCounts(p);
      assert s == p + [last];
      assert multiset(s) == multiset(p) + multiset{last};
      assert multiset(Visible(s)) == multiset(Visible(p)) + multiset(if last.NotHidden() then [last] else []);
    }
  }

  /** `take(maxNumberOfEvents)` when the setting is positive: the longest prefix
      of at most that many entries; no cap otherwise. */
  function Limited(s: seq<WidgetEntry>, maxNumberOfEvents: int): (r: seq<WidgetEntry>)
    ensures maxNumberOfEvents > 0 ==> |r| == if maxNumberOfEvents < |s| then maxNumberOfEvents else |s|
    ensures maxNumberOfEvents <= 0 ==> |r| == |s|
    ensures r == s[..|r|]
  {
    if 0 < maxNumberOfEvents < |s| then s[..maxNumberOfEvents] else s
  }

  // ---------------------------------------------------------------------------
  // The "time until" tag

  /** The position of the first entry dated at or after `now`; `|s|` when there is none. */
  function FirstUpcoming(s: seq<WidgetEntry>, now: int): (k: nat)
    ensures k <= |s|
    ensures k < |s| ==> s[k].entryDate >= now
    ensures forall i :: 0 <= i < k ==> s[i].entryDate < now
  {
    if s == [] then 0
    else if s[0].entryDate >= now then 0
    else 1 + FirstUpcoming(s[1..], now)
  }

  /** `FirstUpcoming` is the position before which every entry is earlier than `now`
      and at which the entry, when there is one, is not. */
  lemma FirstUpcomingIs(s: seq<WidgetEntry>, now: int, k: nat)
    requires k <= |s| && (forall i :: 0 <= i < k ==> s[i].entryDate < now)
    requires k < |s| ==> s[k].entryDate >= now
    ensures FirstUpcoming(s, now) == k
  {
  }

  /** The list after the tagging loop: the first upcoming entry has `showTimeUntil` set. */
  function TagFirstUpcoming(s: seq<WidgetEntry>, now: int): seq<WidgetEntry> {
    var k := FirstUpcoming(s, now);
    if k < |s| then s[k := s[k].(showTimeUntil := true)] else s
  }

  /** Exactly the first entry dated at or after `now` is newly tagged: every entry
      keeps all its other fields, and its flag is set iff it was set already or
      it is that entry. */
  lemma TaggedExactlyFirstUpcoming(s: seq<WidgetEntry>, now: int)
    ensures |TagFirstUpcoming(s, now)| == |s|
    ensures forall k :: 0 <= k < |s| ==>
      TagFirstUpcoming(s, now)[k].(showTimeUntil := s[k].showTimeUntil) == s[k]
    ensures forall k :: 0 <= k < |s| ==>
      (TagFirstUpcoming(s, now)[k].showTimeUntil <==>
        s[k].showTimeUntil || (s[k].entryDate >= now && forall i :: 0 <= i < k ==> s[i].entryDate < now))
  {
    var k := FirstUpcoming(s, now);
    forall j | 0 <= j < |s| && j != k && s[j].entryDate >= now
      ensures exists i :: 0 <= i < j && s[i].entryDate >= now
    {
      assert k < j && s[k].entryDate >= now;
    }
  }

  // ---------------------------------------------------------------------------
  // The current-time line

  /** `(limited + CurrentTimeEntry(settings)).sorted()` when the line is shown
      and the list is not empty. */
  function WithCurrentTime(limited: seq<WidgetEntry>, showCurrentTimeLine: bool, now: int,
                           le: (WidgetEntry, WidgetEntry) -> bool): seq<WidgetEntry> {
    if showCurrentTimeLine && limited != [] then SortEntries(limited + [NewCurrentTimeEntry(now)], le)
    else limited
  }

  /** The line is added only when shown and the list is not empty; then the result
      holds the list's entries and the line, once more than the list, sorted. */
  lemma CurrentTimeLine(limited: seq<WidgetEntry>, showCurrentTimeLine: bool, now: int,
                        le: (WidgetEntry, WidgetEntry) -> bool)
    requires TotalPreorder(le)
    ensures !(showCurrentTimeLine && limited != []) ==> WithCurrentTime(limited, showCurrentTimeLine, now, le) == limited
    ensures showCurrentTimeLine && limited != [] ==>
      var r := WithCurrentTime(limited, showCurrentTimeLine, now, le);
      && |r| == |limited| + 1
      && multiset(r) == multiset(limited) + multiset{NewCurrentTimeEntry(now)}
      && Sorted(r, le)
  {
    if showCurrentTimeLine && limited != [] {
      var t := limited + [NewCurrentTimeEntry(now)];
      SortEntriesPermutes(t, le);
      SortEntriesSorted(t, le);
    }
  }

  // ---------------------------------------------------------------------------
  // Day headers (addDayHeaders, addEmptyDayHeadersBetweenTwoDays)

  /** One `DAY_HEADER` per day from `first` up to, not including, `toDay`. */
  function DayRange(first: int, toDay: int, today: int): seq<WidgetEntry>
    decreases toDay - first
  {
    if first < toDay then [NewDayHeader(DayHeader, first, today)] + DayRange(first + 1, toDay, today) else []
  }

  /** The first day that gets an empty-day header: the day after `fromDay`, but not before today. */
  function FirstEmptyDay(fromDay: int, today: int): int {
    if fromDay + 1 < today then today else fromDay + 1
  }

  /** The headers `addEmptyDayHeadersBetweenTwoDays` appends. */
  function EmptyDayHeaders(fromDay: int, toDay: int, today: int): seq<WidgetEntry> {
    DayRange(FirstEmptyDay(fromDay, today), toDay, today)
  }

  lemma {:induction false} DayRangeShape(first: int, toDay: int, today: int)
    ensures |DayRange(first, toDay, today)| == if first < toDay then toDay - first else 0
    ensures forall i :: 0 <= i < |DayRange(first, toDay, today)| ==>
      DayRange(first, toDay, today)[i] == NewDayHeader(DayHeader, first + i, today)
    decreases toDay - first
  {
    if first < toDay {
      DayRangeShape(first + 1, toDay, today);
    }
  }

  /** One `DAY_HEADER` for each day d with max(fromDay + 1, today) <= d < toDay,
      in increasing order; nothing when that range is empty. */
  lemma EmptyDayHeadersShape(fromDay: int, toDay: int, today: int)
    ensures var first := if fromDay + 1 < today then today else fromDay + 1;
      && |EmptyDayHeaders(fromDay, toDay, today)| == (if first < toDay then toDay - first else 0)
      && forall i :: 0 <= i < |EmptyDayHeaders(fromDay, toDay, today)| ==>
           EmptyDayHeaders(fromDay, toDay, today)[i] == NewDayHeader(DayHeader, first + i, today)
  {
    DayRangeShape(FirstEmptyDay(fromDay, today), toDay, today);
  }

  /** The loop state of `addDayHeaders`: the output so far, the day of
      `curDayBucket` and the two flags. */
  datatype Layout = Layout(out: seq<WidgetEntry>, bucketDay: int, pastEventsHeaderAdded: bool, endOfListHeaderAdded: bool)

  /** The headers one entry brings in front of it, and the new bucket state. */
  function HeadersFor(st: Layout, entry: WidgetEntry, showDaysWithoutEvents: bool, today: int): (seq<WidgetEntry>, Layout) {
    if entry.entryPosition == PastAndDue then
      if !st.pastEventsHeaderAdded then
        ([NewDayHeader(PastAndDueHeader, DAY_MIN, today)], st.(bucketDay := DAY_MIN, pastEventsHeaderAdded := true))
      else ([], st)
    else if entry.entryPosition == EndOfList then
      if !st.endOfListHeaderAdded then
        ([NewDayHeader(EndOfListHeader, DAY_MAX, today)], st.(bucketDay := DAY_MAX, endOfListHeaderAdded := true))
      else ([], st)
    else
      if entry.EntryDay() != st.bucketDay then
        ((if showDaysWithoutEvents then EmptyDayHeaders(st.bucketDay, entry.EntryDay(), today) else [])
           + [NewDayHeader(DayHeader, entry.EntryDay(), today)],
         st.(bucketDay := entry.EntryDay()))
      else ([], st)
  }

  /** Reference definition of `addDayHeaders`, entry by entry from a bucket at DATETIME_MIN. */
  function DayHeadersLayout(listIn: seq<WidgetEntry>, showDaysWithoutEvents: bool, today: int): Layout {
    if listIn == [] then Layout([], DAY_MIN, false, false)
    else
      var st := DayHeadersLayout(listIn[..|listIn| - 1], showDaysWithoutEvents, today);
      var last := listIn[|listIn| - 1];
      var (headers, st') := HeadersFor(st, last, showDaysWithoutEvents, today);
      st'.(out := st.out + headers + [last])
  }

  lemma DayHeadersLayoutSnoc(s: seq<WidgetEntry>, e: WidgetEntry, showDaysWithoutEvents: bool, today: int)
    ensures var st := DayHeadersLayout(s, showDaysWithoutEvents, today);
      DayHeadersLayout(s + [e], showDaysWithoutEvents, today)
        == HeadersFor(st, e, showDaysWithoutEvents, today).1.(out := st.out + HeadersFor(st, e, showDaysWithoutEvents, today).0 + [e])
  {
    assert (s + [e])[..|s|] == s;
  }

  /** `DayHeadersLayoutSnoc` for the prefixes of one list. */
  lemma DayHeadersLayoutPrefix(s: seq<WidgetEntry>, i: int, showDaysWithoutEvents: bool, today: int)
    requires 0 <= i < |s|
    ensures var st := DayHeadersLayout(s[..i], showDaysWithoutEvents, today);
      DayHeadersLayout(s[..i + 1], showDaysWithoutEvents, today)
        == HeadersFor(st, s[i], showDaysWithoutEvents, today).1.(out := st.out + HeadersFor(st, s[i], showDaysWithoutEvents, today).0 + [s[i]])
  {
    DayHeadersLayoutSnoc(s[..i], s[i], showDaysWithoutEvents, today);
    assert s[..i + 1] == s[..i] + [s[i]];
  }

  /** The positions in the output of the input entries. */
  ghost function EntryIndices(listIn: seq<WidgetEntry>, showDaysWithoutEvents: bool, today: int): seq<int> {
    if listIn == [] then []
    else
      EntryIndices(listIn[..|listIn| - 1], showDaysWithoutEvents, today)
        + [|DayHeadersLayout(listIn, showDaysWithoutEvents, today).out| - 1]
  }

  /** The entries synthesized by one step are not hidden day headers. */
  lemma HeadersForAreDayHeaders(st: Layout, entry: WidgetEntry, showDaysWithoutEvents: bool, today: int)
    ensures forall i :: 0 <= i < |HeadersFor(st, entry, showDaysWithoutEvents, today).0| ==>
      HeadersFor(st, entry, showDaysWithoutEvents, today).0[i].kind == DayHeaderEntry &&
      HeadersFor(st, entry, showDaysWithoutEvents, today).0[i].NotHidden()
  {
    if entry.entryPosition !in {PastAndDue, EndOfList} && entry.EntryDay() != st.bucketDay && showDaysWithoutEvents {
      EmptyDayHeadersShape(st.bucketDay, entry.EntryDay(), today);
    }
  }

  /** One step of the layout: the output grows by the step's headers and the
      entry, and the entry's position is the new last position. */
  lemma DayHeadersLayoutStep(listIn: seq<WidgetEntry>, showDaysWithoutEvents: bool, today: int)
    requires listIn != []
    ensures var prefix, last := listIn[..|listIn| - 1], listIn[|listIn| - 1];
      var st := DayHeadersLayout(prefix, showDaysWithoutEvents, today);
      var out := DayHeadersLayout(listIn, showDaysWithoutEvents, today).out;
      && out == st.out + HeadersFor(st, last, showDaysWithoutEvents, today).0 + [last]
      && EntryIndices(listIn, showDaysWithoutEvents, today) == EntryIndices(prefix, showDaysWithoutEvents, today) + [|out| - 1]
  {
  }

  /** The `k`-th input entry sits at position `EntryIndices[k]`, the last one last. */
  lemma {:induction false} EntryIndicesPlaced(listIn: seq<WidgetEntry>, showDaysWithoutEvents: bool, today: int)
    ensures var out, idx := DayHeadersLayout(listIn, showDaysWithoutEvents, today).out, EntryIndices(listIn, showDaysWithoutEvents, today);
      && (out == [] <==> listIn == [])
      && |idx| == |listIn|
      && (forall k :: 0 <= k < |idx| ==> 0 <= idx[k] < |out| && out[idx[k]] == listIn[k])
      && (listIn != [] ==> idx[|idx| - 1] == |out| - 1)
  {
    if listIn != [] {
      var prefix, last := listIn[..|listIn| - 1], listIn[|listIn| - 1];
      EntryIndicesPlaced(prefix, showDaysWithoutEvents, today);
      DayHeadersLayoutStep(listIn, showDaysWithoutEvents, today);
      var st := DayHeadersLayout(prefix, showDaysWithoutEvents, today);
      var out, idx := DayHeadersLayout(listIn, showDaysWithoutEvents, today).out, EntryIndices(listIn, showDaysWithoutEvents, today);
      var idx0 := EntryIndices(prefix, showDaysWithoutEvents, today);
      forall k | 0 <= k < |idx| ensures 0 <= idx[k] < |out| && out[idx[k]] == listIn[k] {
        if k < |idx0| {
          assert idx[k] == idx0[k] && listIn[k] == prefix[k];
          assert out[idx0[k]] == st.out[idx0[k]];
        }
      }
    }
  }

  lemma {:induction false} EntryIndicesIncreasing(listIn: seq<WidgetEntry>, showDaysWithoutEvents: bool, today: int)
    ensures var idx := EntryIndices(listIn, showDaysWithoutEvents, today);
      forall k1, k2 :: 0 <= k1 < k2 < |idx| ==> idx[k1] < idx[k2]
  {
    if listIn != [] {
      var prefix := listIn[..|listIn| - 1];
      EntryIndicesIncreasing(prefix, showDaysWithoutEvents, today);
      EntryIndicesPlaced(prefix, showDaysWithoutEvents, today);
      DayHeadersLayoutStep(listIn, showDaysWithoutEvents, today);
      var st := DayHeadersLayout(prefix, showDaysWithoutEvents, today);
      var idx := EntryIndices(listIn, showDaysWithoutEvents, today);
      var idx0 := EntryIndices(prefix, showDaysWithoutEvents, today);
      forall k1, k2 | 0 <= k1 < k2 < |idx| ensures idx[k1] < idx[k2] {
        assert idx[k1] == idx0[k1] && idx0[k1] < |st.out|;
        if k2 < |idx0| {
          assert idx[k2] == idx0[k2];
        }
      }
    }
  }

  lemma {:induction false} OthersAreDayHeaders(listIn: seq<WidgetEntry>, showDaysWithoutEvents: bool, today: int)
    ensures var out, idx := DayHeadersLayout(listIn, showDaysWithoutEvents, today).out, EntryIndices(listIn, showDaysWithoutEvents, today);
      forall p :: 0 <= p < |out| && p !in idx ==> out[p].kind == DayHeaderEntry && out[p].NotHidden()
  {
    if listIn != [] {
      var prefix, last := listIn[..|listIn| - 1], listIn[|listIn| - 1];
      OthersAreDayHeaders(prefix, showDaysWithoutEvents, today);
      DayHeadersLayoutStep(listIn, showDaysWithoutEvents, today);
      var st := DayHeadersLayout(prefix, showDaysWithoutEvents, today);
      var headers := HeadersFor(st, last, showDaysWithoutEvents, today).0;
      HeadersForAreDayHeaders(st, last, showDaysWithoutEvents, today);
      var out, idx := DayHeadersLayout(listIn, showDaysWithoutEvents, today).out, EntryIndices(listIn, showDaysWithoutEvents, today);
      var idx0 := EntryIndices(prefix, showDaysWithoutEvents, today);
      forall p | 0 <= p < |out| && p !in idx ensures out[p].kind == DayHeaderEntry && out[p].NotHidden() {
        if p < |st.out| {
          assert p !in idx0 by {
            forall m | 0 <= m < |idx0| ensures idx0[m] != p {
              assert idx[m] == idx0[m];
            }
          }
          assert out[p] == st.out[p];
        } else {
          assert out[p] == headers[p - |st.out|];
        }
      }
    }
  }

  /** The input entries appear in the output in order, at the positions
      `EntryIndices`, the last one last; every other position holds a day
      header that is not hidden. An empty list stays empty. */
  lemma DayHeadersKeepEntries(listIn: seq<WidgetEntry>, showDaysWithoutEvents: bool, today: int)
    ensures var out, idx := DayHeadersLayout(listIn, showDaysWithoutEvents, today).out, EntryIndices(listIn, showDaysWithoutEvents, today);
      && (out == [] <==> listIn == [])
      && |idx| == |listIn|
      && (forall k :: 0 <= k < |idx| ==> 0 <= idx[k] < |out| && out[idx[k]] == listIn[k])
      && (forall k1, k2 :: 0 <= k1 < k2 < |idx| ==> idx[k1] < idx[k2])
      && (listIn != [] ==> idx[|idx| - 1] == |out| - 1)
      && (forall p :: 0 <= p < |out| && p !in idx ==> out[p].kind == DayHeaderEntry && out[p].NotHidden())
  {
    EntryIndicesPlaced(listIn, showDaysWithoutEvents, today);
    EntryIndicesIncreasing(listIn, showDaysWithoutEvents, today);
    OthersAreDayHeaders(listIn, showDaysWithoutEvents, today);
  }

  /** How many entries of `s` sit at position `pos`. */
  function CountAt(s: seq<WidgetEntry>, pos: WidgetEntryPosition): nat {
    if s == [] then 0
    else CountAt(s[..|s| - 1], pos) + (if s[|s| - 1].entryPosition == pos then 1 else 0)
  }

  predicate HasAt(s: seq<WidgetEntry>, pos: WidgetEntryPosition) {
    exists i :: 0 <= i < |s| && s[i].entryPosition == pos
  }

  lemma HasAtSnoc(s: seq<WidgetEntry>, pos: WidgetEntryPosition)
    requires s != []
    ensures HasAt(s, pos) == (HasAt(s[..|s| - 1], pos) || s[|s| - 1].entryPosition == pos)
  {
    var p := s[..|s| - 1];
    if HasAt(p, pos) {
      var i :| 0 <= i < |p| && p[i].entryPosition == pos;
      assert s[i] == p[i];
    }
  }

  lemma {:induction false} CountAtConcat(a: seq<WidgetEntry>, b: seq<WidgetEntry>, pos: WidgetEntryPosition)
    ensures CountAt(a + b, pos) == CountAt(a, pos) + CountAt(b, pos)
  {
    if b == [] {
      assert a + b == a;
    } else {
      var b', last := b[..|b| - 1], b[|b| - 1];
      assert (a + b)[..|a + b| - 1] == a + b';
      CountAtConcat(a, b', pos);
    }
  }

  lemma {:induction false} CountAtDayRange(first: int, toDay: int, today: int, pos: WidgetEntryPosition)
    requires pos != DayHeader
    ensures CountAt(DayRange(first, toDay, today), pos) == 0
    decreases toDay - first
  {
    if first < toDay {
      CountAtDayRange(first + 1, toDay, today, pos);
      CountAtConcat([NewDayHeader(DayHeader, first, today)], DayRange(first + 1, toDay, today), pos);
      assert CountAt([NewDayHeader(DayHeader, first, today)], pos) == CountAt([], pos) + 0;
    }
  }

  /** One step emits a past-and-due header only for the first past-and-due
      entry, and an end-of-list header only for the first end-of-list entry. */
  lemma HeadersForSpecial(st: Layout, entry: WidgetEntry, showDaysWithoutEvents: bool, today: int)
    ensures var (headers, st') := HeadersFor(st, entry, showDaysWithoutEvents, today);
      && CountAt(headers, PastAndDueHeader) == (if entry.entryPosition == PastAndDue && !st.pastEventsHeaderAdded then 1 else 0)
      && CountAt(headers, EndOfListHeader) == (if entry.entryPosition == EndOfList && !st.endOfListHeaderAdded then 1 else 0)
      && st'.pastEventsHeaderAdded == (st.pastEventsHeaderAdded || entry.entryPosition == PastAndDue)
      && st'.endOfListHeaderAdded == (st.endOfListHeaderAdded || entry.entryPosition == EndOfList)
  {
    var headers := HeadersFor(st, entry, showDaysWithoutEvents, today).0;
    if entry.entryPosition in {PastAndDue, EndOfList} {
      assert CountAt([], PastAndDueHeader) == 0 && CountAt([], EndOfListHeader) == 0;
    } else if entry.EntryDay() != st.bucketDay {
      var h := NewDayHeader(DayHeader, entry.EntryDay(), today);
      var empty := if showDaysWithoutEvents then EmptyDayHeaders(st.bucketDay, entry.EntryDay(), today) else [];
      CountAtConcat(empty, [h], PastAndDueHeader);
      CountAtConcat(empty, [h], EndOfListHeader);
      assert [h][..0] == [];
      if showDaysWithoutEvents {
        CountAtDayRange(FirstEmptyDay(st.bucketDay, today), entry.EntryDay(), today, PastAndDueHeader);
        CountAtDayRange(FirstEmptyDay(st.bucketDay, today), entry.EntryDay(), today, EndOfListHeader);
      }
    }
  }

  /** At most one `PAST_AND_DUE_HEADER` and one `END_OF_LIST_HEADER` are added:
      exactly one when some entry is past-and-due (respectively end-of-list),
      none otherwise. */
  lemma {:induction false} SpecialHeadersAtMostOnce(listIn: seq<WidgetEntry>, showDaysWithoutEvents: bool, today: int)
    ensures var st := DayHeadersLayout(listIn, showDaysWithoutEvents, today);
      && CountAt(st.out, PastAndDueHeader) == CountAt(listIn, PastAndDueHeader) + (if HasAt(listIn, PastAndDue) then 1 else 0)
      && CountAt(st.out, EndOfListHeader) == CountAt(listIn, EndOfListHeader) + (if HasAt(listIn, EndOfList) then 1 else 0)
      && st.pastEventsHeaderAdded == HasAt(listIn, PastAndDue)
      && st.endOfListHeaderAdded == HasAt(listIn, EndOfList)
  {
    if listIn != [] {
      var prefix, last := listIn[..|listIn| - 1], listIn[|listIn| - 1];
      SpecialHeadersAtMostOnce(prefix, showDaysWithoutEvents, today);
      var st := DayHeadersLayout(prefix, showDaysWithoutEvents, today);
      var headers := HeadersFor(st, last, showDaysWithoutEvents, today).0;
      HeadersForSpecial(st, last, showDaysWithoutEvents, today);
      var out := DayHeadersLayout(listIn, showDaysWithoutEvents, today).out;
      assert out == (st.out + headers) + [last];
      CountAtConcat(st.out, headers, PastAndDueHeader);
      CountAtConcat(st.out, headers, EndOfListHeader);
      HasAtSnoc(listIn, PastAndDue);
      HasAtSnoc(listIn, EndOfList);
    }
  }

  /** Where the `k`-th input entry lands: an ordinary entry whose day differs
      from the current bucket comes right after a `DAY_HEADER` for its day; one
      on the bucket's day comes right after the entry before it (first in the
      list when it is the first). */
  ghost predicate PlacedAfterItsHeader(listIn: seq<WidgetEntry>, k: int, showDaysWithoutEvents: bool, today: int)
    requires 0 <= k < |listIn|
  {
    var out, idx := DayHeadersLayout(listIn, showDaysWithoutEvents, today).out, EntryIndices(listIn, showDaysWithoutEvents, today);
    var bucketDay := DayHeadersLayout(listIn[..k], showDaysWithoutEvents, today).bucketDay;
    listIn[k].entryPosition !in {PastAndDue, EndOfList} ==>
      && |idx| == |listIn|
      && 0 <= idx[k] < |out|
      && (listIn[k].EntryDay() != bucketDay ==>
            idx[k] > 0 && out[idx[k] - 1] == NewDayHeader(DayHeader, listIn[k].EntryDay(), today))
      && (listIn[k].EntryDay() == bucketDay ==> idx[k] == if k == 0 then 0 else idx[k - 1] + 1)
  }

  lemma PlacedAfterItsHeaderPrefix(listIn: seq<WidgetEntry>, k: int, showDaysWithoutEvents: bool, today: int)
    requires 0 <= k < |listIn| - 1
    requires PlacedAfterItsHeader(listIn[..|listIn| - 1], k, showDaysWithoutEvents, today)
    ensures PlacedAfterItsHeader(listIn, k, showDaysWithoutEvents, today)
  {
    var prefix := listIn[..|listIn| - 1];
    EntryIndicesPlaced(prefix, showDaysWithoutEvents, today);
    DayHeadersLayoutStep(listIn, showDaysWithoutEvents, today);
    var st := DayHeadersLayout(prefix, showDaysWithoutEvents, today);
    var out, idx := DayHeadersLayout(listIn, showDaysWithoutEvents, today).out, EntryIndices(listIn, showDaysWithoutEvents, today);
    var idx0 := EntryIndices(prefix, showDaysWithoutEvents, today);
    assert idx == idx0 + [|out| - 1];
    assert st.out <= out;
    assert listIn[..k] == prefix[..k] && listIn[k] == prefix[k];
    assert idx[k] == idx0[k];
    if k > 0 {
      assert idx[k - 1] == idx0[k - 1];
    }
  }

  lemma PlacedAfterItsHeaderLast(listIn: seq<WidgetEntry>, showDaysWithoutEvents: bool, today: int)
    requires listIn != []
    ensures PlacedAfterItsHeader(listIn, |listIn| - 1, showDaysWithoutEvents, today)
  {
    var prefix, last := listIn[..|listIn| - 1], listIn[|listIn| - 1];
    EntryIndicesPlaced(prefix, showDaysWithoutEvents, today);
    DayHeadersLayoutStep(listIn, showDaysWithoutEvents, today);
    var st := DayHeadersLayout(prefix, showDaysWithoutEvents, today);
    var headers := HeadersFor(st, last, showDaysWithoutEvents, today).0;
    var out, idx := DayHeadersLayout(listIn, showDaysWithoutEvents, today).out, EntryIndices(listIn, showDaysWithoutEvents, today);
    var idx0 := EntryIndices(prefix, showDaysWithoutEvents, today);
    assert out == st.out + headers + [last];
    assert idx == idx0 + [|out| - 1];
    var k := |prefix|;
    assert listIn[..k] == prefix;
    if last.entryPosition !in {PastAndDue, EndOfList} {
      if last.EntryDay() != st.bucketDay {
        var h := NewDayHeader(DayHeader, last.EntryDay(), today);
        var empty := if showDaysWithoutEvents then EmptyDayHeaders(st.bucketDay, last.EntryDay(), today) else [];
        assert headers == empty + [h];
        assert out[|out| - 2] == h;
      } else {
        assert headers == [];
        if k > 0 {
          assert idx[k - 1] == idx0[k - 1] == |st.out| - 1;
        } else {
          assert st.out == [];
        }
      }
    }
  }

  /** Every input entry is placed after its day header, as `PlacedAfterItsHeader` says. */
  lemma {:induction false} DayHeaderBeforeEntry(listIn: seq<WidgetEntry>, showDaysWithoutEvents: bool, today: int)
    ensures forall k :: 0 <= k < |listIn| ==> PlacedAfterItsHeader(listIn, k, showDaysWithoutEvents, today)
  {
    if listIn != [] {
      var prefix := listIn[..|listIn| - 1];
      DayHeaderBeforeEntry(prefix, showDaysWithoutEvents, today);
      forall k | 0 <= k < |prefix| ensures PlacedAfterItsHeader(listIn, k, showDaysWithoutEvents, today) {
        PlacedAfterItsHeaderPrefix(listIn, k, showDaysWithoutEvents, today);
      }
      PlacedAfterItsHeaderLast(listIn, showDaysWithoutEvents, today);
    }
  }

  // ---------------------------------------------------------------------------
  // The whole assembly (queryWidgetEntries)

  /** The entries of every visualizer's query, visualizer after visualizer. */
  function Collected(vs: seq<Visualizer>, queryEventEntries: Visualizer -> seq<WidgetEntry>): seq<WidgetEntry> {
    if vs == [] then [] else Collected(vs[..|vs| - 1], queryEventEntries) + queryEventEntries(vs[|vs| - 1])
  }

  /** The stages of `queryWidgetEntries` up to, not including, the last entry. */
  function ListBeforeLastEntry(vs: seq<Visualizer>, settings: WidgetSettings, rules: EntryRules): seq<WidgetEntry> {
    var noHidden := Visible(SortEntries(Collected(vs, rules.queryEventEntries), rules.le));
    var deduplicated := if settings.hideDuplicates then Dedup(noHidden, rules.duplicates) else noHidden;
    var limited := TagFirstUpcoming(Limited(deduplicated, settings.maxNumberOfEvents), settings.now);
    var withCurrentTime := WithCurrentTime(limited, settings.showCurrentTimeLine, settings.now, rules.le);
    if settings.showDayHeaders then DayHeadersLayout(withCurrentTime, settings.showDaysWithoutEvents, settings.Today()).out
    else withCurrentTime
  }

  /** Reference definition of `queryWidgetEntries`: the list, and the last entry after it when there is one. */
  function AssembledEntries(vs: seq<Visualizer>, settings: WidgetSettings, rules: EntryRules): seq<WidgetEntry> {
    var withDayHeaders := ListBeforeLastEntry(vs, settings, rules);
    match rules.lastEntry(withDayHeaders)
    case Some(last) => withDayHeaders + [last]
    case None => withDayHeaders
  }

  predicate AllVisible(s: seq<WidgetEntry>) {
    forall i :: 0 <= i < |s| ==> s[i].NotHidden()
  }

  lemma DedupVisible(s: seq<WidgetEntry>, duplicates: (WidgetEntry, WidgetEntry) -> bool)
    requires AllVisible(s)
    ensures AllVisible(Dedup(s, duplicates))
  {
    DedupIsSubsequence(s, duplicates);
    var d := Dedup(s, duplicates);
    forall k | 0 <= k < |d| ensures d[k].NotHidden() {
      assert d[k] in s;
    }
  }

  lemma TaggedVisible(s: seq<WidgetEntry>, maxNumberOfEvents: int, now: int)
    requires AllVisible(s)
    ensures AllVisible(TagFirstUpcoming(Limited(s, maxNumberOfEvents), now))
  {
    var capped := Limited(s, maxNumberOfEvents);
    var limited := TagFirstUpcoming(capped, now);
    TaggedExactlyFirstUpcoming(capped, now);
    forall k | 0 <= k < |limited| ensures limited[k].NotHidden() {
      assert capped[k] == s[k];
      assert limited[k].(showTimeUntil := capped[k].showTimeUntil) == capped[k];
    }
  }

  lemma WithCurrentTimeVisible(limited: seq<WidgetEntry>, showCurrentTimeLine: bool, now: int,
                               le: (WidgetEntry, WidgetEntry) -> bool)
    requires AllVisible(limited)
    ensures AllVisible(WithCurrentTime(limited, showCurrentTimeLine, now, le))
  {
    var r := WithCurrentTime(limited, showCurrentTimeLine, now, le);
    if showCurrentTimeLine && limited != [] {
      var t := limited + [NewCurrentTimeEntry(now)];
      SortEntriesPermutes(t, le);
      forall k | 0 <= k < |r| ensures r[k].NotHidden() {
        assert r[k] in multiset(t);
        var j :| 0 <= j < |t| && t[j] == r[k];
      }
    }
  }

  lemma DayHeadersVisible(listIn: seq<WidgetEntry>, showDaysWithoutEvents: bool, today: int)
    requires AllVisible(listIn)
    ensures AllVisible(DayHeadersLayout(listIn, showDaysWithoutEvents, today).out)
  {
    EntryIndicesPlaced(listIn, showDaysWithoutEvents, today);
    OthersAreDayHeaders(listIn, showDaysWithoutEvents, today);
    var out, idx := DayHeadersLayout(listIn, showDaysWithoutEvents, today).out, EntryIndices(listIn, showDaysWithoutEvents, today);
    forall p | 0 <= p < |out| ensures out[p].NotHidden() {
      if p in idx {
        var k :| 0 <= k < |idx| && idx[k] == p;
        assert out[p] == listIn[k];
      }
    }
  }

  /** Hidden entries are dropped before de-duplication and the cap, and every
      later stage only adds entries that are not hidden: nothing before the
      last entry is hidden, and the whole list is visible unless the entry
      `getLastEntry` supplies is itself hidden. */
  lemma AssembledEntriesVisible(vs: seq<Visualizer>, settings: WidgetSettings, rules: EntryRules)
    ensures AllVisible(ListBeforeLastEntry(vs, settings, rules))
    ensures var last := rules.lastEntry(ListBeforeLastEntry(vs, settings, rules));
      (last.None? || last.value.NotHidden()) ==> AllVisible(AssembledEntries(vs, settings, rules))
  {
    var noHidden := Visible(SortEntries(Collected(vs, rules.queryEventEntries), rules.le));
    if settings.hideDuplicates {
      DedupVisible(noHidden, rules.duplicates);
    }
    var deduplicated := if settings.hideDuplicates then Dedup(noHidden, rules.duplicates) else noHidden;
    TaggedVisible(deduplicated, settings.maxNumberOfEvents, settings.now);
    var limited := TagFirstUpcoming(Limited(deduplicated, settings.maxNumberOfEvents), settings.now);
    WithCurrentTimeVisible(limited, settings.showCurrentTimeLine, settings.now, rules.le);
    var withCurrentTime := WithCurrentTime(limited, settings.showCurrentTimeLine, settings.now, rules.le);
    if settings.showDayHeaders {
      DayHeadersVisible(withCurrentTime, settings.showDaysWithoutEvents, settings.Today());
    }
    var before := ListBeforeLastEntry(vs, settings, rules);
    if rules.lastEntry(before).Some? && rules.lastEntry(before).value.NotHidden() {
      var all := AssembledEntries(vs, settings, rules);
      assert all == before + [rules.lastEntry(before).value];
      forall i | 0 <= i < |all| ensures all[i].NotHidden() {
        if i < |before| {
          assert all[i] == before[i];
        }
      }
    }
  }

  /** The visualizers `getVisualizers` builds: day headers first, then one per
      active event provider type in order, then the current-time line and the
      last entry. */
  predicate DefaultVisualizers(vs: seq<Visualizer>, typesOfActiveEventProviders: seq<int>) {
    && |vs| == |typesOfActiveEventProviders| + 3
    && vs[0] == DayHeaderVisualizer
    && (forall i :: 0 <= i < |typesOfActiveEventProviders| ==> vs[i + 1] == EventProviderVisualizer(typesOfActiveEventProviders[i]))
    && vs[|vs| - 2] == CurrentTimeVisualizer
    && vs[|vs| - 1] == LastEntryVisualizer
  }

  class RemoteViewsFactory {
    var widgetEntries: seq<WidgetEntry>
    var visualizers: seq<Visualizer>

    /** A new factory knows only the last-entry visualizer and has no entries. */
    constructor ()
      ensures visualizers == [LastEntryVisualizer] && widgetEntries == []
    {
      visualizers := [LastEntryVisualizer];
      widgetEntries := [];
    }

    /** `visualizerFor`: the first visualizer that is for the entry, if any. */
    method VisualizerFor(entry: WidgetEntry, isFor: (Visualizer, WidgetEntry) -> bool) returns (r: Option<Visualizer>)
      ensures r.None? <==> forall i :: 0 <= i < |visualizers| ==> !isFor(visualizers[i], entry)
      ensures r.Some? ==> exists i :: 0 <= i < |visualizers| && visualizers[i] == r.value && isFor(r.value, entry)
                                && forall j :: 0 <= j < i ==> !isFor(visualizers[j], entry)
    {
      for i := 0 to |visualizers|
        invariant forall j :: 0 <= j < i ==> !isFor(visualizers[j], entry)
      {
        if isFor(visualizers[i], entry) {
          return Some(visualizers[i]);
        }
      }
      return None;
    }

    /** `reload`: rebuilds the visualizers, then the entries from them. */
    method Reload(settings: WidgetSettings, rules: EntryRules, typesOfActiveEventProviders: seq<int>)
      modifies this
      ensures DefaultVisualizers(visualizers, typesOfActiveEventProviders)
      ensures widgetEntries == AssembledEntries(visualizers, settings, rules)
    {
      visualizers := GetVisualizers(typesOfActiveEventProviders);
      widgetEntries := QueryWidgetEntries(settings, rules);
    }

    /** `getVisualizers` */
    method GetVisualizers(typesOfActiveEventProviders: seq<int>) returns (vs: seq<Visualizer>)
      ensures DefaultVisualizers(vs, typesOfActiveEventProviders)
    {
      vs := [DayHeaderVisualizer];
      for i := 0 to |typesOfActiveEventProviders|
        invariant |vs| == i + 1 && vs[0] == DayHeaderVisualizer
        invariant forall j :: 0 <= j < i ==> vs[j + 1] == EventProviderVisualizer(typesOfActiveEventProviders[j])
      {
        vs := vs + [EventProviderVisualizer(typesOfActiveEventProviders[i])];
      }
      vs := vs + [CurrentTimeVisualizer];
      vs := vs + [LastEntryVisualizer];
    }

    /** `todaysPosition`: the first position below the last whose entry is not
        in the past; the last position otherwise (-1 for an empty list). */
    method TodaysPosition() returns (r: int)
      ensures widgetEntries == [] ==> r == -1
      ensures widgetEntries != [] ==> 0 <= r < |widgetEntries|
      ensures forall k :: 0 <= k < r ==> widgetEntries[k].timeSection == Past
      ensures 0 <= r < |widgetEntries| - 1 ==> widgetEntries[r].timeSection != Past
    {
      for ind := 0 to if |widgetEntries| > 0 then |widgetEntries| - 1 else 0
        invariant forall k :: 0 <= k < ind ==> widgetEntries[k].timeSection == Past
      {
        if widgetEntries[ind].timeSection != Past {
          return ind;
        }
      }
      return |widgetEntries| - 1;
    }

    /** `tomorrowsPosition`: the first position below the last whose entry is in
        the future; otherwise 0, or -1 for an empty list. */
    method TomorrowsPosition() returns (r: int)
      ensures (exists k :: 0 <= k < |widgetEntries| - 1 && widgetEntries[k].timeSection == Future) ==>
        && 0 <= r < |widgetEntries| - 1
        && widgetEntries[r].timeSection == Future
        && forall k :: 0 <= k < r ==> widgetEntries[k].timeSection != Future
      ensures (forall k :: 0 <= k < |widgetEntries| - 1 ==> widgetEntries[k].timeSection != Future) ==>
        r == if widgetEntries != [] then 0 else -1
    {
      for ind := 0 to if |widgetEntries| > 0 then |widgetEntries| - 1 else 0
        invariant forall k :: 0 <= k < ind ==> widgetEntries[k].timeSection != Future
      {
        if widgetEntries[ind].timeSection == Future {
          return ind;
        }
      }
      return if widgetEntries != [] then 0 else -1;
    }

    /** `queryWidgetEntries`, stage by stage. */
    method QueryWidgetEntries(settings: WidgetSettings, rules: EntryRules) returns (r: seq<WidgetEntry>)
      ensures r == AssembledEntries(visualizers, settings, rules)
    {
      var eventEntries: seq<WidgetEntry> := [];
      for i := 0 to |visualizers|
        invariant eventEntries == Collected(visualizers[..i], rules.queryEventEntries)
      {
        assert visualizers[..i + 1][..i] == visualizers[..i];
        eventEntries := eventEntries + rules.queryEventEntries(visualizers[i]);
      }
      assert visualizers[..|visualizers|] == visualizers;
      var sorted := SortEntries(eventEntries, rules.le);
      var noHidden := Visible(sorted);
      var deduplicated := noHidden;
      if settings.hideDuplicates {
        deduplicated := FilterOutDuplicates(noHidden, rules.duplicates);
      }
      var limited := Limited(deduplicated, settings.maxNumberOfEvents);
      limited := MarkShowTimeUntil(limited, settings.now);
      var withCurrentTime := WithCurrentTime(limited, settings.showCurrentTimeLine, settings.now, rules.le);
      var withDayHeaders := withCurrentTime;
      if settings.showDayHeaders {
        withDayHeaders := AddDayHeaders(withCurrentTime, settings);
      }
      match rules.lastEntry(withDayHeaders)
      case Some(last) =>
        r := withDayHeaders + [last];
      case None =>
        r := withDayHeaders;
    }

    /** The tagging loop: sets `showTimeUntil` on the first entry dated at or
        after `now` and stops. */
    method MarkShowTimeUntil(limited: seq<WidgetEntry>, now: int) returns (r: seq<WidgetEntry>)
      ensures r == TagFirstUpcoming(limited, now)
    {
      r := limited;
      for i := 0 to |limited|
        invariant r == limited
        invariant forall k :: 0 <= k < i ==> limited[k].entryDate < now
      {
        if limited[i].entryDate >= now {
          assert FirstUpcoming(limited, now) == i by {
            FirstUpcomingIs(limited, now, i);
          }
          r := r[i := r[i].(showTimeUntil := true)];
          return;
        }
      }
      FirstUpcomingIs(limited, now, |limited|);
    }

    /** `filterOutDuplicates`: walks the list once; each entry not yet hidden is
        kept and hides every later entry it duplicates. */
    method FilterOutDuplicates(inputEntries: seq<WidgetEntry>, duplicates: (WidgetEntry, WidgetEntry) -> bool)
      returns (deduplicated: seq<WidgetEntry>)
      ensures deduplicated == Dedup(inputEntries, duplicates)
    {
      deduplicated := [];
      var hidden: seq<WidgetEntry> := [];
      var n := |inputEntries|;
      for ind1 := 0 to n
        invariant deduplicated == Dedup(inputEntries[..ind1], duplicates)
        invariant forall v :: v in hidden ==> DuplicatedBy(deduplicated, v, duplicates)
        invariant forall j :: ind1 <= j < n && DuplicatedBy(deduplicated, inputEntries[j], duplicates) ==>
          inputEntries[j] in hidden
      {
        var inputEntry := inputEntries[ind1];
        assert inputEntries[..ind1 + 1][..ind1] == inputEntries[..ind1];
        if inputEntry !in hidden {
          ghost var keptBefore, hiddenBefore := deduplicated, hidden;
          deduplicated := deduplicated + [inputEntry];
          for ind2 := ind1 + 1 to n
            invariant forall v :: v in hiddenBefore ==> v in hidden
            invariant forall v :: v in hidden ==> v in hiddenBefore || duplicates(inputEntry, v)
            invariant forall j :: ind1 < j < ind2 && duplicates(inputEntry, inputEntries[j]) ==> inputEntries[j] in hidden
          {
            var entry2 := inputEntries[ind2];
            if entry2 !in hidden && duplicates(inputEntry, entry2) {
              hidden := hidden + [entry2];
            }
          }
          forall v | v in hidden ensures DuplicatedBy(deduplicated, v, duplicates) {
            DuplicatedByExtend(keptBefore, inputEntry, v, duplicates);
          }
          forall j | ind1 + 1 <= j < n && DuplicatedBy(deduplicated, inputEntries[j], duplicates)
            ensures inputEntries[j] in hidden
          {
            var k :| 0 <= k < |deduplicated| && duplicates(deduplicated[k], inputEntries[j]);
            if k < |keptBefore| {
              assert DuplicatedBy(keptBefore, inputEntries[j], duplicates);
            }
          }
        }
      }
      assert inputEntries[..n] == inputEntries;
    }

    /** `addDayHeaders`: walks the list once, keeping the current day bucket and
        whether the past-and-due and end-of-list headers were added. */
    method AddDayHeaders(listIn: seq<WidgetEntry>, settings: WidgetSettings) returns (listOut: seq<WidgetEntry>)
      ensures listOut == DayHeadersLayout(listIn, settings.showDaysWithoutEvents, settings.Today()).out
    {
      var today := settings.Today();
      listOut := [];
      if listIn != [] {
        var curDayBucket := NewDayHeader(DayHeader, DAY_MIN, today);
        var pastEventsHeaderAdded, endOfListHeaderAdded := false, false;
        ghost var st := Layout([], DAY_MIN, false, false);
        for i := 0 to |listIn|
          invariant st == DayHeadersLayout(listIn[..i], settings.showDaysWithoutEvents, today)
          invariant st.out == listOut && st.bucketDay == curDayBucket.EntryDay()
          invariant st.pastEventsHeaderAdded == pastEventsHeaderAdded && st.endOfListHeaderAdded == endOfListHeaderAdded
        {
          var entry := listIn[i];
          ghost var step := HeadersFor(st, entry, settings.showDaysWithoutEvents, today);
          DayHeadersLayoutPrefix(listIn, i, settings.showDaysWithoutEvents, today);
          var nextEntryDay := entry.EntryDay();
          if entry.entryPosition == PastAndDue {
            if !pastEventsHeaderAdded {
              curDayBucket := NewDayHeader(PastAndDueHeader, DAY_MIN, today);
              listOut := listOut + [curDayBucket];
              pastEventsHeaderAdded := true;
            }
          } else if entry.entryPosition == EndOfList {
            if !endOfListHeaderAdded {
              endOfListHeaderAdded := true;
              curDayBucket := NewDayHeader(EndOfListHeader, DAY_MAX, today);
              listOut := listOut + [curDayBucket];
            }
          } else {
            if nextEntryDay != curDayBucket.EntryDay() {
              if settings.showDaysWithoutEvents {
                listOut := AddEmptyDayHeadersBetweenTwoDays(listOut, curDayBucket.EntryDay(), nextEntryDay, settings);
              }
              curDayBucket := NewDayHeader(DayHeader, nextEntryDay, today);
              listOut := listOut + [curDayBucket];
            }
          }
          st := step.1.(out := st.out + step.0 + [entry]);
          listOut := listOut + [entry];
        }
        assert listIn[..|listIn|] == listIn;
      }
    }

    /** `addEmptyDayHeadersBetweenTwoDays`: appends a header for each day strictly
        between the two days, starting no earlier than today. */
    method AddEmptyDayHeadersBetweenTwoDays(entries: seq<WidgetEntry>, fromDayExclusive: int, toDayExclusive: int,
                                            settings: WidgetSettings) returns (r: seq<WidgetEntry>)
      ensures r == entries + EmptyDayHeaders(fromDayExclusive, toDayExclusive, settings.Today())
    {
      r := entries;
      var emptyDay := fromDayExclusive + 1;
      var today := settings.Today();
      if emptyDay < today {
        emptyDay := today;
      }
      while emptyDay < toDayExclusive
        invariant r + DayRange(emptyDay, toDayExclusive, today) == entries + EmptyDayHeaders(fromDayExclusive, toDayExclusive, today)
        decreases toDayExclusive - emptyDay
      {
        var h := NewDayHeader(DayHeader, emptyDay, today);
        assert DayRange(emptyDay, toDayExclusive, today) == [h] + DayRange(emptyDay + 1, toDayExclusive, today);
        assert r + DayRange(emptyDay, toDayExclusive, today) == (r + [h]) + DayRange(emptyDay + 1, toDayExclusive, today);
        r := r + [h];
        emptyDay := emptyDay + 1;
      }
      assert r + DayRange(emptyDay, toDayExclusive, today) == r + [];
    }
  }
}
