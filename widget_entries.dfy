/** The entries of the widget list (`WidgetEntry` and its subclasses `DayHeader`,
    `CurrentTimeEntry`, `LastEntry` and the event entries), the clock constants
    they are built from, and the order `MutableList.sort()` puts them in. */
module WidgetEntries {

  /** Instants are milliseconds since the epoch; a day is the index of its
      start-of-day instant, counted in days since the epoch (UTC). */
  const MILLIS_PER_DAY: int := 86_400_000

  /** MyClock.DATETIME_MIN and DATETIME_MAX, the unbounded ends of a time range:
      0000-01-01T00:00Z and 5000-01-01T00:00Z. */
  const DATETIME_MIN: int := -719_528 * MILLIS_PER_DAY
  const DATETIME_MAX: int := 1_106_685 * MILLIS_PER_DAY

  /** `withTimeAtStartOfDay()`, as a day index. Dafny's `/` floors for a positive divisor. */
  function DayOf(instant: int): int {
    instant / MILLIS_PER_DAY
  }

  const DAY_MIN: int := DayOf(DATETIME_MIN)
  const DAY_MAX: int := DayOf(DATETIME_MAX)

  datatype WidgetEntryPosition =
    | PastAndDueHeader | PastAndDue | DayHeader | StartOfDay | EntryDate
    | EndOfDay | EndOfListHeader | EndOfList | ListFooter

  datatype TimeSection = Past | Today | Future

  /** Which subclass of WidgetEntry a value stands for. */
  datatype EntryKind = EventEntry | DayHeaderEntry | CurrentTimeEntry | LastEntry

  /** One row of the widget list. `itemId` identifies the calendar or task item
      an event entry shows (0 for the synthetic entries); `showTimeUntil` is the
      one field the list assembly changes after an entry is built. */
  datatype WidgetEntry = WidgetEntry(
    kind: EntryKind,
    itemId: int,
    entryDate: int,
    entryPosition: WidgetEntryPosition,
    timeSection: TimeSection,
    hidden: bool,
    showTimeUntil: bool)
  {
    /** `entryDay`: the start of the day of `entryDate`. */
    function EntryDay(): int {
      DayOf(entryDate)
    }

    predicate NotHidden() {
      !hidden
    }
  }

  /** The section a day falls in, seen from the day of "now". */
  function SectionOf(day: int, today: int): TimeSection {
    if day < today then Past else if day == today then Today else Future
  }

  /** `DayHeader(settings, position, day)`: a synthetic header row for a day. */
  function NewDayHeader(position: WidgetEntryPosition, day: int, today: int): (h: WidgetEntry)
    ensures h.kind == DayHeaderEntry && h.entryPosition == position && !h.hidden && !h.showTimeUntil
    ensures h.entryDate == day * MILLIS_PER_DAY && h.EntryDay() == day
  {
    WidgetEntry(DayHeaderEntry, 0, day * MILLIS_PER_DAY, position, SectionOf(day, today), false, false)
  }

  /** `CurrentTimeEntry(settings)`: the "now" line, dated at the current instant. */
  function NewCurrentTimeEntry(now: int): (c: WidgetEntry)
    ensures c.kind == CurrentTimeEntry && c.entryDate == now && !c.hidden && !c.showTimeUntil
  {
    WidgetEntry(CurrentTimeEntry, 0, now, EntryDate, Today, false, false)
  }

  // ---------------------------------------------------------------------------
  // Ordering. `WidgetEntry.compareTo` is not part of this model: it is the
  // parameter `le`, where `le(a, b)` means `a.compareTo(b) <= 0`. A comparator
  // makes `le` a total preorder.

  /** Transitivity of `le` through `b`. Proofs name the three entries they
      chain, so the solver does not chain every pair of comparisons it sees. */
  ghost predicate TransitiveAt(le: (WidgetEntry, WidgetEntry) -> bool, a: WidgetEntry, b: WidgetEntry, c: WidgetEntry) {
    le(a, b) && le(b, c) ==> le(a, c)
  }

  /** Totality of `le` on one pair, named by the proofs that compare it. */
  ghost predicate TotalAt(le: (WidgetEntry, WidgetEntry) -> bool, a: WidgetEntry, b: WidgetEntry) {
    le(a, b) || le(b, a)
  }

  ghost predicate TotalPreorder(le: (WidgetEntry, WidgetEntry) -> bool) {
    && (forall a, b :: TotalAt(le, a, b))
    && (forall a, b, c :: TransitiveAt(le, a, b, c))
  }

  predicate Equivalent(le: (WidgetEntry, WidgetEntry) -> bool, a: WidgetEntry, b: WidgetEntry) {
    le(a, b) && le(b, a)
  }

  ghost predicate Sorted(s: seq<WidgetEntry>, le: (WidgetEntry, WidgetEntry) -> bool) {
    forall i, j :: 0 <= i < j < |s| ==> le(s[i], s[j])
  }

  /** Inserts `e` after every element of `t` that is not greater than `e`. */
  function Insert(t: seq<WidgetEntry>, e: WidgetEntry, le: (WidgetEntry, WidgetEntry) -> bool): seq<WidgetEntry> {
    if t == [] then [e]
    else if le(t[0], e) then [t[0]] + Insert(t[1..], e, le)
    else [e] + t
  }

  lemma {:induction false} InsertPermutes(t: seq<WidgetEntry>, e: WidgetEntry, le: (WidgetEntry, WidgetEntry) -> bool)
    ensures multiset(Insert(t, e, le)) == multiset(t) + multiset{e}
  {
    if t != [] {
      assert t == [t[0]] + t[1..];
      if le(t[0], e) {
        InsertPermutes(t[1..], e, le);
      }
    }
  }

  /** `MutableList.sort()` / `sorted()` over `WidgetEntry.compareTo`: a stable sort
      (insertion sort, each element placed after the equal ones before it). */
  function SortEntries(s: seq<WidgetEntry>, le: (WidgetEntry, WidgetEntry) -> bool): seq<WidgetEntry> {
    if s == [] then [] else Insert(SortEntries(s[..|s| - 1], le), s[|s| - 1], le)
  }

  /** The elements of `s` that compare equal to `x`, in their order in `s`. */
  function EquivalentTo(s: seq<WidgetEntry>, x: WidgetEntry, le: (WidgetEntry, WidgetEntry) -> bool): seq<WidgetEntry> {
    if s == [] then []
    else (if Equivalent(le, s[0], x) then [s[0]] else []) + EquivalentTo(s[1..], x, le)
  }

  /** Sorting only reorders: the result holds the same entries, as often. */
  lemma {:induction false} SortEntriesPermutes(s: seq<WidgetEntry>, le: (WidgetEntry, WidgetEntry) -> bool)
    ensures multiset(SortEntries(s, le)) == multiset(s)
    ensures |SortEntries(s, le)| == |s|
  {
    if s != [] {
      SortEntriesPermutes(s[..|s| - 1], le);
      InsertPermutes(SortEntries(s[..|s| - 1], le), s[|s| - 1], le);
      assert s == s[..|s| - 1] + [s[|s| - 1]];
    }
    assert |multiset(SortEntries(s, le))| == |SortEntries(s, le)|;
  }

  lemma {:induction false} InsertSorted(t: seq<WidgetEntry>, e: WidgetEntry, le: (WidgetEntry, WidgetEntry) -> bool)
    requires TotalPreorder(le) && Sorted(t, le)
    ensures Sorted(Insert(t, e, le), le)
  {
    if t != [] {
      var r := Insert(t, e, le);
      if le(t[0], e) {
        var rest := Insert(t[1..], e, le);
        InsertSorted(t[1..], e, le);
        InsertPermutes(t[1..], e, le);
        forall y | y in rest ensures le(t[0], y) {
          assert y in multiset(rest);
          if y != e {
            assert y in multiset(t[1..]);
            var j :| 0 <= j < |t[1..]| && t[1..][j] == y;
            assert t[j + 1] == y;
          }
        }
        forall i, j | 0 <= i < j < |r| ensures le(r[i], r[j]) {
          if i == 0 {
            assert r[j] == rest[j - 1];
          } else {
            assert r[i] == rest[i - 1] && r[j] == rest[j - 1];
          }
        }
      } else {
        assert TotalAt(le, t[0], e);
        forall i, j | 0 <= i < j < |r| ensures le(r[i], r[j]) {
          if i == 0 {
            assert r[j] == t[j - 1];
            if j > 1 {
              assert le(t[0], t[j - 1]) && TransitiveAt(le, e, t[0], t[j - 1]);
            }
          } else {
            assert r[i] == t[i - 1] && r[j] == t[j - 1];
          }
        }
      }
    }
  }

  /** The sort orders its result by `le`. */
  lemma {:induction false} SortEntriesSorted(s: seq<WidgetEntry>, le: (WidgetEntry, WidgetEntry) -> bool)
    requires TotalPreorder(le)
    ensures Sorted(SortEntries(s, le), le)
  {
    if s != [] {
      SortEntriesSorted(s[..|s| - 1], le);
      InsertSorted(SortEntries(s[..|s| - 1], le), s[|s| - 1], le);
    }
  }

  lemma {:induction false} EquivalentToConcat(a: seq<WidgetEntry>, b: seq<WidgetEntry>, x: WidgetEntry, le: (WidgetEntry, WidgetEntry) -> bool)
    ensures EquivalentTo(a + b, x, le) == EquivalentTo(a, x, le) + EquivalentTo(b, x, le)
  {
    if a == [] {
      assert a + b == b;
    } else {
      assert (a + b)[0] == a[0] && (a + b)[1..] == a[1..] + b;
      EquivalentToConcat(a[1..], b, x, le);
    }
  }

  lemma SortedTail(t: seq<WidgetEntry>, le: (WidgetEntry, WidgetEntry) -> bool)
    requires t != [] && Sorted(t, le)
    ensures Sorted(t[1..], le)
  {
    forall i, j | 0 <= i < j < |t[1..]| ensures le(t[1..][i], t[1..][j]) {
      assert t[1..][i] == t[i + 1] && t[1..][j] == t[j + 1];
    }
  }

  lemma EquivalentToCons(h: WidgetEntry, t: seq<WidgetEntry>, x: WidgetEntry, le: (WidgetEntry, WidgetEntry) -> bool)
    ensures EquivalentTo([h] + t, x, le) == (if Equivalent(le, h, x) then [h] else []) + EquivalentTo(t, x, le)
  {
    assert ([h] + t)[0] == h && ([h] + t)[1..] == t;
  }

  /** Inserting `e` into a sorted list puts it after every element equal to it. */
  lemma {:induction false} InsertStable(t: seq<WidgetEntry>, e: WidgetEntry, x: WidgetEntry, le: (WidgetEntry, WidgetEntry) -> bool)
    requires TotalPreorder(le) && Sorted(t, le)
    ensures EquivalentTo(Insert(t, e, le), x, le)
         == EquivalentTo(t, x, le) + (if Equivalent(le, e, x) then [e] else [])
  {
    if t == [] {
      EquivalentToCons(e, [], x, le);
    } else if le(t[0], e) {
      SortedTail(t, le);
      InsertStable(t[1..], e, x, le);
      EquivalentToCons(t[0], Insert(t[1..], e, le), x, le);
      EquivalentToCons(t[0], t[1..], x, le);
      assert t == [t[0]] + t[1..];
    } else {
      EquivalentToCons(e, t, x, le);
      if Equivalent(le, e, x) {
        EquivalentToNone(t, x, le, e);
      }
    }
  }

  /** When the first element of a sorted list is greater than `e`, nothing in it equals `e`. */
  lemma {:induction false} EquivalentToNone(t: seq<WidgetEntry>, x: WidgetEntry, le: (WidgetEntry, WidgetEntry) -> bool, e: WidgetEntry)
    requires TotalPreorder(le) && Sorted(t, le)
    requires t != [] && !le(t[0], e) && Equivalent(le, e, x)
    ensures EquivalentTo(t, x, le) == []
    decreases |t|
  {
    if |t| > 1 {
      SortedTail(t, le);
      assert le(t[0], t[1]) && TransitiveAt(le, t[0], t[1], e);
      EquivalentToNone(t[1..], x, le, e);
    }
    assert TransitiveAt(le, t[0], x, e);
  }

  /** The sort is stable: entries that compare equal keep their relative order. */
  lemma {:induction false} SortEntriesStable(s: seq<WidgetEntry>, x: WidgetEntry, le: (WidgetEntry, WidgetEntry) -> bool)
    requires TotalPreorder(le)
    ensures EquivalentTo(SortEntries(s, le), x, le) == EquivalentTo(s, x, le)
  {
    if s != [] {
      var p, last := s[..|s| - 1], s[|s| - 1];
      SortEntriesStable(p, x, le);
      SortEntriesSorted(p, le);
      InsertStable(SortEntries(p, le), last, x, le);
      assert s == p + [last];
      EquivalentToConcat(p, [last], x, le);
      assert EquivalentTo([last], x, le) == (if Equivalent(le, last, x) then [last] else []) + EquivalentTo([], x, le);
    }
  }
}
