/**
  * The event selection logic of the events section: the day-grouped data
  * flattened into one list of events carrying ISO dates, the future events
  * in date order and the next event taken from them, the lookup of a
  * calendar date's events, and the shortened description of the list view.
  */
module EventList {
  import opened Options
  import opened DateText
  import opened Calendar

  datatype Event = Event(
    id: int,
    title: string,
    date: string,
    time: string,
    location: string,
    description: string,
    link: string)

  /** One entry of the static data: a `dd-MM-yyyy` date and that day's events. */
  datatype DayEntry = DayEntry(date: string, events: seq<Event>)

  // ---------------------------------------------------------------------
  // Flattening: events.flatMap(day => day.events.map(...))
  // ---------------------------------------------------------------------

  /** `{ ...event, date: formatDateToISO(dayDate) }`. */
  function Stamp(e: Event, dayDate: string): (stamped: Event)
    ensures stamped.date == FormatDateToISO(dayDate)
    ensures stamped.(date := e.date) == e
  {
    e.(date := FormatDateToISO(dayDate))
  }

  /** `day.events.map(...)` with `Stamp`. */
  function StampAll(events: seq<Event>, dayDate: string): (stamped: seq<Event>)
    ensures |stamped| == |events|
    ensures forall j :: 0 <= j < |events| ==> stamped[j] == Stamp(events[j], dayDate)
  {
    seq(|events|, j requires 0 <= j < |events| => Stamp(events[j], dayDate))
  }

  /** The sum of the lengths of the days' event lists. */
  function TotalEvents(days: seq<DayEntry>): nat {
    if days == [] then 0 else |days[0].events| + TotalEvents(days[1..])
  }

  /** The `flatMap` over the day entries. */
  function Flatten(days: seq<DayEntry>): (flat: seq<Event>)
    ensures |flat| == TotalEvents(days)
  {
    if days == [] then [] else StampAll(days[0].events, days[0].date) + Flatten(days[1..])
  }

  /**
    * Event `j` of day `i` sits in the flattened list after the events of
    * the earlier days, with its own fields and its day's ISO date.
    */
  lemma {:induction false} FlattenAt(days: seq<DayEntry>, i: nat, j: nat)
    requires i < |days| && j < |days[i].events|
    ensures TotalEvents(days[..i]) + j < |Flatten(days)|
    ensures Flatten(days)[TotalEvents(days[..i]) + j] == Stamp(days[i].events[j], days[i].date)
    decreases i
  {
    var head := StampAll(days[0].events, days[0].date);
    var rest := Flatten(days[1..]);
    if i == 0 {
      assert days[..0] == [];
    } else {
      assert days[1..][i - 1] == days[i];
      FlattenAt(days[1..], i - 1, j);
      TotalEventsOfPrefix(days, i);
    }
  }

  /** The events before day `i` are day 0's and those of the days between. */
  lemma TotalEventsOfPrefix(days: seq<DayEntry>, i: nat)
    requires 0 < i <= |days|
    ensures TotalEvents(days[..i]) == |days[0].events| + TotalEvents(days[1..][..i - 1])
  {
    assert days[..i][1..] == days[1..][..i - 1];
  }

  /** Every element of the flattened list is some day's event, stamped with that day's date. */
  lemma {:induction false} FlattenOrigin(days: seq<DayEntry>, k: nat) returns (i: nat, j: nat)
    requires k < |Flatten(days)|
    ensures i < |days| && j < |days[i].events|
    ensures k == TotalEvents(days[..i]) + j
    ensures Flatten(days)[k] == Stamp(days[i].events[j], days[i].date)
    decreases days
  {
    if k < |days[0].events| {
      i, j := 0, k;
      assert days[..0] == [];
    } else {
      var i', j' := FlattenOrigin(days[1..], k - |days[0].events|);
      i, j := i' + 1, j';
      TotalEventsOfPrefix(days, i);
    }
  }

  // ---------------------------------------------------------------------
  // Filtering: .filter(event => isFuture(parseISO(event.date)))
  // ---------------------------------------------------------------------

  /** Whether `isFuture(parseISO(e.date))` holds at instant `now`; an unparsable date never is. */
  predicate IsFutureEvent(e: Event, now: int) {
    match ParseISO(e.date)
    case Some(d) => IsFuture(d, now)
    case None => false
  }

  /** The event's date parses, so the sort's comparator has a number to work with. */
  predicate HasDate(e: Event) {
    ParseISO(e.date).Some?
  }

  predicate AllHaveDates(s: seq<Event>) {
    forall i :: 0 <= i < |s| ==> HasDate(s[i])
  }

  /** `parseISO(e.date)` as an instant. */
  function EventTime(e: Event): int
    requires HasDate(e)
  {
    StartOfDay(ParseISO(e.date).value)
  }

  /** The `filter` step: the future events, in their original order. */
  function FilterFuture(s: seq<Event>, now: int): (r: seq<Event>)
    ensures AllHaveDates(r)
    ensures forall i :: 0 <= i < |r| ==> IsFutureEvent(r[i], now)
  {
    if s == [] then []
    else if IsFutureEvent(s[0], now) then [s[0]] + FilterFuture(s[1..], now)
      else FilterFuture(s[1..], now)
  }

  /** Each event is kept as often as it occurs when it is in the future, and never otherwise. */
  lemma {:induction false} FilterFutureCounts(s: seq<Event>, now: int)
    ensures forall e :: multiset(FilterFuture(s, now))[e] == if IsFutureEvent(e, now) then multiset(s)[e] else 0
    decreases |s|
  {
    if s != [] {
      FilterFutureCounts(s[1..], now);
      assert s == [s[0]] + s[1..];
    }
  }

  lemma AppendAssoc<T>(p: seq<T>, q: seq<T>, r: seq<T>)
    ensures p + (q + r) == (p + q) + r
  {
  }

  /** One filter step: the head is kept exactly when it is in the future. */
  lemma FilterFutureCons(x: Event, s: seq<Event>, now: int)
    ensures FilterFuture([x] + s, now) == (if IsFutureEvent(x, now) then [x] else []) + FilterFuture(s, now)
  {
    assert ([x] + s)[0] == x;
    assert ([x] + s)[1..] == s;
  }

  /**
    * The filter keeps order: filtering a concatenation filters each part in
    * place, and a single event is kept exactly when it is in the future.
    */
  lemma {:induction false} FilterFutureAppend(a: seq<Event>, b: seq<Event>, now: int)
    ensures FilterFuture(a + b, now) == FilterFuture(a, now) + FilterFuture(b, now)
    ensures |a| == 1 ==> FilterFuture(a, now) == if IsFutureEvent(a[0], now) then a else []
    decreases |a|
  {
    if a != [] {
      var x, rest := a[0], a[1..];
      assert a == [x] + rest;
      assert a + b == [x] + (rest + b);
      FilterFutureAppend(rest, b, now);
      FilterFutureCons(x, rest + b, now);
      FilterFutureCons(x, rest, now);
      var head := if IsFutureEvent(x, now) then [x] else [];
      assert FilterFuture(a + b, now) == head + FilterFuture(rest + b, now);
      assert FilterFuture(a, now) == head + FilterFuture(rest, now);
      AppendAssoc(head, FilterFuture(rest, now), FilterFuture(b, now));
      if |a| == 1 {
        assert rest == [];
      }
    } else {
      assert a + b == b;
      assert FilterFuture(a, now) == [];
      assert FilterFuture(a, now) + FilterFuture(b, now) == FilterFuture(b, now);
    }
  }

  /**
    * The first future event at instant `t` that the filter passes on is the
    * first future event of `s` at `t`, at some position `k` of `s`.
    */
  lemma {:induction false} FirstAtTimeInFilter(s: seq<Event>, now: int, t: int) returns (k: nat)
    ensures var atT := AtTime(FilterFuture(s, now), t);
      atT != [] ==>
        k < |s| && s[k] == atT[0] && IsFutureEvent(s[k], now) && HasDate(s[k]) && EventTime(s[k]) == t
        && forall m :: 0 <= m < k && IsFutureEvent(s[m], now) ==> HasDate(s[m]) && EventTime(s[m]) != t
    decreases |s|
  {
    k := 0;
    if s != [] && AtTime(FilterFuture(s, now), t) != [] {
      var tail := FilterFuture(s[1..], now);
      if IsFutureEvent(s[0], now) {
        assert FilterFuture(s, now) == [s[0]] + tail;
        assert ([s[0]] + tail)[1..] == tail;
      }
      if !(IsFutureEvent(s[0], now) && EventTime(s[0]) == t) {
        assert AtTime(FilterFuture(s, now), t) == AtTime(tail, t);
        var k' := FirstAtTimeInFilter(s[1..], now, t);
        k := k' + 1;
        forall m | 0 <= m < k && IsFutureEvent(s[m], now)
          ensures HasDate(s[m]) && EventTime(s[m]) != t
        {
          if m > 0 { assert s[m] == s[1..][m - 1]; }
        }
      }
    }
  }

  // ---------------------------------------------------------------------
  // Sorting: .sort((a, b) => parseISO(a.date) - parseISO(b.date)),
  // a stable sort (Array.prototype.sort is stable)
  // ---------------------------------------------------------------------

  predicate SortedByTime(s: seq<Event>)
    requires AllHaveDates(s)
  {
    forall i, j :: 0 <= i < j < |s| ==> EventTime(s[i]) <= EventTime(s[j])
  }

  /** The events of `s` at instant `t`, in their order in `s`. */
  function AtTime(s: seq<Event>, t: int): seq<Event>
    requires AllHaveDates(s)
  {
    if s == [] then []
    else if EventTime(s[0]) == t then [s[0]] + AtTime(s[1..], t)
    else AtTime(s[1..], t)
  }

  /** Putting a dated event in front of dated events adds one copy of it. */
  lemma ConsDated(y: Event, r: seq<Event>)
    requires HasDate(y) && AllHaveDates(r)
    ensures AllHaveDates([y] + r) && multiset([y] + r) == multiset{y} + multiset(r)
  {
    var c := [y] + r;
    forall k | 0 <= k < |c| ensures HasDate(c[k]) {
      if k > 0 { assert c[k] == r[k - 1]; }
    }
  }

  /** Puts `x` before the first element that is not earlier than it. */
  function InsertByTime(x: Event, s: seq<Event>): (r: seq<Event>)
    requires HasDate(x) && AllHaveDates(s)
    ensures AllHaveDates(r)
    ensures multiset(r) == multiset(s) + multiset{x}
  {
    if s == [] || EventTime(x) <= EventTime(s[0]) then
      ConsDated(x, s);
      [x] + s
    else
      var rest := InsertByTime(x, s[1..]);
      assert s == [s[0]] + s[1..];
      ConsDated(s[0], s[1..]);
      ConsDated(s[0], rest);
      [s[0]] + rest
  }

  /** The inserted list starts with the new element or with the old head. */
  lemma {:induction false} InsertByTimeHead(x: Event, s: seq<Event>)
    requires HasDate(x) && AllHaveDates(s)
    ensures var r := InsertByTime(x, s); r[0] == x || (s != [] && r[0] == s[0])
  {
  }

  /** Inserting into a sorted list keeps it sorted. */
  lemma {:induction false} InsertKeepsSorted(x: Event, s: seq<Event>)
    requires HasDate(x) && AllHaveDates(s) && SortedByTime(s)
    ensures SortedByTime(InsertByTime(x, s))
    decreases |s|
  {
    if s != [] && EventTime(x) > EventTime(s[0]) {
      var tail := s[1..];
      InsertKeepsSorted(x, tail);
      var rest := InsertByTime(x, tail);
      InsertByTimeHead(x, tail);
      assert EventTime(s[0]) <= EventTime(rest[0]) by {
        if rest[0] != x {
          assert rest[0] == tail[0] == s[1];
          assert EventTime(s[0]) <= EventTime(s[1]);
        }
      }
      PrependKeepsSorted(s[0], rest);
      assert InsertByTime(x, s) == [s[0]] + rest;
    } else {
      PrependKeepsSorted(x, s);
      assert InsertByTime(x, s) == [x] + s;
    }
  }

  /** An element no later than the head of a sorted list can go in front of it. */
  lemma PrependKeepsSorted(a: Event, s: seq<Event>)
    requires HasDate(a) && AllHaveDates(s) && SortedByTime(s)
    requires s != [] ==> EventTime(a) <= EventTime(s[0])
    ensures AllHaveDates([a] + s) && SortedByTime([a] + s)
  {
    var r := [a] + s;
    forall k | 0 <= k < |r| ensures HasDate(r[k]) {
      if k > 0 { assert r[k] == s[k - 1]; }
    }
    forall i, j | 0 <= i < j < |r| ensures EventTime(r[i]) <= EventTime(r[j]) {
      assert r[j] == s[j - 1];
      if i == 0 {
        assert r[i] == a;
        if j > 1 {
          assert EventTime(s[0]) <= EventTime(s[j - 1]);
        }
      } else {
        assert r[i] == s[i - 1];
      }
    }
  }

  /** Insertion sort by time; an element goes before the equal ones that follow it, so the order is stable. */
  function SortByTime(s: seq<Event>): (r: seq<Event>)
    requires AllHaveDates(s)
    ensures AllHaveDates(r) && SortedByTime(r)
    ensures multiset(r) == multiset(s)
  {
    if s == [] then []
    else
      assert s == [s[0]] + s[1..];
      InsertKeepsSorted(s[0], SortByTime(s[1..]));
      InsertByTime(s[0], SortByTime(s[1..]))
  }

  lemma {:induction false} InsertAtTime(x: Event, s: seq<Event>, t: int)
    requires HasDate(x) && AllHaveDates(s)
    ensures AtTime(InsertByTime(x, s), t) == if EventTime(x) == t then [x] + AtTime(s, t) else AtTime(s, t)
    decreases |s|
  {
    if s == [] || EventTime(x) <= EventTime(s[0]) {
      assert ([x] + s)[1..] == s;
    } else {
      InsertAtTime(x, s[1..], t);
      assert ([s[0]] + InsertByTime(x, s[1..]))[1..] == InsertByTime(x, s[1..]);
    }
  }

  /** Sorting keeps the relative order of the events at any one instant: the sort is stable. */
  lemma {:induction false} SortIsStable(s: seq<Event>, t: int)
    requires AllHaveDates(s)
    ensures AtTime(SortByTime(s), t) == AtTime(s, t)
    decreases |s|
  {
    if s != [] {
      SortIsStable(s[1..], t);
      InsertAtTime(s[0], SortByTime(s[1..]), t);
    }
  }

  // ---------------------------------------------------------------------
  // The mount effect: futureEvents and nextEvent
  // ---------------------------------------------------------------------

  /** `futureEvents` of the mount effect, at instant `now`. */
  function FutureEvents(days: seq<DayEntry>, now: int): (r: seq<Event>)
    ensures AllHaveDates(r) && SortedByTime(r)
    ensures forall i :: 0 <= i < |r| ==> IsFutureEvent(r[i], now)
    ensures forall e :: multiset(r)[e] == if IsFutureEvent(e, now) then multiset(Flatten(days))[e] else 0
  {
    FilterFutureCounts(Flatten(days), now);
    SortByTime(FilterFuture(Flatten(days), now))
  }

  /** The event the mount effect stores: the head of `futureEvents`, if any. */
  function NextEvent(days: seq<DayEntry>, now: int): Option<Event> {
    var future := FutureEvents(days, now);
    if |future| > 0 then Some(future[0]) else None
  }

  /** There is no next event exactly when no flattened event lies in the future. */
  lemma NextEventNone(days: seq<DayEntry>, now: int)
    ensures NextEvent(days, now).None? <==> forall e :: e in Flatten(days) ==> !IsFutureEvent(e, now)
  {
    var future := FutureEvents(days, now);
    if |future| > 0 {
      assert future[0] in multiset(future);
    } else {
      forall e | e in Flatten(days) ensures !IsFutureEvent(e, now) {
        assert multiset(future)[e] == 0;
      }
    }
  }

  /**
    * The next event is a future event of the data whose date is no later
    * than that of any other future event.
    */
  lemma {:induction false} NextEventIsEarliest(days: seq<DayEntry>, now: int)
    ensures NextEvent(days, now).Some? ==>
      var next := NextEvent(days, now).value;
      next in Flatten(days) && IsFutureEvent(next, now) && HasDate(next)
      && forall e :: e in Flatten(days) && IsFutureEvent(e, now) ==> HasDate(e) && EventTime(next) <= EventTime(e)
  {
    var future := FutureEvents(days, now);
    if future != [] {
      SortedHeadIsMin(future);
      assert future[0] in multiset(future);
      forall e | e in Flatten(days) && IsFutureEvent(e, now)
        ensures e in future
      {
        assert multiset(Flatten(days))[e] > 0;
      }
    }
  }

  /** The head of a date-sorted list is no later than any of its elements. */
  lemma SortedHeadIsMin(s: seq<Event>)
    requires AllHaveDates(s) && SortedByTime(s) && s != []
    ensures forall e :: e in s ==> HasDate(e) && EventTime(s[0]) <= EventTime(e)
  {
    forall e | e in s ensures HasDate(e) && EventTime(s[0]) <= EventTime(e) {
      var k :| 0 <= k < |s| && s[k] == e;
      assert k == 0 || EventTime(s[0]) <= EventTime(s[k]);
    }
  }

  lemma {:induction false} AtTimeOfHead(s: seq<Event>)
    requires AllHaveDates(s) && s != []
    ensures AtTime(s, EventTime(s[0])) != [] && AtTime(s, EventTime(s[0]))[0] == s[0]
  {
  }

  /**
    * Of the future events sharing the earliest date, the next event is the
    * one listed first in the data.
    */
  lemma {:induction false} NextEventIsFirstListed(days: seq<DayEntry>, now: int) returns (k: nat)
    ensures NextEvent(days, now).Some? ==>
      var next := NextEvent(days, now).value;
      var flat := Flatten(days);
      HasDate(next) && k < |flat| && flat[k] == next
      && forall m :: 0 <= m < k && IsFutureEvent(flat[m], now) ==> HasDate(flat[m]) && EventTime(next) < EventTime(flat[m])
  {
    var flat := Flatten(days);
    var filtered := FilterFuture(flat, now);
    var future := FutureEvents(days, now);
    k := 0;
    if future != [] {
      var next := future[0];
      AtTimeOfHead(future);
      SortIsStable(filtered, EventTime(next));
      k := FirstAtTimeInFilter(flat, now, EventTime(next));
      NextEventIsEarliest(days, now);
      forall m | 0 <= m < k && IsFutureEvent(flat[m], now)
        ensures HasDate(flat[m]) && EventTime(next) < EventTime(flat[m])
      {
        assert flat[m] in flat;
      }
    }
  }

  // ---------------------------------------------------------------------
  // handleDateSelect
  // ---------------------------------------------------------------------

  /** `events.find(day => day.date === key)`, as the index of the entry found. */
  function FindDay(days: seq<DayEntry>, key: string): (r: Option<nat>)
    ensures r.Some? ==> r.value < |days| && days[r.value].date == key
    ensures r.Some? ==> forall j :: 0 <= j < r.value ==> days[j].date != key
    ensures r.None? ==> forall j :: 0 <= j < |days| ==> days[j].date != key
  {
    if days == [] then None
    else if days[0].date == key then Some(0)
    else match FindDay(days[1..], key)
      case None => None
      case Some(i) => Some(i + 1)
  }

  /**
    * The list `handleDateSelect` stores for a calendar date; `None` is an
    * invalid date.
    */
  function SelectedDateEvents(days: seq<DayEntry>, picked: Option<Date>): (r: seq<Event>)
    ensures picked.None? ==> r == []
    ensures picked.Some? ==>
      forall i :: 0 <= i < |days| && days[i].date == FormatDMY(picked.value)
        && (forall j :: 0 <= j < i ==> days[j].date != FormatDMY(picked.value))
        ==> r == days[i].events
    ensures picked.Some? && (forall j :: 0 <= j < |days| ==> days[j].date != FormatDMY(picked.value)) ==> r == []
  {
    match picked
    case None => []
    case Some(d) =>
      match FindDay(days, FormatDMY(d))
      case Some(i) => days[i].events
      case None => []
  }

  /** Entries after a matching entry never change what a date selects. */
  lemma {:induction false} LaterEntriesIgnored(days: seq<DayEntry>, more: seq<DayEntry>, d: Date, i: nat)
    requires i < |days| && days[i].date == FormatDMY(d)
    ensures SelectedDateEvents(days + more, Some(d)) == SelectedDateEvents(days, Some(d))
  {
    var k := FindDay(days, FormatDMY(d)).value;
    assert (days + more)[k] == days[k];
    assert forall j :: 0 <= j < k ==> (days + more)[j] == days[j];
  }

  /**
    * A day entry keyed by the calendar rendering of `d` stamps each of its
    * events with a date that parses as `d` itself.
    */
  lemma {:induction false} DayKeysAgree(days: seq<DayEntry>, d: Date, i: nat, j: nat)
    requires ValidDate(d) && 1 <= d.year <= 9999
    requires i < |days| && j < |days[i].events| && days[i].date == FormatDMY(d)
    ensures TotalEvents(days[..i]) + j < |Flatten(days)|
    ensures ParseISO(Flatten(days)[TotalEvents(days[..i]) + j].date) == Some(d)
  {
    FlattenAt(days, i, j);
    FormatThenParse(d);
  }

  // ---------------------------------------------------------------------
  // The description preview of the list view
  // ---------------------------------------------------------------------

  const PreviewLength: nat := 85
  const Ellipsis: string := "..."

  /** JavaScript's `s.slice(0, n)`. */
  function SliceTo(s: string, n: nat): (prefix: string)
    ensures |prefix| == if n < |s| then n else |s|
    ensures prefix == s[..|prefix|]
  {
    if n < |s| then s[..n] else s
  }

  /** `description.slice(0, 85)` followed by "..." when the description is longer than 85. */
  function Preview(description: string): (shown: string)
    ensures |description| <= PreviewLength ==> shown == description
    ensures |description| > PreviewLength ==> shown == description[..PreviewLength] + Ellipsis
    ensures |shown| <= PreviewLength + |Ellipsis|
  {
    SliceTo(description, PreviewLength) + (if |description| > PreviewLength then Ellipsis else "")
  }

  /** Shortening an already shortened description changes nothing. */
  lemma PreviewIdempotent(description: string)
    ensures Preview(Preview(description)) == Preview(description)
  {
    var shown := Preview(description);
    if |description| > PreviewLength {
      assert shown[..PreviewLength] == description[..PreviewLength];
    }
  }
}
