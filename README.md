# Events section of the ACSES website, modelled in Dafny

The events section of the website shows three things, all computed from a
static list of days. Each day is a `dd-MM-yyyy` date string with that day's
events.

- A banner with the **next event**. When the component mounts, it flattens
  the days into one list of events. Each event gets its day's date rewritten
  as `yyyy-MM-dd` by `formatDateToISO`. The effect keeps the events whose date
  is in the future, sorts them by date and stores the first one.
- A **list of the events of a date** picked on the calendar. The handler
  renders the date as `dd-MM-yyyy`. It shows the events of the first day entry
  with exactly that string. It shows nothing for a date with no entry, and
  nothing for an invalid date. A description longer than 85 characters is
  cut to its first 85 characters plus `...`; a shorter one is shown
  unchanged.
- A **details modal**. "View Details" opens it on one event, and closing it
  clears the selection.

The model has six modules:

- `Options`: the optional value that stands in for `null`.
- `DateText`: JavaScript's `split("-")`, its inverse `Join`, and
  `formatDateToISO`.
- `Decimal`: decimal digit strings. This covers `toString` and date-fns's
  `addLeadingZeros`, plus reading digits back.
- `Calendar`: calendar dates, day numbers, and the instant of a day's
  midnight. It also models the three date-fns functions the component uses:
  `parseISO`, `isFuture` and `format(…, "dd-MM-yyyy")`.
- `EventList`: the pure pipeline. This is flatten, filter, a stable sort, the
  next event, the date lookup and the description preview.
- `EventsView`: the component's state as a class. Its fields are the three
  `useState` values. Its methods are the mount effect and the three handlers.

Time is an integer count of milliseconds on the local time line. Its zero is
the midnight that starts 0000-01-01. `parseISO` of a date gives that day's
midnight. `isFuture` compares it with a `now` parameter, which stands in for
the clock. The sort's comparator subtracts two such instants, so the sort
orders events by day number. `Calendar.ChronologicalOrder` proves that this
order is the calendar order of the dates.

Two details of the code decide which event the banner shows, and the
model keeps both:

- Only the date of an event is compared; its `time` field is never used.
  An event dated today is therefore never the next event, because its
  midnight has already passed (`Calendar.FutureMeansAfterToday`).
- When several future events share the earliest date, the first one in the
  data wins. This is because `Array.prototype.sort` is stable
  (`EventList.NextEventIsFirstListed`).

## Model

| member | source | states |
|---|---|---|
| `DateText.Split` | acses-website/src/components/events/Events.jsx:16 | `split("-")` yields at least one field, and no field contains a dash |
| `DateText.SplitFieldCount` | acses-website/src/components/events/Events.jsx:16 | `split("-")` yields one more field than the string has dashes |
| `DateText.SplitJoin` | acses-website/src/components/events/Events.jsx:16 | splitting the join of dash-free fields gives the same fields back |
| `DateText.JoinSplit` | acses-website/src/components/events/Events.jsx:16 | joining the fields of a split with dashes gives the original string |
| `DateText.FormatDateToISO` | acses-website/src/components/events/Events.jsx:15-18 | `formatDateToISO` itself; its properties are stated by `FormatDateToISOFields`, `FormatDateToISOSwaps` and `FormatDateToISOTwice` |
| `DateText.FormatDateToISOFields` | acses-website/src/components/events/Events.jsx:15-18 | the result has exactly three fields: the input's third, second and first, with `"undefined"` for a missing one |
| `DateText.FormatDateToISOSwaps` | acses-website/src/components/events/Events.jsx:15-18 | for dash-free fields, `d-m-y` becomes `y-m-d` |
| `DateText.FormatDateToISOTwice` | acses-website/src/components/events/Events.jsx:15-18 | applying the conversion twice gives the input back exactly when the input has three dash-separated fields (both directions) |
| `Decimal.AddLeadingZeros` | acses-website/src/components/events/Events.jsx:37 | the padded digits read back as the number; the length is the width, or the digit count when that is larger |
| `Calendar.ChronologicalOrder` | acses-website/src/components/events/Events.jsx:28 | for valid dates, a smaller day number means exactly an earlier calendar date, so the comparator sorts chronologically |
| `Calendar.FutureMeansAfterToday` | acses-website/src/components/events/Events.jsx:27 | while `now` lies within a day, a date is future exactly when it is a later day; that day itself is not future |
| `Calendar.ParseISO` | acses-website/src/components/events/Events.jsx:27 | a parsed date is a real calendar day with a four-digit year, from a ten-character string with dashes at positions 4 and 7; which date it is and which strings fail are stated by `ParseISOReadsDigits`, `ParseISOExact` and `ParseISONone` |
| `Calendar.ParseISOReadsDigits` | acses-website/src/components/events/Events.jsx:27 | a string that parses is exactly the zero-padded `yyyy-MM-dd` text of the date it parses to |
| `Calendar.ParseISOExact` | acses-website/src/components/events/Events.jsx:27 | for a valid date with a four-digit year, `parseISO` yields it for its canonical text and for no other string (both directions) |
| `Calendar.ParseISONone` | acses-website/src/components/events/Events.jsx:27 | `parseISO` gives an invalid date exactly for the strings that are no valid date's canonical text (both directions) |
| `Calendar.IsFuture` | acses-website/src/components/events/Events.jsx:27 | `isFuture` of the parsed midnight: the midnight is after `now`; its meaning in calendar days is stated by `FutureMeansAfterToday` |
| `Calendar.FormatDMY` | acses-website/src/components/events/Events.jsx:37 | for a valid date with a four-digit year, the rendering is ten characters with dashes at positions 2 and 5 |
| `Calendar.StartOfDay` | acses-website/src/components/events/Events.jsx:27 | the instant `parseISO` returns, the date's midnight in milliseconds; its meaning is stated by `FutureMeansAfterToday` and `ChronologicalOrder` |
| `Calendar.FormatThenParse` | acses-website/src/components/events/Events.jsx:24-37 | the `dd-MM-yyyy` rendering of a date, after `formatDateToISO`, parses back to the same date, for years 1 to 9999 |
| `EventList.Stamp` | acses-website/src/components/events/Events.jsx:22-25 | the stamped event's date is its day's ISO date, and every other field is the event's own |
| `EventList.StampAll` | acses-website/src/components/events/Events.jsx:22-25 | the `map` keeps the number of events, and element `j` is event `j` stamped with the day's date |
| `EventList.Flatten` | acses-website/src/components/events/Events.jsx:20-26 | the flattened list is as long as the sum of the days' event counts |
| `EventList.FlattenAt` | acses-website/src/components/events/Events.jsx:21-26 | event `j` of day `i` appears after all earlier days' events, with its own fields and its date set to its day's ISO date |
| `EventList.FlattenOrigin` | acses-website/src/components/events/Events.jsx:21-26 | every flattened element is some day's event, stamped with that day's ISO date, at that position |
| `EventList.IsFutureEvent` | acses-website/src/components/events/Events.jsx:27 | the filter callback: an event whose date does not parse is never future; its meaning over a list is stated by `FilterFuture` and `FilterFutureCounts` |
| `EventList.FilterFuture` | acses-website/src/components/events/Events.jsx:27 | every kept event is in the future and has a parsable date; its counts and its order are stated by `FilterFutureCounts` and `FilterFutureAppend` |
| `EventList.FilterFutureCounts` | acses-website/src/components/events/Events.jsx:27 | each event is kept as often as it occurs exactly when it is future, otherwise never |
| `EventList.FilterFutureAppend` | acses-website/src/components/events/Events.jsx:27 | filtering a concatenation filters each part in place, and a single event is kept exactly when it is future, so the data's order is kept |
| `EventList.FirstAtTimeInFilter` | acses-website/src/components/events/Events.jsx:27 | the first filtered event at an instant is, at some position of the input, the first future event at that instant |
| `EventList.InsertByTime` | acses-website/src/components/events/Events.jsx:28 | the insertion adds exactly one copy of the element and nothing else |
| `EventList.InsertByTimeHead` | acses-website/src/components/events/Events.jsx:28 | the result starts with the inserted element or with the old head |
| `EventList.InsertKeepsSorted` | acses-website/src/components/events/Events.jsx:28 | inserting into a date-sorted list keeps it sorted |
| `EventList.EventTime` | acses-website/src/components/events/Events.jsx:28 | the comparator's operand, the parsed midnight as a number; the order it induces is stated by `SortByTime` and `ChronologicalOrder` |
| `EventList.SortByTime` | acses-website/src/components/events/Events.jsx:28 | the result is sorted by instant and is a permutation of the input |
| `EventList.InsertAtTime` | acses-website/src/components/events/Events.jsx:28 | among the events at any one instant, the inserted element comes before those already present |
| `EventList.SortIsStable` | acses-website/src/components/events/Events.jsx:28 | for every instant, the events at that instant keep their relative order |
| `EventList.FutureEvents` | acses-website/src/components/events/Events.jsx:20-28 | `futureEvents` is date-sorted, holds only future events, and is a permutation of exactly the future events of the flattened list |
| `EventList.NextEvent` | acses-website/src/components/events/Events.jsx:30-31 | the head of `futureEvents`, if any; its properties are stated by `NextEventNone`, `NextEventIsEarliest` and `NextEventIsFirstListed` |
| `EventList.NextEventNone` | acses-website/src/components/events/Events.jsx:30-32 | there is no next event exactly when no flattened event lies in the future |
| `EventList.NextEventIsEarliest` | acses-website/src/components/events/Events.jsx:30-32 | the next event is a future event of the data whose date is no later than any other future event's |
| `EventList.NextEventIsFirstListed` | acses-website/src/components/events/Events.jsx:27-31 | the next event is at some position of the flattened data, and every future event before that position has a strictly later date |
| `EventList.FindDay` | acses-website/src/components/events/Events.jsx:38 | `find` returns the first entry whose date equals the key, or nothing when no entry matches |
| `EventList.SelectedDateEvents` | acses-website/src/components/events/Events.jsx:35-43 | an invalid date gives `[]`; a valid date gives exactly the event list of the first entry whose date equals its `dd-MM-yyyy` rendering, or `[]` when there is none |
| `EventList.LaterEntriesIgnored` | acses-website/src/components/events/Events.jsx:38 | appending entries after a matching entry does not change what a date selects |
| `EventList.DayKeysAgree` | acses-website/src/components/events/Events.jsx:20-38 | the events of the entry keyed by a date's calendar rendering are flattened with a date that parses as that same date, for years 1 to 9999 |
| `EventList.SliceTo` | acses-website/src/components/events/Events.jsx:150 | `slice(0, n)` is the prefix of length `n`, or the whole string when it is shorter |
| `EventList.Preview` | acses-website/src/components/events/Events.jsx:150 | a description of at most 85 characters is shown unchanged; a longer one is shown as its first 85 characters and `...`; at most 88 characters are ever shown |
| `EventList.PreviewIdempotent` | acses-website/src/components/events/Events.jsx:150 | shortening an already shortened description changes nothing |
| `EventsView.EventsSection.constructor` | acses-website/src/components/events/Events.jsx:10-12 | no date events, no next event and no selected event initially |
| `EventsView.EventsSection.Mount` | acses-website/src/components/events/Events.jsx:14-33 | the effect stores the next event when there is one; otherwise `nextEvent` keeps its value; nothing else changes |
| `EventsView.EventsSection.HandleDateSelect` | acses-website/src/components/events/Events.jsx:35-43 | `selectedDateEvents` becomes the selection for the picked date; nothing else changes |
| `EventsView.EventsSection.HandleViewDetails` | acses-website/src/components/events/Events.jsx:45-47 | `selectedEvent` becomes the event; nothing else changes |
| `EventsView.EventsSection.CloseDetails` | acses-website/src/components/events/Events.jsx:192-196 | `selectedEvent` is cleared; nothing else changes |
| `EventsView.MountFresh` | acses-website/src/components/events/Events.jsx:10-33 | after mounting, the banner shows the next event, or nothing exactly when no event is in the future; no date list and no modal |
| `EventsView.ViewThenClose` | acses-website/src/components/events/Events.jsx:45-196 | from a closed modal, opening the modal and closing it leaves the section as it was |

## Left out

- Rendering: the JSX, Tailwind classes and framer-motion animations (Events.jsx:49-199) are presentational. The only piece with logic, the description preview, is modelled.
- `window.open(nextEvent.link, "_blank")` (Events.jsx:107) is browser I/O.
- The `Calendar` and `EventCard` components and the `../../data/events` dataset are not part of this model. The dataset is the `days` parameter. The calendar's choice is an `Option<Date>`, with `None` for an invalid date.
- React scheduling: the effect is one `Mount(now)` step, and the clock is the `now` parameter.
- `Calendar.ParseISO`: `parseISO` is modelled only for `yyyy-MM-dd` with a four-digit year and two-digit month and day. Other ISO forms count as invalid: extended `+yyyyyy` years, week dates, ordinal dates, and strings with a time part.
- `Calendar.IsFuture`: date-fns reads the clock once per event inside the filter. The model uses one `now` for the whole filter, so a midnight passing while the filter runs is not captured.
- `Calendar.StartOfDay`: time zones and daylight saving are not modelled. Every local day is 24 hours, and midnight of a date is its day number times 86,400,000 ms.
- `Calendar.FormatDMY`: the calendar's date is its local year, month and day. Years before year 0 are not modelled. Years are natural numbers, and year 0 is written as era year `0001`, as date-fns does. The round trip from a calendar date to its ISO date holds only for years 1 to 9999. Year 0 renders with the same key as the matching year-1 date, so it selects the same day entry, and that entry's events parse as year-1 dates. A five-digit year gives an ISO string of 11 characters, which `parseISO` rejects: such an entry is still found by the date lookup, but its events never parse and so never become the next event.
- `EventList.Preview`: JavaScript strings count UTF-16 code units. The model counts Dafny characters, so a description with characters outside the Basic Multilingual Plane may be cut at a different place.
- Event objects carry a fixed set of fields (`id`, `title`, `date`, `time`, `location`, `description`, `link`). Any other fields the spread would copy are not modelled.
- `XLogo.jsx` has no computable behaviour. It is a static SVG whose two hover handlers both set the fill to black.
