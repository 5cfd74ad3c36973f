/**
  * Calendar dates and the parts of date-fns the events component relies
  * on: `parseISO` of a `yyyy-MM-dd` string, `isFuture`, and `format` with
  * the pattern `dd-MM-yyyy`. A date is its local calendar fields; time is
  * counted in milliseconds on the local time line whose zero is the
  * midnight starting 0000-01-01 (proleptic Gregorian calendar).
  */
module Calendar {
  import opened Options
  import opened Decimal
  import opened DateText

  datatype Date = Date(year: nat, month: nat, day: nat)

  predicate IsLeapYear(y: nat) {
    y % 4 == 0 && (y % 100 != 0 || y % 400 == 0)
  }

  function DaysInYear(y: nat): nat {
    if IsLeapYear(y) then 366 else 365
  }

  function DaysInMonth(y: nat, m: nat): nat
    requires 1 <= m <= 12
  {
    if m == 2 then (if IsLeapYear(y) then 29 else 28)
    else if m == 4 || m == 6 || m == 9 || m == 11 then 30
    else 31
  }

  /** A real day of the calendar; what date-fns's `validateDate` accepts. */
  predicate ValidDate(d: Date) {
    1 <= d.month <= 12 && 1 <= d.day <= DaysInMonth(d.year, d.month)
  }

  /** Days from 0000-01-01 up to the first day of year `y`. */
  function DaysBeforeYear(y: nat): nat {
    if y == 0 then 0 else DaysBeforeYear(y - 1) + DaysInYear(y - 1)
  }

  /** Days from the first of January of `y` up to the first day of month `m`. */
  function DaysBeforeMonth(y: nat, m: nat): nat
    requires 1 <= m <= 12
  {
    var common :=
      if m == 1 then 0 else if m == 2 then 31 else if m == 3 then 59
      else if m == 4 then 90 else if m == 5 then 120 else if m == 6 then 151
      else if m == 7 then 181 else if m == 8 then 212 else if m == 9 then 243
      else if m == 10 then 273 else if m == 11 then 304 else 334;
    if IsLeapYear(y) && m > 2 then common + 1 else common
  }

  /** The number of days from 0000-01-01 to `d`. */
  function DayNumber(d: Date): nat
    requires ValidDate(d)
  {
    DaysBeforeYear(d.year) + DaysBeforeMonth(d.year, d.month) + d.day - 1
  }

  const MsPerDay: nat := 86_400_000

  /** The instant of the midnight that starts `d`: what `parseISO` returns for it. */
  function StartOfDay(d: Date): int
    requires ValidDate(d)
  {
    DayNumber(d) * MsPerDay
  }

  /** `a` is an earlier calendar day than `b`: year, then month, then day. */
  predicate DateBefore(a: Date, b: Date) {
    a.year < b.year
    || (a.year == b.year && a.month < b.month)
    || (a.year == b.year && a.month == b.month && a.day < b.day)
  }

  /** A month ends no later than the next month starts, and no later than the year ends. */
  lemma MonthsFit(y: nat, m1: nat, m2: nat)
    requires 1 <= m1 <= 12
    ensures DaysBeforeMonth(y, m1) + DaysInMonth(y, m1) <= DaysInYear(y)
    ensures m1 < m2 <= 12 ==> DaysBeforeMonth(y, m1) + DaysInMonth(y, m1) <= DaysBeforeMonth(y, m2)
  {
  }

  /** A year ends no later than any later year starts. */
  lemma {:induction false} YearsFit(y1: nat, y2: nat)
    requires y1 < y2
    ensures DaysBeforeYear(y1) + DaysInYear(y1) <= DaysBeforeYear(y2)
    decreases y2
  {
    if y1 < y2 - 1 {
      YearsFit(y1, y2 - 1);
    }
  }

  /** On valid dates, an earlier day number is exactly an earlier calendar day. */
  lemma {:induction false} ChronologicalOrder(a: Date, b: Date)
    requires ValidDate(a) && ValidDate(b)
    ensures DayNumber(a) < DayNumber(b) <==> DateBefore(a, b)
  {
    if DateBefore(a, b) {
      EarlierDayNumber(a, b);
    } else if a != b {
      EarlierDayNumber(b, a);
    }
  }

  lemma EarlierDayNumber(a: Date, b: Date)
    requires ValidDate(a) && ValidDate(b) && DateBefore(a, b)
    ensures DayNumber(a) < DayNumber(b)
  {
    MonthsFit(a.year, a.month, b.month);
    if a.year < b.year {
      YearsFit(a.year, b.year);
    }
  }

  /** date-fns `isFuture` of the midnight that starts `d`, at instant `now`. */
  predicate IsFuture(d: Date, now: int)
    requires ValidDate(d)
  {
    StartOfDay(d) > now
  }

  /**
    * While `now` lies within the day `today`, a date is in the future
    * exactly when it is a later calendar day; `today` itself is not.
    */
  lemma {:induction false} FutureMeansAfterToday(d: Date, today: Date, now: int)
    requires ValidDate(d) && ValidDate(today)
    requires StartOfDay(today) <= now < StartOfDay(today) + MsPerDay
    ensures IsFuture(d, now) <==> DateBefore(today, d)
    ensures !IsFuture(today, now)
  {
    ChronologicalOrder(today, d);
    if DayNumber(today) < DayNumber(d) {
      assert StartOfDay(d) >= StartOfDay(today) + MsPerDay;
    } else {
      assert StartOfDay(d) <= StartOfDay(today);
    }
  }

  /**
    * `parseISO` of a calendar date `yyyy-MM-dd`: four, two and two digits,
    * and a day that exists; anything else is an invalid date.
    */
  function ParseISO(s: string): (r: Option<Date>)
    ensures r.Some? ==> ValidDate(r.value) && r.value.year < 10000
    ensures r.Some? ==> |s| == 10 && s[4] == '-' && s[7] == '-'
  {
    if |s| == 10 && s[4] == '-' && s[7] == '-'
       && AllDigits(s[..4]) && AllDigits(s[5..7]) && AllDigits(s[8..])
    then
      assert Pow10(4) == 10000;
      var d := Date(Value(s[..4]), Value(s[5..7]), Value(s[8..]));
      if ValidDate(d) then Some(d) else None
    else None
  }

  /** The canonical `yyyy-MM-dd` text of a date. */
  function IsoText(d: Date): string {
    AddLeadingZeros(d.year, 4) + "-" + AddLeadingZeros(d.month, 2) + "-" + AddLeadingZeros(d.day, 2)
  }

  /** A string that parses is the canonical text of the date it parses to. */
  lemma ParseISOReadsDigits(s: string)
    ensures ParseISO(s).Some? ==> s == IsoText(ParseISO(s).value)
  {
    if ParseISO(s).Some? {
      var yyyy, mm, dd := s[..4], s[5..7], s[8..];
      AddLeadingZerosOfValue(yyyy);
      AddLeadingZerosOfValue(mm);
      AddLeadingZerosOfValue(dd);
      assert s == yyyy + "-" + mm + "-" + dd;
    }
  }

  /** For a valid date with a four-digit year, `parseISO` gives it for its canonical text and for no other string. */
  lemma ParseISOExact(s: string, d: Date)
    requires ValidDate(d) && d.year < 10000
    ensures ParseISO(s) == Some(d) <==> s == IsoText(d)
  {
    ParseISOReadsDigits(s);
    assert Pow10(2) == 100 && Pow10(4) == 10000;
    if s == IsoText(d) {
      ParseIsoFields(AddLeadingZeros(d.year, 4), AddLeadingZeros(d.month, 2), AddLeadingZeros(d.day, 2));
    }
  }

  /** `parseISO` gives an invalid date exactly for strings that are no valid date's canonical text. */
  lemma ParseISONone(s: string)
    ensures ParseISO(s).None? <==> forall d :: ValidDate(d) && d.year < 10000 ==> s != IsoText(d)
  {
    ParseISOReadsDigits(s);
    if ParseISO(s).None? {
      forall d | ValidDate(d) && d.year < 10000 ensures s != IsoText(d) {
        ParseISOExact(s, d);
      }
    }
  }

  /** The year `format` writes for `yyyy`: the year of the era, so year 0 is 1 BC. */
  function EraYear(y: nat): (e: nat)
    ensures e >= 1
    ensures y >= 1 ==> e == y
  {
    if y > 0 then y else 1 - y
  }

  /** date-fns `format(date, "dd-MM-yyyy")`. */
  function FormatDMY(d: Date): (s: string)
    ensures ValidDate(d) && d.year <= 9999 ==> |s| == 10 && s[2] == '-' && s[5] == '-'
  {
    assert Pow10(2) == 100 && Pow10(4) == 10000;
    AddLeadingZeros(d.day, 2) + "-" + AddLeadingZeros(d.month, 2) + "-" + AddLeadingZeros(EraYear(d.year), 4)
  }

  lemma DigitsAreDashFree(s: string)
    requires AllDigits(s)
    ensures DashFree(s)
  {
    forall i | 0 <= i < |s| ensures s[i] != '-' {
      assert IsDigit(s[i]);
    }
  }

  /** `parseISO` reads the digit fields of `yyyy-MM-dd` as year, month and day. */
  lemma {:induction false} ParseIsoFields(yyyy: string, mm: string, dd: string)
    requires AllDigits(yyyy) && AllDigits(mm) && AllDigits(dd)
    requires |yyyy| == 4 && |mm| == 2 && |dd| == 2
    requires ValidDate(Date(Value(yyyy), Value(mm), Value(dd)))
    ensures ParseISO(yyyy + "-" + mm + "-" + dd) == Some(Date(Value(yyyy), Value(mm), Value(dd)))
  {
    var iso := yyyy + "-" + mm + "-" + dd;
    assert |iso| == 10 && iso[4] == '-' && iso[7] == '-';
    assert iso[..4] == yyyy;
    assert iso[5..7] == mm;
    assert iso[8..] == dd;
  }

  /**
    * The calendar rendering of a date, put through `formatDateToISO`, is
    * parsed by `parseISO` back into the same date: the day entries keyed by
    * `dd-MM-yyyy` and the next-event pipeline agree on which day they mean.
    */
  lemma {:induction false} FormatThenParse(d: Date)
    requires ValidDate(d) && 1 <= d.year <= 9999
    ensures ParseISO(FormatDateToISO(FormatDMY(d))) == Some(d)
  {
    assert Pow10(2) == 100 && Pow10(4) == 10000;
    var dd, mm, yyyy := AddLeadingZeros(d.day, 2), AddLeadingZeros(d.month, 2), AddLeadingZeros(EraYear(d.year), 4);
    assert FormatDMY(d) == dd + "-" + mm + "-" + yyyy;
    DigitsAreDashFree(dd);
    DigitsAreDashFree(mm);
    DigitsAreDashFree(yyyy);
    FormatDateToISOSwaps(dd, mm, yyyy);
    ParseIsoFields(yyyy, mm, dd);
  }
}
