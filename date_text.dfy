/**
  * Text handling of the day-grouped event data: JavaScript's `split("-")`
  * and the `formatDateToISO` helper, which turns a `dd-MM-yyyy` date
  * string into `yyyy-MM-dd` by swapping the first and third field.
  */
module DateText {

  /** A string holding no '-'; every field `split("-")` yields is one. */
  predicate DashFree(s: string) {
    forall i :: 0 <= i < |s| ==> s[i] != '-'
  }

  /**
    * `s.split("-")`: the pieces between the dashes, empty pieces
    * included, so the empty string splits into one empty field.
    */
  function Split(s: string): (fields: seq<string>)
    ensures |fields| >= 1
    ensures forall i :: 0 <= i < |fields| ==> DashFree(fields[i])
    decreases |s|
  {
    if s == [] then [""]
    else if s[0] == '-' then [""] + Split(s[1..])
    else
      var rest := Split(s[1..]);
      [[s[0]] + rest[0]] + rest[1..]
  }

  /** A string with `n` dashes splits into `n + 1` fields. */
  lemma {:induction false} SplitFieldCount(s: string)
    ensures |Split(s)| == multiset(s)['-'] + 1
    decreases |s|
  {
    if s != [] {
      SplitFieldCount(s[1..]);
      assert s == [s[0]] + s[1..];
    }
  }

  /** `fields.join("-")`, the inverse of `Split`. */
  function Join(fields: seq<string>): string
    requires |fields| >= 1
  {
    if |fields| == 1 then fields[0] else fields[0] + "-" + Join(fields[1..])
  }

  /** Splitting a dash-free prefix glued to `t` extends the first field of `t`. */
  lemma {:induction false} SplitDashFreePrefix(a: string, t: string)
    requires DashFree(a)
    ensures Split(a + t) == [a + Split(t)[0]] + Split(t)[1..]
    decreases |a|
  {
    if a == [] {
      assert a + t == t;
      assert a + Split(t)[0] == Split(t)[0];
    } else {
      assert (a + t)[0] == a[0];
      assert (a + t)[1..] == a[1..] + t;
      SplitDashFreePrefix(a[1..], t);
      assert [a[0]] + (a[1..] + Split(t)[0]) == a + Split(t)[0];
    }
  }

  /** Joining dash-free fields and splitting again gives the fields back. */
  lemma {:induction false} SplitJoin(fields: seq<string>)
    requires |fields| >= 1
    requires forall i :: 0 <= i < |fields| ==> DashFree(fields[i])
    ensures Split(Join(fields)) == fields
    decreases |fields|
  {
    if |fields| == 1 {
      SplitDashFreePrefix(fields[0], "");
      assert fields[0] + "" == fields[0];
    } else {
      var tail := Join(fields[1..]);
      SplitJoin(fields[1..]);
      SplitDashFreePrefix(fields[0], "-" + tail);
      assert ("-" + tail)[0] == '-' && ("-" + tail)[1..] == tail;
      assert Split("-" + tail) == [""] + fields[1..];
      assert fields[0] + "-" + tail == fields[0] + ("-" + tail);
      assert fields[0] + "" == fields[0];
      assert fields == [fields[0]] + fields[1..];
    }
  }

  /** Splitting a string and joining the fields again gives the string back. */
  lemma {:induction false} JoinSplit(s: string)
    ensures Join(Split(s)) == s
    decreases |s|
  {
    if s != [] {
      var rest := Split(s[1..]);
      JoinSplit(s[1..]);
      if s[0] == '-' {
        assert Split(s) == [""] + rest;
        JoinCons("", rest);
        assert Join(Split(s)) == "-" + s[1..];
      } else {
        assert Split(s) == [[s[0]] + rest[0]] + rest[1..];
        JoinExtendFirst([s[0]], rest);
        assert Join(Split(s)) == [s[0]] + s[1..];
      }
      assert s == [s[0]] + s[1..];
    }
  }

  /** `Join` of a field followed by more fields. */
  lemma {:induction false} JoinCons(a: string, fields: seq<string>)
    requires |fields| >= 1
    ensures Join([a] + fields) == a + "-" + Join(fields)
  {
    assert ([a] + fields)[1..] == fields;
  }

  /** Prepending text to the first field prepends it to the join. */
  lemma {:induction false} JoinExtendFirst(a: string, fields: seq<string>)
    requires |fields| >= 1
    ensures Join([a + fields[0]] + fields[1..]) == a + Join(fields)
  {
    var first := [a + fields[0]] + fields[1..];
    if |fields| > 1 {
      var tail := Join(fields[1..]);
      assert first[1..] == fields[1..];
      assert Join(first) == (a + fields[0]) + "-" + tail;
      assert Join(fields) == fields[0] + "-" + tail;
      assert (a + fields[0]) + "-" + tail == a + (fields[0] + "-" + tail);
    } else {
      assert |first| == 1;
    }
  }

  /** `Join` of three fields. */
  lemma Join3(a: string, b: string, c: string)
    ensures Join([a, b, c]) == a + "-" + b + "-" + c
  {
    assert [a, b, c][1..] == [b, c];
    assert [b, c][1..] == [c];
    assert Join([b, c]) == b + "-" + c;
  }

  /** What destructuring `[day, month, year]` reads at position `i`. */
  function Field(fields: seq<string>, i: nat): string {
    if i < |fields| then fields[i] else "undefined"
  }

  /**
    * `formatDateToISO`: the third, second and first dash field joined by
    * dashes; a missing field is interpolated as "undefined" and fields
    * after the third are dropped.
    */
  function FormatDateToISO(date: string): string {
    var fields := Split(date);
    Field(fields, 2) + "-" + Field(fields, 1) + "-" + Field(fields, 0)
  }

  /**
    * The ISO string has exactly three fields: the year, month and day
    * fields of the input, in that order.
    */
  lemma {:induction false} FormatDateToISOFields(date: string)
    ensures Split(FormatDateToISO(date)) == [Field(Split(date), 2), Field(Split(date), 1), Field(Split(date), 0)]
  {
    var fields := Split(date);
    var year, month, day := Field(fields, 2), Field(fields, 1), Field(fields, 0);
    assert DashFree("undefined");
    Join3(year, month, day);
    SplitJoin([year, month, day]);
  }

  /** `formatDateToISO` writes `year-month-day` from the fields `day-month-year`. */
  lemma {:induction false} FormatDateToISOSwaps(day: string, month: string, year: string)
    requires DashFree(day) && DashFree(month) && DashFree(year)
    ensures FormatDateToISO(day + "-" + month + "-" + year) == year + "-" + month + "-" + day
  {
    Join3(day, month, year);
    SplitJoin([day, month, year]);
  }

  /**
    * Applying `formatDateToISO` twice gives the original string back
    * exactly when the string has three dash-separated fields.
    */
  lemma {:induction false} FormatDateToISOTwice(date: string)
    ensures FormatDateToISO(FormatDateToISO(date)) == date <==> |Split(date)| == 3
  {
    var fields := Split(date);
    FormatDateToISOFields(date);
    FormatDateToISOFields(FormatDateToISO(date));
    if |fields| == 3 {
      JoinSplit(date);
      Join3(fields[0], fields[1], fields[2]);
      assert fields == [fields[0], fields[1], fields[2]];
    }
  }
}
