/** The date/time helpers of the event form and its submission gate:
    composing a calendar date and a clock time into a local `YYYY-MM-DDTHH:MM`
    string, reading such a string back, and the ordered checks run before an
    event is sent for saving. */
module EventTime {
  import opened Decimal

  datatype Option<T> = None | Some(value: T)

  /** A JavaScript Date as seen through its local-time getters:
      getFullYear, getMonth (0-based), getDate, getHours, getMinutes,
      getSeconds, getMilliseconds. */
  datatype Moment = Moment(year: int, month0: nat, day: nat, hour: nat, minute: nat, second: nat, millis: nat)

  predicate IsLeapYear(y: int)
  {
    y % 4 == 0 && (y % 100 != 0 || y % 400 == 0)
  }

  function DaysInMonth(y: int, month0: nat): (n: nat)
    requires month0 < 12
    ensures 28 <= n <= 31
  {
    if month0 == 1 then (if IsLeapYear(y) then 29 else 28)
    else if month0 == 3 || month0 == 5 || month0 == 8 || month0 == 10 then 30
    else 31
  }

  /** The values a Date's getters can return. */
  predicate ValidMoment(m: Moment)
  {
    m.month0 < 12 && 1 <= m.day <= DaysInMonth(m.year, m.month0) &&
    m.hour < 24 && m.minute < 60 && m.second < 60 && m.millis < 1000
  }

  /** `a < b` on two Dates: the earlier instant, read as the lexicographic
      order of the local calendar fields. */
  predicate Before(a: Moment, b: Moment)
  {
    if a.year != b.year then a.year < b.year
    else if a.month0 != b.month0 then a.month0 < b.month0
    else if a.day != b.day then a.day < b.day
    else if a.hour != b.hour then a.hour < b.hour
    else if a.minute != b.minute then a.minute < b.minute
    else if a.second != b.second then a.second < b.second
    else a.millis < b.millis
  }

  /** Date comparison is a strict total order: irreflexive, asymmetric,
      transitive, and any two different moments are ordered one way. */
  lemma BeforeIsStrictTotalOrder(a: Moment, b: Moment, c: Moment)
    ensures !Before(a, a)
    ensures Before(a, b) ==> !Before(b, a)
    ensures Before(a, b) && Before(b, c) ==> Before(a, c)
    ensures a != b ==> Before(a, b) || Before(b, a)
  {
  }

  /** The calendar day of a lies before the calendar day of b. */
  predicate DayBefore(a: Moment, b: Moment)
  {
    a.year < b.year ||
    (a.year == b.year && (a.month0 < b.month0 || (a.month0 == b.month0 && a.day < b.day)))
  }

  /** `new Date(t.getFullYear(), t.getMonth(), t.getDate())`: local midnight of t's day. */
  function StartOfDay(t: Moment): (r: Moment)
    ensures ValidMoment(t) ==> ValidMoment(r) && !Before(t, r)
    ensures r.year == t.year && r.month0 == t.month0 && r.day == t.day
    ensures r.hour == 0 && r.minute == 0 && r.second == 0 && r.millis == 0
  {
    Moment(t.year, t.month0, t.day, 0, 0, 0, 0)
  }

  /** toTimeString: hours and minutes of a date, each zero-padded to two
      digits and joined by ':'; "" exactly when there is no date. The shape and
      read-back of the result are ToTimeStringRoundTrip. */
  function ToTimeString(date: Option<Moment>): (r: string)
    ensures r == "" <==> date.None?
  {
    match date
    case None => ""
    case Some(m) => Pad2(m.hour) + ":" + Pad2(m.minute)
  }

  /** The date half of a composed value: year unpadded, then month (getMonth() + 1)
      and day, each zero-padded to two digits, joined by '-'. */
  function DatePart(m: Moment): string
  {
    IntToString(m.year) + "-" + Pad2(m.month0 + 1) + "-" + Pad2(m.day)
  }

  /** formatForSubmission: "" when the date is missing or the time string is
      empty, otherwise the date part, 'T', and the time string unchanged. */
  function FormatForSubmission(date: Option<Moment>, timeStr: string): (r: string)
    ensures r == "" <==> date.None? || timeStr == ""
    ensures r != "" ==>
      |r| > |timeStr| && r[|r| - |timeStr|..] == timeStr && r[|r| - |timeStr| - 1] == 'T'
  {
    if date.None? || timeStr == "" then "" else DatePart(date.value) + "T" + timeStr
  }

  datatype Clock = Clock(hour: nat, minute: nat)

  datatype CalendarDay = CalendarDay(year: int, month0: nat, day: nat)

  /** Reads `HH:MM` (24-hour clock). */
  function ParseClock(s: string): (r: Option<Clock>)
    ensures r.Some? ==> r.value.hour < 24 && r.value.minute < 60
  {
    if |s| == 5 && AllDigits(s[..2]) && s[2] == ':' && AllDigits(s[3..]) then
      var h, mi := DecimalValue(s[..2]), DecimalValue(s[3..]);
      if h < 24 && mi < 60 then Some(Clock(h, mi)) else None
    else None
  }

  /** Reads `YYYY-MM-DD` with a four-digit year and an existing day of that month. */
  function ParseDate(s: string): (r: Option<CalendarDay>)
    ensures r.Some? ==> r.value.month0 < 12 && 1 <= r.value.day <= DaysInMonth(r.value.year, r.value.month0)
  {
    if |s| == 10 && AllDigits(s[..4]) && s[4] == '-' && AllDigits(s[5..7]) && s[7] == '-' && AllDigits(s[8..]) then
      var y, mo, d := DecimalValue(s[..4]), DecimalValue(s[5..7]), DecimalValue(s[8..]);
      if 1 <= mo <= 12 && 1 <= d <= DaysInMonth(y, mo - 1) then Some(CalendarDay(y, mo - 1, d)) else None
    else None
  }

  /** A date and a clock time put together, when both were read. */
  function Combine(d: Option<CalendarDay>, c: Option<Clock>): Option<Moment>
  {
    match (d, c)
    case (Some(d), Some(c)) => Some(Moment(d.year, d.month0, d.day, c.hour, c.minute, 0, 0))
    case _ => None
  }

  /** `new Date(s)` for a local date-time string `YYYY-MM-DDTHH:MM`; None stands
      for a Date whose getTime() is NaN. */
  function ParseLocal(s: string): (r: Option<Moment>)
    ensures r.Some? ==> ValidMoment(r.value) && r.value.second == 0 && r.value.millis == 0
    ensures r.Some? ==> |s| == 16
  {
    if |s| == 16 && s[10] == 'T' then Combine(ParseDate(s[..10]), ParseClock(s[11..])) else None
  }

  /** The time string of a date is `HH:MM`, exactly five characters, and
      reading it back gives the date's hours and minutes. */
  lemma ToTimeStringRoundTrip(m: Moment)
    requires ValidMoment(m)
    ensures |ToTimeString(Some(m))| == 5
    ensures ParseClock(ToTimeString(Some(m))) == Some(Clock(m.hour, m.minute))
  {
    TwoDigits(m.hour);
    TwoDigits(m.minute);
    var s := ToTimeString(Some(m));
    assert s[..2] == Pad2(m.hour);
    assert s[3..] == Pad2(m.minute);
  }

  /** The date part of a date with a four-digit year reads back as that date. */
  lemma DatePartRoundTrip(m: Moment)
    requires ValidMoment(m) && 1000 <= m.year <= 9999
    ensures |DatePart(m)| == 10
    ensures ParseDate(DatePart(m)) == Some(CalendarDay(m.year, m.month0, m.day))
  {
    var ys, ms, ds := NatToString(m.year), Pad2(m.month0 + 1), Pad2(m.day);
    FourDigits(m.year);
    NatToStringRoundTrip(m.year);
    TwoDigits(m.month0 + 1);
    TwoDigits(m.day);
    assert DatePart(m) == ys + "-" + ms + "-" + ds;
    ReadDate(ys, ms, ds);
  }

  /** Reading a date part back field by field. */
  lemma ReadDate(ys: string, ms: string, ds: string)
    requires |ys| == 4 && |ms| == 2 && |ds| == 2
    requires AllDigits(ys) && AllDigits(ms) && AllDigits(ds)
    ensures var s := ys + "-" + ms + "-" + ds;
      |s| == 10 && s[..4] == ys && s[4] == '-' && s[5..7] == ms && s[7] == '-' && s[8..] == ds
  {
  }

  /** A year field that is not four digits (a sign in front, fewer than four
      characters before the '-', or a fifth digit where the '-' belongs) makes
      the whole value unreadable. */
  lemma UnreadableYearField(ys: string, s: string)
    requires ys != [] && |ys| < |s| && s[..|ys|] == ys && s[|ys|] == '-'
    requires ys[0] == '-' || |ys| < 4 || (|ys| > 4 && IsDigit(ys[4]))
    ensures ParseLocal(s) == None
  {
    if |s| == 16 {
      var p := s[..10];
      if ys[0] == '-' {
        assert p[..4][0] == s[0] == '-';
      } else if |ys| < 4 {
        assert p[..4][|ys|] == '-';
      } else {
        assert p[4] == ys[4];
      }
    }
  }

  /** The text of a year outside 1000..9999 starts with a sign, is shorter
      than four characters, or has a digit in fifth place. */
  lemma YearTextNotFourDigits(y: int)
    requires !(1000 <= y <= 9999)
    ensures var ys := IntToString(y);
      ys[0] == '-' || |ys| < 4 || (|ys| > 4 && IsDigit(ys[4]))
  {
    if y >= 0 {
      FourDigits(y);
    }
  }

  /** A date whose year is not four digits long never yields a readable date part. */
  lemma DatePartUnreadable(m: Moment, rest: string)
    requires !(1000 <= m.year <= 9999)
    ensures ParseLocal(DatePart(m) + rest) == None
  {
    var ys := IntToString(m.year);
    var s := DatePart(m) + rest;
    assert s[..|ys|] == ys && s[|ys|] == '-';
    YearTextNotFourDigits(m.year);
    UnreadableYearField(ys, s);
  }

  /** A ten-character date part, 'T' and a time string read back field by field. */
  lemma ReadComposed(d: string, timeStr: string)
    requires |d| == 10
    ensures ParseLocal(d + "T" + timeStr) == Combine(ParseDate(d), ParseClock(timeStr))
  {
    var s := d + "T" + timeStr;
    assert s[..10] == d;
    assert s[11..] == timeStr;
  }

  /** A four-digit year: the composed value reads back as the date's day
      with whatever the time string reads as. */
  lemma ComposeFourDigitYear(m: Moment, timeStr: string)
    requires ValidMoment(m) && 1000 <= m.year <= 9999 && timeStr != ""
    ensures ParseLocal(FormatForSubmission(Some(m), timeStr)) ==
      Combine(Some(CalendarDay(m.year, m.month0, m.day)), ParseClock(timeStr))
  {
    var d := DatePart(m);
    assert FormatForSubmission(Some(m), timeStr) == d + "T" + timeStr;
    DatePartRoundTrip(m);
    ReadComposed(d, timeStr);
  }

  /** Any other year: the composed value is unreadable. */
  lemma ComposeOtherYear(m: Moment, timeStr: string)
    requires !(1000 <= m.year <= 9999) && timeStr != ""
    ensures ParseLocal(FormatForSubmission(Some(m), timeStr)) == None
  {
    DatePartUnreadable(m, "T" + timeStr);
    assert FormatForSubmission(Some(m), timeStr) == DatePart(m) + ("T" + timeStr);
  }

  /** Composing a date and a time string, then reading the result back: the
      date's year, month and day with the time string's hours and minutes,
      exactly when the year has four digits and the time string is `HH:MM`. */
  lemma ComposeRoundTrip(m: Moment, timeStr: string)
    requires ValidMoment(m)
    ensures ParseLocal(FormatForSubmission(Some(m), timeStr)) ==
      if 1000 <= m.year <= 9999 && ParseClock(timeStr).Some? then
        Some(Moment(m.year, m.month0, m.day, ParseClock(timeStr).value.hour, ParseClock(timeStr).value.minute, 0, 0))
      else None
  {
    if timeStr == "" {
      assert FormatForSubmission(Some(m), timeStr) == "";
    } else if 1000 <= m.year <= 9999 {
      ComposeFourDigitYear(m, timeStr);
    } else {
      ComposeOtherYear(m, timeStr);
    }
  }

  /** The form's own pair: a picked date with the time string of a picked
      clock time reads back as that date at that hour and minute. */
  lemma ComposeWithTimeString(date: Moment, time: Moment)
    requires ValidMoment(date) && ValidMoment(time) && 1000 <= date.year <= 9999
    ensures ParseLocal(FormatForSubmission(Some(date), ToTimeString(Some(time)))) ==
      Some(Moment(date.year, date.month0, date.day, time.hour, time.minute, 0, 0))
  {
    ToTimeStringRoundTrip(time);
    ComposeRoundTrip(date, ToTimeString(Some(time)));
  }

  /** Why a submission was refused: the three alerts of the submit handler. */
  datatype Rejection = Invalid | EndBeforeStart | StartInPast

  datatype Verdict = Rejected(reason: Rejection) | Accepted(start: Moment, end: Moment)

  /** The ordered early-return checks of the submit handler on the two
      composed values: unreadable first, then end before start, then (only
      for a new event) start before now. */
  function ValidateSubmission(startsAt: string, endsAt: string, editing: bool, now: Moment): (v: Verdict)
    ensures v == Rejected(Invalid) <==> ParseLocal(startsAt).None? || ParseLocal(endsAt).None?
    ensures v == Rejected(EndBeforeStart) <==>
      ParseLocal(startsAt).Some? && ParseLocal(endsAt).Some? &&
      Before(ParseLocal(endsAt).value, ParseLocal(startsAt).value)
    ensures v == Rejected(StartInPast) <==>
      ParseLocal(startsAt).Some? && ParseLocal(endsAt).Some? &&
      !Before(ParseLocal(endsAt).value, ParseLocal(startsAt).value) &&
      !editing && Before(ParseLocal(startsAt).value, now)
    ensures v.Accepted? ==>
      Some(v.start) == ParseLocal(startsAt) && Some(v.end) == ParseLocal(endsAt) &&
      !Before(v.end, v.start) && (editing || !Before(v.start, now))
  {
    var start, end := ParseLocal(startsAt), ParseLocal(endsAt);
    if start.None? || end.None? then Rejected(Invalid)
    else if Before(end.value, start.value) then Rejected(EndBeforeStart)
    else if !editing && Before(start.value, now) then Rejected(StartInPast)
    else Accepted(start.value, end.value)
  }

  /** An incomplete side (no date, or no time) always blocks submission as invalid,
      whatever the other checks would say. */
  lemma IncompleteIsInvalid(startDate: Option<Moment>, startTime: string,
                            endDate: Option<Moment>, endTime: string, editing: bool, now: Moment)
    requires startDate.None? || startTime == "" || endDate.None? || endTime == ""
    ensures ValidateSubmission(FormatForSubmission(startDate, startTime),
                               FormatForSubmission(endDate, endTime), editing, now) == Rejected(Invalid)
  {
  }

  /** When an existing event is edited, the clock plays no part in the verdict. */
  lemma EditingIgnoresNow(startsAt: string, endsAt: string, now1: Moment, now2: Moment)
    ensures ValidateSubmission(startsAt, endsAt, true, now1) == ValidateSubmission(startsAt, endsAt, true, now2)
    ensures ValidateSubmission(startsAt, endsAt, true, now1) != Rejected(StartInPast)
  {
  }

  /** The date part of March 5th, 2024. */
  lemma March5th2024(m: Moment)
    requires m.year == 2024 && m.month0 == 2 && m.day == 5
    ensures DatePart(m) == "2024-03-05"
  {
    assert NatToString(2024) == "2024";
    assert Pad2(3) == "03" && Pad2(5) == "05";
  }

  /** March 5th, 2024 at "09:05" composes to `2024-03-05T09:05`. */
  lemma ExampleCompose(m: Moment)
    requires m.year == 2024 && m.month0 == 2 && m.day == 5
    ensures FormatForSubmission(Some(m), "09:05") == "2024-03-05T09:05"
  {
    var d := DatePart(m);
    assert FormatForSubmission(Some(m), "09:05") == d + "T" + "09:05";
    March5th2024(m);
    assert d + "T" + "09:05" == "2024-03-05T09:05";
  }

  /** Two times picked on the same day, the end's clock time earlier than the
      start's: the submission is refused as end-before-start, whatever the clock
      says and whether or not an event is being edited. */
  lemma SameDayEarlierEndRefused(date: Moment, startTime: Moment, endTime: Moment, editing: bool, now: Moment)
    requires ValidMoment(date) && ValidMoment(startTime) && ValidMoment(endTime)
    requires 1000 <= date.year <= 9999
    requires endTime.hour < startTime.hour || (endTime.hour == startTime.hour && endTime.minute < startTime.minute)
    ensures ValidateSubmission(FormatForSubmission(Some(date), ToTimeString(Some(startTime))),
                               FormatForSubmission(Some(date), ToTimeString(Some(endTime))),
                               editing, now) == Rejected(EndBeforeStart)
  {
    ComposeWithTimeString(date, startTime);
    ComposeWithTimeString(date, endTime);
  }

  /** The boundaries pass: an end equal to the start, and a start equal to
      now, are both accepted, also for a new event. */
  lemma BoundariesAccepted(startsAt: string, endsAt: string, editing: bool, now: Moment)
    requires ParseLocal(startsAt) == Some(now) && ParseLocal(endsAt) == Some(now)
    ensures ValidateSubmission(startsAt, endsAt, editing, now) == Accepted(now, now)
  {
    assert !Before(now, now);
  }

  /** A readable, ordered interval that starts before now may be saved
      when editing an event, but not when creating one. */
  lemma PastIntervalOnlyWhenEditing(startsAt: string, endsAt: string, now: Moment)
    requires ParseLocal(startsAt).Some? && ParseLocal(endsAt).Some?
    requires !Before(ParseLocal(endsAt).value, ParseLocal(startsAt).value)
    requires Before(ParseLocal(startsAt).value, now)
    ensures ValidateSubmission(startsAt, endsAt, true, now).Accepted?
    ensures ValidateSubmission(startsAt, endsAt, false, now) == Rejected(StartInPast)
  {
  }
}
