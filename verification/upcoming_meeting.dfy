/** The weekly-meeting card: the fixed meeting table, whether a meeting is
    live on the Kigali clock, which meeting comes next and how long until it
    starts, and the 12-hour time labels. */
module UpcomingMeeting {
  import opened Base
  import opened JsText
  import opened Calendar

  datatype MeetingType = FellowshipMeeting | PrayerMeeting

  /** One weekly meeting; `day` is 0 for Sunday through 6 for Saturday. */
  datatype Meeting = Meeting(
    id: string, name: string, day: int,
    startHour: int, endHour: int, endMinute: int, kind: MeetingType)

  /** `MEETINGS`. */
  const Meetings: seq<Meeting> := [
    Meeting("fellowship", "Sunday Fellowship", 0, 15, 17, 30, FellowshipMeeting),
    Meeting("prayer", "Friday Prayer", 5, 19, 21, 0, PrayerMeeting)
  ]

  /** The table's meetings fall on different weekdays, and each ends after
      it starts on the same day. */
  lemma MeetingsWellFormed()
    ensures forall i, j :: 0 <= i < j < |Meetings| ==> Meetings[i].day != Meetings[j].day
    ensures forall i :: 0 <= i < |Meetings| ==>
              0 <= Meetings[i].day < 7 &&
              0 <= Meetings[i].startHour * 60 < Meetings[i].endHour * 60 + Meetings[i].endMinute <= 24 * 60
  {
  }

  // ---------------------------------------------------------------------------
  // The Kigali clock
  // ---------------------------------------------------------------------------

  /** Kigali keeps UTC+2 all year. */
  const Kigali: Zone := Zone(2 * HourMs)

  /** A wall-clock reading: weekday and milliseconds since midnight. */
  datatype Reading = Reading(day: int, msOfDay: int)

  predicate ValidReading(r: Reading) {
    0 <= r.day < 7 && 0 <= r.msOfDay < DayMs
  }

  /** The Kigali weekday and time of day at `now`. */
  function ReadingAt(now: int): (r: Reading)
    ensures ValidReading(r)
    ensures r.day == Weekday(Kigali, now)
  {
    Reading(Weekday(Kigali, now), MsOfDay(Kigali, now))
  }

  function Hour(r: Reading): int {
    r.msOfDay / HourMs
  }

  function Minute(r: Reading): int {
    (r.msOfDay % HourMs) / MinuteMs
  }

  /** `currentHour * 60 + currentMinute`: the whole minutes since midnight. */
  function CurrentMinutes(r: Reading): (m: int)
    requires ValidReading(r)
    ensures m == r.msOfDay / MinuteMs
    ensures m * MinuteMs <= r.msOfDay < (m + 1) * MinuteMs
  {
    MinutesOfDay(r.msOfDay);
    Hour(r) * 60 + Minute(r)
  }

  lemma MinutesOfDay(ms: int)
    requires 0 <= ms
    ensures (ms / HourMs) * 60 + (ms % HourMs) / MinuteMs == ms / MinuteMs
  {
    var h := ms / HourMs;
    var x := ms % HourMs;
    var m := x / MinuteMs;
    var y := x % MinuteMs;
    assert ms == (h * 60 + m) * MinuteMs + y;
    DivideExactly(ms, h * 60 + m, y);
  }

  lemma DivideExactly(ms: int, q: int, y: int)
    requires ms == q * MinuteMs + y && 0 <= y < MinuteMs
    ensures ms / MinuteMs == q
  {
  }

  // ---------------------------------------------------------------------------
  // Live check
  // ---------------------------------------------------------------------------

  /** A meeting is live on its weekday from its start hour up to, not
      including, its end time. */
  predicate IsLive(m: Meeting, r: Reading): (b: bool)
    requires ValidReading(r)
    ensures b <==> r.day == m.day &&
                   m.startHour * HourMs <= r.msOfDay < (m.endHour * 60 + m.endMinute) * MinuteMs
  {
    r.day == m.day && m.startHour * 60 <= CurrentMinutes(r) < m.endHour * 60 + m.endMinute
  }

  /** The first live meeting of the list, or -1 (the source's first loop,
      which returns at the first live meeting). */
  function LiveIndex(ms: seq<Meeting>, r: Reading): (k: int)
    requires ValidReading(r)
    ensures -1 <= k < |ms|
    ensures k >= 0 ==> IsLive(ms[k], r) && forall j :: 0 <= j < k ==> !IsLive(ms[j], r)
    ensures k < 0 <==> forall j :: 0 <= j < |ms| ==> !IsLive(ms[j], r)
  {
    if |ms| == 0 then -1
    else if IsLive(ms[0], r) then 0
    else
      var k := LiveIndex(ms[1..], r);
      assert forall j :: 1 <= j < |ms| ==> ms[1..][j - 1] == ms[j];
      if k < 0 then -1 else k + 1
  }

  /** No two meetings of the table are live at once. */
  lemma AtMostOneLive(r: Reading, i: int, j: int)
    requires ValidReading(r)
    requires 0 <= i < |Meetings| && 0 <= j < |Meetings|
    requires IsLive(Meetings[i], r) && IsLive(Meetings[j], r)
    ensures i == j
  {
    MeetingsWellFormed();
  }

  // ---------------------------------------------------------------------------
  // Next meeting
  // ---------------------------------------------------------------------------

  /** Whole days from today to the meeting's weekday, 0 to 6, except 7 when
      it is today but the current minute is already past its start. */
  function DaysUntil(m: Meeting, r: Reading): (d: int)
    requires ValidReading(r)
    ensures 0 <= m.day < 7 ==> 0 <= d <= 7 && (r.day + d) % 7 == m.day
    ensures 0 <= m.day < 7 ==> (d == 7 <==> r.day == m.day && CurrentMinutes(r) > m.startHour * 60)
    ensures 0 <= m.day < 7 && d < 7 ==> d == (m.day - r.day) % 7
  {
    var d := m.day - r.day;
    var d' := if d < 0 then d + 7 else d;
    if d' == 0 && CurrentMinutes(r) > m.startHour * 60 then 7 else d'
  }

  /** `meetingDate - kigaliTime` in milliseconds: the meeting's start hour
      on the day `DaysUntil` days ahead, minus the time now. It is the next
      start: within the start minute itself it is zero or slightly negative,
      since the source only moves on a week once the current minute is past
      the start. */
  function TimeUntil(m: Meeting, r: Reading): (t: int)
    requires ValidReading(r)
    ensures 0 <= m.day < 7 && 0 <= m.startHour < 24 ==> NextStart(r, t, m.day, m.startHour)
  {
    var d := DaysUntil(m, r);
    var t := d * DayMs + m.startHour * HourMs - r.msOfDay;
    if 0 <= m.day < 7 && 0 <= m.startHour < 24 then
      NextStartOf(m, r, d, t);
      t
    else
      t
  }

  /** `t` leads from reading `r` to the next start at `hour` o'clock on
      weekday `day`: it lands there, it lies in a window one week long that
      ends a minute short of a week, and it is not positive exactly when
      the reading is inside that start minute. */
  predicate NextStart(r: Reading, t: int, day: int, hour: int)
    requires ValidReading(r)
  {
    && LandsOn(r, t, day, hour)
    && -MinuteMs < t <= 7 * DayMs - MinuteMs
    && (t <= 0 <==> r.day == day && CurrentMinutes(r) == hour * 60)
  }

  lemma NextStartOf(m: Meeting, r: Reading, d: int, t: int)
    requires ValidReading(r) && 0 <= m.day < 7 && 0 <= m.startHour < 24
    requires d == DaysUntil(m, r)
    requires t == d * DayMs + m.startHour * HourMs - r.msOfDay
    ensures NextStart(r, t, m.day, m.startHour)
  {
    DayAndTime(d, m.startHour * HourMs);
    var c := CurrentMinutes(r);
    if d == 7 {
      assert c >= m.startHour * 60 + 1;
      assert r.msOfDay >= m.startHour * HourMs + MinuteMs;
    } else if d == 0 {
      assert c <= m.startHour * 60;
    } else {
      assert d * DayMs >= DayMs;
    }
  }

  /** Only one offset in the window both lands on the start and lies in
      it, so the window pins the next start down. */
  lemma NextStartUnique(r: Reading, t: int, u: int, day: int, hour: int)
    requires ValidReading(r)
    requires LandsOn(r, t, day, hour) && -MinuteMs < t <= 7 * DayMs - MinuteMs
    requires LandsOn(r, u, day, hour) && -MinuteMs < u <= 7 * DayMs - MinuteMs
    ensures t == u
  {
    var a, b := r.msOfDay + t, r.msOfDay + u;
    DayCount(a, b, a / DayMs - b / DayMs);
    WeekdayGap(r.day, a / DayMs, b / DayMs);
  }

  /** Two instants with the same time of day less than a week apart are a
      whole number of days apart, fewer than seven. */
  lemma DayCount(a: int, b: int, k: int)
    requires a % DayMs == b % DayMs && -7 * DayMs < a - b < 7 * DayMs
    requires k == a / DayMs - b / DayMs
    ensures a - b == k * 86_400_000 && -7 < k < 7
  {
  }

  /** Day counts fewer than seven apart that reach the same weekday are
      equal. */
  lemma WeekdayGap(w: int, q: int, p: int)
    requires (w + q) % 7 == (w + p) % 7 && -7 < q - p < 7
    ensures q == p
  {
  }

  /** Every table meeting's time-until is the one offset in the window
      that lands on its next start. */
  lemma TimeUntilIsNext(r: Reading, i: int, u: int)
    requires ValidReading(r) && 0 <= i < |Meetings|
    requires LandsOn(r, u, Meetings[i].day, Meetings[i].startHour)
    requires -MinuteMs < u <= 7 * DayMs - MinuteMs
    ensures u == TimeUntil(Meetings[i], r)
  {
    MeetingsWellFormed();
    var m := Meetings[i];
    NextStartUnique(r, TimeUntil(m, r), u, m.day, m.startHour);
  }

  /** Moving `t` milliseconds on from reading `r` arrives on weekday `day`
      exactly at `hour` o'clock. */
  predicate LandsOn(r: Reading, t: int, day: int, hour: int) {
    var at := r.msOfDay + t;
    at % DayMs == hour * HourMs && (r.day + at / DayMs) % 7 == day
  }

  /** A whole number of days plus a time of day splits back into the two. */
  lemma DayAndTime(d: int, x: int)
    requires 0 <= x < DayMs
    ensures (d * DayMs + x) / DayMs == d && (d * DayMs + x) % DayMs == x
  {
  }

  /** When a table meeting is not live, it starts strictly in the future. */
  lemma NotLiveAhead(r: Reading, i: int)
    requires ValidReading(r) && 0 <= i < |Meetings|
    requires !IsLive(Meetings[i], r)
    ensures TimeUntil(Meetings[i], r) > 0
  {
    var m := Meetings[i];
    MeetingsWellFormed();
    var d := DaysUntil(m, r);
    if d == 0 {
      assert CurrentMinutes(r) < m.startHour * 60;
      assert r.msOfDay < m.startHour * HourMs;
    } else {
      assert d * DayMs >= DayMs;
    }
  }

  /** The source's second loop: the meeting with the smallest strictly
      positive time until its start, keeping the earlier entry on a tie
      (the comparison is strict); -1 when no meeting is ahead. */
  function ClosestIndex(ms: seq<Meeting>, r: Reading): (k: int)
    requires ValidReading(r)
    ensures -1 <= k < |ms|
    ensures k >= 0 ==> TimeUntil(ms[k], r) > 0
    ensures k >= 0 ==> forall j :: 0 <= j < |ms| && TimeUntil(ms[j], r) > 0 ==>
                          TimeUntil(ms[k], r) <= TimeUntil(ms[j], r)
    ensures k >= 0 ==> forall j :: 0 <= j < k && TimeUntil(ms[j], r) > 0 ==>
                          TimeUntil(ms[k], r) < TimeUntil(ms[j], r)
    ensures k < 0 <==> forall j :: 0 <= j < |ms| ==> TimeUntil(ms[j], r) <= 0
  {
    if |ms| == 0 then -1
    else
      var init := ms[..|ms| - 1];
      var c := ClosestIndex(init, r);
      assert forall j :: 0 <= j < |init| ==> init[j] == ms[j];
      var diff := TimeUntil(ms[|ms| - 1], r);
      if diff > 0 && (c < 0 || diff < TimeUntil(ms[c], r)) then |ms| - 1 else c
  }

  /** The remaining time as the card states it. */
  datatype Countdown = InDays(days: int) | InHoursMinutes(hours: int, minutes: int) | InMinutes(minutes: int)

  /** The figures of the countdown for `diff` milliseconds: whole hours and
      the whole minutes left over, reported as whole days from 24 hours on. */
  function CountdownOf(diff: int): (c: Countdown)
    requires diff > 0
    ensures c.InDays? <==> diff >= DayMs
    ensures c.InMinutes? <==> diff < HourMs
    ensures c.InDays? ==> c.days >= 1 && c.days * DayMs <= diff < (c.days + 1) * DayMs
    ensures c.InHoursMinutes? ==>
              1 <= c.hours < 24 && 0 <= c.minutes < 60 &&
              c.hours * HourMs + c.minutes * MinuteMs <= diff < c.hours * HourMs + (c.minutes + 1) * MinuteMs
    ensures c.InMinutes? ==> 0 <= c.minutes < 60 && c.minutes * MinuteMs <= diff < (c.minutes + 1) * MinuteMs
  {
    var hours := diff / HourMs;
    var minutes := (diff % HourMs) / MinuteMs;
    CountdownFigures(diff, hours, minutes);
    if hours >= 24 then
      DaysOfHours(diff, hours);
      InDays(hours / 24)
    else if hours > 0 then InHoursMinutes(hours, minutes)
    else InMinutes(minutes)
  }

  lemma CountdownFigures(diff: int, hours: int, minutes: int)
    requires diff > 0 && hours == diff / HourMs && minutes == (diff % HourMs) / MinuteMs
    ensures 0 <= minutes < 60
    ensures hours * HourMs + minutes * MinuteMs <= diff < hours * HourMs + (minutes + 1) * MinuteMs
    ensures hours >= 24 <==> diff >= DayMs
    ensures hours == 0 <==> diff < HourMs
  {
    var x := diff % HourMs;
    assert diff == hours * HourMs + x;
    assert minutes * MinuteMs <= x < (minutes + 1) * MinuteMs;
    if hours >= 24 {
      assert hours * HourMs >= 24 * HourMs;
    } else if hours >= 1 {
      assert hours * HourMs <= 23 * HourMs;
    }
  }

  lemma DaysOfHours(diff: int, hours: int)
    requires diff > 0 && hours == diff / HourMs && hours >= 24
    ensures hours / 24 >= 1
    ensures (hours / 24) * DayMs <= diff < (hours / 24 + 1) * DayMs
  {
    var n := hours / 24;
    var y := hours % 24;
    assert hours == n * 24 + y;
    assert diff - hours * HourMs < HourMs;
    assert hours * HourMs == n * DayMs + y * HourMs;
  }

  /** `in N day(s)`, `in Hh Mm` or `in M minutes`. */
  function CountdownText(c: Countdown): (s: string)
    ensures |s| > 3 && s[..3] == "in "
  {
    match c
    case InDays(n) => "in " + IntToString(n) + " day" + (if n > 1 then "s" else "")
    case InHoursMinutes(h, m) => "in " + IntToString(h) + "h " + IntToString(m) + "m"
    case InMinutes(m) => "in " + IntToString(m) + " minutes"
  }

  /** A non-empty run of decimal digits. */
  predicate IsNumeral(s: string) { |s| > 0 && AllDigits(s) }

  /** Reads a countdown back out of its text: three space-separated words,
      `in`, a numeral (carrying an `h` in the hours form) and the unit. */
  function ParseCountdown(s: string): Option<Countdown>
  {
    var w := SplitOn(s, ' ');
    if |w| == 3 && w[0] == "in" then ParseFigures(w[1], w[2]) else None
  }

  /** The countdown the two words after `in` denote. */
  function ParseFigures(a: string, b: string): Option<Countdown> {
    if (b == "day" || b == "days") && IsNumeral(a) then Some(InDays(ParseNat(a)))
    else if b == "minutes" && IsNumeral(a) then Some(InMinutes(ParseNat(a)))
    else if |a| >= 2 && |b| >= 2 && a[|a| - 1] == 'h' && b[|b| - 1] == 'm'
            && IsNumeral(a[..|a| - 1]) && IsNumeral(b[..|b| - 1]) then
      Some(InHoursMinutes(ParseNat(a[..|a| - 1]), ParseNat(b[..|b| - 1])))
    else None
  }

  /** Three words free of spaces, joined by single spaces, split back apart. */
  lemma SplitThreeWords(a: string, b: string, c: string)
    requires ' ' !in a && ' ' !in b && ' ' !in c
    ensures SplitOn(a + " " + b + " " + c, ' ') == [a, b, c]
  {
    assert a + " " + b + " " + c == a + [' '] + (b + [' '] + c);
    SplitOnField(a, ' ', b + [' '] + c);
    SplitOnField(b, ' ', c);
    SplitOnNoSep(c, ' ');
  }

  /** The decimal form of a count has no space in it, even with a unit letter. */
  lemma NumeralHasNoSpace(n: nat, unit: string)
    requires ' ' !in unit
    ensures ' ' !in NatToString(n) + unit && IsNumeral(NatToString(n))
  {
    DigitsExclude(NatToString(n), ' ');
  }

  /** Every countdown with non-negative figures reads back from its text. */
  lemma CountdownReadsBack(c: Countdown)
    requires c.InDays? ==> c.days >= 0
    requires c.InHoursMinutes? ==> c.hours >= 0 && c.minutes >= 0
    requires c.InMinutes? ==> c.minutes >= 0
    ensures ParseCountdown(CountdownText(c)) == Some(c)
  {
    match c
    case InDays(n) => DaysReadBack(n, "day" + (if n > 1 then "s" else ""), CountdownText(c));
    case InHoursMinutes(h, m) => HoursMinutesReadBack(h, m, CountdownText(c));
    case InMinutes(m) => MinutesReadBack(m, CountdownText(c));
  }

  lemma DaysReadBack(n: nat, word: string, s: string)
    requires word == "day" + (if n > 1 then "s" else "")
    requires s == CountdownText(InDays(n))
    ensures ParseCountdown(s) == Some(InDays(n))
  {
    assert s == "in" + " " + NatToString(n) + " " + word;
    NumeralHasNoSpace(n, "");
    assert NatToString(n) + "" == NatToString(n);
    SplitThreeWords("in", NatToString(n), word);
    ParseNatToString(n);
  }

  lemma HoursMinutesReadBack(h: nat, m: nat, s: string)
    requires s == CountdownText(InHoursMinutes(h, m))
    ensures ParseCountdown(s) == Some(InHoursMinutes(h, m))
  {
    var hs, ms := NatToString(h) + "h", NatToString(m) + "m";
    assert s == "in" + " " + hs + " " + ms;
    UnitWord(h, 'h');
    UnitWord(m, 'm');
    SplitThreeWords("in", hs, ms);
    assert ms != "day" && ms != "days" && ms != "minutes" by {
      assert ms[|ms| - 1] == 'm';
    }
  }

  /** A count followed by a unit letter: the letter is last, the digits
      before it read back as the count, and there is no space. */
  lemma UnitWord(n: nat, u: char)
    requires u != ' '
    ensures var w := NatToString(n) + [u];
            && |w| >= 2 && w[|w| - 1] == u && ' ' !in w
            && IsNumeral(w[..|w| - 1]) && ParseNat(w[..|w| - 1]) == n
  {
    var w := NatToString(n) + [u];
    assert w[..|w| - 1] == NatToString(n);
    DigitsExclude(NatToString(n), ' ');
    ParseNatToString(n);
  }

  lemma MinutesReadBack(m: nat, s: string)
    requires s == CountdownText(InMinutes(m))
    ensures ParseCountdown(s) == Some(InMinutes(m))
  {
    assert s == "in" + " " + NatToString(m) + " " + "minutes";
    NumeralHasNoSpace(m, "");
    assert NatToString(m) + "" == NatToString(m);
    SplitThreeWords("in", NatToString(m), "minutes");
    ParseNatToString(m);
  }

  /** The day count takes a plural 's' exactly when it is more than one. */
  lemma CountdownPlural(n: int)
    ensures var s := CountdownText(InDays(n));
            s[|s| - 1] == 's' <==> n > 1
  {
  }

  // ---------------------------------------------------------------------------
  // The card's state
  // ---------------------------------------------------------------------------

  datatype Status = Live(meeting: Meeting) | Upcoming(meeting: Meeting, timeUntil: string) | NoMeeting

  /** The card's state at a Kigali reading: the live meeting when there is
      one, else the closest meeting ahead with its countdown. */
  function StatusAt(r: Reading): (s: Status)
    requires ValidReading(r)
    ensures s.Live? <==> exists i :: 0 <= i < |Meetings| && IsLive(Meetings[i], r)
    ensures s.Live? ==> s.meeting in Meetings && IsLive(s.meeting, r)
    ensures s.Upcoming? ==> s.meeting in Meetings && TimeUntil(s.meeting, r) > 0
    ensures s.Upcoming? ==> s.timeUntil == CountdownText(CountdownOf(TimeUntil(s.meeting, r)))
  {
    var live := LiveIndex(Meetings, r);
    if live >= 0 then Live(Meetings[live])
    else
      var k := ClosestIndex(Meetings, r);
      if k >= 0 then
        var diff := TimeUntil(Meetings[k], r);
        Upcoming(Meetings[k], CountdownText(CountdownOf(diff)))
      else NoMeeting
  }

  /** The countdown an upcoming card shows reads back as the time left until
      its meeting, split into days, hours and minutes. */
  lemma UpcomingCountdownReadsBack(r: Reading)
    requires ValidReading(r)
    ensures var s := StatusAt(r);
            s.Upcoming? ==> ParseCountdown(s.timeUntil) == Some(CountdownOf(TimeUntil(s.meeting, r)))
  {
    var s := StatusAt(r);
    if s.Upcoming? {
      CountdownReadsBack(CountdownOf(TimeUntil(s.meeting, r)));
    }
  }

  /** At every reading the card shows a meeting: either one is live, or
      every meeting is still ahead and the closest is chosen. */
  lemma AlwaysAMeeting(r: Reading)
    requires ValidReading(r)
    ensures !StatusAt(r).NoMeeting?
  {
    if LiveIndex(Meetings, r) < 0 {
      NotLiveAhead(r, 0);
    }
  }

  /** An upcoming meeting starts no later than any other table meeting. */
  lemma UpcomingIsClosest(r: Reading)
    requires ValidReading(r)
    ensures StatusAt(r).Upcoming? ==>
              forall i :: 0 <= i < |Meetings| ==> TimeUntil(StatusAt(r).meeting, r) <= TimeUntil(Meetings[i], r)
  {
    if StatusAt(r).Upcoming? {
      forall i | 0 <= i < |Meetings| ensures TimeUntil(StatusAt(r).meeting, r) <= TimeUntil(Meetings[i], r) {
        NotLiveAhead(r, i);
      }
    }
  }

  /** Friday at 18:00 in Kigali the prayer meeting is an hour away. */
  lemma FridayEvening()
    ensures StatusAt(Reading(5, 18 * HourMs)) == Upcoming(Meetings[1], "in 1h 0m")
  {
    var r := Reading(5, 18 * HourMs);
    assert CurrentMinutes(r) == 18 * 60;
    assert TimeUntil(Meetings[0], r) == 2 * DayMs + 15 * HourMs - 18 * HourMs;
    assert TimeUntil(Meetings[1], r) == HourMs;
    assert CountdownOf(HourMs) == InHoursMinutes(1, 0);
    assert NatToString(1) == "1" && NatToString(0) == "0";
  }

  // ---------------------------------------------------------------------------
  // 12-hour time labels
  // ---------------------------------------------------------------------------

  function Period(hour: int): string {
    if hour >= 12 then "PM" else "AM"
  }

  /** The hour the label shows: hours past 12 lose 12, every other hour is
      shown as it is. */
  function DisplayHour(hour: int): int {
    if hour > 12 then hour - 12 else hour
  }

  /** The 12-hour clock's hour: 12 for midnight and noon, else the hour
      modulo 12. */
  function ClockHour12(hour: int): (h: int)
    requires 0 <= hour < 24
    ensures 1 <= h <= 12
  {
    if hour % 12 == 0 then 12 else hour % 12
  }

  /** Reading a 12-hour label back into a 24-hour hour. */
  function Hour24(displayHour: int, pm: bool): int {
    if displayHour == 12 then (if pm then 12 else 0)
    else displayHour + (if pm then 12 else 0)
  }

  /** The displayed hour is the 12-hour clock's at every hour but midnight,
      which shows as 0; either way the hour and the period determine the
      24-hour hour. */
  lemma DisplayHourFacts(hour: int)
    requires 0 <= hour < 24
    ensures hour != 0 ==> DisplayHour(hour) == ClockHour12(hour)
    ensures hour == 0 ==> DisplayHour(hour) == 0
    ensures Hour24(DisplayHour(hour), Period(hour) == "PM") == hour
    ensures Hour24(ClockHour12(hour), Period(hour) == "PM") == hour
  {
  }

  /** `formatTime(hour, minute)`: the displayed hour, a colon, the minute
      padded to two digits (written "00" when it is not positive), a space
      and the period. */
  function Format12(hour: int, minute: int): (s: string)
    ensures 0 <= hour < 24 && 0 <= minute < 60 ==> LabelReadsAs(s, hour, minute)
  {
    var a := IntToString(DisplayHour(hour));
    var b := if minute > 0 then PadStart(IntToString(minute), 2, '0') else "00";
    var s := a + ":" + b + " " + Period(hour);
    if 0 <= hour < 24 && 0 <= minute < 60 then
      LabelFields(hour, minute, a, b, s);
      s
    else s
  }

  /** A label `h:mm AM` or `h:mm PM` whose hour field and period give back
      `hour` and whose two minute digits give back `minute`. */
  predicate LabelReadsAs(s: string, hour: int, minute: int) {
    && |s| >= 7 && s[|s| - 6] == ':' && s[|s| - 3] == ' '
    && AllDigits(s[..|s| - 6]) && AllDigits(s[|s| - 5..|s| - 3])
    && ParseNat(s[|s| - 5..|s| - 3]) == minute
    && Hour24(ParseNat(s[..|s| - 6]), s[|s| - 2..] == "PM") == hour
  }

  /** The label's fields sit at fixed places from its end: the hour before
      the colon, two minute digits, a space and the period. */
  lemma LabelFields(hour: int, minute: int, a: string, b: string, s: string)
    requires 0 <= hour < 24 && 0 <= minute < 60
    requires a == IntToString(DisplayHour(hour))
    requires b == if minute > 0 then PadStart(IntToString(minute), 2, '0') else "00"
    requires s == a + ":" + b + " " + Period(hour)
    ensures LabelReadsAs(s, hour, minute)
  {
    MinuteField(minute);
    assert a == NatToString(DisplayHour(hour)) && b == Pad2(minute);
    LabelLayout(a, b, Period(hour), s);
    ParseNatToString(DisplayHour(hour));
    DisplayHourFacts(hour);
  }

  /** Where the parts of `a:bb pp` sit when the minute and period take two
      letters each. */
  lemma LabelLayout(a: string, b: string, p: string, s: string)
    requires |b| == 2 && |p| == 2 && s == a + ":" + b + " " + p
    ensures |s| == |a| + 6 && s[|s| - 6] == ':' && s[|s| - 3] == ' '
    ensures s[..|s| - 6] == a && s[|s| - 5..|s| - 3] == b && s[|s| - 2..] == p
  {
  }

  /** Single digits print as themselves. */
  lemma OneDigit(n: nat)
    requires n < 10
    ensures NatToString(n) == [DigitChar(n)]
  {
  }

  /** The minute field is the two-digit rendering of the minute. */
  lemma MinuteField(minute: int)
    requires 0 <= minute < 60
    ensures (if minute > 0 then PadStart(IntToString(minute), 2, '0') else "00") == Pad2(minute)
  {
    if minute == 0 {
      OneDigit(0);
    }
  }

  /** The label reads back: the text before the colon is the displayed hour,
      the two digits after it are the minute, the last two letters are the
      period, and together they give the hour. */
  lemma Format12ReadsBack(hour: int, minute: int, s: string, a: string, b: string)
    requires 0 <= hour < 24 && 0 <= minute < 60
    requires a == NatToString(DisplayHour(hour)) && b == Pad2(minute)
    requires s == Format12(hour, minute)
    ensures s == a + ":" + b + " " + Period(hour)
    ensures |b| == 2 && AllDigits(a) && AllDigits(b)
    ensures ParseNat(a) == DisplayHour(hour) && ParseNat(b) == minute
    ensures Hour24(ParseNat(a), s[|s| - 2..] == "PM") == hour
  {
    MinuteField(minute);
    ParseNatToString(DisplayHour(hour));
    DisplayHourFacts(hour);
    assert s[|s| - 2..] == Period(hour);
  }

  /** The labels of the table's times. */
  lemma Label15()
    ensures Format12(15, 0) == "3:00 PM"
  {
    OneDigit(3);
    assert IntToString(DisplayHour(15)) == "3";
    assert Period(15) == "PM";
  }

  lemma Label17()
    ensures Format12(17, 30) == "5:30 PM"
  {
    OneDigit(5);
    ThirtyText();
    assert IntToString(DisplayHour(17)) == "5";
    assert Period(17) == "PM";
  }

  lemma Label19()
    ensures Format12(19, 0) == "7:00 PM"
  {
    OneDigit(7);
    assert IntToString(DisplayHour(19)) == "7";
    assert Period(19) == "PM";
  }

  lemma Label21()
    ensures Format12(21, 0) == "9:00 PM"
  {
    OneDigit(9);
    assert IntToString(DisplayHour(21)) == "9";
    assert Period(21) == "PM";
  }

  lemma ThirtyText()
    ensures PadStart(IntToString(30), 2, '0') == "30"
  {
    OneDigit(3);
    assert NatToString(30) == NatToString(3) + [DigitChar(0)];
  }

  /** The settings screen's meeting schedule (`MeetingSchedule`, rendered
      at SettingsView.tsx line 71) writes its times out by hand
      (UpcomingMeeting.tsx lines 242 and 253: "3:00 PM - 5:30 PM" for the
      Sunday fellowship, "7:00 PM - 9:00 PM" for the Friday prayer); they
      agree with the 12-hour labels of the table's start and end times. */
  lemma ScheduleText()
    ensures Format12(Meetings[0].startHour, 0) == "3:00 PM"
    ensures Format12(Meetings[0].endHour, Meetings[0].endMinute) == "5:30 PM"
    ensures Format12(Meetings[1].startHour, 0) == "7:00 PM"
    ensures Format12(Meetings[1].endHour, Meetings[1].endMinute) == "9:00 PM"
  {
    Label15();
    Label17();
    Label19();
    Label21();
  }
}
