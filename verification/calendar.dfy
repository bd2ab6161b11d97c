/** Local calendar arithmetic over integer millisecond timestamps, standing in
    for the `Date` methods and the date-fns helpers the application calls
    (`startOfDay`, `endOfDay`, `startOfWeek`, `endOfWeek`, `getDay`,
    `setHours(0, 0, 0, 0)`).  A time zone is a fixed offset from UTC. */
module Calendar {

  const SecondMs: int := 1000
  const MinuteMs: int := 60_000
  const HourMs: int := 3_600_000
  const DayMs: int := 86_400_000

  /** A fixed offset from UTC: local wall-clock time is `utc + offsetMs`. */
  datatype Zone = Zone(offsetMs: int)

  /** The local calendar day (days since 1970-01-01 local) containing `ms`. */
  function DayOf(z: Zone, ms: int): int {
    (ms + z.offsetMs) / DayMs
  }

  /** The instant local day number `day` begins (local midnight). */
  function DayStart(z: Zone, day: int): (r: int)
    ensures DayOf(z, r) == day
    ensures DayOf(z, r - 1) == day - 1
  {
    day * DayMs - z.offsetMs
  }

  /** A timestamp lies in local day `day` exactly when it is between that
      day's midnight and the next one. */
  lemma DayOfBounds(z: Zone, ms: int, day: int)
    ensures DayOf(z, ms) == day <==> DayStart(z, day) <= ms < DayStart(z, day) + DayMs
  {
    var q := (ms + z.offsetMs) / DayMs;
    var r := (ms + z.offsetMs) % DayMs;
    assert ms + z.offsetMs == q * DayMs + r && 0 <= r < DayMs;
  }

  /** `startOfDay(date)`: local midnight at the start of the day of `ms`. */
  function StartOfDay(z: Zone, ms: int): (r: int)
    ensures r <= ms < r + DayMs
    ensures DayOf(z, r) == DayOf(z, ms)
  {
    DayOfBounds(z, ms, DayOf(z, ms));
    DayStart(z, DayOf(z, ms))
  }

  /** `endOfDay(date)`: the last millisecond of the day of `ms`. */
  function EndOfDay(z: Zone, ms: int): (r: int)
    ensures ms <= r == StartOfDay(z, ms) + DayMs - 1
    ensures DayOf(z, r) == DayOf(z, ms) && DayOf(z, r + 1) == DayOf(z, ms) + 1
  {
    DayStart(z, DayOf(z, ms) + 1) - 1
  }

  /** `isWithinInterval(t, {start: startOfDay(date), end: endOfDay(date)})`
      holds exactly for the timestamps on the same local day as `date`. */
  lemma WithinDay(z: Zone, date: int, t: int)
    ensures StartOfDay(z, date) <= t <= EndOfDay(z, date) <==> DayOf(z, t) == DayOf(z, date)
  {
    DayOfBounds(z, t, DayOf(z, date));
  }

  /** `getDay()`: 0 for Sunday through 6 for Saturday (1970-01-01 was a
      Thursday). */
  function Weekday(z: Zone, ms: int): (r: int)
    ensures 0 <= r < 7
  {
    (DayOf(z, ms) + 4) % 7
  }

  /** Milliseconds elapsed since local midnight. */
  function MsOfDay(z: Zone, ms: int): (r: int)
    ensures 0 <= r < DayMs
    ensures ms == StartOfDay(z, ms) + r
  {
    ms - StartOfDay(z, ms)
  }

  /** The local day number of the Sunday that starts the week of `ms`. */
  function WeekStartDay(z: Zone, ms: int): (d: int)
    ensures d <= DayOf(z, ms) < d + 7
    ensures (d + 4) % 7 == 0
  {
    DayOf(z, ms) - Weekday(z, ms)
  }

  /** `startOfWeek(date, { weekStartsOn: 0 })`. */
  function WeekStart(z: Zone, ms: int): (r: int)
    ensures r <= StartOfDay(z, ms)
    ensures Weekday(z, r) == 0
    ensures DayOf(z, r) == WeekStartDay(z, ms) && MsOfDay(z, r) == 0
  {
    DayStart(z, WeekStartDay(z, ms))
  }

  /** `endOfWeek(date, { weekStartsOn: 0 })`: the last millisecond of the
      Saturday ending the week of `ms`. */
  function WeekEnd(z: Zone, ms: int): (r: int)
    ensures EndOfDay(z, ms) <= r
    ensures r == WeekStart(z, ms) + 7 * DayMs - 1
    ensures Weekday(z, r) == 6
  {
    DayStart(z, WeekStartDay(z, ms) + 7) - 1
  }

  /** `addDays(ms, k)`: the same wall-clock time `k` days later (earlier for
      negative `k`). */
  function AddDays(ms: int, k: int): int {
    ms + k * DayMs
  }

  /** Moving by whole days moves the local day by the same count, in every
      zone, and keeps the time of day. */
  lemma AddDaysShiftsDay(z: Zone, ms: int, k: int)
    ensures DayOf(z, AddDays(ms, k)) == DayOf(z, ms) + k
    ensures MsOfDay(z, AddDays(ms, k)) == MsOfDay(z, ms)
  {
    var q := DayOf(z, ms);
    var x := (ms + z.offsetMs) % DayMs;
    assert ms + z.offsetMs == q * DayMs + x;
    assert AddDays(ms, k) + z.offsetMs == (q + k) * DayMs + x;
  }

  /** Adding days then subtracting them is the identity, and day steps
      compose. */
  lemma AddDaysCompose(ms: int, j: int, k: int)
    ensures AddDays(AddDays(ms, j), k) == AddDays(ms, j + k)
    ensures AddDays(AddDays(ms, k), -k) == ms
  {
  }

  /** The `k`-th day after the start of a week is local day
      `WeekStartDay + k` and has weekday `k`. */
  lemma WeekDayDate(z: Zone, date: int, k: int)
    requires 0 <= k < 7
    ensures DayOf(z, AddDays(WeekStart(z, date), k)) == WeekStartDay(z, date) + k
    ensures Weekday(z, AddDays(WeekStart(z, date), k)) == k
  {
    var d := WeekStartDay(z, date);
    assert AddDays(WeekStart(z, date), k) == DayStart(z, d + k);
    assert (d + 4) % 7 == 0;
    ModShift(d + 4, k);
  }

  lemma ModShift(a: int, k: int)
    requires a % 7 == 0 && 0 <= k < 7
    ensures (a + k) % 7 == k
  {
  }
}
