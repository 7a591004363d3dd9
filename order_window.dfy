/**
 * `Order.isInOrderWindow`: whether a new order may be placed at the current
 * local time. The clock read is a parameter: the fields are what `getDay`,
 * `getHours`, `getMinutes`, `getSeconds` and `getMilliseconds` return.
 */
module OrderWindow {

  /** Local time; `day` is `getDay()`, 0 for Sunday through 6 for Saturday. */
  datatype Clock = Clock(day: int, hour: int, minute: int, second: int, ms: int)

  predicate WellFormed(c: Clock) {
    && 0 <= c.day <= 6
    && 0 <= c.hour < 24
    && 0 <= c.minute < 60
    && 0 <= c.second < 60
    && 0 <= c.ms < 1000
  }

  datatype Window = Window(startHour: int, startMinute: int, endHour: int, endMinute: int)

  const WeekdayWindows: seq<Window> := [Window(6, 30, 8, 30), Window(10, 0, 11, 0), Window(15, 30, 16, 30)]
  const BrunchWindow: Window := Window(7, 30, 11, 0)
  const DinnerWindow: Window := Window(14, 30, 15, 30)

  /** Milliseconds since local midnight. */
  function MsOfDay(c: Clock): int {
    ((c.hour * 60 + c.minute) * 60 + c.second) * 1000 + c.ms
  }

  /** `new Date(year, month, date, h, m)` on the current day: h:m:00.000. */
  function WallTime(h: int, m: int): int {
    (h * 60 + m) * 60000
  }

  /** `currentDate >= startTime && currentDate <= endTime`. */
  predicate Within(w: Window, c: Clock) {
    WallTime(w.startHour, w.startMinute) <= MsOfDay(c) <= WallTime(w.endHour, w.endMinute)
  }

  /** `windows.some(w => Within(w, c))`. */
  predicate AnyWithin(ws: seq<Window>, c: Clock) {
    ws != [] && (Within(ws[0], c) || AnyWithin(ws[1..], c))
  }

  lemma {:induction false} AnyWithinIsExists(ws: seq<Window>, c: Clock)
    ensures AnyWithin(ws, c) <==> exists i :: 0 <= i < |ws| && Within(ws[i], c)
  {
    if ws != [] {
      AnyWithinIsExists(ws[1..], c);
      if exists i :: 0 <= i < |ws| && Within(ws[i], c) {
        var i :| 0 <= i < |ws| && Within(ws[i], c);
        if i > 0 {
          assert ws[1..][i - 1] == ws[i];
        }
      }
      if exists i :: 0 <= i < |ws[1..]| && Within(ws[1..][i], c) {
        var i :| 0 <= i < |ws[1..]| && Within(ws[1..][i], c);
        assert ws[i + 1] == ws[1..][i];
      }
    }
  }

  /** The weekend check: the hour alone, start inclusive, end exclusive. */
  predicate HourIn(w: Window, hour: int) {
    w.startHour <= hour < w.endHour
  }

  datatype DayKind = Weekday | Weekend | OtherDay

  function Kind(day: int): DayKind {
    if 1 <= day <= 5 then Weekday
    else if day == 0 || day == 6 then Weekend
    else OtherDay
  }

  predicate IsInOrderWindow(c: Clock) {
    match Kind(c.day)
    case Weekday => AnyWithin(WeekdayWindows, c)
    case Weekend => HourIn(BrunchWindow, c.hour) || HourIn(DinnerWindow, c.hour)
    case OtherDay => false
  }

  /**
   * Reference reading of a weekday window on the clock fields: from sh:sm
   * on, up to eh:em:00.000 and not one millisecond later.
   */
  predicate Between(c: Clock, sh: int, sm: int, eh: int, em: int) {
    && (c.hour > sh || (c.hour == sh && c.minute >= sm))
    && (c.hour < eh || (c.hour == eh && (c.minute < em || (c.minute == em && c.second == 0 && c.ms == 0))))
  }

  lemma WithinIsBetween(w: Window, c: Clock)
    requires WellFormed(c) && 0 <= w.startMinute < 60 && 0 <= w.endMinute < 60
    ensures Within(w, c) <==> Between(c, w.startHour, w.startMinute, w.endHour, w.endMinute)
  {
  }

  /**
   * Monday to Friday, an order may be placed exactly from 06:30 to 08:30,
   * 10:00 to 11:00 and 15:30 to 16:30, both ends included, the end only at
   * second 0 and millisecond 0.
   */
  lemma WeekdayWindowsExact(c: Clock)
    requires WellFormed(c) && 1 <= c.day <= 5
    ensures IsInOrderWindow(c) <==>
      Between(c, 6, 30, 8, 30) || Between(c, 10, 0, 11, 0) || Between(c, 15, 30, 16, 30)
  {
    AnyWithinIsExists(WeekdayWindows, c);
    WithinIsBetween(WeekdayWindows[0], c);
    WithinIsBetween(WeekdayWindows[1], c);
    WithinIsBetween(WeekdayWindows[2], c);
  }

  /** Saturday and Sunday, an order may be placed exactly in hours 7, 8, 9, 10 and 14. */
  lemma WeekendHours(c: Clock)
    requires c.day == 0 || c.day == 6
    ensures IsInOrderWindow(c) <==> c.hour in {7, 8, 9, 10, 14}
  {
  }

  /** On a weekend the minutes, seconds and milliseconds play no part. */
  lemma WeekendIgnoresMinutes(c: Clock, minute: int, second: int, ms: int)
    requires c.day == 0 || c.day == 6
    ensures IsInOrderWindow(c) == IsInOrderWindow(c.(minute := minute, second := second, ms := ms))
  {
  }

  /** The minute fields of the weekend windows have no effect. */
  lemma WeekendWindowMinutesUnused(startMinute: int, endMinute: int, hour: int)
    ensures HourIn(BrunchWindow, hour) == HourIn(BrunchWindow.(startMinute := startMinute, endMinute := endMinute), hour)
    ensures HourIn(DinnerWindow, hour) == HourIn(DinnerWindow.(startMinute := startMinute, endMinute := endMinute), hour)
  {
  }

  /** `getDay` never yields a value that reaches the final `else`. */
  lemma NoOtherDay(c: Clock)
    requires WellFormed(c)
    ensures Kind(c.day) != OtherDay
  {
  }

  /** The end of a weekday window is included only at second 0, millisecond 0. */
  lemma WeekdayEndInclusive()
    ensures IsInOrderWindow(Clock(3, 8, 30, 0, 0))
    ensures !IsInOrderWindow(Clock(3, 8, 30, 0, 1))
    ensures IsInOrderWindow(Clock(3, 6, 30, 0, 0))
    ensures !IsInOrderWindow(Clock(3, 6, 29, 59, 999))
  {
  }

  /**
   * The weekday and weekend checks disagree on the same time of day: 06:45
   * and 16:00 are open only on weekdays, 09:00 and 14:00 only on weekends, and
   * 07:05 is open on a Saturday although brunch starts at 07:30.
   */
  lemma WeekdayWeekendAsymmetry()
    ensures IsInOrderWindow(Clock(1, 6, 45, 0, 0)) && !IsInOrderWindow(Clock(6, 6, 45, 0, 0))
    ensures IsInOrderWindow(Clock(5, 16, 0, 0, 0)) && !IsInOrderWindow(Clock(0, 16, 0, 0, 0))
    ensures !IsInOrderWindow(Clock(1, 9, 0, 0, 0)) && IsInOrderWindow(Clock(6, 9, 0, 0, 0))
    ensures !IsInOrderWindow(Clock(2, 14, 0, 0, 0)) && IsInOrderWindow(Clock(0, 14, 0, 0, 0))
    ensures IsInOrderWindow(Clock(6, 7, 5, 0, 0))
  {
  }

  /** Sample times: Tuesday 07:00 and 09:00, Saturday 08:00, 11:00, Sunday 13:00, 14:59, 15:00. */
  lemma SampleTimes()
    ensures IsInOrderWindow(Clock(2, 7, 0, 0, 0))
    ensures !IsInOrderWindow(Clock(2, 9, 0, 0, 0))
    ensures IsInOrderWindow(Clock(6, 8, 0, 0, 0))
    ensures !IsInOrderWindow(Clock(6, 11, 0, 0, 0))
    ensures !IsInOrderWindow(Clock(0, 13, 0, 0, 0))
    ensures IsInOrderWindow(Clock(0, 14, 59, 0, 0))
    ensures !IsInOrderWindow(Clock(0, 15, 0, 0, 0))
  {
  }
}
