/**
 Week arithmetic of the attendance grid.

 A calendar date is its proleptic Gregorian day ordinal, as Python's
 `date.toordinal()` gives it: ordinal 1 is 0001-01-01 (a Monday) and the
 last representable date, 9999-12-31, is ordinal 3652059. Adding a
 `timedelta` that leaves this range raises `OverflowError`; the model
 returns `None` there.
 */
module Dates {

  datatype Option<T> = None | Some(value: T)

  const MinOrdinal: int := 1
  const MaxOrdinal: int := 3652059

  /** A date Python can represent. */
  type Date = d: int | MinOrdinal <= d <= MaxOrdinal witness MinOrdinal

  /** `date.weekday()`: Monday is 0, Sunday is 6. */
  function Weekday(d: Date): (w: int)
    ensures 0 <= w < 7
    ensures d == MinOrdinal ==> w == 0
  {
    (d + 6) % 7
  }

  /** `get_monday_of_week`: the date minus its weekday. Never out of range. */
  function MondayOfWeek(d: Date): (m: Date)
    ensures Weekday(m) == 0
    ensures m <= d < m + 7
  {
    d - Weekday(d)
  }

  /** The Monday of a week is the only Monday among the seven days ending at `d`. */
  lemma {:induction false} MondayOfWeekUnique(d: Date, m: Date)
    requires Weekday(m) == 0 && m <= d < m + 7
    ensures m == MondayOfWeek(d)
  {
    var a: int, b: int := m, MondayOfWeek(d);
    assert (a + 6) % 7 == 0 && (b + 6) % 7 == 0;
    assert (a + 6) / 7 * 7 == a + 6;
    assert (b + 6) / 7 * 7 == b + 6;
    assert -7 < a - b < 7;
  }

  /** Taking the Monday of a Monday changes nothing. */
  lemma {:induction false} MondayOfWeekIdempotent(d: Date)
    ensures MondayOfWeek(MondayOfWeek(d)) == MondayOfWeek(d)
  {
    var m := MondayOfWeek(d);
    MondayOfWeekUnique(m, m);
  }

  /** `get_week_days`: the Tuesday and Thursday after a Monday, as offsets 1 and 3. */
  function WeekDays(monday: Date): (r: Option<(Date, Date)>)
    ensures r.Some? <==> monday + 3 <= MaxOrdinal
    ensures r.Some? ==> r.value.0 - monday == 1 && r.value.1 - monday == 3
  {
    if monday + 3 <= MaxOrdinal then Some((monday + 1, monday + 3)) else None
  }

  /**
   For a Monday the two days always exist, are a Tuesday and a Thursday,
   and belong to that Monday's week.
   */
  lemma {:induction false} WeekDaysOfMonday(monday: Date)
    requires Weekday(monday) == 0
    ensures WeekDays(monday).Some?
    ensures var (tue, thu) := WeekDays(monday).value;
      Weekday(tue) == 1 && Weekday(thu) == 3 &&
      MondayOfWeek(tue) == monday && MondayOfWeek(thu) == monday
  {
    var a: int := monday;
    assert (a + 6) / 7 * 7 == a + 6;
    // The last representable date is a Friday, so a Monday is at least four days before it.
    assert Weekday(MaxOrdinal) == 4;
    assert monday + 3 <= MaxOrdinal;
    var (tue, thu) := WeekDays(monday).value;
    assert (a + 7) % 7 == 1 && (a + 9) % 7 == 3;
    assert Weekday(tue) == 1 && Weekday(thu) == 3;
    MondayOfWeekUnique(tue, monday);
    MondayOfWeekUnique(thu, monday);
  }

  /**
   The week navigation buttons: move the displayed Monday seven days back
   (`forward` false) or ahead (`forward` true).
   */
  function MoveWeek(monday: Date, forward: bool): (r: Option<Date>)
    ensures r.Some? <==> MinOrdinal <= (if forward then monday + 7 else monday - 7) <= MaxOrdinal
    ensures r.Some? ==> r.value - monday == (if forward then 7 else -7)
  {
    var d := if forward then monday + 7 else monday - 7;
    if MinOrdinal <= d <= MaxOrdinal then Some(d) else None
  }

  /** Navigating keeps the displayed date a Monday, and the two buttons undo each other. */
  lemma {:induction false} MoveWeekKeepsMonday(monday: Date, forward: bool)
    requires Weekday(monday) == 0
    requires MoveWeek(monday, forward).Some?
    ensures Weekday(MoveWeek(monday, forward).value) == 0
    ensures MoveWeek(MoveWeek(monday, forward).value, !forward) == Some(monday)
  {
    var a: int, b: int := monday, MoveWeek(monday, forward).value;
    assert (b + 6) % 7 == (a + 6) % 7 by {
      if forward {
        assert b + 6 == (a + 6) + 7;
      } else {
        assert a + 6 == (b + 6) + 7;
      }
    }
  }

  /** Going back from the first representable Monday overflows. */
  lemma FirstWeekHasNoPrevious()
    ensures Weekday(MinOrdinal) == 0
    ensures MoveWeek(MinOrdinal, false) == None
  {
  }

  /** 2025-05-26, the first week the grid shows (a Monday). */
  const May26Of2025: Date := 739397

  /**
   The worked example of the week helpers: Friday 2025-05-30 (ordinal
   739401) lies in the week of Monday 2025-05-26, whose Tuesday and
   Thursday are 2025-05-27 (739398) and 2025-05-29 (739400).
   */
  lemma WeekOfMay26Of2025()
    ensures Weekday(May26Of2025) == 0
    ensures Weekday(739401) == 4
    ensures MondayOfWeek(739401) == May26Of2025
    ensures WeekDays(May26Of2025) == Some((739398, 739400))
  {
  }
}
