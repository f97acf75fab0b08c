/** Working days of an inclusive range (apps/api/src/leave/working-days.ts). */
module WorkingDays {
  const DAY_MS := 86_400_000

  /** The calendar day of a timestamp, days counted from 1 January 1970. */
  function DayOf(time: int): int
  {
    time / DAY_MS
  }

  lemma DayOfMidnight(day: int)
    ensures DayOf(day * DAY_MS) == day
  {
  }

  /** A day is the 86,400,000 milliseconds from one midnight to the next. */
  lemma DayOfExactly(time: int, day: int)
    ensures DayOf(time) == day <==> day * 86_400_000 <= time < (day + 1) * 86_400_000
  {
  }

  /** Day 0 was a Thursday. */
  predicate IsSunday(day: int)
  {
    (day + 4) % 7 == 0
  }

  /** Sundays on or before a day, counted from the one before day 0: division rounding down. */
  function SundaysUpTo(day: int): int
  {
    (day + 4) / 7
  }

  /** The closed form: the days of the range less its Sundays. */
  function WorkingDayCount(first: int, last: int): (n: nat)
  {
    if last < first then 0
    else
      var sundays := SundaysUpTo(last) - SundaysUpTo(first - 1);
      assert sundays <= last - first + 1;
      (last - first + 1) - sundays
  }

  method WorkingDaysBetween(start: int, end: int) returns (days: nat)
    ensures days == WorkingDayCount(DayOf(start), DayOf(end))
  {
    var cursor := DayOf(start);
    var last := DayOf(end);
    if last < cursor {
      return 0;
    }
    days := 0;
    while cursor <= last
      invariant DayOf(start) <= cursor <= last + 1
      invariant days == WorkingDayCount(DayOf(start), cursor - 1)
    {
      OneMoreDay(DayOf(start), cursor);
      if !IsSunday(cursor) {
        days := days + 1;
      }
      cursor := cursor + 1;
    }
  }

  lemma OneMoreDay(first: int, day: int)
    requires first <= day
    ensures WorkingDayCount(first, day) == WorkingDayCount(first, day - 1) + (if IsSunday(day) then 0 else 1)
  {
  }

  /** What the closed form means: the number of days of the range that are not Sundays. */
  lemma {:induction false} CountsWorkingDays(first: int, last: int)
    ensures WorkingDayCount(first, last) == |set d | first <= d <= last && !IsSunday(d)|
    decreases last - first
  {
    var all := set d | first <= d <= last && !IsSunday(d);
    if last < first {
      assert all == {};
    } else {
      var fewer := set d | first <= d <= last - 1 && !IsSunday(d);
      CountsWorkingDays(first, last - 1);
      OneMoreDay(first, last);
      assert all == if IsSunday(last) then fewer else fewer + {last};
    }
  }

  /** Adjacent ranges add up. */
  lemma Additive(first: int, middle: int, last: int)
    requires first - 1 <= middle <= last
    ensures WorkingDayCount(first, middle) + WorkingDayCount(middle + 1, last) == WorkingDayCount(first, last)
  {
  }
}
