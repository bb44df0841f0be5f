/**
 The monthly renewal date (cockpit/server/llmpool.py, `next_monthly_renewal`), in local time at a
 fixed offset from UTC. Times are whole microseconds, as `datetime` keeps them; months are counted
 through from January of year 0 of the Gregorian calendar.
 */
module Renewal {

  const DAY: int := 86_400_000_000

  const LOOP_MONTHS: nat := 600

  predicate Leap(y: int) {
    y % 4 == 0 && (y % 100 != 0 || y % 400 == 0)
  }

  // `calendar.monthrange(y, m)[1]`
  function MonthLength(y: int, m: int): (n: int)
    requires 1 <= m <= 12
    ensures 28 <= n <= 31
  {
    if m == 2 then (if Leap(y) then 29 else 28)
    else if m == 4 || m == 6 || m == 9 || m == 11 then 30
    else 31
  }

  function Length(k: nat): (n: int)
    ensures 28 <= n <= 31
  {
    MonthLength(k / 12, k % 12 + 1)
  }

  // The days before the first of a month.
  function FirstDay(k: nat): nat {
    if k == 0 then 0 else FirstDay(k - 1) + Length(k - 1)
  }

  // The first of January 1970.
  const EPOCH: nat := 719528

  lemma MonthStep(y: nat, m: int)
    requires 1 <= m <= 12
    ensures FirstDay(12 * y + m) == FirstDay(12 * y + m - 1) + MonthLength(y, m)
  {
  }

  lemma YearIs(y: nat)
    ensures FirstDay(12 * y + 12) == FirstDay(12 * y) + if Leap(y) then 366 else 365
  {
    hide FirstDay, Leap;
    MonthStep(y, 1);
    MonthStep(y, 2);
    MonthStep(y, 3);
    MonthStep(y, 4);
    MonthStep(y, 5);
    MonthStep(y, 6);
    MonthStep(y, 7);
    MonthStep(y, 8);
    MonthStep(y, 9);
    MonthStep(y, 10);
    MonthStep(y, 11);
    MonthStep(y, 12);
  }

  // How many of the years before `y` are leap years.
  function Leaps(y: nat): int {
    (y + 3) / 4 - (y + 99) / 100 + (y + 399) / 400
  }

  lemma LeapsStep(y: nat)
    ensures Leaps(y + 1) == Leaps(y) + if Leap(y) then 1 else 0
  {
    By4(y);
    By100(y);
    By400(y);
  }

  lemma By4(y: nat)
    ensures (y + 4) / 4 == (y + 3) / 4 + if y % 4 == 0 then 1 else 0
  {
  }

  lemma Div4(z: nat, q: nat)
    requires 4 * q <= z < 4 * q + 4
    ensures z / 4 == q && z % 4 == z - 4 * q
  {
  }

  lemma Div100(z: nat, q: nat)
    requires 100 * q <= z < 100 * q + 100
    ensures z / 100 == q && z % 100 == z - 100 * q
  {
  }

  lemma By100(y: nat)
    ensures (y + 100) / 100 == (y + 99) / 100 + if y % 100 == 0 then 1 else 0
    ensures y % 100 == 0 ==> y % 4 == 0
  {
    var q := y / 100;
    Div100(y, q);
    Div100(y + 100, q + 1);
    Div100(y + 99, if y == 100 * q then q else q + 1);
    if y == 100 * q {
      Div4(y, 25 * q);
    }
  }

  lemma Div400(z: nat, q: nat)
    requires 400 * q <= z < 400 * q + 400
    ensures z / 400 == q && z % 400 == z - 400 * q
  {
  }

  lemma By400(y: nat)
    ensures (y + 400) / 400 == (y + 399) / 400 + if y % 400 == 0 then 1 else 0
    ensures y % 400 == 0 ==> y % 100 == 0
  {
    var q := y / 400;
    Div400(y, q);
    Div400(y + 400, q + 1);
    Div400(y + 399, if y == 400 * q then q else q + 1);
    if y == 400 * q {
      Div100(y, 4 * q);
    }
  }

  // The months add up to the Gregorian years.
  lemma {:induction false} YearsAddUp(y: nat)
    ensures FirstDay(12 * y) == 365 * y + Leaps(y)
  {
    hide FirstDay, Leaps, Leap;
    if y == 0 {
      Start();
    } else {
      YearsAddUp(y - 1);
      YearIs(y - 1);
      LeapsStep(y - 1);
      assert 12 * y == 12 * (y - 1) + 12;
    }
  }

  lemma Start()
    ensures FirstDay(0) == 0 && Leaps(0) == 0
  {
  }

  lemma EpochIs()
    ensures FirstDay(12 * 1970) == EPOCH
  {
    hide FirstDay;
    YearsAddUp(1970);
  }

  lemma {:induction false} FirstDayGrows(j: nat, k: nat)
    requires j < k
    ensures FirstDay(j) + 28 * (k - j) <= FirstDay(k)
    decreases k
  {
    if j < k - 1 {
      FirstDayGrows(j, k - 1);
    }
  }

  // The month a day falls into, from month `k` on.
  function MonthOf(day: nat, k: nat): (r: nat)
    requires FirstDay(k) <= day
    ensures r >= k && FirstDay(r) <= day < FirstDay(r) + Length(r)
    decreases day - FirstDay(k)
  {
    if day < FirstDay(k + 1) then k else MonthOf(day, k + 1)
  }

  // The length of each month.
  lemma LengthExactly(y: int, m: int)
    requires 1 <= m <= 12
    ensures MonthLength(y, m) ==
      [31, if y % 4 == 0 && (y % 100 != 0 || y % 400 == 0) then 29 else 28, 31, 30, 31, 30, 31, 31, 30, 31, 30, 31][m - 1]
  {
  }

  // A moment in local time: month, day of the month from 1, time of day.
  datatype Local = Local(month: nat, day: int, time: int)

  function FromTimestamp(t: int, offset: int): (d: Local)
    requires t + offset + EPOCH * DAY >= 0
    ensures 1 <= d.day <= Length(d.month) && 0 <= d.time < DAY
  {
    var day := (t + offset) / DAY + EPOCH;
    var month := MonthOf(day, 0);
    Local(month, day - FirstDay(month) + 1, (t + offset) % DAY)
  }

  function Timestamp(d: Local, offset: int): int {
    (FirstDay(d.month) + d.day - 1 - EPOCH) * DAY + d.time - offset
  }

  // Reading the calendar and writing it back agree, both ways.
  lemma CalendarRoundTrip(t: int, offset: int)
    requires t + offset + EPOCH * DAY >= 0
    ensures Timestamp(FromTimestamp(t, offset), offset) == t
  {
    hide FirstDay;
  }

  // Local time is ahead of UTC by the offset, and time starts with 1970.
  lemma LocalTimeExactly(t: int, offset: int)
    requires t + offset + EPOCH * DAY >= 0
    ensures FromTimestamp(t, offset) == FromTimestamp(t + offset, 0)
    ensures FromTimestamp(0, 0) == Local(12 * 1970, 1, 0)
  {
    hide FirstDay;
    EpochIs();
    LocalRoundTrip(Local(12 * 1970, 1, 0), 0);
  }

  lemma LocalRoundTrip(d: Local, offset: int)
    requires 1 <= d.day <= Length(d.month) && 0 <= d.time < DAY
    ensures Timestamp(d, offset) + offset + EPOCH * DAY >= 0
    ensures FromTimestamp(Timestamp(d, offset), offset) == d
  {
    hide FirstDay;
    Start();
    var day := FirstDay(d.month) + d.day - 1;
    var t := Timestamp(d, offset) + offset;
    assert day >= 0 && t == (day - EPOCH) * DAY + d.time;
    assert t / DAY == day - EPOCH && t % DAY == d.time;
    var month := MonthOf(day, 0);
    if month < d.month {
      FirstDayGrows(month, d.month);
      NextFirstDay(month, d.month);
    } else if d.month < month {
      NextFirstDay(d.month, month);
    }
  }

  lemma NextFirstDay(j: nat, k: nat)
    requires j < k
    ensures FirstDay(j) + Length(j) <= FirstDay(k)
  {
    hide FirstDay;
    if j + 1 < k {
      FirstDayGrows(j + 1, k);
    }
    FirstDayStep(j);
  }

  lemma FirstDayStep(j: nat)
    ensures FirstDay(j + 1) == FirstDay(j) + Length(j)
  {
  }

  /* Anniversaries */

  // The anniversary `i` months on: the same time of the same day, or of the last day of a month
  // that is too short.
  function Anniversary(d: Local, i: nat): Local {
    var n := Length(d.month + i);
    Local(d.month + i, if d.day < n then d.day else n, d.time)
  }

  function At(d: Local, i: nat, offset: int): int {
    Timestamp(Anniversary(d, i), offset)
  }

  // On the calendar an anniversary shows the time and the day of the first date, or the last day of a
  // month that does not have it.
  lemma AnniversaryShows(d: Local, i: nat, offset: int)
    requires 1 <= d.day <= Length(d.month) && 0 <= d.time < DAY
    ensures At(d, i, offset) + offset + EPOCH * DAY >= 0
    ensures var shown := FromTimestamp(At(d, i, offset), offset);
      shown.month == d.month + i && shown.time == d.time && shown.day <= d.day
      && (shown.day < d.day ==> shown.day == Length(d.month + i))
  {
    hide Timestamp, Length, FromTimestamp;
    LocalRoundTrip(Anniversary(d, i), offset);
  }

  lemma AnniversaryStep(d: Local, i: nat, offset: int)
    requires 1 <= d.day <= 31
    ensures 28 * DAY <= At(d, i + 1, offset) - At(d, i, offset) <= 31 * DAY
  {
    hide FirstDay, Length;
    FirstDayStep(d.month + i);
  }

  lemma {:induction false} AnniversariesGrow(d: Local, i: nat, j: nat, offset: int)
    requires 1 <= d.day <= 31 && i <= j
    ensures At(d, i, offset) + 28 * DAY * (j - i) <= At(d, j, offset)
    decreases j
  {
    hide At;
    if i < j {
      AnniversariesGrow(d, i, j - 1, offset);
      AnniversaryStep(d, j - 1, offset);
    }
  }

  method NextMonthlyRenewal(created: int, now: int, offset: int) returns (r: int)
    requires -DAY < offset < DAY
    ensures created <= 0 ==> r == 0
    ensures created > 0 ==> Renews(FromTimestamp(created, offset), now, offset, r)
  {
    if created <= 0 {
      return 0;
    }
    hide Timestamp, Length, MonthLength;
    var d := FromTimestamp(created, offset);
    var y, m, anchor := d.month / 12, d.month % 12 + 1, d.day;
    var i := 0;
    while i < LOOP_MONTHS
      invariant 0 <= i <= LOOP_MONTHS && y >= 0 && 1 <= m <= 12 && 12 * y + m - 1 == d.month + i
      invariant forall j: nat :: j < i ==> Past(d, j, now, offset)
    {
      var n := MonthLength(y, m);
      var candidate := Timestamp(Local(12 * y + m - 1, if anchor < n then anchor else n, d.time), offset);
      SameLength(y, m);
      assert candidate == At(d, i, offset);
      if candidate >= now {
        assert FirstAt(d, i, now, offset, candidate);
        return candidate;
      }
      m := m + 1;
      if m > 12 {
        m := 1;
        y := y + 1;
      }
      i := i + 1;
    }
    return 0;
  }

  lemma SameLength(y: nat, m: int)
    requires 1 <= m <= 12
    ensures MonthLength(y, m) == Length(12 * y + m - 1)
  {
  }

  predicate Past(d: Local, i: nat, now: int, offset: int) {
    At(d, i, offset) < now
  }

  // The result is the first of 600 anniversaries that is not past, or 0 if all are.
  ghost predicate Renews(d: Local, now: int, offset: int, r: int) {
    if forall i: nat :: i < LOOP_MONTHS ==> Past(d, i, now, offset) then r == 0
    else exists i: nat :: i < LOOP_MONTHS && FirstAt(d, i, now, offset, r)
  }

  ghost predicate FirstAt(d: Local, i: nat, now: int, offset: int, r: int) {
    r == At(d, i, offset) && !Past(d, i, now, offset) && forall j: nat :: j < i ==> Past(d, j, now, offset)
  }

  // No anniversary that is still to come lies before the result; the result is 0 exactly when 600
  // months have passed; after the day of creation it lies less than 31 days ahead.
  lemma EarliestAnniversary(created: int, now: int, offset: int, r: int)
    requires created > 0 && -DAY < offset < DAY
    requires Renews(FromTimestamp(created, offset), now, offset, r)
    ensures r == 0 <==> Past(FromTimestamp(created, offset), 599, now, offset)
    ensures r != 0 ==> r >= now && exists i: nat :: r == At(FromTimestamp(created, offset), i, offset)
    ensures r != 0 ==> forall i: nat :: !Past(FromTimestamp(created, offset), i, now, offset) ==> r <= At(FromTimestamp(created, offset), i, offset)
    ensures r != 0 && now > created ==> r - now < 31 * 86_400_000_000
    ensures now <= created ==> r == created
  {
    hide At;
    var d := FromTimestamp(created, offset);
    StartsAtCreation(created, offset);
    assert Past(d, 0, now, offset) <==> created < now;
    if i: nat :| i < LOOP_MONTHS && FirstAt(d, i, now, offset, r) {
      FirstIsEarliest(d, i, now, offset, r);
      AnniversariesGrow(d, 0, i, offset);
      AnniversariesGrow(d, i, LOOP_MONTHS - 1, offset);
    }
  }

  lemma StartsAtCreation(created: int, offset: int)
    requires created + offset + EPOCH * DAY >= 0
    ensures At(FromTimestamp(created, offset), 0, offset) == created
  {
    hide FirstDay, Length;
    CalendarRoundTrip(created, offset);
  }

  lemma FirstIsEarliest(d: Local, i: nat, now: int, offset: int, r: int)
    requires 1 <= d.day <= 31 && FirstAt(d, i, now, offset, r)
    ensures forall j: nat :: !Past(d, j, now, offset) ==> r <= At(d, j, offset)
    ensures i > 0 ==> r - now < 31 * DAY
  {
    hide At;
    forall j: nat | !Past(d, j, now, offset) ensures r <= At(d, j, offset) {
      AnniversariesGrow(d, i, j, offset);
    }
    if i > 0 {
      AnniversaryStep(d, i - 1, offset);
    }
  }
}
