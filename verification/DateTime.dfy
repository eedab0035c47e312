/**
 Calendar arithmetic: UNIX timestamps by accumulating loops in 32-bit arithmetic.
 Months and days are counted from zero.
 */
module DateTime {

  const TWO_31 := 0x8000_0000
  const TWO_32 := 0x1_0000_0000
  const DAY := 86400
  const YEAR := 31536000
  const MONTHS := [31, 28, 31, 30, 31, 30, 31, 31, 30, 31, 30, 31]

  // ---------- 32-bit arithmetic ----------

  function Add32(x: nat, y: int): nat {
    (x + y) % TWO_32
  }

  function ToSigned(x: nat): int {
    if x < TWO_31 then x else x - TWO_32
  }

  /** What is left of a timestamp in 32 bits. */
  function Int32(t: int): int {
    ToSigned(t % TWO_32)
  }

  // ---------- The calendar ----------

  function IsLeapYear(year: int): (leap: bool)
    ensures leap <==> year % 400 == 0 || (year % 4 == 0 && year % 100 != 0)
  {
    if year % 4 != 0 then false
    else if year % 100 != 0 then true
    else if year % 400 != 0 then false
    else true
  }

  function DaysIn(year: nat, month: nat): nat
    requires month < 12
  {
    MONTHS[month] + if month == 1 && IsLeapYear(year) then 1 else 0
  }

  /** The lengths of the months, counted from zero. */
  lemma MonthLengths(year: nat, month: nat)
    requires month < 12
    ensures DaysIn(year, month) == 31 <==> month in {0, 2, 4, 6, 7, 9, 11}
    ensures DaysIn(year, month) == 30 <==> month in {3, 5, 8, 10}
    ensures DaysIn(year, 1) == if year % 400 == 0 || (year % 4 == 0 && year % 100 != 0) then 29 else 28
  {
  }

  /** The days of the year before a month begins. */
  function DaysBefore(year: nat, month: nat): nat
    requires month <= 12
  {
    if month == 0 then 0 else DaysBefore(year, month - 1) + DaysIn(year, month - 1)
  }

  datatype DateTime = DateTime(year: nat, month: nat, day: nat, hour: nat, minute: nat, second: nat) {

    /** A date from 1970 on, as a 16-bit year and bytes hold it. */
    predicate Valid() {
      1970 <= year < 0x1_0000 && month < 12 && day < DaysIn(year, month) && hour < 24 && minute < 60 && second < 60
    }

    /** Seconds since the Epoch: the formula of section 4.16 of the Base Definitions of IEEE Std 1003.1-2017, which defines
        it from 1970 on. */
    function SecondsSinceTheEpoch(): int
      requires month <= 12
    {
      var tmYear := year - 1900;
      var tmYday := DaysBefore(year, month) + day;
      second + minute * 60 + hour * 3600 + tmYday * 86400
      + (tmYear - 70) * 31536000 + ((tmYear - 69) / 4) * 86400
      - ((tmYear - 1) / 100) * 86400 + ((tmYear + 299) / 400) * 86400
    }

    /** Calendar order. */
    predicate Before(that: DateTime) {
      year < that.year || (year == that.year && (
      month < that.month || (month == that.month && (
      day < that.day || (day == that.day && (
      hour < that.hour || (hour == that.hour && (
      minute < that.minute || (minute == that.minute && second < that.second)))))))))
    }

    // ---------- The operations ----------

    method ToTimestamp() returns (timestamp: int)
      requires month <= 12
      ensures timestamp == Int32(Accumulated(this))
      ensures year >= 1970 ==> timestamp == Int32(SecondsSinceTheEpoch())
    {
      hide Add32, Wraps, IsLeapYear, LeapDays, DaysBefore;
      var t := Add32(0, (year - 1970) * 31536000);
      ghost var exact := Added(0, 0, (year - 1970) * YEAR);
      LeapDaysStart();
      var i := 1970;
      while i < year
        invariant i == 1970 || i <= year
        invariant exact == (year - 1970) * YEAR + LeapDays(i) * DAY && Wraps(t, exact)
      {
        LeapDaysStep(i);
        if IsLeapYear(i) {
          exact := Added(t, exact, DAY);
          t := Add32(t, 86400);
        }
        i := i + 1;
      }
      ghost var start := exact;
      DaysBeforeStart(year);
      for i := 0 to month
        invariant exact == start + DaysBefore(year, i) * DAY && Wraps(t, exact)
      {
        DaysBeforeStep(year, i);
        exact := Added(t, exact, MONTHS[i] * DAY);
        t := Add32(t, MONTHS[i] * 86400);
        if i == 1 && IsLeapYear(year) {
          exact := Added(t, exact, DAY);
          t := Add32(t, 86400);
        }
      }
      exact := Added(t, exact, day * 86400);
      t := Add32(t, day * 86400);
      exact := Added(t, exact, hour * 3600);
      t := Add32(t, hour * 3600);
      exact := Added(t, exact, minute * 60);
      t := Add32(t, minute * 60);
      exact := Added(t, exact, second);
      t := Add32(t, second);
      timestamp := ToSigned(t);
      if year >= 1970 { ClosedForm(this); }
      Wrapped(t, exact);
    }

    /** operator< */
    method Less(that: DateTime) returns (less: bool)
      requires month <= 12 && that.month <= 12
      ensures less == (Int32(Accumulated(this)) < Int32(Accumulated(that)))
      ensures Valid() && that.Valid() && !LAST.Before(this) && !LAST.Before(that) ==> less == Before(that)
    {
      var mine := ToTimestamp();
      var yours := that.ToTimestamp();
      less := mine < yours;
      if Valid() && that.Valid() && !LAST.Before(this) && !LAST.Before(that) {
        ClosedForm(this);
        ClosedForm(that);
        LessAgreesExactlyWhen(this, that);
      }
    }

    /** operator== */
    method Equal(that: DateTime) returns (equal: bool)
      requires month <= 12 && that.month <= 12
      ensures equal == (Int32(Accumulated(this)) == Int32(Accumulated(that)))
      ensures Valid() && that.Valid() && !END.Before(this) && !END.Before(that) ==> equal == (this == that)
    {
      var mine := ToTimestamp();
      var yours := that.ToTimestamp();
      equal := mine == yours;
      if Valid() && that.Valid() && !END.Before(this) && !END.Before(that) {
        ClosedForm(this);
        ClosedForm(that);
        EqualAgrees(this, that);
      }
    }

    method GetDayOfWeek() returns (day: int)
      requires month <= 12
      ensures day == ReportedWeekday(Accumulated(this))
      ensures Valid() && !LAST.Before(this) ==> day == Weekday(this)
    {
      var timestamp := ToTimestamp();
      day := Remainder(Quotient(timestamp, 86400) + 4, 7);
      if Valid() && !LAST.Before(this) {
        ClosedForm(this);
        WeekdayCorrectExactlyWhen(this);
      }
    }
  }

  // ---------- Following the loops ----------

  /** What the loops add up: no leap days are counted before 1970. */
  function Accumulated(d: DateTime): int
    requires d.month <= 12
  {
    (d.year - 1970) * YEAR + (if d.year > 1970 then LeapDays(d.year) else 0) * DAY + DaysBefore(d.year, d.month) * DAY
    + d.day * 86400 + d.hour * 3600 + d.minute * 60 + d.second
  }

  /** The leap days from 1970 to the beginning of a year. */
  function LeapDays(year: int): int {
    (year - 1969) / 4 - (year - 1901) / 100 + (year - 1601) / 400
  }

  lemma LeapDaysStart()
    ensures LeapDays(1970) == 0
  {
  }

  lemma Carry4(x: int)
    ensures (x + 1) / 4 == x / 4 + if (x + 1) % 4 == 0 then 1 else 0
  {
  }

  lemma Carry100(x: int)
    ensures (x + 1) / 100 == x / 100 + if (x + 1) % 100 == 0 then 1 else 0
  {
  }

  lemma Carry400(x: int)
    ensures (x + 1) / 400 == x / 400 + if (x + 1) % 400 == 0 then 1 else 0
  {
  }

  lemma SameRemainders(year: int)
    ensures (year - 1968) % 4 == year % 4 && (year - 1900) % 100 == year % 100
  {
  }

  lemma SameRemainder400(year: int)
    ensures (year - 1600) % 400 == year % 400
  {
    var q, r := year / 400, year % 400;
    assert year - 1600 == 400 * (q - 4) + r;
  }

  lemma MultipleOf4(k: int)
    ensures 4 * k % 4 == 0
  {
  }

  lemma MultipleOf100(k: int)
    ensures 100 * k % 100 == 0
  {
  }

  lemma Divisors(year: int, cycles: int, centuries: int)
    requires cycles == year / 400 && centuries == year / 100
    requires year == 400 * cycles + year % 400 && year == 100 * centuries + year % 100
    ensures year % 400 == 0 ==> year % 100 == 0
    ensures year % 100 == 0 ==> year % 4 == 0
  {
    MultipleOf100(4 * cycles);
    MultipleOf4(25 * centuries);
  }

  lemma LeapDaysStep(year: nat)
    ensures LeapDays(year + 1) == LeapDays(year) + if IsLeapYear(year) then 1 else 0
  {
    Carry4(year - 1969);
    Carry100(year - 1901);
    Carry400(year - 1601);
    SameRemainders(year);
    SameRemainder400(year);
    Divisors(year, year / 400, year / 100);
  }

  lemma DaysBeforeStart(year: nat)
    ensures DaysBefore(year, 0) == 0
  {
  }

  lemma DaysBeforeStep(year: nat, month: nat)
    requires month < 12
    ensures DaysBefore(year, month + 1)
            == DaysBefore(year, month) + MONTHS[month] + if month == 1 && IsLeapYear(year) then 1 else 0
  {
  }

  ghost predicate Wraps(t: nat, exact: int) {
    t == exact % TWO_32
  }

  /** Adding in 32 bits what is added exactly. */
  ghost function Added(t: nat, exact: int, y: int): (e: int)
    ensures e == exact + y
    ensures Wraps(t, exact) ==> Wraps(Add32(t, y), e)
    ensures Wraps(Add32(0, y), y)
  {
    exact + y
  }

  lemma Wrapped(t: nat, exact: int)
    requires Wraps(t, exact)
    ensures ToSigned(t) == Int32(exact)
  {
  }

  lemma SecondsClosed(d: DateTime)
    requires d.month <= 12
    ensures d.SecondsSinceTheEpoch()
            == (d.year - 1970) * YEAR + LeapDays(d.year) * DAY + DaysBefore(d.year, d.month) * DAY
               + d.day * 86400 + d.hour * 3600 + d.minute * 60 + d.second
  {
  }

  lemma ClosedForm(d: DateTime)
    requires 1970 <= d.year && d.month <= 12
    ensures d.SecondsSinceTheEpoch() == Accumulated(d)
  {
    hide DateTime.SecondsSinceTheEpoch, LeapDays, DaysBefore;
    SecondsClosed(d);
    LeapDaysStart();
  }

  lemma {:induction false} LeapDaysGrow(year: nat, later: nat)
    requires year <= later
    ensures LeapDays(year) <= LeapDays(later)
    decreases later
  {
    hide LeapDays, IsLeapYear;
    if year == later {
    } else {
      LeapDaysStep(later - 1);
      LeapDaysGrow(year, later - 1);
    }
  }

  /** Taken back before 1970 with rounding down, the formula still holds in 1969 and in no year before it. */
  lemma BackToExactlyWhen(d: DateTime)
    requires d.month <= 12
    ensures Accumulated(d) == d.SecondsSinceTheEpoch() <==> d.year >= 1969
  {
    hide DateTime.SecondsSinceTheEpoch, LeapDays, DaysBefore;
    SecondsClosed(d);
    LeapDaysStart();
    LeapDaysBack();
    if d.year <= 1968 { LeapDaysGrow(d.year, 1968); }
  }

  /** The leap years from a year up to 1969. */
  function LeapYearsFrom(year: nat): nat
    requires year <= 1970
    decreases 1970 - year
  {
    if year == 1970 then 0 else LeapYearsFrom(year + 1) + if IsLeapYear(year) then 1 else 0
  }

  lemma {:induction false} LeapDaysMissed(year: nat)
    requires year <= 1970
    ensures LeapDays(year) + LeapYearsFrom(year) == 0
    decreases 1970 - year
  {
    hide LeapDays, IsLeapYear;
    if year == 1970 {
      LeapDaysStart();
    } else {
      LeapDaysStep(year);
      LeapDaysMissed(year + 1);
    }
  }

  /** For a year before 1970 the loops leave out the leap days from there to 1969, and are a day too far on for each. */
  lemma TooFarBy(d: DateTime)
    requires d.month <= 12 && d.year < 1970
    ensures Accumulated(d) == d.SecondsSinceTheEpoch() + 86400 * LeapYearsFrom(d.year)
  {
    hide DateTime.SecondsSinceTheEpoch, LeapDays, DaysBefore, LeapYearsFrom;
    SecondsClosed(d);
    LeapDaysMissed(d.year);
  }

  lemma LeapDaysBack()
    ensures LeapDays(1969) == 0 && LeapDays(1968) == -1
  {
  }

  // ---------- Calendar order ----------

  /** The last second a signed 32-bit timestamp can hold, and the last one before it comes round to zero. */
  const LAST := DateTime(2038, 0, 18, 3, 14, 7)
  const END := DateTime(2106, 1, 6, 6, 28, 15)

  /** The days from the Epoch to a date, counted year by year and month by month. */
  function DaysSinceTheEpoch(d: DateTime): int
    requires d.month <= 12
  {
    (d.year - 1970) * 365 + LeapDays(d.year) + DaysBefore(d.year, d.month) + d.day
  }

  lemma SecondsAndDays(d: DateTime)
    requires d.month <= 12
    ensures d.SecondsSinceTheEpoch() == DaysSinceTheEpoch(d) * DAY + d.hour * 3600 + d.minute * 60 + d.second
  {
    SecondsClosed(d);
  }

  lemma YearEnds(year: nat)
    ensures DaysBefore(year, 12) == 365 + if IsLeapYear(year) then 1 else 0
  {
    hide IsLeapYear;
    assert DaysBefore(year, 4) == DaysBefore(year, 0) + 120 + if IsLeapYear(year) then 1 else 0 by {
      DaysBeforeStart(year);
      DaysBeforeStep(year, 0);
      DaysBeforeStep(year, 1);
      DaysBeforeStep(year, 2);
      DaysBeforeStep(year, 3);
    }
    assert DaysBefore(year, 8) == DaysBefore(year, 4) + 123 by {
      DaysBeforeStep(year, 4);
      DaysBeforeStep(year, 5);
      DaysBeforeStep(year, 6);
      DaysBeforeStep(year, 7);
    }
    assert DaysBefore(year, 12) == DaysBefore(year, 8) + 122 by {
      DaysBeforeStep(year, 8);
      DaysBeforeStep(year, 9);
      DaysBeforeStep(year, 10);
      DaysBeforeStep(year, 11);
    }
  }

  lemma {:induction false} LaterMonth(year: nat, m: nat, n: nat)
    requires m < n <= 12
    ensures DaysBefore(year, m) + DaysIn(year, m) <= DaysBefore(year, n)
    decreases n
  {
    if m == n - 1 {
    } else {
      LaterMonth(year, m, n - 1);
    }
  }

  lemma {:induction false} LaterYear(y: nat, z: nat)
    requires y < z
    ensures y * 365 + LeapDays(y) + DaysBefore(y, 12) <= z * 365 + LeapDays(z)
    decreases z
  {
    hide LeapDays, IsLeapYear, DaysBefore;
    YearEnds(z - 1);
    LeapDaysStep(z - 1);
    if y == z - 1 {
    } else {
      LaterYear(y, z - 1);
    }
  }

  lemma LaterDay(d: DateTime, e: DateTime)
    requires d.Valid() && e.Valid()
    requires d.year < e.year || (d.year == e.year && (d.month < e.month || (d.month == e.month && d.day < e.day)))
    ensures DaysSinceTheEpoch(d) < DaysSinceTheEpoch(e)
  {
    if d.year < e.year {
      LaterYear(d.year, e.year);
      LaterMonth(d.year, d.month, 12);
    } else if d.month < e.month {
      LaterMonth(d.year, d.month, e.month);
    }
  }

  /** Timestamps grow with the calendar. */
  lemma StrictlyIncreasing(d: DateTime, e: DateTime)
    requires d.Valid() && e.Valid() && d.Before(e)
    ensures d.SecondsSinceTheEpoch() < e.SecondsSinceTheEpoch()
  {
    hide LeapDays, DaysBefore;
    SecondsAndDays(d);
    SecondsAndDays(e);
    if d.year != e.year || d.month != e.month || d.day != e.day {
      LaterDay(d, e);
    }
  }

  lemma OrderAgrees(d: DateTime, e: DateTime)
    requires d.Valid() && e.Valid()
    ensures d.SecondsSinceTheEpoch() < e.SecondsSinceTheEpoch() <==> d.Before(e)
    ensures d.SecondsSinceTheEpoch() == e.SecondsSinceTheEpoch() <==> d == e
  {
    if d.Before(e) {
      StrictlyIncreasing(d, e);
    } else if e.Before(d) {
      StrictlyIncreasing(e, d);
    }
  }

  lemma EpochIsZero(d: DateTime)
    requires d.Valid()
    ensures 0 <= d.SecondsSinceTheEpoch()
  {
    hide LeapDays, DaysBefore, DateTime.SecondsSinceTheEpoch;
    SecondsAndDays(d);
    LeapDaysStart();
    if d.year > 1970 {
      LaterYear(1970, d.year);
    }
    DaysBeforePositive(d.year, d.month);
    DaysBeforePositive(1970, 12);
  }

  lemma {:induction false} DaysBeforePositive(year: nat, month: nat)
    requires month <= 12
    ensures DaysBefore(year, month) >= 0
  {
  }

  lemma Limits()
    ensures LAST.Valid() && LAST.SecondsSinceTheEpoch() == TWO_31 - 1
    ensures END.Valid() && END.SecondsSinceTheEpoch() == TWO_32 - 1
  {
  }

  /** A timestamp is exact up to the last second of 2038 it can hold, and negative from there up to 2106. */
  lemma ExactExactlyWhen(d: DateTime)
    requires d.Valid()
    ensures Int32(d.SecondsSinceTheEpoch()) == d.SecondsSinceTheEpoch() <==> !LAST.Before(d)
    ensures LAST.Before(d) && !END.Before(d) ==> Int32(d.SecondsSinceTheEpoch()) == d.SecondsSinceTheEpoch() - TWO_32 < 0
  {
    Limits();
    EpochIsZero(d);
    OrderAgrees(LAST, d);
    OrderAgrees(END, d);
  }

  /** operator< is calendar order exactly when both dates are on the same side of the limit. */
  lemma LessAgreesExactlyWhen(d: DateTime, e: DateTime)
    requires d.Valid() && e.Valid() && !END.Before(d) && !END.Before(e)
    ensures ((Int32(d.SecondsSinceTheEpoch()) < Int32(e.SecondsSinceTheEpoch())) == d.Before(e))
            <==> LAST.Before(d) == LAST.Before(e)
  {
    hide DateTime.SecondsSinceTheEpoch, DateTime.Before;
    EpochIsZero(d);
    EpochIsZero(e);
    ExactExactlyWhen(d);
    ExactExactlyWhen(e);
    OrderAgrees(d, e);
    Limits();
    OrderAgrees(LAST, d);
    OrderAgrees(LAST, e);
  }

  /** One second after the limit the order is reversed. */
  lemma LessFails(e: DateTime)
    requires e == LAST.(second := 8)
    ensures LAST.Valid() && e.Valid() && LAST.Before(e)
    ensures Int32(e.SecondsSinceTheEpoch()) < Int32(LAST.SecondsSinceTheEpoch())
  {
    hide DateTime.SecondsSinceTheEpoch;
    Limits();
    SecondsAndDays(e);
    SecondsAndDays(LAST);
  }

  lemma EqualAgrees(d: DateTime, e: DateTime)
    requires d.Valid() && e.Valid() && !END.Before(d) && !END.Before(e)
    ensures Int32(d.SecondsSinceTheEpoch()) == Int32(e.SecondsSinceTheEpoch()) <==> d == e
  {
    hide DateTime.SecondsSinceTheEpoch, DateTime.Before;
    EpochIsZero(d);
    EpochIsZero(e);
    ExactExactlyWhen(d);
    ExactExactlyWhen(e);
    OrderAgrees(d, e);
    Limits();
    OrderAgrees(LAST, d);
    OrderAgrees(LAST, e);
  }

  /** One second later, timestamps start again from the Epoch. */
  lemma EqualFails(d: DateTime, e: DateTime)
    requires d == DateTime(1970, 0, 0, 0, 0, 0) && e == END.(second := 16)
    ensures d.Valid() && e.Valid() && d != e
    ensures Int32(d.SecondsSinceTheEpoch()) == Int32(e.SecondsSinceTheEpoch())
  {
    EpochStart();
    hide DateTime.SecondsSinceTheEpoch;
    Limits();
    SecondsAndDays(e);
    SecondsAndDays(END);
  }

  lemma EpochStart()
    ensures DateTime(1970, 0, 0, 0, 0, 0).SecondsSinceTheEpoch() == 0
  {
  }

  // ---------- Days of the week ----------

  /** Division as the machine does it, towards zero. */
  function Quotient(x: int, y: int): int
    requires y > 0
  {
    if x >= 0 then x / y else -(-x / y)
  }

  function Remainder(x: int, y: int): int
    requires y > 0
  {
    x - Quotient(x, y) * y
  }

  function ReportedWeekday(seconds: int): int {
    Remainder(Quotient(Int32(seconds), DAY) + 4, 7)
  }

  /** Sunday is 0; the Epoch was a Thursday. */
  function Weekday(d: DateTime): nat
    requires d.month <= 12
  {
    (DaysSinceTheEpoch(d) + 4) % 7
  }

  function NextDay(d: DateTime): DateTime
    requires d.Valid()
  {
    if d.day + 1 < DaysIn(d.year, d.month) then d.(day := d.day + 1)
    else if d.month < 11 then d.(month := d.month + 1, day := 0)
    else d.(year := d.year + 1, month := 0, day := 0)
  }

  lemma DayCount(d: DateTime)
    requires d.Valid()
    ensures DaysSinceTheEpoch(NextDay(d)) == DaysSinceTheEpoch(d) + 1
    ensures d.year < 0xFFFF ==> NextDay(d).Valid()
  {
    hide LeapDays, IsLeapYear, DaysBefore;
    DaysBeforeStart(d.year + 1);
    DaysBeforeStep(d.year, d.month);
    YearEnds(d.year);
    LeapDaysStep(d.year);
  }

  lemma FirstDay(d: DateTime)
    requires d.year == 1970 && d.month == d.day == 0
    ensures DaysSinceTheEpoch(d) == 0
  {
    LeapDaysStart();
    DaysBeforeStart(1970);
  }

  lemma WeekGoesOn(days: int)
    ensures (days + 1 + 4) % 7 == ((days + 4) % 7 + 1) % 7
  {
  }

  /** From day to day, over the ends of months and years, the timestamp grows by a day and the week goes on. */
  lemma NextDayFollows(d: DateTime)
    requires d.Valid()
    ensures NextDay(d).SecondsSinceTheEpoch() == d.SecondsSinceTheEpoch() + DAY
    ensures Weekday(NextDay(d)) == (Weekday(d) + 1) % 7
    ensures d.year == 1970 && d.month == d.day == 0 ==> Weekday(d) == 4
  {
    hide DaysSinceTheEpoch, DateTime.SecondsSinceTheEpoch;
    SecondsAndDays(d);
    SecondsAndDays(NextDay(d));
    DayCount(d);
    WeekGoesOn(DaysSinceTheEpoch(d));
    if d.year == 1970 && d.month == d.day == 0 { FirstDay(d); }
  }

  lemma TimeOfDay(d: DateTime)
    requires d.Valid()
    ensures 0 <= d.hour * 3600 + d.minute * 60 + d.second < DAY
  {
  }

  lemma QuotientOfDays(days: int, time: nat)
    requires 0 <= days && time < DAY
    ensures Quotient(days * DAY + time, DAY) == days
  {
  }

  /** 2^32 seconds are 49710 days and 23296 seconds. */
  lemma QuotientBeforeEnd(days: int, time: nat)
    requires time < DAY && days * DAY + time < TWO_32
    ensures Quotient(days * DAY + time - TWO_32, DAY) == days - 49710 + if time > 23296 then 1 else 0
  {
    var left := TWO_32 - (days * DAY + time);
    var whole := 49710 - days - if time > 23296 then 1 else 0;
    assert left == whole * DAY + if time > 23296 then DAY + 23296 - time else 23296 - time;
    assert left / DAY == whole;
  }

  lemma WeekRemainders(days: nat)
    ensures Remainder(days + 4, 7) == (days + 4) % 7
    ensures days <= 49710 ==> Remainder(days - 49710 + 4, 7) != (days + 4) % 7
    ensures days <= 49709 ==> Remainder(days - 49710 + 5, 7) != (days + 4) % 7
  {
  }

  /** The day of the week is right exactly up to the limit; beyond it, never (up to 2106). */
  lemma WeekdayCorrectExactlyWhen(d: DateTime)
    requires d.Valid() && !END.Before(d)
    ensures ReportedWeekday(d.SecondsSinceTheEpoch()) == Weekday(d) <==> !LAST.Before(d)
  {
    hide DateTime.SecondsSinceTheEpoch, DateTime.Before, DaysSinceTheEpoch, Quotient, Remainder, Int32;
    ExactExactlyWhen(d);
    SecondsAndDays(d);
    TimeOfDay(d);
    EpochIsZero(d);
    Limits();
    OrderAgrees(END, d);
    var days, time := DaysSinceTheEpoch(d), d.hour * 3600 + d.minute * 60 + d.second;
    assert 0 <= days <= 49710;
    WeekRemainders(days);
    if LAST.Before(d) {
      QuotientBeforeEnd(days, time);
    } else {
      QuotientOfDays(days, time);
    }
  }

  /** On that second, a Tuesday, the reported day is -1. */
  lemma WeekdayFails(e: DateTime)
    requires e == LAST.(second := 8)
    ensures e.Valid() && Weekday(e) == 2 && ReportedWeekday(e.SecondsSinceTheEpoch()) == -1
  {
    hide DateTime.SecondsSinceTheEpoch;
    Limits();
    SecondsAndDays(e);
    SecondsAndDays(LAST);
    assert DaysSinceTheEpoch(e) == DaysSinceTheEpoch(LAST) == 24855;
  }

  // ---------- Exactly how far ----------

  ghost predicate EqualUpTo(limit: DateTime) {
    forall d: DateTime, e: DateTime :: d.Valid() && e.Valid() && !limit.Before(d) && !limit.Before(e) ==>
      (Int32(d.SecondsSinceTheEpoch()) == Int32(e.SecondsSinceTheEpoch()) <==> d == e)
  }

  ghost predicate LessUpTo(limit: DateTime) {
    forall d: DateTime, e: DateTime :: d.Valid() && e.Valid() && !limit.Before(d) && !limit.Before(e) ==>
      (Int32(d.SecondsSinceTheEpoch()) < Int32(e.SecondsSinceTheEpoch()) <==> d.Before(e))
  }

  ghost predicate WeekdayUpTo(limit: DateTime) {
    forall d: DateTime :: d.Valid() && !limit.Before(d) ==> ReportedWeekday(d.SecondsSinceTheEpoch()) == Weekday(d)
  }

  lemma BeforeTransitive(a: DateTime, b: DateTime, c: DateTime)
    requires !b.Before(a) && !c.Before(b)
    ensures !c.Before(a)
  {
  }

  lemma After(a: DateTime, next: DateTime, limit: DateTime)
    requires a.second < 59 && next == a.(second := a.second + 1) && a.Before(limit) && limit.second < 60
    ensures !limit.Before(next) && !limit.Before(a)
  {
  }

  /** operator== is equality of all dates up to a limit if and only if the limit is not after 2106-02-07 06:28:15. */
  lemma EqualUpToExactlyWhen(limit: DateTime)
    requires limit.Valid()
    ensures EqualUpTo(limit) <==> !END.Before(limit)
  {
    hide DateTime.SecondsSinceTheEpoch, Int32;
    if END.Before(limit) {
      var d, e := DateTime(1970, 0, 0, 0, 0, 0), END.(second := 16);
      After(END, e, limit);
      EqualFails(d, e);
      assert !limit.Before(d);
    } else {
      forall d: DateTime, e: DateTime | d.Valid() && e.Valid() && !limit.Before(d) && !limit.Before(e)
        ensures Int32(d.SecondsSinceTheEpoch()) == Int32(e.SecondsSinceTheEpoch()) <==> d == e
      {
        BeforeTransitive(d, limit, END);
        BeforeTransitive(e, limit, END);
        EqualAgrees(d, e);
      }
    }
  }

  /** operator< is calendar order of all dates up to a limit if and only if the limit is not after 2038-01-19 03:14:07. */
  lemma LessUpToExactlyWhen(limit: DateTime)
    requires limit.Valid()
    ensures LessUpTo(limit) <==> !LAST.Before(limit)
  {
    hide DateTime.SecondsSinceTheEpoch, Int32;
    if LAST.Before(limit) {
      var e := LAST.(second := 8);
      After(LAST, e, limit);
      LessFails(e);
    } else {
      forall d: DateTime, e: DateTime | d.Valid() && e.Valid() && !limit.Before(d) && !limit.Before(e)
        ensures Int32(d.SecondsSinceTheEpoch()) < Int32(e.SecondsSinceTheEpoch()) <==> d.Before(e)
      {
        BeforeTransitive(d, limit, LAST);
        BeforeTransitive(e, limit, LAST);
        LessAgreesExactlyWhen(d, e);
      }
    }
  }

  /** The day of the week is right for all dates up to a limit if and only if the limit is not after that second. */
  lemma WeekdayUpToExactlyWhen(limit: DateTime)
    requires limit.Valid()
    ensures WeekdayUpTo(limit) <==> !LAST.Before(limit)
  {
    hide DateTime.SecondsSinceTheEpoch, ReportedWeekday, Weekday;
    if LAST.Before(limit) {
      var e := LAST.(second := 8);
      After(LAST, e, limit);
      WeekdayFails(e);
    } else {
      forall d: DateTime | d.Valid() && !limit.Before(d)
        ensures ReportedWeekday(d.SecondsSinceTheEpoch()) == Weekday(d)
      {
        BeforeTransitive(d, limit, LAST);
        WeekdayCorrectExactlyWhen(d);
      }
    }
  }
}
