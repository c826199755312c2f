/** Calendar conversion: `mktime`'s closed formula and `_gmtime`'s jump by groups of four years, both against counting
    days one year and one month at a time under the Gregorian rules. */
module Calendar {
  import opened Machine
  import opened Division

  const DAY: nat := 86400
  const LENGTHS: seq<nat> := [31, 28, 31, 30, 31, 30, 31, 31, 30, 31, 30, 31]

  // ---------- The Gregorian calendar ----------

  predicate Leap(year: int) { year % 4 == 0 && (year % 100 != 0 || year % 400 == 0) }

  function YearDays(year: int): nat { if Leap(year) then 366 else 365 }

  function MonthDays(year: int, mon: nat): nat
    requires mon < 12
  {
    LENGTHS[mon] + if Leap(year) && mon == 1 then 1 else 0
  }

  /** The days of the years from 0 up to, and without, `year`. */
  function DaysBeforeYear(year: nat): nat {
    if year == 0 then 0 else DaysBeforeYear(year - 1) + YearDays(year - 1)
  }

  function DaysBeforeMonth(year: int, mon: nat): nat
    requires mon <= 12
  {
    if mon == 0 then 0 else DaysBeforeMonth(year, mon - 1) + MonthDays(year, mon - 1)
  }

  predicate ValidDate(year: int, mon: int, mday: int) {
    year >= 1 && 0 <= mon < 12 && 1 <= mday <= MonthDays(year, mon)
  }

  function DayNumber(year: int, mon: int, mday: int): nat
    requires ValidDate(year, mon, mday)
  {
    DaysBeforeYear(year) + DaysBeforeMonth(year, mon) + mday - 1
  }

  /** The multiples of 4, of 100 and of 400 among the years up to and with `year`, year 0 left out. */
  function Fourth(year: int): int { year / 4 }

  function Century(year: int): int { year / 100 }

  function FourCenturies(year: int): int { year / 400 }

  function LeapDays(year: int): int { Fourth(year) - Century(year) + FourCenturies(year) }

  lemma LeapDaysStep(year: int)
    ensures LeapDays(year) == LeapDays(year - 1) + if Leap(year) then 1 else 0
  {
    StepFourth(year);
    StepCentury(year);
    StepFourCenturies(year);
    hide Fourth, Century, FourCenturies;
    Coarser(year, 4, 25);
    Coarser(year, 100, 4);
  }

  lemma Coarser(x: int, d: nat, k: nat)
    requires d > 0 && k > 0
    ensures x % (d * k) == 0 ==> x % d == 0
  {
    if x % (d * k) == 0 {
      var q := x / (d * k);
      assert x == d * (k * q);
      DivisionIsUnique(d, x / d, x % d, k * q, 0);
    }
  }

  lemma StepFourth(year: int)
    ensures Fourth(year) == Fourth(year - 1) + if year % 4 == 0 then 1 else 0
  {
  }

  lemma StepCentury(year: int)
    ensures Century(year) == Century(year - 1) + if year % 100 == 0 then 1 else 0
  {
  }

  lemma StepFourCenturies(year: int)
    ensures FourCenturies(year) == FourCenturies(year - 1) + if year % 400 == 0 then 1 else 0
  {
  }

  lemma {:induction false} YearsClosedForm(year: nat)
    ensures DaysBeforeYear(year) == 365 * year + LeapDays(year - 1) + 1
  {
    if year > 0 {
      YearsClosedForm(year - 1);
      LeapDaysStep(year - 1);
      hide LeapDays, Leap;
    }
  }

  /** Where each month of a common year starts. */
  const STARTS: seq<nat> := [0, 31, 59, 90, 120, 151, 181, 212, 243, 273, 304, 334, 365]

  function MonthStart(mon: nat): nat
    requires mon <= 12
  {
    STARTS[mon]
  }

  lemma {:induction false} MonthTable(year: int, mon: nat)
    requires mon <= 12
    ensures DaysBeforeMonth(year, mon) == MonthStart(mon) + if mon >= 2 && Leap(year) then 1 else 0
  {
    if mon > 0 { MonthTable(year, mon - 1); }
  }

  lemma {:induction false} YearsInOrder(y: nat, z: nat)
    requires y < z
    ensures DaysBeforeYear(y) + YearDays(y) <= DaysBeforeYear(z)
  {
    if y < z - 1 { YearsInOrder(y, z - 1); }
  }

  lemma {:induction false} MonthsInOrder(year: int, m: nat, n: nat)
    requires m < n <= 12
    ensures DaysBeforeMonth(year, m) + MonthDays(year, m) <= DaysBeforeMonth(year, n)
  {
    if m < n - 1 { MonthsInOrder(year, m, n - 1); }
  }

  /** A day number names one date. */
  lemma DateIsUnique(y: int, m: int, d: int, y': int, m': int, d': int)
    requires ValidDate(y, m, d) && ValidDate(y', m', d') && DayNumber(y, m, d) == DayNumber(y', m', d')
    ensures y == y' && m == m' && d == d'
  {
    MonthTable(y, 12);
    MonthTable(y', 12);
    MonthsInOrder(y, m, 12);
    MonthsInOrder(y', m', 12);
    if y < y' { YearsInOrder(y, y'); } else if y' < y { YearsInOrder(y', y); }
    if m < m' { MonthsInOrder(y, m, m'); } else if m' < m { MonthsInOrder(y, m', m); }
  }

  // ---------- Time fields ----------

  /** The fields of `struct tm` that name a moment; `off` is `__tm_gmtoff`. */
  datatype Time = Time(sec: int, min: int, hour: int, mday: int, mon: int, year: int, off: int)

  predicate Valid(t: Time) {
    0 <= t.sec < 60 && 0 <= t.min < 60 && 0 <= t.hour < 24 && ValidDate(t.year + 1900, t.mon, t.mday)
  }

  /** Seconds from the start of 1970 on the local clock, by counting days. */
  function LocalSeconds(t: Time): int
    requires Valid(t)
  {
    (DayNumber(t.year + 1900, t.mon, t.mday) - DaysBeforeYear(1970)) * DAY + t.hour * 3600 + t.min * 60 + t.sec
  }

  /** The local clock names one moment. */
  lemma TimeIsUnique(t: Time, u: Time)
    requires Valid(t) && Valid(u) && LocalSeconds(t) == LocalSeconds(u) && t.off == u.off
    ensures t == u
  {
    hide LocalSeconds, DayNumber, DaysBeforeYear;
    SecondsOf(t);
    SecondsOf(u);
    hide ValidDate;
    ClockIsUnique(DayNumber(t.year + 1900, t.mon, t.mday), t, DayNumber(u.year + 1900, u.mon, u.mday), u);
    DateIsUnique(t.year + 1900, t.mon, t.mday, u.year + 1900, u.mon, u.mday);
  }

  lemma ClockIsUnique(d: int, t: Time, e: int, u: Time)
    requires 0 <= t.sec < 60 && 0 <= t.min < 60 && 0 <= t.hour < 24
    requires 0 <= u.sec < 60 && 0 <= u.min < 60 && 0 <= u.hour < 24
    requires d * DAY + t.hour * 3600 + t.min * 60 + t.sec == e * DAY + u.hour * 3600 + u.min * 60 + u.sec
    ensures d == e && t.hour == u.hour && t.min == u.min && t.sec == u.sec
  {
  }

  lemma SecondsOf(t: Time)
    requires Valid(t)
    ensures LocalSeconds(t) == (DayNumber(t.year + 1900, t.mon, t.mday) - DaysBeforeYear(1970)) * DAY
                               + t.hour * 3600 + t.min * 60 + t.sec
  {
  }

  function U32(x: int): nat { x % W32 }

  function U64(x: int): nat { x % W64 }

  /** `mktime`'s renumbering of the months, in `unsigned int`: two back, and January and February to the end of the year
      before. */
  function TwoBack(mon: int): nat { U32(U32(mon + 1) - 2) }

  predicate Winter(back: nat) { back == 0 || back >= 0x8000_0000 }

  function DayCount(y: nat, m: nat, mday: int): nat {
    U64(U32(LeapDays(y) + U32(367 * m) / 12 + U32(mday)) + U32(y * 365) - 719499)
  }

  function MktimeDays(t: Time): nat {
    var back, year := TwoBack(t.mon), U32(t.year + 1900);
    if Winter(back) then DayCount(U32(year - 1), U32(back + 12), t.mday) else DayCount(year, back, t.mday)
  }

  /** `mktime`, with the width of every operation: `unsigned int` up to the count of leap days, `unsigned long` after,
      and a result of type `u32`. */
  function Mktime(t: Time): nat { Clock(MktimeDays(t), t.hour, t.min, t.sec, t.off) }

  function Clock(days: nat, hour: int, min: int, sec: int, off: int): nat {
    var hours := U64(days * 24 + U32(hour));
    var minutes := U64(hours * 60 + U32(min));
    U32(U64(minutes * 60 + U32(sec) - off))
  }

  /** The formula over unbounded integers: months are renumbered so that February comes last. */
  function GaussMonth(m: int): int { 367 * m / 12 }

  function GaussDays(year: int, mon: int, mday: int): int {
    if mon < 2 then LeapDays(year - 1) + GaussMonth(mon + 11) + mday + (year - 1) * 365 - 719499
    else LeapDays(year) + GaussMonth(mon - 1) + mday + year * 365 - 719499
  }

  lemma GaussMonths(mon: nat)
    requires mon < 12
    ensures GaussMonth(if mon < 2 then mon + 11 else mon - 1) == MonthStart(mon) + if mon < 2 then 336 else -29
  {
  }

  lemma GaussCountsDays(year: int, mon: int, mday: int)
    requires ValidDate(year, mon, mday)
    ensures GaussDays(year, mon, mday) == DayNumber(year, mon, mday) - DaysBeforeYear(1970)
  {
    assert LeapDays(1969) == 477;
    hide DaysBeforeYear, DaysBeforeMonth, LeapDays, GaussMonth, Leap, MonthStart;
    YearsClosedForm(year);
    YearsClosedForm(1970);
    LeapDaysStep(year);
    MonthTable(year, mon);
    GaussMonths(mon);
  }

  lemma U32Of(x: int, y: int, j: int)
    requires x == y + W32 * j
    ensures U32(x) == U32(y)
  {
  }

  lemma U32Again(x: int)
    ensures U32(U32(x)) == U32(x) && U32(U64(x)) == U32(x)
  {
    var high: int := x / W64;
    U32Of(U64(x), x, W32 * -high);
  }

  lemma Sums(a: int, b: int, c: int, d: int)
    requires U32(a) == U32(b) && U32(c) == U32(d)
    ensures U32(a + c) == U32(b + d)
  {
    U32Of(a + c, b + d, a / W32 - b / W32 + (c / W32 - d / W32));
  }

  lemma Scaled(a: int, b: int, k: nat)
    requires U32(a) == U32(b)
    ensures U32(a * k) == U32(b * k)
  {
    var j := a / W32 - b / W32;
    assert a == b + W32 * j;
    assert a * k == b * k + W32 * (j * k);
    U32Of(a * k, b * k, j * k);
  }

  /** Truncation to 64 bits on the way does not show in a result of 32 bits. */
  lemma Narrow(a: int, b: int, k: nat, c: int, d: int)
    requires U32(a) == U32(b) && U32(c) == U32(d)
    ensures U32(U64(a * k + c)) == U32(b * k + d)
  {
    hide U32, U64;
    Scaled(a, b, k);
    Sums(a * k, b * k, c, d);
    U32Again(a * k + c);
  }

  lemma TwoBackIs(mon: int)
    requires 0 <= mon < 12
    ensures Winter(TwoBack(mon)) <==> mon < 2
    ensures if mon < 2 then U32(TwoBack(mon) + 12) == mon + 11 else TwoBack(mon) == mon - 1
  {
  }

  lemma DayCountIs(y: nat, m: nat, mday: int)
    requires m <= 12
    ensures U32(DayCount(y, m, mday)) == U32(LeapDays(y) + GaussMonth(m) + mday + y * 365 - 719499)
  {
    assert U32(367 * m) / 12 == GaussMonth(m);
    hide U32, U64, LeapDays, GaussMonth;
    var leaps := LeapDays(y) + GaussMonth(m);
    U32Again(mday);
    Sums(leaps, leaps, U32(mday), mday);
    U32Again(leaps + U32(mday));
    U32Again(y * 365);
    Sums(U32(leaps + U32(mday)), leaps + mday, U32(y * 365), y * 365);
    Sums(U32(leaps + U32(mday)) + U32(y * 365), leaps + mday + y * 365, -719499, -719499);
    U32Again(U32(leaps + U32(mday)) + U32(y * 365) - 719499);
  }

  lemma DaysOf(t: Time)
    requires Valid(t) && t.year < 0x8000_0000
    ensures U32(MktimeDays(t)) == U32(GaussDays(t.year + 1900, t.mon, t.mday))
  {
    var year := t.year + 1900;
    assert U32(year) == year && U32(year - 1) == year - 1;
    hide U32, DayCount, LeapDays, GaussMonth;
    TwoBackIs(t.mon);
    if t.mon < 2 { DayCountIs(year - 1, t.mon + 11, t.mday); } else { DayCountIs(year, t.mon - 1, t.mday); }
  }

  lemma GaussSeconds(t: Time)
    requires Valid(t)
    ensures LocalSeconds(t) == GaussDays(t.year + 1900, t.mon, t.mday) * DAY + t.hour * 3600 + t.min * 60 + t.sec
  {
    GaussCountsDays(t.year + 1900, t.mon, t.mday);
    hide GaussDays, DayNumber, DaysBeforeYear;
  }

  lemma ClockIs(days: nat, g: int, hour: int, min: int, sec: int, off: int)
    requires U32(days) == U32(g)
    ensures Clock(days, hour, min, sec, off) == U32(g * DAY + hour * 3600 + min * 60 + sec - off)
  {
    hide U32, U64;
    U32Again(hour);
    Narrow(days, g, 24, U32(hour), hour);
    U32Again(min);
    Narrow(U64(days * 24 + U32(hour)), g * 24 + hour, 60, U32(min), min);
    U32Again(sec);
    Sums(U32(sec), sec, -off, -off);
    Narrow(U64(U64(days * 24 + U32(hour)) * 60 + U32(min)), (g * 24 + hour) * 60 + min, 60, U32(sec) - off, sec - off);
  }

  /** `mktime` counts days: on every date from year 1 on, whose year is an `int`, it gives the seconds since 1970
      in UTC, modulo 2^32. */
  lemma MktimeCountsDays(t: Time)
    requires Valid(t) && t.year < 0x8000_0000
    ensures Mktime(t) == U32(LocalSeconds(t) - t.off)
  {
    hide GaussDays, LocalSeconds, Valid, MktimeDays, Clock, U32;
    DaysOf(t);
    GaussSeconds(t);
    ClockIs(MktimeDays(t), GaussDays(t.year + 1900, t.mon, t.mday), t.hour, t.min, t.sec, t.off);
  }

  // ---------- `_gmtime` ----------

  /** The leap rule of `_gmtime`, on years counted from 1900. */
  predicate LeapFrom1900(year: int) { (year % 4 == 0 && year % 100 != 0) || (year + 300) % 400 == 0 }

  lemma LeapFrom1900Iff(year: int)
    ensures LeapFrom1900(year) <==> Leap(year + 1900)
  {
    SameRemainders(year);
    var four, hundred := (year + 1900) % 4 == 0, (year + 1900) % 100 == 0;
    assert LeapFrom1900(year) <==> (four && !hundred) || (year + 1900) % 400 == 0;
    Coarser(year + 1900, 4, 100);
  }

  lemma SameRemainders(year: int)
    ensures (year + 1900) % 4 == year % 4 && (year + 1900) % 100 == year % 100
    ensures (year + 1900) % 400 == (year + 300) % 400
  {
    Offset(year, 4, 475);
    Offset(year, 100, 19);
    Offset(year + 300, 400, 4);
  }

  lemma Offset(x: int, d: nat, k: int)
    requires d > 0
    ensures (x + d * k) % d == x % d
  {
    var q, r := x / d, x % d;
    assert x + d * k == d * (q + k) + r;
    DivisionIsUnique(d, (x + d * k) / d, (x + d * k) % d, q + k, r);
  }

  /** The jump by groups of 1461 days with its correction lands on the start of a year. */
  lemma JumpLands(days: nat)
    ensures var year := days / 1461 * 4;
            DaysBeforeYear(year + 1900) + days % 1461 + (year + 99) / 100 - (year + 299) / 400
              == DaysBeforeYear(1900) + days
    ensures (days / 1461 * 4 + 299) / 400 <= (days / 1461 * 4 + 99) / 100
  {
    var q := days / 1461;
    var year := 4 * q;
    YearsClosedForm(year + 1900);
    Anchors();
    hide DaysBeforeYear;
    JumpCounts(q, year);
    hide Fourth, Century, FourCenturies;
  }

  lemma JumpCounts(q: nat, year: nat)
    requires year == 4 * q
    ensures Fourth(year + 1899) == q + 474
    ensures Century(year + 1899) == 18 + (year + 99) / 100
    ensures FourCenturies(year + 1899) == 4 + (year + 299) / 400
    ensures (year + 299) / 400 <= (year + 99) / 100
  {
  }

  /** The two years that the code counts from. */
  lemma Anchors()
    ensures DaysBeforeYear(1900) == 693961 && DaysBeforeYear(1970) == DaysBeforeYear(1900) + 25567
  {
    YearsClosedForm(1900);
    YearsClosedForm(1970);
    hide DaysBeforeYear;
    assert LeapDays(1899) == 460 && LeapDays(1969) == 477;
  }

  /** The year of a day counted from 1 January 1900, and the day within that year. */
  method FindYear(days: nat) returns (year: nat, yday: nat)
    ensures DaysBeforeYear(year + 1900) + yday == DaysBeforeYear(1900) + days && yday < YearDays(year + 1900)
  {
    hide DaysBeforeYear;
    JumpLands(days);
    year := days / 1461 * 4;
    yday := days % 1461 + (year + 99) / 100 - (year + 299) / 400;
    LeapFrom1900Iff(year);
    var length := if LeapFrom1900(year) then 366 else 365;
    while length <= yday
      invariant DaysBeforeYear(year + 1900) + yday == DaysBeforeYear(1900) + days
      invariant length == YearDays(year + 1900)
      decreases yday
    {
      NextYear(year + 1900);
      LeapFrom1900Iff(year + 1);
      yday, year := yday - length, year + 1;
      length := if LeapFrom1900(year) then 366 else 365;
    }
  }

  lemma NextYear(year: nat)
    ensures DaysBeforeYear(year + 1) == DaysBeforeYear(year) + YearDays(year)
  {
  }

  /** The month of a day within a year counted from 1900, and the day within that month. */
  method FindMonth(year: nat, yday: nat) returns (mon: nat, day: nat)
    requires yday < YearDays(year + 1900)
    ensures mon < 12 && DaysBeforeMonth(year + 1900, mon) + day == yday && day < MonthDays(year + 1900, mon)
  {
    LeapFrom1900Iff(year);
    MonthTable(year + 1900, 12);
    hide DaysBeforeMonth, Leap, LeapFrom1900;
    var leap := LeapFrom1900(year);
    mon, day := 0, yday;
    NoMonths(year + 1900);
    var length := LENGTHS[mon] + if leap && mon == 1 then 1 else 0;
    while length <= day
      invariant mon < 12 && DaysBeforeMonth(year + 1900, mon) + day == yday
      invariant length == MonthDays(year + 1900, mon)
      decreases day
    {
      NextMonth(year + 1900, mon);
      day, mon := day - length, mon + 1;
      length := LENGTHS[mon] + if leap && mon == 1 then 1 else 0;
    }
  }

  lemma NoMonths(year: int)
    ensures DaysBeforeMonth(year, 0) == 0
  {
  }

  lemma NextMonth(year: int, mon: nat)
    requires mon < 12
    ensures DaysBeforeMonth(year, mon + 1) == DaysBeforeMonth(year, mon) + MonthDays(year, mon)
  {
  }

  /** The clock fields of `local` and the date of its day name it. */
  lemma Assembled(local: nat, t: Time)
    requires t.sec == local % 60 && t.min == local / 60 % 60 && t.hour == local / 60 / 60 % 24
    requires ValidDate(t.year + 1900, t.mon, t.mday)
    requires DayNumber(t.year + 1900, t.mon, t.mday) == DaysBeforeYear(1900) + local / 60 / 60 / 24 + 25567
    ensures Valid(t) && LocalSeconds(t) == local
  {
    hide DaysBeforeYear, DayNumber, ValidDate;
    Anchors();
    var days := local / 60 / 60 / 24;
    assert local == days * DAY + t.hour * 3600 + t.min * 60 + t.sec;
  }

  /** The day of the week of a day counted by years and months, from 0 for Sunday. */
  function Weekday(day: int): nat { (1 + day - DaysBeforeYear(1900)) % 7 }

  /** It advances from day to day, and 1 January 1970 was a Thursday. */
  lemma WeekdayIs(day: int)
    ensures Weekday(day + 1) == (Weekday(day) + 1) % 7 && Weekday(DayNumber(1970, 0, 1)) == 4
  {
    Anchors();
    NoMonths(1970);
    hide DaysBeforeYear, DaysBeforeMonth;
  }

  class Tm {
    var sec: int
    var min: int
    var hour: int
    var mday: int
    var mon: int
    var year: int
    var wday: int
    var yday: int
    var off: int

    function Value(): Time
      reads this
    {
      Time(sec, min, hour, mday, mon, year, off)
    }

    /** The day of the week, and of the year, from 0. */
    predicate DaysAgree()
      reads this
      requires Valid(Value())
    {
      && wday == Weekday(DayNumber(year + 1900, mon, mday))
      && yday == DayNumber(year + 1900, mon, mday) - DaysBeforeYear(year + 1900)
    }

    /** `_gmtime` after its first line, which computes the local time. */
    method BreakDown(local: nat)
      modifies this
      ensures off == old(off)
      ensures Valid(Value()) && LocalSeconds(Value()) == local && DaysAgree()
    {
      hide LocalSeconds, DaysBeforeYear, DaysBeforeMonth, YearDays, LeapFrom1900;
      var rest := local;
      sec := rest % 60;
      rest := rest / 60;
      min := rest % 60;
      rest := rest / 60;
      hour := rest % 24;
      rest := rest / 24;
      wday := (rest + 4) % 7;
      var y, m, d;
      y, yday := FindYear(rest + 25567);
      m, d := FindMonth(y, yday);
      year, mon, mday := y, m, d + 1;
      Assembled(local, Value());
    }

    /** `_gmtime`: the local time is a word of 32 bits. */
    method GmtimeAt(timestamp: nat)
      modifies this
      ensures off == old(off)
      ensures Valid(Value()) && LocalSeconds(Value()) == U32(timestamp + off) && DaysAgree()
    {
      BreakDown(U32(timestamp + off));
    }

    method Gmtime(timestamp: nat)
      requires timestamp < W32
      modifies this
      ensures Valid(Value()) && off == 0 && LocalSeconds(Value()) == timestamp && DaysAgree()
    {
      hide LocalSeconds, DayNumber, ValidDate, U32;
      off := 0;
      GmtimeAt(timestamp);
      U32Small(timestamp);
    }

    /** Eight hours east of Greenwich. */
    method Localtime(timestamp: nat)
      modifies this
      ensures Valid(Value()) && off == 28800 && LocalSeconds(Value()) == U32(timestamp + 28800) && DaysAgree()
    {
      hide LocalSeconds, DayNumber, ValidDate, U32;
      off := 8 * 3600;
      GmtimeAt(timestamp);
    }
  }

  // ---------- Round trips ----------

  /** Whatever `_gmtime` makes of a timestamp, at any offset and past the end of the word, `mktime` undoes. */
  lemma MktimeInvertsGmtime(timestamp: nat, t: Time)
    requires timestamp < W32 && Valid(t) && LocalSeconds(t) == U32(timestamp + t.off)
    ensures Mktime(t) == timestamp
  {
    hide LocalSeconds, DayNumber, ValidDate, U32, Mktime;
    U32Small(timestamp);
    assert 0 <= U32(timestamp + t.off) < W32 by { U32Bounded(timestamp + t.off); }
    YearBounded(t);
    MktimeCountsDays(t);
    U32Again(timestamp + t.off);
    Sums(U32(timestamp + t.off), timestamp + t.off, -t.off, -t.off);
  }

  lemma U32Small(x: int)
    ensures U32(x) == x <==> 0 <= x < W32
  {
  }

  lemma U32Bounded(x: int)
    ensures 0 <= U32(x) < W32
  {
  }

  lemma {:induction false} YearsAtLeast(year: nat)
    ensures DaysBeforeYear(year) >= 365 * year
  {
    if year > 0 { YearsAtLeast(year - 1); }
  }

  /** A moment whose local clock fits a word lies in an `int` year. */
  lemma YearBounded(t: Time)
    requires Valid(t) && LocalSeconds(t) < W32
    ensures t.year < 0x8000_0000
  {
    YearsAtLeast(t.year + 1900);
    Anchors();
    SecondsOf(t);
    hide DaysBeforeYear, LocalSeconds;
  }

  /** `_gmtime` gives back a date that `mktime` turned into a timestamp exactly when the date's local clock is a word:
      in UTC, from 1970 until the timestamps run out. */
  lemma GmtimeInvertsMktimeIff(t: Time, u: Time)
    requires Valid(t) && t.year < 0x8000_0000
    requires u.off == t.off && Valid(u) && LocalSeconds(u) == U32(Mktime(t) + t.off)
    ensures u == t <==> 0 <= LocalSeconds(t) < W32
  {
    hide LocalSeconds, DayNumber, ValidDate, U32, Mktime;
    MktimeCountsDays(t);
    U32Again(LocalSeconds(t) - t.off);
    Sums(Mktime(t), LocalSeconds(t) - t.off, t.off, t.off);
    U32Small(LocalSeconds(t));
    if LocalSeconds(u) == LocalSeconds(t) { TimeIsUnique(t, u); }
  }
}
