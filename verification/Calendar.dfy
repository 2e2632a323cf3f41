/**
 Calendar conversions (kernel/drivers/timer.c) and the packed stamps of FAT (kernel/fs/fat.c).
 */
module Calendar {

  import opened Common

  datatype Datetime = Datetime(year: nat, month: nat, day: nat, hour: nat, minute: nat, second: nat)

  /** `is_leap` */
  function IsLeap(y: nat): bool {
    y % 4 == 0 && (y % 100 != 0 || y % 400 == 0)
  }

  function YearDays(y: nat): nat {
    if IsLeap(y) then 366 else 365
  }

  /** `mdays`, from January on. */
  function Mdays(): (r: seq<nat>)
    ensures |r| == 12
  {
    [31, 28, 31, 30, 31, 30, 31, 31, 30, 31, 30, 31]
  }

  function MonthDays(m: nat, y: nat): nat
    requires 1 <= m <= 12
  {
    Mdays()[m - 1] + if m == 2 && IsLeap(y) then 1 else 0
  }

  // ---------------------------------------------------------------- the days of a date

  /** The days from 1970 to the beginning of year y. */
  function DaysToYear(y: nat): nat {
    if y <= 1970 then 0 else DaysToYear(y - 1) + YearDays(y - 1)
  }

  /** The days of year y before month m. */
  function DaysToMonth(m: nat, y: nat): nat
    requires m <= 13
  {
    if m <= 1 then 0 else DaysToMonth(m - 1, y) + MonthDays(m - 1, y)
  }

  lemma YearSum(y: nat)
    ensures DaysToMonth(13, y) == YearDays(y)
  {
    assert DaysToMonth(2, y) == 31;
    assert DaysToMonth(3, y) == YearDays(y) - 306;
    assert DaysToMonth(4, y) == YearDays(y) - 275;
    assert DaysToMonth(5, y) == YearDays(y) - 245;
    assert DaysToMonth(6, y) == YearDays(y) - 214;
    assert DaysToMonth(7, y) == YearDays(y) - 184;
    assert DaysToMonth(8, y) == YearDays(y) - 153;
    assert DaysToMonth(9, y) == YearDays(y) - 122;
    assert DaysToMonth(10, y) == YearDays(y) - 92;
    assert DaysToMonth(11, y) == YearDays(y) - 61;
    assert DaysToMonth(12, y) == YearDays(y) - 31;
  }

  predicate Valid(dt: Datetime) {
    && 1970 <= dt.year && 1 <= dt.month <= 12 && 1 <= dt.day <= MonthDays(dt.month, dt.year)
    && dt.hour < 24 && dt.minute < 60 && dt.second < 60
  }

  /** The days from the epoch to a date; `dt.day - 1` is unsigned with 32 bits. */
  function Days(dt: Datetime): nat
    requires dt.month <= 13
  {
    DaysToYear(dt.year) + DaysToMonth(dt.month, dt.year) + (if dt.day == 0 then 0xFFFF_FFFF else dt.day - 1)
  }

  function Unix(dt: Datetime): nat
    requires dt.month <= 13
  {
    Days(dt) * 86400 + dt.hour * 3600 + dt.minute * 60 + dt.second
  }

  /** The formula of section 4.16 of POSIX.1-2017 Base Definitions, with tm_year == year - 1900. */
  function Posix(year: int, yday: int, hour: int, minute: int, second: int): int {
    var tm_year := year - 1900;
    second + minute * 60 + hour * 3600 + yday * 86400
    + (tm_year - 70) * 31536000 + ((tm_year - 69) / 4) * 86400 - ((tm_year - 1) / 100) * 86400 + ((tm_year + 299) / 400) * 86400
  }

  lemma {:induction false} LeapDays(y: nat)
    requires 1970 <= y
    ensures DaysToYear(y) == 365 * (y - 1970) + (y - 1969) / 4 - (y - 1901) / 100 + (y - 1601) / 400
  {
    if y > 1970 {
      LeapDays(y - 1);
      Fours(y - 1);
      Hundreds(y - 1);
      FourHundreds(y - 1);
      LeapCases(y - 1);
    }
  }

  lemma Fours(y: nat)
    requires 1969 <= y
    ensures (y - 1968) / 4 - (y - 1969) / 4 == if y % 4 == 0 then 1 else 0
  {
  }

  lemma Hundreds(y: nat)
    requires 1969 <= y
    ensures (y - 1900) / 100 - (y - 1901) / 100 == if y % 100 == 0 then 1 else 0
  {
  }

  lemma FourHundreds(y: nat)
    requires 1969 <= y
    ensures (y - 1600) / 400 - (y - 1601) / 400 == if y % 400 == 0 then 1 else 0
  {
  }

  lemma LeapCases(y: nat)
    ensures YearDays(y) == 365 + (if y % 4 == 0 then 1 else 0) - (if y % 100 == 0 then 1 else 0) + (if y % 400 == 0 then 1 else 0)
  {
    ByHundred(y);
    ByFour(y);
  }

  lemma ByHundred(y: nat)
    ensures y % 400 == 0 ==> y % 100 == 0
  {
    if y % 400 == 0 {
      var k := 4 * (y / 400);
      assert y == 100 * k;
    }
  }

  lemma ByFour(y: nat)
    ensures y % 100 == 0 ==> y % 4 == 0
  {
    if y % 100 == 0 {
      var k := 25 * (y / 100);
      assert y == 4 * k;
    }
  }

  /** The days of the year before a month, without the table of months. */
  function Before(month: nat, year: nat): int {
    (367 * month - 362) / 12 - if month <= 2 then 0 else if year % 400 == 0 || (year % 4 == 0 && year % 100 != 0) then 1 else 2
  }

  lemma {:induction false} MonthsBefore(month: nat, year: nat)
    requires 1 <= month <= 13
    ensures DaysToMonth(month, year) == Before(month, year)
  {
    if month > 1 {
      MonthsBefore(month - 1, year);
      MonthIs(month - 1, year);
    }
  }

  lemma MonthIs(month: nat, year: nat)
    requires 1 <= month <= 12
    ensures Before(month + 1, year) - Before(month, year) == MonthDays(month, year)
  {
    ByHundred(year);
    ByFour(year);
    var leap := IsLeap(year);
    if month == 1 {} else if month == 2 {} else if month == 3 {} else if month == 4 {} else if month == 5 {} else if month == 6 {}
    else if month == 7 {} else if month == 8 {} else if month == 9 {} else if month == 10 {} else if month == 11 {}
  }

  /** Timestamps are what POSIX prescribes, also for the month and the day behind the end; a day of 0 wraps with 32 bits. */
  lemma UnixIsPosix(dt: Datetime)
    requires 1970 <= dt.year && 1 <= dt.month <= 13 && dt.day < 0x1_0000_0000
    ensures Unix(dt) == Posix(dt.year, Before(dt.month, dt.year) + (dt.day + 0xFFFF_FFFF) % 0x1_0000_0000, dt.hour, dt.minute, dt.second)
  {
    LeapDays(dt.year);
    MonthsBefore(dt.month, dt.year);
  }

  /** The dates there are, without the table of months. */
  lemma ValidDates(dt: Datetime)
    ensures Valid(dt) <==>
      && 1970 <= dt.year && 1 <= dt.month <= 12 && 1 <= dt.day <= Before(dt.month + 1, dt.year) - Before(dt.month, dt.year)
      && dt.hour < 24 && dt.minute < 60 && dt.second < 60
  {
    if 1 <= dt.month <= 12 {
      MonthsBefore(dt.month, dt.year);
      MonthsBefore(dt.month + 1, dt.year);
    }
  }

  // ---------------------------------------------------------------- one date for each timestamp

  lemma {:induction false} YearsApart(a: nat, b: nat)
    requires 1970 <= a < b
    ensures DaysToYear(a) + YearDays(a) <= DaysToYear(b)
  {
    if a + 1 < b { YearsApart(a, b - 1); }
  }

  lemma {:induction false} MonthsApart(a: nat, b: nat, y: nat)
    requires 1 <= a < b <= 13
    ensures DaysToMonth(a, y) + MonthDays(a, y) <= DaysToMonth(b, y)
  {
    if a + 1 < b { MonthsApart(a, b - 1, y); }
  }

  lemma InYear(dt: Datetime)
    requires Valid(dt)
    ensures DaysToYear(dt.year) <= Days(dt) < DaysToYear(dt.year) + YearDays(dt.year)
  {
    YearSum(dt.year);
    MonthsApart(dt.month, 13, dt.year);
  }

  /** Different valid dates have different timestamps. */
  lemma UnixInjective(a: Datetime, b: Datetime)
    requires Valid(a) && Valid(b) && Unix(a) == Unix(b)
    ensures a == b
  {
    assert Days(a) == Days(b);
    InYear(a);
    InYear(b);
    if a.year < b.year { YearsApart(a.year, b.year); } else if b.year < a.year { YearsApart(b.year, a.year); }
    if a.month < b.month { MonthsApart(a.month, b.month, a.year); } else if b.month < a.month { MonthsApart(b.month, a.month, a.year); }
  }

  /** `to_unix_timestamp`; None is a read behind the table of months, after which nothing is promised. */
  method ToUnixTimestamp(dt: Datetime) returns (r: Option<nat>)
    ensures r == if dt.month <= 13 then Some(Unix(dt)) else None
  {
    var days: nat := 0;
    var y: nat := 1970;
    while y < dt.year
      invariant 1970 <= y <= (if dt.year >= 1970 then dt.year else 1970) && days == DaysToYear(y)
      decreases dt.year - y
    {
      days := days + if IsLeap(y) then 366 else 365;
      y := y + 1;
    }
    assert days == DaysToYear(dt.year);
    var mdays := Mdays();
    var m: nat := 1;
    while m < dt.month
      invariant 1 <= m <= (if dt.month >= 1 then dt.month else 1) && m <= 13
      invariant days == DaysToYear(dt.year) + DaysToMonth(m, dt.year)
      decreases dt.month - m
    {
      if m - 1 >= |mdays| { return None; }
      days := days + mdays[m - 1];
      if m == 2 && IsLeap(dt.year) { days := days + 1; }
      m := m + 1;
    }
    days := days + if dt.day == 0 then 0xFFFF_FFFF else dt.day - 1;
    r := Some(days * 86400 + dt.hour * 3600 + dt.minute * 60 + dt.second);
  }

  /** `to_datetime`: for every timestamp the one valid date that has it; the month index never leaves the table. */
  method ToDatetime(timestamp: nat) returns (dt: Datetime)
    ensures Valid(dt) && Unix(dt) == timestamp
  {
    var days: nat := timestamp / 86400;
    var seconds: nat := timestamp % 86400;
    var hour: nat := seconds / 3600;
    seconds := seconds % 3600;
    var minute: nat := seconds / 60;
    var second: nat := seconds % 60;

    var year: nat := 1970;
    while days >= YearDays(year)
      invariant 1970 <= year && timestamp / 86400 == DaysToYear(year) + days
      decreases days
    {
      days := days - YearDays(year);
      year := year + 1;
    }

    var mdays := Mdays();
    var month: nat := 0;
    YearSum(year);
    while true
      invariant 0 <= month <= 11 && timestamp / 86400 == DaysToYear(year) + DaysToMonth(month + 1, year) + days
      invariant DaysToMonth(month + 1, year) + days < YearDays(year)
      decreases 11 - month
    {
      var inMonth := mdays[month];
      if month == 1 && IsLeap(year) { inMonth := inMonth + 1; }
      if days < inMonth { break; }
      days := days - inMonth;
      month := month + 1;
    }
    dt := Datetime(year, month + 1, days + 1, hour, minute, second);
  }

  /** Both round trips. */
  method RoundTrips(t: nat, d: Datetime) returns (t': nat, d': Datetime)
    requires Valid(d)
    ensures t' == t && d' == d
  {
    var dt := ToDatetime(t);
    var u := ToUnixTimestamp(dt);
    t' := u.value;
    u := ToUnixTimestamp(d);
    d' := ToDatetime(u.value);
    UnixInjective(d, d');
  }

  // ---------------------------------------------------------------- FAT stamps

  datatype Stamp = Stamp(date: nat, time: nat)

  /** The fields of a stamp; masks and shifts as remainders and quotients. */
  function Unpack(s: Stamp): Datetime {
    Datetime(s.date / 512 % 128 + 1980, s.date / 32 % 16, s.date % 32, s.time / 2048 % 32, s.time / 32 % 64, s.time % 32 * 2)
  }

  function Pack(dt: Datetime): Stamp {
    var years := if dt.year < 1980 then 0 else dt.year - 1980;
    Stamp(years % 128 * 512 + dt.month % 16 * 32 + dt.day % 32, dt.hour % 32 * 2048 + dt.minute % 64 * 32 + dt.second / 2 % 32)
  }

  lemma DateFields(a: nat, b: nat, c: nat)
    requires a < 128 && b < 16 && c < 32
    ensures (a * 512 + b * 32 + c) / 512 == a && (a * 512 + b * 32 + c) / 32 == a * 16 + b && (a * 512 + b * 32 + c) % 32 == c
    ensures (a * 16 + b) % 16 == b
  {
  }

  lemma TimeFields(a: nat, b: nat, c: nat)
    requires a < 32 && b < 64 && c < 32
    ensures (a * 2048 + b * 32 + c) / 2048 == a && (a * 2048 + b * 32 + c) / 32 == a * 64 + b && (a * 2048 + b * 32 + c) % 32 == c
    ensures (a * 64 + b) % 64 == b
  {
  }

  /** The layout of a stamp: seven bits of years, four of months and five of days; five of hours, six of minutes and five of seconds by two. */
  lemma StampLayout(years: nat, month: nat, day: nat, hour: nat, minute: nat, half: nat)
    requires years < 128 && month < 16 && day < 32 && hour < 32 && minute < 64 && half < 32
    ensures var s, dt := Stamp((years * 16 + month) * 32 + day, (hour * 64 + minute) * 32 + half), Datetime(1980 + years, month, day, hour, minute, 2 * half);
            Unpack(s) == dt && Pack(dt) == s && Pack(dt.(second := 2 * half + 1)) == s
  {
    DateFields(years, month, day);
    TimeFields(hour, minute, half);
    Same(years, 128);
    PackFields(Datetime(1980 + years, month, day, hour, minute, 2 * half));
    PackFields(Datetime(1980 + years, month, day, hour, minute, 2 * half + 1));
  }

  /** The date that comes back: years before 1980 are raised to it, later ones wrap at 128, seconds become even. */
  function Stamped(dt: Datetime): Datetime {
    Datetime(if dt.year < 1980 then 1980 else 1980 + (dt.year - 1980) % 128, dt.month, dt.day, dt.hour, dt.minute, dt.second / 2 * 2)
  }

  lemma UnpackPack(dt: Datetime)
    requires Valid(dt)
    ensures Pack(dt).date < 0x1_0000 && Pack(dt).time < 0x1_0000
    ensures Unpack(Pack(dt)) == Stamped(dt)
  {
    var years := if dt.year < 1980 then 0 else dt.year - 1980;
    MonthAtMost(dt.month, dt.year);
    PackFields(dt);
    DateFields(years % 128, dt.month, dt.day);
    TimeFields(dt.hour, dt.minute, dt.second / 2);
  }

  lemma PackFields(dt: Datetime)
    requires dt.month < 16 && dt.day < 32 && dt.hour < 32 && dt.minute < 64 && dt.second < 64
    ensures Pack(dt) == Stamp((if dt.year < 1980 then 0 else dt.year - 1980) % 128 * 512 + dt.month * 32 + dt.day, dt.hour * 2048 + dt.minute * 32 + dt.second / 2)
  {
    Same(dt.month, 16);
    Same(dt.day, 32);
    Same(dt.hour, 32);
    Same(dt.minute, 64);
    Same(dt.second / 2, 32);
  }

  lemma Same(x: nat, n: nat)
    requires x < n
    ensures x % n == x
  {
  }

  lemma MonthAtMost(m: nat, y: nat)
    requires 1 <= m <= 12
    ensures MonthDays(m, y) <= 31
  {
  }

  /** `fat_timestamp_to_unix`; a month of 14 or 15 reads behind the table of months. */
  method FatTimestampToUnix(s: Stamp) returns (r: Option<nat>)
    ensures r == if Unpack(s).month <= 13 then Some(Unix(Unpack(s))) else None
  {
    var dt := Datetime(s.date / 512 % 128 + 1980, s.date / 32 % 16, s.date % 32, s.time / 2048 % 32, s.time / 32 % 64, s.time % 32 * 2);
    r := ToUnixTimestamp(dt);
  }

  /** `unix_to_fat_timestamp` */
  method UnixToFatTimestamp(timestamp: nat) returns (s: Stamp, ghost dt: Datetime)
    ensures Valid(dt) && Unix(dt) == timestamp && s == Pack(dt)
  {
    var d := ToDatetime(timestamp);
    dt := d;
    if d.year < 1980 { d := d.(year := 1980); }
    var years := d.year - 1980;
    s := Stamp(years % 128 * 512 + d.month % 16 * 32 + d.day % 32, d.hour % 32 * 2048 + d.minute % 64 * 32 + d.second / 2 % 32);
  }

  /** Packing a time and unpacking it again rounds it down to an even second exactly from 1980 to 2107. */
  method StampRoundTrip(t: nat) returns (t': nat, ghost dt: Datetime)
    ensures Valid(dt) && Unix(dt) == t
    ensures t' == t - t % 2 <==> 1980 <= dt.year <= 2107
  {
    var s;
    s, dt := UnixToFatTimestamp(t);
    UnpackPack(dt);
    var back := FatTimestampToUnix(s);
    t' := back.value;
    StampedRoundTrip(dt);
  }

  lemma StampedRoundTrip(dt: Datetime)
    requires Valid(dt)
    ensures Unix(Stamped(dt)) == Unix(dt) - Unix(dt) % 2 <==> 1980 <= dt.year <= 2107
  {
    EvenSecond(dt);
    SameTime(dt, Stamped(dt));
    if dt.year < 1980 {
      StampedTooEarly(dt);
    } else if dt.year > 2107 {
      StampedTooLate(dt);
    } else {
      Same(dt.year - 1980, 128);
    }
  }

  lemma EvenSecond(dt: Datetime)
    requires Valid(dt)
    ensures Unix(dt) % 2 == dt.second % 2
  {
    assert Unix(dt) == 2 * (Days(dt) * 43200 + dt.hour * 1800 + dt.minute * 30) + dt.second;
  }

  lemma SameTime(a: Datetime, b: Datetime)
    requires a.month <= 13 && b.month <= 13 && a.hour == b.hour && a.minute == b.minute && b.second == a.second - a.second % 2
    ensures Unix(b) - Unix(a) == (Days(b) - Days(a)) * 86400 - a.second % 2
  {
  }

  lemma StampedTooEarly(dt: Datetime)
    requires Valid(dt) && dt.year < 1980
    ensures Days(dt) < Days(Stamped(dt))
  {
    InYear(dt);
    YearsApart(dt.year, 1980);
  }

  lemma StampedTooLate(dt: Datetime)
    requires Valid(dt) && dt.year > 2107
    ensures Days(Stamped(dt)) < Days(dt)
  {
    InYear(dt);
    BackInRange(Stamped(dt));
    YearsApart(2107, dt.year);
  }

  /** A stamp means a time before 2108, even where its day does not exist in its month. */
  lemma BackInRange(back: Datetime)
    requires 1980 <= back.year <= 2107 && 1 <= back.month <= 12 && 1 <= back.day <= MonthDays(back.month, 2000)
    requires back.hour < 24 && back.minute < 60 && back.second < 60
    ensures Days(back) < DaysToYear(2107) + YearDays(2107)
  {
    YearSum(back.year);
    MonthsApart(back.month, 13, back.year);
    if back.year < 2107 { YearsApart(back.year, 2107); }
    assert DaysToMonth(2, back.year) == 31;
  }
}
