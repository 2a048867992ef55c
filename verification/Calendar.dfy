/** The calendar of the DS3231 driver: breaking an epoch time into a date, counting days back, and
    the BCD registers in between. Years are counted from 2000, days from 1 January 2000. */
module Calendar {

  import opened Machine

  const DAYS: seq<byte> := [31, 28, 31, 30, 31, 30, 31, 31, 30, 31, 30, 31]
  const DOW: seq<byte> := [0, 3, 2, 5, 0, 3, 5, 1, 4, 6, 2, 4]

  /** Unix time of 1 January 2000 in the driver's time zone. */
  const EPOCH: uint32 := 946681200

  /** Arithmetic of uint32_t. */
  function Wrap(n: int): uint32 {
    n % 0x1_0000_0000
  }

  lemma WrapUnique(n: int, q: int, r: uint32)
    requires n == 0x1_0000_0000 * q + r
    ensures Wrap(n) == r
  {
  }

  lemma WrapAdd(a: int, b: int)
    ensures Wrap(Wrap(a) + b) == Wrap(a + b)
  {
    var m := Wrap(a) + b;
    assert a == 0x1_0000_0000 * (a / 0x1_0000_0000) + Wrap(a);
    assert m == 0x1_0000_0000 * (m / 0x1_0000_0000) + Wrap(m);
    WrapUnique(a + b, a / 0x1_0000_0000 + m / 0x1_0000_0000, Wrap(m));
  }

  // ---------------------------------------------------------------- the day count

  predicate Leap(year: nat) {
    year % 4 == 0
  }

  function MonthDays(year: nat, month: nat): nat
    requires 1 <= month <= 12
  {
    DAYS[month - 1] + if Leap(year) && month == 2 then 1 else 0
  }

  /** Days before the month, in a common year. */
  function CommonStart(month: nat): nat
    requires 1 <= month <= 13
  {
    if month == 1 then 0 else CommonStart(month - 1) + DAYS[month - 2]
  }

  function MonthStart(year: nat, month: nat): nat
    requires 1 <= month <= 13
  {
    CommonStart(month) + if Leap(year) && month > 2 then 1 else 0
  }

  /** Days before the year: a leap day every fourth year, beginning with year 0. */
  function YearStart(year: nat): nat {
    365 * year + (year + 3) / 4
  }

  function YearDays(year: nat): nat {
    if Leap(year) then 366 else 365
  }

  datatype Date = Date(year: nat, month: nat, day: nat) {
    predicate Valid() {
      1 <= month <= 12 && 1 <= day <= MonthDays(year, month)
    }

    /** Days since 1 January of year 0. */
    function Count(): nat
      requires Valid()
    {
      YearStart(year) + MonthStart(year, month) + day - 1
    }
  }

  lemma MonthTable(month: nat)
    requires 1 <= month <= 13
    ensures CommonStart(month) == [0, 31, 59, 90, 120, 151, 181, 212, 243, 273, 304, 334, 365][month - 1]
  {
    var t := [0, 31, 59, 90, 120, 151, 181, 212, 243, 273, 304, 334, 365];
    var m := 1;
    while m < month
      invariant 1 <= m <= month && CommonStart(m) == t[m - 1]
    {
      m := m + 1;
    }
  }

  lemma YearStep(year: nat)
    ensures YearStart(year + 1) == YearStart(year) + YearDays(year)
  {
  }

  lemma MonthStep(year: nat, month: nat)
    requires 1 <= month <= 12
    ensures MonthStart(year, month + 1) == MonthStart(year, month) + MonthDays(year, month)
  {
  }

  lemma {:induction false} YearsGrow(a: nat, b: nat)
    requires a < b
    ensures YearStart(a) + YearDays(a) <= YearStart(b)
    decreases b
  {
    YearStep(b - 1);
    if a < b - 1 {
      YearsGrow(a, b - 1);
    }
  }

  lemma {:induction false} MonthsGrow(year: nat, a: nat, b: nat)
    requires 1 <= a < b <= 13
    ensures MonthStart(year, a) + MonthDays(year, a) <= MonthStart(year, b)
    decreases b
  {
    MonthStep(year, b - 1);
    if a < b - 1 {
      MonthsGrow(year, a, b - 1);
    }
  }

  lemma CountInYear(d: Date)
    requires d.Valid()
    ensures YearStart(d.year) <= d.Count() < YearStart(d.year) + YearDays(d.year)
  {
    MonthTable(13);
    if d.month < 12 {
      MonthsGrow(d.year, d.month, 13);
    } else {
      MonthStep(d.year, 12);
    }
  }

  /** Different valid dates have different counts. */
  lemma CountInjective(a: Date, b: Date)
    requires a.Valid() && b.Valid() && a.Count() == b.Count()
    ensures a == b
  {
    CountInYear(a);
    CountInYear(b);
    if a.year < b.year {
      YearsGrow(a.year, b.year);
    } else if b.year < a.year {
      YearsGrow(b.year, a.year);
    } else if a.month < b.month {
      MonthsGrow(a.year, a.month, b.month);
    } else if b.month < a.month {
      MonthsGrow(a.year, b.month, a.month);
    }
  }

  // ---------------------------------------------------------------- epoch breakdown

  /** The two loops of setDateTime(uint32_t): terminates on every day number, with the valid date
      whose count it is. */
  method Breakdown(days0: nat) returns (d: Date)
    ensures d.Valid() && d.Count() == days0
  {
    var days: nat, year: nat := days0, 0;
    while days >= (if year % 4 == 0 then 366 else 365)
      invariant days0 == YearStart(year) + days
      decreases days
    {
      YearStep(year);
      days := days - (if year % 4 == 0 then 366 else 365);
      year := year + 1;
    }
    var month, rest := MonthLoop(year, days);
    d := Date(year, month, rest + 1);
  }

  /** The month loop, for a day number within the year. */
  method MonthLoop(year: nat, days0: nat) returns (month: nat, days: nat)
    requires days0 < YearDays(year)
    ensures 1 <= month <= 12 && days < MonthDays(year, month)
    ensures MonthStart(year, month) + days == days0
  {
    MonthTable(13);
    month, days := 1, days0;
    while days >= MonthDays(year, month)
      invariant 1 <= month <= 12 && days0 == MonthStart(year, month) + days
      decreases days
    {
      MonthStep(year, month);
      days := days - MonthDays(year, month);
      month := month + 1;
    }
  }

  // ---------------------------------------------------------------- date2days

  /** What date2days adds up, before the result is truncated to 16 bits. */
  function DriverCount(d: Date): nat
    requires d.Valid()
  {
    d.day + CommonStart(d.month) + (if d.month == 2 && Leap(d.year) then 1 else 0) + YearStart(d.year) - 1
  }

  /** date2days(2000 + year, month, day) */
  method Date2Days(d: Date) returns (days: uint16)
    requires d.Valid()
    ensures days == DriverCount(d) % 0x1_0000
  {
    var days16 := d.day;
    var i := 1;
    while i < d.month
      invariant 1 <= i <= d.month
      invariant days16 == d.day + CommonStart(i)
    {
      days16 := days16 + DAYS[i - 1];
      i := i + 1;
    }
    if d.month == 2 && d.year % 4 == 0 {
      days16 := days16 + 1;
    }
    days := (days16 + 365 * d.year + (d.year + 3) / 4 - 1) % 0x1_0000;
  }

  /** Error of the driver's count: leap-year February comes out one too large, the rest of a leap
      year from March on one too small. */
  function Delta(d: Date): int {
    if !Leap(d.year) || d.month == 1 then 0 else if d.month == 2 then 1 else -1
  }

  /** date2days agrees with the real count exactly in common years and in January. */
  lemma DriverCountExactly(d: Date)
    requires d.Valid()
    ensures DriverCount(d) == d.Count() + Delta(d)
    ensures DriverCount(d) == d.Count() <==> !Leap(d.year) || d.month == 1
  {
  }

  // ---------------------------------------------------------------- BCD registers

  function Dec2bcd(dec: nat): byte {
    (dec / 10 * 16 + dec % 10) % 256
  }

  function Bcd2dec(bcd: byte): nat {
    bcd / 16 * 10 + bcd % 16
  }

  lemma BcdDigits(q: nat, r: nat)
    requires r < 10 && q < 26
    ensures Bcd2dec((q * 16 + r) % 256) == 10 * q + r <==> q < 16
  {
  }

  /** Two decimal digits become the two hexadecimal digits of the register, and back. */
  lemma BcdIs(tens: nat, ones: nat)
    requires tens < 10 && ones < 10
    ensures Dec2bcd(10 * tens + ones) == 0x10 * tens + ones && Bcd2dec(0x10 * tens + ones) == 10 * tens + ones
  {
  }

  /** The two conversions are inverse exactly below 160. */
  lemma BcdRoundTrip(dec: nat)
    requires dec < 256
    ensures Bcd2dec(Dec2bcd(dec)) == dec <==> dec < 160
  {
    BcdDigits(dec / 10, dec % 10);
    hide Bcd2dec;
  }

  // ---------------------------------------------------------------- the clock

  datatype DateTime = DateTime(date: Date, dayOfWeek: nat, hour: nat, minute: nat, second: nat)

  function DowSum(d: Date): int
    requires d.Valid()
  {
    var y := 2000 + d.year - (if d.month < 3 then 1 else 0);
    y + y / 4 - y / 100 + y / 400 + DOW[d.month - 1] + d.day
  }

  /** dow(2000 + year, month, day): 1 for Monday to 7 for Sunday. */
  function Dow(d: Date): nat
    requires d.Valid()
  {
    var dow := DowSum(d) % 7;
    if dow == 0 then 7 else dow
  }

  /** Seconds, minutes, hours and days, as the four divisions peel them off. */
  lemma TimeParts(u: nat)
    ensures u / 60 / 60 / 24 == u / 86400
    ensures u / 60 / 60 % 24 * 3600 + u / 60 % 60 * 60 + u % 60 == u % 86400
  {
    var a := u / 60;
    var b := a / 60;
    var c := b / 24;
    assert u == 86400 * c + (3600 * (b % 24) + 60 * (a % 60) + u % 60);
  }

  class DS3231 {
    /** The seven time registers: second, minute, hour, day of week, day, month, year. */
    var regs: seq<byte>

    constructor ()
      ensures regs == [0, 0, 0, 6, 1, 1, 0]
    {
      regs := [0, 0, 0, 6, 1, 1, 0];
    }

    /** setDateTime(uint32_t) */
    method SetDateTime(t0: uint32) returns (ghost stored: DateTime)
      modifies this
      ensures stored.date.Valid() && stored.date.Count() == Wrap(t0 - EPOCH) / 86400
      ensures stored.hour < 24 && stored.minute < 60 && stored.second < 60
      ensures stored.hour * 3600 + stored.minute * 60 + stored.second == Wrap(t0 - EPOCH) % 86400
      ensures stored.dayOfWeek == Dow(stored.date) && regs == Registers(stored)
    {
      hide Dec2bcd, Dow, Date.Count;
      var t := Wrap(t0 - EPOCH);
      TimeParts(t);
      var second := t % 60;
      t := t / 60;
      var minute := t % 60;
      t := t / 60;
      var hour := t % 24;
      var days := t / 24 % 0x1_0000;
      var d := Breakdown(days);
      stored := DateTime(d, Dow(d), hour, minute, second);
      regs := [Dec2bcd(second), Dec2bcd(minute), Dec2bcd(hour), Dec2bcd(Dow(d)), Dec2bcd(d.day), Dec2bcd(d.month),
          Dec2bcd(d.year % 256)];
    }

    /** getDateTime, up to the unixtime it computes last. */
    method GetDateTime() returns (t: DateTime)
      requires |regs| == 7
      ensures t == Decoded(regs)
    {
      t := DateTime(Date(Bcd2dec(regs[6]), Bcd2dec(regs[5]), Bcd2dec(regs[4])), Bcd2dec(regs[3]), Bcd2dec(regs[2]),
          Bcd2dec(regs[1]), Bcd2dec(regs[0]));
    }

    /** unixtime, for the time last read. */
    method Unixtime(t: DateTime) returns (u: uint32)
      requires t.date.Valid()
      ensures u == DriverUnixtime(t)
    {
      hide DriverCount, Wrap;
      var days := Date2Days(t.date);
      WrapAdd(((days * 24 + t.hour) * 60 + t.minute) * 60 + t.second, EPOCH);
      u := Wrap(((days * 24 + t.hour) * 60 + t.minute) * 60 + t.second);
      u := Wrap(u + EPOCH);
    }
  }

  function Registers(t: DateTime): (regs: seq<byte>)
    ensures |regs| == 7
  {
    [Dec2bcd(t.second), Dec2bcd(t.minute), Dec2bcd(t.hour), Dec2bcd(t.dayOfWeek), Dec2bcd(t.date.day),
        Dec2bcd(t.date.month), Dec2bcd(t.date.year % 256)]
  }

  function Decoded(regs: seq<byte>): DateTime
    requires |regs| == 7
  {
    DateTime(Date(Bcd2dec(regs[6]), Bcd2dec(regs[5]), Bcd2dec(regs[4])), Bcd2dec(regs[3]), Bcd2dec(regs[2]),
        Bcd2dec(regs[1]), Bcd2dec(regs[0]))
  }

  function DriverUnixtime(t: DateTime): uint32
    requires t.date.Valid()
  {
    Wrap(DriverCount(t.date) % 0x1_0000 * 86400 + t.hour * 3600 + t.minute * 60 + t.second + EPOCH)
  }

  /** The layout of the time registers, two digits each: second, minute, hour, day of the week, day, month, year. */
  lemma RegisterLayout(t: DateTime)
    requires t.dayOfWeek < 100 && t.hour < 100 && t.minute < 100 && t.second < 100
    requires t.date.year < 100 && t.date.month < 100 && t.date.day < 100
    ensures var (r, values) := (Registers(t),
        [t.second, t.minute, t.hour, t.dayOfWeek, t.date.day, t.date.month, t.date.year]);
      forall i | 0 <= i < 7 :: r[i] / 0x10 == values[i] / 10 && r[i] % 0x10 == values[i] % 10
  {
    hide Dec2bcd;
    Digits(t.second);
    Digits(t.minute);
    Digits(t.hour);
    Digits(t.dayOfWeek);
    Digits(t.date.day);
    Digits(t.date.month);
    Digits(t.date.year);
  }

  lemma Digits(v: nat)
    requires v < 100
    ensures Dec2bcd(v) / 0x10 == v / 10 && Dec2bcd(v) % 0x10 == v % 10
  {
    BcdIs(v / 10, v % 10);
    hide Dec2bcd;
  }

  /** A breakdown of a 32-bit time stays within year 136, so its registers read back unchanged. */
  lemma RegistersReadBack(t: DateTime)
    requires t.date.Valid() && t.dayOfWeek <= 7 && t.hour < 24 && t.minute < 60 && t.second < 60
    requires t.date.Count() <= 49710
    ensures Decoded(Registers(t)) == t
  {
    CountInYear(t.date);
    DateParts(t.date);
    hide *;
    ReadBack(t);
  }

  lemma DateParts(d: Date)
    requires d.Valid() && YearStart(d.year) <= 49710
    ensures d.month < 160 && d.day < 160 && d.year < 160
  {
  }

  lemma ReadBack(t: DateTime)
    requires t.date.Valid() && t.date.month < 160 && t.date.day < 160 && t.date.year < 160
    requires t.dayOfWeek < 160 && t.hour < 160 && t.minute < 160 && t.second < 160
    ensures Decoded(Registers(t)) == t
  {
    hide Dec2bcd, Bcd2dec;
    BcdRoundTrip(t.dayOfWeek);
    BcdRoundTrip(t.second);
    BcdRoundTrip(t.minute);
    BcdRoundTrip(t.hour);
    BcdRoundTrip(t.date.day);
    BcdRoundTrip(t.date.month);
    BcdRoundTrip(t.date.year);
  }

  /** The driver counts from midnight of 1 January 2000, 10957 days after 1 January 1970, one hour east of Greenwich. */
  lemma EpochIs(t0: uint32)
    requires t0 >= 946681200
    ensures Wrap(t0 - EPOCH) / 86400 == (t0 + 3600) / 86400 - 10957 && Wrap(t0 - EPOCH) % 86400 == (t0 + 3600) % 86400
  {
    DivUnique(t0 + 3600, 86400, (t0 - 946681200) / 86400 + 10957);
  }

  /** Adding the epoch back undoes subtracting it, modulo 2^32. */
  lemma EpochCancels(t0: uint32, shift: int)
    requires -86400 <= shift <= 86400
    ensures Wrap(Wrap(t0 - EPOCH) + (shift + EPOCH)) == Wrap(t0 + shift)
    ensures Wrap(t0 + shift) == t0 <==> shift == 0
  {
    WrapAdd(t0 - EPOCH, shift + EPOCH);
  }

  /** unixtime of a date that setDateTime produced is off by the error of date2days, whole days. */
  lemma UnixtimeOffBy(t0: uint32, t: DateTime)
    requires t.date.Valid() && t.date.Count() == Wrap(t0 - EPOCH) / 86400
    requires t.hour * 3600 + t.minute * 60 + t.second == Wrap(t0 - EPOCH) % 86400
    ensures DriverUnixtime(t) == Wrap(t0 + 86400 * Delta(t.date))
    ensures DriverUnixtime(t) == t0 <==> !Leap(t.date.year) || t.date.month == 1
  {
    DriverCountExactly(t.date);
    hide Date.Count, DriverCount, Wrap;
    var u := Wrap(t0 - EPOCH);
    DaysAndSeconds(u, t.date.Count(), Delta(t.date), t.hour * 3600 + t.minute * 60 + t.second);
    EpochCancels(t0, 86400 * Delta(t.date));
  }

  lemma DaysAndSeconds(u: uint32, c: nat, delta: int, rest: nat)
    requires c == u / 86400 && rest == u % 86400 && -1 <= delta <= 1 && c + delta >= 0
    ensures (c + delta) % 0x1_0000 * 86400 + rest == u + 86400 * delta
  {
  }

  lemma LastDay(u: uint32)
    ensures u / 86400 <= 49710
  {
  }

  /** The seconds that time2long adds up. */
  function Elapsed(t: DateTime): nat
    requires t.date.Valid()
  {
    ((DriverCount(t.date) % 0x1_0000 * 24 + t.hour) * 60 + t.minute) * 60 + t.second
  }

  /** The signed 32-bit long of time2long holds its seconds exactly while fewer than 2^31 have passed. */
  lemma ElapsedFitsExactly(t0: uint32, t: DateTime)
    requires t.date.Valid() && t.date.Count() == Wrap(t0 - EPOCH) / 86400
    requires t.hour * 3600 + t.minute * 60 + t.second == Wrap(t0 - EPOCH) % 86400
    ensures Elapsed(t) < 0x8000_0000 <==> Wrap(t0 - EPOCH) + 86400 * Delta(t.date) < 0x8000_0000
    ensures DriverUnixtime(t) == Wrap(Elapsed(t) + EPOCH)
  {
    DriverCountExactly(t.date);
    hide Date.Count, DriverCount, Wrap;
    DaysAndSeconds(Wrap(t0 - EPOCH), t.date.Count(), Delta(t.date), t.hour * 3600 + t.minute * 60 + t.second);
  }

  lemma DowRange(d: Date)
    requires d.Valid()
    ensures 1 <= Dow(d) <= 7
  {
    hide DowSum;
  }

  lemma YearsBefore(d: Date)
    requires d.Valid() && d.Count() <= 49710
    ensures d.year <= 136
  {
    CountInYear(d);
    hide Date.Count;
  }

  /** Setting the clock and reading it back, with no time passing: the original time exactly in
      common years and in January, a day off otherwise. */
  method SetThenUnixtime(clock: DS3231, t0: uint32) returns (u: uint32, date: Date, dayOfWeek: nat)
    modifies clock
    ensures date.Valid() && date.Count() == Wrap(t0 - EPOCH) / 86400
    ensures date.year < 100 || (date.year == 100 && date.month < 3) ==> dayOfWeek == (date.Count() + 5) % 7 + 1
    ensures u == Wrap(t0 + 86400 * Delta(date))
    ensures u == t0 <==> !Leap(date.year) || date.month == 1
  {
    hide *;
    ghost var stored := clock.SetDateTime(t0);
    LastDay(Wrap(t0 - EPOCH));
    DowRange(stored.date);
    RegistersReadBack(stored);
    var t := clock.GetDateTime();
    u := clock.Unixtime(t);
    UnixtimeOffBy(t0, t);
    date, dayOfWeek := t.date, t.dayOfWeek;
    YearsBefore(date);
    DowFollowsCount(date);
  }

  /** The day of the week follows the day count (day 0 was a Saturday) exactly until the end of
      February 2100, where it follows the Gregorian calendar and the breakdown does not. */
  lemma DowFollowsCount(d: Date)
    requires d.Valid() && d.year <= 136
    ensures Dow(d) == (d.Count() + 5) % 7 + 1 <==> d.year < 100 || (d.year == 100 && d.month < 3)
    ensures d.year > 100 || (d.year == 100 && d.month >= 3) ==> Dow(d) == (d.Count() + 4) % 7 + 1
  {
    hide Date.Count, DowSum, MonthOffset;
    var late := if d.year < 100 || (d.year == 100 && d.month < 3) then 0 else 1;
    SumFollowsCount(d);
    DowOfSum(DowSum(d), d.Count(), late, MonthOffset(d.month) - 52 * d.year);
  }

  /** Before the remainder is taken, the weekday sum runs along the day count, one behind after February 2100. */
  lemma SumFollowsCount(d: Date)
    requires d.Valid() && d.year <= 136
    ensures var late := if d.year < 100 || (d.year == 100 && d.month < 3) then 0 else 1;
      DowSum(d) == d.Count() + 6 - late + 7 * (MonthOffset(d.month) - 52 * d.year)
  {
    hide MonthOffset, CommonStart;
    Centuries(d.year - (if d.month < 3 then 1 else 0));
    Quarters(d.year, d.month);
    DowTable(d.month);
  }

  lemma Centuries(y: int)
    requires -1 <= y <= 136
    ensures (2000 + y) / 100 - (2000 + y) / 400 == if y < 100 then 15 else 16
  {
  }

  lemma Quarters(year: nat, month: nat)
    ensures month < 3 ==> (1999 + year) / 4 == 499 + (year + 3) / 4
    ensures month >= 3 ==> (2000 + year) / 4 == 499 + (year + 3) / 4 + (if Leap(year) then 1 else 0)
  {
  }

  lemma DowTable(month: nat)
    requires 1 <= month <= 12
    ensures (if month < 3 then 2478 else 2479) + DOW[month - 1] as int == CommonStart(month) + 7 * MonthOffset(month)
  {
    MonthTable(month);
  }

  /** How far the weekday table runs ahead of the month starts, in weeks. */
  function MonthOffset(month: nat): nat
    requires 1 <= month <= 12
  {
    [354, 350, 346, 342, 337, 333, 329, 324, 320, 316, 311, 307][month - 1]
  }

  lemma DowOfSum(e: int, count: nat, late: int, k: int)
    requires 0 <= late <= 1 && e == count + 6 - late + 7 * k
    ensures (if e % 7 == 0 then 7 else e % 7) == (count + 5) % 7 + 1 <==> late == 0
    ensures late == 1 ==> (if e % 7 == 0 then 7 else e % 7) == (count + 4) % 7 + 1
  {
    assert (count + 6 - late + 7 * k) % 7 == (count + 6 - late) % 7;
  }
}
