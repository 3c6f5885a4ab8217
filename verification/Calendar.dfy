/** Dates, 32-bit timestamps, BCD digits and the day of the week. */
module Calendar {
  import opened Bytes
  import Printf

  const DAY := 86_400
  const EPOCH := 1970
  const Y2K := 946_684_800      // 2000-01-01 00:00:00

  datatype Date = Date(year: nat, month: nat, day: nat, hour: nat, min: nat, sec: nat)

  /** `SystemTime_t`: the year is a byte counted from 2000. */
  datatype SystemTime = SystemTime(ucYear: byte, ucMonth: byte, ucDay: byte, ucHour: byte, ucMin: byte, ucScd: byte)

  predicate IsLeap(y: nat) { (y % 4 == 0 && y % 100 != 0) || y % 400 == 0 }

  function DaysOfYear(y: nat): nat { if IsLeap(y) then 366 else 365 }

  function DaysOfMonth(y: nat, m: nat): nat
    requires 1 <= m <= 12
  {
    if m == 2 then (if IsLeap(y) then 29 else 28)
    else if m in {4, 6, 9, 11} then 30 else 31
  }

  // ----- the day count of the loops -----

  function DaysBeforeYear(y: nat): nat
    requires y >= EPOCH
  {
    if y == EPOCH then 0 else DaysBeforeYear(y - 1) + DaysOfYear(y - 1)
  }

  function DaysBeforeMonth(y: nat, m: nat): nat
    requires 1 <= m <= 13
  {
    if m == 1 then 0 else DaysBeforeMonth(y, m - 1) + DaysOfMonth(y, m - 1)
  }

  function DayCount(y: nat, m: nat, d: nat): nat
    requires y >= EPOCH && 1 <= m <= 12 && d >= 1
  {
    DaysBeforeYear(y) + DaysBeforeMonth(y, m) + (d - 1)
  }

  /** What the conversion accepts: it does not look at the length of the month. */
  predicate Accepted(t: Date) {
    t.year >= EPOCH && 1 <= t.month <= 12 && 1 <= t.day <= 31 && t.hour <= 23 && t.min <= 59 && t.sec <= 59
  }

  predicate Valid(t: Date) { Accepted(t) && t.day <= DaysOfMonth(t.year, t.month) }

  /** Seconds since the epoch, not reduced to 32 bits. */
  function Seconds(t: Date): nat
    requires Accepted(t)
  {
    DayCount(t.year, t.month, t.day) * DAY + t.hour * 3600 + t.min * 60 + t.sec
  }

  // ----- the closed form of POSIX.1-2017, Base Definitions, section 4.16 -----

  function Posix(sec: int, min: int, hour: int, yday: int, year: int): int {
    sec + min * 60 + hour * 3600 + yday * 86400 + (year - 70) * 31536000
    + ((year - 69) / 4) * 86400 - ((year - 1) / 100) * 86400 + ((year + 299) / 400) * 86400
  }

  /** Days of the year before the date. */
  function YearDay(t: Date): nat
    requires Accepted(t)
  {
    DaysBeforeMonth(t.year, t.month) + t.day - 1
  }

  /** Leap years from year 1 to `y`. */
  function Leaps(y: nat): int { y / 4 - y / 100 + y / 400 }

  lemma Div4(n: nat) ensures (n + 1) / 4 == n / 4 + if (n + 1) % 4 == 0 then 1 else 0 {}
  lemma Div100(n: nat) ensures (n + 1) / 100 == n / 100 + if (n + 1) % 100 == 0 then 1 else 0 {}
  lemma Div400(n: nat) ensures (n + 1) / 400 == n / 400 + if (n + 1) % 400 == 0 then 1 else 0 {}

  lemma Multiples(n: nat)
    ensures (n % 400 == 0 ==> n % 100 == 0) && (n % 100 == 0 ==> n % 4 == 0)
  {
    if n % 100 == 0 { Fours(n, n / 100); }
    if n % 400 == 0 { Hundreds(n, n / 400); }
  }

  lemma Fours(n: nat, c: nat)
    requires n == 100 * c
    ensures n % 4 == 0
  {
    assert n == 4 * (25 * c);
  }

  lemma Hundreds(n: nat, q: nat)
    requires n == 400 * q
    ensures n % 100 == 0
  {
    assert n == 100 * (4 * q);
  }

  lemma LeapStep(y: nat)
    ensures Leaps(y + 1) == Leaps(y) + if IsLeap(y + 1) then 1 else 0
  {
    Div4(y);
    Div100(y);
    Div400(y);
    Multiples(y + 1);
  }

  lemma {:induction false} DaysAndLeaps(y: nat)
    requires y >= EPOCH
    ensures DaysBeforeYear(y) == 365 * (y - 1970) + Leaps(y - 1) - 477
  {
    if y > EPOCH {
      DaysAndLeaps(y - 1);
      LeapStep(y - 2);
    }
  }

  lemma YearsClosedForm(y: nat)
    requires y >= EPOCH
    ensures DaysBeforeYear(y) == 365 * (y - 1970) + (y - 1969) / 4 - (y - 1901) / 100 + (y - 1601) / 400
  {
    DaysAndLeaps(y);
    var n := y - 1;
    assert (n - 1968) / 4 == n / 4 - 492;
    assert (n - 1900) / 100 == n / 100 - 19;
    assert (n - 1600) / 400 == n / 400 - 4;
  }

  /** The day loops compute the POSIX formula. */
  lemma SecondsIsPosix(t: Date)
    requires Accepted(t)
    ensures Seconds(t) == Posix(t.sec, t.min, t.hour, YearDay(t), t.year - 1900)
  {
    YearsClosedForm(t.year);
  }

  // ----- order -----

  predicate Earlier(a: Date, b: Date) {
    a.year < b.year || (a.year == b.year && (a.month < b.month || (a.month == b.month && (a.day < b.day
      || (a.day == b.day && a.hour * 3600 + a.min * 60 + a.sec < b.hour * 3600 + b.min * 60 + b.sec)))))
  }

  lemma {:induction false} MonthsGrow(y: nat, m: nat, m': nat)
    requires 1 <= m < m' <= 13
    ensures DaysBeforeMonth(y, m) + DaysOfMonth(y, m) <= DaysBeforeMonth(y, m')
  {
    if m + 1 < m' { MonthsGrow(y, m, m' - 1); }
  }

  lemma {:induction false} MonthTable(y: nat, m: nat)
    requires 1 <= m <= 12
    ensures DaysBeforeMonth(y, m) == [0, 31, 59, 90, 120, 151, 181, 212, 243, 273, 304, 334][m - 1]
                                     + if m > 2 && IsLeap(y) then 1 else 0
  {
    if m > 1 { MonthTable(y, m - 1); }
  }

  lemma TwelveMonths(y: nat)
    ensures DaysBeforeMonth(y, 13) == DaysOfYear(y)
  {
    MonthTable(y, 12);
  }

  lemma {:induction false} YearsGrow(y: nat, y': nat)
    requires EPOCH <= y < y'
    ensures DaysBeforeYear(y) + DaysOfYear(y) <= DaysBeforeYear(y')
  {
    if y + 1 < y' { YearsGrow(y, y' - 1); }
  }

  lemma DayInsideYear(t: Date)
    requires Valid(t)
    ensures YearDay(t) < DaysOfYear(t.year)
  {
    MonthsGrow(t.year, t.month, 13);
    TwelveMonths(t.year);
  }

  /** Later dates have larger timestamps. */
  lemma StrictlyMonotone(a: Date, b: Date)
    requires Valid(a) && Valid(b) && Earlier(a, b)
    ensures Seconds(a) < Seconds(b)
  {
    if a.year < b.year {
      DayInsideYear(a);
      YearsGrow(a.year, b.year);
    } else if a.month < b.month {
      MonthsGrow(a.year, a.month, b.month);
    }
  }

  // ----- the conversions -----

  /** `datetime_to_timestamp`: 0 for what it refuses; otherwise the number of seconds exactly when
      that fits 32 bits.  Beyond that it is the sum reduced to 32 bits, or 0 where the overflow shows. */
  method DatetimeToTimestamp(t: Date) returns (ts: nat)
    requires t.year < 0x1_0000
    ensures ts < U32
    ensures !Accepted(t) ==> ts == 0
    ensures (t.year < 1970 || t.month == 0 || t.month > 12 || t.day == 0 || t.day > 31
             || t.hour > 23 || t.min > 59 || t.sec > 59) ==> ts == 0
    ensures Accepted(t) ==> (ts == Seconds(t) <==> Seconds(t) < U32)
    ensures Accepted(t) ==> ts == if Seconds(t) % U32 < t.hour * 3600 then 0 else Seconds(t) % U32
  {
    if t.year < 1970 || t.month < 1 || t.month > 12 || t.day < 1 || t.day > 31
       || t.hour > 23 || t.min > 59 || t.sec > 59 {
      return 0;
    }
    var totalDays: nat := 0;
    for y := 1970 to t.year
      invariant totalDays == DaysBeforeYear(y)
    {
      totalDays := totalDays + DaysOfYear(y);
    }
    for m := 1 to t.month
      invariant totalDays == DaysBeforeYear(t.year) + DaysBeforeMonth(t.year, m)
    {
      totalDays := totalDays + DaysOfMonth(t.year, m);
    }
    totalDays := totalDays + (t.day - 1);
    ts := Assemble(totalDays, t.hour, t.min, t.sec);
    if ts < t.hour * 3600 {
      return 0;
    }
  }

  /** The 32-bit sum. */
  method Assemble(days: nat, hour: nat, min: nat, sec: nat) returns (ts: nat)
    ensures ts == (days * DAY + hour * 3600 + min * 60 + sec) % U32
  {
    ts := days * DAY % U32;
    ts := (ts + hour * 3600) % U32;
    ts := (ts + min * 60) % U32;
    ts := (ts + sec) % U32;
    ThreeAdditions(days * DAY, hour * 3600, min * 60, sec);
  }

  lemma ThreeAdditions(a: nat, b: nat, c: nat, d: nat)
    ensures (((a % U32 + b) % U32 + c) % U32 + d) % U32 == (a + b + c + d) % U32
  {
    ModAdd(a, b);
    ModAdd(a + b, c);
    ModAdd(a + b + c, d);
  }

  lemma ModAdd(a: nat, b: nat)
    ensures (a % U32 + b) % U32 == (a + b) % U32
  {
    var q := a / U32;
    assert a == q * U32 + a % U32;
    AddMultiple(a % U32 + b, q);
  }

  lemma {:induction false} AddMultiple(x: nat, q: nat)
    ensures (x + q * U32) % U32 == x % U32
  {
    if q > 0 {
      AddMultiple(x, q - 1);
      assert x + q * U32 == (x + (q - 1) * U32) + U32;
    }
  }

  /** The year byte of `timestamp_to_datetime`: `y - 2000` reduced to eight bits. */
  function YearByte(y: nat): byte
    requires 1744 <= y < 2256
  {
    if y >= 2000 then y - 2000 else y - 1744
  }

  lemma YearByteIsModular(y: nat)
    requires 1744 <= y < 2256
    ensures (y - 2000) % 0x100 == YearByte(y)
  {
    assert y - 2000 == 0x100 * (if y >= 2000 then 0 else -1) + YearByte(y);
  }

  function Compact(t: Date): SystemTime
    requires Accepted(t) && t.year < 2256
  {
    SystemTime(YearByte(t.year), t.month, t.day, t.hour, t.min, t.sec)
  }

  ghost predicate IsDateOf(t: Date, ts: nat) { Valid(t) && Seconds(t) == ts && t.year < 2107 }

  /** Year and month by repeated subtraction. */
  function YearFrom(y: nat, days: nat): (r: (nat, nat))
    requires y >= EPOCH
    ensures r.0 >= EPOCH && DaysBeforeYear(r.0) + r.1 == DaysBeforeYear(y) + days && r.1 < DaysOfYear(r.0)
    decreases days
  {
    if days < DaysOfYear(y) then (y, days) else YearFrom(y + 1, days - DaysOfYear(y))
  }

  function MonthFrom(y: nat, m: nat, days: nat): (r: (nat, nat))
    requires 1 <= m <= 12 && DaysBeforeMonth(y, m) + days < DaysOfYear(y)
    ensures 1 <= r.0 <= 12 && DaysBeforeMonth(y, r.0) + r.1 == DaysBeforeMonth(y, m) + days && r.1 < DaysOfMonth(y, r.0)
    decreases 13 - m
  {
    TwelveMonths(y);
    if days < DaysOfMonth(y, m) then (m, days) else MonthFrom(y, m + 1, days - DaysOfMonth(y, m))
  }

  /** The date of a second. */
  function DateOf(ts: nat): Date {
    var (y, inYear) := YearFrom(EPOCH, ts / DAY);
    var (m, inMonth) := MonthFrom(y, 1, inYear);
    Date(y, m, inMonth + 1, ts % DAY / 3600, ts % DAY % 3600 / 60, ts % DAY % 60)
  }

  lemma DateOfMeans(ts: nat)
    requires ts < U32
    ensures IsDateOf(DateOf(ts), ts)
  {
    var (y, inYear) := YearFrom(EPOCH, ts / DAY);
    BeforeYear2107(y);
    ClockTime(ts % DAY);
    assert ts == ts / DAY * DAY + ts % DAY;
  }

  lemma ClockTime(s: nat)
    requires s < DAY
    ensures s / 3600 < 24 && s % 3600 / 60 < 60 && s % 60 < 60
    ensures s == s / 3600 * 3600 + s % 3600 / 60 * 60 + s % 60
  {
    var h := s / 3600;
    var r := s % 3600;
    assert s == 3600 * h + r;
    assert r == 60 * (r / 60) + r % 60;
    SixtyInHour(h, r);
  }

  lemma SixtyInHour(h: nat, r: nat)
    ensures (3600 * h + r) % 60 == r % 60
  {
    Sixties(60 * h + r / 60, r % 60, 3600 * h + r);
  }

  lemma Sixties(k: nat, m: nat, s: nat)
    requires s == 60 * k + m && m < 60
    ensures s % 60 == m
  {
  }

  /** No other date has that second. */
  lemma DateIsUnique(t: Date, u: Date)
    requires Valid(t) && Valid(u) && Seconds(t) == Seconds(u)
    ensures t == u
  {
    if Earlier(t, u) { StrictlyMonotone(t, u); }
    if Earlier(u, t) { StrictlyMonotone(u, t); }
  }

  /** `timestamp_to_datetime`: the valid date of that second, its year reduced to a byte. */
  method TimestampToDatetime(ts: nat) returns (time: SystemTime)
    requires ts < U32
    ensures exists t :: IsDateOf(t, ts) && time == Compact(t)
    ensures IsDateOf(DateOf(ts), ts) && time == Compact(DateOf(ts))
    ensures var t := DateOf(ts);
            && time.ucYear == (t.year - 2000) % 256 && time.ucMonth == t.month && time.ucDay == t.day
            && time.ucHour == t.hour && time.ucMin == t.min && time.ucScd == t.sec
  {
    DateOfMeans(ts);
    var days, secs: nat := ts / DAY, ts % DAY;
    var hour, min, sec := secs / 3600, secs % 3600 / 60, secs % 60;
    var y: int, inYear: nat := YearOf(days);
    var m, inMonth := MonthOf(y, inYear);
    YearByteIsModular(y);
    time := SystemTime((y - 2000) % 0x100, m, inMonth + 1, hour, min, sec);
  }

  /** The years that 32 bits of seconds reach. */
  lemma BeforeYear2107(y: nat)
    requires y >= EPOCH && DaysBeforeYear(y) <= 49_710
    ensures y < 2107
  {
    YearsClosedForm(y);
  }

  /** The year loop. */
  method YearOf(all: nat) returns (y: nat, days: nat)
    ensures (y, days) == YearFrom(EPOCH, all)
  {
    y, days := 1970, all;
    while days >= DaysOfYear(y)
      invariant y >= EPOCH && YearFrom(y, days) == YearFrom(EPOCH, all)
      decreases days
    {
      days := days - DaysOfYear(y);
      y := y + 1;
    }
  }

  lemma NextMonth(y: nat, m: nat, days: nat)
    requires 1 <= m <= 12 && DaysBeforeMonth(y, m) + days < DaysOfYear(y)
    ensures days < DaysOfMonth(y, m) ==> MonthFrom(y, m, days) == (m, days)
    ensures days >= DaysOfMonth(y, m) ==>
              && m < 12 && DaysBeforeMonth(y, m + 1) + (days - DaysOfMonth(y, m)) < DaysOfYear(y)
              && MonthFrom(y, m, days) == MonthFrom(y, m + 1, days - DaysOfMonth(y, m))
  {
    TwelveMonths(y);
  }

  /** The month loop; it never runs out of months. */
  method MonthOf(y: nat, inYear: nat) returns (m: nat, days: nat)
    requires inYear < DaysOfYear(y)
    ensures (m, days) == MonthFrom(y, 1, inYear)
  {
    m, days := 1, inYear;
    TwelveMonths(y);
    while m <= 12
      invariant 1 <= m <= 12 && DaysBeforeMonth(y, m) + days < DaysOfYear(y)
      invariant MonthFrom(y, m, days) == MonthFrom(y, 1, inYear)
      decreases 13 - m
    {
      NextMonth(y, m, days);
      if days < DaysOfMonth(y, m) {
        break;
      }
      days := days - DaysOfMonth(y, m);
      m := m + 1;
    }
  }

  // ----- BCD -----

  /** `dec_to_bcd`: the shift and the mask written as arithmetic. */
  function DecToBcd(v: byte): byte { v / 10 % 16 * 16 + v % 10 }

  /** `bcd_to_dec`. */
  function BcdToDec(v: byte): (d: nat)
    ensures d <= 165
  {
    v / 16 * 10 + v % 16
  }

  /** Two digits survive the round trip up to 159; above that the sixteens digit of the tens is lost. */
  lemma BcdRoundTrip(v: byte)
    ensures BcdToDec(DecToBcd(v)) == if v < 160 then v else v - 160
  {
    var tens := v / 10;
    assert v == 10 * tens + v % 10;
    assert tens % 16 == if tens < 16 then tens else tens - 16;
  }

  /** Written in hexadecimal, a BCD byte shows the decimal digits of its number. */
  lemma BcdShowsDecimal(v: byte)
    requires v < 100
    ensures Printf.Number(DecToBcd(v), 16, 2) == Printf.Number(v, 10, 2)
  {
    TwoDigits(v, 10, v / 10, v % 10);
    TwoDigits(DecToBcd(v), 16, v / 10, v % 10);
  }

  lemma TwoDigits(x: nat, b: Printf.Base, high: nat, low: nat)
    requires x == b * high + low && high < b && low < b
    ensures Printf.Number(x, b, 2) == [Printf.DigitChar(high), Printf.DigitChar(low)]
  {
    assert Printf.Pow(b, 0) == 1 && Printf.Pow(b, 1) == b && Printf.Digits(x, b) <= 2 by { AtMostTwo(x, b, high); }
    Printf.FitsAndRest(x, b);
    DivisionIsUnique(x, high, b, low);
    Printf.FitsAndRest(low, 1);
    Printf.FitsWidth(x, b, 2);
    assert Printf.Numeral(low, b, 1) == [Printf.DigitChar(low)] + Printf.Numeral(0, b, 0);
  }

  lemma AtMostTwo(x: nat, b: Printf.Base, high: nat)
    requires x < b * (high + 1) && high < b
    ensures Printf.Pow(b, 0) == 1 && Printf.Pow(b, 1) == b && Printf.Digits(x, b) <= 2
  {
    assert x / b < b;
  }

  function BcdTime(t: SystemTime): SystemTime {
    SystemTime(DecToBcd(t.ucYear), DecToBcd(t.ucMonth), DecToBcd(t.ucDay),
               DecToBcd(t.ucHour), DecToBcd(t.ucMin), DecToBcd(t.ucScd))
  }

  /** What the message handlers make of a BCD time. */
  function FromBcd(t: SystemTime): Date {
    Date(BcdToDec(t.ucYear) + 2000, BcdToDec(t.ucMonth), BcdToDec(t.ucDay),
         BcdToDec(t.ucHour), BcdToDec(t.ucMin), BcdToDec(t.ucScd))
  }

  /** A timestamp sent to the peer in BCD and taken back is unchanged exactly from 2000 on: earlier
      years wrap in the byte that holds them. */
  method ThereAndBack(ts: nat) returns (back: nat)
    requires ts < U32
    ensures back == ts <==> ts >= Y2K
  {
    var time := TimestampToDatetime(ts);
    ghost var t :| IsDateOf(t, ts) && time == Compact(t);
    var sent := BcdTime(time);
    back := DatetimeToTimestamp(FromBcd(sent));
    BackIff(ts, t);
  }

  /** 1970 to 1999 become 2066 to 2095: their year byte is above 159. */
  lemma FieldsBack(t: Date)
    requires Valid(t) && t.year < 2107
    ensures FromBcd(BcdTime(Compact(t))) == t.(year := if t.year >= 2000 then t.year else t.year + 96)
  {
    BcdRoundTrip(YearByte(t.year));
    BcdRoundTrip(t.month);
    BcdRoundTrip(t.day);
    BcdRoundTrip(t.hour);
    BcdRoundTrip(t.min);
    BcdRoundTrip(t.sec);
  }

  lemma BackIff(ts: nat, t: Date)
    requires ts < U32 && Valid(t) && Seconds(t) == ts && t.year < 2107
    ensures var u := FromBcd(BcdTime(Compact(t)));
            Accepted(u) && Seconds(u) < U32 && (Seconds(u) == ts <==> ts >= Y2K)
  {
    FieldsBack(t);
    SideOfY2K(t);
    if t.year < 2000 { Wrapped(t); }
  }

  lemma SideOfY2K(t: Date)
    requires Valid(t)
    ensures Seconds(t) >= Y2K <==> t.year >= 2000
  {
    DaysToY2K();
    if t.year >= 2000 { FromY2K(t.year); } else { BeforeY2K(t); }
  }

  lemma DaysToY2K()
    ensures DaysBeforeYear(2000) == 10_957 && 10_957 * DAY == Y2K
  {
    DaysAndLeaps(2000);
  }

  lemma FromY2K(y: nat)
    requires y >= 2000
    ensures DaysBeforeYear(y) >= 10_957
  {
    DaysToY2K();
    if y > 2000 { YearsGrow(2000, y); }
  }

  lemma BeforeY2K(t: Date)
    requires Valid(t) && t.year < 2000
    ensures Seconds(t) < Y2K
  {
    DaysToY2K();
    DayInsideYear(t);
    YearsGrow(t.year, 2000);
  }

  lemma Wrapped(t: Date)
    requires Valid(t) && t.year < 2000
    ensures var u := t.(year := t.year + 96); Seconds(t) < Seconds(u) < U32
  {
    var u := t.(year := t.year + 96);
    SameLeap(t.year);
    DayInsideYear(t);
    DayInsideYear(u);
    YearsGrow(t.year, u.year);
    YearsGrow(u.year, 2096);
    DaysAndLeaps(2096);
    assert DaysBeforeYear(2096) == 46_021;
  }

  lemma SameLeap(y: nat)
    requires EPOCH <= y < 2000
    ensures IsLeap(y) == IsLeap(y + 96)
  {
    assert y == 4 * (y / 4) + y % 4 && y + 96 == 4 * (y / 4 + 24) + y % 4;
  }

  // ----- day of the week -----

  /** `13 * (m + 1) / 5` in the month numbering of the sum. */
  function MonthPart(month: nat): nat {
    13 * ((if month < 3 then month + 12 else month) + 1) / 5
  }

  lemma MonthTerm(month: nat)
    requires 1 <= month <= 12
    ensures MonthPart(month) == [36, 39, 10, 13, 15, 18, 20, 23, 26, 28, 31, 33][month - 1]
  {
  }

  /** The day count continued to the years before the loops begin. */
  function DayNumber(y: nat, m: nat, d: nat): int
    requires y >= 1 && 1 <= m <= 12 && d >= 1
  {
    365 * (y - 1970) + Leaps(y - 1) - 477 + DaysBeforeMonth(y, m) + (d - 1)
  }

  lemma DayNumberIsDayCount(y: nat, m: nat, d: nat)
    requires y >= EPOCH && 1 <= m <= 12 && d >= 1
    ensures DayNumber(y, m, d) == DayCount(y, m, d)
  {
    DaysAndLeaps(y);
  }

  lemma NextDay(y: nat, m: nat, d: nat)
    requires y >= 1 && 1 <= m <= 12 && 1 <= d <= DaysOfMonth(y, m)
    ensures DayNumber(y, m, d) + 1 ==
              if d < DaysOfMonth(y, m) then DayNumber(y, m, d + 1)
              else if m < 12 then DayNumber(y, m + 1, 1) else DayNumber(y + 1, 1, 1)
  {
    TwelveMonths(y);
    LeapStep(y - 1);
  }

  /** The sum in Zeller's congruence, January and February counted with the year before. */
  function ZellerSum(year: nat, month: nat, day: nat): int
    requires year >= 1 && 1 <= month <= 12
  {
    var y := MarchYear(year, month);
    day + MonthPart(month) + y % 100 + y % 100 / 4 + y / 100 / 4 - 2 * (y / 100)
  }

  /** C's `%`: the sign of the dividend. */
  function Rem(a: int, b: nat): int
    requires b > 0
  {
    if a >= 0 then a % b else -((-a) % b)
  }

  /** The year before for January and February. */
  function MarchYear(year: nat, month: nat): nat
    requires year >= 1
  {
    if month < 3 then year - 1 else year
  }

  /** Days before the month, in a year that begins with March. */
  lemma DaysFromMarch(year: nat, month: nat, day: nat)
    requires year >= 1 && 1 <= month <= 12 && day >= 1
    ensures var y := MarchYear(year, month);
            DayNumber(year, month, day) == 365 * y + Leaps(y) + day
              + [-719163, -719132, -719469, -719438, -719408, -719377,
                 -719347, -719316, -719285, -719255, -719224, -719194][month - 1]
  {
    LeapStep(year - 1);
    MonthTable(year, month);
  }

  /** Zeller's sum and the day count differ by five and a multiple of seven. */
  lemma ZellerCongruence(year: nat, month: nat, day: nat)
    requires year >= 1 && 1 <= month <= 12 && day >= 1
    ensures var y := MarchYear(year, month);
            DayNumber(year, month, day) + 5 - ZellerSum(year, month, day)
              == 7 * (52 * y + 18 * (y / 100) + (if month < 3 then 4 * month - 102746 else 4 * month - 102794))
  {
    DaysFromMarch(year, month, day);
    Centuries(MarchYear(year, month));
    MonthTerm(month);
  }

  lemma Centuries(y: nat)
    ensures y == 100 * (y / 100) + y % 100 && y / 4 == 25 * (y / 100) + y % 100 / 4 && y / 400 == y / 100 / 4
  {
    var c, r := y / 100, y % 100;
    assert y == 4 * (25 * c + r / 4) + r % 4;
    assert y == 400 * (c / 4) + (100 * (c % 4) + r);
  }

  /** What the function makes of the sum. */
  function ZellerDay(sum: int): int {
    if Rem(sum, 7) == 0 then 6 else Rem(sum, 7) - 1
  }

  lemma ZellerDayIff(sum: int, days: int, k: int)
    requires days + 5 - sum == 7 * k
    ensures ZellerDay(sum) == (days + 4) % 7 <==> sum >= 0 || sum % 7 == 0
  {
    var r := (days + 4) % 7;
    assert sum == 7 * ((days + 4) / 7 - k) + r + 1;
  }

  /** `calculateDayOfWeek`, from year 1 on: right (0 is Sunday) exactly unless the sum is negative and not a multiple
      of seven. */
  method CalculateDayOfWeek(year: nat, month: nat, day: nat) returns (w: int)
    requires year >= 1 && 1 <= month <= 12 && 1 <= day <= DaysOfMonth(year, month)
    ensures w == ZellerDay(ZellerSum(year, month, day))
    ensures w == (DayNumber(year, month, day) + 4) % 7 <==>
              ZellerSum(year, month, day) >= 0 || ZellerSum(year, month, day) % 7 == 0
    ensures year >= EPOCH ==> DayNumber(year, month, day) == DayCount(year, month, day)
  {
    DayOfWeekIff(year, month, day);
    if year >= EPOCH { DayNumberIsDayCount(year, month, day); }
    w := SumOf(year, month, day);
    w := Rem(w, 7);
    if w == 0 {
      w := 6;
    } else {
      w := w - 1;
    }
  }

  /** The sum itself. */
  method SumOf(year: nat, month: nat, day: nat) returns (w: int)
    requires year >= 1 && 1 <= month <= 12
    ensures w == ZellerSum(year, month, day)
  {
    var y, m := year, month;
    if month < 3 {
      m := m + 12;
      y := y - 1;
    }
    w := day + 13 * (m + 1) / 5 + y % 100 + y % 100 / 4 + y / 100 / 4 - 2 * (y / 100);
  }

  lemma DayOfWeekIff(year: nat, month: nat, day: nat)
    requires year >= 1 && 1 <= month <= 12 && day >= 1
    ensures ZellerDay(ZellerSum(year, month, day)) == (DayNumber(year, month, day) + 4) % 7 <==>
              ZellerSum(year, month, day) >= 0 || ZellerSum(year, month, day) % 7 == 0
  {
    ZellerCongruence(year, month, day);
    var y := MarchYear(year, month);
    ZellerDayIff(ZellerSum(year, month, day), DayNumber(year, month, day),
                 52 * y + 18 * (y / 100) + (if month < 3 then 4 * month - 102746 else 4 * month - 102794));
  }

  /** The wrong side occurs: the first of March 2000 was a Wednesday, the function says -4. */
  lemma MarchFirst2000()
    ensures ZellerDay(ZellerSum(2000, 3, 1)) == -4 && (DayCount(2000, 3, 1) + 4) % 7 == 3
  {
    DayNumberIsDayCount(2000, 3, 1);
    DaysFromMarch(2000, 3, 1);
    MonthTerm(3);
    assert DayNumber(2000, 3, 1) == 11_017 && ZellerSum(2000, 3, 1) == -24;
  }
}
