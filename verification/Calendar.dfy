/** The calendar of platform/utc.c (H. Hinnant's algorithms), on unbounded day
    counts, against the Gregorian rules. */
module Calendar {
  import opened MachineWords

  const DAYS_TO_1970: nat := 719468
  const DAYS_PER_ERA: nat := 146097
  const SECONDS_PER_DAY: nat := 86400

  datatype Date = Date(year: nat, month: nat, day: nat)

  // ---- The rules ------------------------------------------------------------

  predicate LeapYear(year: nat) {
    (year % 4 == 0 && year % 100 != 0) || year % 400 == 0
  }

  function DaysInMonth(year: nat, month: nat): nat {
    if month == 2 then (if LeapYear(year) then 29 else 28)
    else if month == 4 || month == 6 || month == 9 || month == 11 then 30 else 31
  }

  predicate ValidDate(d: Date) {
    1 <= d.month <= 12 && 1 <= d.day <= DaysInMonth(d.year, d.month)
  }

  function NextDate(d: Date): Date {
    if d.day < DaysInMonth(d.year, d.month) then d.(day := d.day + 1)
    else if d.month < 12 then Date(d.year, d.month + 1, 1)
    else Date(d.year + 1, 1, 1)
  }

  // ---- The algorithms -------------------------------------------------------

  /** utc_days_from_civil() */
  function DaysFromCivil(d: Date): int
    requires ValidDate(d) && d.year >= 1970
  {
    var y := d.year - (if d.month <= 2 then 1 else 0);
    var era := y / 400;
    var yearOfEra := y - era * 400;
    var dayOfYear := (153 * (if d.month > 2 then d.month - 3 else d.month + 9) + 2) / 5 + d.day - 1;
    var dayOfEra := yearOfEra * 365 + yearOfEra / 4 - yearOfEra / 100 + dayOfYear;
    era * DAYS_PER_ERA + dayOfEra - DAYS_TO_1970
  }

  function YearOfEra(dayOfEra: nat): int {
    (dayOfEra - dayOfEra / 1460 + dayOfEra / 36524 - dayOfEra / 146096) / 365
  }

  /** utc_civil_from_days() */
  function CivilFromDays(days: nat): (d: Date)
  {
    var z := days + DAYS_TO_1970;
    var era := z / DAYS_PER_ERA;
    var dayOfEra := z - era * DAYS_PER_ERA;
    YearOfEraRange(dayOfEra);
    var yearOfEra := YearOfEra(dayOfEra);
    var dayOfYear := dayOfEra - (365 * yearOfEra + yearOfEra / 4 - yearOfEra / 100);
    var monthIndex := (5 * dayOfYear + 2) / 153;
    var month := if monthIndex < 10 then monthIndex + 3 else monthIndex - 9;
    Date(yearOfEra + era * 400 + (if month <= 2 then 1 else 0), month, dayOfYear - (153 * monthIndex + 2) / 5 + 1)
  }

  // ---- Years of an era, counted from March ----------------------------------

  function YearStart(y: nat): nat {
    365 * y + y / 4 - y / 100
  }

  /** Whether the year that starts in March of year y of an era ends in a leap day. */
  function LeapDay(y: nat): (l: nat)
    ensures l <= 1
  {
    if LeapYear(y + 1) then 1 else 0
  }

  // A year of an era as century, leap cycle and year within it.
  lemma Cycles(c: nat, q: nat, r: nat)
    requires c < 4 && q < 25 && r < 4
    ensures var y := 100 * c + 4 * q + r;
      && YearStart(y) == 36524 * c + 1461 * q + 365 * r
      && LeapDay(y) == if r == 3 && (q < 24 || c == 3) then 1 else 0
  {
    var y := 100 * c + 4 * q + r;
    assert y / 4 == 25 * c + q && y / 100 == c;
    assert (y + 1) % 4 == (r + 1) % 4;
    assert (y + 1) % 100 == if q == 24 && r == 3 then 0 else 4 * q + r + 1;
    assert (y + 1) % 400 == if c == 3 && q == 24 && r == 3 then 0 else y + 1;
  }

  lemma Corrections(c: nat, q: nat, r: nat, dayOfYear: nat, doe: nat)
    requires c < 4 && q < 25 && r < 4 && doe == 36524 * c + 1461 * q + 365 * r + dayOfYear
    requires dayOfYear < 365 || (dayOfYear == 365 && r == 3 && (q < 24 || c == 3))
    ensures doe / 1460 == 25 * c + q + (if 24 * c + q + 365 * r + dayOfYear >= 1460 then 1 else 0)
    ensures doe / 36524 - doe / 146096 == c
  {
    var full := c == 3 && q == 24 && r == 3 && dayOfYear == 365;
    Quotient(doe, 1460, 25 * c + q + if 24 * c + q + 365 * r + dayOfYear >= 1460 then 1 else 0);
    Quotient(doe, 36524, if full then 4 else c);
    Quotient(doe, 146096, if full then 1 else 0);
  }

  /** The year of an era is found exactly. */
  lemma YearFound(c: nat, q: nat, r: nat, dayOfYear: nat)
    requires c < 4 && q < 25 && r < 4 && dayOfYear < 365 + LeapDay(100 * c + 4 * q + r)
    ensures YearOfEra(YearStart(100 * c + 4 * q + r) + dayOfYear) == 100 * c + 4 * q + r
  {
    Cycles(c, q, r);
    hide LeapDay, YearStart;
    var y, doe := 100 * c + 4 * q + r, 36524 * c + 1461 * q + 365 * r + dayOfYear;
    Corrections(c, q, r, dayOfYear, doe);
    var carry := if 24 * c + q + 365 * r + dayOfYear >= 1460 then 1 else 0;
    assert carry <= dayOfYear < 365 + carry;
    Quotient(365 * y + (dayOfYear - carry), 365, y);
  }

  // Every day of an era has its place.
  lemma Place(doe: nat) returns (c: nat, q: nat, r: nat, dayOfYear: nat)
    requires doe < DAYS_PER_ERA
    ensures c < 4 && q < 25 && r < 4 && dayOfYear < 365 + LeapDay(100 * c + 4 * q + r)
    ensures doe == YearStart(100 * c + 4 * q + r) + dayOfYear
    ensures YearOfEra(doe) == 100 * c + 4 * q + r
  {
    c := if doe < 36524 then 0 else if doe < 2 * 36524 then 1 else if doe < 3 * 36524 then 2 else 3;
    var rest := doe - 36524 * c;
    q := rest / 1461;
    var left := rest - 1461 * q;
    r := if left < 365 then 0 else if left < 730 then 1 else if left < 1095 then 2 else 3;
    dayOfYear := left - 365 * r;
    Cycles(c, q, r);
    YearFound(c, q, r, dayOfYear);
  }

  lemma YearOfEraRange(doe: nat)
    requires doe < DAYS_PER_ERA
    ensures var y := YearOfEra(doe);
      0 <= y < 400 && YearStart(y) <= doe < YearStart(y) + 365 + LeapDay(y)
  {
    var c, q, r, dayOfYear := Place(doe);
  }

  // ---- Months of a year, counted from March ----------------------------------

  function MonthStart(mi: nat): nat {
    (153 * mi + 2) / 5
  }

  function MonthLength(mi: nat, leapDay: nat): nat {
    if mi == 1 || mi == 3 || mi == 6 || mi == 8 then 30 else if mi == 11 then 28 + leapDay else 31
  }

  lemma MonthFound(mi: nat, day: nat, leapDay: nat)
    requires mi < 12 && leapDay <= 1 && 1 <= day <= MonthLength(mi, leapDay)
    ensures (5 * (MonthStart(mi) + day - 1) + 2) / 153 == mi
    ensures MonthStart(mi) + day - 1 < 365 + leapDay
  {
    if mi < 6 {
      if mi == 0 {} else if mi == 1 {} else if mi == 2 {} else if mi == 3 {} else if mi == 4 {} else {}
    } else {
      if mi == 6 {} else if mi == 7 {} else if mi == 8 {} else if mi == 9 {} else if mi == 10 {} else {}
    }
  }

  /** The date of a day of a March year. */
  function DateAt(era: nat, y: nat, dayOfYear: nat): Date
    requires dayOfYear <= 365
  {
    var mi := (5 * dayOfYear + 2) / 153;
    var month := if mi < 10 then mi + 3 else mi - 9;
    Date(y + era * 400 + (if month <= 2 then 1 else 0), month, dayOfYear - MonthStart(mi) + 1)
  }

  lemma MonthOf(dayOfYear: nat, leapDay: nat) returns (mi: nat, day: nat)
    requires leapDay <= 1 && dayOfYear < 365 + leapDay
    ensures mi == (5 * dayOfYear + 2) / 153 < 12
    ensures 1 <= day <= MonthLength(mi, leapDay) && dayOfYear == MonthStart(mi) + day - 1
    ensures MonthStart(mi) + MonthLength(mi, leapDay) == if mi == 11 then 365 + leapDay else MonthStart(mi + 1)
  {
    mi := (5 * dayOfYear + 2) / 153;
    if mi < 6 {
      if mi == 0 {} else if mi == 1 {} else if mi == 2 {} else if mi == 3 {} else if mi == 4 {} else {}
    } else {
      if mi == 6 {} else if mi == 7 {} else if mi == 8 {} else if mi == 9 {} else if mi == 10 {} else {}
    }
    day := dayOfYear - MonthStart(mi) + 1;
  }

  lemma CivilAt(days: nat, era: nat, c: nat, q: nat, r: nat, dayOfYear: nat)
    requires c < 4 && q < 25 && r < 4 && dayOfYear < 365 + LeapDay(100 * c + 4 * q + r)
    requires days + DAYS_TO_1970 == era * DAYS_PER_ERA + YearStart(100 * c + 4 * q + r) + dayOfYear
    ensures CivilFromDays(days) == DateAt(era, 100 * c + 4 * q + r, dayOfYear)
  {
    Cycles(c, q, r);
    YearFound(c, q, r, dayOfYear);
    hide LeapDay, YearStart, YearOfEra;
    Quotient(days + DAYS_TO_1970, DAYS_PER_ERA, era);
  }

  lemma LeapInEra(era: nat, y: nat)
    ensures LeapYear(y + era * 400 + 1) == (LeapDay(y) == 1)
  {
    Residue(y + 1, 100 * era, 4);
    Residue(y + 1, 4 * era, 100);
    Residue(y + 1, era, 400);
  }

  lemma Residue(n: nat, k: nat, d: nat)
    requires d > 0
    ensures (n + k * d) % d == n % d
  {
    assert n + k * d == (n / d + k) * d + n % d;
    Quotient(n + k * d, d, n / d + k);
  }

  function MonthDate(era: nat, y: nat, mi: nat, day: nat): Date {
    var month := if mi < 10 then mi + 3 else mi - 9;
    Date(y + era * 400 + (if month <= 2 then 1 else 0), month, day)
  }

  lemma MonthNext(era: nat, y: nat, mi: nat, day: nat)
    requires mi < 12 && 1 <= day <= MonthLength(mi, LeapDay(y))
    ensures ValidDate(MonthDate(era, y, mi, day))
    ensures NextDate(MonthDate(era, y, mi, day)) ==
      if day < MonthLength(mi, LeapDay(y)) then MonthDate(era, y, mi, day + 1)
      else if mi < 11 then MonthDate(era, y, mi + 1, 1)
      else Date(y + era * 400 + 1, 3, 1)
  {
    LeapInEra(era, y);
    hide LeapYear, LeapDay;
  }

  /** Dates within a March year follow one another by the Gregorian rules... */
  lemma NextInYear(era: nat, y: nat, dayOfYear: nat)
    requires dayOfYear < 365 + LeapDay(y)
    ensures ValidDate(DateAt(era, y, dayOfYear))
    ensures dayOfYear + 1 < 365 + LeapDay(y) ==> NextDate(DateAt(era, y, dayOfYear)) == DateAt(era, y, dayOfYear + 1)
    ensures dayOfYear + 1 == 365 + LeapDay(y) ==> NextDate(DateAt(era, y, dayOfYear)) == Date(y + era * 400 + 1, 3, 1)
  {
    var mi, day := MonthOf(dayOfYear, LeapDay(y));
    assert DateAt(era, y, dayOfYear) == MonthDate(era, y, mi, day);
    MonthNext(era, y, mi, day);
    hide NextDate, MonthDate, ValidDate, LeapDay;
    if dayOfYear + 1 < 365 + LeapDay(y) {
      var mi', day' := MonthOf(dayOfYear + 1, LeapDay(y));
      SameOrNextMonth(mi, day, mi', day', LeapDay(y));
      DateOfMonth(era, y, dayOfYear + 1, mi', day');
    }
  }

  lemma DateOfMonth(era: nat, y: nat, dayOfYear: nat, mi: nat, day: nat)
    requires dayOfYear <= 365 && mi == (5 * dayOfYear + 2) / 153 && dayOfYear == MonthStart(mi) + day - 1
    ensures DateAt(era, y, dayOfYear) == MonthDate(era, y, mi, day)
  {
  }

  lemma SameOrNextMonth(mi: nat, day: nat, mi': nat, day': nat, leapDay: nat)
    requires mi < 12 && mi' < 12 && leapDay <= 1
    requires 1 <= day <= MonthLength(mi, leapDay) && 1 <= day' <= MonthLength(mi', leapDay)
    requires MonthStart(mi') + day' == MonthStart(mi) + day + 1
    ensures if day < MonthLength(mi, leapDay) then mi' == mi && day' == day + 1 else mi' == mi + 1 && day' == 1
  {
    if day < MonthLength(mi, leapDay) {
      MonthFound(mi, day + 1, leapDay);
    } else if mi < 11 {
      var _, _ := MonthOf(MonthStart(mi) + day - 1, leapDay);
      MonthFound(mi + 1, 1, leapDay);
    }
    MonthFound(mi', day', leapDay);
  }

  // The March year after a March year.
  lemma YearAfter(era: nat, c: nat, q: nat, r: nat) returns (era': nat, c': nat, q': nat, r': nat)
    requires c < 4 && q < 25 && r < 4
    ensures c' < 4 && q' < 25 && r' < 4
    ensures var y, y' := 100 * c + 4 * q + r, 100 * c' + 4 * q' + r';
      && y' + era' * 400 == y + era * 400 + 1
      && era' * DAYS_PER_ERA + YearStart(y') == era * DAYS_PER_ERA + YearStart(y) + 365 + LeapDay(y)
  {
    era', c', q', r' := era, c, q, r + 1;
    if r' == 4 {
      q', r' := q + 1, 0;
    }
    if q' == 25 {
      c', q' := c + 1, 0;
    }
    if c' == 4 {
      era', c' := era + 1, 0;
    }
    Cycles(c, q, r);
    Cycles(c', q', r');
  }

  /** The days of the calendar are numbered without gap or repeat from
      1970-01-01: consecutive days, for ever, are consecutive Gregorian dates. */
  lemma ConsecutiveDays(days: nat)
    ensures CivilFromDays(0) == Date(1970, 1, 1)
    ensures ValidDate(CivilFromDays(days)) && CivilFromDays(days + 1) == NextDate(CivilFromDays(days))
  {
    hide CivilFromDays, YearOfEra, LeapDay, YearStart, DateAt, NextDate, ValidDate;
    EpochDay();
    var z := days + DAYS_TO_1970;
    var era, doe := z / DAYS_PER_ERA, z % DAYS_PER_ERA;
    var c, q, r, dayOfYear := Place(doe);
    CivilAt(days, era, c, q, r, dayOfYear);
    NextInYear(era, 100 * c + 4 * q + r, dayOfYear);
    if dayOfYear + 1 < 365 + LeapDay(100 * c + 4 * q + r) {
      CivilAt(days + 1, era, c, q, r, dayOfYear + 1);
    } else {
      var era', c', q', r' := YearAfter(era, c, q, r);
      YearBegins(era', 100 * c' + 4 * q' + r');
      CivilAt(days + 1, era', c', q', r', 0);
    }
  }

  lemma YearBegins(era: nat, y: nat)
    ensures DateAt(era, y, 0) == Date(y + era * 400, 3, 1) && 0 < 365 + LeapDay(y)
  {
  }

  lemma EpochDay()
    ensures CivilFromDays(0) == Date(1970, 1, 1)
  {
    Cycles(3, 17, 1);
    CivilAt(0, 4, 3, 17, 1, 306);
  }

  // ---- Round trips ------------------------------------------------------------

  lemma {:induction false} NotBefore1970(days: nat)
    ensures CivilFromDays(days).year >= 1970
  {
    hide CivilFromDays;
    if days == 0 {
      EpochDay();
    } else {
      NotBefore1970(days - 1);
      ConsecutiveDays(days - 1);
    }
  }

  lemma DaysOfMonthDate(era: nat, y: nat, mi: nat, day: nat)
    requires y < 400 && mi < 12 && MonthDate(era, y, mi, day).year >= 1970 && ValidDate(MonthDate(era, y, mi, day))
    ensures DaysFromCivil(MonthDate(era, y, mi, day)) ==
      era * DAYS_PER_ERA + YearStart(y) + MonthStart(mi) + day - 1 - DAYS_TO_1970
  {
    hide ValidDate;
    Quotient(y + era * 400, 400, era);
  }

  /** utc_days_from_civil() inverts utc_civil_from_days()... */
  lemma DaysRoundTrip(days: nat)
    ensures CivilFromDays(days).year >= 1970 && ValidDate(CivilFromDays(days))
    ensures DaysFromCivil(CivilFromDays(days)) == days
  {
    hide CivilFromDays, YearOfEra, LeapDay, YearStart, NextDate, ValidDate, DaysFromCivil;
    NotBefore1970(days);
    ConsecutiveDays(days);
    var z := days + DAYS_TO_1970;
    var era, doe := z / DAYS_PER_ERA, z % DAYS_PER_ERA;
    var c, q, r, dayOfYear := Place(doe);
    var y := 100 * c + 4 * q + r;
    CivilAt(days, era, c, q, r, dayOfYear);
    var mi, day := MonthOf(dayOfYear, LeapDay(y));
    DateOfMonth(era, y, dayOfYear, mi, day);
    DaysOfMonthDate(era, y, mi, day);
  }

  // A date, placed in its March year.
  lemma MarchYear(d: Date) returns (era: nat, c: nat, q: nat, r: nat, mi: nat)
    requires ValidDate(d) && d.year >= 1970
    ensures c < 4 && q < 25 && r < 4 && mi < 12 && d.day >= 1
    ensures d == MonthDate(era, 100 * c + 4 * q + r, mi, d.day)
    ensures d.day <= MonthLength(mi, LeapDay(100 * c + 4 * q + r))
    ensures 400 * era + 100 * c + 4 * q + r >= if mi >= 10 then 1969 else 1970
  {
    var year := d.year - (if d.month <= 2 then 1 else 0);
    mi := if d.month > 2 then d.month - 3 else d.month + 9;
    era := year / 400;
    var y := year % 400;
    c, q, r := y / 100, y % 100 / 4, y % 4;
    assert y == 100 * c + 4 * q + r;
    LeapInEra(era, y);
    hide LeapDay, LeapYear;
  }

  /** ... and the other way, for every Gregorian date from 1970 on. */
  lemma DateRoundTrip(d: Date)
    requires ValidDate(d) && d.year >= 1970
    ensures DaysFromCivil(d) >= 0 && CivilFromDays(DaysFromCivil(d)) == d
  {
    hide CivilFromDays, YearOfEra, LeapDay, LeapYear, NextDate, ValidDate, DaysFromCivil, MonthDate, MonthLength;
    var era, c, q, r, mi := MarchYear(d);
    var y := 100 * c + 4 * q + r;
    DaysOfMonthDate(era, y, mi, d.day);
    MonthFound(mi, d.day, LeapDay(y));
    var dayOfYear := MonthStart(mi) + d.day - 1;
    From1970(era, y, c, q, r, dayOfYear);
    CivilAt(era * DAYS_PER_ERA + YearStart(y) + dayOfYear - DAYS_TO_1970, era, c, q, r, dayOfYear);
    DateOfMonth(era, y, dayOfYear, mi, d.day);
  }

  lemma From1970(era: nat, y: nat, c: nat, q: nat, r: nat, dayOfYear: nat)
    requires c < 4 && q < 25 && r < 4 && y == 100 * c + 4 * q + r
    requires era * 400 + y >= 1970 || (era * 400 + y == 1969 && dayOfYear >= 306)
    ensures era * DAYS_PER_ERA + YearStart(y) + dayOfYear >= DAYS_TO_1970
  {
    Cycles(c, q, r);
    hide YearStart, LeapDay;
    if era < 5 {
      assert era == 4 && y >= 369;
    }
  }

  /** Within the 32-bit count of seconds nothing overflows: a day fits 16 bits
      (and is the last representable or before), as do its date's fields. */
  lemma MachineRange(utc: u32)
    ensures var days := utc / SECONDS_PER_DAY;
      var d := CivilFromDays(days);
      && days <= 49710 && days + DAYS_TO_1970 < U32
      && 1970 <= d.year <= 2106 && 1 <= d.month <= 12 && 1 <= d.day <= 31
  {
    hide CivilFromDays, NextDate;
    var days := utc / SECONDS_PER_DAY;
    ConsecutiveDays(days);
    DaysRoundTrip(days);
    LateDates(CivilFromDays(days));
  }

  lemma LateDates(d: Date)
    requires ValidDate(d) && d.year >= 1970
    ensures d.year >= 2107 ==> DaysFromCivil(d) > 49710
  {
  }

  // ---- Times of day -----------------------------------------------------------

  datatype Civil = Civil(date: Date, hour: nat, minute: nat, second: nat)

  /** utc_to_civil() */
  function ToCivil(utc: u32, leapSecond: bool): Civil {
    var secondOfDay := utc % SECONDS_PER_DAY;
    var minuteOfDay := secondOfDay / 60;
    Civil(CivilFromDays(utc / SECONDS_PER_DAY), minuteOfDay / 60, minuteOfDay % 60,
          if leapSecond then 60 else secondOfDay % 60)
  }

  /** utc_from_civil() */
  function FromCivil(c: Civil): u32
    requires ValidDate(c.date) && c.date.year >= 1970
  {
    var second := if c.second > 59 then 59 else c.second;
    Wrap32(DaysFromCivil(c.date) * SECONDS_PER_DAY + c.hour * 3600 + c.minute * 60 + second)
  }

  /** Civil time and back, for every second there is: exactly unless a second is
      flagged as a leap second that does not end a minute. */
  lemma CivilRoundTrip(utc: u32, leapSecond: bool)
    ensures ValidDate(ToCivil(utc, leapSecond).date) && ToCivil(utc, leapSecond).date.year >= 1970
    ensures FromCivil(ToCivil(utc, leapSecond)) == utc <==> !leapSecond || utc % 60 == 59
  {
    hide CivilFromDays, DaysFromCivil, ValidDate;
    DaysRoundTrip(utc / SECONDS_PER_DAY);
    var s := utc % SECONDS_PER_DAY;
    assert s == s / 60 / 60 * 3600 + s / 60 % 60 * 60 + s % 60;
    assert utc % 60 == s % 60;
  }

  // ---- Validity ---------------------------------------------------------------

  const LAST_YEAR: nat := 2106
  const LAST_SECOND_OF_LAST_DAY: nat := 23295

  /** A real date and time of day, its second up to 60. */
  predicate RealTime(c: Civil) {
    ValidDate(c.date) && c.date.year >= 1970 && c.hour <= 23 && c.minute <= 59 && c.second <= 60
  }

  /** utc_civil_is_valid() */
  predicate CivilIsValid(c: Civil) {
    var secondOfDay := c.hour * 3600 + c.minute * 60 + c.second;
    && !(c.date.year < 1970 || c.date.year > LAST_YEAR || c.date.month < 1 || c.date.month > 12 || c.date.day < 1
         || c.date.day > DaysInMonth(c.date.year, c.date.month) || c.hour > 23 || c.minute > 59 || c.second > 60)
    && (|| c.date.year < LAST_YEAR || c.date.month == 1 || (c.date.month == 2 && c.date.day < 7)
        || (c.date.month == 2 && c.date.day == 7 && secondOfDay <= LAST_SECOND_OF_LAST_DAY))
  }

  /** It accepts exactly the real times that the 32-bit count can hold. */
  lemma ValidIsRepresentable(c: Civil)
    ensures CivilIsValid(c) <==>
              RealTime(c) && DaysFromCivil(c.date) * SECONDS_PER_DAY + c.hour * 3600 + c.minute * 60 + c.second < U32
  {
    if RealTime(c) {
      DayRange(c.date);
      hide DaysFromCivil;
    }
  }

  lemma DayRange(d: Date)
    requires ValidDate(d) && d.year >= 1970
    ensures d.year < 2106 ==> DaysFromCivil(d) < 49709
    ensures d.year == 2106 && d.month <= 2 ==> DaysFromCivil(d) == 49672 + d.day + (if d.month == 2 then 31 else 0)
    ensures d.year > 2106 || (d.year == 2106 && d.month > 2) ==> DaysFromCivil(d) > 49710
  {
    if d.year > 2106 {
      LateDates(d);
    } else if d.year < 2106 {
      EarlyDates(d);
    }
  }

  lemma EarlyDates(d: Date)
    requires ValidDate(d) && 1970 <= d.year < 2106
    ensures DaysFromCivil(d) < 49709
  {
  }

  // ---- Machine arithmetic -------------------------------------------------------

  /** No step of utc_days_from_civil() goes below zero or past its type, for any
      date of the years it is asked for; and its result fits 16 bits. */
  lemma DaysFit(d: Date)
    requires ValidDate(d) && 1970 <= d.year <= LAST_YEAR
    ensures var y := d.year - (if d.month <= 2 then 1 else 0);
      var yearOfEra := y % 400;
      var dayOfYear := MonthStart(if d.month > 2 then d.month - 3 else d.month + 9) + d.day - 1;
      var beforeYear := yearOfEra * 365 + yearOfEra / 4 - yearOfEra / 100;
      && y == y / 400 * 400 + yearOfEra && 4 <= y / 400 <= 5
      && 0 <= dayOfYear <= 365 && 0 <= beforeYear && beforeYear + dayOfYear < DAYS_PER_ERA
      && DAYS_TO_1970 <= y / 400 * DAYS_PER_ERA + beforeYear + dayOfYear < U32
      && DaysFromCivil(d) == y / 400 * DAYS_PER_ERA + beforeYear + dayOfYear - DAYS_TO_1970 < U16
  {
    hide LeapDay, LeapYear, MonthDate, MonthLength, YearStart, MonthStart, ValidDate, DaysFromCivil;
    var era, c, q, r, mi := MarchYear(d);
    var y := 100 * c + 4 * q + r;
    MonthFound(mi, d.day, LeapDay(y));
    var dayOfYear := MonthStart(mi) + d.day - 1;
    From1970(era, y, c, q, r, dayOfYear);
    YearFits(d, era, y, mi);
    DaysOfMonthDate(era, y, mi, d.day);
    YearStartFits(era, c, q, r, dayOfYear);
    YearStartIs(y);
  }

  lemma YearStartIs(y: nat)
    ensures YearStart(y) == y * 365 + y / 4 - y / 100
  {
  }

  lemma YearStartFits(era: nat, c: nat, q: nat, r: nat, dayOfYear: nat)
    requires c < 4 && q < 25 && r < 4 && dayOfYear < 365 + LeapDay(100 * c + 4 * q + r)
    requires 4 <= era <= 5 && (era == 5 ==> 100 * c + 4 * q + r <= 106)
    ensures YearStart(100 * c + 4 * q + r) + dayOfYear < DAYS_PER_ERA
    ensures era * DAYS_PER_ERA + YearStart(100 * c + 4 * q + r) + dayOfYear < U16 + DAYS_TO_1970
  {
    Cycles(c, q, r);
    hide YearStart, LeapDay;
  }

  // The year counted from March is the one the code takes.
  lemma YearFits(d: Date, era: nat, y: nat, mi: nat)
    requires ValidDate(d) && 1970 <= d.year <= LAST_YEAR && y < 400 && mi < 12 && d == MonthDate(era, y, mi, d.day)
    ensures mi == (if d.month > 2 then d.month - 3 else d.month + 9)
    ensures var counted := d.year - (if d.month <= 2 then 1 else 0);
      counted / 400 == era && counted % 400 == y && 4 <= era <= 5
    ensures era == 5 ==> y <= 106
  {
    hide LeapYear;
    Quotient(era * 400 + y, 400, era);
  }

  /** Nor does any of utc_from_civil(), for every civil time that is valid: its
      sums are all below the 32-bit count's end, so it is the second it says. */
  lemma FromCivilFits(c: Civil)
    requires CivilIsValid(c)
    ensures RealTime(c) && DaysFromCivil(c.date) >= 0
    ensures var second := if c.second > 59 then 59 else c.second;
      var seconds := DaysFromCivil(c.date) * SECONDS_PER_DAY + c.hour * 3600 + c.minute * 60 + second;
      seconds < U32 && FromCivil(c) == seconds
  {
    hide DaysFromCivil, ValidDate, CivilIsValid, CivilFromDays;
    ValidIsRepresentable(c);
    DateRoundTrip(c.date);
  }

  /** Nor any of utc_civil_from_days(), for every 16-bit day. */
  lemma DateFits(days: u16)
    ensures var z := days + DAYS_TO_1970;
      var dayOfEra := z % DAYS_PER_ERA;
      var yearOfEra := YearOfEra(dayOfEra);
      var dayOfYear := dayOfEra - (365 * yearOfEra + yearOfEra / 4 - yearOfEra / 100);
      var monthIndex := (5 * dayOfYear + 2) / 153;
      && z < U32 && z == z / DAYS_PER_ERA * DAYS_PER_ERA + dayOfEra
      && 0 <= dayOfEra - dayOfEra / 1460 && 0 <= yearOfEra <= 399 && 0 <= dayOfYear <= 365
      && 0 <= monthIndex <= 11 && MonthStart(monthIndex) <= dayOfYear
      && yearOfEra + z / DAYS_PER_ERA * 400 + 1 < U16
  {
    var z := days + DAYS_TO_1970;
    YearOfEraRange(z % DAYS_PER_ERA);
    hide YearOfEra, LeapDay;
    var y := YearOfEra(z % DAYS_PER_ERA);
    var _, _ := MonthOf(z % DAYS_PER_ERA - YearStart(y), LeapDay(y));
  }
}
