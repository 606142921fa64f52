/** Calendar time: seconds since the epoch to broken-down time and back.

    Years are tm_year, counted from 1900. The reference is the proleptic Gregorian calendar, given
    by what the next day of a date is, and the expression of section 4.16 ("Seconds Since the
    Epoch") of the Base Definitions of POSIX.1-2017, extended to all years by rounding down. */
module Calendar {

  import opened Machine

  const DAY: int := 86400
  const LEAPOCH: int := 946684800 + 86400 * (31 + 29)

  // ----- the reference -------------------------------------------------------------------------------

  predicate IsLeap(year: int) {
    var y := year + 1900;
    y % 4 == 0 && (y % 100 != 0 || y % 400 == 0)
  }

  function MonthLength(year: int, month: nat): nat
    requires month < 12
  {
    if month == 1 then (if IsLeap(year) then 29 else 28)
    else if month == 3 || month == 5 || month == 8 || month == 10 then 30 else 31
  }

  /** Month and day count from 0, the day of the month from 1. */
  datatype Date = Date(year: int, mon: nat, mday: nat)

  predicate ValidDate(d: Date) {
    d.mon < 12 && 1 <= d.mday <= MonthLength(d.year, d.mon)
  }

  function NextDay(d: Date): Date
    requires ValidDate(d)
  {
    if d.mday < MonthLength(d.year, d.mon) then Date(d.year, d.mon, d.mday + 1)
    else if d.mon < 11 then Date(d.year, d.mon + 1, 1)
    else Date(d.year + 1, 0, 1)
  }

  function PreviousDay(d: Date): Date
    requires ValidDate(d)
  {
    if d.mday > 1 then Date(d.year, d.mon, d.mday - 1)
    else if d.mon > 0 then Date(d.year, d.mon - 1, MonthLength(d.year, d.mon - 1))
    else Date(d.year - 1, 11, 31)
  }

  const EPOCH := Date(70, 0, 1)

  /** The date `n` days after 1970-01-01, one day at a time. */
  ghost function DateOf(n: int): (d: Date)
    ensures ValidDate(d)
    decreases if n < 0 then -n else n
  {
    if n == 0 then EPOCH
    else if n > 0 then NextDay(DateOf(n - 1))
    else PreviousDay(DateOf(n + 1))
  }

  lemma NextPrevious(d: Date)
    requires ValidDate(d)
    ensures ValidDate(NextDay(d)) && PreviousDay(NextDay(d)) == d
    ensures ValidDate(PreviousDay(d)) && NextDay(PreviousDay(d)) == d
  {
  }

  /** Days from 1970-01-01 to the first day of a year, as POSIX counts them. */
  function YearStart(year: int): int {
    365 * (year - 70) + (year - 69) / 4 - (year - 1) / 100 + (year + 299) / 400
  }

  /** Days of the year before a month. */
  function MonthStart(month: nat, leap: bool): nat
    requires month < 12
  {
    [0, 31, 59, 90, 120, 151, 181, 212, 243, 273, 304, 334][month] + if leap && month >= 2 then 1 else 0
  }

  function DayNumber(d: Date): int
    requires d.mon < 12
  {
    YearStart(d.year) + MonthStart(d.mon, IsLeap(d.year)) + d.mday - 1
  }

  lemma YearLength(year: int)
    ensures YearStart(year + 1) == YearStart(year) + if IsLeap(year) then 366 else 365
  {
    Fours(year - 69);
    Hundreds(year - 1);
    FourHundreds(year + 299);
    LeapIs(year);
  }

  lemma Fours(x: int)
    ensures (x + 1) / 4 == x / 4 + if (x + 1) % 4 == 0 then 1 else 0
  {
  }

  lemma Hundreds(x: int)
    ensures (x + 1) / 100 == x / 100 + if (x + 1) % 100 == 0 then 1 else 0
  {
  }

  lemma FourHundreds(x: int)
    ensures (x + 1) / 400 == x / 400 + if (x + 1) % 400 == 0 then 1 else 0
  {
  }

  /** Leap years by the remainders that the formulas use. */
  lemma LeapIs(year: int)
    ensures IsLeap(year) <==> (year - 68) % 4 == 0 && (year % 100 != 0 || (year + 300) % 400 == 0)
    ensures year % 100 == 0 ==> (year - 68) % 4 == 0
    ensures (year + 300) % 400 == 0 ==> year % 100 == 0
  {
    Shift4(year - 68, 492);
    Shift100(year, 19);
    Shift400(year + 300, 4);
    Shift4(0, 25 * (year / 100) - 17);
    Shift100(0, 4 * ((year + 300) / 400) - 3);
  }

  lemma NextCounts(d: Date)
    requires ValidDate(d)
    ensures DayNumber(NextDay(d)) == DayNumber(d) + 1
  {
    hide YearStart, IsLeap;
    YearLength(d.year);
  }

  /** The calendar counts days. */
  lemma {:induction false} DateCounts(n: int)
    ensures DayNumber(DateOf(n)) == n
    decreases if n < 0 then -n else n
  {
    hide DayNumber, ValidDate;
    if n == 0 {
      EpochIsZero();
    } else if n > 0 {
      DateCounts(n - 1);
      NextCounts(DateOf(n - 1));
    } else {
      DateCounts(n + 1);
      NextPrevious(DateOf(n + 1));
      NextCounts(PreviousDay(DateOf(n + 1)));
    }
  }

  lemma EpochIsZero()
    ensures ValidDate(EPOCH) && DayNumber(EPOCH) == 0
  {
  }

  /** Only one date has each number. */
  lemma {:induction false} DateIs(d: Date)
    requires ValidDate(d)
    ensures DateOf(DayNumber(d)) == d
    decreases var n := DayNumber(d); if n < 0 then -n else n
  {
    hide DayNumber;
    var n := DayNumber(d);
    NextPrevious(d);
    if n == 0 {
      OnlyEpoch(d);
    } else if n > 0 {
      NextCounts(PreviousDay(d));
      DateIs(PreviousDay(d));
    } else {
      NextCounts(d);
      DateIs(NextDay(d));
    }
  }

  lemma OnlyEpoch(d: Date)
    requires ValidDate(d) && DayNumber(d) == 0
    ensures d == EPOCH
  {
    hide YearStart;
    EpochIsZero();
    YearLength(d.year);
    WithinYear(d);
    if d.year > 70 { YearsGrow(71, d.year); YearLength(70); assert false; }
    if d.year < 70 { YearsGrow(d.year + 1, 70); assert false; }
  }

  lemma WithinYear(d: Date)
    requires ValidDate(d)
    ensures 0 <= MonthStart(d.mon, IsLeap(d.year)) + d.mday - 1 < if IsLeap(d.year) then 366 else 365
    ensures MonthStart(d.mon, IsLeap(d.year)) + d.mday == 1 ==> d.mon == 0 && d.mday == 1
  {
    hide IsLeap;
  }

  lemma {:induction false} YearsGrow(a: int, b: int)
    requires a <= b
    ensures YearStart(a) <= YearStart(b)
    decreases b - a
  {
    if a < b {
      YearsGrow(a, b - 1);
      YearLength(b - 1);
    }
  }

  // ----- the code --------------------------------------------------------------------------------------

  /** Division and remainder as C has them: rounding toward zero. */
  function CDiv(a: int, b: int): int
    requires b > 0
  {
    if a >= 0 then a / b else -((-a) / b)
  }

  function CMod(a: int, b: int): int
    requires b > 0
  {
    a - b * CDiv(a, b)
  }

  /** The correction the code makes after a C division gives the rounded-down one. */
  lemma Floors(a: int, b: int)
    requires b > 0
    ensures CDiv(a, b) == a / b + if CMod(a, b) < 0 then 1 else 0
    ensures CMod(a, b) == a % b - if CMod(a, b) < 0 then b else 0
  {
    if a < 0 {
      var q, r := (-a) / b, (-a) % b;
      assert -a == b * q + r && 0 <= r < b;
      assert CMod(a, b) == -r;
      Unique(a, b, if r == 0 then -q else -q - 1, if r == 0 then 0 else b - r);
    }
  }

  lemma Unique(a: int, b: int, q: int, r: int)
    requires b > 0 && a == b * q + r && 0 <= r < b
    ensures a / b == q && a % b == r
  {
    OneQuotient(b, a / b, a % b, q, r);
  }

  lemma OneQuotient(b: int, p: int, s: int, q: int, r: int)
    requires b > 0 && b * p + s == b * q + r && 0 <= r < b && 0 <= s < b
    ensures p == q && r == s
  {
    AtLeast(b, p - q);
    AtLeast(b, q - p);
  }

  lemma AtLeast(b: int, k: int)
    requires b > 0
    ensures k >= 1 ==> b * k >= b
  {
  }

  // ----- a 32-bit long -----------------------------------------------------------------------------------

  /** The value a 32-bit long holds. */
  function Wrap(n: int): int { (n - INT_MIN) % WORD + INT_MIN }

  predicate Int(n: int) { INT_MIN <= n <= INT_MAX }

  lemma WrapIs(n: int)
    ensures Int(Wrap(n)) && (Wrap(n) == n <==> Int(n))
  {
  }

  /** Numbers that differ by a multiple of the word hold the same value. */
  lemma WrapShift(n: int, k: int)
    ensures Wrap(n + k * WORD) == Wrap(n)
  {
    var m := n - INT_MIN;
    Unique(m + k * WORD, WORD, m / WORD + k, m % WORD);
  }

  lemma WrapOnce(n: int, k: int)
    ensures Wrap(Wrap(n) + k) == Wrap(n + k)
  {
    var q := (n - INT_MIN) / WORD;
    assert Wrap(n) == n - q * WORD;
    WrapShift(n + k, -q);
    assert n + k + (-q) * WORD == Wrap(n) + k;
  }

  /** The year that __yeartosecs counts for `year`: it goes through a long as a distance from 2000. */
  function Counted(year: int): int { Wrap(year - 100) + 100 }

  datatype Tm = Tm(sec: int, min: int, hour: int, mday: int, mon: int, year: int, wday: int, yday: int)

  /** __yeartosecs, the branch for 1902 to 2038. `y >> 2` rounds down, `y & 3` is the remainder. */
  method YearToSecsFast(year: int) returns (secs: int, leap: bool)
    requires 2 <= year <= 138
    ensures secs == DAY * YearStart(year) && leap == IsLeap(year)
    ensures -0x8000_0000 <= secs < 0x8000_0000
  {
    var leaps := (year - 68) / 4;
    leap := (year - 68) % 4 == 0;
    if leap {
      leaps := leaps - 1;
    }
    secs := 31536000 * (year - 70) + 86400 * leaps;
    LeapIs(year);
    Fours(year - 69);
    assert (year - 1) / 100 == (if year > 100 then 1 else 0) && (year + 299) / 400 == (if year > 100 then 1 else 0);
  }

  /** __yeartosecs, the general branch: 400-year cycles from 2000, then centuries, then fours. */
  method YearToSecsGeneral(year: int) returns (secs: int, leap: bool)
    requires Int(year)
    ensures secs == DAY * YearStart(Counted(year)) && leap == IsLeap(Counted(year))
  {
    hide YearStart, IsLeap, CDiv, CMod, Wrap;
    var since := Wrap(year - 100);
    Floors(since, 400);
    var cycles, rem := CDiv(since, 400), CMod(since, 400);
    if rem < 0 {
      cycles := cycles - 1;
      rem := rem + 400;
    }
    ghost var r := rem;
    assert since == 400 * cycles + r && 0 <= r < 400;
    var centuries, leaps;
    if rem == 0 {
      leap, centuries, leaps := true, 0, 0;
    } else {
      if rem >= 200 {
        if rem >= 300 {
          centuries, rem := 3, rem - 300;
        } else {
          centuries, rem := 2, rem - 200;
        }
      } else {
        if rem >= 100 {
          centuries, rem := 1, rem - 100;
        } else {
          centuries := 0;
        }
      }
      if rem == 0 {
        leap, leaps := false, 0;
      } else {
        leaps := rem / 4;
        rem := rem % 4;
        leap := rem == 0;
      }
    }
    leaps := leaps + 97 * cycles + 24 * centuries - if leap then 1 else 0;
    CycleYears(since + 100, cycles, r);
    Century(r, centuries);
    secs := since * 31536000 + leaps * 86400 + 946684800 + 86400;
  }

  /** A year by its 400-year cycle from 2000 and its place in it. */
  lemma CycleYears(year: int, cycles: int, r: int)
    requires year == 100 + 400 * cycles + r && 0 <= r < 400
    ensures IsLeap(year) <==> r % 4 == 0 && (r % 100 != 0 || r == 0)
    ensures YearStart(year)
         == 365 * (year - 100) + 97 * cycles + 10958 + r / 4 - r / 100 - if IsLeap(year) then 1 else 0
  {
    hide IsLeap;
    LeapIs(year);
    Shift(cycles, r);
    Place(r);
  }

  lemma Shift(c: int, r: int)
    ensures (31 + 400 * c + r) / 4 == 100 * c + (31 + r) / 4
    ensures (99 + 400 * c + r) / 100 == 4 * c + (99 + r) / 100
    ensures (399 + 400 * c + r) / 400 == c + (399 + r) / 400
    ensures (32 + 400 * c + r) % 4 == r % 4
    ensures (100 + 400 * c + r) % 100 == r % 100
    ensures (400 + 400 * c + r) % 400 == r % 400
  {
    Shift4(31 + r, 100 * c);
    Shift100(99 + r, 4 * c);
    Shift400(399 + r, c);
    Shift4(r, 100 * c + 8);
    Shift100(r, 4 * c + 1);
    Shift400(r, c + 1);
  }

  lemma Shift4(x: int, k: int)
    ensures (x + 4 * k) / 4 == x / 4 + k && (x + 4 * k) % 4 == x % 4
  {
  }

  lemma Shift100(x: int, k: int)
    ensures (x + 100 * k) / 100 == x / 100 + k && (x + 100 * k) % 100 == x % 100
  {
  }

  lemma Shift400(x: int, k: int)
    ensures (x + 400 * k) / 400 == x / 400 + k && (x + 400 * k) % 400 == x % 400
  {
  }

  lemma Century(r: int, c: int)
    requires 0 <= r - 100 * c < 100
    ensures r / 4 == 25 * c + (r - 100 * c) / 4 && r % 4 == (r - 100 * c) % 4
    ensures r / 100 == c && r % 100 == r - 100 * c
  {
    Shift4(r - 100 * c, 25 * c);
    Shift100(r - 100 * c, c);
  }

  lemma Place(r: int)
    requires 0 <= r < 400
    ensures (31 + r) / 4 == 7 + r / 4 + if r % 4 == 0 then 0 else 1
    ensures (99 + r) / 100 == r / 100 + if r % 100 == 0 then 0 else 1
    ensures (399 + r) / 400 == if r == 0 then 0 else 1
  {
  }

  /** __yeartosecs: the fast branch for years whose unsigned distance from 2 is at most 136. */
  method YearToSecs(year: int) returns (secs: int, leap: bool)
    requires Int(year)
    ensures secs == DAY * YearStart(Counted(year)) && leap == IsLeap(Counted(year))
    ensures Counted(year) == year <==> INT_MIN <= year - 100
  {
    WrapIs(year - 100);
    if 2 <= year <= 138 {
      secs, leap := YearToSecsFast(year);
    } else {
      secs, leap := YearToSecsGeneral(year);
    }
  }

  /** __monthtosecs */
  function MonthToSecs(month: nat, leap: bool): (t: int)
    requires month < 12
    ensures t == DAY * MonthStart(month, leap)
  {
    var t := [0, 31 * 86400, 59 * 86400, 90 * 86400, 120 * 86400, 151 * 86400, 181 * 86400, 212 * 86400,
              243 * 86400, 273 * 86400, 304 * 86400, 334 * 86400][month];
    if leap && month >= 2 then t + 86400 else t
  }

  /** The year a broken-down time stands for: any month counts on from its year. */
  function YearOf(tm: Tm): int { tm.year + tm.mon / 12 }

  /** The seconds of a broken-down time, `days` days into its month of a given year. */
  function SecondsIn(tm: Tm, year: int, days: int): int {
    DAY * (YearStart(year) + MonthStart(tm.mon % 12, IsLeap(year)) + days) + 3600 * tm.hour + 60 * tm.min + tm.sec
  }

  /** The seconds meant. */
  function Seconds(tm: Tm): int { SecondsIn(tm, YearOf(tm), tm.mday - 1) }

  /** The seconds computed: the year goes through a long, the day less one is an int. */
  function Stored(tm: Tm): int { SecondsIn(tm, Counted(YearOf(tm)), Wrap(tm.mday - 1)) }

  predicate IntFields(tm: Tm) {
    Int(tm.sec) && Int(tm.min) && Int(tm.hour) && Int(tm.mday) && Int(tm.mon) && Int(tm.year)
  }

  /** Years that far apart do not start on days that near. */
  lemma YearsApart(a: int, b: int)
    requires a >= b
    ensures YearStart(a) >= YearStart(b) + 365 * (a - b) - 3
  {
  }

  /** The day less one is stored as such, or as 2 to the 32 more. */
  lemma DayStored(mday: int)
    requires Int(mday)
    ensures Wrap(mday - 1) == if mday == INT_MIN then mday - 1 + WORD else mday - 1
  {
  }

  /** The seconds are those meant, if and only if the year's distance from 2000 fits a long and the
      day is not the least int: the two errors cannot cancel, as one is in days and one in years. */
  lemma SecondsRightIff(tm: Tm)
    requires Int(tm.mday)
    ensures Stored(tm) == Seconds(tm) <==> Int(YearOf(tm) - 100) && tm.mday > INT_MIN
  {
    hide YearStart, IsLeap, Wrap;
    var y, z := YearOf(tm), Counted(YearOf(tm));
    WrapIs(y - 100);
    DayStored(tm.mday);
    MonthsNear(tm.mon % 12, IsLeap(y), IsLeap(z));
    if z != y {
      FarWrap(y - 100);
      if z > y { YearsApart(z, y); } else { YearsApart(y, z); }
    }
  }

  lemma FarWrap(n: int)
    requires Wrap(n) != n
    ensures Wrap(n) >= n + WORD || n >= Wrap(n) + WORD
  {
    assert Wrap(n) == n - (n - INT_MIN) / WORD * WORD;
  }

  lemma MonthsNear(month: nat, a: bool, b: bool)
    requires month < 12
    ensures MonthStart(month, b) - 1 <= MonthStart(month, a) <= MonthStart(month, b) + 1
  {
  }

  /** __tmtosecs, for any field values. */
  method TmToSecs(tm: Tm) returns (t: int)
    requires IntFields(tm)
    ensures t == Stored(tm)
    ensures t == Seconds(tm) <==> Int(YearOf(tm) - 100) && tm.mday > INT_MIN
  {
    hide YearStart, IsLeap, MonthStart, MonthToSecs, CDiv, CMod, Wrap;
    var year, month := tm.year, tm.mon;
    Floors(month, 12);
    if month >= 12 || month < 0 {
      var adj := CDiv(month, 12);
      month := CMod(month, 12);
      if month < 0 {
        adj := adj - 1;
        month := month + 12;
      }
      WrapOnce(year + adj, -100);
      WrapIs(year + adj);
      year := Wrap(year + adj);
    }
    var leap;
    t, leap := YearToSecs(year);
    t := t + MonthToSecs(month, leap);
    t := t + 86400 * Wrap(tm.mday - 1);
    t := t + 3600 * tm.hour;
    t := t + 60 * tm.min;
    t := t + tm.sec;
    SecondsRightIff(tm);
  }

  /** The last year of an int, counted on by 101 years' worth of months. */
  lemma YearWrong()
    ensures var tm := Tm(0, 0, 0, 1, 101 * 12, INT_MAX, 0, 0); IntFields(tm) && Stored(tm) != Seconds(tm)
  {
    SecondsRightIff(Tm(0, 0, 0, 1, 101 * 12, INT_MAX, 0, 0));
  }

  /** The least day of an int counts as 2 to the 32 days later. */
  lemma DayWrong()
    ensures var tm := Tm(0, 0, 0, INT_MIN, 0, 70, 0, 0);
      IntFields(tm) && Stored(tm) == Seconds(tm) + DAY * WORD && InRange(Stored(tm))
  {
    hide Stored, Seconds;
    var tm := Tm(0, 0, 0, INT_MIN, 0, 70, 0, 0);
    DayShifted(tm);
    FirstDay(tm);
  }

  lemma DayShifted(tm: Tm)
    requires tm.mday == INT_MIN && Int(YearOf(tm) - 100)
    ensures Stored(tm) == Seconds(tm) + DAY * WORD
  {
    hide YearStart, IsLeap, Wrap, MonthStart;
    WrapIs(YearOf(tm) - 100);
    DayStored(INT_MIN);
  }

  /** Midnight of a day of January 1970. */
  lemma FirstDay(tm: Tm)
    requires tm.sec == tm.min == tm.hour == tm.mon == 0 && tm.year == 70
    ensures Seconds(tm) == DAY * (tm.mday - 1)
  {
    assert YearStart(70) == 0;
  }

  // ----- from seconds ------------------------------------------------------------------------------------

  const CYCLES_DAYS: seq<int> := [146097, 36524, 1461, 365]
  const CYCLES_YEARS: seq<int> := [400, 100, 4, 1]
  const CYCLES_MODS: seq<int> := [0, 4, 25, 4]

  /** What is known after `i` of the four cycle lengths have been taken out of `start` days. */
  ghost predicate Cycled(start: int, c: seq<int>, days: int, years: int, i: nat) {
    && |c| == 4
    && start == days + (if i > 0 then 146097 * c[0] else 0) + (if i > 1 then 36524 * c[1] else 0)
       + (if i > 2 then 1461 * c[2] else 0) + (if i > 3 then 365 * c[3] else 0)
    && years == (if i > 0 then 400 * c[0] else 0) + (if i > 1 then 100 * c[1] else 0)
       + (if i > 2 then 4 * c[2] else 0) + (if i > 3 then c[3] else 0)
    && (i == 1 ==> 0 <= days < 146097)
    && (i > 1 ==> 0 <= c[1] <= 3)
    && (i == 2 ==> 0 <= days <= 36524 && (c[1] < 3 ==> days < 36524))
    && (i > 2 ==> 0 <= c[2] <= 24)
    && (i == 3 ==> 0 <= days <= 1460 && (c[2] == 24 && c[1] < 3 ==> days < 1460))
    && (i > 3 ==> 0 <= c[3] <= 3)
    && (i == 4 ==> 0 <= days <= 365 && (days == 365 ==> c[3] == 3 && (c[2] < 24 || c[1] == 3)))
  }

  /** How often a cycle length goes into `days`: rounded down, and below `mod` except for the first. */
  method OneCycle(days: int, len: int, mod: int, first: bool) returns (n: int, rest: int)
    requires len > 0 && (first || days >= 0)
    ensures n == (if !first && days / len == mod then mod - 1 else days / len) && rest == days - n * len
  {
    hide CDiv, CMod;
    Floors(days, len);
    DivIs(days, len);
    Truncates(days, len);
    n := CDiv(days, len);
    if !first && n == mod {
      n := n - 1;
      assert days - n * len == days - mod * len + len;
    }
    rest := days - n * len;
    if rest < 0 {
      n := n - 1;
      rest := rest + len;
    }
  }

  /** One turn of the loop over the cycle lengths. */
  method TakeCycle(start: int, c: seq<int>, days: int, years: int, i: nat)
    returns (c': seq<int>, days': int, years': int)
    requires i < 4 && Cycled(start, c, days, years, i)
    ensures Cycled(start, c', days', years', i + 1)
  {
    hide Cycled;
    CycledLength(start, c, days, years, i);
    var n;
    n, days' := OneCycle(days, CYCLES_DAYS[i], CYCLES_MODS[i], i == 0);
    years' := years + n * CYCLES_YEARS[i];
    c' := c[i := n];
    if i == 0 {
      Cycle400(start, c, days, years, n);
    } else if i == 1 {
      Cycle100(start, c, days, years, n);
    } else if i == 2 {
      Cycle4(start, c, days, years, n);
    } else {
      Cycle1(start, c, days, years, n);
    }
  }

  lemma CycledLength(start: int, c: seq<int>, days: int, years: int, i: nat)
    requires Cycled(start, c, days, years, i)
    ensures |c| == 4 && (i > 0 ==> days >= 0 || i > 4)
  {
  }

  lemma Cycle400(start: int, c: seq<int>, days: int, years: int, n: int)
    requires Cycled(start, c, days, years, 0) && n == days / 146097
    ensures Cycled(start, c[0 := n], days - n * 146097, years + n * 400, 1)
  {
  }

  lemma Cycle100(start: int, c: seq<int>, days: int, years: int, n: int)
    requires Cycled(start, c, days, years, 1) && n == if days / 36524 == 4 then 3 else days / 36524
    ensures Cycled(start, c[1 := n], days - n * 36524, years + n * 100, 2)
  {
  }

  lemma Cycle4(start: int, c: seq<int>, days: int, years: int, n: int)
    requires Cycled(start, c, days, years, 2) && n == if days / 1461 == 25 then 24 else days / 1461
    ensures Cycled(start, c[2 := n], days - n * 1461, years + n * 4, 3)
  {
  }

  lemma Cycle1(start: int, c: seq<int>, days: int, years: int, n: int)
    requires Cycled(start, c, days, years, 3) && n == if days / 365 == 4 then 3 else days / 365
    ensures Cycled(start, c[3 := n], days - n * 365, years + n, 4)
  {
  }

  lemma Truncates(a: int, b: int)
    requires b > 0
    ensures a >= 0 ==> CDiv(a, b) == a / b
    ensures CMod(a, b) == a - CDiv(a, b) * b
    ensures a == (a / b) * b + a % b
  {
  }

  lemma DivIs(a: int, b: int)
    requires b > 0
    ensures a == b * (a / b) + a % b && 0 <= a % b < b
    ensures CMod(a, b) == a - b * CDiv(a, b)
  {
  }

  /** The cycles give the date of the first of March the days are counted from. */
  lemma MarchStart(start: int, c: seq<int>, days: int, years: int)
    requires Cycled(start, c, days, years, 4)
    ensures IsLeap(years + 100) <==> c[3] == 0 && (c[2] != 0 || c[1] == 0)
    ensures YearStart(years + 100) + 59 + (if IsLeap(years + 100) then 1 else 0) + days == 11017 + start
    ensures days == 365 ==> IsLeap(years + 101)
  {
    hide IsLeap, YearStart;
    var r := 100 * c[1] + 4 * c[2] + c[3];
    CycleYears(years + 100, c[0], r);
    Century(r, c[1]);
    Shift4(c[3], c[2]);
    if days == 365 {
      if r == 399 {
        CycleYears(years + 101, c[0] + 1, 0);
      } else {
        CycleYears(years + 101, c[0], r + 1);
        Century(r + 1, c[1]);
        Shift4(0, c[2] + 1);
      }
    }
  }

  const DAYS_IN_MONTH: seq<int> := [31, 30, 31, 30, 31, 31, 30, 31, 30, 31, 31, 29]

  function MonthsFromMarch(m: nat): int
    requires m < 12
  {
    [0, 31, 61, 92, 122, 153, 184, 214, 245, 275, 306, 337][m]
  }

  /** The loop over months from March. */
  method MonthOf(start: int) returns (month: nat, days: int)
    requires 0 <= start <= 365
    ensures month < 12 && start == MonthsFromMarch(month) + days && 0 <= days < DAYS_IN_MONTH[month]
  {
    month, days := 0, start;
    while DAYS_IN_MONTH[month] <= days
      invariant month < 12 && start == MonthsFromMarch(month) + days && 0 <= days
      decreases 12 - month
    {
      days := days - DAYS_IN_MONTH[month];
      month := month + 1;
    }
  }

  /** The day of a timestamp, from 2000-03-01, and from 1970-01-01. */
  function MarchDay(ts: int): int { (ts - LEAPOCH) / DAY }

  predicate InRange(ts: int) { INT_MIN * 31622400 <= ts <= INT_MAX * 31622400 }

  /** The date part of __secstotm, from the day number counted from 2000-03-01. */
  method DateFields(start: int) returns (d: Date, yday: int)
    ensures d == DateOf(11017 + start) && d.mon < 12 && yday == MonthStart(d.mon, IsLeap(d.year)) + d.mday - 1
  {
    hide IsLeap, YearStart, DateOf, MonthStart;
    var years, days := 0, start;
    var cycles := [0, 0, 0, 0];
    for i := 0 to 4
      invariant Cycled(start, cycles, days, years, i)
    {
      cycles, days, years := TakeCycle(start, cycles, days, years, i);
    }
    var year := years + 100;
    var leap := if cycles[3] == 0 && (cycles[2] != 0 || cycles[1] == 0) then 1 else 0;
    yday := days + 31 + 28 + leap;
    if yday >= 365 + leap {
      yday := yday - (365 + leap);
    }
    MarchStart(start, cycles, days, years);
    var month, mday := MonthOf(days);
    var mon := month + 2;
    if mon >= 12 {
      mon := mon - 12;
      year := year + 1;
    }
    FoundDate(start, years, days, month, mday);
    d := Date(year, mon, mday + 1);
  }

  /** __secstotm with a 32-bit long: the time of day and the weekday are always right, the date is
      that of the day number stored in the long. */
  method SecsToTm(ts: int) returns (ok: bool, tm: Tm)
    ensures ok <==> InRange(ts)
    ensures ok ==> tm.mon >= 0 && tm.mday >= 0 && Date(tm.year, tm.mon, tm.mday) == DateOf(11017 + Wrap(MarchDay(ts)))
    ensures ok ==> 0 <= tm.mon < 12 && tm.yday == MonthStart(tm.mon, IsLeap(tm.year)) + tm.mday - 1
    ensures ok ==> 0 <= tm.hour < 24 && 0 <= tm.min < 60 && 0 <= tm.sec < 60
    ensures ok ==> 3600 * tm.hour + 60 * tm.min + tm.sec == ts % DAY
    ensures ok ==> tm.wday == (4 + ts / DAY) % 7
  {
    hide CDiv, CMod, IsLeap, YearStart, DateOf, MonthStart, Wrap;
    tm := Tm(0, 0, 0, 0, 0, 0, 0, 0);
    var totalSecs := ts - LEAPOCH;
    var date, time := CDiv(totalSecs, DAY), CMod(totalSecs, DAY);
    if ts < INT_MIN * 31622400 || ts > INT_MAX * 31622400 {
      return false, tm;
    }
    Floors(totalSecs, DAY);
    if time < 0 {
      time := time + DAY;
      date := date - 1;
    }
    SameClock(ts);
    var hour, min, sec := time / 3600, time / 60 % 60, time % 60;
    Clock(time);
    var d, yday := DateFields(Wrap(date));
    var wday := CMod(3 + date, 7);
    if wday < 0 {
      wday := wday + 7;
    }
    Floors(3 + date, 7);
    Weekday(date);
    tm := Tm(sec, min, hour, d.mday, d.mon, d.year, wday, yday);
    ok := true;
  }

  lemma Clock(time: int)
    requires 0 <= time < DAY
    ensures 3600 * (time / 3600) + 60 * (time / 60 % 60) + time % 60 == time
    ensures 0 <= time / 3600 < 24
  {
  }

  lemma Weekday(date: int)
    ensures (3 + date) % 7 == (4 + date + 11017) % 7
  {
  }

  /** The month and day found are the date of the day number. */
  lemma FoundDate(start: int, years: int, days: int, month: nat, mday: int)
    requires 0 <= days <= 365 && month < 12 && days == MonthsFromMarch(month) + mday && 0 <= mday < DAYS_IN_MONTH[month]
    requires YearStart(years + 100) + 59 + (if IsLeap(years + 100) then 1 else 0) + days == 11017 + start
    requires days == 365 ==> IsLeap(years + 101)
    ensures var year := if month < 10 then years + 100 else years + 101;
      var mon := if month < 10 then month + 2 else month - 10;
      var d := Date(year, mon, mday + 1);
      && d == DateOf(11017 + start)
      && MonthStart(mon, IsLeap(year)) + mday ==
           var leap := if IsLeap(years + 100) then 1 else 0;
           if days + 59 + leap >= 365 + leap then days + 59 - 365 else days + 59 + leap
  {
    hide YearStart, IsLeap, DateOf;
    var year := if month < 10 then years + 100 else years + 101;
    var mon := if month < 10 then month + 2 else month - 10;
    var d := Date(year, mon, mday + 1);
    YearLength(years + 100);
    assert ValidDate(d) && DayNumber(d) == 11017 + start;
    DateIs(d);
  }

  lemma SameClock(ts: int)
    ensures (ts - LEAPOCH) % DAY == ts % DAY && (ts - LEAPOCH) / DAY == ts / DAY - 11017
  {
  }

  // ----- there and back ------------------------------------------------------------------------------------

  /** The date is right if and only if the day number fits a 32-bit long. */
  lemma DateRightIff(ts: int)
    ensures DateOf(11017 + Wrap(MarchDay(ts))) == DateOf(ts / DAY) <==> INT_MIN <= MarchDay(ts) <= INT_MAX
  {
    hide DateOf, Wrap, DayNumber;
    SameClock(ts);
    WrapIs(MarchDay(ts));
    DateCounts(11017 + Wrap(MarchDay(ts)));
    DateCounts(ts / DAY);
  }

  /** One day past the range of a long, still within the range of accepted timestamps. */
  lemma DateWrong()
    ensures var ts := LEAPOCH + DAY * (INT_MAX + 1);
      InRange(ts) && DateOf(11017 + Wrap(MarchDay(ts))) != DateOf(ts / DAY)
  {
    var ts := LEAPOCH + DAY * (INT_MAX + 1);
    assert MarchDay(ts) == INT_MAX + 1;
    DateRightIff(ts);
  }

  /** __tmtosecs undoes __secstotm, for every timestamp in range whose day number fits. */
  method RoundTrip(ts: int) returns (t: int)
    requires InRange(ts)
    ensures t == ts <==> INT_MIN <= MarchDay(ts) <= INT_MAX
  {
    hide DateOf, YearStart, IsLeap, MonthStart, Wrap, MarchDay, InRange;
    var ok, tm := SecsToTm(ts);
    DateCounts(11017 + Wrap(MarchDay(ts)));
    WrapIs(MarchDay(ts));
    YearBound(Date(tm.year, tm.mon, tm.mday));
    t := TmToSecs(tm);
    WrapIff(ts);
  }

  /** A day number that comes from a long is that of a year near enough. */
  lemma YearBound(d: Date)
    requires ValidDate(d) && Int(DayNumber(d) - 11017)
    ensures INT_MIN + 100 <= d.year <= INT_MAX - 100 && d.mday <= 31
  {
    hide IsLeap;
  }

  lemma WrapIff(ts: int)
    ensures DAY * (11017 + Wrap(MarchDay(ts))) + ts % DAY == ts <==> INT_MIN <= MarchDay(ts) <= INT_MAX
  {
    hide Wrap;
    WrapIs(MarchDay(ts));
    SameClock(ts);
  }

  datatype Timegm = Overflow | Time(t: int, tm: Tm)

  /** timegm: the seconds, and the same time with every field in its normal range. */
  method TimeGm(tm: Tm) returns (r: Timegm)
    requires IntFields(tm)
    ensures r.Overflow? <==> !InRange(Stored(tm))
    ensures r.Time? ==> r.t == Stored(tm)
    ensures r.Time? ==> (r.t == Seconds(tm) <==> Int(YearOf(tm) - 100) && tm.mday > INT_MIN)
    ensures r.Time? ==> (Seconds(r.tm) == r.t <==> INT_MIN <= MarchDay(r.t) <= INT_MAX)
    ensures r.Time? ==>
      && 0 <= r.tm.mon < 12 && 0 <= r.tm.hour < 24 && 0 <= r.tm.min < 60 && 0 <= r.tm.sec < 60
      && r.tm.mday >= 1 && ValidDate(Date(r.tm.year, r.tm.mon, r.tm.mday))
      && r.tm.wday == (4 + r.t / DAY) % 7 && r.tm.yday == MonthStart(r.tm.mon, IsLeap(r.tm.year)) + r.tm.mday - 1
  {
    hide DateOf, YearStart, IsLeap, MonthStart, Wrap, MarchDay, InRange;
    var t := TmToSecs(tm);
    var ok, out := SecsToTm(t);
    if !ok {
      return Overflow;
    }
    DateCounts(11017 + Wrap(MarchDay(t)));
    WrapIff(t);
    r := Time(t, out);
  }
}
