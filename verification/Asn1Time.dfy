/** UTCTime and GeneralizedTime strings, asn1_time_to_str and asn1_time_from_str of src/asn1.c. */
module Asn1Time {

  import opened Common
  import opened Modular

  // ---------- the calendar ----------

  predicate Leap(y: int) {
    (y % 4 == 0 && y % 100 != 0) || y % 400 == 0
  }

  function YearDays(y: int): (d: int)
    ensures 365 <= d <= 366
  {
    if Leap(y) then 366 else 365
  }

  function MonthDays(y: int, m: int): (d: int)
    requires 1 <= m <= 12
    ensures 28 <= d <= 31
  {
    if m == 2 then (if Leap(y) then 29 else 28)
    else if m == 4 || m == 6 || m == 9 || m == 11 then 30
    else 31
  }

  /** Days from 1 January 1970 to 1 January of year y. */
  function DaysBefore(y: int): (d: nat)
    requires y >= 1970
    decreases y
  {
    if y == 1970 then 0 else DaysBefore(y - 1) + YearDays(y - 1)
  }

  /** Days of year y before month m. */
  function MonthsBefore(y: int, m: int): (d: nat)
    requires 1 <= m <= 13
    decreases m
  {
    if m == 1 then 0 else MonthsBefore(y, m - 1) + MonthDays(y, m - 1)
  }

  /** Where the months begin. */
  lemma MonthStarts(y: int)
    ensures var f := if Leap(y) then 29 else 28;
            && MonthsBefore(y, 1) == 0 && MonthsBefore(y, 2) == 31 && MonthsBefore(y, 3) == 31 + f
            && MonthsBefore(y, 4) == 62 + f && MonthsBefore(y, 5) == 92 + f && MonthsBefore(y, 6) == 123 + f
            && MonthsBefore(y, 7) == 153 + f && MonthsBefore(y, 8) == 184 + f && MonthsBefore(y, 9) == 215 + f
            && MonthsBefore(y, 10) == 245 + f && MonthsBefore(y, 11) == 276 + f && MonthsBefore(y, 12) == 306 + f
            && MonthsBefore(y, 13) == 337 + f
  {
    hide Leap;
  }

  lemma WholeYear(y: int)
    ensures MonthsBefore(y, 13) == YearDays(y)
  {
    hide Leap, MonthsBefore;
    MonthStarts(y);
  }

  datatype Civil = Civil(year: int, month: int, day: int, hour: int, minute: int, second: int)

  predicate Valid(c: Civil) {
    && c.year >= 1970 && 1 <= c.month <= 12 && 1 <= c.day <= MonthDays(c.year, c.month)
    && 0 <= c.hour <= 23 && 0 <= c.minute <= 59 && 0 <= c.second <= 59
  }

  function DayNumber(c: Civil): (d: int)
    requires Valid(c)
  {
    DaysBefore(c.year) + MonthsBefore(c.year, c.month) + c.day - 1
  }

  /** Seconds since 1970. */
  function Timestamp(c: Civil): int
    requires Valid(c)
  {
    DayNumber(c) * 86400 + c.hour * 3600 + c.minute * 60 + c.second
  }

  // ---------- the calendar in closed form ----------

  /** Days from 1 January 1970 to a date of the Gregorian calendar, with years that begin in March. */
  function Days(y: int, m: int, d: int): int {
    var a, p := if m <= 2 then y - 1 else y, if m <= 2 then m + 9 else m - 3;
    365 * a + a / 4 - a / 100 + a / 400 + (153 * p + 2) / 5 + d - 719469
  }

  /** The first day of the month after month m of year y. */
  function NextMonth(y: int, m: int): int {
    if m == 12 then Days(y + 1, 1, 1) else Days(y, m + 1, 1)
  }

  lemma StepQuotient(y: int, k: int)
    requires k > 0
    ensures y / k - (y - 1) / k == if y % k == 0 then 1 else 0
  {
    var q, r := y / k, y % k;
    if r == 0 {
      DivModUnique(y - 1, k, q - 1, k - 1);
    } else {
      DivModUnique(y - 1, k, q, r - 1);
    }
  }

  lemma LeapCount(y: int)
    ensures (y / 4 - y / 100 + y / 400) - ((y - 1) / 4 - (y - 1) / 100 + (y - 1) / 400) == if Leap(y) then 1 else 0
  {
    StepQuotient(y, 4);
    StepQuotient(y, 100);
    StepQuotient(y, 400);
    Nested(y);
  }

  lemma Nested(y: int)
    ensures (y % 400 == 0 ==> y % 100 == 0) && (y % 100 == 0 ==> y % 4 == 0)
  {
  }

  /** The leap years up to y - 1 are those divisible by 4, but by 100 only if by 400. */
  lemma {:induction false} YearsClosed(y: int)
    requires y >= 1970
    ensures DaysBefore(y) == 365 * (y - 1970) + (y - 1) / 4 - (y - 1) / 100 + (y - 1) / 400 - 477
    decreases y
  {
    if y > 1970 {
      hide Leap;
      YearsClosed(y - 1);
      LeapCount(y - 1);
    }
  }

  lemma MonthsClosed(y: int, m: int)
    requires 1 <= m <= 12
    ensures MonthsBefore(y, m) == if m <= 2 then (153 * (m + 9) + 2) / 5 - 306
                                  else (153 * (m - 3) + 2) / 5 + if Leap(y) then 60 else 59
  {
    hide Leap, MonthsBefore;
    MonthStarts(y);
  }

  /** The day number of every date the model counts is the closed form. */
  lemma DayClosed(c: Civil)
    requires Valid(c)
    ensures DayNumber(c) == Days(c.year, c.month, c.day)
  {
    hide Leap, MonthsBefore, DaysBefore, MonthDays;
    YearsClosed(c.year);
    MonthsClosed(c.year, c.month);
    LeapCount(c.year);
  }

  /** The months counted from March have 31 days, but for April, June, September and November. */
  lemma MarchStep(p: int)
    requires 0 <= p <= 10
    ensures (153 * (p + 1) + 2) / 5 - (153 * p + 2) / 5 == if p == 1 || p == 3 || p == 6 || p == 8 then 30 else 31
  {
  }

  /** A month ends the day before the next one begins. */
  lemma LastDay(y: int, m: int)
    requires 1 <= m <= 12
    ensures Days(y, m, 1) + MonthDays(y, m) == NextMonth(y, m)
  {
    hide Leap;
    if m == 2 {
      LeapCount(y);
    } else {
      MarchStep(if m <= 2 then m + 9 else m - 3);
    }
  }

  /** The dates that are valid, without the tables of the source. */
  lemma ValidExact(c: Civil)
    ensures Valid(c) <==>
            && c.year >= 1970 && 1 <= c.month <= 12
            && 1 <= c.day && Days(c.year, c.month, c.day) < NextMonth(c.year, c.month)
            && 0 <= c.hour <= 23 && 0 <= c.minute <= 59 && 0 <= c.second <= 59
  {
    hide MonthDays, NextMonth;
    if 1 <= c.month <= 12 {
      LastDay(c.year, c.month);
      DayShift(c.year, c.month, c.day);
    }
  }

  lemma DayShift(y: int, m: int, d: int)
    ensures Days(y, m, d) == Days(y, m, 1) + d - 1
  {
  }

  /** Seconds since 1970 in closed form. */
  lemma TimestampClosed(c: Civil)
    requires Valid(c)
    ensures Timestamp(c) == 86400 * Days(c.year, c.month, c.day) + 3600 * c.hour + 60 * c.minute + c.second
  {
    hide DayNumber, Days, Valid;
    DayClosed(c);
  }

  // ---------- different dates are different timestamps ----------

  lemma {:induction false} YearsGrow(y: int, z: int)
    requires 1970 <= y < z
    ensures DaysBefore(y) + YearDays(y) <= DaysBefore(z)
    decreases z
  {
    if y < z - 1 {
      YearsGrow(y, z - 1);
    }
  }

  lemma {:induction false} MonthsGrow(y: int, m: int, k: int)
    requires 1 <= m < k <= 13
    ensures MonthsBefore(y, m) + MonthDays(y, m) <= MonthsBefore(y, k)
    decreases k
  {
    if m < k - 1 {
      MonthsGrow(y, m, k - 1);
    }
  }

  lemma DayOfYear(c: Civil)
    requires Valid(c)
    ensures 0 <= MonthsBefore(c.year, c.month) + c.day - 1 < YearDays(c.year)
  {
    WholeYear(c.year);
    MonthsGrow(c.year, c.month, 13);
  }

  lemma DayInjective(a: Civil, b: Civil)
    requires Valid(a) && Valid(b) && DayNumber(a) == DayNumber(b)
    ensures a.year == b.year && a.month == b.month && a.day == b.day
  {
    hide DaysBefore, MonthsBefore;
    DayOfYear(a);
    DayOfYear(b);
    if a.year < b.year {
      YearsGrow(a.year, b.year);
    } else if b.year < a.year {
      YearsGrow(b.year, a.year);
    } else if a.month < b.month {
      MonthsGrow(a.year, a.month, b.month);
    } else if b.month < a.month {
      MonthsGrow(a.year, b.month, a.month);
    }
  }

  lemma TimestampInjective(a: Civil, b: Civil)
    requires Valid(a) && Valid(b) && Timestamp(a) == Timestamp(b)
    ensures a == b
  {
    hide DaysBefore, MonthsBefore, DayNumber;
    var s, t := a.hour * 3600 + a.minute * 60 + a.second, b.hour * 3600 + b.minute * 60 + b.second;
    assert DayNumber(a) == DayNumber(b) && s == t;
    DayInjective(a, b);
  }

  // ---------- strings ----------

  function MaxYear(utc: bool): int {
    if utc then 2050 else 9999
  }

  function StrLen(utc: bool): int {
    if utc then 13 else 15
  }

  function Digit(d: int): char
    requires 0 <= d <= 9
  {
    ('0' as int + d) as char
  }

  function TwoDigits(v: int): (s: string)
    requires 0 <= v <= 99
    ensures |s| == 2
  {
    [Digit(v / 10), Digit(v % 10)]
  }

  function Format(utc: bool, c: Civil): (s: string)
    requires Valid(c) && c.year <= MaxYear(utc)
    ensures |s| == StrLen(utc)
  {
    (if utc then [] else TwoDigits(c.year / 100)) + TwoDigits(c.year % 100) + TwoDigits(c.month) + TwoDigits(c.day)
    + TwoDigits(c.hour) + TwoDigits(c.minute) + TwoDigits(c.second) + ['Z']
  }

  /** A C string: beyond its characters there is the terminator. */
  function At(s: string, i: nat): char {
    if i < |s| then s[i] else '\0'
  }

  predicate IsDigit(c: char) {
    '0' <= c <= '9'
  }

  function Val(c: char): int {
    c as int - '0' as int
  }

  function TwoAt(s: string, i: nat): int {
    Val(At(s, i)) * 10 + Val(At(s, i + 1))
  }

  predicate WellFormed(utc: bool, s: string) {
    (forall i :: 0 <= i < StrLen(utc) - 1 ==> IsDigit(At(s, i))) && At(s, StrLen(utc) - 1) == 'Z'
  }

  /** The fields of a string; two-digit years up to 50 are 20xx. */
  function Fields(utc: bool, s: string): Civil {
    var p := if utc then 2 else 4;
    var y := if utc then (if TwoAt(s, 0) <= 50 then TwoAt(s, 0) + 2000 else TwoAt(s, 0) + 1900)
             else TwoAt(s, 0) * 100 + TwoAt(s, 2);
    Civil(y, TwoAt(s, p), TwoAt(s, p + 2), TwoAt(s, p + 4), TwoAt(s, p + 6), TwoAt(s, p + 8))
  }

  predicate Accepted(utc: bool, s: string) {
    WellFormed(utc, s) && Valid(Fields(utc, s))
  }

  // ---------- the routines ----------

  /** asn1_time_from_str. */
  method TimeFromStr(utc: bool, s: string) returns (t: Option<int>)
    ensures t.Some? <==> Accepted(utc, s)
    ensures t.Some? ==> var c := Fields(utc, s);
              t.value == Timestamp(c) == 86400 * Days(c.year, c.month, c.day) + 3600 * c.hour + 60 * c.minute + c.second
  {
    hide DayNumber, Fields, At, IsDigit, Leap, Days;
    for i := 0 to StrLen(utc) - 1
      invariant forall j :: 0 <= j < i ==> IsDigit(At(s, j))
    {
      if !IsDigit(At(s, i)) {
        return None;
      }
    }
    if At(s, StrLen(utc) - 1) != 'Z' {
      return None;
    }
    var c := Fields(utc, s);
    if c.year < 1970 || c.month < 1 || c.month > 12 || c.day < 1 || c.day > MonthDays(c.year, c.month)
       || c.hour < 0 || c.hour > 23 || c.minute < 0 || c.minute > 59 || c.second < 0 || c.second > 59 {
      return None;
    }
    var day := CountDays(c);
    t := Some(day * 86400 + c.hour * 3600 + c.minute * 60 + c.second);
    TimestampClosed(c);
  }

  /** The year and month loops of asn1_time_from_str. */
  method CountDays(c: Civil) returns (day: int)
    requires Valid(c)
    ensures day == DayNumber(c)
  {
    hide YearDays, MonthDays;
    day := c.day - 1;
    var year := c.year;
    while year > 1970
      invariant 1970 <= year <= c.year
      invariant day + DaysBefore(year) == DaysBefore(c.year) + c.day - 1
    {
      year := year - 1;
      day := day + YearDays(year);
    }
    var month := c.month;
    while month > 1
      invariant 1 <= month <= c.month
      invariant day + MonthsBefore(c.year, month) == DayNumber(c)
    {
      month := month - 1;
      day := day + MonthDays(c.year, month);
    }
  }

  /** C division and remainder, towards zero. */
  function Quot(a: int, b: int): int
    requires b > 0
  {
    if a >= 0 then a / b else -(-a / b)
  }

  function Rem(a: int, b: int): int
    requires b > 0
  {
    a - Quot(a, b) * b
  }

  /** '0' with d added, as a byte. */
  function Char(d: int): char {
    (('0' as int + d) % 256) as char
  }

  /** The two characters of a field, whatever its value is; the tens of the day are computed from an
      int. */
  function Shown(v: int): string {
    [Char(Quot(v, 10)), Char(Rem(v, 10))]
  }

  function ShownDay(v: int): string {
    [Char(Quot(Wrap(v), 10)), Char(Rem(v, 10))]
  }

  lemma ShownIs(v: int)
    requires 0 <= v <= 99
    ensures Shown(v) == TwoDigits(v) && ShownDay(v) == TwoDigits(v)
  {
    hide Quot, Rem, Char, Digit;
    QuotRem(v, 10);
    assert Quot(v, 10) == v / 10 && Rem(v, 10) == v % 10 by { Positive(v, 10); }
    assert Wrap(v) == v;
    CharIs(v / 10);
    CharIs(v % 10);
  }

  lemma Positive(a: int, b: int)
    requires a >= 0 && b > 0
    ensures Quot(a, b) == a / b && Rem(a, b) == a % b
  {
  }

  lemma CharIs(d: int)
    requires 0 <= d <= 9
    ensures Char(d) == Digit(d)
  {
  }

  lemma QuotRem(a: int, b: int)
    requires b > 0
    ensures a == Quot(a, b) * b + Rem(a, b)
    ensures a >= 0 ==> 0 <= Quot(a, b) && 0 <= Rem(a, b) < b
    ensures a < 0 ==> Quot(a, b) <= 0 && -b < Rem(a, b) <= 0
  {
    var c := -a;
    assert c == c / b * b + c % b;
    assert -(c / b) * b == -(c / b * b);
  }

  /** What comes out for a negative timestamp: the loops stay at January 1970, and the other fields are
      not positive. */
  function Before1970(utc: bool, t: int): string
    requires t < 0
  {
    var second := Rem(t, 86400);
    (if utc then [] else TwoDigits(19)) + TwoDigits(70) + TwoDigits(1) + ShownDay(Quot(t, 86400) + 1)
    + Shown(Quot(second, 3600)) + Shown(Quot(Rem(second, 3600), 60)) + Shown(Rem(Rem(second, 3600), 60)) + ['Z']
  }

  /** asn1_time_to_str. */
  method TimeToStr(utc: bool, t: int) returns (s: Option<string>, ghost c: Civil)
    ensures s.Some? <==> t < DaysBefore(MaxYear(utc) + 1) * 86400
    ensures s.Some? && t >= 0 ==> Valid(c) && c.year <= MaxYear(utc) && Timestamp(c) == t && s.value == Format(utc, c)
    ensures t < 0 ==> s == Some(Before1970(utc, t))
  {
    hide DaysBefore, MonthsBefore, YearDays, TwoDigits, Shown, ShownDay, Quot, Rem;
    QuotRem(t, 86400);
    c := Civil(0, 0, 0, 0, 0, 0);
    var day := Quot(t, 86400);
    var second := Rem(t, 86400);
    var year;
    year, day := SplitYear(MaxYear(utc), day);
    if year > MaxYear(utc) {
      return None, c;
    }
    YearFits(year, MaxYear(utc));
    var month;
    month, day := SplitMonth(year, day + 1);
    QuotRem(second, 3600);
    var hour := Quot(second, 3600);
    second := Rem(second, 3600);
    QuotRem(second, 60);
    var minute := Quot(second, 60);
    second := Rem(second, 60);
    ShownIs(year / 100);
    ShownIs(year % 100);
    ShownIs(month);
    if t >= 0 {
      c := Civil(year, month, day, hour, minute, second);
      assert Timestamp(c) == t;
      ShownIs(day);
      ShownIs(hour);
      ShownIs(minute);
      ShownIs(second);
    }
    var head := if utc then [] else Shown(year / 100);
    s := Some(head + Shown(year % 100) + Shown(month) + ShownDay(day) + Shown(hour) + Shown(minute) + Shown(second) + ['Z']);
  }

  /** The year loop of asn1_time_to_str; a negative number of days stays in 1970. */
  method SplitYear(max: int, total: int) returns (year: int, day: int)
    requires max >= 1970
    ensures if total <= 0 then year == 1970 && day == total else day >= 0
    ensures 1970 <= year <= max + 1 && day + DaysBefore(year) == total && (year <= max ==> day < YearDays(year))
  {
    hide YearDays;
    year, day := 1970, total;
    while year <= max && day >= YearDays(year)
      invariant 1970 <= year <= max + 1 && day + DaysBefore(year) == total
      invariant if total <= 0 then year == 1970 else day >= 0
    {
      day := day - YearDays(year);
      year := year + 1;
    }
  }

  /** The month loop, with days counted from one. */
  method SplitMonth(year: int, total: int) returns (month: int, day: int)
    requires total <= YearDays(year)
    ensures 1 <= month <= 12 && day <= MonthDays(year, month) && day + MonthsBefore(year, month) == total
    ensures if total <= 1 then month == 1 && day == total else day >= 1
  {
    hide MonthDays;
    WholeYear(year);
    month, day := 1, total;
    while month <= 12 && day > MonthDays(year, month)
      invariant 1 <= month <= 13 && day + MonthsBefore(year, month) == total
      invariant if total <= 1 then month == 1 && day == total else day >= 1
    {
      day := day - MonthDays(year, month);
      month := month + 1;
    }
  }

  lemma YearFits(y: int, max: int)
    requires 1970 <= y <= max
    ensures DaysBefore(y) + YearDays(y) <= DaysBefore(max + 1)
  {
    YearsGrow(y, max + 1);
  }

  // ---------- the routines are inverse ----------

  lemma DigitVal(d: int)
    requires 0 <= d <= 9
    ensures Val(Digit(d)) == d && IsDigit(Digit(d))
  {
  }

  lemma ValDigit(c: char)
    requires IsDigit(c)
    ensures 0 <= Val(c) <= 9 && Digit(Val(c)) == c
  {
  }

  lemma TwoRoundTrip(s: string, i: nat, v: int)
    requires 0 <= v <= 99 && i + 2 <= |s| && s[i..i + 2] == TwoDigits(v)
    ensures TwoAt(s, i) == v && IsDigit(At(s, i)) && IsDigit(At(s, i + 1))
  {
    assert s[i] == s[i..i + 2][0] && s[i + 1] == s[i..i + 2][1];
    DigitVal(v / 10);
    DigitVal(v % 10);
  }

  lemma TwoBack(s: string, i: nat)
    requires i + 2 <= |s| && IsDigit(s[i]) && IsDigit(s[i + 1])
    ensures 0 <= TwoAt(s, i) <= 99 && TwoDigits(TwoAt(s, i)) == s[i..i + 2]
  {
    ValDigit(s[i]);
    ValDigit(s[i + 1]);
    var v, a, b := TwoAt(s, i), Val(s[i]), Val(s[i + 1]);
    assert v == a * 10 + b && v / 10 == a && v % 10 == b;
  }

  /** Parsing what was formatted. */
  lemma FormatParse(utc: bool, c: Civil)
    requires Valid(c) && c.year <= MaxYear(utc)
    ensures Accepted(utc, Format(utc, c)) && Fields(utc, Format(utc, c)) == c
  {
    hide TwoDigits, TwoAt, IsDigit, At, DaysBefore;
    var s := Format(utc, c);
    var p := if utc then 2 else 4;
    if !utc {
      assert s[0..2] == TwoDigits(c.year / 100);
      TwoRoundTrip(s, 0, c.year / 100);
    }
    assert s[p - 2..p] == TwoDigits(c.year % 100);
    TwoRoundTrip(s, p - 2, c.year % 100);
    assert s[p..p + 2] == TwoDigits(c.month);
    TwoRoundTrip(s, p, c.month);
    assert s[p + 2..p + 4] == TwoDigits(c.day);
    TwoRoundTrip(s, p + 2, c.day);
    assert s[p + 4..p + 6] == TwoDigits(c.hour);
    TwoRoundTrip(s, p + 4, c.hour);
    assert s[p + 6..p + 8] == TwoDigits(c.minute);
    TwoRoundTrip(s, p + 6, c.minute);
    assert s[p + 8..p + 10] == TwoDigits(c.second);
    TwoRoundTrip(s, p + 8, c.second);
    assert s[p + 10] == 'Z';
    LastChar(s, p + 10);
    WellFormedIf(utc, s);
  }

  lemma LastChar(s: string, i: nat)
    requires i < |s|
    ensures At(s, i) == s[i]
  {
  }

  lemma WellFormedIf(utc: bool, s: string)
    requires At(s, StrLen(utc) - 1) == 'Z'
    requires IsDigit(At(s, 0)) && IsDigit(At(s, 1)) && IsDigit(At(s, 2)) && IsDigit(At(s, 3)) && IsDigit(At(s, 4))
    requires IsDigit(At(s, 5)) && IsDigit(At(s, 6)) && IsDigit(At(s, 7)) && IsDigit(At(s, 8)) && IsDigit(At(s, 9))
    requires IsDigit(At(s, 10)) && IsDigit(At(s, 11)) && (!utc ==> IsDigit(At(s, 12)) && IsDigit(At(s, 13)))
    ensures WellFormed(utc, s)
  {
    hide At, IsDigit;
  }

  lemma LongEnough(utc: bool, s: string)
    requires WellFormed(utc, s)
    ensures |s| >= StrLen(utc)
  {
  }

  /** Formatting what was parsed gives back the characters read. */
  lemma ParseFormat(utc: bool, s: string)
    requires Accepted(utc, s)
    ensures |s| >= StrLen(utc) && Fields(utc, s).year <= MaxYear(utc)
    ensures Format(utc, Fields(utc, s)) == s[..StrLen(utc)]
  {
    hide TwoDigits, TwoAt, DaysBefore;
    LongEnough(utc, s);
    var p := if utc then 2 else 4;
    var c := Fields(utc, s);
    DigitsThere(utc, s);
    TwoBack(s, 0);
    TwoBack(s, p - 2);
    TwoBack(s, p);
    TwoBack(s, p + 2);
    TwoBack(s, p + 4);
    TwoBack(s, p + 6);
    TwoBack(s, p + 8);
    assert c.year % 100 == TwoAt(s, p - 2);
    assert !utc ==> c.year / 100 == TwoAt(s, 0);
    var n := p + 10;
    assert s[..n + 1] == s[..n] + ['Z'];
    Pieces(s, p);
  }

  lemma DigitsThere(utc: bool, s: string)
    requires WellFormed(utc, s) && |s| >= StrLen(utc)
    ensures forall i :: 0 <= i < StrLen(utc) - 1 ==> IsDigit(s[i])
    ensures s[StrLen(utc) - 1] == 'Z'
  {
    forall i | 0 <= i < StrLen(utc) - 1 ensures IsDigit(s[i]) {
      assert IsDigit(At(s, i));
    }
  }

  lemma Pieces(s: string, p: nat)
    requires (p == 2 || p == 4) && |s| >= p + 10
    ensures s[..p + 10] == (if p == 2 then [] else s[0..2]) + s[p - 2..p] + s[p..p + 2] + s[p + 2..p + 4]
                           + s[p + 4..p + 6] + s[p + 6..p + 8] + s[p + 8..p + 10]
  {
  }

  // ---------- the digits ----------

  /** The number written in decimal. */
  function Decimal(s: string): int {
    if s == [] then 0 else 10 * Decimal(s[..|s| - 1]) + Val(s[|s| - 1])
  }

  lemma DecimalTwo(s: string, v: int)
    requires 0 <= v <= 99
    ensures Decimal(s + TwoDigits(v)) == 100 * Decimal(s) + v
  {
    var t := s + TwoDigits(v);
    assert t[..|t| - 1] == s + [Digit(v / 10)] && (s + [Digit(v / 10)])[..|s|] == s;
    DigitVal(v / 10);
    DigitVal(v % 10);
  }

  /** A date as one number: the fields from the year down to the second. */
  function Ordinal(utc: bool, c: Civil): int {
    var y := if utc then c.year % 100 else c.year;
    ((((y * 100 + c.month) * 100 + c.day) * 100 + c.hour) * 100 + c.minute) * 100 + c.second
  }

  /** The digits of a written date are that number. */
  lemma FormatDecimal(utc: bool, c: Civil)
    requires Valid(c) && c.year <= MaxYear(utc)
    ensures Decimal(Format(utc, c)[..StrLen(utc) - 1]) == Ordinal(utc, c) && Format(utc, c)[StrLen(utc) - 1] == 'Z'
  {
    hide Decimal, TwoDigits;
    var h := if utc then [] else TwoDigits(c.year / 100);
    NoDecimal();
    assert h == [] + h;
    DecimalTwo([], c.year / 100);
    var s1 := h + TwoDigits(c.year % 100);
    var s2 := s1 + TwoDigits(c.month);
    var s3 := s2 + TwoDigits(c.day);
    var s4 := s3 + TwoDigits(c.hour);
    var s5 := s4 + TwoDigits(c.minute);
    var s6 := s5 + TwoDigits(c.second);
    DecimalTwo(h, c.year % 100);
    DecimalTwo(s1, c.month);
    DecimalTwo(s2, c.day);
    DecimalTwo(s3, c.hour);
    DecimalTwo(s4, c.minute);
    DecimalTwo(s5, c.second);
    assert Format(utc, c) == s6 + ['Z'] && (s6 + ['Z'])[..|s6|] == s6;
  }

  lemma NoDecimal()
    ensures Decimal([]) == 0
  {
  }

  /** The digits of an accepted string are the number of the date it is read as, and the year of a
      UTCTime lies between 1951 and 2050. */
  lemma AcceptedDecimal(utc: bool, s: string)
    requires Accepted(utc, s)
    ensures |s| >= StrLen(utc) && Decimal(s[..StrLen(utc) - 1]) == Ordinal(utc, Fields(utc, s))
    ensures utc ==> 1951 <= Fields(utc, s).year <= 2050
  {
    hide Decimal, TwoDigits, Format;
    var c := Fields(utc, s);
    ParseFormat(utc, s);
    FormatDecimal(utc, c);
    assert s[..StrLen(utc)][..StrLen(utc) - 1] == s[..StrLen(utc) - 1];
    if utc {
      TwoDigitYear(s);
    }
  }

  lemma TwoDigitYear(s: string)
    requires IsDigit(At(s, 0)) && IsDigit(At(s, 1))
    ensures 0 <= TwoAt(s, 0) <= 99
  {
  }

  /** From a timestamp and back: exactly the timestamps from 1970 on survive. */
  method TimeRoundTrip(utc: bool, t: int) returns (s: Option<string>, back: Option<int>)
    ensures s.Some? <==> t < DaysBefore(MaxYear(utc) + 1) * 86400
    ensures s.Some? ==> (back == Some(t) <==> t >= 0)
  {
    hide DaysBefore, Format, Timestamp, Fields, Before1970;
    ghost var c;
    s, c := TimeToStr(utc, t);
    back := None;
    if s.Some? {
      if t >= 0 {
        FormatParse(utc, c);
      }
      back := TimeFromStr(utc, s.value);
      if back.Some? {
        NotNegative(Fields(utc, s.value));
      }
    }
  }

  lemma NotNegative(c: Civil)
    requires Valid(c)
    ensures Timestamp(c) >= 0
  {
    hide DaysBefore, MonthsBefore;
  }

  /** Some negative timestamps are even taken for another date: 2551 days before 1970 is written as
      10 January 1970. */
  lemma AliasedDate(t: int)
    requires t == -2551 * 86400
    ensures Before1970(false, t) == Format(false, Civil(1970, 1, 10, 0, 0, 0))
  {
    hide Shown, ShownDay, TwoDigits, Quot, Rem;
    Negative(2551, 86400);
    Positive(0, 3600);
    Positive(0, 60);
    ShownIs(0);
    TenShown();
  }

  lemma Negative(k: int, b: int)
    requires k > 0 && b > 0
    ensures Quot(-k * b, b) == -k && Rem(-k * b, b) == 0
  {
    assert k * b > 0 && -k * b == -(k * b);
    DivModUnique(k * b, b, k, 0);
  }

  lemma TenShown()
    ensures ShownDay(-2550) == TwoDigits(10)
  {
    assert Quot(-2550, 10) == -255 && Rem(-2550, 10) == 0;
    assert Char(-255) == '1' && Char(0) == '0';
    assert TwoDigits(10) == ['1', '0'];
  }

  /** From an accepted string and back. */
  method StringRoundTrip(utc: bool, s: string) returns (t: Option<int>, back: Option<string>)
    ensures t.Some? <==> Accepted(utc, s)
    ensures t.Some? ==> |s| >= StrLen(utc) && t.value >= 0 && back == Some(s[..StrLen(utc)])
  {
    hide DaysBefore, Format, Fields, MonthsBefore;
    t := TimeFromStr(utc, s);
    back := None;
    if t.Some? {
      ghost var f := Fields(utc, s);
      ParseFormat(utc, s);
      InRange(f, MaxYear(utc));
      ghost var c;
      back, c := TimeToStr(utc, t.value);
      TimestampInjective(c, f);
    }
  }

  lemma InRange(c: Civil, max: int)
    requires Valid(c) && c.year <= max
    ensures 0 <= Timestamp(c) < DaysBefore(max + 1) * 86400
  {
    hide DaysBefore, MonthsBefore;
    DayOfYear(c);
    YearFits(c.year, max);
  }
}
