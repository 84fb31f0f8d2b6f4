/** ISO calendar dates as text, and their day numbers (section 21.4.1 of ECMA-262). */
module Calendar {
  import opened Text
  import opened Primitives

  // ---------- the proleptic Gregorian calendar of ECMA-262 ----------

  function DayFromYear(y: int): int {
    365 * (y - 1970) + (y - 1969) / 4 - (y - 1901) / 100 + (y - 1601) / 400
  }

  predicate IsLeap(y: int) {
    y % 4 == 0 && (y % 100 != 0 || y % 400 == 0)
  }

  function YearLength(y: int): int {
    if IsLeap(y) then 366 else 365
  }

  /** Days of the year before the given month, months counted from 0; 12 stands for the year's end. */
  function MonthStart(month: int, leap: bool): (r: int)
    requires 0 <= month <= 12
  {
    [0, 31, 59, 90, 120, 151, 181, 212, 243, 273, 304, 334, 365][month] + if leap && month >= 2 then 1 else 0
  }

  /** MakeDay: months beyond a year carry into the year, days beyond a month simply count on. */
  function MakeDay(year: int, month: int, date: int): int {
    var y := year + month / 12;
    DayFromYear(y) + MonthStart(month % 12, IsLeap(y)) + date - 1
  }

  /** `Date.UTC`, in days: years 0 through 99 mean 1900 through 1999. */
  function DateUtc(year: int, month: int, date: int): int {
    MakeDay(if 0 <= year <= 99 then 1900 + year else year, month, date)
  }

  lemma EveryFourth(y: int)
    ensures (y - 1968) / 4 == (y - 1969) / 4 + if y % 4 == 0 then 1 else 0
  {
  }

  lemma EveryHundredth(y: int)
    ensures (y - 1900) / 100 == (y - 1901) / 100 + if y % 100 == 0 then 1 else 0
  {
  }

  lemma EveryFourHundredth(y: int)
    ensures (y - 1600) / 400 == (y - 1601) / 400 + if y % 400 == 0 then 1 else 0
  {
  }

  lemma CenturyMultiples(y: int)
    ensures y % 400 == 0 ==> y % 100 == 0
    ensures y % 100 == 0 ==> y % 4 == 0
  {
  }

  lemma YearStep(y: int)
    ensures DayFromYear(y + 1) == DayFromYear(y) + YearLength(y)
  {
    EveryFourth(y);
    EveryHundredth(y);
    EveryFourHundredth(y);
    CenturyMultiples(y);
  }

  lemma {:induction false} YearsIncrease(y: int, z: int)
    requires y < z
    ensures DayFromYear(y) + YearLength(y) <= DayFromYear(z)
    decreases z - y
  {
    hide DayFromYear;
    YearStep(y);
    if y + 1 < z {
      YearsIncrease(y + 1, z);
    }
  }

  function YearUp(day: int, y: int): (r: int)
    requires DayFromYear(y) <= day
    ensures DayFromYear(r) <= day < DayFromYear(r + 1)
    decreases day - DayFromYear(y)
  {
    hide DayFromYear, IsLeap;
    YearStep(y);
    if day < DayFromYear(y + 1) then y else YearUp(day, y + 1)
  }

  function YearDown(day: int, y: int): (r: int)
    requires day < DayFromYear(y + 1)
    ensures DayFromYear(r) <= day < DayFromYear(r + 1)
    decreases DayFromYear(y + 1) - day
  {
    hide DayFromYear, IsLeap;
    YearStep(y);
    if DayFromYear(y) <= day then y else YearDown(day, y - 1)
  }

  /** The year that a day falls in: the largest one that starts no later. */
  function YearOf(day: int): (r: int)
    ensures DayFromYear(r) <= day < DayFromYear(r + 1)
  {
    if day >= 0 then YearUp(day, 1970) else YearDown(day, 1969)
  }

  lemma YearUnique(day: int, y: int)
    requires DayFromYear(y) <= day < DayFromYear(y + 1)
    ensures YearOf(day) == y
  {
    hide DayFromYear;
    YearStep(y);
    YearStep(YearOf(day));
    if YearOf(day) < y {
      YearsIncrease(YearOf(day), y);
    } else if y < YearOf(day) {
      YearsIncrease(y, YearOf(day));
    }
  }

  /** The last month, counted from 0, that starts no later than the given day of the year. */
  function MonthIn(dayOfYear: int, leap: bool, month: int): (r: int)
    requires 0 <= month <= 11 && 0 <= dayOfYear < MonthStart(month + 1, leap)
    ensures 0 <= r <= 11 && MonthStart(r, leap) <= dayOfYear < MonthStart(r + 1, leap)
  {
    if MonthStart(month, leap) <= dayOfYear then month else MonthIn(dayOfYear, leap, month - 1)
  }

  function DayOfYear(day: int): (r: int)
    ensures 0 <= r < YearLength(YearOf(day))
  {
    hide DayFromYear, IsLeap;
    YearStep(YearOf(day));
    day - DayFromYear(YearOf(day))
  }

  function MonthOf(day: int): (r: int)
    ensures 0 <= r <= 11
    ensures MonthStart(r, IsLeap(YearOf(day))) <= DayOfYear(day) < MonthStart(r + 1, IsLeap(YearOf(day)))
  {
    MonthIn(DayOfYear(day), IsLeap(YearOf(day)), 11)
  }

  function DateOf(day: int): (r: int)
    ensures 1 <= r
  {
    DayOfYear(day) - MonthStart(MonthOf(day), IsLeap(YearOf(day))) + 1
  }

  // ---------- dates as text ----------

  predicate HasIsoShape(s: Text) {
    && |s| == 10 && s[4] == HYPHEN && s[7] == HYPHEN
    && AllDigits(s[..4]) && AllDigits(s[5..7]) && AllDigits(s[8..])
  }

  function YearField(s: Text): (r: nat) requires HasIsoShape(s) { DecimalValue(s[..4]) }
  function MonthField(s: Text): (r: nat) requires HasIsoShape(s) { DecimalValue(s[5..7]) }
  function DayField(s: Text): (r: nat) requires HasIsoShape(s) { DecimalValue(s[8..]) }

  predicate IsIsoDate(s: Text) {
    HasIsoShape(s) &&
    var day := DateUtc(YearField(s), MonthField(s) - 1, DayField(s));
    YearOf(day) == YearField(s) && MonthOf(day) == MonthField(s) - 1 && DateOf(day) == DayField(s)
  }

  function EpochDay(s: Text): (r: int)
    requires IsIsoDate(s)
  {
    DateUtc(YearField(s), MonthField(s) - 1, DayField(s))
  }

  /** The last `width` decimal digits of n. */
  function Padded(n: nat, width: nat): (r: Text)
    ensures |r| == width && AllDigits(r)
  {
    if width == 0 then [] else Padded(n / 10, width - 1) + [ZERO + n % 10]
  }

  /** `toISOString().slice(0, 10)`: years outside 0 through 9999 are printed with a sign and six digits. */
  function IsoText(day: int): (r: Text) {
    var y := YearOf(day);
    var tail := [HYPHEN] + Padded(MonthOf(day) + 1, 2) + [HYPHEN] + Padded(DateOf(day), 2);
    if 0 <= y <= 9999 then Padded(y, 4) + tail
    else if y > 9999 then ([PLUS] + Padded(y, 6) + tail)[..10]
    else ([HYPHEN] + Padded(-y, 6) + tail)[..10]
  }

  /** Days farther than this from 1970 have no time value, and converting them throws. */
  const MAX_DAY: int := 100_000_000

  /** The date a day number stands for, or None where the source throws. */
  function IsoDateOf(day: int): (r: Option<Text>) {
    if day < -MAX_DAY || day > MAX_DAY || !IsIsoDate(IsoText(day)) then None else Some(IsoText(day))
  }

  /** None where the source throws. */
  function AddDays(s: Text, days: int): (r: Option<Text>)
    requires IsIsoDate(s)
  {
    if days < -MAX_SAFE_INTEGER || days > MAX_SAFE_INTEGER then None else IsoDateOf(EpochDay(s) + days)
  }

  // ---------- accepted dates ----------

  function DaysInMonth(y: int, month: int): (r: int) {
    if month == 2 then (if IsLeap(y) then 29 else 28)
    else if month in {4, 6, 9, 11} then 30
    else 31
  }

  predicate IsGregorian(y: int, month: int, date: int) {
    1 <= month <= 12 && 1 <= date <= DaysInMonth(y, month)
  }

  lemma MonthLengths(leap: bool, month: int, y: int)
    requires 0 <= month <= 11 && leap == IsLeap(y)
    ensures MonthStart(month + 1, leap) == MonthStart(month, leap) + DaysInMonth(y, month + 1)
  {
  }

  lemma MonthsIncrease(leap: bool, m: int, n: int)
    requires 0 <= m < n <= 12
    ensures MonthStart(m, leap) + 28 <= MonthStart(n, leap)
  {
  }

  lemma MakeDayInYear(y: int, month: int, date: int)
    requires 0 <= month <= 11
    ensures MakeDay(y, month, date) == DayFromYear(y) + MonthStart(month, IsLeap(y)) + date - 1
  {
    assert month / 12 == 0 && month % 12 == month;
  }

  lemma MonthUnique(day: int, month: int)
    requires 0 <= month <= 11
    requires MonthStart(month, IsLeap(YearOf(day))) <= DayOfYear(day) < MonthStart(month + 1, IsLeap(YearOf(day)))
    ensures MonthOf(day) == month
  {
    hide DayFromYear;
    var leap, m := IsLeap(YearOf(day)), MonthOf(day);
    if m + 1 < month {
      MonthsIncrease(leap, m + 1, month);
    } else if month + 1 < m {
      MonthsIncrease(leap, month + 1, m);
    }
  }

  /** The three components of the day number of a Gregorian date are the date. */
  lemma ComponentsOf(y: int, month: int, date: int)
    requires IsGregorian(y, month, date)
    ensures var day := MakeDay(y, month - 1, date); YearOf(day) == y && MonthOf(day) == month - 1 && DateOf(day) == date
  {
    hide DayFromYear, IsLeap;
    var day := MakeDay(y, month - 1, date);
    var leap := IsLeap(y);
    MakeDayInYear(y, month - 1, date);
    MonthLengths(leap, month - 1, y);
    YearStep(y);
    if month < 12 {
      MonthsIncrease(leap, month, 12);
    }
    if 0 < month - 1 {
      MonthsIncrease(leap, 0, month - 1);
    }
    YearUnique(day, y);
    MonthUnique(day, month - 1);
  }

  lemma DateInMonth(day: int)
    ensures IsGregorian(YearOf(day), MonthOf(day) + 1, DateOf(day))
  {
    hide DayFromYear, IsLeap;
    MonthLengths(IsLeap(YearOf(day)), MonthOf(day), YearOf(day));
  }

  lemma FieldBounds(s: Text)
    requires HasIsoShape(s)
    ensures YearField(s) <= 9999 && MonthField(s) <= 99 && DayField(s) <= 99
  {
    TwoDigits(s[5..7]);
    TwoDigits(s[8..]);
    TwoDigits(s[..4][..2]);
    var a := s[..4];
    assert DecimalValue(a) == 10 * DecimalValue(a[..3]) + (a[3] - ZERO);
    assert a[..3][..2] == a[..2];
    assert DecimalValue(a[..3]) == 10 * DecimalValue(a[..2]) + (a[2] - ZERO);
  }

  lemma TwoDigits(s: Text)
    requires |s| == 2 && AllDigits(s)
    ensures DecimalValue(s) == 10 * (s[0] - ZERO) + (s[1] - ZERO) <= 99
  {
    assert s[..1][..0] == [];
    assert DecimalValue(s[..1]) == 10 * DecimalValue(s[..1][..0]) + (s[0] - ZERO);
  }

  /** The components give the date back exactly for Gregorian dates from year 100 on. */
  lemma ComponentsDecide(y: int, m: int, d: int)
    requires 0 <= y <= 9999 && 0 <= d <= 99
    ensures var day := DateUtc(y, m - 1, d);
      YearOf(day) == y && MonthOf(day) == m - 1 && DateOf(day) == d <==> y >= 100 && IsGregorian(y, m, d)
  {
    hide DayFromYear, IsLeap;
    var day := DateUtc(y, m - 1, d);
    if y >= 100 && IsGregorian(y, m, d) {
      ComponentsOf(y, m, d);
    }
    if YearOf(day) == y && MonthOf(day) == m - 1 && DateOf(day) == d {
      DateInMonth(day);
      if y <= 99 {
        ShortYearsMiss(y, m, d);
        YearsIncrease(y, 1899 + y);
        YearStep(y);
        YearStep(1899 + y);
      }
    }
  }

  /** The accepted texts are exactly the Gregorian dates of years 0100 through 9999. */
  lemma AcceptedDates(s: Text)
    ensures IsIsoDate(s) <==>
      HasIsoShape(s) && 100 <= YearField(s) <= 9999 && IsGregorian(YearField(s), MonthField(s), DayField(s))
  {
    hide DateUtc, YearOf, MonthOf, DateOf, IsGregorian;
    if HasIsoShape(s) {
      FieldBounds(s);
      ComponentsDecide(YearField(s), MonthField(s), DayField(s));
    }
  }

  /** A year below 100 is read as one of the twentieth century, whatever its month and day. */
  lemma ShortYearsMiss(y: int, m: int, d: int)
    requires 0 <= y <= 99 && 1 <= m <= 12 && 0 <= d <= 31
    ensures var day := DateUtc(y, m - 1, d); DayFromYear(1900 + y) - 1 <= day < DayFromYear(1900 + y + 1)
  {
    hide DayFromYear, IsLeap;
    YearStep(1900 + y);
    MakeDayInYear(1900 + y, m - 1, d);
  }

  // ---------- day numbers ----------

  /** Earlier in the calendar: by year, then month, then day. */
  predicate Earlier(a: Text, b: Text)
    requires HasIsoShape(a) && HasIsoShape(b)
  {
    || YearField(a) < YearField(b)
    || (YearField(a) == YearField(b) && MonthField(a) < MonthField(b))
    || (YearField(a) == YearField(b) && MonthField(a) == MonthField(b) && DayField(a) < DayField(b))
  }

  lemma EpochDayIs(s: Text)
    requires IsIsoDate(s)
    ensures YearOf(EpochDay(s)) == YearField(s)
    ensures EpochDay(s) == DayFromYear(YearField(s)) + MonthStart(MonthField(s) - 1, IsLeap(YearField(s)))
        + DayField(s) - 1
    ensures 1 <= DayField(s) <= DaysInMonth(YearField(s), MonthField(s)) && 1 <= MonthField(s) <= 12
  {
    hide DayFromYear;
    AcceptedDates(s);
    MakeDayInYear(YearField(s), MonthField(s) - 1, DayField(s));
  }

  lemma EarlierDays(y: int, m: int, d: int, z: int, n: int, e: int)
    requires IsGregorian(y, m, d) && IsGregorian(z, n, e)
    requires y < z || (y == z && m < n) || (y == z && m == n && d < e)
    ensures DayFromYear(y) + MonthStart(m - 1, IsLeap(y)) + d < DayFromYear(z) + MonthStart(n - 1, IsLeap(z)) + e
  {
    hide DayFromYear, IsLeap;
    MonthLengths(IsLeap(y), m - 1, y);
    if y < z {
      YearsIncrease(y, z);
      if m < 12 {
        MonthsIncrease(IsLeap(y), m, 12);
      }
    } else if m < n - 1 {
      MonthsIncrease(IsLeap(y), m, n - 1);
    }
  }

  lemma EarlierIsLess(a: Text, b: Text)
    requires IsIsoDate(a) && IsIsoDate(b) && Earlier(a, b)
    ensures EpochDay(a) < EpochDay(b)
  {
    hide EpochDay, HasIsoShape, YearField, MonthField, DayField, IsLeap, DayFromYear, MonthStart, YearOf;
    EpochDayIs(a);
    EpochDayIs(b);
    EarlierDays(YearField(a), MonthField(a), DayField(a), YearField(b), MonthField(b), DayField(b));
  }

  lemma FieldsDecide(a: Text, b: Text)
    requires HasIsoShape(a) && HasIsoShape(b)
    ensures a == b <==> YearField(a) == YearField(b) && MonthField(a) == MonthField(b) && DayField(a) == DayField(b)
    ensures Before(a, b) <==> Earlier(a, b)
  {
    SplitIso(a);
    SplitIso(b);
    DigitsOrdered(a[..4], b[..4]);
    DigitsOrdered(a[5..7], b[5..7]);
    DigitsOrdered(a[8..], b[8..]);
    var at, bt := [HYPHEN] + a[8..], [HYPHEN] + b[8..];
    BeforeConcat([HYPHEN], [HYPHEN], a[8..], b[8..]);
    BeforeConcat(a[5..7], b[5..7], at, bt);
    BeforeConcat([HYPHEN], [HYPHEN], a[5..7] + at, b[5..7] + bt);
    BeforeConcat(a[..4], b[..4], [HYPHEN] + (a[5..7] + at), [HYPHEN] + (b[5..7] + bt));
    BeforeIrreflexive([HYPHEN]);
  }

  lemma SplitIso(s: Text)
    requires HasIsoShape(s)
    ensures s == s[..4] + ([HYPHEN] + (s[5..7] + ([HYPHEN] + s[8..])))
  {
  }

  /** Text order, calendar order and day-number order are one order, and no two dates share a day. */
  lemma OrdersAgree(a: Text, b: Text)
    requires IsIsoDate(a) && IsIsoDate(b)
    ensures Before(a, b) <==> EpochDay(a) < EpochDay(b)
    ensures a == b <==> EpochDay(a) == EpochDay(b)
  {
    FieldsDecide(a, b);
    FieldsDecide(b, a);
    if a != b {
      if Earlier(a, b) {
        EarlierIsLess(a, b);
      } else {
        EarlierIsLess(b, a);
      }
    }
  }

  // The days of 0100-01-01 and 9999-12-31.
  const FIRST_DAY: int := -683003
  const LAST_DAY: int := 2932896

  lemma DaysInRange(day: int)
    ensures FIRST_DAY <= day <= LAST_DAY <==> 100 <= YearOf(day) <= 9999
  {
    assert DayFromYear(100) == FIRST_DAY && DayFromYear(10000) == LAST_DAY + 1;
    hide YearOf, DayFromYear;
    YearReached(day, 100);
    YearReached(day, 10000);
  }

  /** A day is in year z or later exactly from the first day of z on. */
  lemma YearReached(day: int, z: int)
    ensures DayFromYear(z) <= day <==> z <= YearOf(day)
  {
    hide YearOf, DayFromYear;
    var y := YearOf(day);
    if z < y {
      YearsIncrease(z, y);
    } else if y + 1 < z {
      YearsIncrease(y + 1, z);
    }
  }

  lemma EpochDayInRange(s: Text)
    requires IsIsoDate(s)
    ensures FIRST_DAY <= EpochDay(s) <= LAST_DAY
  {
    hide DayFromYear, IsLeap;
    AcceptedDates(s);
    EpochDayIs(s);
    DaysInRange(EpochDay(s));
  }

  lemma PaddedTwo(n: nat)
    requires n <= 99
    ensures DecimalValue(Padded(n, 2)) == n
  {
    TwoDigits(Padded(n, 2));
    assert Padded(n, 2) == Padded(n / 10, 1) + [ZERO + n % 10];
    assert Padded(n / 10, 1)[0] == ZERO + n / 10 % 10;
  }

  lemma PaddedFour(n: nat)
    requires n <= 9999
    ensures DecimalValue(Padded(n, 4)) == n
  {
    PaddedTwo(n / 10 / 10);
    assert Padded(n, 4)[..3] == Padded(n / 10, 3);
    assert Padded(n / 10, 3)[..2] == Padded(n / 10 / 10, 2);
  }

  lemma ShapeOf(y: Text, m: Text, d: Text)
    requires |y| == 4 && |m| == 2 && |d| == 2 && AllDigits(y) && AllDigits(m) && AllDigits(d)
    ensures var s := y + ([HYPHEN] + m + [HYPHEN] + d);
      HasIsoShape(s) && s[..4] == y && s[5..7] == m && s[8..] == d
  {
    var s := y + ([HYPHEN] + m + [HYPHEN] + d);
    assert s[..4] == y && s[5..7] == m && s[8..] == d;
  }

  lemma IsoTextFields(day: int)
    requires 0 <= YearOf(day) <= 9999
    ensures var s := IsoText(day);
      HasIsoShape(s) && YearField(s) == YearOf(day) && MonthField(s) == MonthOf(day) + 1 && DayField(s) == DateOf(day)
  {
    hide YearOf, MonthOf, DateOf, Padded, HasIsoShape;
    DateInMonth(day);
    PaddedFour(YearOf(day));
    PaddedTwo(MonthOf(day) + 1);
    PaddedTwo(DateOf(day));
    ShapeOf(Padded(YearOf(day), 4), Padded(MonthOf(day) + 1, 2), Padded(DateOf(day), 2));
  }

  lemma SignedTextRefused(day: int)
    requires YearOf(day) < 0 || YearOf(day) > 9999
    ensures !HasIsoShape(IsoText(day))
  {
    var s := IsoText(day);
    assert s[0] == PLUS || s[0] == HYPHEN;
    assert s[..4][0] == s[0] && !IsDigit(s[0]);
  }

  /** The day's text is accepted exactly in the accepted years, and then it names the day. */
  lemma IsoTextOf(day: int)
    ensures IsIsoDate(IsoText(day)) <==> FIRST_DAY <= day <= LAST_DAY
    ensures FIRST_DAY <= day <= LAST_DAY ==> EpochDay(IsoText(day)) == day
  {
    hide YearOf, MonthOf, HasIsoShape, IsGregorian, DayFromYear, IsLeap;
    DaysInRange(day);
    if 0 <= YearOf(day) <= 9999 {
      IsoTextFields(day);
      DateInMonth(day);
      AcceptedDates(IsoText(day));
      MakeDayInYear(YearOf(day), MonthOf(day), DateOf(day));
    } else {
      SignedTextRefused(day);
    }
  }

  /** The day number is a strictly increasing bijection from the accepted dates to its range. */
  lemma EpochDayBijection(s: Text, day: int)
    ensures IsIsoDate(s) ==> FIRST_DAY <= EpochDay(s) <= LAST_DAY && IsoText(EpochDay(s)) == s
    ensures FIRST_DAY <= day <= LAST_DAY ==> IsIsoDate(IsoText(day)) && EpochDay(IsoText(day)) == day
  {
    if IsIsoDate(s) {
      EpochDayInRange(s);
      IsoTextOf(EpochDay(s));
      OrdersAgree(s, IsoText(EpochDay(s)));
    }
    IsoTextOf(day);
  }

  /** The result is the date with that day number, or absent when no accepted date has it. */
  ghost predicate Names(date: Option<Text>, day: int) {
    match date
    case None => day < FIRST_DAY || day > LAST_DAY
    case Some(t) => IsIsoDate(t) && EpochDay(t) == day && FIRST_DAY <= day <= LAST_DAY
  }

  lemma IsoDateOfMeans(day: int)
    ensures Names(IsoDateOf(day), day)
  {
    IsoTextOf(day);
  }

  lemma OffsetBeyondSafe(day: int)
    requires day < FIRST_DAY || day > LAST_DAY
    ensures IsoDateOf(day) == None
  {
    IsoDateOfMeans(day);
  }

  /** No date is so far that the offset's own bound matters. */
  lemma AddDaysIs(s: Text, days: int)
    requires IsIsoDate(s)
    ensures AddDays(s, days) == IsoDateOf(EpochDay(s) + days)
  {
    EpochDayInRange(s);
    if days < -MAX_SAFE_INTEGER || days > MAX_SAFE_INTEGER {
      OffsetBeyondSafe(EpochDay(s) + days);
    }
  }

  /** Dates already accepted. */
  type IsoDate = s: Text | IsIsoDate(s) ghost witness (EpochDayBijection([], 0); IsoText(0))

  /** Adding days moves the day number by exactly that many, and fails exactly outside years 0100-9999. */
  lemma AddDaysMeans(s: Text, days: int)
    requires IsIsoDate(s)
    ensures Names(AddDays(s, days), EpochDay(s) + days)
  {
    hide *;
    AddDaysIs(s, days);
    IsoDateOfMeans(EpochDay(s) + days);
  }

  /** Offsets add up, and the negative offset undoes, whenever the intermediate date exists. */
  lemma AddDaysAdds(s: Text, m: int, n: int)
    requires IsIsoDate(s) && AddDays(s, m).Some?
    ensures IsIsoDate(AddDays(s, m).value)
    ensures AddDays(AddDays(s, m).value, n) == AddDays(s, m + n)
    ensures AddDays(AddDays(s, m).value, -m) == Some(s)
  {
    hide AddDays, IsIsoDate, EpochDay;
    AddDaysMeans(s, m);
    SumOfOffsets(s, AddDays(s, m).value, m, n);
    SumOfOffsets(s, AddDays(s, m).value, m, -m);
    AddDaysMeans(s, 0);
    EpochDayInRange(s);
    OrdersAgree(AddDays(s, 0).value, s);
  }

  lemma SumOfOffsets(s: Text, t: Text, m: int, n: int)
    requires IsIsoDate(s) && IsIsoDate(t) && EpochDay(t) == EpochDay(s) + m
    ensures AddDays(t, n) == AddDays(s, m + n)
  {
    hide *;
    AddDaysIs(t, n);
    AddDaysIs(s, m + n);
  }
}
