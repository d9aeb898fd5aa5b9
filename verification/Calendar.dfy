/** The proleptic Gregorian calendar one day at a time, and the closed formula the program
    computes dates with. */
module Calendar {

  /** A day; the week starts on Sunday = 0. */
  datatype Date = Date(year: int, month: int, day: int, weekday: int)

  // ---- the naive calendar --------------------------------------------------

  predicate IsLeap(year: int) {
    year % 4 == 0 && (year % 100 != 0 || year % 400 == 0)
  }

  function DaysInMonth(year: int, month: int): int {
    if month == 2 then if IsLeap(year) then 29 else 28
    else if month == 4 || month == 6 || month == 9 || month == 11 then 30
    else 31
  }

  predicate IsDate(d: Date) {
    1 <= d.month <= 12 && 1 <= d.day <= DaysInMonth(d.year, d.month) && 0 <= d.weekday < 7
  }

  function Tomorrow(d: Date): Date {
    var weekday := if d.weekday == 6 then 0 else d.weekday + 1;
    if d.day < DaysInMonth(d.year, d.month) then Date(d.year, d.month, d.day + 1, weekday)
    else if d.month < 12 then Date(d.year, d.month + 1, 1, weekday)
    else Date(d.year + 1, 1, 1, weekday)
  }

  function Yesterday(d: Date): Date {
    var weekday := if d.weekday == 0 then 6 else d.weekday - 1;
    if d.day > 1 then Date(d.year, d.month, d.day - 1, weekday)
    else if d.month > 1 then Date(d.year, d.month - 1, DaysInMonth(d.year, d.month - 1), weekday)
    else Date(d.year - 1, 12, 31, weekday)
  }

  /** Thursday, 1 January 1970. */
  const EPOCH: Date := Date(1970, 1, 1, 4)

  /** The day `n` days after the epoch, or before it when `n` is negative. */
  function DayAt(n: int): Date
    decreases if n < 0 then -n else n
  {
    if n == 0 then EPOCH
    else if n > 0 then Tomorrow(DayAt(n - 1))
    else Yesterday(DayAt(n + 1))
  }

  lemma TomorrowBack(d: Date)
    requires IsDate(d)
    ensures IsDate(Tomorrow(d)) && Yesterday(Tomorrow(d)) == d
  {
  }

  // ---- the program's formula -----------------------------------------------

  function YearOfEra(doe: int): int {
    (doe - doe / 1460 + doe / 36524 - doe / 146096) / 365
  }

  /** The days of the era before the year that starts on its 1 March. */
  function YearStart(yoe: int): int {
    365 * yoe + yoe / 4 - yoe / 100
  }

  function MonthPart(doy: int): int {
    (5 * doy + 2) / 153
  }

  function MonthStart(mp: int): int {
    (153 * mp + 2) / 5
  }

  /** Civil date from days since the epoch, with floored division as the program uses. */
  function CivilFromDays(days: int): Date {
    var z := days + 719_468;
    var era, doe := z / 146_097, z % 146_097;
    var yoe := YearOfEra(doe);
    var doy := doe - YearStart(yoe);
    var mp := MonthPart(doy);
    var month := if mp < 10 then mp + 3 else mp - 9;
    var shifted := yoe + era * 400;
    Date(if month <= 2 then shifted + 1 else shifted, month, doy - MonthStart(mp) + 1, (days % 7 + 4) % 7)
  }

  // ---- years of an era -----------------------------------------------------

  /** The last day of a year counted from 1 March: 365 in those that end with a 29 February. */
  function LastDay(yoe: int): int {
    if IsLeap(yoe + 1) then 365 else 364
  }

  /** Year 100 c + 4 q + s of the era, `w` days in: the formula's three corrections. */
  lemma YearOfEraParts(c: int, q: int, s: int, w: int)
    requires 0 <= c <= 3 && 0 <= q <= 24 && 0 <= s <= 3 && 0 <= w <= 365
    requires w == 365 ==> s == 3 && (q < 24 || c == 3)
    ensures YearOfEra(36_524 * c + 1461 * q + 365 * s + w) == 100 * c + 4 * q + s
  {
    var doe := 36_524 * c + 1461 * q + 365 * s + w;
    var t := 24 * c + q + 365 * s + w;
    assert doe / 1460 == 25 * c + q + (if t >= 1460 then 1 else 0);
    var last := c == 3 && q == 24 && s == 3 && w == 365;
    assert doe / 36_524 == (if last then 4 else c);
    assert doe / 146_096 == (if last then 1 else 0);
  }

  lemma YearOfEraInverts(yoe: int, doy: int)
    requires 0 <= yoe < 400 && 0 <= doy <= LastDay(yoe)
    ensures YearOfEra(YearStart(yoe) + doy) == yoe
  {
    var c, q, s := yoe / 100, yoe % 100 / 4, yoe % 4;
    assert yoe == 100 * c + 4 * q + s;
    assert yoe / 4 == 25 * c + q;
    YearOfEraParts(c, q, s, doy);
  }

  lemma NextQuotient(x: int, d: int)
    requires x >= 0 && (d == 4 || d == 100)
    ensures (x + 1) / d == x / d + (if (x + 1) % d == 0 then 1 else 0)
  {
  }

  /** Each year starts the day after the last day of the one before. */
  lemma NextYearStart(yoe: int)
    requires 0 <= yoe < 399
    ensures YearStart(yoe + 1) == YearStart(yoe) + LastDay(yoe) + 1
  {
    NextQuotient(yoe, 4);
    NextQuotient(yoe, 100);
    HundredsAreFours(yoe + 1);
    assert (yoe + 1) % 400 == yoe + 1;
  }

  lemma HundredsAreFours(x: int)
    requires x >= 0
    ensures x % 100 == 0 ==> x % 4 == 0
  {
    assert x == 100 * (x / 100) + x % 100;
    assert 100 * (x / 100) == 4 * (25 * (x / 100));
  }

  /** The formula splits the days of an era into the right year and a day of it. */
  lemma {:induction false} DayOfEra(doe: int)
    requires 0 <= doe < 146_097
    ensures 0 <= YearOfEra(doe) < 400
    ensures 0 <= doe - YearStart(YearOfEra(doe)) <= LastDay(YearOfEra(doe))
    decreases doe
  {
    hide YearOfEra, YearStart, LastDay;
    if doe > 0 {
      DayOfEra(doe - 1);
      DayOfEraStep(doe - 1);
    } else {
      EraStarts();
    }
  }

  lemma EraStarts()
    ensures YearOfEra(0) == 0 && YearStart(0) == 0 && LastDay(0) >= 0
  {
    hide YearOfEra;
    YearOfEraParts(0, 0, 0, 0);
    FirstYear(0);
  }

  lemma FirstYear(yoe: int)
    requires yoe == 0
    ensures YearStart(yoe) == 0 && LastDay(yoe) >= 0
  {
  }

  /** From one day of the era to the next: the next day of the year or the next year. */
  lemma DayOfEraStep(doe: int)
    requires 0 <= doe < 146_096 && 0 <= YearOfEra(doe) < 400
    requires 0 <= doe - YearStart(YearOfEra(doe)) <= LastDay(YearOfEra(doe))
    ensures var yoe := YearOfEra(doe);
      YearOfEra(doe + 1) == (if doe - YearStart(yoe) < LastDay(yoe) then yoe else yoe + 1)
    ensures 0 <= YearOfEra(doe + 1) < 400
    ensures 0 <= doe + 1 - YearStart(YearOfEra(doe + 1)) <= LastDay(YearOfEra(doe + 1))
  {
    hide YearOfEra;
    var yoe := YearOfEra(doe);
    var doy := doe - YearStart(yoe);
    if doy < LastDay(yoe) {
      YearOfEraInverts(yoe, doy + 1);
    } else {
      LastYear(yoe);
      NextYearStart(yoe);
      YearOfEraInverts(yoe + 1, 0);
    }
  }

  lemma LastYear(yoe: int)
    requires 0 <= yoe < 400 && YearStart(yoe) + LastDay(yoe) < 146_096
    ensures yoe < 399
  {
  }

  // ---- months of a year ----------------------------------------------------

  /** Day `doy` of the year that starts on 1 March of `shifted`. */
  function DateOf(shifted: int, doy: int, weekday: int): Date {
    var mp := MonthPart(doy);
    var month := if mp < 10 then mp + 3 else mp - 9;
    Date(if month <= 2 then shifted + 1 else shifted, month, doy - MonthStart(mp) + 1, weekday)
  }

  function LengthFromMarch(mp: int): int {
    if mp == 1 || mp == 3 || mp == 6 || mp == 8 then 30 else 31
  }

  /** The months from March to January have the lengths that the formula spaces them by. */
  lemma MonthLengths(mp: int)
    requires 0 <= mp <= 10
    ensures MonthStart(mp + 1) - MonthStart(mp) == LengthFromMarch(mp)
  {
  }

  lemma MonthEnds()
    ensures MonthStart(0) == 0 && MonthStart(11) == 337 && MonthPart(0) == 0
  {
  }

  lemma MonthBounds(doy: int)
    requires 0 <= doy <= 365
    ensures var mp := MonthPart(doy);
      0 <= mp <= 11 && MonthStart(mp) <= doy && (mp < 11 ==> doy < MonthStart(mp + 1) && doy < 337)
  {
  }

  lemma MonthUnique(doy: int, mp: int)
    requires 0 <= mp <= 11 && MonthStart(mp) <= doy <= 365 && (mp < 11 ==> doy < MonthStart(mp + 1))
    ensures MonthPart(doy) == mp
  {
  }

  /** The day after `doy` is in the same month or is the first of the next. */
  lemma NextMonthPart(doy: int)
    requires 0 <= doy < 365
    ensures var mp := MonthPart(doy);
      if mp < 11 && doy + 1 == MonthStart(mp + 1) then MonthPart(doy + 1) == mp + 1 else MonthPart(doy + 1) == mp
  {
    hide MonthStart, MonthPart;
    var mp := MonthPart(doy);
    MonthBounds(doy);
    if mp < 11 && doy + 1 == MonthStart(mp + 1) {
      if mp < 10 {
        MonthLengths(mp + 1);
      }
      MonthUnique(doy + 1, mp + 1);
    } else {
      MonthUnique(doy + 1, mp);
    }
  }

  lemma DaysInMarchMonth(year: int, mp: int)
    requires 0 <= mp <= 11
    ensures var month := if mp < 10 then mp + 3 else mp - 9;
      1 <= month <= 12 && DaysInMonth(year, month) ==
        if mp == 11 then if IsLeap(year) then 29 else 28 else LengthFromMarch(mp)
  {
    hide IsLeap;
  }

  lemma NextDayOfYear(shifted: int, doy: int, weekday: int)
    requires 0 <= doy <= (if IsLeap(shifted + 1) then 365 else 364) && 0 <= weekday < 7
    ensures IsDate(DateOf(shifted, doy, weekday))
    ensures var next := if weekday == 6 then 0 else weekday + 1;
      Tomorrow(DateOf(shifted, doy, weekday)) ==
        if doy < (if IsLeap(shifted + 1) then 365 else 364) then DateOf(shifted, doy + 1, next)
        else DateOf(shifted + 1, 0, next)
  {
    hide IsLeap, MonthStart, MonthPart, DaysInMonth;
    var mp := MonthPart(doy);
    MonthEnds();
    MonthBounds(doy);
    DaysInMarchMonth(if mp < 10 then shifted else shifted + 1, mp);
    var d := DateOf(shifted, doy, weekday);
    var length := DaysInMonth(d.year, d.month);
    assert d.day == doy - MonthStart(mp) + 1;
    if mp < 11 {
      MonthLengths(mp);
      assert length == MonthStart(mp + 1) - MonthStart(mp);
      NextMonthPart(doy);
    } else {
      assert length == if IsLeap(shifted + 1) then 29 else 28;
      if doy < 365 {
        NextMonthPart(doy);
      }
    }
  }

  // ---- the formula is the calendar -----------------------------------------

  lemma CivilIsDateOf(days: int)
    ensures var z := days + 719_468;
      var yoe := YearOfEra(z % 146_097);
      CivilFromDays(days) == DateOf(yoe + z / 146_097 * 400, z % 146_097 - YearStart(yoe), (days % 7 + 4) % 7)
  {
  }

  lemma LeapInEra(year: int, era: int)
    ensures IsLeap(year + era * 400) == IsLeap(year)
  {
    var shifted := year + era * 400;
    Mod4(shifted, year / 4 + 100 * era, year % 4);
    Mod100(shifted, year / 100 + 4 * era, year % 100);
    Mod400(shifted, year / 400 + era, year % 400);
  }

  lemma Mod4(x: int, k: int, r: int)
    requires 0 <= r < 4 && x == 4 * k + r
    ensures x % 4 == r
  {
  }

  lemma Mod100(x: int, k: int, r: int)
    requires 0 <= r < 100 && x == 100 * k + r
    ensures x % 100 == r
  {
  }

  lemma Mod400(x: int, k: int, r: int)
    requires 0 <= r < 400 && x == 400 * k + r
    ensures x % 400 == r
  {
  }

  lemma NextWeekday(days: int)
    ensures var weekday := (days % 7 + 4) % 7;
      0 <= weekday < 7 && ((days + 1) % 7 + 4) % 7 == if weekday == 6 then 0 else weekday + 1
  {
  }

  lemma NextInEra(z: int)
    ensures (z + 1) / 146_097 == z / 146_097 + (if z % 146_097 == 146_096 then 1 else 0)
    ensures (z + 1) % 146_097 == if z % 146_097 == 146_096 then 0 else z % 146_097 + 1
  {
  }

  /** One day later, the formula gives the calendar's next day. */
  lemma CivilStep(days: int)
    ensures IsDate(CivilFromDays(days)) && CivilFromDays(days + 1) == Tomorrow(CivilFromDays(days))
  {
    hide *;
    var z := days + 719_468;
    NextInEra(z);
    NextWeekday(days);
    CivilIsDateOf(days);
    CivilIsDateOf(days + 1);
    CivilStepAt(z / 146_097, z % 146_097, (days % 7 + 4) % 7);
  }

  lemma CivilStepAt(era: int, doe: int, weekday: int)
    requires 0 <= doe < 146_097 && 0 <= weekday < 7
    ensures var next := if weekday == 6 then 0 else weekday + 1;
      var yoe := YearOfEra(doe);
      var d := DateOf(yoe + era * 400, doe - YearStart(yoe), weekday);
      var yoe' := if doe == 146_096 then YearOfEra(0) else YearOfEra(doe + 1);
      IsDate(d) &&
      Tomorrow(d) == if doe == 146_096 then DateOf(yoe' + (era + 1) * 400, 0 - YearStart(yoe'), next)
                     else DateOf(yoe' + era * 400, doe + 1 - YearStart(yoe'), next)
  {
    hide YearOfEra, DateOf, IsLeap, Tomorrow, IsDate;
    var yoe := YearOfEra(doe);
    DayOfEra(doe);
    LeapInEra(yoe + 1, era);
    NextDayOfYear(yoe + era * 400, doe - YearStart(yoe), weekday);
    if doe < 146_096 {
      DayOfEraStep(doe);
      if doe - YearStart(yoe) == LastDay(yoe) {
        LastYear(yoe);
        NextYearStart(yoe);
      }
    } else {
      EraEnds();
    }
  }

  lemma EraEnds()
    ensures YearOfEra(146_096) == 399 && YearOfEra(0) == 0 && YearStart(399) + 365 == 146_096 && IsLeap(400)
  {
  }

  /** For every day, before the epoch or after it, the formula is the naive calendar. */
  lemma {:induction false} FormulaIsCalendar(days: int)
    ensures CivilFromDays(days) == DayAt(days)
    decreases if days < 0 then -days else days
  {
    hide CivilFromDays, Tomorrow, Yesterday, IsDate;
    if days == 0 {
      EpochFormula();
    } else if days > 0 {
      FormulaIsCalendar(days - 1);
      CivilStep(days - 1);
    } else {
      FormulaIsCalendar(days + 1);
      CivilStep(days);
      TomorrowBack(CivilFromDays(days));
    }
  }

  lemma EpochFormula()
    ensures CivilFromDays(0) == EPOCH
  {
    hide YearOfEra, YearStart, MonthPart, MonthStart;
    EpochEra();
    EpochYear();
    EpochYearStart();
    EpochMonth();
  }

  lemma EpochEra()
    ensures 719_468 / 146_097 == 4 && 719_468 % 146_097 == 135_080
  {
  }

  lemma EpochYear()
    ensures YearOfEra(135_080) == 369
  {
    assert 135_080 / 1460 == 92;
    assert 135_080 / 36_524 == 3;
    assert 135_080 / 146_096 == 0;
  }

  lemma EpochYearStart()
    ensures YearStart(369) == 134_774
  {
  }

  lemma EpochMonth()
    ensures MonthPart(306) == 10 && MonthStart(10) == 306
  {
  }
}
