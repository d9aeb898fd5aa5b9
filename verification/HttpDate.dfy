/** HTTP dates (section 5.6.7 of RFC 9110): two formatters and a lenient parser. */
module HttpDate {
  import opened Bytes
  import opened Calendar
  import opened Text

  /** Two's-complement wrap-around of a 64-bit signed result. */
  function Wrap64(x: int): (r: int)
    ensures -I64_LIMIT <= r < I64_LIMIT
  {
    (x + I64_LIMIT) % (2 * I64_LIMIT) - I64_LIMIT
  }

  lemma WrapNoop(x: int)
    requires -I64_LIMIT <= x < I64_LIMIT
    ensures Wrap64(x) == x
  {
  }

  /** Wrapping the terms of a sum early makes no difference. */
  lemma WrapAdd(a: int, b: int)
    ensures Wrap64(Wrap64(a) + b) == Wrap64(a + b)
  {
  }

  // ---- formatting ----------------------------------------------------------

  function Triple(a: char, b: char, c: char): (r: seq<byte>)
    ensures |r| == 3
  {
    [Octet(a), Octet(b), Octet(c)]
  }

  function WeekdayName(weekday: int): (r: seq<byte>)
    ensures |r| == 3
  {
    if weekday == 0 then Triple('S', 'u', 'n') else if weekday == 1 then Triple('M', 'o', 'n')
    else if weekday == 2 then Triple('T', 'u', 'e') else if weekday == 3 then Triple('W', 'e', 'd')
    else if weekday == 4 then Triple('T', 'h', 'u') else if weekday == 5 then Triple('F', 'r', 'i')
    else Triple('S', 'a', 't')
  }

  function MonthName(month: int): (r: seq<byte>)
    ensures |r| == 3
  {
    if month == 1 then Triple('J', 'a', 'n') else if month == 2 then Triple('F', 'e', 'b')
    else if month == 3 then Triple('M', 'a', 'r') else if month == 4 then Triple('A', 'p', 'r')
    else if month == 5 then Triple('M', 'a', 'y') else if month == 6 then Triple('J', 'u', 'n')
    else if month == 7 then Triple('J', 'u', 'l') else if month == 8 then Triple('A', 'u', 'g')
    else if month == 9 then Triple('S', 'e', 'p') else if month == 10 then Triple('O', 'c', 't')
    else if month == 11 then Triple('N', 'o', 'v') else Triple('D', 'e', 'c')
  }

  /** `{:0w}` on a signed number: the sign counts towards the width. */
  function Padded(n: int, width: nat): seq<byte>
    requires width > 0
  {
    if n < 0 then [MINUS] + PadZeros(DecText(-n), width - 1) else PadZeros(DecText(n), width)
  }

  function Clock(second: nat): seq<byte> {
    Padded(second / 3600, 2) + [COLON] + Padded(second % 3600 / 60, 2) + [COLON] + Padded(second % 60, 2)
  }

  function Rendered(d: Date, second: nat): seq<byte> {
    WeekdayName(d.weekday) + [COMMA] + [SPACE] + Padded(d.day, 2) + [SPACE] + MonthName(d.month) + [SPACE]
    + Padded(d.year, 4) + [SPACE] + Clock(second) + [SPACE] + Triple('G', 'M', 'T')
  }

  /** `format_imf_fixdate`, for any signed time. */
  function FormatImfFixdate(time: int): seq<byte> {
    Rendered(CivilFromDays(time / 86_400), time % 86_400)
  }

  /** The printed date is the calendar's, for every time, before the epoch or after it. */
  lemma FixdateIsCalendar(time: int)
    ensures FormatImfFixdate(time) == Rendered(DayAt(time / 86_400), time % 86_400)
  {
    FormulaIsCalendar(time / 86_400);
  }

  /** Division that truncates toward zero. */
  function TruncDiv(a: int, b: int): int
    requires b > 0
  {
    if a >= 0 then a / b else -(-a / b)
  }

  /** `http_date`'s own copy of the formula, which truncates where the other one floors. */
  function HttpCivil(days: nat): Date {
    var z := days + 719_468;
    var era := TruncDiv(if z >= 0 then z else z - 146_096, 146_097);
    var doe := z - era * 146_097;
    var yoe := YearOfEra(doe);
    var doy := doe - YearStart(yoe);
    var mp := MonthPart(doy);
    var month := if mp < 10 then mp + 3 else mp - 9;
    var year := yoe + era * 400;
    Date(if month <= 2 then year + 1 else year, month, doy - MonthStart(mp) + 1, (days % 7 + 4) % 7)
  }

  function HttpDateOf(secs: nat): seq<byte> {
    Rendered(HttpCivil(secs / 86_400), secs % 86_400)
  }

  /** The two formatters agree at and after the epoch. */
  lemma FormattersAgree(secs: nat)
    ensures HttpDateOf(secs) == FormatImfFixdate(secs)
    ensures HttpDateOf(secs) == Rendered(CivilFromDays(secs / 86_400), secs % 86_400)
  {
    hide Rendered, YearOfEra, YearStart, MonthPart, MonthStart;
    var z := secs / 86_400 + 719_468;
    assert z - z / 146_097 * 146_097 == z % 146_097;
  }

  // ---- parsing -------------------------------------------------------------

  function MonthIndex(name: seq<byte>): Option<int> {
    if name == MonthName(1) then Some(1) else if name == MonthName(2) then Some(2)
    else if name == MonthName(3) then Some(3) else if name == MonthName(4) then Some(4)
    else if name == MonthName(5) then Some(5) else if name == MonthName(6) then Some(6)
    else if name == MonthName(7) then Some(7) else if name == MonthName(8) then Some(8)
    else if name == MonthName(9) then Some(9) else if name == MonthName(10) then Some(10)
    else if name == MonthName(11) then Some(11) else if name == MonthName(12) then Some(12)
    else None
  }

  /** What follows the first ", ", or everything. */
  function AfterWeekday(s: seq<byte>): seq<byte> {
    match CommaBlank(s) case Some(i) => s[i + 2..] case None => s
  }

  function CommaBlank(s: seq<byte>): (r: Option<nat>)
    ensures r.Some? ==> r.value + 2 <= |s|
  {
    if |s| < 2 then None
    else if s[0] == COMMA && s[1] == SPACE then Some(0)
    else match CommaBlank(s[1..]) case None => None case Some(i) => Some(i + 1)
  }

  /** Days since the epoch of day `day` of month `mp` (March = 0) of the year `y` that starts
      in March, each step wrapping at 64 bits. */
  function DaysOf(y: int, mp: int, day: int): int {
    var era := TruncDiv(if y >= 0 then y else Wrap64(y - 399), 400);
    var yoe := Wrap64(y - Wrap64(era * 400));
    var doy := Wrap64(Wrap64(MonthStart(mp) + day) - 1);
    var doe := Wrap64(Wrap64(Wrap64(Wrap64(yoe * 365) + TruncDiv(yoe, 4)) - TruncDiv(yoe, 100)) + doy);
    Wrap64(Wrap64(Wrap64(era * 146_097) + doe) - 719_468)
  }

  function DaysFromCivil(year: int, month: int, day: int): int {
    DaysOf(if month <= 2 then Wrap64(year - 1) else year, if month > 2 then month - 3 else month + 9, day)
  }

  function EpochSeconds(year: int, month: int, day: int, hour: int, minute: int, second: int): int {
    var days := DaysFromCivil(year, month, day);
    Wrap64(Wrap64(Wrap64(Wrap64(days * 86_400) + Wrap64(hour * 3600)) + Wrap64(minute * 60)) + second)
  }

  function ParseClock(time: seq<byte>): Option<(int, int, int)> {
    var pieces := Split(time, COLON);
    if |pieces| < 3 then None
    else
      match (ParseI64(pieces[0]), ParseI64(pieces[1]), ParseI64(pieces[2]))
      case (Some(h), Some(m), Some(s)) => Some((h, m, s))
      case _ => None
  }

  function ParseHttpDate(value: seq<byte>): Option<nat> {
    var v := AfterWeekday(Trim(value));
    match NextToken(v) case None => None case Some((dayText, v1)) =>
    match NextToken(v1) case None => None case Some((monthText, v2)) =>
    match NextToken(v2) case None => None case Some((yearText, v3)) =>
    match NextToken(v3) case None => None case Some((time, _)) =>
    match (ParseI64(dayText), MonthIndex(monthText), ParseI64(yearText), ParseClock(time))
    case (Some(day), Some(month), Some(year), Some((hour, minute, second))) =>
      var total := EpochSeconds(year, month, day, hour, minute, second);
      if total < 0 then None else Some(total)
    case _ => None
  }

  // ---- reading back what was printed ---------------------------------------

  lemma PaddedParses(n: int, width: nat)
    requires 0 <= n < I64_LIMIT && width > 0
    ensures AllDigits(Padded(n, width)) && Padded(n, width) != [] && Plain(Padded(n, width))
    ensures ParseI64(Padded(n, width)) == Some(n) && COLON !in Padded(n, width)
  {
    hide DecText, PadZeros, ParseI64;
    PadZerosNumber(DecText(n), width);
    ParseDigits(Padded(n, width));
    DigitsPlain(Padded(n, width));
  }

  lemma ClockParses(second: nat)
    requires second < 86_400
    ensures ParseClock(Clock(second)) == Some((second / 3600, second % 3600 / 60, second % 60))
    ensures Plain(Clock(second)) && Clock(second) != []
  {
    hide Padded, ParseI64, Split;
    var h, m, s := second / 3600, second % 3600 / 60, second % 60;
    PaddedParses(h, 2);
    PaddedParses(m, 2);
    PaddedParses(s, 2);
    var pieces := [Padded(h, 2), Padded(m, 2), Padded(s, 2)];
    assert pieces[1..] == [Padded(m, 2), Padded(s, 2)] && pieces[1..][1..] == [Padded(s, 2)];
    assert Join(pieces[1..][1..], COLON) == Padded(s, 2);
    assert Join(pieces[1..], COLON) == Padded(m, 2) + [COLON] + Padded(s, 2);
    assert Join(pieces, COLON) == Padded(h, 2) + [COLON] + (Padded(m, 2) + [COLON] + Padded(s, 2));
    assert Clock(second) == Join(pieces, COLON);
    SplitJoin(pieces, COLON);
  }

  lemma WeekdayPlain(weekday: int)
    ensures Plain(WeekdayName(weekday)) && COMMA !in WeekdayName(weekday)
  {
  }

  lemma MonthPlain(month: int)
    ensures Plain(MonthName(month))
  {
  }

  /** Two names differ in their second or third letter, or in the first. */
  lemma MonthNamesDiffer(j: int, k: int)
    requires 1 <= j < k <= 12
    ensures MonthName(j) != MonthName(k)
  {
    assert MonthName(j)[0] != MonthName(k)[0] || MonthName(j)[1] != MonthName(k)[1]
        || MonthName(j)[2] != MonthName(k)[2];
  }

  lemma MonthIndexOfName(month: int)
    requires 1 <= month <= 12
    ensures MonthIndex(MonthName(month)) == Some(month)
  {
    hide MonthName;
    forall j | 1 <= j < month ensures MonthName(j) != MonthName(month) {
      MonthNamesDiffer(j, month);
    }
  }

  lemma {:induction false} CommaBlankAt(s: seq<byte>, i: nat)
    requires i + 2 <= |s| && s[i] == COMMA && s[i + 1] == SPACE && COMMA !in s[..i]
    ensures CommaBlank(s) == Some(i)
  {
    if i > 0 {
      assert s[..i][0] == s[0];
      assert s[1..][..i - 1] == s[..i][1..];
      CommaBlankAt(s[1..], i - 1);
    }
  }

  /** A printed date splits into its five fields again. */
  lemma RenderedParses(d: Date, second: nat)
    requires 1 <= d.month <= 12 && 0 <= d.day < I64_LIMIT && 0 <= d.year < I64_LIMIT && second < 86_400
    ensures var total := EpochSeconds(d.year, d.month, d.day, second / 3600, second % 3600 / 60, second % 60);
      ParseHttpDate(Rendered(d, second)) == if total < 0 then None else Some(total)
  {
    hide WeekdayName, MonthName, Padded, Clock, EpochSeconds, NextToken, MonthIndex, ParseClock, ParseI64, CommaBlank,
      Trim, Trimmed, Triple;
    var text := Rendered(d, second);
    var day, month, year, clock := Padded(d.day, 2), MonthName(d.month), Padded(d.year, 4), Clock(second);
    var zone := Triple('G', 'M', 'T');
    WeekdayPlain(d.weekday);
    MonthPlain(d.month);
    MonthIndexOfName(d.month);
    PaddedParses(d.day, 2);
    PaddedParses(d.year, 4);
    ClockParses(second);
    RenderedTrimmed(d, second);
    TrimNoop(text);
    assert text[..3] == WeekdayName(d.weekday);
    CommaBlankAt(text, 3);
    var r4 := [SPACE] + zone;
    var r3 := [SPACE] + clock + r4;
    var r2 := [SPACE] + year + r3;
    var r1 := [SPACE] + month + r2;
    assert text[5..] == [] + day + r1;
    NextPlainToken([], day, r1);
    NextPlainToken([SPACE], month, r2);
    NextPlainToken([SPACE], year, r3);
    NextPlainToken([SPACE], clock, r4);
  }

  lemma RenderedTrimmed(d: Date, second: nat)
    ensures Trimmed(Rendered(d, second))
  {
    hide MonthName, Padded, Clock;
    var text := Rendered(d, second);
    var zone := Triple('G', 'M', 'T');
    assert text[|text| - 1] == zone[2] && text[|text| - 2] == zone[1] && text[|text| - 3] == zone[0];
    assert text[0] == WeekdayName(d.weekday)[0];
  }

  lemma ShiftedRanges(era: int, yoe: int, mp: int)
    requires 0 <= era < 2_000_000_000 && 0 <= yoe < 400 && 0 <= mp <= 11
    ensures (yoe + era * 400) / 400 == era
    ensures 0 <= MonthStart(mp) <= 337 && 0 <= YearStart(yoe) <= 146_097
    ensures YearStart(yoe) == yoe * 365 + yoe / 4 - yoe / 100
  {
  }

  lemma DaysOfShifted(era: int, yoe: int, mp: int, day: int)
    requires 0 <= era < 2_000_000_000 && 0 <= yoe < 400 && 0 <= mp <= 11 && 1 <= day <= 31
    ensures DaysOf(yoe + era * 400, mp, day)
         == era * 146_097 + YearStart(yoe) + MonthStart(mp) + day - 1 - 719_468
  {
    hide Wrap64, MonthStart, YearStart;
    ShiftedRanges(era, yoe, mp);
    var start, year := MonthStart(mp), YearStart(yoe);
    WrapNoop(era * 400);
    WrapNoop(yoe);
    WrapNoop(start + day);
    WrapNoop(start + day - 1);
    WrapNoop(yoe * 365);
    WrapNoop(yoe * 365 + yoe / 4);
    WrapNoop(year);
    WrapNoop(year + start + day - 1);
    WrapNoop(era * 146_097);
    WrapNoop(era * 146_097 + year + start + day - 1);
    WrapNoop(era * 146_097 + year + start + day - 1 - 719_468);
  }

  lemma MonthBack(doy: int)
    requires 0 <= doy <= 365
    ensures 0 <= MonthPart(doy) <= 11 && 1 <= doy - MonthStart(MonthPart(doy)) + 1 <= 31
  {
  }

  /** The inverse of the civil formula, as long as nothing overflows. */
  lemma CivilInverts(era: int, yoe: int, doy: int, weekday: int)
    requires 0 <= era < 2_000_000_000 && 0 <= yoe < 400 && 0 <= doy <= 365
    ensures var d := DateOf(yoe + era * 400, doy, weekday);
      && 1 <= d.month <= 12 && 1 <= d.day <= 31 && 0 <= d.year < 1_000_000_000_000
      && DaysFromCivil(d.year, d.month, d.day) == era * 146_097 + YearStart(yoe) + doy - 719_468
  {
    hide Wrap64, DaysOf, MonthStart, MonthPart, YearStart;
    MonthBack(doy);
    var mp := MonthPart(doy);
    WrapNoop(yoe + era * 400);
    DaysOfShifted(era, yoe, mp, doy - MonthStart(mp) + 1);
  }

  /** The first of March of the year 0. */
  const YEAR_ZERO: int := -719_468 * 86_400

  /** The arithmetic of the parser undoes the formula; only the last sums can overflow. */
  lemma EpochSecondsInverts(time: int)
    requires YEAR_ZERO <= time <= USIZE_MAX
    ensures var d, second := CivilFromDays(time / 86_400), time % 86_400;
      && 1 <= d.month <= 12 && 1 <= d.day <= 31 && 0 <= d.year < 1_000_000_000_000
      && EpochSeconds(d.year, d.month, d.day, second / 3600, second % 3600 / 60, second % 60) == Wrap64(time)
  {
    hide YearOfEra, Wrap64, CivilFromDays, DateOf, DaysFromCivil, YearStart;
    var days, second := time / 86_400, time % 86_400;
    var z := days + 719_468;
    var era, doe := z / 146_097, z % 146_097;
    var yoe := YearOfEra(doe);
    DayOfEra(doe);
    CivilIsDateOf(days);
    CivilInverts(era, yoe, doe - YearStart(yoe), (days % 7 + 4) % 7);
    assert era * 146_097 + doe == z;
    SumOfDay(days, second);
  }

  lemma SumOfDay(days: int, second: nat)
    requires second < 86_400
    ensures Wrap64(Wrap64(Wrap64(Wrap64(days * 86_400) + Wrap64(second / 3600 * 3600))
              + Wrap64(second % 3600 / 60 * 60)) + second % 60) == Wrap64(days * 86_400 + second)
  {
    hide Wrap64;
    var h, m, s := second / 3600, second % 3600 / 60, second % 60;
    assert second == h * 3600 + m * 60 + s;
    WrapNoop(h * 3600);
    WrapNoop(m * 60);
    WrapAdd(days * 86_400, h * 3600);
    WrapAdd(days * 86_400 + h * 3600, m * 60);
    WrapAdd(days * 86_400 + h * 3600 + m * 60, s);
  }

  /** For every time from the year 0 to the largest unsigned 64-bit one: a printed date parses to
      the time it was printed from if and only if the time is not before the epoch and below 2 to
      the 63; the others do not parse at all. */
  lemma FixdateRoundTrip(time: int)
    requires YEAR_ZERO <= time <= USIZE_MAX
    ensures ParseHttpDate(FormatImfFixdate(time)) == if 0 <= time < I64_LIMIT then Some(time) else None
  {
    hide ParseHttpDate, Rendered, EpochSeconds, CivilFromDays, Wrap64;
    EpochSecondsInverts(time);
    RenderedParses(CivilFromDays(time / 86_400), time % 86_400);
    WrapSign(time);
  }

  /** The same for the other formatter, which starts at the epoch. */
  lemma DateRoundTrip(time: nat)
    requires time <= USIZE_MAX
    ensures ParseHttpDate(HttpDateOf(time)) == if time < I64_LIMIT then Some(time) else None
  {
    hide ParseHttpDate, HttpDateOf, FormatImfFixdate;
    FormattersAgree(time);
    FixdateRoundTrip(time);
  }

  lemma WrapSign(time: int)
    requires YEAR_ZERO <= time <= USIZE_MAX
    ensures if time < I64_LIMIT then Wrap64(time) == time else Wrap64(time) < 0
  {
  }

  // ---- names ---------------------------------------------------------------

  /** Weekdays are counted from Sunday and months from January. */
  lemma NamesInOrder(weekday: nat, month: nat)
    requires weekday < 7 && 1 <= month <= 12
    ensures WeekdayName(weekday) == Ascii("SunMonTueWedThuFriSat")[3 * weekday..3 * weekday + 3]
    ensures MonthName(month) == Ascii("JanFebMarAprMayJunJulAugSepOctNovDec")[3 * month - 3..3 * month]
  {
    WeekdayLetters(weekday);
    MonthLetters(month);
  }

  lemma WeekdayLetters(weekday: nat)
    requires weekday < 7
    ensures WeekdayName(weekday) == Ascii("SunMonTueWedThuFriSat")[3 * weekday..3 * weekday + 3]
  {
    var names := "SunMonTueWedThuFriSat";
    var at := 3 * weekday;
    assert WeekdayName(weekday) == Triple(names[at], names[at + 1], names[at + 2]);
  }

  lemma MonthLetters(month: nat)
    requires 1 <= month <= 12
    ensures MonthName(month) == Ascii("JanFebMarAprMayJunJulAugSepOctNovDec")[3 * month - 3..3 * month]
  {
    var names := "JanFebMarAprMayJunJulAugSepOctNovDec";
    var at := 3 * month - 3;
    if month <= 6 {
      EarlyMonth(names, month);
    } else {
      LateMonth(names, month);
    }
    hide MonthName;
    assert Ascii(names)[at..at + 3] == Triple(names[at], names[at + 1], names[at + 2]);
  }

  lemma EarlyMonth(names: string, month: nat)
    requires 1 <= month <= 6 && names == "JanFebMarAprMayJunJulAugSepOctNovDec"
    ensures MonthName(month) == Triple(names[3 * month - 3], names[3 * month - 2], names[3 * month - 1])
  {
  }

  lemma LateMonth(names: string, month: nat)
    requires 7 <= month <= 12 && names == "JanFebMarAprMayJunJulAugSepOctNovDec"
    ensures MonthName(month) == Triple(names[3 * month - 3], names[3 * month - 2], names[3 * month - 1])
  {
  }

  // ---- what the parser overlooks -------------------------------------------

  /** Whatever stands before the first comma and blank is not looked at, nor need it be there. */
  lemma WeekdayIsOverlooked(weekday: seq<byte>, date: seq<byte>)
    requires Plain(weekday) && weekday != [] && COMMA !in weekday
    requires Trimmed(date) && date != [] && COMMA !in date
    ensures ParseHttpDate(weekday + [COMMA, SPACE] + date) == ParseHttpDate(date)
  {
    hide NextToken, EpochSeconds, MonthIndex, ParseClock, ParseI64, CommaBlank, Trim, Trimmed;
    var text := weekday + [COMMA, SPACE] + date;
    TextTrimmed(weekday, date);
    TrimNoop(text);
    TrimNoop(date);
    assert text[..|weekday|] == weekday && text[|weekday| + 2..] == date;
    CommaBlankAt(text, |weekday|);
    NoCommaBlank(date);
  }

  lemma TextTrimmed(weekday: seq<byte>, date: seq<byte>)
    requires Plain(weekday) && weekday != [] && Trimmed(date) && date != []
    ensures Trimmed(weekday + [COMMA, SPACE] + date)
  {
    var text := weekday + [COMMA, SPACE] + date;
    assert text[0] == weekday[0];
    assert text[|text| - 1] == date[|date| - 1];
    assert text[|text| - 2] == if |date| >= 2 then date[|date| - 2] else SPACE;
    assert text[|text| - 3] == if |date| >= 3 then date[|date| - 3] else if |date| == 2 then SPACE else COMMA;
  }

  lemma {:induction false} NoCommaBlank(s: seq<byte>)
    requires COMMA !in s
    ensures CommaBlank(s) == None
  {
    if |s| >= 2 {
      assert s[0] in s;
      NoCommaBlank(s[1..]);
    }
  }
}
