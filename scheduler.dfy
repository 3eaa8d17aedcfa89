/**
 * scheduler.py: parsing "%Y-%m-%d %H:%M" as a wall-clock time in Asia/Seoul,
 * and registering a one-shot job whose delay is max(target - now, 0) seconds.
 */
module Scheduler {
  import opened Wrappers
  import opened PyText

  /**
   * A datetime's `tzinfo`: none (a naive datetime), or a zone named by its key
   * with its offset from UTC in seconds.
   */
  datatype TzInfo = Naive | Zone(key: string, utcOffset: int)

  /** `ASIA_SEOUL`: Korea Standard Time, nine hours ahead of UTC. */
  const AsiaSeoul := Zone("Asia/Seoul", 9 * 3600)

  /** A datetime: wall-clock fields plus the attached `tzinfo`. */
  datatype DateTime = DateTime(year: int, month: int, day: int, hour: int, minute: int, second: int, zone: TzInfo)

  predicate IsLeap(y: int)
  {
    y % 4 == 0 && (y % 100 != 0 || y % 400 == 0)
  }

  function DaysInMonth(y: int, m: int): int
    requires 1 <= m <= 12
  {
    if m == 2 then (if IsLeap(y) then 29 else 28)
    else if m == 4 || m == 6 || m == 9 || m == 11 then 30
    else 31
  }

  /** The range a Python `date` accepts (MINYEAR 1, MAXYEAR 9999). */
  predicate ValidDate(y: int, m: int, d: int)
  {
    1 <= y <= 9999 && 1 <= m <= 12 && 1 <= d <= DaysInMonth(y, m)
  }

  predicate ValidDateTime(t: DateTime)
  {
    ValidDate(t.year, t.month, t.day) && 0 <= t.hour <= 23 && 0 <= t.minute <= 59 && 0 <= t.second <= 59
  }

  // ---------------------------------------------------------------------------
  // parse_schedule_time: datetime.strptime(text, "%Y-%m-%d %H:%M").replace(tzinfo=ASIA_SEOUL)
  //
  // strptime compiles the format to the regular expression
  //   (\d\d\d\d) - (1[0-2]|0[1-9]|[1-9]) - (3[01]|[12]\d|0[1-9]|[1-9]| [1-9]) \s+
  //   (2[0-3]|[0-1]\d|\d) : ([0-5]\d|\d)
  // matches it at the start of the text, rejects text left over after the
  // match, and then builds the date, which rejects a day past the month's end.
  // ---------------------------------------------------------------------------

  datatype TimeError =
    | FormatMismatch               // "time data ... does not match format ..."
    | UnconvertedData(rest: string) // "unconverted data remains: ..."
    | DateOutOfRange               // "day is out of range for month", "year 0 is out of range"

  predicate IsDigit(c: char)
  {
    '0' <= c <= '9'
  }

  /** The value of a digit character. */
  function DigitValue(c: char): int
  {
    c as int - '0' as int
  }

  predicate AllDigits(t: string)
  {
    forall i :: 0 <= i < |t| ==> IsDigit(t[i])
  }

  /** The value of a one- or two-digit field. */
  function FieldValue(t: string): int
    requires |t| == 1 || |t| == 2
  {
    if |t| == 1 then DigitValue(t[0]) else 10 * DigitValue(t[0]) + DigitValue(t[1])
  }

  /** The value of the four-digit year field. */
  function YearValue(t: string): int
    requires |t| == 4
  {
    1000 * DigitValue(t[0]) + 100 * DigitValue(t[1]) + 10 * DigitValue(t[2]) + DigitValue(t[3])
  }

  /** Number of digits in `s` from position `p` on. */
  function DigitRun(s: string, p: nat): (n: nat)
    requires p <= |s|
    ensures p + n <= |s|
    ensures forall i :: p <= i < p + n ==> IsDigit(s[i])
    ensures p + n == |s| || !IsDigit(s[p + n])
    decreases |s| - p
  {
    if p < |s| && IsDigit(s[p]) then 1 + DigitRun(s, p + 1) else 0
  }

  /** Number of whitespace characters in `s` from position `p` on (the `\s+` of the pattern). */
  function SpaceRun(s: string, p: nat): (n: nat)
    requires p <= |s|
    ensures p + n <= |s|
    ensures forall i :: p <= i < p + n ==> IsSpace(s[i])
    ensures p + n == |s| || !IsSpace(s[p + n])
    decreases |s| - p
  {
    if p < |s| && IsSpace(s[p]) then 1 + SpaceRun(s, p + 1) else 0
  }

  /** A run of digits that ends at `q` is the whole run `DigitRun` counts. */
  lemma DigitRunEnds(s: string, p: nat, q: nat)
    requires p <= q <= |s| && AllDigits(s[p..q]) && (q == |s| || !IsDigit(s[q]))
    ensures DigitRun(s, p) == q - p
  {
    assert forall i :: p <= i < q ==> s[i] == s[p..q][i - p];
  }

  /** A run of whitespace that ends at `q` is the whole run `SpaceRun` counts. */
  lemma SpaceRunEnds(s: string, p: nat, q: nat)
    requires p <= q <= |s| && AllSpace(s[p..q]) && (q == |s| || !IsSpace(s[q]))
    ensures SpaceRun(s, p) == q - p
  {
    assert forall i :: p <= i < q ==> s[i] == s[p..q][i - p];
  }

  /** `1[0-2]|0[1-9]|[1-9]` */
  predicate MonthToken(t: string)
  {
    (|t| == 1 && '1' <= t[0] <= '9')
    || (|t| == 2 && ((t[0] == '1' && '0' <= t[1] <= '2') || (t[0] == '0' && '1' <= t[1] <= '9')))
  }

  /** The digit forms of the day: `3[01]|[12]\d|0[1-9]|[1-9]` (the ` [1-9]` form is in MatchDay). */
  predicate DayToken(t: string)
  {
    (|t| == 1 && '1' <= t[0] <= '9')
    || (|t| == 2 && ((t[0] == '3' && '0' <= t[1] <= '1') || ('1' <= t[0] <= '2' && IsDigit(t[1]))
                     || (t[0] == '0' && '1' <= t[1] <= '9')))
  }

  /** `2[0-3]|[0-1]\d|\d` */
  predicate HourToken(t: string)
  {
    (|t| == 1 && IsDigit(t[0]))
    || (|t| == 2 && ((t[0] == '2' && '0' <= t[1] <= '3') || ('0' <= t[0] <= '1' && IsDigit(t[1]))))
  }

  /**
   * `[0-5]\d|\d` at `q`, ending at `end`: the two-digit alternative is tried
   * first, and whatever follows the minute is left unconverted.
   */
  predicate MinuteAt(s: string, q: nat, end: nat)
  {
    var twoDigits := q + 1 < |s| && '0' <= s[q] <= '5' && IsDigit(s[q + 1]);
    (twoDigits && end == q + 2) || (!twoDigits && q < |s| && IsDigit(s[q]) && end == q + 1)
  }

  /** `(\d\d\d\d)-(1[0-2]|0[1-9]|[1-9])-` at the start of `s`, the second dash at `monthEnd`. */
  predicate YearMonthMatch(s: string, monthEnd: nat)
  {
    5 < monthEnd < |s| && AllDigits(s[..4]) && s[4] == '-' && MonthToken(s[5..monthEnd]) && s[monthEnd] == '-'
  }

  /**
   * `\s+(2[0-3]|[0-1]\d|\d):([0-5]\d|\d)` from `p` to `end`: whitespace up to
   * `hourStart`, the hour up to the colon at `hourEnd`, then the minute.
   */
  predicate TimeMatch(s: string, p: nat, hourStart: nat, hourEnd: nat, end: nat)
  {
    p < hourStart < hourEnd < end <= |s| && AllSpace(s[p..hourStart]) && HourToken(s[hourStart..hourEnd])
    && s[hourEnd] == ':' && MinuteAt(s, hourEnd + 1, end)
  }

  /**
   * `3[01]|[12]\d|0[1-9]|[1-9]| [1-9]` at `p`, ending at `end`, read as `day`.
   * In a whole match whitespace follows the day, so a day of digits is the
   * whole run of digits there.
   */
  predicate DayMatch(s: string, p: nat, end: nat, day: int)
  {
    p < end <= |s|
    && ((s[p] == ' ' && end == p + 2 && '1' <= s[p + 1] <= '9' && day == DigitValue(s[p + 1]))
        || (DayToken(s[p..end]) && day == FieldValue(s[p..end]) && (end == |s| || !IsDigit(s[end]))))
  }

  /** The fields the pattern captured and where the match ends. */
  datatype Fields = Fields(year: int, month: int, day: int, hour: int, minute: int, end: nat)

  /**
   * The day field starting at `p`, with the position after it. Every field is
   * followed by a separator that is not a digit, so a digit field is the whole
   * run of digits.
   */
  function MatchDay(s: string, p: nat): (r: Option<(int, nat)>)
    requires p <= |s|
    ensures r.Some? ==> DayMatch(s, p, r.value.1, r.value.0)
    ensures r.Some? ==> 1 <= r.value.0 <= 31 && p < r.value.1 <= |s|
  {
    if p < |s| && s[p] == ' ' then
      if p + 1 < |s| && '1' <= s[p + 1] <= '9' then Some((DigitValue(s[p + 1]), p + 2)) else None
    else
      var n := DigitRun(s, p);
      if DayToken(s[p..p + n]) then Some((FieldValue(s[p..p + n]), p + n)) else None
  }

  /** `[0-5]\d|\d`, tried in that order; whatever follows is left unconverted. */
  function MatchMinute(s: string, p: nat): (r: Option<(int, nat)>)
    requires p <= |s|
    ensures r.Some? <==> p < |s| && IsDigit(s[p])
    ensures r.Some? ==> MinuteAt(s, p, r.value.1) && r.value.0 == FieldValue(s[p..r.value.1])
    ensures r.Some? ==> 0 <= r.value.0 <= 59 && p < r.value.1 <= |s|
  {
    if p + 1 < |s| && '0' <= s[p] <= '5' && IsDigit(s[p + 1]) then Some((FieldValue(s[p..p + 2]), p + 2))
    else if p < |s| && IsDigit(s[p]) then Some((DigitValue(s[p]), p + 1))
    else None
  }

  /** `(\d\d\d\d)-(1[0-2]|0[1-9]|[1-9])-` at the start: year, month and where the day starts. */
  function MatchYearMonth(s: string): (r: Option<(int, int, nat)>)
    ensures r.Some? ==> var (year, month, dayStart) := r.value;
      && 6 < dayStart <= |s| && YearMonthMatch(s, dayStart - 1)
      && year == YearValue(s[..4]) && month == FieldValue(s[5..dayStart - 1])
    ensures r.Some? ==> 0 <= r.value.0 <= 9999 && 1 <= r.value.1 <= 12
  {
    if |s| < 5 || !AllDigits(s[..4]) || s[4] != '-' then None
    else
      var year := YearValue(s[..4]);
      var monthEnd := 5 + DigitRun(s, 5);
      if !MonthToken(s[5..monthEnd]) || monthEnd == |s| || s[monthEnd] != '-' then None
      else Some((year, FieldValue(s[5..monthEnd]), monthEnd + 1))
  }

  /** `\s+(2[0-3]|[0-1]\d|\d):([0-5]\d|\d)` from `p`: hour, minute and where the match ends. */
  function MatchTime(s: string, p: nat): (r: Option<(int, int, nat)>)
    requires p <= |s|
    ensures r.Some? ==> p < |s| && IsSpace(s[p])
    ensures r.Some? ==> var (hour, minute, end) := r.value;
      exists hourStart: nat, hourEnd: nat :: TimeMatch(s, p, hourStart, hourEnd, end)
        && hour == FieldValue(s[hourStart..hourEnd]) && minute == FieldValue(s[hourEnd + 1..end])
    ensures r.Some? ==> 0 <= r.value.0 <= 23 && 0 <= r.value.1 <= 59 && p < r.value.2 <= |s|
  {
    var hourStart := p + SpaceRun(s, p);
    var hourEnd := hourStart + DigitRun(s, hourStart);
    if hourStart == p || !HourToken(s[hourStart..hourEnd]) || hourEnd == |s| || s[hourEnd] != ':' then None
    else
      match MatchMinute(s, hourEnd + 1)
      case None => None
      case Some((minute, end)) => Some((FieldValue(s[hourStart..hourEnd]), minute, end))
  }

  /** Whenever `%Y-%m-` matches the start of `s`, MatchYearMonth finds that match. */
  lemma YearMonthFound(s: string, monthEnd: nat)
    requires YearMonthMatch(s, monthEnd)
    ensures MatchYearMonth(s) == Some((YearValue(s[..4]), FieldValue(s[5..monthEnd]), monthEnd + 1))
  {
    assert AllDigits(s[5..monthEnd]);
    DigitRunEnds(s, 5, monthEnd);
  }

  /** Whenever ` %H:%M` matches from `p`, MatchTime finds that match. */
  lemma TimeMatchFound(s: string, p: nat, hourStart: nat, hourEnd: nat, end: nat)
    requires TimeMatch(s, p, hourStart, hourEnd, end)
    ensures MatchTime(s, p) == Some((FieldValue(s[hourStart..hourEnd]), FieldValue(s[hourEnd + 1..end]), end))
  {
    assert IsDigit(s[hourStart]) by {
      assert s[hourStart..hourEnd][0] == s[hourStart];
    }
    SpaceRunEnds(s, p, hourStart);
    assert AllDigits(s[hourStart..hourEnd]);
    DigitRunEnds(s, hourStart, hourEnd);
    MinuteFound(s, hourEnd + 1, end);
    TimeAtRuns(s, p, hourStart, hourEnd, FieldValue(s[hourEnd + 1..end]), end);
  }

  /** MatchTime read step by step: the whitespace run, the hour run, the colon, then the minute. */
  lemma TimeAtRuns(s: string, p: nat, hourStart: nat, hourEnd: nat, minute: int, end: nat)
    requires p < hourStart <= hourEnd < |s| && p + SpaceRun(s, p) == hourStart
    requires hourStart + DigitRun(s, hourStart) == hourEnd
    requires HourToken(s[hourStart..hourEnd]) && s[hourEnd] == ':'
    requires MatchMinute(s, hourEnd + 1) == Some((minute, end))
    ensures MatchTime(s, p) == Some((FieldValue(s[hourStart..hourEnd]), minute, end))
  {
    var r := MatchTime(s, p);
    assert r == match MatchMinute(s, hourEnd + 1)
      case None => None
      case Some((m, e)) => Some((FieldValue(s[hourStart..hourEnd]), m, e));
    assert r.Some?;
    assert r.value.0 == FieldValue(s[hourStart..hourEnd]);
    assert r.value.1 == minute;
  }

  /** Whatever `[0-5]\d|\d` matches at `q`, MatchMinute reads. */
  lemma MinuteFound(s: string, q: nat, end: nat)
    requires q <= |s| && MinuteAt(s, q, end)
    ensures MatchMinute(s, q) == Some((FieldValue(s[q..end]), end))
  {
  }

  /** Whenever the day pattern matches at `p`, MatchDay finds that match. */
  lemma DayFound(s: string, p: nat, end: nat, day: int)
    requires DayMatch(s, p, end, day)
    ensures MatchDay(s, p) == Some((day, end))
  {
    if s[p] != ' ' {
      assert AllDigits(s[p..end]);
      DigitRunEnds(s, p, end);
    }
  }

  /** The anchored match of the pattern against `s`, if there is one. */
  function MatchFormat(s: string): (r: Option<Fields>)
    ensures r.Some? ==> r.value.end <= |s|
    ensures r.Some? ==> 1 <= r.value.month <= 12 && 1 <= r.value.day <= 31
    ensures r.Some? ==> 0 <= r.value.hour <= 23 && 0 <= r.value.minute <= 59 && 0 <= r.value.year <= 9999
  {
    match MatchYearMonth(s)
    case None => None
    case Some((year, month, dayStart)) =>
      match MatchDay(s, dayStart)
      case None => None
      case Some((day, dayEnd)) =>
        match MatchTime(s, dayEnd)
        case None => None
        case Some((hour, minute, end)) => Some(Fields(year, month, day, hour, minute, end))
  }

  /**
   * `parse_schedule_time(text)`. On success the fields are the ones written,
   * seconds are zero and the Asia/Seoul zone is attached without conversion.
   */
  function ParseScheduleTime(text: string): (r: Result<DateTime, TimeError>)
    ensures r.Success? ==> ValidDateTime(r.value) && r.value.zone == AsiaSeoul && r.value.second == 0
  {
    match MatchFormat(text)
    case None => Failure(FormatMismatch)
    case Some(f) =>
      if f.end < |text| then Failure(UnconvertedData(text[f.end..]))
      else if !ValidDate(f.year, f.month, f.day) then Failure(DateOutOfRange)
      else Success(DateTime(f.year, f.month, f.day, f.hour, f.minute, 0, AsiaSeoul))
  }

  /**
   * The whole of `s` matches the pattern: the second dash at `monthEnd`, the
   * day up to `dayEnd`, the hour from `hourStart` to the colon at `hourEnd`,
   * and the minute up to the end of the text; `t` holds the fields as written,
   * with zero seconds and the Asia/Seoul zone.
   */
  predicate Written(s: string, monthEnd: nat, dayEnd: nat, hourStart: nat, hourEnd: nat, t: DateTime)
  {
    && YearMonthMatch(s, monthEnd)
    && DayMatch(s, monthEnd + 1, dayEnd, t.day)
    && TimeMatch(s, dayEnd, hourStart, hourEnd, |s|)
    && t == DateTime(YearValue(s[..4]), FieldValue(s[5..monthEnd]), t.day,
                     FieldValue(s[hourStart..hourEnd]), FieldValue(s[hourEnd + 1..]), 0, AsiaSeoul)
  }

  /**
   * Every text the pattern matches as a whole, in any of its forms (one-digit
   * and space-padded fields, any run of whitespace), parses to the fields
   * written, or is rejected because that day does not exist.
   */
  lemma ParseWritten(s: string, monthEnd: nat, dayEnd: nat, hourStart: nat, hourEnd: nat, t: DateTime)
    requires Written(s, monthEnd, dayEnd, hourStart, hourEnd, t)
    ensures ParseScheduleTime(s) == if ValidDate(t.year, t.month, t.day) then Success(t) else Failure(DateOutOfRange)
  {
    YearMonthFound(s, monthEnd);
    assert MatchYearMonth(s) == Some((t.year, t.month, monthEnd + 1));
    DayFound(s, monthEnd + 1, dayEnd, t.day);
    TimeMatchFound(s, dayEnd, hourStart, hourEnd, |s|);
    assert s[hourEnd + 1..|s|] == s[hourEnd + 1..];
    assert MatchTime(s, dayEnd) == Some((t.hour, t.minute, |s|));
    assert MatchFormat(s) == Some(Fields(t.year, t.month, t.day, t.hour, t.minute, |s|));
  }

  /** A parsed time is the fields written in a text the pattern matches as a whole. */
  lemma ParseAccepted(s: string)
    requires ParseScheduleTime(s).Success?
    ensures exists monthEnd: nat, dayEnd: nat, hourStart: nat, hourEnd: nat ::
      Written(s, monthEnd, dayEnd, hourStart, hourEnd, ParseScheduleTime(s).value)
  {
    var t := ParseScheduleTime(s).value;
    assert MatchFormat(s).Some?;
    var (year, month, dayStart) := MatchYearMonth(s).value;
    var (day, dayEnd) := MatchDay(s, dayStart).value;
    var (hour, minute, end) := MatchTime(s, dayEnd).value;
    assert MatchFormat(s) == Some(Fields(year, month, day, hour, minute, end));
    assert end == |s|;
    assert t == DateTime(year, month, day, hour, minute, 0, AsiaSeoul);
    var hourStart: nat, hourEnd: nat :| TimeMatch(s, dayEnd, hourStart, hourEnd, end)
      && hour == FieldValue(s[hourStart..hourEnd]) && minute == FieldValue(s[hourEnd + 1..end]);
    assert s[hourEnd + 1..end] == s[hourEnd + 1..];
    assert Written(s, dayStart - 1, dayEnd, hourStart, hourEnd, t);
  }

  // ---------------------------------------------------------------------------
  // The canonical text of a time, and the round trip through the parser.
  // ---------------------------------------------------------------------------

  function Digit(n: int): (c: char)
    requires 0 <= n <= 9
    ensures IsDigit(c) && DigitValue(c) == n
  {
    ('0' as int + n) as char
  }

  function Pad2(n: int): (t: string)
    requires 0 <= n <= 99
    ensures |t| == 2 && AllDigits(t) && FieldValue(t) == n
  {
    [Digit(n / 10), Digit(n % 10)]
  }

  function Pad4(n: int): (t: string)
    requires 0 <= n <= 9999
    ensures |t| == 4 && AllDigits(t)
    ensures YearValue(t) == n
  {
    var tens := n / 10;
    var hundreds := tens / 10;
    assert n == 10 * tens + n % 10;
    assert tens == 10 * hundreds + tens % 10;
    assert hundreds == 10 * (hundreds / 10) + hundreds % 10;
    [Digit(hundreds / 10), Digit(hundreds % 10), Digit(tens % 10), Digit(n % 10)]
  }

  /** `t.strftime("%Y-%m-%d %H:%M")`. */
  function FormatTime(t: DateTime): (s: string)
    requires ValidDateTime(t)
    ensures |s| == 16
  {
    Pad4(t.year) + "-" + Pad2(t.month) + "-" + Pad2(t.day) + " " + Pad2(t.hour) + ":" + Pad2(t.minute)
  }

  /** Where each field of the canonical text sits. */
  lemma CanonicalLayout(t: DateTime, rest: string)
    requires ValidDateTime(t)
    ensures var s := FormatTime(t) + rest;
      && |s| == 16 + |rest| && s[16..] == rest
      && s[..4] == Pad4(t.year) && s[4] == '-' && s[5..7] == Pad2(t.month) && s[7] == '-'
      && s[8..10] == Pad2(t.day) && s[10] == ' ' && s[11..13] == Pad2(t.hour) && s[13] == ':'
      && s[14..16] == Pad2(t.minute)
  {
    var y, mo, d, h, mi := Pad4(t.year), Pad2(t.month), Pad2(t.day), Pad2(t.hour), Pad2(t.minute);
    var s := FormatTime(t) + rest;
    assert s == y + "-" + mo + "-" + d + " " + h + ":" + mi + rest;
    assert s[..4] == y;
    assert s[5..7] == mo;
    assert s[8..10] == d;
    assert s[11..13] == h;
    assert s[14..16] == mi;
    assert s[16..] == rest;
  }

  lemma YearMonthAt(s: string, year: int, month: int)
    requires 0 <= year <= 9999 && 1 <= month <= 12 && |s| >= 8
    requires s[..4] == Pad4(year) && s[4] == '-' && s[5..7] == Pad2(month) && s[7] == '-'
    ensures MatchYearMonth(s) == Some((year, month, 8))
  {
    assert IsDigit(s[5]) && IsDigit(s[6]) && !IsDigit(s[7]);
    assert DigitRun(s, 5) == 2;
  }

  lemma DayAt(s: string, day: int)
    requires 1 <= day <= 31 && |s| >= 11
    requires s[8..10] == Pad2(day) && s[10] == ' '
    ensures MatchDay(s, 8) == Some((day, 10))
  {
    assert IsDigit(s[8]) && IsDigit(s[9]) && !IsDigit(s[10]);
    assert DigitRun(s, 8) == 2;
  }

  lemma TimeAt(s: string, hour: int, minute: int)
    requires 0 <= hour <= 23 && 0 <= minute <= 59 && |s| >= 16
    requires s[10] == ' ' && s[11..13] == Pad2(hour) && s[13] == ':' && s[14..16] == Pad2(minute)
    ensures MatchTime(s, 10) == Some((hour, minute, 16))
  {
    assert IsSpace(s[10]) && !IsSpace(s[11]);
    assert SpaceRun(s, 10) == 1;
    assert IsDigit(s[11]) && IsDigit(s[12]) && !IsDigit(s[13]);
    assert DigitRun(s, 11) == 2;
    assert MatchMinute(s, 14) == Some((minute, 16)) by {
      assert '0' <= s[14] <= '5' && IsDigit(s[15]);
    }
  }

  /** The parser reads all five fields of the canonical text back, whatever follows it. */
  lemma MatchFormatCanonical(t: DateTime, rest: string)
    requires ValidDateTime(t)
    ensures MatchFormat(FormatTime(t) + rest) == Some(Fields(t.year, t.month, t.day, t.hour, t.minute, 16))
  {
    var s := FormatTime(t) + rest;
    CanonicalLayout(t, rest);
    YearMonthAt(s, t.year, t.month);
    DayAt(s, t.day);
    TimeAt(s, t.hour, t.minute);
  }

  /** Parsing the canonical text of a time gives that time back. */
  lemma ParseFormatRoundTrip(t: DateTime)
    requires ValidDateTime(t) && t.second == 0 && t.zone == AsiaSeoul
    ensures ParseScheduleTime(FormatTime(t)) == Success(t)
  {
    MatchFormatCanonical(t, "");
    assert FormatTime(t) + "" == FormatTime(t);
  }

  /** Anything after a complete time is unconverted data, and the whole text is rejected. */
  lemma ParseRejectsTrailingData(t: DateTime, rest: string)
    requires ValidDateTime(t) && rest != []
    ensures ParseScheduleTime(FormatTime(t) + rest) == Failure(UnconvertedData(rest))
  {
    MatchFormatCanonical(t, rest);
    assert (FormatTime(t) + rest)[16..] == rest;
  }

  // ---------------------------------------------------------------------------
  // schedule_send: delay_seconds = max((target_time - now).total_seconds(), 0)
  // ---------------------------------------------------------------------------

  /** Days before January 1 of year `y` since the proleptic Gregorian day 1 (`date.toordinal`). */
  function DaysBeforeYear(y: int): int
    requires y >= 1
  {
    var p := y - 1;
    365 * p + p / 4 - p / 100 + p / 400
  }

  /** Days of the year before the first of month `m` (the `_DAYS_BEFORE_MONTH` table of `datetime`). */
  function DaysBeforeMonth(y: int, m: int): (n: int)
    requires 1 <= m <= 12
    ensures 0 <= n <= 335
  {
    [0, 31, 59, 90, 120, 151, 181, 212, 243, 273, 304, 334][m - 1] + (if m > 2 && IsLeap(y) then 1 else 0)
  }

  /** `date(y, m, d).toordinal()`. */
  function Ordinal(y: int, m: int, d: int): int
    requires 1 <= y && 1 <= m <= 12
  {
    DaysBeforeYear(y) + DaysBeforeMonth(y, m) + d
  }

  /**
   * Seconds on the wall clock since the start of the ordinal day 0. Two times
   * attached to the same zone object subtract as wall-clock times, which is
   * what `target_time - now` does with both in ASIA_SEOUL.
   */
  function WallSeconds(t: DateTime): int
    requires ValidDateTime(t)
  {
    Ordinal(t.year, t.month, t.day) * 86400 + t.hour * 3600 + t.minute * 60 + t.second
  }

  /** Strictly earlier in calendar order: year, month, day, hour, minute, second. */
  predicate Before(a: DateTime, b: DateTime)
  {
    a.year < b.year
    || (a.year == b.year && (a.month < b.month
    || (a.month == b.month && (a.day < b.day
    || (a.day == b.day && (a.hour < b.hour
    || (a.hour == b.hour && (a.minute < b.minute
    || (a.minute == b.minute && a.second < b.second)))))))))
  }

  predicate SameWallTime(a: DateTime, b: DateTime)
  {
    a.year == b.year && a.month == b.month && a.day == b.day
    && a.hour == b.hour && a.minute == b.minute && a.second == b.second
  }

  lemma DaysBeforeYearStep(y: int)
    requires y >= 1
    ensures DaysBeforeYear(y + 1) == DaysBeforeYear(y) + (if IsLeap(y) then 366 else 365)
  {
    var p := y - 1;
    QuotientSteps(y);
    assert DaysBeforeYear(y + 1) - DaysBeforeYear(y) == 365 + (y / 4 - p / 4) - (y / 100 - p / 100) + (y / 400 - p / 400);
    DivisorChain(y);
  }

  /** A multiple of 400 is a multiple of 100, and a multiple of 100 is a multiple of 4. */
  lemma DivisorChain(y: int)
    ensures y % 400 == 0 ==> y % 100 == 0
    ensures y % 100 == 0 ==> y % 4 == 0
  {
    var q4, q100, q400 := y / 4, y / 100, y / 400;
    assert y == 4 * q4 + y % 4 && y == 100 * q100 + y % 100 && y == 400 * q400 + y % 400;
    if y % 400 == 0 {
      var k := 4 * q400 - q100;
      assert y % 100 == 100 * k;
      assert k == 0;
    }
    if y % 100 == 0 {
      var k := 25 * q100 - q4;
      assert y % 4 == 4 * k;
      assert k == 0;
    }
  }

  /** The number of multiples of 4, 100 and 400 up to `y` rises by one exactly at a multiple. */
  lemma QuotientSteps(y: int)
    requires y >= 1
    ensures y / 4 == (y - 1) / 4 + (if y % 4 == 0 then 1 else 0)
    ensures y / 100 == (y - 1) / 100 + (if y % 100 == 0 then 1 else 0)
    ensures y / 400 == (y - 1) / 400 + (if y % 400 == 0 then 1 else 0)
  {
  }

  lemma {:induction false} DaysBeforeYearMonotone(y1: int, y2: int)
    requires 1 <= y1 <= y2
    ensures DaysBeforeYear(y1) + (if y1 < y2 then 365 else 0) <= DaysBeforeYear(y2)
    decreases y2 - y1
  {
    if y1 < y2 {
      DaysBeforeYearStep(y1);
      DaysBeforeYearMonotone(y1 + 1, y2);
    }
  }

  lemma {:induction false} DaysBeforeMonthMonotone(y: int, m1: int, m2: int)
    requires 1 <= m1 <= m2 <= 12
    ensures DaysBeforeMonth(y, m1) + (if m1 < m2 then DaysInMonth(y, m1) else 0) <= DaysBeforeMonth(y, m2)
    decreases m2 - m1
  {
    if m1 < m2 {
      assert DaysBeforeMonth(y, m1 + 1) == DaysBeforeMonth(y, m1) + DaysInMonth(y, m1);
      DaysBeforeMonthMonotone(y, m1 + 1, m2);
    }
  }

  /** The last day of a year is the day before the first day of the next. */
  lemma YearEnd(y: int)
    requires y >= 1
    ensures DaysBeforeMonth(y, 12) + 31 == DaysBeforeYear(y + 1) - DaysBeforeYear(y)
  {
    DaysBeforeYearStep(y);
  }

  /** Calendar order and wall-clock seconds agree: a strictly later time has strictly more seconds. */
  lemma WallSecondsMonotone(a: DateTime, b: DateTime)
    requires ValidDateTime(a) && ValidDateTime(b) && Before(a, b)
    ensures WallSeconds(a) < WallSeconds(b)
  {
    var oa, ob := Ordinal(a.year, a.month, a.day), Ordinal(b.year, b.month, b.day);
    if a.year < b.year {
      DaysBeforeMonthMonotone(a.year, a.month, 12);
      assert DaysBeforeMonth(a.year, a.month) + a.day <= DaysBeforeMonth(a.year, 12) + 31;
      YearEnd(a.year);
      DaysBeforeYearMonotone(a.year + 1, b.year);
      assert oa < ob;
    } else if a.month < b.month {
      DaysBeforeMonthMonotone(a.year, a.month, b.month);
      assert oa < ob;
    }
  }

  /** Seconds since the ordinal epoch in UTC: the wall clock less the zone's offset. */
  function UtcSeconds(t: DateTime): int
    requires ValidDateTime(t) && t.zone.Zone?
  {
    WallSeconds(t) - t.zone.utcOffset
  }

  /**
   * `max((target - now).total_seconds(), 0)` in whole seconds, `now` being read
   * in Asia/Seoul. A target with the same zone subtracts as a wall-clock time;
   * one with another zone is compared after both are converted to UTC; a
   * naive target makes the subtraction raise `TypeError`, which is None here.
   */
  function Delay(target: DateTime, now: DateTime): (r: Option<nat>)
    requires ValidDateTime(target) && ValidDateTime(now) && now.zone == AsiaSeoul
    ensures r.None? <==> target.zone.Naive?
    ensures r.Some? && target.zone == now.zone && Before(now, target) ==>
      r.value == WallSeconds(target) - WallSeconds(now) && r.value > 0
    ensures r.Some? && target.zone == now.zone && !Before(now, target) ==> r.value == 0
  {
    if target.zone.Naive? then None
    else if target.zone == now.zone then
      if Before(now, target) then WallSecondsMonotone(now, target); Some(WallSeconds(target) - WallSeconds(now))
      else Some(0)
    else
      var gap := UtcSeconds(target) - UtcSeconds(now);
      Some(if gap > 0 then gap else 0)
  }

  /**
   * Whatever zone an aware target carries, the job fires at the target's
   * instant, or at once when that instant is not in the future.
   */
  lemma FiringTime(target: DateTime, now: DateTime)
    requires ValidDateTime(target) && ValidDateTime(now) && now.zone == AsiaSeoul && target.zone.Zone?
    ensures Delay(target, now).Some?
    ensures UtcSeconds(now) + Delay(target, now).value ==
      if UtcSeconds(target) > UtcSeconds(now) then UtcSeconds(target) else UtcSeconds(now)
  {
    if target.zone == now.zone {
      if Before(now, target) {
        WallSecondsMonotone(now, target);
      } else if !SameWallTime(now, target) {
        WallSecondsMonotone(target, now);
      }
    }
  }

  /** 10:00 in UTC is 19:00 in Seoul: from 09:00 in Seoul the job is ten hours away, not one. */
  lemma DelayAcrossZones()
    ensures Delay(DateTime(2025, 1, 1, 10, 0, 0, Zone("UTC", 0)), DateTime(2025, 1, 1, 9, 0, 0, AsiaSeoul)) == Some(36000)
  {
  }

  /** A registered `threading.Timer`: it runs `func(*args)` once, `delaySeconds` after registration. */
  datatype Job<F, A> = Job(delaySeconds: nat, func: F, args: seq<A>)

  /** The timers started so far and not modelled further (they fire on their own threads). */
  class Timers<F, A> {
    var pending: seq<Job<F, A>>

    constructor ()
      ensures pending == []
    {
      pending := [];
    }

    /**
     * `schedule_send(target_time, func, args)`, with `now` the clock reading it
     * takes. A naive target raises `TypeError` before any timer starts: the
     * result is None and nothing is registered.
     */
    method ScheduleSend(target: DateTime, func: F, args: seq<A>, now: DateTime) returns (job: Option<Job<F, A>>)
      requires ValidDateTime(target) && ValidDateTime(now) && now.zone == AsiaSeoul
      modifies this
      ensures target.zone.Naive? ==> job == None && pending == old(pending)
      ensures target.zone.Zone? ==>
        job == Some(Job(Delay(target, now).value, func, args)) && pending == old(pending) + [job.value]
    {
      var delaySeconds := Delay(target, now);
      if delaySeconds.None? {
        return None;
      }
      var started := Job(delaySeconds.value, func, args);
      pending := pending + [started];
      job := Some(started);
    }
  }
}
