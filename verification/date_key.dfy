/** The canonical day key of a log timestamp (`getCanonicalDateKey`) and the
    day number the platform's `Date` gives such a key when it reads it back. */
module DateKeys {
  import opened Wrappers
  import opened Text

  /** A calendar reading made by the platform's date parser, already shifted
      to the sheet's fixed zone (GMT+05:30). */
  datatype Moment = Moment(year: int, month: int, day: int, hour: int, minute: int)

  predicate IsLeap(y: int) {
    y % 4 == 0 && (y % 100 != 0 || y % 400 == 0)
  }

  function DaysInMonth(y: int, m: int): (n: int)
    requires 1 <= m <= 12
    ensures 28 <= n <= 31
  {
    if m == 2 then (if IsLeap(y) then 29 else 28)
    else if m == 4 || m == 6 || m == 9 || m == 11 then 30
    else 31
  }

  predicate ValidMoment(t: Moment) {
    && 0 <= t.year <= 9999
    && 1 <= t.month <= 12 && 1 <= t.day <= DaysInMonth(t.year, t.month)
    && 0 <= t.hour < 24 && 0 <= t.minute < 60
  }

  type CalendarMoment = t: Moment | ValidMoment(t) witness Moment(2000, 1, 1, 0, 0)

  /** `new Date(str)` read in GMT+05:30; `None` stands for an invalid date.
      The platform's parser is a parameter of the model, not part of it. */
  type DateParser = string -> Option<CalendarMoment>

  /** What both timestamp helpers do to a cell first: trim it, then turn
      every bullet into a space. */
  function Prepare(value: string): string {
    ReplaceChar(Trim(value), '•', ' ')
  }

  predicate IsSep(c: char) {
    c == '-' || c == '/'
  }

  /** The number of leading decimal digits of `s`, at most `max`: a greedy
      `\d{1,max}`. */
  function LeadDigits(s: string, max: nat): (n: nat)
    ensures n <= max && n <= |s|
    ensures AllDigits(s[..n])
    ensures n < max && n < |s| ==> !IsDigit(s[n])
  {
    if max == 0 || s == [] || !IsDigit(s[0]) then 0
    else
      var n := 1 + LeadDigits(s[1..], max - 1);
      assert s[..n] == [s[0]] + s[1..][..n - 1];
      n
  }

  /** A run of `n` digits followed by a non-digit (or by the end, or `n`
      being the limit) is exactly what the greedy run takes. */
  lemma {:induction false} LeadDigitsExact(s: string, max: nat, n: nat)
    requires n <= max && n <= |s| && AllDigits(s[..n])
    requires n == max || n == |s| || !IsDigit(s[n])
    ensures LeadDigits(s, max) == n
  {
    if n > 0 {
      assert IsDigit(s[..n][0]);
      assert s[1..][..n - 1] == s[..n][1..];
      LeadDigitsExact(s[1..], max - 1, n - 1);
    }
  }

  /** The three captures of `/^(\d{1,2})[-/](\d{1,2})[-/](\d{4})/`. */
  datatype DmyMatch = DmyMatch(first: string, second: string, year: string)

  /** The pattern run on `s`. Each digit run is followed by a separator or
      by the end of the pattern, so the greedy runs never need to give a
      digit back and no backtracking is modelled. */
  function MatchDmy(s: string): (r: Option<DmyMatch>)
    ensures r.Some? ==> Captures(r.value)
  {
    var a := LeadDigits(s, 2);
    if a == 0 || a >= |s| || !IsSep(s[a]) then None
    else
      var t := s[a + 1..];
      var b := LeadDigits(t, 2);
      if b == 0 || b >= |t| || !IsSep(t[b]) then None
      else
        var u := t[b + 1..];
        if LeadDigits(u, 4) < 4 then None
        else Some(DmyMatch(s[..a], t[..b], u[..4]))
  }

  /** Captures the pattern can produce: one or two digits, one or two
      digits, four digits. */
  predicate Captures(m: DmyMatch) {
    && 1 <= |m.first| <= 2 && AllDigits(m.first)
    && 1 <= |m.second| <= 2 && AllDigits(m.second)
    && |m.year| == 4 && AllDigits(m.year)
  }

  /** `s` starts with what the pattern describes, with these captures. */
  predicate DmyShape(s: string, m: DmyMatch) {
    var a := |m.first|;
    var b := |m.second|;
    && Captures(m)
    && a + b + 6 <= |s|
    && s[..a] == m.first && IsSep(s[a])
    && s[a + 1..a + 1 + b] == m.second && IsSep(s[a + 1 + b])
    && s[a + 2 + b..a + 6 + b] == m.year
  }

  /** Whatever the matcher captures, the text has that shape. */
  lemma MatchDmySound(s: string)
    ensures MatchDmy(s).Some? ==> DmyShape(s, MatchDmy(s).value)
  {
    if MatchDmy(s).Some? {
      var a := LeadDigits(s, 2);
      var t := s[a + 1..];
      var b := LeadDigits(t, 2);
      var u := t[b + 1..];
      assert t[..b] == s[a + 1..a + 1 + b];
      assert u[..4] == s[a + 2 + b..a + 6 + b];
    }
  }

  /** Whenever the text has the shape, the matcher finds exactly those
      captures: the pattern has one reading at most. */
  lemma MatchDmyComplete(s: string, m: DmyMatch)
    requires DmyShape(s, m)
    ensures MatchDmy(s) == Some(m)
  {
    var a := |m.first|;
    var b := |m.second|;
    LeadDigitsExact(s, 2, a);
    var t := s[a + 1..];
    assert t[..b] == m.second;
    LeadDigitsExact(t, 2, b);
    var u := t[b + 1..];
    assert u[..4] == m.year;
    LeadDigitsExact(u, 4, 4);
  }

  /** The month and the day: a first number above 12 can only be a day;
      otherwise the first number is the month (also when both are at most
      12). */
  function MonthDay(first: nat, second: nat): (nat, nat) {
    if first > 12 then (second, first) else (first, second)
  }

  /** The key the captures name, the month and day ordered by `MonthDay`. */
  function MatchKey(m: DmyMatch): (k: string)
    requires Captures(m)
    ensures IsKey(k)
  {
    DecimalValueSmall(m.first);
    DecimalValueSmall(m.second);
    var md := MonthDay(DecimalValue(m.first), DecimalValue(m.second));
    FormatKey(m.year, md.0, md.1)
  }

  /** A day key: four digits, a dash, two digits, a dash, two digits. */
  predicate IsKey(k: string) {
    && |k| == 10
    && AllDigits(k[..4]) && k[4] == '-'
    && AllDigits(k[5..7]) && k[7] == '-'
    && AllDigits(k[8..])
  }

  /** `${year}-${pad(month)}-${pad(day)}`. */
  function FormatKey(year: string, month: nat, day: nat): (k: string)
    requires |year| == 4 && AllDigits(year) && month < 100 && day < 100
    ensures IsKey(k)
  {
    var k := year + "-" + Pad2(month) + "-" + Pad2(day);
    assert k[..4] == year && k[5..7] == Pad2(month) && k[8..] == Pad2(day);
    k
  }

  datatype KeyFields = KeyFields(year: string, month: nat, day: nat)

  /** The fields a key spells, read back. */
  function Fields(k: string): KeyFields
    requires IsKey(k)
  {
    KeyFields(k[..4], DecimalValue(k[5..7]), DecimalValue(k[8..]))
  }

  /** Reading a key back gives the fields it was made from. */
  lemma FieldsOfFormat(year: string, month: nat, day: nat)
    requires |year| == 4 && AllDigits(year) && month < 100 && day < 100
    ensures Fields(FormatKey(year, month, day)) == KeyFields(year, month, day)
  {
    var k := FormatKey(year, month, day);
    assert k[..4] == year && k[5..7] == Pad2(month) && k[8..] == Pad2(day);
  }

  /** Every key is the format of its own fields. */
  lemma FormatOfFields(k: string)
    requires IsKey(k)
    ensures Fields(k).month < 100 && Fields(k).day < 100
    ensures FormatKey(Fields(k).year, Fields(k).month, Fields(k).day) == k
  {
    Pad2OfDigits(k[5..7]);
    Pad2OfDigits(k[8..]);
    assert k == k[..4] + "-" + k[5..7] + "-" + k[8..];
  }

  /** `String(year)` for the four-digit years the platform formats. */
  function Pad4(n: nat): (r: string)
    requires n < 10000
    ensures |r| == 4 && AllDigits(r)
    ensures DecimalValue(r) == n
  {
    var r := [DigitChar(n / 1000), DigitChar(n / 100 % 10), DigitChar(n / 10 % 10), DigitChar(n % 10)];
    DecimalValueFour(r);
    FourDigits(n);
    r
  }

  lemma FourDigits(n: nat)
    requires n < 10000
    ensures (n / 1000) * 1000 + (n / 100 % 10) * 100 + (n / 10 % 10) * 10 + n % 10 == n
  {
    assert n == (n / 10) * 10 + n % 10;
    assert n / 10 == (n / 100) * 10 + n / 10 % 10;
    assert n / 100 == (n / 1000) * 10 + n / 100 % 10;
  }

  lemma DecimalValueFour(s: string)
    requires AllDigits(s) && |s| == 4
    ensures DecimalValue(s) == DigitValue(s[0]) * 1000 + DigitValue(s[1]) * 100 + DigitValue(s[2]) * 10 + DigitValue(s[3])
  {
    var a := s[..2];
    DecimalValueTwo(a);
    assert s[..3][..2] == a;
    assert s[..|s| - 1] == s[..3];
  }

  lemma DecimalValueSmall(s: string)
    requires AllDigits(s) && |s| <= 2
    ensures DecimalValue(s) < 100
  {
    if |s| == 2 {
      DecimalValueTwo(s);
    } else if |s| == 1 {
      assert s[..0] == [];
    }
  }

  /** `getCanonicalDateKey`. `None` stands for both values the source
      returns when there is no key (`""` for an empty cell, `null` when
      nothing parses); every caller treats the two alike. */
  function DateKey(value: string, parse: DateParser): (r: Option<string>)
    ensures r.Some? ==> IsKey(r.value)
    ensures value == "" ==> r == None
  {
    if value == "" then None
    else
      var s := Prepare(value);
      match MatchDmy(s)
      case Some(m) => Some(MatchKey(m))
      case None =>
        match parse(s)
        case Some(t) => Some(FormatKey(Pad4(t.year), t.month, t.day))
        case None => None
  }

  /** Preparing a text keeps its first `n` characters when they hold no
      bullet and the text starts and ends those characters with a
      non-space. */
  lemma PreparePrefix(value: string, n: nat)
    requires 1 <= n <= |value|
    requires !IsSpace(value[0]) && !IsSpace(value[n - 1])
    requires forall i :: 0 <= i < n ==> value[i] != '•'
    ensures |Prepare(value)| >= n && Prepare(value)[..n] == value[..n]
  {
    var t := Trim(value);
    assert TrimStart(value) == value;
    assert |t| >= n;
  }

  /** A text without a bullet that neither starts nor ends with white space
      is already prepared. */
  lemma PreparedAlready(value: string)
    requires value == [] || (!IsSpace(value[0]) && !IsSpace(value[|value| - 1]))
    requires forall i :: 0 <= i < |value| ==> value[i] != '•'
    ensures Prepare(value) == value
  {
    TrimOfTrimmed(value);
  }

  lemma ShapeSurvivesPrepare(value: string, m: DmyMatch)
    requires DmyShape(value, m)
    ensures DmyShape(Prepare(value), m)
  {
    var n := |m.first| + |m.second| + 6;
    ShapeHasNoBullet(value, m);
    PreparePrefix(value, n);
    ShapeOfPrefix(value, Prepare(value), m);
  }

  /** The characters the pattern covers are digits and separators: no
      bullet, and white space at neither end. */
  lemma ShapeHasNoBullet(value: string, m: DmyMatch)
    requires DmyShape(value, m)
    ensures var n := |m.first| + |m.second| + 6;
      && (forall i :: 0 <= i < n ==> value[i] != '•')
      && !IsSpace(value[0]) && !IsSpace(value[n - 1])
  {
    var a := |m.first|;
    var b := |m.second|;
    var n := a + b + 6;
    forall i | 0 <= i < n
      ensures value[i] != '•'
    {
      if i < a {
        assert value[i] == m.first[i];
      } else if a < i < a + 1 + b {
        assert value[i] == m.second[i - a - 1];
      } else if a + 1 + b < i {
        assert value[i] == m.year[i - a - 2 - b];
      }
    }
    assert value[0] == m.first[0];
    assert value[n - 1] == m.year[3];
  }

  /** The shape depends only on the characters it covers. */
  lemma ShapeOfPrefix(s: string, p: string, m: DmyMatch)
    requires DmyShape(s, m)
    requires var n := |m.first| + |m.second| + 6; |p| >= n && p[..n] == s[..n]
    ensures DmyShape(p, m)
  {
    var a := |m.first|;
    var b := |m.second|;
    var n := a + b + 6;
    assert p[..a] == p[..n][..a] && s[..a] == s[..n][..a];
    assert p[a] == p[..n][a] && s[a] == s[..n][a];
    assert p[a + 1..a + 1 + b] == p[..n][a + 1..a + 1 + b] && s[a + 1..a + 1 + b] == s[..n][a + 1..a + 1 + b];
    assert p[a + 1 + b] == p[..n][a + 1 + b] && s[a + 1 + b] == s[..n][a + 1 + b];
    assert p[a + 2 + b..n] == p[..n][a + 2 + b..n] && s[a + 2 + b..n] == s[..n][a + 2 + b..n];
  }

  /** A text with the shape still has it once prepared, so the matcher
      finds it. */
  lemma MatchOfShape(value: string, m: DmyMatch)
    requires DmyShape(value, m)
    ensures value != "" && MatchDmy(Prepare(value)) == Some(m)
  {
    ShapeSurvivesPrepare(value, m);
    MatchDmyComplete(Prepare(value), m);
  }

  /** The key of a text the pattern fits comes from the captures alone. */
  lemma KeyOfMatch(value: string, m: DmyMatch, parse: DateParser)
    requires value != "" && MatchDmy(Prepare(value)) == Some(m)
    ensures Captures(m) && DateKey(value, parse) == Some(MatchKey(m))
  {
  }

  /** A text that starts `first/second/year` with a first number of at most
      12 reads month first, whatever follows and whatever the platform
      parser would say. */
  lemma MonthFirstKey(value: string, m: DmyMatch, parse: DateParser)
    requires DmyShape(value, m) && DecimalValue(m.first) <= 12
    ensures DecimalValue(m.second) < 100
    ensures DateKey(value, parse) == Some(FormatKey(m.year, DecimalValue(m.first), DecimalValue(m.second)))
  {
    MatchOfShape(value, m);
    KeyOfMatch(value, m, parse);
    DecimalValueSmall(m.first);
    DecimalValueSmall(m.second);
  }

  /** A first number above 12 is read as the day, and the second number as
      the month. */
  lemma DayFirstKey(value: string, m: DmyMatch, parse: DateParser)
    requires DmyShape(value, m) && DecimalValue(m.first) > 12
    ensures DecimalValue(m.first) < 100 && DecimalValue(m.second) < 100
    ensures DateKey(value, parse) == Some(FormatKey(m.year, DecimalValue(m.second), DecimalValue(m.first)))
  {
    MatchOfShape(value, m);
    KeyOfMatch(value, m, parse);
    DecimalValueSmall(m.first);
    DecimalValueSmall(m.second);
  }

  /** A text the pattern does not fit gets its key from the platform parser
      alone: the key of the date the parser reads, or none. */
  lemma FallbackKey(value: string, parse: DateParser)
    requires value != "" && MatchDmy(Prepare(value)) == None
    ensures parse(Prepare(value)).None? ==> DateKey(value, parse) == None
    ensures parse(Prepare(value)).Some? ==>
      var t := parse(Prepare(value)).value;
      DateKey(value, parse).Some? &&
      Fields(DateKey(value, parse).value) == KeyFields(Pad4(t.year), t.month, t.day)
  {
    if parse(Prepare(value)).Some? {
      var t := parse(Prepare(value)).value;
      FieldsOfFormat(Pad4(t.year), t.month, t.day);
    }
  }

  /** A key itself never fits the day-month-year pattern (its first run of
      digits is followed by a third digit)... */
  lemma KeyIsNotDmy(k: string)
    requires IsKey(k)
    ensures MatchDmy(k) == None
  {
    assert IsDigit(k[..4][0]) && IsDigit(k[..4][1]) && IsDigit(k[..4][2]);
  }

  /** ... so a key keys to itself exactly when the platform parser reads it
      as the day it names. */
  lemma KeyOfKey(k: string, parse: DateParser)
    requires IsKey(k)
    requires parse(k).Some? && Pad4(parse(k).value.year) == Fields(k).year
    requires parse(k).value.month == Fields(k).month && parse(k).value.day == Fields(k).day
    ensures DateKey(k, parse) == Some(k)
  {
    assert IsDigit(k[0]) by { assert k[0] == k[..4][0]; }
    assert IsDigit(k[9]) by { assert k[9] == k[8..][1]; }
    forall i | 0 <= i < |k|
      ensures k[i] != '•'
    {
      if i < 4 {
        assert k[i] == k[..4][i];
      } else if 4 < i < 7 {
        assert k[i] == k[5..7][i - 5];
      } else if 7 < i {
        assert k[i] == k[8..][i - 8];
      }
    }
    PreparePrefix(k, 10);
    assert Prepare(k) == k;
    KeyIsNotDmy(k);
    FormatOfFields(k);
  }

  // ---------------------------------------------------------------------
  // Reading a key back: `new Date("YYYY-MM-DD")`.

  /** Leap years in [0, y). */
  function LeapsBefore(y: nat): int {
    (y + 3) / 4 - (y + 99) / 100 + (y + 399) / 400
  }

  /** Days from 0000-01-01 to the first of January of year `y`. */
  function DaysBeforeYear(y: nat): int {
    365 * y + LeapsBefore(y)
  }

  function YearLength(y: int): int {
    if IsLeap(y) then 366 else 365
  }

  /** Days from the first of January to the first of month `m`. */
  function DaysBeforeMonth(y: int, m: int): (n: int)
    requires 1 <= m <= 12
    ensures n >= 0
  {
    if m == 1 then 0 else DaysBeforeMonth(y, m - 1) + DaysInMonth(y, m - 1)
  }

  /** The day a date denotes, counted from 0000-01-01. A day past the end
      of its month (at most 31) runs on into the next month, as the
      platform's `Date` does. */
  function DayNumber(y: nat, m: int, d: int): int
    requires 1 <= m <= 12
  {
    DaysBeforeYear(y) + DaysBeforeMonth(y, m) + d - 1
  }

  /** `new Date(key)` as a day, or `None` for an invalid date: the month
      must be 1 to 12 and the day 1 to 31. Only the key form is modelled,
      because only keys are ever read back. */
  function ParseDay(k: string): (r: Option<int>)
    ensures r.Some? <==> IsKey(k) && 1 <= Fields(k).month <= 12 && 1 <= Fields(k).day <= 31
  {
    if !IsKey(k) then None
    else
      var f := Fields(k);
      if 1 <= f.month <= 12 && 1 <= f.day <= 31 then Some(DayNumber(DecimalValue(f.year), f.month, f.day))
      else None
  }

  /** `new Date(a) > new Date(b)`: false whenever either date is invalid. */
  predicate Later(a: string, b: string) {
    ParseDay(a).Some? && ParseDay(b).Some? && ParseDay(a).value > ParseDay(b).value
  }

  lemma Step4(y: nat)
    ensures (y + 4) / 4 - (y + 3) / 4 == (if y % 4 == 0 then 1 else 0)
  {
  }

  lemma Step100(y: nat)
    ensures (y + 100) / 100 - (y + 99) / 100 == (if y % 100 == 0 then 1 else 0)
  {
  }

  lemma Step400(y: nat)
    ensures (y + 400) / 400 - (y + 399) / 400 == (if y % 400 == 0 then 1 else 0)
  {
  }

  lemma Century(y: nat)
    requires y % 100 == 0
    ensures y % 4 == 0
  {
    var k := y / 100;
    assert y == 100 * k;
    assert y == 4 * (25 * k);
    assert y / 4 == 25 * k;
  }

  lemma QuadCentury(y: nat)
    requires y % 400 == 0
    ensures y % 100 == 0
  {
    var k := y / 400;
    assert y == 400 * k;
    assert y == 100 * (4 * k);
    assert y / 100 == 4 * k;
  }

  /** The leap-day count grows by one exactly past a leap year. */
  lemma LeapStep(y: nat)
    ensures LeapsBefore(y + 1) == LeapsBefore(y) + (if IsLeap(y) then 1 else 0)
  {
    Step4(y);
    Step100(y);
    Step400(y);
    if y % 400 == 0 {
      QuadCentury(y);
      Century(y);
    } else if y % 100 == 0 {
      Century(y);
    }
  }

  /** Consecutive years differ by the length of the earlier one. */
  lemma YearStep(y: nat)
    ensures DaysBeforeYear(y + 1) == DaysBeforeYear(y) + YearLength(y)
  {
    LeapStep(y);
  }

  lemma {:induction false} DaysBeforeYearGrows(y: nat, z: nat)
    requires y < z
    ensures DaysBeforeYear(y) + YearLength(y) <= DaysBeforeYear(z)
    decreases z - y
  {
    YearStep(y);
    if y + 1 < z {
      DaysBeforeYearGrows(y + 1, z);
    }
  }

  lemma {:induction false} DaysBeforeMonthGrows(y: int, m: int, n: int)
    requires 1 <= m < n <= 12
    ensures DaysBeforeMonth(y, m) + DaysInMonth(y, m) <= DaysBeforeMonth(y, n)
    decreases n - m
  {
    if m + 1 < n {
      DaysBeforeMonthGrows(y, m + 1, n);
    }
  }

  lemma MonthsFillYear(y: int, m: int)
    requires 1 <= m <= 12
    ensures DaysBeforeMonth(y, m) + DaysInMonth(y, m) <= YearLength(y)
  {
    if m < 12 {
      DaysBeforeMonthGrows(y, m, 12);
    }
  }

  predicate CalendarDate(y: int, m: int, d: int) {
    0 <= y && 1 <= m <= 12 && 1 <= d <= DaysInMonth(y, m)
  }

  /** `(y, m, d)` comes strictly before `(y2, m2, d2)` on the calendar. */
  predicate Before(y: int, m: int, d: int, y2: int, m2: int, d2: int) {
    y < y2 || (y == y2 && (m < m2 || (m == m2 && d < d2)))
  }

  lemma DayNumberMonotone(y: nat, m: int, d: int, y2: nat, m2: int, d2: int)
    requires CalendarDate(y, m, d) && CalendarDate(y2, m2, d2)
    requires Before(y, m, d, y2, m2, d2)
    ensures DayNumber(y, m, d) < DayNumber(y2, m2, d2)
  {
    if y < y2 {
      MonthsFillYear(y, m);
      DaysBeforeYearGrows(y, y2);
    } else if m < m2 {
      DaysBeforeMonthGrows(y, m, m2);
    }
  }

  /** On real calendar dates the day numbers order exactly as the dates
      do, in both directions. */
  lemma DayNumberOrder(y: nat, m: int, d: int, y2: nat, m2: int, d2: int)
    requires CalendarDate(y, m, d) && CalendarDate(y2, m2, d2)
    ensures DayNumber(y, m, d) < DayNumber(y2, m2, d2) <==> Before(y, m, d, y2, m2, d2)
    ensures DayNumber(y, m, d) == DayNumber(y2, m2, d2) <==> (y, m, d) == (y2, m2, d2)
  {
    if Before(y, m, d, y2, m2, d2) {
      DayNumberMonotone(y, m, d, y2, m2, d2);
    } else if Before(y2, m2, d2, y, m, d) {
      DayNumberMonotone(y2, m2, d2, y, m, d);
    }
  }

  /** A day past the end of its month is the same day as its overflow into
      the next month: "2026-02-30" is the second of March. */
  lemma DayRollsOver(y: nat, m: int, d: int)
    requires 1 <= m < 12 && DaysInMonth(y, m) < d
    ensures DayNumber(y, m, d) == DayNumber(y, m + 1, d - DaysInMonth(y, m))
  {
  }

  lemma December(y: int)
    ensures DaysBeforeMonth(y, 12) + 31 == YearLength(y)
  {
    var l := if IsLeap(y) then 1 else 0;
    assert DaysBeforeMonth(y, 2) == 31;
    assert DaysBeforeMonth(y, 3) == 59 + l;
    assert DaysBeforeMonth(y, 4) == 90 + l;
    assert DaysBeforeMonth(y, 5) == 120 + l;
    assert DaysBeforeMonth(y, 6) == 151 + l;
    assert DaysBeforeMonth(y, 7) == 181 + l;
    assert DaysBeforeMonth(y, 8) == 212 + l;
    assert DaysBeforeMonth(y, 9) == 243 + l;
    assert DaysBeforeMonth(y, 10) == 273 + l;
    assert DaysBeforeMonth(y, 11) == 304 + l;
    assert DaysBeforeMonth(y, 12) == 334 + l;
  }

  /** ... and the 32nd of December is the first of the next January. */
  lemma YearRollsOver(y: nat)
    ensures DayNumber(y, 12, 32) == DayNumber(y + 1, 1, 1)
  {
    YearStep(y);
    December(y);
  }

  /** Two keys naming real calendar dates compare as their dates do. */
  lemma LaterIsCalendarOrder(a: string, b: string)
    requires IsKey(a) && IsKey(b)
    requires CalendarDate(DecimalValue(Fields(a).year), Fields(a).month, Fields(a).day)
    requires CalendarDate(DecimalValue(Fields(b).year), Fields(b).month, Fields(b).day)
    ensures Later(a, b) <==> Before(DecimalValue(Fields(b).year), Fields(b).month, Fields(b).day,
                                    DecimalValue(Fields(a).year), Fields(a).month, Fields(a).day)
  {
    var fa := Fields(a);
    var fb := Fields(b);
    DayNumberOrder(DecimalValue(fb.year), fb.month, fb.day, DecimalValue(fa.year), fa.month, fa.day);
  }

  /** The numeric path checks no range: "13/13/2026" reads day first and
      keys to "2026-13-13", a key that reading it back as a date rejects. */
  lemma UncheckedMonth(parse: DateParser)
    ensures DateKey("13/13/2026", parse) == Some("2026-13-13")
    ensures ParseDay("2026-13-13") == None
  {
    Thirteen();
    ShapeOfThirteens();
    DayFirstKey("13/13/2026", DmyMatch("13", "13", "2026"), parse);
    KeyOfThirteens();
    MonthThirteen();
  }

  lemma Thirteen()
    ensures AllDigits("13") && DecimalValue("13") == 13
  {
    DecimalValueTwo("13");
  }

  lemma ShapeOfThirteens()
    ensures DmyShape("13/13/2026", DmyMatch("13", "13", "2026"))
  {
    var s := "13/13/2026";
    assert s[..2] == "13" && s[3..5] == "13" && s[6..10] == "2026";
  }

  lemma KeyOfThirteens()
    ensures FormatKey("2026", 13, 13) == "2026-13-13"
  {
    Thirteen();
    Pad2OfDigits("13");
  }

  lemma MonthThirteen()
    ensures IsKey("2026-13-13") && Fields("2026-13-13").month == 13
  {
    var k := "2026-13-13";
    assert k[..4] == "2026" && k[5..7] == "13" && k[8..] == "13";
    Thirteen();
  }
}
