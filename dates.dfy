/**
 * Naive `datetime` values and the date formats the harvesters read and write:
 * `strptime` with `"%a, %d %b %Y %H:%M:%S %z"` (the date-time format of section 3.3
 * of RFC 2822, in the C locale) and with `"%d %B %Y"` (Russian genitive month names),
 * and `strftime` / `isoformat` output.
 *
 * `strptime` matches a regular expression built from the format: each directive is a
 * group of alternatives, every whitespace of the format becomes `\s+`, matching ignores
 * case, and the whole string must be consumed. Every numeric field is followed by a
 * separator that is not a digit, so the regular expression never has two ways to
 * succeed; the parsers below read one field at a time from the front of the string and
 * return the rest.
 */
module Dates {
  import opened Wrappers
  import opened Strings

  /** A naive `datetime` (no `tzinfo`), field by field. */
  datatype DateTime = DateTime(year: int, month: int, day: int, hour: int, minute: int, second: int, microsecond: int)

  /** A calendar `date`. */
  datatype Date = Date(year: int, month: int, day: int)

  predicate IsLeapYear(y: int)
  {
    y % 4 == 0 && (y % 100 != 0 || y % 400 == 0)
  }

  function DaysInMonth(y: int, m: int): (n: int)
    requires 1 <= m <= 12
    ensures 28 <= n <= 31
  {
    if m == 2 then (if IsLeapYear(y) then 29 else 28)
    else if m == 4 || m == 6 || m == 9 || m == 11 then 30
    else 31
  }

  /** The dates Python's `date` constructor accepts. */
  predicate ValidDate(d: Date)
  {
    1 <= d.year <= 9999 && 1 <= d.month <= 12 && 1 <= d.day <= DaysInMonth(d.year, d.month)
  }

  /** The values Python's `datetime` constructor accepts. */
  predicate ValidDateTime(dt: DateTime)
  {
    ValidDate(DateOf(dt)) && 0 <= dt.hour <= 23 && 0 <= dt.minute <= 59 && 0 <= dt.second <= 59
    && 0 <= dt.microsecond <= 999999
  }

  /** `dt.date()`. */
  function DateOf(dt: DateTime): Date
  {
    Date(dt.year, dt.month, dt.day)
  }

  /** `datetime(d.year, d.month, d.day)`: the first instant of a day. */
  function Midnight(d: Date): (dt: DateTime)
    ensures DateOf(dt) == d
  {
    DateTime(d.year, d.month, d.day, 0, 0, 0, 0)
  }

  /** `a < b` for calendar dates. */
  predicate DateBefore(a: Date, b: Date)
  {
    a.year < b.year
    || (a.year == b.year && (a.month < b.month || (a.month == b.month && a.day < b.day)))
  }

  /** `a < b` for naive datetimes: field by field, most significant first. */
  predicate Before(a: DateTime, b: DateTime)
  {
    DateBefore(DateOf(a), DateOf(b))
    || (DateOf(a) == DateOf(b)
        && (a.hour < b.hour
            || (a.hour == b.hour
                && (a.minute < b.minute
                    || (a.minute == b.minute
                        && (a.second < b.second
                            || (a.second == b.second && a.microsecond < b.microsecond)))))))
  }

  /** `<` on datetimes is a strict total order. */
  lemma BeforeIsStrictTotalOrder(a: DateTime, b: DateTime, c: DateTime)
    ensures !Before(a, a)
    ensures Before(a, b) && Before(b, c) ==> Before(a, c)
    ensures a == b || Before(a, b) || Before(b, a)
  {
  }

  /** An earlier day is an earlier instant, and an earlier instant is never on a later day. */
  lemma BeforeAgreesWithDates(a: DateTime, b: DateTime)
    ensures DateBefore(DateOf(a), DateOf(b)) ==> Before(a, b)
    ensures Before(a, b) ==> !DateBefore(DateOf(b), DateOf(a))
  {
  }

  // ---------------------------------------------------------------- name tables

  /** The C locale's abbreviated weekday names, Monday first (`%a`). */
  const DayNames: seq<string> := ["Mon", "Tue", "Wed", "Thu", "Fri", "Sat", "Sun"]

  /** The C locale's abbreviated month names, January first (`%b`). */
  const MonthNames: seq<string> := ["Jan", "Feb", "Mar", "Apr", "May", "Jun", "Jul", "Aug", "Sep", "Oct", "Nov", "Dec"]

  /** The ru_RU locale's full month names in the genitive, January first (`%B`). */
  const RuMonthNames: seq<string> := ["января", "февраля", "марта", "апреля", "мая", "июня",
                                       "июля", "августа", "сентября", "октября", "ноября", "декабря"]

  /** No name of the table is, ignoring case, a prefix of another: at most one can match. */
  predicate PrefixFree(names: seq<string>)
  {
    forall i, j {:trigger StartsWithIgnoreCase(names[j], names[i])}
      :: 0 <= i < |names| && 0 <= j < |names| && i != j ==> !StartsWithIgnoreCase(names[j], names[i])
  }

  /** No name of the table is empty or starts with whitespace. */
  predicate StartsWithLetters(names: seq<string>)
  {
    forall i :: 0 <= i < |names| ==> names[i] != [] && !IsSpace(names[i][0])
  }

  // ---------------------------------------------------------------- field readers

  /** `\s+`: at least one whitespace character, and all that follow. */
  function Spaces(s: string): (r: Option<string>)
    ensures r.Some? ==> |r.value| < |s|
  {
    if s != [] && IsSpace(s[0]) then Some(LStrip(s)) else None
  }

  /** One literal character. */
  function Literal(s: string, c: char): (r: Option<string>)
    ensures r.Some? ==> |r.value| < |s|
  {
    if s != [] && s[0] == c then Some(s[1..]) else None
  }

  /** The first name of the table that starts `s`, ignoring case, with its index. */
  function NameAt(s: string, names: seq<string>, i: nat): (r: Option<(nat, string)>)
    requires i <= |names|
    ensures r.Some? ==> r.value.0 < |names| && StartsWithIgnoreCase(s, names[r.value.0])
                        && r.value.1 == s[|names[r.value.0]|..]
    decreases |names| - i
  {
    if i == |names| then None
    else if StartsWithIgnoreCase(s, names[i]) then Some((i, s[|names[i]|..]))
    else NameAt(s, names, i + 1)
  }

  /**
   * A one- or two-digit field such as `%d` (`3[01]|[12]\d|0[1-9]|[1-9]`) or `%H`
   * (`2[0-3]|[0-1]\d|\d`): two digits whose value lies in `lo..hi`, or else one digit
   * of at least `lo`.
   */
  function Field(s: string, lo: nat, hi: nat): (r: Option<(nat, string)>)
    ensures r.Some? ==> lo <= r.value.0 < 100 && (hi >= 9 ==> r.value.0 <= hi) && |r.value.1| < |s|
  {
    if |s| >= 2 && IsDigit(s[0]) && IsDigit(s[1]) then
      var v := 10 * DigitValue(s[0]) + DigitValue(s[1]);
      if lo <= v <= hi then Some((v, s[2..])) else None
    else if |s| >= 1 && IsDigit(s[0]) && lo <= DigitValue(s[0]) then Some((DigitValue(s[0]), s[1..]))
    else None
  }

  /**
   * `%d`, whose alternatives also allow one space before a single non-zero digit
   * (`" [1-9]"`); where `\s+` comes first that space has already been consumed.
   */
  function DayField(s: string): (r: Option<(nat, string)>)
    ensures r.Some? ==> 1 <= r.value.0 <= 31 && |r.value.1| < |s|
  {
    if Field(s, 1, 31).Some? then Field(s, 1, 31)
    else if |s| >= 2 && s[0] == ' ' && '1' <= s[1] <= '9' then Some((DigitValue(s[1]), s[2..]))
    else None
  }

  /** `%Y` (`\d\d\d\d`): exactly four digits. */
  function Year(s: string): (r: Option<(nat, string)>)
    ensures r.Some? ==> |s| >= 4 && r.value.0 < Pow10(4) && r.value.1 == s[4..]
  {
    if |s| >= 4 && IsDigit(s[0]) && IsDigit(s[1]) && IsDigit(s[2]) && IsDigit(s[3])
    then Some((DigitsValue(s[..4]), s[4..]))
    else None
  }

  /** The optional fraction of a `%z` offset: `.` and one to six digits. */
  predicate OffsetFraction(f: string)
  {
    f == [] || (f[0] == '.' && 2 <= |f| <= 7 && forall i :: 1 <= i < |f| ==> IsDigit(f[i]))
  }

  /** What follows the hours of a `%z` offset: minutes, then optional seconds and fraction. */
  predicate OffsetTail(t: string, colons: bool)
  {
    |t| >= 2 && '0' <= t[0] <= '5' && IsDigit(t[1])
    && var u := t[2..];
       u == []
       || (colons && |u| >= 3 && u[0] == ':' && '0' <= u[1] <= '5' && IsDigit(u[2]) && OffsetFraction(u[3..]))
       || (!colons && |u| >= 2 && '0' <= u[0] <= '5' && IsDigit(u[1]) && OffsetFraction(u[2..]))
  }

  /**
   * The rest of the string is exactly one `%z` offset that `strptime` accepts: `Z`, or a
   * sign, two hour digits and minutes, with `:` after the hours and minutes either both
   * times or never ("Inconsistent use of :" otherwise), and less than 24 hours in all.
   */
  predicate IsOffset(s: string)
  {
    s == "Z"
    || (|s| >= 5 && (s[0] == '+' || s[0] == '-') && IsDigit(s[1]) && IsDigit(s[2])
        && 10 * DigitValue(s[1]) + DigitValue(s[2]) <= 23
        && if s[3] == ':' then OffsetTail(s[4..], true) else OffsetTail(s[3..], false))
  }

  // ---------------------------------------------------------------- parsers

  /**
   * `datetime.strptime(s, "%a, %d %b %Y %H:%M:%S %z").replace(tzinfo=None)`, `None` where
   * `strptime` raises `ValueError`. The weekday name is matched and otherwise ignored, and
   * the offset is checked and then dropped, so the result is the wall-clock time of the feed.
   */
  function ParseRssDate(s: string): (r: Option<DateTime>)
    ensures r.Some? ==> ValidDateTime(r.value) && r.value.microsecond == 0 && s != []
  {
    var date :- RssDay(s, DayNames, MonthNames);
    var s5 :- Spaces(date.3);
    var time :- RssTime(s5);
    var s8 :- Spaces(time.3);
    var dt := DateTime(date.2, date.1, date.0, time.0, time.1, time.2, 0);
    if IsOffset(s8) && ValidDateTime(dt) then Some(dt) else None
  }

  /** `%a, %d %b %Y` with the given weekday and month tables: day, month, year and what follows the year. */
  function RssDay(s: string, weekdays: seq<string>, months: seq<string>): (r: Option<(nat, nat, nat, string)>)
    ensures r.Some? ==> 1 <= r.value.1 <= |months| && s != []
  {
    var day :- WeekdayAndDay(s, weekdays);
    var s3 :- Spaces(day.1);
    var monthYear :- MonthAndYear(s3, months);
    Some((day.0, monthYear.0, monthYear.1, monthYear.2))
  }

  /** `%a, %d`: the weekday name is matched and dropped. */
  function WeekdayAndDay(s: string, weekdays: seq<string>): (r: Option<(nat, string)>)
    ensures r.Some? ==> |r.value.1| < |s|
  {
    var weekday :- NameAt(s, weekdays, 0);
    var s1 :- Literal(weekday.1, ',');
    var s2 :- Spaces(s1);
    DayField(s2)
  }

  /** `%b %Y` or `%B %Y`: month (1 to the size of the table), year and what follows the year. */
  function MonthAndYear(s: string, months: seq<string>): (r: Option<(nat, nat, string)>)
    ensures r.Some? ==> 1 <= r.value.0 <= |months|
  {
    var month :- NameAt(s, months, 0);
    var s4 :- Spaces(month.1);
    var year :- Year(s4);
    Some((month.0 + 1, year.0, year.1))
  }

  /** `%H:%M:%S`: hour, minute and second, and what follows the seconds. */
  function RssTime(s: string): (r: Option<(nat, nat, nat, string)>)
    ensures r.Some? ==> r.value.0 <= 23 && r.value.1 <= 59 && r.value.2 <= 61
  {
    var hour :- Field(s, 0, 23);
    var s6 :- Literal(hour.1, ':');
    var minute :- Field(s6, 0, 59);
    var s7 :- Literal(minute.1, ':');
    var second :- Field(s7, 0, 61);
    Some((hour.0, minute.0, second.0, second.1))
  }

  /**
   * `datetime.strptime(s, "%d %B %Y")` under the ru_RU locale, `None` where it raises
   * `ValueError`: a day, a genitive month name, a four-digit year, and nothing else.
   */
  function ParseRuDate(s: string): (r: Option<DateTime>)
    ensures r.Some? ==> ValidDateTime(r.value) && r.value == Midnight(DateOf(r.value))
  {
    var day :- DayField(s);
    var s1 :- Spaces(day.1);
    var monthYear :- MonthAndYear(s1, RuMonthNames);
    var dt := DateTime(monthYear.1, monthYear.0, day.0, 0, 0, 0, 0);
    if monthYear.2 == [] && ValidDateTime(dt) then Some(dt) else None
  }

  // ---------------------------------------------------------------- formatters

  /** `d.strftime("%Y-%m-%d")`. */
  function FormatYmd(d: Date): string
    requires ValidDate(d)
  {
    Padded(d.year, 4) + "-" + Padded(d.month, 2) + "-" + Padded(d.day, 2)
  }

  /** `dt.isoformat()` of a naive datetime: microseconds are written only when non-zero. */
  function FormatIso(dt: DateTime): string
    requires ValidDateTime(dt)
  {
    FormatYmd(DateOf(dt)) + "T" + Padded(dt.hour, 2) + ":" + Padded(dt.minute, 2) + ":" + Padded(dt.second, 2)
    + if dt.microsecond == 0 then "" else "." + Padded(dt.microsecond, 6)
  }

  /** `dt.strftime("%d.%m.%y")`: two-digit day, month and year of the century. */
  function FormatDdMmYy(dt: DateTime): string
    requires ValidDateTime(dt)
  {
    Padded(dt.day, 2) + "." + Padded(dt.month, 2) + "." + Padded(dt.year % 100, 2)
  }

  /** An RFC 2822 date-time as feeds publish it: `"Mon, 29 Dec 2025 16:43:00 +0300"`. */
  function FormatRssDate(dt: DateTime, weekday: nat, negative: bool, offsetHours: nat, offsetMinutes: nat): string
    requires ValidDateTime(dt) && weekday < 7 && offsetHours <= 23 && offsetMinutes <= 59
  {
    RssDayText(dt, weekday) + (" " + (RssTimeText(dt) + (" " + OffsetText(negative, offsetHours, offsetMinutes))))
  }

  function RssDayText(dt: DateTime, weekday: nat): string
    requires ValidDateTime(dt) && weekday < 7
  {
    DayNames[weekday] + (", " + (Padded(dt.day, 2) + (" " + (MonthNames[dt.month - 1] + (" " + Padded(dt.year, 4))))))
  }

  function RssTimeText(dt: DateTime): string
    requires ValidDateTime(dt)
  {
    Padded(dt.hour, 2) + (":" + (Padded(dt.minute, 2) + (":" + Padded(dt.second, 2))))
  }

  function OffsetText(negative: bool, offsetHours: nat, offsetMinutes: nat): string
    requires offsetHours <= 23 && offsetMinutes <= 59
  {
    [if negative then '-' else '+'] + Padded(offsetHours, 2) + Padded(offsetMinutes, 2)
  }

  /** A date as the audit-chamber listing writes it: `"27 января 2026"`. */
  function FormatRuDate(d: Date): string
    requires ValidDate(d)
  {
    Padded(d.day, 2) + (" " + (RuMonthNames[d.month - 1] + (" " + Padded(d.year, 4))))
  }

  // ---------------------------------------------------------------- properties

  /** The first three letters of a name, lower-cased. */
  function Head(s: string): (h: string)
    requires |s| >= 3
    ensures |h| == 3
  {
    [LowerChar(s[0]), LowerChar(s[1]), LowerChar(s[2])]
  }

  lemma HeadOfPrefix(s: string, p: string)
    requires |p| >= 3
    ensures StartsWithIgnoreCase(s, p) ==> Head(s) == Head(p)
  {
    if StartsWithIgnoreCase(s, p) {
      assert forall k :: 0 <= k < 3 ==> s[..|p|][k] == s[k];
    }
  }

  /** Names of at least three letters whose lower-cased heads differ form a prefix-free table. */
  lemma PrefixFreeByHeads(names: seq<string>)
    requires forall i :: 0 <= i < |names| ==> |names[i]| >= 3
    requires forall i, j :: 0 <= i < j < |names| ==> Head(names[i]) != Head(names[j])
    ensures PrefixFree(names)
  {
    forall i, j | 0 <= i < |names| && 0 <= j < |names| && i != j
      ensures !StartsWithIgnoreCase(names[j], names[i])
    {
      HeadOfPrefix(names[j], names[i]);
    }
  }

  lemma DayNamesPrefixFree()
    ensures PrefixFree(DayNames)
  {
    PrefixFreeByHeads(DayNames);
  }

  lemma MonthNamesPrefixFree()
    ensures PrefixFree(MonthNames)
  {
    PrefixFreeByHeads(MonthNames);
  }

  lemma RuMonthNamesPrefixFree()
    ensures PrefixFree(RuMonthNames)
  {
    PrefixFreeByHeads(RuMonthNames);
  }

  lemma MonthNamesStartWithLetters()
    ensures StartsWithLetters(MonthNames) && StartsWithLetters(RuMonthNames)
  {
  }

  /** Month `k`'s names start with a letter, so the space before them ends where they begin. */
  lemma MonthNameStartsWithLetter(k: nat)
    requires k < 12
    ensures MonthNames[k] != [] && !IsSpace(MonthNames[k][0])
    ensures RuMonthNames[k] != [] && !IsSpace(RuMonthNames[k][0])
  {
    MonthNamesStartWithLetters();
  }

  lemma TwoDigits(v: nat)
    requires v < 100
    ensures Padded(v, 2) == [DigitChar(v / 10), DigitChar(v % 10)]
    ensures 10 * DigitValue(Padded(v, 2)[0]) + DigitValue(Padded(v, 2)[1]) == v
  {
    var t := v / 10;
    assert t < 10 && v == 10 * t + v % 10;
    assert t / 10 == 0 && t % 10 == t;
    assert Padded(t, 1) == Padded(0, 0) + [DigitChar(t)];
  }

  lemma {:induction false} FieldOfPadded(v: nat, lo: nat, hi: nat, rest: string)
    requires lo <= v <= hi < 100
    ensures Field(Padded(v, 2) + rest, lo, hi) == Some((v, rest))
  {
    TwoDigits(v);
    var s := Padded(v, 2) + rest;
    assert s[0] == Padded(v, 2)[0] && s[1] == Padded(v, 2)[1];
    assert s[2..] == rest;
  }

  lemma {:induction false} YearOfPadded(y: nat, rest: string)
    requires y <= 9999
    ensures Year(Padded(y, 4) + rest) == Some((y, rest))
  {
    var s := Padded(y, 4) + rest;
    assert s[..4] == Padded(y, 4);
    assert s[4..] == rest;
    PaddedRoundTrip(y, 4);
  }

  lemma {:induction false} SpacesOfSpace(rest: string)
    requires rest == [] || !IsSpace(rest[0])
    ensures Spaces(" " + rest) == Some(rest)
  {
    StripLeadingSpace(' ', rest);
    LStripOfStripped(rest);
  }

  /** A name that starts `s`, where `s` starts with another name, is a prefix of that name or the other way round. */
  lemma PrefixTransfer(s: string, a: string, b: string)
    requires |b| <= |s| && s[..|b|] == b
    ensures StartsWithIgnoreCase(s, a) ==> StartsWithIgnoreCase(b, a) || StartsWithIgnoreCase(a, b)
  {
    if StartsWithIgnoreCase(s, a) {
      if |a| <= |b| {
        assert b[..|a|] == s[..|a|];
      } else {
        assert forall i :: 0 <= i < |b| ==> LowerChar(a[..|b|][i]) == LowerChar(s[..|a|][i]) && s[..|a|][i] == b[i];
      }
    }
  }

  lemma {:induction false} NameAtOther(s: string, names: seq<string>, i: nat, k: nat)
    requires PrefixFree(names) && i <= k < |names|
    requires |names[k]| <= |s| && s[..|names[k]|] == names[k]
    ensures NameAt(s, names, i) == Some((k, s[|names[k]|..]))
    decreases k - i
  {
    assert StartsWithIgnoreCase(s, names[k]) by {
      assert s[..|names[k]|] == names[k];
    }
    if i < k {
      PrefixTransfer(s, names[i], names[k]);
      NameAtOther(s, names, i + 1, k);
    }
  }

  lemma {:induction false} NameOf(names: seq<string>, k: nat, rest: string)
    requires PrefixFree(names) && k < |names|
    ensures NameAt(names[k] + rest, names, 0) == Some((k, rest))
  {
    var s := names[k] + rest;
    assert s[..|names[k]|] == names[k];
    assert s[|names[k]|..] == rest;
    NameAtOther(s, names, 0, k);
  }

  lemma WeekdayAndDayOf(weekdays: seq<string>, k: nat, day: nat, rest: string)
    requires PrefixFree(weekdays) && k < |weekdays| && 1 <= day <= 31
    ensures WeekdayAndDay(weekdays[k] + (", " + (Padded(day, 2) + rest)), weekdays) == Some((day, rest))
  {
    var u0 := Padded(day, 2) + rest;
    NameOf(weekdays, k, ", " + u0);
    assert (", " + u0)[1..] == " " + u0;
    assert IsDigit(u0[0]);
    SpacesOfSpace(u0);
    FieldOfPadded(day, 1, 31, rest);
  }

  lemma MonthAndYearOf(months: seq<string>, k: nat, year: nat, rest: string)
    requires PrefixFree(months) && k < |months| && year <= 9999
    ensures MonthAndYear(months[k] + (" " + (Padded(year, 4) + rest)), months) == Some((k + 1, year, rest))
  {
    var u := " " + (Padded(year, 4) + rest);
    NameOf(months, k, u);
    YearAfterSpace(year, rest);
    MonthAndYearOfParts(months[k] + u, months, k, u, Padded(year, 4) + rest, year, rest);
  }

  lemma MonthAndYearOfParts(s: string, months: seq<string>, k: nat, u: string, v: string, year: nat, rest: string)
    requires NameAt(s, months, 0) == Some((k, u)) && Spaces(u) == Some(v) && Year(v) == Some((year, rest))
    ensures MonthAndYear(s, months) == Some((k + 1, year, rest))
  {
  }

  /** A space and a zero-padded year: the space is skipped and the year read. */
  lemma YearAfterSpace(year: nat, rest: string)
    requires year <= 9999
    ensures Spaces(" " + (Padded(year, 4) + rest)) == Some(Padded(year, 4) + rest)
    ensures Year(Padded(year, 4) + rest) == Some((year, rest))
  {
    assert IsDigit((Padded(year, 4) + rest)[0]);
    SpacesOfSpace(Padded(year, 4) + rest);
    YearOfPadded(year, rest);
  }

  lemma RssDayOf(weekdays: seq<string>, months: seq<string>, k: nat, day: nat, month: nat, year: nat, rest: string)
    requires PrefixFree(weekdays) && PrefixFree(months) && k < |weekdays|
    requires 1 <= day <= 31 && 1 <= month <= |months| && year <= 9999
    requires months[month - 1] != [] && !IsSpace(months[month - 1][0])
    ensures var u2 := months[month - 1] + (" " + (Padded(year, 4) + rest));
            RssDay(weekdays[k] + (", " + (Padded(day, 2) + (" " + u2))), weekdays, months) == Some((day, month, year, rest))
  {
    var u2 := months[month - 1] + (" " + (Padded(year, 4) + rest));
    WeekdayAndDayOf(weekdays, k, day, " " + u2);
    assert u2[0] == months[month - 1][0];
    SpacesOfSpace(u2);
    MonthAndYearOf(months, month - 1, year, rest);
    RssDayOfParts(weekdays[k] + (", " + (Padded(day, 2) + (" " + u2))), u2, weekdays, months, day, month, year, rest);
  }

  /** `%a, %d %b %Y` read piece by piece. */
  lemma RssDayOfParts(s: string, u: string, weekdays: seq<string>, months: seq<string>, day: nat, month: nat, year: nat, rest: string)
    requires WeekdayAndDay(s, weekdays) == Some((day, " " + u))
    requires Spaces(" " + u) == Some(u)
    requires MonthAndYear(u, months) == Some((month, year, rest))
    ensures RssDay(s, weekdays, months) == Some((day, month, year, rest))
  {
  }

  lemma RssTimeOf(dt: DateTime, rest: string)
    requires ValidDateTime(dt)
    ensures RssTime(RssTimeText(dt) + rest) == Some((dt.hour, dt.minute, dt.second, rest))
  {
    var t7 := Padded(dt.second, 2) + rest;
    var t6 := ":" + t7;
    var t5 := Padded(dt.minute, 2) + t6;
    var t4 := ":" + t5;
    assert RssTimeText(dt) + rest == Padded(dt.hour, 2) + t4;
    FieldOfPadded(dt.hour, 0, 23, t4);
    FieldOfPadded(dt.minute, 0, 59, t6);
    FieldOfPadded(dt.second, 0, 61, rest);
  }

  lemma OffsetTextIsOffset(negative: bool, offsetHours: nat, offsetMinutes: nat)
    requires offsetHours <= 23 && offsetMinutes <= 59
    ensures IsOffset(OffsetText(negative, offsetHours, offsetMinutes))
  {
    var offset := OffsetText(negative, offsetHours, offsetMinutes);
    TwoDigits(offsetHours);
    TwoDigits(offsetMinutes);
    assert offset[1..3] == Padded(offsetHours, 2);
    assert offset[3..] == Padded(offsetMinutes, 2);
  }

  /** Parsing a feed date written in the RFC 2822 form gives back its wall-clock time. */
  lemma RssDateRoundTrip(dt: DateTime, weekday: nat, negative: bool, offsetHours: nat, offsetMinutes: nat)
    requires ValidDateTime(dt) && dt.microsecond == 0 && weekday < 7 && offsetHours <= 23 && offsetMinutes <= 59
    ensures ParseRssDate(FormatRssDate(dt, weekday, negative, offsetHours, offsetMinutes)) == Some(dt)
  {
    var t := RssTimeText(dt) + (" " + OffsetText(negative, offsetHours, offsetMinutes));
    RssDayTextThen(dt, weekday, " " + t);
    DayNamesPrefixFree();
    MonthNamesPrefixFree();
    MonthNameStartsWithLetter(dt.month - 1);
    RssDayOf(DayNames, MonthNames, weekday, dt.day, dt.month, dt.year, " " + t);
    RssClockOf(dt, OffsetText(negative, offsetHours, offsetMinutes));
    RssOffsetOf(negative, offsetHours, offsetMinutes);
  }

  lemma RssDayTextThen(dt: DateTime, weekday: nat, rest: string)
    requires ValidDateTime(dt) && weekday < 7
    ensures RssDayText(dt, weekday) + rest
         == DayNames[weekday] + (", " + (Padded(dt.day, 2) + (" " + (MonthNames[dt.month - 1] + (" " + (Padded(dt.year, 4) + rest))))))
  {
  }

  /** After the date: a space, then `%H:%M:%S` followed by the rest. */
  lemma RssClockOf(dt: DateTime, offset: string)
    requires ValidDateTime(dt)
    ensures var t := RssTimeText(dt) + (" " + offset);
            Spaces(" " + t) == Some(t) && RssTime(t) == Some((dt.hour, dt.minute, dt.second, " " + offset))
  {
    var t := RssTimeText(dt) + (" " + offset);
    assert IsDigit(t[0]);
    SpacesOfSpace(t);
    RssTimeOf(dt, " " + offset);
  }

  /** After the time: a space and an offset that `%z` accepts. */
  lemma RssOffsetOf(negative: bool, offsetHours: nat, offsetMinutes: nat)
    requires offsetHours <= 23 && offsetMinutes <= 59
    ensures var offset := OffsetText(negative, offsetHours, offsetMinutes);
            Spaces(" " + offset) == Some(offset) && IsOffset(offset)
  {
    var offset := OffsetText(negative, offsetHours, offsetMinutes);
    assert offset[0] == '+' || offset[0] == '-';
    SpacesOfSpace(offset);
    OffsetTextIsOffset(negative, offsetHours, offsetMinutes);
  }

  /** Parsing a Russian listing date gives back the midnight of that day. */
  lemma RuDateRoundTrip(d: Date)
    requires ValidDate(d)
    ensures ParseRuDate(FormatRuDate(d)) == Some(Midnight(d))
  {
    var u1 := RuMonthNames[d.month - 1] + (" " + (Padded(d.year, 4) + []));
    assert FormatRuDate(d) == Padded(d.day, 2) + (" " + u1);
    FieldOfPadded(d.day, 1, 31, " " + u1);
    RuMonthNamesPrefixFree();
    MonthNameStartsWithLetter(d.month - 1);
    assert u1[0] == RuMonthNames[d.month - 1][0];
    SpacesOfSpace(u1);
    MonthAndYearOf(RuMonthNames, d.month - 1, d.year, []);
  }

  /** `"%Y-%m-%d"` output is ten characters whose digit groups read back as year, month and day. */
  lemma FormatYmdReadsBack(d: Date)
    requires ValidDate(d)
    ensures var r := FormatYmd(d);
            |r| == 10 && r[4] == '-' && r[7] == '-'
            && DigitsValue(r[..4]) == d.year && DigitsValue(r[5..7]) == d.month && DigitsValue(r[8..]) == d.day
  {
    var r := FormatYmd(d);
    var y, m, dd := Padded(d.year, 4), Padded(d.month, 2), Padded(d.day, 2);
    assert r == y + "-" + m + "-" + dd;
    assert r[..4] == y by {
      assert forall i :: 0 <= i < 4 ==> r[i] == y[i];
    }
    assert r[5..7] == m by {
      assert forall i :: 0 <= i < 2 ==> r[5 + i] == m[i];
    }
    assert r[8..] == dd by {
      assert forall i :: 0 <= i < 2 ==> r[8 + i] == dd[i];
    }
    PaddedRoundTrip(d.year, 4);
    PaddedRoundTrip(d.month, 2);
    PaddedRoundTrip(d.day, 2);
  }

  /** `"%d.%m.%y"` output is eight characters whose digit pairs read back as day, month and year mod 100. */
  lemma FormatDdMmYyReadsBack(dt: DateTime)
    requires ValidDateTime(dt)
    ensures var r := FormatDdMmYy(dt);
            |r| == 8 && r[2] == '.' && r[5] == '.'
            && DigitsValue(r[..2]) == dt.day && DigitsValue(r[3..5]) == dt.month
            && DigitsValue(r[6..]) == dt.year % 100
  {
    var r := FormatDdMmYy(dt);
    var dd, m, y := Padded(dt.day, 2), Padded(dt.month, 2), Padded(dt.year % 100, 2);
    assert r == dd + "." + m + "." + y;
    assert r[..2] == dd by {
      assert forall i :: 0 <= i < 2 ==> r[i] == dd[i];
    }
    assert r[3..5] == m by {
      assert forall i :: 0 <= i < 2 ==> r[3 + i] == m[i];
    }
    assert r[6..] == y by {
      assert forall i :: 0 <= i < 2 ==> r[6 + i] == y[i];
    }
    PaddedRoundTrip(dt.day, 2);
    PaddedRoundTrip(dt.month, 2);
    PaddedRoundTrip(dt.year % 100, 2);
  }

  lemma PaddedYears()
    ensures Padded(2026, 4) == "2026" && Padded(2025, 4) == "2025"
  {
    assert Padded(2, 1) == "2";
    assert Padded(20, 2) == "20";
    assert Padded(202, 3) == "202";
  }

  lemma RuSampleText()
    ensures FormatRuDate(Date(2026, 1, 27)) == "27 января 2026"
  {
    PaddedYears();
    assert Padded(27, 2) == "27" by {
      TwoDigits(27);
    }
    var t := "27" + (" " + ("января" + (" " + "2026")));
    assert forall i :: 0 <= i < 14 ==> t[i] == "27 января 2026"[i];
  }

  /** The listing's sample date `"27 января 2026"` reads as 27 January 2026. */
  lemma SampleRuDate()
    ensures ParseRuDate("27 января 2026") == Some(DateTime(2026, 1, 27, 0, 0, 0, 0))
  {
    RuDateRoundTrip(Date(2026, 1, 27));
    RuSampleText();
  }

  lemma RssSampleText()
    ensures FormatRssDate(DateTime(2025, 12, 29, 16, 43, 0, 0), 0, false, 3, 0) == "Mon, 29 Dec 2025 16:43:00 +0300"
  {
    var dt := DateTime(2025, 12, 29, 16, 43, 0, 0);
    RssSampleDayText();
    RssSampleTimeText();
    RssSampleOffsetText();
    var t := "Mon, 29 Dec 2025" + (" " + ("16:43:00" + (" " + "+0300")));
    assert forall i :: 0 <= i < 31 ==> t[i] == "Mon, 29 Dec 2025 16:43:00 +0300"[i];
  }

  lemma RssSampleDayText()
    ensures RssDayText(DateTime(2025, 12, 29, 16, 43, 0, 0), 0) == "Mon, 29 Dec 2025"
  {
    PaddedYears();
    assert Padded(29, 2) == "29" by { TwoDigits(29); }
    var day := "Mon" + (", " + ("29" + (" " + ("Dec" + (" " + "2025")))));
    assert forall i :: 0 <= i < 16 ==> day[i] == "Mon, 29 Dec 2025"[i];
  }

  lemma RssSampleTimeText()
    ensures RssTimeText(DateTime(2025, 12, 29, 16, 43, 0, 0)) == "16:43:00"
  {
    assert Padded(16, 2) == "16" by { TwoDigits(16); }
    assert Padded(43, 2) == "43" by { TwoDigits(43); }
    assert Padded(0, 2) == "00" by { TwoDigits(0); }
    var time := "16" + (":" + ("43" + (":" + "00")));
    assert forall i :: 0 <= i < 8 ==> time[i] == "16:43:00"[i];
  }

  lemma RssSampleOffsetText()
    ensures OffsetText(false, 3, 0) == "+0300"
  {
    assert Padded(0, 2) == "00" by { TwoDigits(0); }
    assert Padded(3, 2) == "03" by { TwoDigits(3); }
    var offset := ['+'] + "03" + "00";
    assert forall i :: 0 <= i < 5 ==> offset[i] == "+0300"[i];
  }

  /** The feed's sample date `"Mon, 29 Dec 2025 16:43:00 +0300"` reads as 16:43 on 29 December 2025. */
  lemma SampleRssDate()
    ensures ParseRssDate("Mon, 29 Dec 2025 16:43:00 +0300") == Some(DateTime(2025, 12, 29, 16, 43, 0, 0))
  {
    RssDateRoundTrip(DateTime(2025, 12, 29, 16, 43, 0, 0), 0, false, 3, 0);
    RssSampleText();
  }

  /** Both samples come out as `YYYY-MM-DD`. */
  lemma SampleYmd()
    ensures FormatYmd(Date(2026, 1, 27)) == "2026-01-27" && FormatYmd(Date(2025, 12, 29)) == "2025-12-29"
  {
    PaddedYears();
    assert Padded(1, 2) == "01" by { TwoDigits(1); }
    assert Padded(27, 2) == "27" by { TwoDigits(27); }
    assert Padded(12, 2) == "12" by { TwoDigits(12); }
    assert Padded(29, 2) == "29" by { TwoDigits(29); }
  }
}
