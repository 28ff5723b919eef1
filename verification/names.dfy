/** Snapshot names: the `<timestamp>_<version>[.tar.gz]` pattern, the
    split of the version on `.`, the `i64` parse of each part, the resize
    to three components, the resulting snapshot key, and the name a new
    backup receives from the server jar's file name. */
module Names {
  import opened Common
  import opened Order

  const ArchiveSuffix: string := ".tar.gz"

  predicate IsDigit(c: char) { '0' <= c <= '9' }

  predicate AllDigits(s: string) { forall i :: 0 <= i < |s| ==> IsDigit(s[i]) }

  /** The character the `YYYY-MM-DD_HH-MM-SS` pattern accepts at position `i`. */
  predicate StampCharOk(i: int, c: char)
  {
    if i == 4 || i == 7 || i == 13 || i == 16 then c == '-'
    else if i == 10 then c == '_'
    else IsDigit(c)
  }

  /** The timestamp part of the pattern: four digits, then five two-digit
      fields, separated as in `2021-03-04_05-06-07`. */
  predicate IsTimestamp(s: string)
  {
    |s| == 19 && forall i :: 0 <= i < 19 ==> StampCharOk(i, s[i])
  }

  predicate HasArchiveSuffix(s: string)
  {
    |s| >= 7 && s[|s| - 7..] == ArchiveSuffix
  }

  /** `name` is `stamp`, `_`, a non-empty `version` without line breaks
      (the pattern's `.` does not match `\n`), and optionally `.tar.gz`. */
  predicate Splits(name: string, stamp: string, version: string)
  {
    && IsTimestamp(stamp)
    && |version| > 0
    && '\n' !in version
    && (name == stamp + "_" + version || name == stamp + "_" + version + ArchiveSuffix)
  }

  /** The anchored pattern `^(timestamp)_(.+?)(?:\.tar\.gz)?$`. The lazy
      version group takes the shortest text that lets the rest match, so
      a trailing `.tar.gz` is stripped exactly when something non-empty
      remains before it. */
  function MatchName(name: string): (r: Option<(string, string)>)
    ensures r.Some? ==> Splits(name, r.value.0, r.value.1)
  {
    if |name| < 21 || !IsTimestamp(name[..19]) || name[19] != '_' then None
    else
      var rest := name[20..];
      var version := if |rest| > 7 && HasArchiveSuffix(rest) then rest[..|rest| - 7] else rest;
      assert name == name[..19] + "_" + rest;
      assert HasArchiveSuffix(rest) ==> rest == rest[..|rest| - 7] + ArchiveSuffix;
      if '\n' in version then None else Some((name[..19], version))
  }

  /** Every way of reading `name` through the pattern is found by the
      matcher, which keeps the timestamp and returns the shortest version. */
  lemma MatchNameIsLazy(name: string, stamp: string, version: string)
    requires Splits(name, stamp, version)
    ensures MatchName(name).Some?
    ensures MatchName(name).value.0 == stamp
    ensures |MatchName(name).value.1| <= |version|
  {
  }

  /** A backup name without an archive suffix in its version reads back
      as its timestamp and version, whether or not `.tar.gz` follows. */
  lemma NameRoundTrip(stamp: string, version: string)
    requires IsTimestamp(stamp)
    requires |version| > 0 && '\n' !in version && !HasArchiveSuffix(version)
    ensures MatchName(stamp + "_" + version) == Some((stamp, version))
    ensures MatchName(stamp + "_" + version + ArchiveSuffix) == Some((stamp, version))
  {
    MatchNameIsLazy(stamp + "_" + version, stamp, version);
    MatchNameIsLazy(stamp + "_" + version + ArchiveSuffix, stamp, version);
  }

  /** `str::split('.')`: the parts between dots, always at least one. */
  function Split(s: string): (parts: seq<string>)
    ensures |parts| > 0
  {
    if |s| == 0 then [""]
    else
      var tail := Split(s[1..]);
      if s[0] == '.' then [""] + tail else [[s[0]] + tail[0]] + tail[1..]
  }

  /** The inverse of `Split`: the parts joined with dots. */
  function Join(parts: seq<string>): string
    requires |parts| > 0
  {
    if |parts| == 1 then parts[0] else parts[0] + "." + Join(parts[1..])
  }

  lemma {:induction false} JoinSplit(s: string)
    ensures Join(Split(s)) == s
  {
    if |s| > 0 {
      JoinSplit(s[1..]);
      var tail := Split(s[1..]);
      if s[0] == '.' {
        assert Split(s)[1..] == tail;
        assert s == "" + "." + s[1..];
      } else {
        if |tail| == 1 {
          assert s == [s[0]] + s[1..];
        } else {
          assert Split(s)[1..] == tail[1..];
          assert s[1..] == tail[0] + "." + Join(tail[1..]);
          assert s == [s[0]] + s[1..];
        }
      }
    }
  }

  lemma {:induction false} SplitNoDot(s: string)
    requires '.' !in s
    ensures Split(s) == [s]
  {
    if |s| > 0 {
      SplitNoDot(s[1..]);
      assert s == [s[0]] + s[1..];
    }
  }

  /** A dot separates: splitting `a.b` splits `a` and `b` independently. */
  lemma {:induction false} SplitAppend(a: string, b: string)
    ensures Split(a + "." + b) == Split(a) + Split(b)
  {
    if |a| == 0 {
      assert a + "." + b == "." + b;
      assert ("." + b)[1..] == b;
    } else {
      var s := a + "." + b;
      assert s[0] == a[0];
      assert s[1..] == a[1..] + "." + b;
      SplitAppend(a[1..], b);
    }
  }

  lemma {:induction false} SplitJoin(parts: seq<string>)
    requires |parts| > 0
    requires forall i :: 0 <= i < |parts| ==> '.' !in parts[i]
    ensures Split(Join(parts)) == parts
  {
    SplitNoDot(parts[0]);
    if |parts| > 1 {
      SplitJoin(parts[1..]);
      SplitAppend(parts[0], Join(parts[1..]));
      assert parts == [parts[0]] + parts[1..];
    }
  }

  const I64Min: int := -0x8000_0000_0000_0000
  const I64Max: int := 0x7fff_ffff_ffff_ffff

  predicate InI64(x: int) { I64Min <= x <= I64Max }

  function DigitValue(c: char): nat
  {
    if IsDigit(c) then c as int - '0' as int else 0
  }

  /** Decimal value of a digit string, most significant digit first. */
  function DigitsValue(s: string): nat
  {
    if |s| == 0 then 0 else DigitsValue(s[..|s| - 1]) * 10 + DigitValue(s[|s| - 1])
  }

  /** `str::parse::<i64>`: an optional `+` or `-`, then one or more ASCII
      digits, with a value inside the `i64` range. */
  function ParseI64(s: string): (r: Option<int>)
    ensures r.Some? ==> InI64(r.value)
    ensures r.Some? ==> |s| > 0 && '.' !in s && '\n' !in s && IsDigit(s[|s| - 1])
  {
    if |s| > 0 && (s[0] == '-' || s[0] == '+') then
      var v := if s[0] == '-' then -(DigitsValue(s[1..]) as int) else DigitsValue(s[1..]);
      if |s| == 1 || !AllDigits(s[1..]) || !InI64(v) then None
      else
        assert forall i :: 0 <= i < |s| ==> s[i] != '.' && s[i] != '\n' by {
          forall i | 0 <= i < |s| ensures s[i] != '.' && s[i] != '\n' {
            if i > 0 {
              assert s[i] == s[1..][i - 1];
            }
          }
        }
        assert s[|s| - 1] == s[1..][|s| - 2];
        Some(v)
    else if |s| == 0 || !AllDigits(s) || !InI64(DigitsValue(s)) then None
    else Some(DigitsValue(s))
  }

  /** The three shapes `str::parse::<i64>` accepts, each with its value:
      bare digits, `+` and digits, `-` and digits. */
  lemma ParseI64Accepts(s: string)
    ensures ParseI64(s).Some? <==>
              && |s| > 0
              && (|| (IsDigit(s[0]) && AllDigits(s) && InI64(DigitsValue(s)))
                  || (s[0] == '+' && |s| > 1 && AllDigits(s[1..]) && InI64(DigitsValue(s[1..])))
                  || (s[0] == '-' && |s| > 1 && AllDigits(s[1..]) && InI64(-(DigitsValue(s[1..]) as int))))
    ensures ParseI64(s).Some? && IsDigit(s[0]) ==> ParseI64(s).value == DigitsValue(s)
    ensures ParseI64(s).Some? && s[0] == '+' ==> ParseI64(s).value == DigitsValue(s[1..])
    ensures ParseI64(s).Some? && s[0] == '-' ==> ParseI64(s).value == -(DigitsValue(s[1..]) as int)
  {
  }

  function DigitChar(d: nat): char
    requires d < 10
  {
    ('0' as int + d) as char
  }

  /** Decimal text of a natural number, without leading zeros. */
  function Decimal(n: nat): (s: string)
    ensures |s| > 0 && AllDigits(s) && DigitsValue(s) == n
  {
    if n < 10 then [DigitChar(n)]
    else
      var s := Decimal(n / 10) + [DigitChar(n % 10)];
      assert s[..|s| - 1] == Decimal(n / 10);
      s
  }

  /** Decimal text of an integer, with `-` for negative values. */
  function IntText(n: int): string
  {
    if n < 0 then "-" + Decimal(-n) else Decimal(n)
  }

  /** Formatting an `i64` and parsing it back yields the same value. */
  lemma IntTextRoundTrip(n: int)
    requires InI64(n)
    ensures ParseI64(IntText(n)) == Some(n)
  {
    if n < 0 {
      assert ("-" + Decimal(-n))[1..] == Decimal(-n);
    }
  }

  /** Parse every part as an `i64`, failing if any part fails. */
  function ParseParts(parts: seq<string>): (r: Option<seq<int>>)
    ensures r.Some? <==> forall i :: 0 <= i < |parts| ==> ParseI64(parts[i]).Some?
    ensures r.Some? ==> |r.value| == |parts|
    ensures r.Some? ==> forall i :: 0 <= i < |parts| ==> ParseI64(parts[i]) == Some(r.value[i])
  {
    if |parts| == 0 then Some([])
    else
      match ParseI64(parts[0])
      case None => None
      case Some(x) =>
        match ParseParts(parts[1..])
        case None =>
          assert forall i :: 0 <= i < |parts| - 1 ==> parts[1..][i] == parts[i + 1];
          None
        case Some(xs) => Some([x] + xs)
  }

  /** The version text split on `.` with every part parsed as an `i64`:
      nothing when a part fails, else one value per part. */
  function ParseVersion(version: string): Option<seq<int>>
  {
    ParseParts(Split(version))
  }

  /** A version parses exactly when each of its dot-separated parts is an
      `i64`, and then gives one value per part, in order. */
  lemma ParseVersionParts(version: string)
    ensures ParseVersion(version).Some? ==> forall i :: 0 <= i < |Split(version)| ==> ParseI64(Split(version)[i]).Some?
    ensures ParseVersion(version).None? ==> exists i :: 0 <= i < |Split(version)| && ParseI64(Split(version)[i]).None?
    ensures ParseVersion(version).Some? ==>
              && |ParseVersion(version).value| == |Split(version)|
              && forall i :: 0 <= i < |Split(version)| ==> ParseI64(Split(version)[i]) == Some(ParseVersion(version).value[i])
  {
    var parts := Split(version);
    assert ParseVersion(version) == ParseParts(parts);
  }

  /** `Vec::resize`: truncate to `n` elements or pad with `fill`. */
  function Resize(xs: seq<int>, n: nat, fill: int): (r: seq<int>)
    ensures |r| == n
    ensures forall i :: 0 <= i < n ==> r[i] == (if i < |xs| then xs[i] else fill)
  {
    if |xs| >= n then xs[..n] else xs + seq(n - |xs|, _ => fill)
  }

  lemma ResizeKeepsPrefix(a: seq<int>, b: seq<int>)
    requires |a| >= 3 && |b| >= 3
    requires a[0] == b[0] && a[1] == b[1] && a[2] == b[2]
    ensures Resize(a, 3, 0) == Resize(b, 3, 0)
  {
  }

  /** Days from 1970-01-01 to the given proleptic Gregorian date. */
  function DaysFromCivil(year: int, month: int, day: int): int
  {
    var y := if month <= 2 then year - 1 else year;
    MarchDays(y) + MonthOffset(month) + day - 1 - 719468
  }

  /** Days from March 1st of year 0 to March 1st of year `y`, counting the
      leap days of the years that start in between. */
  function MarchDays(y: int): int
  {
    365 * y + y / 4 - y / 100 + y / 400
  }

  /** Days from March 1st to the first of `month` in a year counted from
      March. */
  function MonthOffset(month: int): int
  {
    (153 * ((month + 9) % 12) + 2) / 5
  }

  /** Seconds from the Unix epoch to the start of the minute that the
      first 17 characters of a timestamp, `YYYY-MM-DD_HH-MM-`, name (UTC). */
  function MinuteStart(minute: string): int
    requires |minute| == 17
  {
    DaysFromCivil(DigitsValue(minute[0..4]), DigitsValue(minute[5..7]), DigitsValue(minute[8..10])) * 86400
    + DigitsValue(minute[11..13]) * 3600 + DigitsValue(minute[14..16]) * 60
  }

  /** The instant a timestamp names, in half-seconds since the Unix epoch.
      Second `60` is a leap second, which chrono places after second `59`
      of its minute and before the next minute: it takes the odd
      half-second between the two. */
  function Instant(stamp: string): (r: int)
    requires |stamp| == 19
    ensures r % 2 == 1 <==> DigitsValue(stamp[17..19]) == 60
  {
    var second := DigitsValue(stamp[17..19]);
    var leap := if second == 60 then 1 else 0;
    var whole := MinuteStart(stamp[..17]) + if second < 60 then second else 59;
    HalfParity(whole, leap);
    2 * whole + leap
  }

  lemma HalfParity(whole: int, leap: int)
    requires 0 <= leap <= 1
    ensures (2 * whole + leap) % 2 == leap
  {
  }

  /** A leap second never shares its instant with a regular second: it
      comes right after second `59` of its minute and before every
      regular second later than that. */
  lemma LeapSecondBetween(minute: string, other: string)
    requires |minute| == 17 && |other| == 19
    requires DigitsValue(other[17..19]) != 60
    ensures Instant(minute + "60") == Instant(minute + "59") + 1
    ensures Instant(other) != Instant(minute + "60")
    ensures Instant(other) > Instant(minute + "59") ==> Instant(other) > Instant(minute + "60")
  {
    assert (minute + "60")[..17] == minute && (minute + "60")[17..19] == "60";
    assert (minute + "59")[..17] == minute && (minute + "59")[17..19] == "59";
    assert "60"[..1] == "6" && "59"[..1] == "5";
    assert DigitsValue("60") == 60 && DigitsValue("59") == 59;
  }

  /** The day count is anchored at the epoch and follows the Gregorian
      leap rules: 2000 has a February 29th, 1900 has none. */
  lemma CivilAnchors()
    ensures DaysFromCivil(1970, 1, 1) == 0
    ensures DaysFromCivil(2000, 3, 1) - DaysFromCivil(2000, 2, 28) == 2
    ensures DaysFromCivil(1900, 3, 1) - DaysFromCivil(1900, 2, 28) == 1
    ensures DaysFromCivil(2001, 1, 1) - DaysFromCivil(2000, 1, 1) == 366
  {
  }

  /** The Gregorian leap-year rule. */
  predicate LeapYear(year: int)
  {
    year % 4 == 0 && (year % 100 != 0 || year % 400 == 0)
  }

  /** The length of a month of the proleptic Gregorian calendar. */
  function MonthDays(year: int, month: int): int
  {
    if month == 2 then (if LeapYear(year) then 29 else 28)
    else if month == 4 || month == 6 || month == 9 || month == 11 then 30
    else 31
  }

  predicate ValidDate(year: int, month: int, day: int)
  {
    1 <= month <= 12 && 1 <= day <= MonthDays(year, month)
  }

  /** The calendar day after a valid date. */
  function NextDay(year: int, month: int, day: int): (int, int, int)
  {
    if day < MonthDays(year, month) then (year, month, day + 1)
    else if month < 12 then (year, month + 1, 1)
    else (year + 1, 1, 1)
  }

  /** The leap-day counts `y / 4`, `y / 100` and `y / 400` step up from
      `y - 1` to `y` exactly at multiples. */
  lemma LeapCountSteps(y: int)
    ensures y / 4 - (y - 1) / 4 == (if y % 4 == 0 then 1 else 0)
    ensures y / 100 - (y - 1) / 100 == (if y % 100 == 0 then 1 else 0)
    ensures y / 400 - (y - 1) / 400 == (if y % 400 == 0 then 1 else 0)
  {
  }

  /** From the last day of February to March 1st is one day, in leap and
      common years alike. */
  lemma FebruaryEndNext(year: int)
    ensures DaysFromCivil(year, 3, 1) == DaysFromCivil(year, 2, MonthDays(year, 2)) + 1
  {
    MonthOffsets();
    LeapCountSteps(year);
    DivisorsOfLeap(year);
  }

  lemma DivisorsOfLeap(year: int)
    ensures year % 400 == 0 ==> year % 100 == 0
    ensures year % 100 == 0 ==> year % 4 == 0
  {
  }

  /** From the last day of any other month to the first of the next one
      is one day. */
  lemma MonthEndNext(year: int, month: int)
    requires 1 <= month < 12 && month != 2
    ensures DaysFromCivil(year, month + 1, 1) == DaysFromCivil(year, month, MonthDays(year, month)) + 1
  {
    MonthOffsetStep(year, month);
  }

  /** Outside February, the month offsets grow by the month's length. */
  lemma MonthOffsetStep(year: int, month: int)
    requires 1 <= month < 12 && month != 2
    ensures MonthOffset(month + 1) == MonthOffset(month) + MonthDays(year, month)
  {
    MonthOffsets();
  }

  /** The first of each month, counted in days from March 1st. */
  lemma MonthOffsets()
    ensures MonthOffset(3) == 0 && MonthOffset(4) == 31 && MonthOffset(5) == 61 && MonthOffset(6) == 92
    ensures MonthOffset(7) == 122 && MonthOffset(8) == 153 && MonthOffset(9) == 184 && MonthOffset(10) == 214
    ensures MonthOffset(11) == 245 && MonthOffset(12) == 275 && MonthOffset(1) == 306 && MonthOffset(2) == 337
  {
  }

  /** From December 31st to January 1st is one day. */
  lemma YearEndNext(year: int)
    ensures DaysFromCivil(year + 1, 1, 1) == DaysFromCivil(year, 12, 31) + 1
  {
  }

  /** Consecutive calendar days are consecutive day counts, across month
      and year ends and February 29th alike. */
  lemma DaysFromCivilNextDay(year: int, month: int, day: int)
    requires ValidDate(year, month, day)
    ensures ValidDate(NextDay(year, month, day).0, NextDay(year, month, day).1, NextDay(year, month, day).2)
    ensures DaysFromCivil(NextDay(year, month, day).0, NextDay(year, month, day).1, NextDay(year, month, day).2)
         == DaysFromCivil(year, month, day) + 1
  {
    if day < MonthDays(year, month) {
    } else if month == 2 {
      FebruaryEndNext(year);
    } else if month < 12 {
      MonthEndNext(year, month);
    } else {
      YearEndNext(year);
    }
  }

  /** The last day of a month comes before the first day of every later
      month of the same year. */
  lemma {:induction false} MonthEndBefore(year: int, m1: int, m2: int)
    requires 1 <= m1 < m2 <= 12
    ensures DaysFromCivil(year, m1, MonthDays(year, m1)) < DaysFromCivil(year, m2, 1)
    decreases m2 - m1
  {
    DaysFromCivilNextDay(year, m1, MonthDays(year, m1));
    if m1 + 1 < m2 {
      MonthEndBefore(year, m1 + 1, m2);
    }
  }

  /** A valid date lies between the first and the last day of its year. */
  lemma WithinYear(year: int, month: int, day: int)
    requires ValidDate(year, month, day)
    ensures DaysFromCivil(year, 1, 1) <= DaysFromCivil(year, month, day) <= DaysFromCivil(year, 12, 31)
  {
    if 1 < month {
      MonthEndBefore(year, 1, month);
    }
    if month < 12 {
      MonthEndBefore(year, month, 12);
    }
  }

  /** The last day of a year comes before the first day of every later
      year. */
  lemma {:induction false} YearEndBefore(y1: int, y2: int)
    requires y1 < y2
    ensures DaysFromCivil(y1, 12, 31) < DaysFromCivil(y2, 1, 1)
    decreases y2 - y1
  {
    DaysFromCivilNextDay(y1, 12, 31);
    if y1 + 1 < y2 {
      WithinYear(y1 + 1, 12, 31);
      YearEndBefore(y1 + 1, y2);
    }
  }

  /** Chronological order of dates: by year, then month, then day. */
  predicate DateBefore(y1: int, m1: int, d1: int, y2: int, m2: int, d2: int)
  {
    y1 < y2 || (y1 == y2 && (m1 < m2 || (m1 == m2 && d1 < d2)))
  }

  /** The day count follows the calendar: a later valid date has a larger
      count. */
  lemma DaysFollowCalendar(y1: int, m1: int, d1: int, y2: int, m2: int, d2: int)
    requires ValidDate(y1, m1, d1) && ValidDate(y2, m2, d2)
    requires DateBefore(y1, m1, d1, y2, m2, d2)
    ensures DaysFromCivil(y1, m1, d1) < DaysFromCivil(y2, m2, d2)
  {
    if y1 < y2 {
      WithinYear(y1, m1, d1);
      WithinYear(y2, m2, d2);
      YearEndBefore(y1, y2);
    } else if m1 < m2 {
      MonthEndBefore(y1, m1, m2);
    }
  }

  /** The six fields of a `YYYY-MM-DD_HH-MM-SS` timestamp. */
  datatype Civil = Civil(year: int, month: int, day: int, hour: int, minute: int, second: int)

  function StampCivil(stamp: string): Civil
    requires |stamp| == 19
  {
    Civil(DigitsValue(stamp[0..4]), DigitsValue(stamp[5..7]), DigitsValue(stamp[8..10]),
          DigitsValue(stamp[11..13]), DigitsValue(stamp[14..16]), DigitsValue(stamp[17..19]))
  }

  /** A timestamp chrono accepts: a real date, an hour below 24, a minute
      below 60, and a second up to the leap second `60`. */
  predicate ValidCivil(c: Civil)
  {
    ValidDate(c.year, c.month, c.day) && 0 <= c.hour < 24 && 0 <= c.minute < 60 && 0 <= c.second <= 60
  }

  /** Chronological order of timestamps, field by field. */
  predicate CivilBefore(a: Civil, b: Civil)
  {
    || DateBefore(a.year, a.month, a.day, b.year, b.month, b.day)
    || (a.year == b.year && a.month == b.month && a.day == b.day
        && (a.hour < b.hour || (a.hour == b.hour && (a.minute < b.minute || (a.minute == b.minute && a.second < b.second)))))
  }

  /** The instant of timestamp fields, in half-seconds since the Unix
      epoch. */
  function CivilInstant(c: Civil): int
  {
    2 * (DaysFromCivil(c.year, c.month, c.day) * 86400 + c.hour * 3600 + c.minute * 60
         + (if c.second < 60 then c.second else 59)) + (if c.second == 60 then 1 else 0)
  }

  /** A valid time of day stays below one day's worth of half-seconds. */
  lemma TimeOfDayBound(c: Civil)
    requires ValidCivil(c)
    ensures 0 <= CivilInstant(c) - 2 * 86400 * DaysFromCivil(c.year, c.month, c.day) < 2 * 86400
  {
  }

  /** A later valid timestamp has a larger instant. */
  lemma CivilInstantIncreases(a: Civil, b: Civil)
    requires ValidCivil(a) && ValidCivil(b)
    requires CivilBefore(a, b)
    ensures CivilInstant(a) < CivilInstant(b)
  {
    if DateBefore(a.year, a.month, a.day, b.year, b.month, b.day) {
      DaysFollowCalendar(a.year, a.month, a.day, b.year, b.month, b.day);
      TimeOfDayBound(a);
      TimeOfDayBound(b);
    }
  }

  lemma InstantOfFields(stamp: string)
    requires |stamp| == 19
    ensures Instant(stamp) == CivilInstant(StampCivil(stamp))
  {
    var minute := stamp[..17];
    assert minute[0..4] == stamp[0..4] && minute[5..7] == stamp[5..7] && minute[8..10] == stamp[8..10];
    assert minute[11..13] == stamp[11..13] && minute[14..16] == stamp[14..16];
  }

  /** Instants follow chronological order on valid timestamps, in both
      directions: a stamp is earlier exactly when its instant is smaller,
      and two stamps share an instant exactly when they name the same
      time. */
  lemma InstantFollowsCalendar(a: string, b: string)
    requires |a| == 19 && |b| == 19
    requires ValidCivil(StampCivil(a)) && ValidCivil(StampCivil(b))
    ensures CivilBefore(StampCivil(a), StampCivil(b)) <==> Instant(a) < Instant(b)
    ensures StampCivil(a) == StampCivil(b) <==> Instant(a) == Instant(b)
  {
    var ca, cb := StampCivil(a), StampCivil(b);
    InstantOfFields(a);
    InstantOfFields(b);
    if CivilBefore(ca, cb) {
      CivilInstantIncreases(ca, cb);
    } else if CivilBefore(cb, ca) {
      CivilInstantIncreases(cb, ca);
    } else {
      assert ca == cb;
    }
  }

  /** The snapshot key `(major, minor, patch, time)` of an entry name. */
  function ParseKey(name: string): (r: Result<Quad>)
    ensures r.Err? ==> r.error == FilenameFormat
    ensures r.Ok? ==> MatchName(name).Some?
  {
    match MatchName(name)
    case None => Err(FilenameFormat)
    case Some((stamp, version)) =>
      match ParseVersion(version)
      case None => Err(FilenameFormat)
      case Some(parts) => Ok(KeyOf(parts, stamp))
  }

  /** A name is rejected exactly when it does not match the grammar or one
      of its version's dot-separated parts is not an `i64`. */
  lemma ParseKeyAccepts(name: string)
    ensures ParseKey(name).Ok? <==> MatchName(name).Some? && ParseVersion(MatchName(name).value.1).Some?
    ensures ParseKey(name).Err? ==> ParseKey(name).error == FilenameFormat
  {
  }

  /** The key of parsed version components at a timestamp: the
      components resized to three, then the instant. */
  function KeyOf(parts: seq<int>, stamp: string): (r: Quad)
    requires |stamp| == 19
    ensures r.major == (if |parts| > 0 then parts[0] else 0)
    ensures r.minor == (if |parts| > 1 then parts[1] else 0)
    ensures r.patch == (if |parts| > 2 then parts[2] else 0)
    ensures r.time == Instant(stamp)
  {
    var p := Resize(parts, 3, 0);
    Quad(p[0], p[1], p[2], Instant(stamp))
  }

  /** A name built from a timestamp and a parseable version, with or
      without the archive suffix, has the key of those components. */
  lemma ParseKeyOfParts(stamp: string, version: string)
    requires IsTimestamp(stamp)
    requires ParseVersion(version).Some?
    ensures ParseKey(stamp + "_" + version) == Ok(KeyOf(ParseVersion(version).value, stamp))
    ensures ParseKey(stamp + "_" + version + ArchiveSuffix) == Ok(KeyOf(ParseVersion(version).value, stamp))
  {
    ParsedVersionShape(version);
    NameRoundTrip(stamp, version);
  }

  /** The version text `major.minor.patch`. */
  function FormatVersion(major: int, minor: int, patch: int): string
  {
    Join([IntText(major), IntText(minor), IntText(patch)])
  }

  lemma IntTextShape(n: int)
    ensures |IntText(n)| > 0 && '.' !in IntText(n) && '\n' !in IntText(n)
    ensures IsDigit(IntText(n)[|IntText(n)| - 1])
  {
  }

  /** A version text ending in a digit or a dot never carries the archive
      suffix. */
  lemma DigitOrDotEndNoSuffix(v: string)
    requires |v| > 0 && (IsDigit(v[|v| - 1]) || v[|v| - 1] == '.')
    ensures !HasArchiveSuffix(v)
  {
  }

  /** The version text of a parseable version is a well-formed version
      group: non-empty, single-line, without the archive suffix. */
  lemma ParsedVersionShape(version: string)
    requires ParseVersion(version).Some?
    ensures |version| > 0 && '\n' !in version && !HasArchiveSuffix(version)
  {
    var parts := Split(version);
    JoinSplit(version);
    JoinShape(parts);
    DigitOrDotEndNoSuffix(version);
  }

  lemma {:induction false} JoinShape(parts: seq<string>)
    requires |parts| > 0
    requires forall i :: 0 <= i < |parts| ==> ParseI64(parts[i]).Some?
    ensures var s := Join(parts); |s| > 0 && '\n' !in s && IsDigit(s[|s| - 1])
  {
    if |parts| > 1 {
      JoinShape(parts[1..]);
      var s := Join(parts);
      var t := Join(parts[1..]);
      assert s == parts[0] + "." + t;
      assert s[|s| - 1] == t[|t| - 1];
      assert forall i :: 0 <= i < |s| ==> s[i] != '\n' by {
        forall i | 0 <= i < |s| ensures s[i] != '\n' {
          if i < |parts[0]| {
            assert s[i] == parts[0][i];
          } else if i > |parts[0]| {
            assert s[i] == t[i - |parts[0]| - 1];
          }
        }
      }
    }
  }

  /** A key written out as `<timestamp>_<major>.<minor>.<patch>`, with or
      without the archive suffix, parses back to the same key. */
  lemma KeyRoundTrip(stamp: string, major: int, minor: int, patch: int)
    requires IsTimestamp(stamp)
    requires InI64(major) && InI64(minor) && InI64(patch)
    ensures ParseKey(stamp + "_" + FormatVersion(major, minor, patch)) == Ok(Quad(major, minor, patch, Instant(stamp)))
    ensures ParseKey(stamp + "_" + FormatVersion(major, minor, patch) + ArchiveSuffix) == Ok(Quad(major, minor, patch, Instant(stamp)))
  {
    var v := FormatVersion(major, minor, patch);
    VersionRoundTrip(major, minor, patch);
    ParseKeyOfParts(stamp, v);
    var p := Resize([major, minor, patch], 3, 0);
    assert p == [major, minor, patch];
  }

  /** Formatting three `i64` components and parsing the text again gives
      back the same three components. */
  lemma VersionRoundTrip(major: int, minor: int, patch: int)
    requires InI64(major) && InI64(minor) && InI64(patch)
    ensures ParseVersion(FormatVersion(major, minor, patch)) == Some([major, minor, patch])
  {
    var parts := [IntText(major), IntText(minor), IntText(patch)];
    IntTextShape(major);
    IntTextShape(minor);
    IntTextShape(patch);
    SplitJoin(parts);
    IntTextRoundTrip(major);
    IntTextRoundTrip(minor);
    IntTextRoundTrip(patch);
    ParsePartsOf(parts, [major, minor, patch]);
  }

  /** Parts that each parse to a value give exactly those values. */
  lemma ParsePartsOf(parts: seq<string>, values: seq<int>)
    requires |parts| == |values|
    requires forall i :: 0 <= i < |parts| ==> ParseI64(parts[i]) == Some(values[i])
    ensures ParseParts(parts) == Some(values)
  {
    var r := ParseParts(parts);
    assert r.value == values;
  }

  /** A one-component version is padded with zeros: `1` keys as `1.0.0`. */
  lemma ShortVersionPads(stamp: string, major: int)
    requires IsTimestamp(stamp) && InI64(major)
    ensures ParseKey(stamp + "_" + IntText(major)) == Ok(Quad(major, 0, 0, Instant(stamp)))
  {
    IntTextShape(major);
    SplitNoDot(IntText(major));
    IntTextRoundTrip(major);
    var t := IntText(major);
    assert Split(t) == [t];
    assert ParseI64([t][0]) == Some(major);
    assert ParseParts([t][1..]) == Some([]);
    assert [major] + [] == [major];
    assert ParseParts([t]) == Some([major]);
    assert ParseVersion(IntText(major)) == Some([major]);
    ParseKeyOfParts(stamp, t);
  }

  /** Components after the third are dropped: appending `.<extra>` to a
      version that already has three or more parts leaves the key as is. */
  lemma ExtraComponentsCollapse(stamp: string, version: string, extra: string)
    requires IsTimestamp(stamp)
    requires ParseVersion(version).Some? && |ParseVersion(version).value| >= 3
    requires ParseI64(extra).Some?
    ensures ParseKey(stamp + "_" + (version + "." + extra)) == ParseKey(stamp + "_" + version)
  {
    var longer := version + "." + extra;
    ParseVersionAppend(version, extra);
    ParseKeyOfParts(stamp, version);
    ParseKeyOfParts(stamp, longer);
    var a := ParseVersion(version).value;
    var b := ParseVersion(longer).value;
    assert b[0] == a[0] && b[1] == a[1] && b[2] == a[2];
    ResizeKeepsPrefix(a, b);
    assert KeyOf(a, stamp) == KeyOf(b, stamp);
  }

  /** Appending `.<extra>` to a version appends one parsed component. */
  lemma ParseVersionAppend(version: string, extra: string)
    requires ParseVersion(version).Some?
    requires ParseI64(extra).Some?
    ensures ParseVersion(version + "." + extra) == Some(ParseVersion(version).value + [ParseI64(extra).value])
  {
    SplitNoDot(extra);
    SplitAppend(version, extra);
    var ps := Split(version);
    var qs := ps + [extra];
    assert Split(version + "." + extra) == qs;
    var vs := ParseParts(ps).value;
    var ws := vs + [ParseI64(extra).value];
    forall i | 0 <= i < |qs|
      ensures ParseI64(qs[i]) == Some(ws[i])
    {
      if i < |ps| {
        assert qs[i] == ps[i];
      }
    }
    ParsePartsOf(qs, ws);
  }

  /** First position of `c` in `s`. */
  function IndexOf(s: string, c: char): (r: Option<nat>)
    ensures r.Some? ==> r.value < |s| && s[r.value] == c && c !in s[..r.value]
    ensures r.None? ==> c !in s
  {
    if |s| == 0 then None
    else if s[0] == c then Some(0)
    else
      match IndexOf(s[1..], c)
      case None => None
      case Some(i) =>
        assert s[..i + 1] == [s[0]] + s[1..][..i];
        Some(i + 1)
  }

  /** Last position of `c` in `s`. */
  function LastIndexOf(s: string, c: char): (r: Option<nat>)
    ensures r.Some? ==> r.value < |s| && s[r.value] == c && c !in s[r.value + 1..]
    ensures r.None? ==> c !in s
  {
    if |s| == 0 then None
    else if s[|s| - 1] == c then Some(|s| - 1)
    else
      match LastIndexOf(s[..|s| - 1], c)
      case None =>
        assert s == s[..|s| - 1] + [s[|s| - 1]];
        None
      case Some(i) =>
        assert s[i + 1..] == s[..|s| - 1][i + 1..] + [s[|s| - 1]];
        Some(i)
  }

  /** `Path::file_stem` of a final path component: the text before the
      last `.`, or the whole name when it is `..` or has no `.` other than
      a leading one. */
  function FileStem(fileName: string): (r: string)
    ensures r == fileName || (0 < |r| < |fileName| && r == fileName[..|r|] && fileName[|r|] == '.' && '.' !in fileName[|r| + 1..])
    ensures r == fileName ==> fileName == ".." || forall i :: 0 < i < |fileName| ==> fileName[i] != '.'
    ensures fileName == ".." ==> r == fileName
  {
    if fileName == ".." then fileName
    else
      match LastIndexOf(fileName, '.')
      case None => fileName
      case Some(i) => if i == 0 then fileName else fileName[..i]
  }

  /** The server version named by the jar link's final component: the
      text after the first `.` of its file stem. */
  function JarVersion(fileName: Option<string>): (r: Result<string>)
    ensures r.Err? ==> r.error == JarPath
    ensures r.Err? <==> fileName.None? || '.' !in FileStem(fileName.value)
    ensures r.Ok? ==> var stem := FileStem(fileName.value);
      var cut := |stem| - |r.value| - 1;
      && 0 <= cut && stem[cut] == '.' && '.' !in stem[..cut] && stem[cut + 1..] == r.value
  {
    match fileName
    case None => Err(JarPath)
    case Some(name) =>
      var stem := FileStem(name);
      match IndexOf(stem, '.')
      case None => Err(JarPath)
      case Some(i) => Ok(stem[i + 1..])
  }

  /** The directory name a new backup gets: `<timestamp>_<version>`. */
  function BackupName(stamp: string, version: string): string
  {
    stamp + "_" + version
  }

  /** `make_backup`'s choice of name for the new snapshot. */
  function MakeBackupName(jarFileName: Option<string>, now: string): (r: Result<string>)
    ensures r.Err? <==> JarVersion(jarFileName).Err?
    ensures r.Err? ==> r.error == JarPath
    ensures r.Ok? ==> r.value == now + "_" + JarVersion(jarFileName).value
  {
    match JarVersion(jarFileName)
    case Err(e) => Err(e)
    case Ok(version) => Ok(BackupName(now, version))
  }

  /** A jar named `<prefix>.<version>.jar`, with no dot in the prefix,
      yields the version; the backup named after it reads back as the
      timestamp and that version, compressed or not. */
  lemma BackupNameRoundTrip(prefix: string, version: string, now: string)
    requires '.' !in prefix
    requires IsTimestamp(now)
    requires |version| > 0 && forall i :: 0 <= i < |version| ==> IsDigit(version[i]) || version[i] == '.'
    ensures MakeBackupName(Some(prefix + "." + version + ".jar"), now) == Ok(now + "_" + version)
    ensures MatchName(now + "_" + version) == Some((now, version))
    ensures MatchName(now + "_" + version + ArchiveSuffix) == Some((now, version))
  {
    var name := prefix + "." + version + ".jar";
    var stem := prefix + "." + version;
    assert name == stem + ".jar";
    var li := LastIndexOf(name, '.');
    assert name[|stem|] == '.';
    assert name[|stem| + 1..] == "jar";
    assert li == Some(|stem|);
    assert FileStem(name) == stem;
    var fi := IndexOf(stem, '.');
    assert stem[|prefix|] == '.';
    assert fi == Some(|prefix|);
    assert stem[|prefix| + 1..] == version;
    assert '\n' !in version;
    DigitOrDotEndNoSuffix(version);
    NameRoundTrip(now, version);
  }
}
