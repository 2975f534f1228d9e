/** The `strftime` conversions the watchface uses, in the "C" locale: from
    section 7.23.3.5 of ISO C99 `%A` (full weekday name), `%B` (full month
    name), `%e` (day of the month, space padded) and `%M` (minute, zero
    padded), and the GNU/BSD extension `%l` (hour of a 12-hour clock, space
    padded). */
module TimeFormat {
  import opened Wrappers
  import opened CStrings

  /** The fields of a broken-down time (`struct tm`) these conversions read:
      tm_min, tm_hour, tm_mday, tm_mon (0 = January), tm_wday (0 = Sunday). */
  datatype Tm = Tm(min: int, hour: int, mday: int, mon: int, wday: int)
  {
    predicate Valid() {
      && 0 <= min <= 59
      && 0 <= hour <= 23
      && 1 <= mday <= 31
      && 0 <= mon <= 11
      && 0 <= wday <= 6
    }
  }

  const Weekdays: seq<seq<byte>> :=
    ["Sunday", "Monday", "Tuesday", "Wednesday", "Thursday", "Friday", "Saturday"]

  const Months: seq<seq<byte>> :=
    ["January", "February", "March", "April", "May", "June", "July",
     "August", "September", "October", "November", "December"]

  /** The hour `%l` shows: 1 to 12, congruent to the 24-hour hour modulo 12,
      so that midnight and noon both read 12. */
  function Hour12(hour: int): (h: int)
    requires 0 <= hour <= 23
    ensures 1 <= h <= 12
    ensures h % 12 == hour % 12
  {
    if hour % 12 == 0 then 12 else hour % 12
  }

  /** Two characters, the tens digit replaced by a space below 10 (`%e`, `%l`). */
  function SpacePadded(n: int): seq<byte>
    requires 0 <= n <= 99
  {
    [if n < 10 then ' ' else DigitChar(n / 10), DigitChar(n % 10)]
  }

  /** Two digits, with a leading zero below 10 (`%M`). */
  function ZeroPadded(n: int): seq<byte>
    requires 0 <= n <= 99
  {
    [DigitChar(n / 10), DigitChar(n % 10)]
  }

  predicate IsPadded(s: string) {
    |s| == 2 && (s[0] == ' ' || IsDigit(s[0])) && IsDigit(s[1])
  }

  /** The number a two-character padded field shows, for either padding. */
  function PaddedValue(s: string): int
    requires IsPadded(s)
  {
    (if s[0] == ' ' then 0 else DigitValue(s[0])) * 10 + DigitValue(s[1])
  }

  lemma PaddedRoundTrip(n: int)
    requires 0 <= n <= 99
    ensures IsPadded(SpacePadded(n)) && PaddedValue(SpacePadded(n)) == n
    ensures IsPadded(ZeroPadded(n)) && PaddedValue(ZeroPadded(n)) == n
    ensures SpacePadded(n)[1] == ZeroPadded(n)[1]
  {
  }

  const Specifiers: set<char> := {'A', 'B', 'e', 'l', 'M'}

  /** Every `%` in the format starts one of the conversions modelled here. */
  predicate Supported(fmt: string)
    decreases |fmt|
  {
    if fmt == [] then true
    else if fmt[0] == '%' then |fmt| >= 2 && fmt[1] in Specifiers && Supported(fmt[2..])
    else Supported(fmt[1..])
  }

  function Convert(spec: char, t: Tm): (r: seq<byte>)
    requires t.Valid() && spec in Specifiers
    ensures 2 <= |r| && '\0' !in r
  {
    match spec
    case 'A' => Weekdays[t.wday]
    case 'B' => Months[t.mon]
    case 'e' => SpacePadded(t.mday)
    case 'l' => SpacePadded(Hour12(t.hour))
    case _ => ZeroPadded(t.min)
  }

  /** The characters `strftime` produces for a format: conversions replaced,
      every other character copied. */
  function Expand(fmt: seq<byte>, t: Tm): (r: seq<byte>)
    requires t.Valid() && Supported(fmt)
    ensures '\0' !in fmt ==> '\0' !in r
    ensures |r| >= |fmt|
    decreases |fmt|
  {
    if fmt == [] then []
    else if fmt[0] == '%' then Convert(fmt[1], t) + Expand(fmt[2..], t)
    else [fmt[0]] + Expand(fmt[1..], t)
  }

  /** `strftime(buf, size, fmt, t)`: the text when it fits in `size` bytes
      together with its NUL; otherwise strftime returns 0 and the buffer's
      contents are indeterminate (None). */
  function Strftime(size: nat, fmt: seq<byte>, t: Tm): (r: Option<seq<byte>>)
    requires t.Valid() && Supported(fmt)
    ensures r.Some? ==> |r.value| < size && r.value == Expand(fmt, t)
    ensures r.None? <==> size <= |Expand(fmt, t)|
  {
    var s := Expand(fmt, t);
    if |s| + 1 <= size then Some(s) else None
  }

  const ClockFormat: seq<byte> := "%l:%M"
  const DateFormat: seq<byte> := "%A, %B %e"

  /** The text of "%l:%M". */
  function ClockString(t: Tm): seq<byte>
    requires t.Valid()
  {
    SpacePadded(Hour12(t.hour)) + ":" + ZeroPadded(t.min)
  }

  /** The text of "%A, %B %e". */
  function DateString(t: Tm): seq<byte>
    requires t.Valid()
  {
    Weekdays[t.wday] + ", " + Months[t.mon] + " " + SpacePadded(t.mday)
  }

  /** strftime with "%l:%M" into 8 bytes yields the clock text: five
      characters, so it never overflows. */
  lemma ClockFits(t: Tm)
    requires t.Valid()
    ensures Supported(ClockFormat)
    ensures Strftime(8, ClockFormat, t) == Some(ClockString(t))
    ensures |ClockString(t)| == 5
  {
    assert ClockFormat[2..] == ":%M";
    assert ":%M"[1..] == "%M";
    assert "%M"[2..] == [];
    assert Expand(ClockFormat, t) == ClockString(t);
  }

  /** strftime with "%A, %B %e" into 32 bytes yields the date text: 14 to
      23 characters, so it never overflows. */
  lemma DateFits(t: Tm)
    requires t.Valid()
    ensures Supported(DateFormat)
    ensures Strftime(32, DateFormat, t) == Some(DateString(t))
    ensures 14 <= |DateString(t)| <= 23
  {
    DateExpansion(t);
    NameLengths(t);
  }

  lemma DateExpansion(t: Tm)
    requires t.Valid()
    ensures Supported(DateFormat)
    ensures Expand(DateFormat, t) == DateString(t)
  {
    var tail := [' '] + (['%', 'e'] + []);
    ExpandConversion('e', [], t);
    ExpandText(' ', ['%', 'e'] + [], t);
    ExpandConversion('B', tail, t);
    ExpandText(' ', ['%', 'B'] + tail, t);
    ExpandText(',', [' '] + (['%', 'B'] + tail), t);
    ExpandConversion('A', [','] + ([' '] + (['%', 'B'] + tail)), t);
    assert DateFormat == ['%', 'A'] + ([','] + ([' '] + (['%', 'B'] + tail)));
  }

  /** A conversion expands to its text, followed by the rest of the format. */
  lemma ExpandConversion(c: byte, rest: seq<byte>, t: Tm)
    requires t.Valid() && c in Specifiers && Supported(rest)
    ensures Supported(['%', c] + rest)
    ensures Expand(['%', c] + rest, t) == Convert(c, t) + Expand(rest, t)
  {
    assert (['%', c] + rest)[2..] == rest;
  }

  /** Any other character is copied, followed by the rest of the format. */
  lemma ExpandText(c: byte, rest: seq<byte>, t: Tm)
    requires t.Valid() && c != '%' && Supported(rest)
    ensures Supported([c] + rest)
    ensures Expand([c] + rest, t) == [c] + Expand(rest, t)
  {
    assert ([c] + rest)[1..] == rest;
  }

  lemma NameLengths(t: Tm)
    requires t.Valid()
    ensures 6 <= |Weekdays[t.wday]| <= 9
    ensures 3 <= |Months[t.mon]| <= 9
  {
  }

  /** Reads the hour and minute back from a clock text. */
  function ReadClock(s: string): (int, int)
    requires |s| == 5 && IsPadded(s[0..2]) && IsPadded(s[3..5])
  {
    (PaddedValue(s[0..2]), PaddedValue(s[3..5]))
  }

  /** The clock text has a colon in the middle and reads back as the
      12-hour hour and the minute of the time. */
  lemma ClockRoundTrip(t: Tm)
    requires t.Valid()
    ensures var s := ClockString(t);
      && |s| == 5 && s[2] == ':'
      && IsPadded(s[0..2]) && IsPadded(s[3..5])
      && ReadClock(s) == (Hour12(t.hour), t.min)
  {
  }

  /** The date text starts with the weekday name and a comma and ends with
      the space-padded day of the month, which reads back as tm_mday. */
  lemma DateRoundTrip(t: Tm)
    requires t.Valid()
    ensures var s := DateString(t);
      && |s| >= |Weekdays[t.wday]| + 2 + 2
      && s[..|Weekdays[t.wday]| + 2] == Weekdays[t.wday] + ", "
      && IsPadded(s[|s| - 2..]) && PaddedValue(s[|s| - 2..]) == t.mday
  {
  }

  /** 09:05 on Tuesday 2 January: the hour and the day are space padded. */
  lemma MorningOfJanuarySecond()
    ensures ClockString(Tm(5, 9, 2, 0, 2)) == " 9:05"
    ensures DateString(Tm(5, 9, 2, 0, 2)) == "Tuesday, January  2"
  {
  }
}
