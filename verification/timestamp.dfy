/** Timestamps as the log merger writes and reads them.

    The merger stamps every persisted record with chrono's `TIME_FORMAT`,
    `%Y-%m-%dT%H:%M:%S%.6f%z`, e.g. `2021-09-17T07:24:29.446013+0000`, and reads
    the kernel facilities' stamps back with the same format after turning a
    decimal comma into a dot.  A parsed stamp is a `DateTime`: the wall-clock
    fields together with the fixed UTC offset they were written in, exactly what
    a `DateTime<FixedOffset>` holds.  Stamps are ordered by the absolute instant
    they denote, measured here in whole microseconds since the Unix epoch. */
module Timestamp {

  datatype Option<T> = None | Some(value: T)

  // ---------------------------------------------------------------------------
  // Decimal fields

  predicate IsDigit(c: char) {
    '0' <= c <= '9'
  }

  predicate AllDigits(s: string) {
    forall k :: 0 <= k < |s| ==> IsDigit(s[k])
  }

  function DigitValue(c: char): nat
    requires IsDigit(c)
  {
    c as int - '0' as int
  }

  function DigitChar(d: nat): (c: char)
    requires d < 10
    ensures IsDigit(c) && DigitValue(c) == d
  {
    (d + '0' as int) as char
  }

  function Pow10(n: nat): nat {
    if n == 0 then 1 else 10 * Pow10(n - 1)
  }

  /** The number a string of decimal digits spells, most significant first. */
  function Value(s: string): nat
    requires AllDigits(s)
    decreases |s|
  {
    if s == [] then 0 else 10 * Value(s[..|s| - 1]) + DigitValue(s[|s| - 1])
  }

  /** `v` written with exactly `width` digits, zero-padded on the left (the
      rendering of `%Y`, `%m`, `%d`, `%H`, `%M`, `%S` and `%.6f`). */
  function Pad(v: nat, width: nat): (s: string)
    ensures |s| == width && AllDigits(s)
  {
    if width == 0 then [] else Pad(v / 10, width - 1) + [DigitChar(v % 10)]
  }

  /** Reading back a zero-padded field gives the number that was written. */
  lemma {:induction false} ValuePad(v: nat, width: nat)
    requires v < Pow10(width)
    ensures Value(Pad(v, width)) == v
  {
    if width > 0 {
      var s, init := Pad(v, width), Pad(v / 10, width - 1);
      assert s == init + [DigitChar(v % 10)];
      assert s[..|s| - 1] == init;
      ShiftBound(v, width - 1);
      ValuePad(v / 10, width - 1);
    }
  }

  /** Dropping the last digit keeps a number within one fewer digit. */
  lemma ShiftBound(v: nat, width: nat)
    requires v < Pow10(width + 1)
    ensures v / 10 < Pow10(width)
  {
  }

  /** Writing back the number a digit string spells gives that string. */
  lemma {:induction false} PadValue(s: string)
    requires AllDigits(s)
    ensures Value(s) < Pow10(|s|)
    ensures Pad(Value(s), |s|) == s
  {
    if s != [] {
      var init := s[..|s| - 1];
      PadValue(init);
      var v := Value(s);
      assert v / 10 == Value(init) && v % 10 == DigitValue(s[|s| - 1]);
      assert s == init + [s[|s| - 1]];
    }
  }

  // ---------------------------------------------------------------------------
  // Calendar

  predicate IsLeapYear(y: int) {
    y % 4 == 0 && (y % 100 != 0 || y % 400 == 0)
  }

  function DaysInMonth(y: int, m: int): int
    requires 1 <= m <= 12
  {
    if m == 2 then (if IsLeapYear(y) then 29 else 28)
    else if m == 4 || m == 6 || m == 9 || m == 11 then 30
    else 31
  }

  /** Wall-clock fields and the fixed offset (minutes east of UTC) they are
      expressed in. */
  datatype DateTime = DateTime(year: int, month: int, day: int,
                               hour: int, minute: int, second: int,
                               micro: int, offset: int)

  /** The stamps the fixed layout can express: a four-digit year, a real
      calendar day, a time of day without leap second, and an offset strictly
      within one day, as chrono's `FixedOffset` demands. */
  predicate Valid(dt: DateTime) {
    && 0 <= dt.year <= 9999
    && 1 <= dt.month <= 12
    && 1 <= dt.day <= DaysInMonth(dt.year, dt.month)
    && 0 <= dt.hour < 24
    && 0 <= dt.minute < 60
    && 0 <= dt.second < 60
    && 0 <= dt.micro < 1000000
    && -1440 < dt.offset < 1440
  }

  /** A date and time the fixed layout can print, such as a reading of the
      local clock. */
  type Stamp = dt: DateTime | Valid(dt) witness DateTime(1970, 1, 1, 0, 0, 0, 0, 0)

  /** Days from 1970-01-01 to the given proleptic Gregorian date (meaningful
      for months 1 to 12). */
  function DaysFromCivil(y: int, m: int, d: int): int {
    var y' := if m <= 2 then y - 1 else y;
    var era := y' / 400;
    var yoe := y' - era * 400;
    var mp := if m > 2 then m - 3 else m + 9;
    var doy := (153 * mp + 2) / 5 + d - 1;
    var doe := yoe * 365 + yoe / 4 - yoe / 100 + doy;
    era * 146097 + doe - 719468
  }

  /** The absolute instant a stamp denotes, in microseconds since the epoch. */
  function Instant(dt: DateTime): int {
    var days := DaysFromCivil(dt.year, dt.month, dt.day);
    var seconds := days * 86400 + dt.hour * 3600 + dt.minute * 60 + dt.second - dt.offset * 60;
    seconds * 1000000 + dt.micro
  }

  /** `a`'s wall clock reads strictly before `b`'s. */
  predicate ClockBefore(a: DateTime, b: DateTime) {
    || a.hour < b.hour
    || (a.hour == b.hour && a.minute < b.minute)
    || (a.hour == b.hour && a.minute == b.minute && a.second < b.second)
    || (a.hour == b.hour && a.minute == b.minute && a.second == b.second && a.micro < b.micro)
  }

  /** Two stamps of the same day in the same offset are ordered by their wall
      clocks. */
  lemma SameDayOrder(a: DateTime, b: DateTime)
    requires Valid(a) && Valid(b)
    requires a.year == b.year && a.month == b.month && a.day == b.day && a.offset == b.offset
    ensures Instant(a) < Instant(b) <==> ClockBefore(a, b)
  {
    var days := DaysFromCivil(a.year, a.month, a.day);
    var base := (days * 86400 - a.offset * 60) * 1000000;
    assert Instant(a) == base + ((a.hour * 60 + a.minute) * 60 + a.second) * 1000000 + a.micro;
    assert Instant(b) == base + ((b.hour * 60 + b.minute) * 60 + b.second) * 1000000 + b.micro;
    MixedRadix(a.hour, a.minute, b.hour, b.minute, 60);
    MixedRadix(a.hour * 60 + a.minute, a.second, b.hour * 60 + b.minute, b.second, 60);
    MixedRadix((a.hour * 60 + a.minute) * 60 + a.second, a.micro, (b.hour * 60 + b.minute) * 60 + b.second, b.micro, 1000000);
  }

  /** Numbers written with a low digit below `radix` compare high digit first. */
  lemma MixedRadix(x: int, y: int, x': int, y': int, radix: int)
    requires 0 <= y < radix && 0 <= y' < radix
    ensures x * radix + y < x' * radix + y' <==> x < x' || (x == x' && y < y')
    ensures x * radix + y == x' * radix + y' <==> x == x' && y == y'
  {
    if x < x' {
      StepUp(x, x', radix);
    } else if x' < x {
      StepUp(x', x, radix);
    }
  }

  lemma StepUp(x: int, x': int, radix: int)
    requires x < x' && 0 <= radix
    ensures x * radix + radix <= x' * radix
  {
    assert x' * radix - x * radix == (x' - x - 1) * radix + radix;
    assert (x' - x - 1) * radix >= 0;
  }

  // ---------------------------------------------------------------------------
  // Writing stamps

  function OffsetMagnitude(dt: DateTime): nat {
    if dt.offset < 0 then -dt.offset else dt.offset
  }

  function DatePart(dt: DateTime): (s: string)
    requires Valid(dt)
    ensures |s| == 10
  {
    Pad(dt.year, 4) + "-" + Pad(dt.month, 2) + "-" + Pad(dt.day, 2)
  }

  /** `HH:MM:SS` followed by the fractional separator and six digits. */
  function TimePart(dt: DateTime, separator: char): (s: string)
    requires Valid(dt)
    ensures |s| == 15
  {
    Pad(dt.hour, 2) + ":" + Pad(dt.minute, 2) + ":" + Pad(dt.second, 2) + [separator] + Pad(dt.micro, 6)
  }

  /** `±HHMM`, or `±HH:MM` when `colon` is set. */
  function ZonePart(dt: DateTime, colon: bool): (s: string)
    requires Valid(dt)
    ensures |s| == if colon then 6 else 5
  {
    var m := OffsetMagnitude(dt);
    [if dt.offset < 0 then '-' else '+'] + Pad(m / 60, 2) + (if colon then ":" else "") + Pad(m % 60, 2)
  }

  /** `dt` rendered with `TIME_FORMAT`, as the merger writes every record. */
  function Format(dt: DateTime): (s: string)
    requires Valid(dt)
    ensures |s| == 31
  {
    DatePart(dt) + "T" + TimePart(dt, '.') + ZonePart(dt, false)
  }

  /** The stamp `dmesg --time-format iso` writes for `dt`: a decimal comma and
      an offset with a colon, e.g. `2021-09-17T07:24:23,364133+00:00`. */
  function DmesgFormat(dt: DateTime): (s: string)
    requires Valid(dt)
    ensures |s| == 32
  {
    DatePart(dt) + "T" + TimePart(dt, ',') + ZonePart(dt, true)
  }

  // ---------------------------------------------------------------------------
  // Reading stamps

  predicate DigitsAt(s: string, at: nat, width: nat) {
    at + width <= |s| && AllDigits(s[at..at + width])
  }

  function FieldAt(s: string, at: nat, width: nat): nat
    requires DigitsAt(s, at, width)
  {
    Value(s[at..at + width])
  }

  /** The character layout `TIME_FORMAT` accepts: `YYYY-MM-DDTHH:MM:SS.ffffff`
      then a sign, two hour digits, an optional colon and two minute digits. */
  predicate Layout(s: string) {
    && (|s| == 31 || (|s| == 32 && s[29] == ':'))
    && DigitsAt(s, 0, 4) && s[4] == '-' && DigitsAt(s, 5, 2) && s[7] == '-' && DigitsAt(s, 8, 2)
    && s[10] == 'T'
    && DigitsAt(s, 11, 2) && s[13] == ':' && DigitsAt(s, 14, 2) && s[16] == ':' && DigitsAt(s, 17, 2)
    && s[19] == '.' && DigitsAt(s, 20, 6)
    && (s[26] == '+' || s[26] == '-') && DigitsAt(s, 27, 2) && DigitsAt(s, |s| - 2, 2)
  }

  /** The offset a well-laid-out stamp spells, in minutes east of UTC. */
  function OffsetField(s: string): int
    requires Layout(s)
  {
    var magnitude := FieldAt(s, 27, 2) * 60 + FieldAt(s, |s| - 2, 2);
    if s[26] == '-' then -magnitude else magnitude
  }

  /** The fields a well-laid-out stamp spells, before any range check. */
  function Fields(s: string): DateTime
    requires Layout(s)
  {
    DateTime(FieldAt(s, 0, 4), FieldAt(s, 5, 2), FieldAt(s, 8, 2),
             FieldAt(s, 11, 2), FieldAt(s, 14, 2), FieldAt(s, 17, 2),
             FieldAt(s, 20, 6), OffsetField(s))
  }

  /** `DateTime::parse_from_str(s, TIME_FORMAT)` on the fixed layout: `None`
      for any token that is not a well-formed stamp of a real date and time. */
  function ParseStamp(s: string): (r: Option<DateTime>)
    ensures r.Some? ==> Valid(r.value)
    ensures r.Some? ==> Layout(s)
  {
    if Layout(s) && FieldAt(s, |s| - 2, 2) < 60 && Valid(Fields(s)) then Some(Fields(s)) else None
  }

  /** Every `,` replaced by `.` (`date.replace(",", ".")`). */
  function Normalize(token: string): (t: string)
    ensures |t| == |token|
    ensures forall k :: 0 <= k < |t| ==> t[k] != ','
    ensures forall k :: 0 <= k < |t| && token[k] != ',' ==> t[k] == token[k]
  {
    seq(|token|, k requires 0 <= k < |token| => if token[k] == ',' then '.' else token[k])
  }

  /** How a record's date token becomes an instant. */
  function ParseDate(token: string): (r: Option<DateTime>)
    ensures r.Some? ==> Valid(r.value)
    ensures r.Some? ==> |token| == 31 || |token| == 32
  {
    ParseStamp(Normalize(token))
  }

  // ---------------------------------------------------------------------------
  // Properties

  /** Where the fields of `dt` sit in a stamp laid out from them. */
  predicate Pieces(dt: DateTime, s: string, colon: bool, separator: char)
    requires Valid(dt)
  {
    && |s| == (if colon then 32 else 31)
    && s[4] == '-' && s[7] == '-' && s[10] == 'T' && s[13] == ':' && s[16] == ':'
    && s[19] == separator
    && s[26] == (if dt.offset < 0 then '-' else '+')
    && (colon ==> s[29] == ':')
    && s[0..4] == Pad(dt.year, 4) && s[5..7] == Pad(dt.month, 2) && s[8..10] == Pad(dt.day, 2)
    && s[11..13] == Pad(dt.hour, 2) && s[14..16] == Pad(dt.minute, 2) && s[17..19] == Pad(dt.second, 2)
    && s[20..26] == Pad(dt.micro, 6)
    && s[27..29] == Pad(OffsetMagnitude(dt) / 60, 2)
    && s[|s| - 2..|s|] == Pad(OffsetMagnitude(dt) % 60, 2)
  }

  /** Reading the fields of a well-laid-out stamp: the separators are where the
      layout puts them and the numbers are those the pieces spell. */
  lemma {:induction false} ParsePieces(dt: DateTime, s: string, colon: bool, separator: char)
    requires Valid(dt)
    requires s == DatePart(dt) + "T" + TimePart(dt, separator) + ZonePart(dt, colon)
    ensures Pieces(dt, s, colon, separator)
  {
    var d, t, z := DatePart(dt), TimePart(dt, separator), ZonePart(dt, colon);
    assert s[0..10] == d && s[10] == 'T' && s[11..26] == t && s[26..] == z;
    DatePieces(dt, s);
    TimePieces(dt, s, separator);
    ZonePieces(dt, s, colon);
  }

  lemma DatePieces(dt: DateTime, s: string)
    requires Valid(dt) && |s| >= 10 && s[0..10] == DatePart(dt)
    ensures s[4] == '-' && s[7] == '-'
    ensures s[0..4] == Pad(dt.year, 4) && s[5..7] == Pad(dt.month, 2) && s[8..10] == Pad(dt.day, 2)
  {
    var d := DatePart(dt);
    DateSlices(dt);
    assert s[4] == d[4] && s[7] == d[7];
    assert s[0..4] == d[0..4] && s[5..7] == d[5..7] && s[8..10] == d[8..10];
  }

  lemma TimePieces(dt: DateTime, s: string, separator: char)
    requires Valid(dt) && |s| >= 26 && s[11..26] == TimePart(dt, separator)
    ensures s[13] == ':' && s[16] == ':' && s[19] == separator
    ensures s[11..13] == Pad(dt.hour, 2) && s[14..16] == Pad(dt.minute, 2) && s[17..19] == Pad(dt.second, 2)
    ensures s[20..26] == Pad(dt.micro, 6)
  {
    var t := TimePart(dt, separator);
    TimeSlices(dt, separator);
    CharWithin(s, 11, t, 2);
    CharWithin(s, 11, t, 5);
    CharWithin(s, 11, t, 8);
    SliceWithin(s, 11, t, 0, 2);
    SliceWithin(s, 11, t, 3, 5);
    SliceWithin(s, 11, t, 6, 8);
    SliceWithin(s, 11, t, 9, 15);
  }

  lemma ZonePieces(dt: DateTime, s: string, colon: bool)
    requires Valid(dt) && |s| >= 26 && s[26..] == ZonePart(dt, colon)
    ensures s[26] == (if dt.offset < 0 then '-' else '+')
    ensures colon ==> s[29] == ':'
    ensures s[27..29] == Pad(OffsetMagnitude(dt) / 60, 2)
    ensures s[|s| - 2..|s|] == Pad(OffsetMagnitude(dt) % 60, 2)
  {
    var z := ZonePart(dt, colon);
    ZoneSlices(dt, colon);
    CharWithin(s, 26, z, 0);
    if colon {
      CharWithin(s, 26, z, 3);
    }
    SliceWithin(s, 26, z, 1, 3);
    SliceWithin(s, 26, z, |z| - 2, |z|);
  }

  lemma DateSlices(dt: DateTime)
    requires Valid(dt)
    ensures var d := DatePart(dt);
      && d[4] == '-' && d[7] == '-'
      && d[0..4] == Pad(dt.year, 4) && d[5..7] == Pad(dt.month, 2) && d[8..10] == Pad(dt.day, 2)
  {
  }

  lemma TimeSlices(dt: DateTime, separator: char)
    requires Valid(dt)
    ensures var t := TimePart(dt, separator);
      && t[2] == ':' && t[5] == ':' && t[8] == separator
      && t[0..2] == Pad(dt.hour, 2) && t[3..5] == Pad(dt.minute, 2) && t[6..8] == Pad(dt.second, 2)
      && t[9..15] == Pad(dt.micro, 6)
  {
  }

  lemma ZoneSlices(dt: DateTime, colon: bool)
    requires Valid(dt)
    ensures var z := ZonePart(dt, colon);
      && z[0] == (if dt.offset < 0 then '-' else '+')
      && (colon ==> z[3] == ':')
      && z[1..3] == Pad(OffsetMagnitude(dt) / 60, 2)
      && z[|z| - 2..] == Pad(OffsetMagnitude(dt) % 60, 2)
  {
  }

  /** A character of a piece placed at `at` in `s`. */
  lemma CharWithin(s: string, at: nat, piece: string, i: nat)
    requires at + |piece| <= |s| && s[at..at + |piece|] == piece && i < |piece|
    ensures s[at + i] == piece[i]
  {
    assert s[at..at + |piece|][i] == s[at + i];
  }

  /** A slice of a piece placed at `at` in `s`. */
  lemma SliceWithin(s: string, at: nat, piece: string, i: nat, j: nat)
    requires at + |piece| <= |s| && s[at..at + |piece|] == piece && i <= j <= |piece|
    ensures s[at + i..at + j] == piece[i..j]
  {
    forall k | 0 <= k < j - i ensures s[at + i..at + j][k] == piece[i..j][k] {
      assert s[at..at + |piece|][i + k] == s[at + i + k];
    }
  }

  /** A stamp laid out from `dt`'s fields with `.` as separator parses to `dt`. */
  lemma ParseLaidOut(dt: DateTime, s: string, colon: bool)
    requires Valid(dt)
    requires s == DatePart(dt) + "T" + TimePart(dt, '.') + ZonePart(dt, colon)
    ensures ParseStamp(s) == Some(dt)
  {
    ParsePieces(dt, s, colon, '.');
    LaidOutFields(dt, s, colon);
    var m := OffsetMagnitude(dt);
    assert OffsetField(s) == dt.offset by {
      assert m / 60 * 60 + m % 60 == m;
    }
    assert Fields(s) == dt;
  }

  /** The layout of a stamp laid out from `dt`'s fields, and the numbers its
      fields spell. */
  lemma LaidOutFields(dt: DateTime, s: string, colon: bool)
    requires Valid(dt) && Pieces(dt, s, colon, '.')
    ensures Layout(s)
    ensures FieldAt(s, 0, 4) == dt.year && FieldAt(s, 5, 2) == dt.month && FieldAt(s, 8, 2) == dt.day
    ensures FieldAt(s, 11, 2) == dt.hour && FieldAt(s, 14, 2) == dt.minute && FieldAt(s, 17, 2) == dt.second
    ensures FieldAt(s, 20, 6) == dt.micro
    ensures FieldAt(s, 27, 2) == OffsetMagnitude(dt) / 60
    ensures FieldAt(s, |s| - 2, 2) == OffsetMagnitude(dt) % 60
    ensures s[26] == (if dt.offset < 0 then '-' else '+')
  {
    Pow10Values();
    var m := OffsetMagnitude(dt);
    FieldIs(s, 0, 4, dt.year);
    FieldIs(s, 5, 2, dt.month);
    FieldIs(s, 8, 2, dt.day);
    FieldIs(s, 11, 2, dt.hour);
    FieldIs(s, 14, 2, dt.minute);
    FieldIs(s, 17, 2, dt.second);
    FieldIs(s, 20, 6, dt.micro);
    FieldIs(s, 27, 2, m / 60);
    FieldIs(s, |s| - 2, 2, m % 60);
  }

  /** A zero-padded number in place reads back as that number. */
  lemma FieldIs(s: string, at: nat, width: nat, v: nat)
    requires at + width <= |s| && s[at..at + width] == Pad(v, width) && v < Pow10(width)
    ensures DigitsAt(s, at, width) && FieldAt(s, at, width) == v
  {
    ValuePad(v, width);
  }

  lemma Pow10Values()
    ensures Pow10(2) == 100 && Pow10(4) == 10000 && Pow10(6) == 1000000
  {
    assert Pow10(1) == 10;
    assert Pow10(3) == 1000;
    assert Pow10(5) == 100000;
  }

  /** Round trip: a stamp written with `TIME_FORMAT` reads back as the same
      date, time and offset, hence the same instant. */
  lemma FormatRoundTrip(dt: DateTime)
    requires Valid(dt)
    ensures ParseDate(Format(dt)) == Some(dt)
  {
    NormalizeLaidOut(dt, '.', false);
    ParseLaidOut(dt, Format(dt), false);
  }

  /** A decimal comma anywhere in a token is read exactly as a dot would be. */
  lemma CommaReadsAsDot(token: string, k: nat)
    requires k < |token| && token[k] == ','
    ensures ParseDate(token) == ParseDate(token[k := '.'])
  {
    assert Normalize(token) == Normalize(token[k := '.']);
  }

  predicate NoComma(s: string) {
    forall k :: 0 <= k < |s| ==> s[k] != ','
  }

  /** Normalizing a laid-out stamp only turns its fractional separator into a dot. */
  lemma NormalizeLaidOut(dt: DateTime, separator: char, colon: bool)
    requires Valid(dt) && (separator == ',' || separator == '.')
    ensures Normalize(DatePart(dt) + "T" + TimePart(dt, separator) + ZonePart(dt, colon))
         == DatePart(dt) + "T" + TimePart(dt, '.') + ZonePart(dt, colon)
  {
    LaidOutAround(dt, separator, colon);
    LaidOutAround(dt, '.', colon);
    HeadNoComma(dt);
    TailNoComma(dt, colon);
    NormalizeAround(StampHead(dt), separator, StampTail(dt, colon));
  }

  /** A stamp up to its fractional separator: `YYYY-MM-DDTHH:MM:SS`. */
  function StampHead(dt: DateTime): string
    requires Valid(dt)
  {
    DatePart(dt) + "T" + Pad(dt.hour, 2) + ":" + Pad(dt.minute, 2) + ":" + Pad(dt.second, 2)
  }

  /** A stamp after its fractional separator: the fraction and the zone. */
  function StampTail(dt: DateTime, colon: bool): string
    requires Valid(dt)
  {
    Pad(dt.micro, 6) + ZonePart(dt, colon)
  }

  lemma LaidOutAround(dt: DateTime, separator: char, colon: bool)
    requires Valid(dt)
    ensures DatePart(dt) + "T" + TimePart(dt, separator) + ZonePart(dt, colon)
         == StampHead(dt) + [separator] + StampTail(dt, colon)
  {
  }

  lemma HeadNoComma(dt: DateTime)
    requires Valid(dt)
    ensures NoComma(StampHead(dt))
  {
    var head := StampHead(dt);
    forall k | 0 <= k < |head| ensures head[k] != ',' {
      assert IsDigit(head[k]) || head[k] in "-T:";
    }
  }

  lemma TailNoComma(dt: DateTime, colon: bool)
    requires Valid(dt)
    ensures NoComma(StampTail(dt, colon))
  {
    var tail := StampTail(dt, colon);
    forall k | 0 <= k < |tail| ensures tail[k] != ',' {
      assert IsDigit(tail[k]) || tail[k] in "+-:";
    }
  }

  /** Normalizing text without commas around one separator only turns that
      separator into a dot. */
  lemma NormalizeAround(head: string, separator: char, tail: string)
    requires NoComma(head) && NoComma(tail) && (separator == ',' || separator == '.')
    ensures Normalize(head + [separator] + tail) == head + ['.'] + tail
  {
    var x, y := head + [separator] + tail, head + ['.'] + tail;
    forall k | 0 <= k < |x| ensures Normalize(x)[k] == y[k] {
      if k < |head| {
        assert x[k] == head[k] && y[k] == head[k];
      } else if k > |head| {
        assert x[k] == tail[k - |head| - 1] && y[k] == tail[k - |head| - 1];
      }
    }
  }

  /** The stamps `dmesg` writes (decimal comma, `+HH:MM` offset) are read as
      the stamp they denote. */
  lemma DmesgStampParses(dt: DateTime)
    requires Valid(dt)
    ensures ParseDate(DmesgFormat(dt)) == Some(dt)
  {
    NormalizeLaidOut(dt, ',', true);
    ParseLaidOut(dt, DatePart(dt) + "T" + TimePart(dt, '.') + ZonePart(dt, true), true);
  }

  /** The parser reads exactly the characters of the layout: the stamp it
      accepts agrees with the canonical rendering of its result up to the
      offset. */
  lemma ParsedStampIsCanonical(s: string)
    requires ParseStamp(s).Some?
    ensures Format(ParseStamp(s).value)[..26] == s[..26]
  {
    var dt := ParseStamp(s).value;
    var f := Format(dt);
    ParsePieces(dt, f, false, '.');
    PadValue(s[0..4]);
    PadValue(s[5..7]);
    PadValue(s[8..10]);
    PadValue(s[11..13]);
    PadValue(s[14..16]);
    PadValue(s[17..19]);
    PadValue(s[20..26]);
    forall k | 0 <= k < 26
      ensures f[k] == s[k]
    {
      if k < 4 { assert f[k] == f[0..4][k] && s[k] == s[0..4][k]; }
      else if 5 <= k < 7 { assert f[k] == f[5..7][k - 5] && s[k] == s[5..7][k - 5]; }
      else if 8 <= k < 10 { assert f[k] == f[8..10][k - 8] && s[k] == s[8..10][k - 8]; }
      else if 11 <= k < 13 { assert f[k] == f[11..13][k - 11] && s[k] == s[11..13][k - 11]; }
      else if 14 <= k < 16 { assert f[k] == f[14..16][k - 14] && s[k] == s[14..16][k - 14]; }
      else if 17 <= k < 19 { assert f[k] == f[17..19][k - 17] && s[k] == s[17..19][k - 17]; }
      else if 20 <= k < 26 { assert f[k] == f[20..26][k - 20] && s[k] == s[20..26][k - 20]; }
    }
  }

  // ---------------------------------------------------------------------------
  // Calendar order

  /** The date fields name a real day of the proleptic Gregorian calendar. */
  predicate IsDate(dt: DateTime) {
    1 <= dt.month <= 12 && 1 <= dt.day <= DaysInMonth(dt.year, dt.month)
  }

  /** The calendar day after the date of `dt`, at the same time of day. */
  function NextDay(dt: DateTime): (next: DateTime)
    requires IsDate(dt)
    ensures IsDate(next) && dt.year <= next.year
    ensures next.(year := dt.year, month := dt.month, day := dt.day) == dt
  {
    if dt.day < DaysInMonth(dt.year, dt.month) then dt.(day := dt.day + 1)
    else if dt.month < 12 then dt.(month := dt.month + 1, day := 1)
    else dt.(year := dt.year + 1, month := 1, day := 1)
  }

  /** The next day of a month is one day later. */
  lemma DaysNextInMonth(y: int, m: int, d: int)
    requires 1 <= m <= 12 && d < DaysInMonth(y, m)
    ensures DaysFromCivil(y, m, d + 1) == DaysFromCivil(y, m, d) + 1
  {
  }

  /** The first day of a month follows the last day of the month before. */
  lemma DaysNextMonth(y: int, m: int)
    requires 1 <= m < 12
    ensures DaysFromCivil(y, m + 1, 1) == DaysFromCivil(y, m, DaysInMonth(y, m)) + 1
  {
    if m == 2 {
      YearLength(y);
    }
  }

  /** Days before 1 March of `y` (in the shifted year that starts in March),
      up to the constant offset of the epoch. */
  function MarchFirst(y: int): int {
    var era := y / 400;
    var yoe := y - era * 400;
    era * 146097 + yoe * 365 + yoe / 4 - yoe / 100
  }

  /** A March-to-February year has 366 days when its February is a leap
      February, and 365 otherwise. */
  lemma YearLength(y: int)
    ensures MarchFirst(y) - MarchFirst(y - 1) == if IsLeapYear(y) then 366 else 365
    ensures DaysFromCivil(y, 3, 1) == MarchFirst(y) - 719468
    ensures DaysFromCivil(y, 2, DaysInMonth(y, 2)) == MarchFirst(y - 1) + 336 + DaysInMonth(y, 2) - 719468
  {
    var q, r := y / 400, y % 400;
    if r == 0 {
      EraBoundary(y, q);
    } else {
      WithinEra(y, q, r);
    }
  }

  lemma EraBoundary(y: int, q: int)
    requires y == 400 * q
    ensures MarchFirst(y) - MarchFirst(y - 1) == 366 && IsLeapYear(y)
  {
    DivMod(y, 400, q, 0);
    DivMod(y - 1, 400, q - 1, 399);
    DivMod(y, 4, 100 * q, 0);
    DivMod(y, 100, 4 * q, 0);
  }

  lemma WithinEra(y: int, q: int, r: int)
    requires y == 400 * q + r && 0 < r < 400
    ensures MarchFirst(y) - MarchFirst(y - 1) == if IsLeapYear(y) then 366 else 365
  {
    DivMod(y, 400, q, r);
    DivMod(y - 1, 400, q, r - 1);
    DivMod(y, 4, 100 * q + r / 4, r % 4);
    DivMod(y, 100, 4 * q + r / 100, r % 100);
    StepQuotient(r, 4);
    StepQuotient(r, 100);
  }

  lemma DivMod(x: int, d: int, a: int, b: int)
    requires d > 0 && x == d * a + b && 0 <= b < d
    ensures x / d == a && x % d == b
  {
    var a', b' := x / d, x % d;
    assert d * (a - a') == b' - b;
    MulGrows(d, a - a');
  }

  /** A non-zero multiple of `d` is at least `d` away from zero. */
  lemma {:induction false} MulGrows(d: int, k: int)
    requires d > 0
    ensures k >= 1 ==> d * k >= d
    ensures k <= -1 ==> d * k <= -d
    decreases if k < 0 then -k else k
  {
    if k > 1 {
      MulGrows(d, k - 1);
      assert d * k == d * (k - 1) + d;
    } else if k < -1 {
      MulGrows(d, k + 1);
      assert d * k == d * (k + 1) - d;
    }
  }

  /** One more unit adds one to the quotient exactly at a multiple. */
  lemma StepQuotient(r: int, d: int)
    requires 0 < r && d > 0
    ensures r / d - (r - 1) / d == if r % d == 0 then 1 else 0
  {
    DivMod(r, d, r / d, r % d);
    if r % d == 0 {
      DivMod(r - 1, d, r / d - 1, d - 1);
    } else {
      DivMod(r - 1, d, r / d, r % d - 1);
    }
  }

  /** 1 January follows 31 December of the year before. */
  lemma DaysNextYear(y: int)
    ensures DaysFromCivil(y + 1, 1, 1) == DaysFromCivil(y, 12, 31) + 1
  {
  }

  /** The next calendar day is exactly one day of instants later. */
  lemma NextDayIsOneDayLater(dt: DateTime)
    requires IsDate(dt)
    ensures DaysFromCivil(NextDay(dt).year, NextDay(dt).month, NextDay(dt).day)
         == DaysFromCivil(dt.year, dt.month, dt.day) + 1
    ensures Instant(NextDay(dt)) == Instant(dt) + 86400 * 1000000
  {
    NextDayDays(dt);
  }

  lemma NextDayDays(dt: DateTime)
    requires IsDate(dt)
    ensures DaysFromCivil(NextDay(dt).year, NextDay(dt).month, NextDay(dt).day)
         == DaysFromCivil(dt.year, dt.month, dt.day) + 1
  {
    if dt.day < DaysInMonth(dt.year, dt.month) {
      DaysNextInMonth(dt.year, dt.month, dt.day);
    } else if dt.month < 12 {
      DaysNextMonth(dt.year, dt.month);
    } else {
      DaysNextYear(dt.year);
    }
  }

  /** The same instant written with an offset `minutes` further east of UTC:
      the wall clock moves `minutes` forward, into the following day or the
      day after when it passes midnight. */
  function ShiftOffset(dt: DateTime, minutes: nat): DateTime
    requires Valid(dt)
  {
    var t := dt.hour * 60 + dt.minute + minutes;
    var moved := if t < 1440 then dt else if t < 2880 then NextDay(dt) else NextDay(NextDay(dt));
    var u := t % 1440;
    moved.(hour := u / 60, minute := u % 60, offset := dt.offset + minutes)
  }

  /** Two stamps of the same moment written in different offsets compare
      equal, also when they fall on different calendar days: ordering is by
      absolute instant, not by the text.  Every pair of offsets is covered by
      shifting from the smaller one. */
  lemma InstantIgnoresOffset(dt: DateTime, minutes: nat)
    requires Valid(dt) && dt.offset + minutes < 1440
    ensures Instant(ShiftOffset(dt, minutes)) == Instant(dt)
    ensures ShiftOffset(dt, minutes).year <= 9999 ==> Valid(ShiftOffset(dt, minutes))
  {
    var t := dt.hour * 60 + dt.minute + minutes;
    MovedDays(dt, t);
    ClockShift(DaysFromCivil(dt.year, dt.month, dt.day), dt.hour, dt.minute, dt.offset, minutes);
  }

  /** The date `t / 1440` days after that of `dt`, as `ShiftOffset` picks it. */
  lemma MovedDays(dt: DateTime, t: int)
    requires IsDate(dt) && 0 <= t < 4320
    ensures var moved := if t < 1440 then dt else if t < 2880 then NextDay(dt) else NextDay(NextDay(dt));
      && DaysFromCivil(moved.year, moved.month, moved.day) == DaysFromCivil(dt.year, dt.month, dt.day) + t / 1440
      && IsDate(moved) && dt.year <= moved.year
      && moved.(year := dt.year, month := dt.month, day := dt.day) == dt
  {
    if t >= 1440 {
      NextDayDays(dt);
    }
    if t >= 2880 {
      NextDayDays(NextDay(dt));
    }
  }

  /** Moving the wall clock `minutes` forward, carrying whole days into the
      date, and the offset with it leaves the seconds since the epoch alone. */
  lemma ClockShift(days: int, hour: int, minute: int, offset: int, minutes: nat)
    requires 0 <= hour * 60 + minute
    ensures var t := hour * 60 + minute + minutes; var u := t % 1440;
      (days + t / 1440) * 86400 + (u / 60) * 3600 + (u % 60) * 60 - (offset + minutes) * 60
        == days * 86400 + hour * 3600 + minute * 60 - offset * 60
  {
    var t := hour * 60 + minute + minutes;
    var u := t % 1440;
    assert t == t / 1440 * 1440 + u;
    assert (u / 60) * 3600 + (u % 60) * 60 == u * 60;
  }
}
