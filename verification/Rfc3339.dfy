/** Timestamps as the daemon prints them (section 5.6 of RFC 3339): a cursor parser, a printer
    whose output it reads back, and exactly which accepted texts the printer can produce. */
module Rfc3339 {
  import opened Wrappers
  import opened CivilDate

  // ----- integers as the library reads them

  predicate Digit(c: char) {
    '0' <= c <= '9'
  }

  function DigitValue(c: char): nat
    requires Digit(c)
  {
    c as int - 48
  }

  predicate AllDigits(s: string) {
    forall i :: 0 <= i < |s| ==> Digit(s[i])
  }

  function DigitsValue(s: string): nat
    requires AllDigits(s)
  {
    if s == "" then 0
    else
      DigitsValue(s[..|s| - 1]) * 10 + DigitValue(s[|s| - 1])
  }

  /** The number a whole text spells: digits, with a minus sign allowed in front. */
  function IntValue(s: string): Option<int> {
    if s != "" && AllDigits(s) then Some(DigitsValue(s))
    else if 1 < |s| && s[0] == '-' && AllDigits(s[1..]) then Some(-(DigitsValue(s[1..]) as int))
    else None
  }

  predicate Field(s: string, min: int, max: int) {
    IntValue(s).Some? && min <= IntValue(s).value <= max
  }

  function Val(s: string): int {
    if IntValue(s).Some? then IntValue(s).value else 0
  }

  // ----- the accepted texts

  /** YYYY-MM-DDTHH:MM:SS, each field within its fixed bounds. */
  predicate DateTime(t: string)
    requires |t| == 19
  {
    && Field(t[0..4], 0, 9999) && t[4] == '-' && Field(t[5..7], 1, 12) && t[7] == '-' && Field(t[8..10], 1, 31)
    && (t[10] == 'T' || t[10] == 't')
    && Field(t[11..13], 0, 23) && t[13] == ':' && Field(t[14..16], 0, 59) && t[16] == ':' && Field(t[17..19], 0, 60)
  }

  /** How many digits `s` starts with. */
  function DigitRun(s: string): (n: nat)
    ensures n <= |s|
  {
    if s != "" && Digit(s[0]) then 1 + DigitRun(s[1..]) else 0
  }

  /** Length of the optional fraction: none, or a point and every digit after it. */
  function FractionLength(s: string): (n: nat)
    ensures n <= |s|
  {
    if s != "" && s[0] == '.' then 1 + DigitRun(s[1..]) else 0
  }

  predicate Zone(z: string) {
    || z == "Z" || z == "z"
    || (|z| == 6 && (z[0] == '+' || z[0] == '-') && Field(z[1..3], 0, 23) && z[3] == ':' && Field(z[4..6], 0, 59))
  }

  predicate Accepted(text: string) {
    && 19 <= |text| && DateTime(text[..19])
    && var f := FractionLength(text[19..]);
       f != 1 && Zone(text[19 + f..])
  }

  function OffsetSeconds(z: string): int
    requires Zone(z)
  {
    if |z| == 1 then 0
    else
      var s := (Val(z[1..3]) * 60 + Val(z[4..6])) * 60;
      if z[0] == '-' then -s else s
  }

  function Min(a: int, b: int): int {
    if a < b then a else b
  }

  function LocalSeconds(t: string): int
    requires |t| == 19 && DateTime(t)
  {
    DaysFromCivil(Date(Val(t[0..4]), Val(t[5..7]), Val(t[8..10]))) * 86400
    + Val(t[11..13]) * 3600 + Val(t[14..16]) * 60 + Min(Val(t[17..19]), 59)
  }

  function InstantOf(text: string): int
    requires Accepted(text)
  {
    LocalSeconds(text[..19]) - OffsetSeconds(text[19 + FractionLength(text[19..])..])
  }

  function Parsed(text: string): Option<int> {
    if Accepted(text) then Some(InstantOf(text)) else None
  }

  // ----- the parser

  method ReadInt(text: string, p: nat, digits: nat, min: int, max: int) returns (v: Option<int>)
    requires p <= |text|
    ensures v.Some? <==> p + digits <= |text| && Field(text[p..p + digits], min, max)
    ensures v.Some? ==> v.value == Val(text[p..p + digits])
  {
    if |text| - p < digits {
      return None;
    }
    v := IntValue(text[p..p + digits]);
    if v.None? || v.value < min || max < v.value {
      return None;
    }
  }

  method Expect(text: string, p: nat, c: char) returns (ok: bool)
    ensures ok <==> p < |text| && text[p] == c
  {
    ok := p < |text| && text[p] == c;
  }

  method ReadDate(text: string) returns (d: Option<Date>)
    ensures d.Some? <==> && 10 <= |text| && Field(text[0..4], 0, 9999) && text[4] == '-'
                         && Field(text[5..7], 1, 12) && text[7] == '-' && Field(text[8..10], 1, 31)
    ensures d.Some? ==> d.value == Date(Val(text[0..4]), Val(text[5..7]), Val(text[8..10]))
  {
    var year := ReadInt(text, 0, 4, 0, 9999);
    if year.None? { return None; }
    var ok := Expect(text, 4, '-');
    if !ok { return None; }
    var month := ReadInt(text, 5, 2, 1, 12);
    if month.None? { return None; }
    ok := Expect(text, 7, '-');
    if !ok { return None; }
    var day := ReadInt(text, 8, 2, 1, 31);
    if day.None? { return None; }
    return Some(Date(year.value, month.value, day.value));
  }

  /** Seconds into the day, a leap second clamped. */
  method ReadTime(text: string) returns (s: Option<int>)
    requires 11 <= |text|
    ensures s.Some? <==> && 19 <= |text| && Field(text[11..13], 0, 23) && text[13] == ':'
                         && Field(text[14..16], 0, 59) && text[16] == ':' && Field(text[17..19], 0, 60)
    ensures s.Some? ==> s.value == Val(text[11..13]) * 3600 + Val(text[14..16]) * 60 + Min(Val(text[17..19]), 59)
  {
    var hour := ReadInt(text, 11, 2, 0, 23);
    if hour.None? { return None; }
    var ok := Expect(text, 13, ':');
    if !ok { return None; }
    var minute := ReadInt(text, 14, 2, 0, 59);
    if minute.None? { return None; }
    ok := Expect(text, 16, ':');
    if !ok { return None; }
    var second := ReadInt(text, 17, 2, 0, 60);
    if second.None? { return None; }
    return Some(hour.value * 3600 + minute.value * 60 + Min(second.value, 59));
  }

  /** The cursor behind the fraction, or nothing when a point has no digit after it. */
  method SkipFraction(text: string) returns (p: Option<nat>)
    requires 19 <= |text|
    ensures p == if FractionLength(text[19..]) == 1 then None else Some(19 + FractionLength(text[19..]))
  {
    var q := 19;
    var point := Expect(text, q, '.');
    if !point {
      return Some(q);
    }
    assert text[19..][1..] == text[20..];
    q := 20;
    while q < |text| && Digit(text[q])
      invariant 20 <= q <= |text|
      invariant q - 20 + DigitRun(text[q..]) == DigitRun(text[20..])
    {
      assert text[q..][1..] == text[q + 1..];
      q := q + 1;
    }
    return if q == 20 then None else Some(q);
  }

  /** Reads the zone, which must be all that is left. */
  method ReadZone(text: string, p: nat) returns (offset: Option<int>)
    requires p <= |text|
    ensures offset.Some? <==> Zone(text[p..])
    ensures offset.Some? ==> offset.value == OffsetSeconds(text[p..])
  {
    ghost var z := text[p..];
    var q := p;
    var seconds := 0;
    if q < |text| && (text[q] == 'Z' || text[q] == 'z') {
      q := q + 1;
      assert q == |text| <==> |z| == 1;
      assert |z| == 1 ==> z == [z[0]];
    } else if q < |text| && (text[q] == '+' || text[q] == '-') {
      var negative := text[q] == '-';
      q := q + 1;
      assert |z| >= 3 ==> text[q..q + 2] == z[1..3];
      assert |z| >= 6 ==> text[q + 3..q + 5] == z[4..6];
      var offHour := ReadInt(text, q, 2, 0, 23);
      if offHour.None? { return None; }
      var ok := Expect(text, q + 2, ':');
      if !ok { return None; }
      var offMinute := ReadInt(text, q + 3, 2, 0, 59);
      if offMinute.None? { return None; }
      q := q + 5;
      seconds := (offHour.value * 60 + offMinute.value) * 60;
      if negative {
        seconds := -seconds;
      }
    } else {
      return None;
    }
    if q != |text| {
      return None;
    }
    return Some(seconds);
  }

  method ParseRfc3339(text: string) returns (r: Option<int>)
    ensures r == Parsed(text)
  {
    HeadSlices(text);
    var date := ReadDate(text);
    if date.None? { return None; }
    if !(10 < |text| && (text[10] == 'T' || text[10] == 't')) { return None; }
    var time := ReadTime(text);
    if time.None? { return None; }
    var p := SkipFraction(text);
    if p.None? { return None; }
    var offset := ReadZone(text, p.value);
    if offset.None? { return None; }
    return Some(DaysFromCivil(date.value) * 86400 + time.value - offset.value);
  }

  lemma HeadSlices(text: string)
    ensures 19 <= |text| ==>
      forall i, j :: 0 <= i <= j <= 19 ==> text[..19][i..j] == text[i..j]
  {
  }

  // ----- printing and reading back

  datatype ZoneSpelling = Utc(upper: bool) | Offset(negative: bool, hours: nat, minutes: nat)

  /** One RFC 3339 spelling of an instant; `fraction` is empty or a digit string. */
  datatype Timestamp = Timestamp(date: Date, hour: nat, minute: nat, second: nat, fraction: string,
                                 upperT: bool, zone: ZoneSpelling)

  predicate ValidStamp(ts: Timestamp) {
    && Valid(ts.date) && 0 <= ts.date.year <= 9999
    && ts.hour <= 23 && ts.minute <= 59 && ts.second <= 60 && AllDigits(ts.fraction)
    && (ts.zone.Offset? ==> ts.zone.hours <= 23 && ts.zone.minutes <= 59)
  }

  /** `n` in decimal with exactly `width` digits. */
  function Padded(n: nat, width: nat): (s: string)
    ensures |s| == width
  {
    if width == 0 then "" else Padded(n / 10, width - 1) + ['0' + (n % 10) as char]
  }

  function PrintZone(z: ZoneSpelling): string {
    match z
    case Utc(upper) => if upper then "Z" else "z"
    case Offset(negative, h, m) => (if negative then "-" else "+") + Padded(h, 2) + ":" + Padded(m, 2)
  }

  function PrintFraction(digits: string): string {
    if digits == "" then "" else "." + digits
  }

  function PrintDateTime(ts: Timestamp): (s: string)
    requires ValidStamp(ts)
    ensures |s| == 19
  {
    Padded(ts.date.year, 4) + "-" + Padded(ts.date.month, 2) + "-" + Padded(ts.date.day, 2)
    + (if ts.upperT then "T" else "t")
    + Padded(ts.hour, 2) + ":" + Padded(ts.minute, 2) + ":" + Padded(ts.second, 2)
  }

  function Print(ts: Timestamp): string
    requires ValidStamp(ts)
  {
    PrintDateTime(ts) + PrintFraction(ts.fraction) + PrintZone(ts.zone)
  }

  function ZoneOffset(z: ZoneSpelling): int {
    match z
    case Utc(_) => 0
    case Offset(negative, h, m) => if negative then -(h * 3600 + m * 60) else h * 3600 + m * 60
  }

  /** Seconds on the local clock a timestamp shows; a leap second counts as the second
      before it. */
  function LocalClock(ts: Timestamp): int
    requires ValidStamp(ts)
  {
    DaysFromCivil(ts.date) * 86400 + ts.hour * 3600 + ts.minute * 60 + Min(ts.second, 59)
  }

  /** Seconds since the epoch. */
  function Instant(ts: Timestamp): int
    requires ValidStamp(ts)
  {
    LocalClock(ts) - ZoneOffset(ts.zone)
  }

  lemma {:induction false} PaddedValue(n: nat, width: nat)
    requires n < Pow10(width)
    ensures AllDigits(Padded(n, width)) && DigitsValue(Padded(n, width)) == n
    decreases width
  {
    if width == 0 {
    } else {
      PaddedValue(n / 10, width - 1);
      var s := Padded(n, width);
      assert s[..width - 1] == Padded(n / 10, width - 1);
    }
  }

  function Pow10(k: nat): (p: nat)
    ensures 0 < p
  {
    if k == 0 then 1 else Pow10(k - 1) * 10
  }

  lemma PaddedIsField(n: nat, width: nat, max: nat)
    requires 0 < width && n <= max < Pow10(width)
    ensures Field(Padded(n, width), n, max) && Val(Padded(n, width)) == n
  {
    PaddedValue(n, width);
  }

  lemma TwoDigits(n: nat)
    requires n <= 99
    ensures Field(Padded(n, 2), n, n) && Val(Padded(n, 2)) == n
  {
    assert Pow10(2) == 100 by { assert Pow10(1) == 10; }
    PaddedIsField(n, 2, n);
  }

  lemma PrintedDateTime(ts: Timestamp)
    requires ValidStamp(ts)
    ensures DateTime(PrintDateTime(ts))
    ensures LocalSeconds(PrintDateTime(ts)) == LocalClock(ts)
  {
    var s := PrintDateTime(ts);
    assert s[0..4] == Padded(ts.date.year, 4);
    assert s[5..7] == Padded(ts.date.month, 2) && s[8..10] == Padded(ts.date.day, 2);
    assert s[11..13] == Padded(ts.hour, 2) && s[14..16] == Padded(ts.minute, 2) && s[17..19] == Padded(ts.second, 2);
    FourDigits(ts.date.year);
    TwoDigits(ts.date.month);
    TwoDigits(ts.date.day);
    TwoDigits(ts.hour);
    TwoDigits(ts.minute);
    TwoDigits(ts.second);
  }

  lemma FourDigits(n: nat)
    requires n <= 9999
    ensures Field(Padded(n, 4), n, n) && Val(Padded(n, 4)) == n
  {
    assert Pow10(4) == 10000 by { assert Pow10(1) == 10 && Pow10(2) == 100 && Pow10(3) == 1000; }
    PaddedIsField(n, 4, n);
  }

  lemma PrintedZone(z: ZoneSpelling)
    requires z.Offset? ==> z.hours <= 23 && z.minutes <= 59
    ensures Zone(PrintZone(z)) && OffsetSeconds(PrintZone(z)) == ZoneOffset(z)
  {
    if z.Offset? {
      var s := PrintZone(z);
      assert s[1..3] == Padded(z.hours, 2) && s[4..6] == Padded(z.minutes, 2);
      TwoDigits(z.hours);
      TwoDigits(z.minutes);
    }
  }

  lemma {:induction false} DigitRunOf(digits: string, rest: string)
    requires AllDigits(digits) && (rest == "" || !Digit(rest[0]))
    ensures DigitRun(digits + rest) == |digits|
    decreases |digits|
  {
    if digits == "" {
      assert digits + rest == rest;
    } else {
      assert (digits + rest)[1..] == digits[1..] + rest;
      DigitRunOf(digits[1..], rest);
    }
  }

  lemma ZoneStart(zone: ZoneSpelling)
    ensures var z := PrintZone(zone); z != "" && !Digit(z[0]) && z[0] != '.'
  {
  }

  lemma PrintedFraction(fraction: string, zone: ZoneSpelling)
    requires AllDigits(fraction)
    ensures FractionLength(PrintFraction(fraction) + PrintZone(zone)) == |PrintFraction(fraction)| != 1
  {
    var z := PrintZone(zone);
    ZoneStart(zone);
    if fraction == "" {
      assert "" + z == z;
    } else {
      DigitRunOf(fraction, z);
      hide PrintZone, DigitRun;
      assert ("." + fraction + z)[1..] == fraction + z;
    }
  }

  lemma Assembled(head: string, f: string, zone: string)
    requires |head| == 19 && DateTime(head) && Zone(zone)
    requires |f| != 1 && FractionLength(f + zone) == |f|
    ensures Parsed(head + f + zone) == Some(LocalSeconds(head) - OffsetSeconds(zone))
  {
    var text := head + f + zone;
    assert text[..19] == head && text[19..] == f + zone;
    assert text[19 + |f|..] == zone;
  }

  /** A printed timestamp is accepted and parses to its instant, to the second. */
  lemma PrintParses(ts: Timestamp)
    requires ValidStamp(ts)
    ensures Parsed(Print(ts)) == Some(Instant(ts))
  {
    hide Parsed, PrintDateTime, PrintZone, PrintFraction, DateTime, Zone, FractionLength, LocalSeconds, OffsetSeconds;
    PrintedDateTime(ts);
    PrintedZone(ts.zone);
    PrintedFraction(ts.fraction, ts.zone);
    Assembled(PrintDateTime(ts), PrintFraction(ts.fraction), PrintZone(ts.zone));
  }

  /** Two spellings parse equal exactly when their local clocks differ by their offsets. */
  lemma OffsetsAgree(a: Timestamp, b: Timestamp)
    requires ValidStamp(a) && ValidStamp(b)
    ensures Parsed(Print(a)) == Parsed(Print(b))
       <==> LocalClock(a) - LocalClock(b) == ZoneOffset(a.zone) - ZoneOffset(b.zone)
  {
    hide Parsed, Print;
    PrintParses(a);
    PrintParses(b);
  }

  /** Two decimal digits. */
  function Two(n: nat): string
    requires n < 100
  {
    ['0' + (n / 10) as char, '0' + (n % 10) as char]
  }

  function TwoByTwo(n: nat): string
    requires n < 10000
  {
    Two(n / 100) + Two(n % 100)
  }

  lemma TwoPadded(n: nat)
    requires n < 100
    ensures Padded(n, 2) == Two(n)
  {
    assert Padded(n / 10, 1) == ['0' + (n / 10) as char] by { assert Padded(n / 100, 0) == ""; }
  }

  lemma FourPadded(n: nat)
    requires n < 10000
    ensures Padded(n, 4) == TwoByTwo(n)
  {
    TwoPadded(n / 100);
    assert n / 10 / 10 == n / 100 && n / 10 % 10 == n % 100 / 10 && n % 100 % 10 == n % 10;
    assert Padded(n / 10, 3) == Padded(n / 100, 2) + ['0' + (n / 10 % 10) as char];
  }

  lemma PrintedDay(ts: Timestamp)
    requires ValidStamp(ts)
    ensures PrintDateTime(ts) ==
      TwoByTwo(ts.date.year) + "-" + Two(ts.date.month) + "-" + Two(ts.date.day)
      + (if ts.upperT then "T" else "t") + Two(ts.hour) + ":" + Two(ts.minute) + ":" + Two(ts.second)
  {
    FourPadded(ts.date.year);
    TwoPadded(ts.date.month);
    TwoPadded(ts.date.day);
    TwoPadded(ts.hour);
    TwoPadded(ts.minute);
    TwoPadded(ts.second);
    hide Two, TwoByTwo, Padded;
  }

  /** The optional fraction and the zone behind it. */
  lemma PrintedRest(ts: Timestamp)
    requires ValidStamp(ts)
    ensures Print(ts) == PrintDateTime(ts) + PrintFraction(ts.fraction) + PrintZone(ts.zone)
    ensures PrintFraction(ts.fraction) == if ts.fraction == "" then "" else "." + ts.fraction
    ensures ts.zone.Utc? ==> PrintZone(ts.zone) == if ts.zone.upper then "Z" else "z"
    ensures ts.zone.Offset? ==>
      PrintZone(ts.zone) == (if ts.zone.negative then "-" else "+") + Two(ts.zone.hours) + ":" + Two(ts.zone.minutes)
  {
    if ts.zone.Offset? {
      TwoPadded(ts.zone.hours);
      TwoPadded(ts.zone.minutes);
    }
    hide Two, Padded, PrintDateTime;
  }

  /** The seconds a timestamp means, east of Greenwich being ahead of universal time. */
  lemma InstantMeaning(ts: Timestamp)
    requires ValidStamp(ts)
    ensures var clock := DaysFromCivil(ts.date) * 86400 + ts.hour * 3600 + ts.minute * 60 +
                         if ts.second == 60 then 59 else ts.second;
      Instant(ts) == match ts.zone
                     case Utc(_) => clock
                     case Offset(west, h, m) => if west then clock + h * 3600 + m * 60 else clock - h * 3600 - m * 60
  {
    hide DaysFromCivil;
  }

  lemma StampBounds(ts: Timestamp)
    ensures ValidStamp(ts) <==>
      && Valid(ts.date) && 0 <= ts.date.year <= 9999 && ts.hour <= 23 && ts.minute <= 59 && ts.second <= 60
      && (ts.zone.Offset? ==> ts.zone.hours <= 23 && ts.zone.minutes <= 59)
      && forall c :: c in ts.fraction ==> '0' <= c <= '9'
  {
    assert forall i :: 0 <= i < |ts.fraction| ==> ts.fraction[i] in ts.fraction;
  }

  // ----- where the parser is laxer than the grammar

  /** The fields of an accepted text that RFC 3339 wants to be digits only. */
  predicate DigitFields(text: string) {
    && Accepted(text)
    && AllDigits(text[0..4]) && AllDigits(text[11..13]) && AllDigits(text[14..16]) && AllDigits(text[17..19])
    && var z := text[19 + FractionLength(text[19..])..];
       |z| == 6 ==> AllDigits(z[1..3]) && AllDigits(z[4..6])
  }

  /** No field of an accepted text begins with a minus sign. */
  predicate NoSignedField(text: string)
    requires Accepted(text)
  {
    && text[0] != '-' && text[11] != '-' && text[14] != '-' && text[17] != '-'
    && var z := text[19 + FractionLength(text[19..])..];
       |z| == 6 ==> z[1] != '-' && z[4] != '-'
  }

  lemma FieldDigits(s: string, max: int)
    requires s != "" && Field(s, 0, max)
    ensures AllDigits(s) <==> s[0] != '-'
  {
  }

  /** An accepted text has digit fields exactly when no field starts with a minus sign. */
  lemma DigitFieldsExactly(text: string)
    requires Accepted(text)
    ensures DigitFields(text) <==> NoSignedField(text)
  {
    HeadSlices(text);
    FieldDigits(text[0..4], 9999);
    FieldDigits(text[11..13], 23);
    FieldDigits(text[14..16], 59);
    FieldDigits(text[17..19], 60);
    var z := text[19 + FractionLength(text[19..])..];
    if |z| == 6 {
      FieldDigits(z[1..3], 23);
      FieldDigits(z[4..6], 59);
    }
  }

  /** The day exists in its month. */
  predicate DayInMonth(text: string)
    requires Accepted(text)
  {
    DateBounds(text);
    Val(text[8..10]) <= DaysInMonth(Val(text[0..4]), Val(text[5..7]))
  }

  lemma DateBounds(text: string)
    requires Accepted(text)
    ensures 0 <= Val(text[0..4]) <= 9999 && 1 <= Val(text[5..7]) <= 12 && 1 <= Val(text[8..10]) <= 31
  {
    HeadSlices(text);
  }

  /** The text is a spelling of some valid timestamp. */
  ghost predicate Spelled(text: string) {
    exists ts :: ValidStamp(ts) && Print(ts) == text
  }

  /** Exactly which texts the parser should accept, and does: the accepted texts are the
      spellings of timestamps and, besides, those with a minus sign in front of a field or with
      a day beyond the end of its month. */
  lemma SpelledExactly(text: string)
    ensures Spelled(text) <==> Accepted(text) && NoSignedField(text) && DayInMonth(text)
  {
    if Spelled(text) {
      var ts :| ValidStamp(ts) && Print(ts) == text;
      PrintParses(ts);
      PrintedIsStrict(ts);
    }
    if Accepted(text) && NoSignedField(text) && DayInMonth(text) {
      DigitFieldsExactly(text);
      StampPrints(text);
    }
  }

  // from the text back to the timestamp

  lemma {:induction false} PaddedDigits(s: string)
    requires AllDigits(s)
    ensures Padded(DigitsValue(s), |s|) == s
    decreases |s|
  {
    if s == "" {
    } else {
      var (front, last) := (s[..|s| - 1], s[|s| - 1]);
      PaddedDigits(front);
      assert (DigitsValue(front) * 10 + DigitValue(last)) / 10 == DigitsValue(front);
      assert s == front + [last];
    }
  }

  /** A digit field is the padded spelling of its value. */
  lemma FieldPadded(s: string)
    requires s != "" && AllDigits(s)
    ensures Val(s) == DigitsValue(s) && Padded(Val(s), |s|) == s
  {
    PaddedDigits(s);
  }

  function ZoneOf(z: string): ZoneSpelling
    requires Zone(z) && (|z| == 6 ==> AllDigits(z[1..3]) && AllDigits(z[4..6]))
  {
    if |z| == 1 then Utc(z == "Z") else Offset(z[0] == '-', DigitsValue(z[1..3]), DigitsValue(z[4..6]))
  }

  lemma ZonePrints(z: string)
    requires Zone(z) && (|z| == 6 ==> AllDigits(z[1..3]) && AllDigits(z[4..6]))
    ensures PrintZone(ZoneOf(z)) == z
    ensures ZoneOf(z).Offset? ==> ZoneOf(z).hours <= 23 && ZoneOf(z).minutes <= 59
  {
    if |z| == 6 {
      FieldPadded(z[1..3]);
      FieldPadded(z[4..6]);
      OffsetJoins(z);
      hide Padded, DigitsValue, AllDigits, Val, IntValue;
    }
  }

  lemma OffsetJoins(z: string)
    requires |z| == 6 && (z[0] == '+' || z[0] == '-') && z[3] == ':'
    ensures z == (if z[0] == '-' then "-" else "+") + z[1..3] + ":" + z[4..6]
  {
  }

  lemma {:induction false} DigitRunDigits(s: string)
    ensures AllDigits(s[..DigitRun(s)])
    decreases |s|
  {
    if s == "" || !Digit(s[0]) {
    } else {
      DigitRunDigits(s[1..]);
      assert forall i :: 1 <= i < DigitRun(s) ==> s[..DigitRun(s)][i] == s[1..][..DigitRun(s[1..])][i - 1];
    }
  }

  lemma FractionPrints(rest: string)
    requires FractionLength(rest) != 1
    ensures var f := FractionLength(rest);
      var digits := if f == 0 then "" else rest[1..f];
      AllDigits(digits) && PrintFraction(digits) == rest[..f]
  {
    if rest != "" && rest[0] == '.' {
      var f := FractionLength(rest);
      DigitRunDigits(rest[1..]);
      assert rest[1..][..f - 1] == rest[1..f];
      assert rest[..f] == "." + rest[1..f];
    }
  }

  /** The date and time a strict head spells, with the given fraction and zone. */
  lemma HeadPrints(t: string, fraction: string, zone: ZoneSpelling) returns (ts: Timestamp)
    requires |t| == 19 && DateTime(t) && AllDigits(fraction)
    requires zone.Offset? ==> zone.hours <= 23 && zone.minutes <= 59
    requires AllDigits(t[0..4]) && AllDigits(t[5..7]) && AllDigits(t[8..10])
    requires AllDigits(t[11..13]) && AllDigits(t[14..16]) && AllDigits(t[17..19])
    requires Val(t[8..10]) <= DaysInMonth(Val(t[0..4]), Val(t[5..7]))
    ensures ValidStamp(ts) && ts.fraction == fraction && ts.zone == zone && PrintDateTime(ts) == t
  {
    FieldPadded(t[0..4]);
    FieldPadded(t[5..7]);
    FieldPadded(t[8..10]);
    FieldPadded(t[11..13]);
    FieldPadded(t[14..16]);
    FieldPadded(t[17..19]);
    ts := Timestamp(Date(Val(t[0..4]), Val(t[5..7]), Val(t[8..10])), Val(t[11..13]), Val(t[14..16]), Val(t[17..19]),
                    fraction, t[10] == 'T', zone);
    hide IntValue, Val, AllDigits, Padded, Leap, DaysInMonth;
    HeadJoins(t);
  }

  lemma HeadJoins(t: string)
    requires |t| == 19
    ensures t == t[0..4] + [t[4]] + t[5..7] + [t[7]] + t[8..10] + [t[10]]
               + t[11..13] + [t[13]] + t[14..16] + [t[16]] + t[17..19]
  {
  }

  lemma PositiveFieldDigits(s: string)
    requires s != "" && Field(s, 1, 99)
    ensures AllDigits(s)
  {
  }

  lemma StampPrints(text: string)
    requires Accepted(text) && DigitFields(text) && DayInMonth(text)
    ensures Spelled(text)
  {
    HeadSlices(text);
    PositiveFieldDigits(text[5..7]);
    PositiveFieldDigits(text[8..10]);
    var (t, rest) := (text[..19], text[19..]);
    var f := FractionLength(rest);
    var z := text[19 + f..];
    FractionPrints(rest);
    ZonePrints(z);
    var ts := HeadPrints(t, if f == 0 then "" else rest[1..f], ZoneOf(z));
    hide *;
    assert text == t + rest[..f] + z;
  }

  // from the timestamp to the text

  lemma PaddedIsDigits(n: nat, width: nat)
    requires (width == 2 && n <= 99) || (width == 4 && n <= 9999)
    ensures AllDigits(Padded(n, width)) && Val(Padded(n, width)) == n
  {
    assert Pow10(1) == 10 && Pow10(2) == 100 && Pow10(3) == 1000 && Pow10(4) == 10000;
    PaddedValue(n, width);
  }

  lemma PrintedFields(ts: Timestamp)
    requires ValidStamp(ts)
    ensures var t := PrintDateTime(ts);
      && AllDigits(t[0..4]) && AllDigits(t[11..13]) && AllDigits(t[14..16]) && AllDigits(t[17..19])
      && Val(t[0..4]) == ts.date.year && Val(t[5..7]) == ts.date.month && Val(t[8..10]) == ts.date.day
  {
    var s := PrintDateTime(ts);
    assert s[0..4] == Padded(ts.date.year, 4);
    assert s[5..7] == Padded(ts.date.month, 2) && s[8..10] == Padded(ts.date.day, 2);
    assert s[11..13] == Padded(ts.hour, 2) && s[14..16] == Padded(ts.minute, 2) && s[17..19] == Padded(ts.second, 2);
    PaddedIsDigits(ts.date.year, 4);
    PaddedIsDigits(ts.date.month, 2);
    PaddedIsDigits(ts.date.day, 2);
    PaddedIsDigits(ts.hour, 2);
    PaddedIsDigits(ts.minute, 2);
    PaddedIsDigits(ts.second, 2);
  }

  lemma PrintedZoneDigits(z: ZoneSpelling)
    requires z.Offset? ==> z.hours <= 23 && z.minutes <= 59
    ensures var s := PrintZone(z); |s| == 6 ==> AllDigits(s[1..3]) && AllDigits(s[4..6])
  {
    if z.Offset? {
      var s := PrintZone(z);
      assert s[1..3] == Padded(z.hours, 2) && s[4..6] == Padded(z.minutes, 2);
      PaddedIsDigits(z.hours, 2);
      PaddedIsDigits(z.minutes, 2);
    }
  }

  /** What is printed has digit fields and a day of its month. */
  lemma PrintedIsStrict(ts: Timestamp)
    requires ValidStamp(ts) && Accepted(Print(ts))
    ensures NoSignedField(Print(ts)) && DayInMonth(Print(ts))
  {
    var text := Print(ts);
    PrintedFields(ts);
    PrintedZoneDigits(ts.zone);
    PrintedFraction(ts.fraction, ts.zone);
    DigitFieldsExactly(text);
    HeadSlices(text);
    hide PrintDateTime, PrintZone, PrintFraction, Accepted, NoSignedField, FractionLength, AllDigits, Val, Padded;
    PrintSlices(ts);
  }

  lemma PrintSlices(ts: Timestamp)
    requires ValidStamp(ts)
    ensures var (text, f) := (Print(ts), |PrintFraction(ts.fraction)|);
      && 19 + f <= |text| && text[..19] == PrintDateTime(ts)
      && text[19..] == PrintFraction(ts.fraction) + PrintZone(ts.zone) && text[19 + f..] == PrintZone(ts.zone)
  {
  }

  // the other accepted texts

  /** A day beyond its month is taken for that many days into what follows. */
  lemma DayBeyondMonth(text: string)
    requires Accepted(text) && !DayInMonth(text)
    ensures var (y, m, d) := (Val(text[0..4]), Val(text[5..7]), Val(text[8..10]));
      && 1 <= m <= 12 && DaysInMonth(y, m) < d
      && DaysFromCivil(Date(y, m, d)) == DaysFromCivil(DayAfterMonth(y, m, d - DaysInMonth(y, m)))
  {
    DateBounds(text);
    var (y, m, d) := (Val(text[0..4]), Val(text[5..7]), Val(text[8..10]));
    RollsInto(y, m, d - DaysInMonth(y, m));
    hide *;
  }

  /** The date `n` days after the last of a month. */
  function DayAfterMonth(y: int, m: int, n: nat): Date
    requires 1 <= m <= 12
  {
    After(Date(y, m, DaysInMonth(y, m)), n)
  }

  lemma RollsInto(y: int, m: int, n: nat)
    requires 1 <= m <= 12
    ensures DaysFromCivil(Date(y, m, DaysInMonth(y, m) + n)) == DaysFromCivil(DayAfterMonth(y, m, n))
  {
    hide DaysFromCivil;
    DaysRollOver(y, m, DaysInMonth(y, m), n);
    AfterCounts(Date(y, m, DaysInMonth(y, m)), n);
  }

  /** The concrete case 2023-02-31T00:00:00Z: accepted, as 3 March, and no timestamp. */
  lemma FebruaryAccepted() returns (text: string)
    ensures text == "2023-02-31" + "T00:00:00Z"
    ensures !Spelled(text) && Parsed(text) == Some(DaysFromCivil(Date(2023, 3, 3)) * 86400)
  {
    text := "2023" + "-" + "02" + "-" + "31" + "T" + "00" + ":" + "00" + ":" + "00" + "Z";
    assert text == "2023-02-31" + "T00:00:00Z";
    DigitPairs();
    MidnightText(text, "2023", "02", "31");
    SpelledExactly(text);
    ThirdOfMarch();
  }

  lemma MidnightText(text: string, y: string, m: string, d: string)
    requires |y| == 4 && |m| == 2 && |d| == 2
    requires text == y + "-" + m + "-" + d + "T" + "00" + ":" + "00" + ":" + "00" + "Z"
    requires Field(y, 0, 9999) && Field(m, 1, 12) && Field(d, 1, 31) && IntValue("00") == Some(0)
    ensures Accepted(text) && InstantOf(text) == DaysFromCivil(Date(Val(y), Val(m), Val(d))) * 86400
    ensures text[0..4] == y && text[5..7] == m && text[8..10] == d
  {
    var t := text[..19];
    assert t[0..4] == y && t[5..7] == m && t[8..10] == d && t[11..13] == t[14..16] == t[17..19] == "00";
    assert text[19..] == "Z";
    HeadSlices(text);
    hide IntValue, DaysFromCivil;
  }

  lemma ThirdOfMarch()
    ensures DaysFromCivil(Date(2023, 2, 31)) == DaysFromCivil(Date(2023, 3, 3))
  {
  }

  lemma DigitPairs()
    ensures IntValue("2023") == Some(2023) && IntValue("02") == Some(2)
    ensures IntValue("31") == Some(31) && IntValue("00") == Some(0)
  {
    assert "2023"[..3] == "202" && "202"[..2] == "20" && "20"[..1] == "2" && "2"[..0] == "";
    assert "02"[..1] == "0" && "31"[..1] == "3" && "00"[..1] == "0" && "0"[..0] == "" && "3"[..0] == "";
    assert DigitsValue("20") == 20;
    assert DigitsValue("202") == 202;
  }

  /** `text` with its hour field spelled "-0". */
  function SignHour(text: string): string {
    if |text| < 13 then text else text[..11] + "-0" + text[13..]
  }

  /** "-0" is taken for a zero field: spelling the hour 00 that way leaves every accepted
      text accepted, with the same instant, although it spells no timestamp any more. */
  lemma SignedZeroHour(text: string)
    requires Accepted(text) && text[11..13] == "00"
    ensures Parsed(SignHour(text)) == Parsed(text) && !Spelled(SignHour(text))
  {
    var other := SignHour(text);
    SignedHead(text);
    ZeroSpellings();
    assert other[19..] == text[19..] && other[11..13] == other[..19][11..13];
    SameLocalSeconds(text[..19], other[..19]);
    SameTail(text, other);
    DigitFieldsExactly(other);
    SpelledExactly(other);
  }

  lemma SameTail(text: string, other: string)
    requires Accepted(text) && 19 <= |other| && other[19..] == text[19..]
    requires DateTime(other[..19]) && LocalSeconds(other[..19]) == LocalSeconds(text[..19])
    ensures Accepted(other) && InstantOf(other) == InstantOf(text)
  {
    hide DateTime, LocalSeconds, FractionLength, Zone, OffsetSeconds;
    var f := FractionLength(text[19..]);
    assert other[19..][f..] == other[19 + f..] && text[19..][f..] == text[19 + f..];
  }

  lemma SignedHead(text: string)
    requires 19 <= |text|
    ensures var (t, u) := (text[..19], SignHour(text)[..19]);
      && u[11..13] == "-0" && t[11..13] == text[11..13]
      && forall i :: 0 <= i < 11 || 13 <= i < 19 ==> u[i] == t[i]
  {
    var u := SignHour(text);
    assert u[11] == '-' && u[12] == '0';
    assert forall i :: 13 <= i < 19 ==> u[i] == text[13..][i - 13];
  }

  lemma ZeroSpellings()
    ensures IntValue("00") == Some(0) == IntValue("-0") && !AllDigits("-0")
  {
    assert "00"[..1] == "0" && "-0"[1..] == "0" && "0"[..0] == "";
    assert !Digit("-0"[0]);
  }

  lemma SameSlice(t: string, u: string, a: int, b: int)
    requires 0 <= a <= b <= |t| == |u| && forall i :: a <= i < b ==> u[i] == t[i]
    ensures u[a..b] == t[a..b]
  {
  }

  lemma SameLocalSeconds(t: string, u: string)
    requires |t| == |u| == 19 && DateTime(t)
    requires forall i :: 0 <= i < 11 || 13 <= i < 19 ==> u[i] == t[i]
    requires IntValue(u[11..13]) == IntValue(t[11..13])
    ensures DateTime(u) && LocalSeconds(u) == LocalSeconds(t)
  {
    SameSlice(t, u, 0, 4);
    SameSlice(t, u, 5, 7);
    SameSlice(t, u, 8, 10);
    SameSlice(t, u, 14, 16);
    SameSlice(t, u, 17, 19);
    hide IntValue, DaysFromCivil;
  }

  /** Every timestamp in the first hour of its day has such a spelling. */
  lemma SignedStampAccepted(ts: Timestamp)
    requires ValidStamp(ts) && ts.hour == 0
    ensures Parsed(SignHour(Print(ts))) == Some(Instant(ts)) && !Spelled(SignHour(Print(ts)))
  {
    PrintParses(ts);
    PrintedHour(ts);
    ZeroPadded();
    hide Print, Parsed, SignHour, Spelled, Padded, Accepted;
    SignedZeroHour(Print(ts));
  }

  lemma ZeroPadded()
    ensures Padded(0, 2) == "00"
  {
    assert Padded(0, 1) == "0";
  }

  /** The concrete case "1970-01-01T-0:00:00Z" parses, to the epoch. */
  lemma SignedFieldAccepted() returns (text: string)
    ensures text == SignHour(Print(Timestamp(EPOCH, 0, 0, 0, "", true, Utc(true))))
    ensures Parsed(text) == Some(0) && !Spelled(text)
  {
    var ts := Timestamp(EPOCH, 0, 0, 0, "", true, Utc(true));
    EpochIsDayZero();
    assert ValidStamp(ts) && Instant(ts) == 0;
    hide *;
    SignedStampAccepted(ts);
    text := SignHour(Print(ts));
  }

  lemma PrintedHour(ts: Timestamp)
    requires ValidStamp(ts)
    ensures Accepted(Print(ts)) && Print(ts)[11..13] == Padded(ts.hour, 2)
  {
    PrintParses(ts);
    var head := PrintDateTime(ts);
    assert Print(ts)[..19] == head;
    assert Print(ts)[11..13] == head[11..13] == Padded(ts.hour, 2);
  }
}
