/** Feed cursors: timestamps printed with nanoseconds in the form of section 5.6 of RFC 3339,
    and read back. */
module Rfc3339 {
  import opened Wrappers

  /** A civil time with its zone offset in seconds east of UTC. */
  datatype Timestamp = Timestamp(
    year: int, month: int, day: int, hour: int, minute: int, second: int, nano: int, offset: int)

  predicate Leap(year: int) { year % 4 == 0 && (year % 100 != 0 || year % 400 == 0) }

  function DaysIn(year: int, month: int): int {
    if month in {4, 6, 9, 11} then 30
    else if month == 2 then if Leap(year) then 29 else 28
    else 31
  }

  predicate Civil(t: Timestamp) {
    && 1 <= t.month <= 12 && 1 <= t.day <= DaysIn(t.year, t.month)
    && 0 <= t.hour < 24 && 0 <= t.minute < 60 && 0 <= t.second < 60
    && 0 <= t.nano < Pow10(9)
    && -86400 < t.offset < 86400
  }

  // ---- Decimal fields -----------------------------------------------------------------------

  function Pow10(w: nat): nat { if w == 0 then 1 else 10 * Pow10(w - 1) }

  function Digit(n: int): char
    requires 0 <= n < 10
  {
    (n + '0' as int) as char
  }

  predicate IsDigit(c: char) { '0' <= c <= '9' }

  /** At least `w` digits, zero-padded on the left. */
  function Pad(n: nat, w: nat): string
    decreases n + w
  {
    if n == 0 && w == 0 then "" else Pad(n / 10, if w == 0 then 0 else w - 1) + [Digit(n % 10)]
  }

  /** The number a string of digits spells; None if it is not one. */
  function Value(s: string): Option<nat> {
    if s == "" then Some(0)
    else
      var n := |s| - 1;
      if !IsDigit(s[n]) || Value(s[..n]).None? then None
      else Some(Value(s[..n]).value * 10 + (s[n] as int - '0' as int))
  }

  lemma {:induction false} PadExact(n: nat, w: nat)
    requires n < Pow10(w)
    ensures |Pad(n, w)| == w && Value(Pad(n, w)) == Some(n)
  {
    if w > 0 {
      PadExact(n / 10, w - 1);
      var s := Pad(n, w);
      assert s[..|s| - 1] == Pad(n / 10, w - 1);
    }
  }

  lemma {:induction false} ValueIsDigits(s: string, i: nat)
    requires Value(s).Some? && i < |s|
    ensures IsDigit(s[i])
  {
    if i < |s| - 1 {
      ValueIsDigits(s[..|s| - 1], i);
    }
  }

  // ---- Date and time ----------------------------------------------------------------------------

  function AppendYear(year: int): string {
    if year < 0 then "-" + Pad(-year, 4) else Pad(year, 4)
  }

  function Layout(y: string, mo: string, d: string, h: string, mi: string, sec: string): string {
    y + "-" + mo + "-" + d + "T" + h + ":" + mi + ":" + sec
  }

  function FormatDateTime(t: Timestamp): string
    requires Civil(t)
  {
    Layout(AppendYear(t.year), Pad(t.month, 2), Pad(t.day, 2), Pad(t.hour, 2), Pad(t.minute, 2), Pad(t.second, 2))
  }

  lemma LayoutFields(y: string, mo: string, d: string, h: string, mi: string, sec: string)
    requires |y| == 4 && |mo| == |d| == |h| == |mi| == |sec| == 2
    ensures var s := Layout(y, mo, d, h, mi, sec);
            && |s| == 19 && s[0..4] == y && s[5..7] == mo && s[8..10] == d && s[11..13] == h && s[14..16] == mi
               && s[17..19] == sec
            && s[4] == '-' && s[7] == '-' && s[10] == 'T' && s[13] == ':' && s[16] == ':'
  {
  }

  function Field(s: string, i: nat, w: nat): Option<nat>
    requires i + w <= |s|
  {
    Value(s[i..i + w])
  }

  /** The nineteen characters of date and time, as year, month, day, hour, minute, second. */
  function ParseDateTime(s: string): (r: Option<Timestamp>)
    requires |s| == 19
    ensures r.Some? ==> Civil(r.value) && 0 <= r.value.year && r.value.offset == 0
  {
    match (Field(s, 0, 4), Field(s, 5, 2), Field(s, 8, 2), Field(s, 11, 2), Field(s, 14, 2), Field(s, 17, 2))
    case (Some(y), Some(mo), Some(d), Some(h), Some(mi), Some(sec)) =>
      var t := Timestamp(y, mo, d, h, mi, sec, 0, 0);
      if s[4] == '-' && s[7] == '-' && s[10] == 'T' && s[13] == ':' && s[16] == ':' && Civil(t) then Some(t) else None
    case _ => None
  }

  lemma DateTimeRoundTrip(t: Timestamp)
    requires Civil(t) && 0 <= t.year <= 9999
    ensures |FormatDateTime(t)| == 19
    ensures ParseDateTime(FormatDateTime(t)) == Some(t.(nano := 0, offset := 0))
  {
    assert Pow10(4) == 10000 && Pow10(2) == 100;
    PadExact(t.year, 4);
    PadExact(t.month, 2);
    PadExact(t.day, 2);
    PadExact(t.hour, 2);
    PadExact(t.minute, 2);
    PadExact(t.second, 2);
    LayoutFields(Pad(t.year, 4), Pad(t.month, 2), Pad(t.day, 2), Pad(t.hour, 2), Pad(t.minute, 2), Pad(t.second, 2));
    assert t.(nano := 0, offset := 0) == Timestamp(t.year, t.month, t.day, t.hour, t.minute, t.second, 0, 0);
  }

  // ---- Fraction --------------------------------------------------------------------------------------

  function Zeros(n: nat): string { seq(n, _ => '0') }

  function TrimZeros(s: string): string {
    if s == "" || s[|s| - 1] != '0' then s else TrimZeros(s[..|s| - 1])
  }

  lemma {:induction false} TrimmedZeros(s: string)
    ensures |TrimZeros(s)| <= |s| && TrimZeros(s) + Zeros(|s| - |TrimZeros(s)|) == s
    ensures TrimZeros(s) == s[..|TrimZeros(s)|]
  {
    if s != "" && s[|s| - 1] == '0' {
      TrimmedZeros(s[..|s| - 1]);
    }
  }

  function FormatFraction(nano: nat): string {
    var digits := TrimZeros(Pad(nano, 9));
    if digits == "" then "" else "." + digits
  }

  /** How many leading characters are digits. */
  function DigitRun(s: string): (n: nat)
    ensures n <= |s| && forall i :: 0 <= i < n ==> IsDigit(s[i])
    ensures n < |s| ==> !IsDigit(s[n])
  {
    if s == "" || !IsDigit(s[0]) then 0 else 1 + DigitRun(s[1..])
  }

  /** The first nine digits of a fraction, as nanoseconds. */
  function Nanos(digits: string): Option<nat> {
    if |digits| >= 9 then Value(digits[..9]) else Value(digits + Zeros(9 - |digits|))
  }

  /** An optional fraction at the front: its nanoseconds, and what follows it. */
  function ParseFraction(s: string): (Option<nat>, string) {
    if |s| >= 2 && s[0] == '.' && IsDigit(s[1]) then
      var n := DigitRun(s[1..]);
      (Nanos(s[1..1 + n]), s[1 + n..])
    else (Some(0), s)
  }

  lemma {:induction false} DigitRunSplit(digits: string, rest: string)
    requires forall i :: 0 <= i < |digits| ==> IsDigit(digits[i])
    requires rest == "" || !IsDigit(rest[0])
    ensures DigitRun(digits + rest) == |digits|
  {
    if digits == "" {
      assert digits + rest == rest;
    } else {
      assert (digits + rest)[1..] == digits[1..] + rest;
      DigitRunSplit(digits[1..], rest);
    }
  }

  lemma {:induction false} ZerosValue(n: nat)
    ensures Value(Zeros(n)) == Some(0)
  {
    if n > 0 {
      ZerosValue(n - 1);
      assert Zeros(n)[..n - 1] == Zeros(n - 1);
    }
  }

  /** Dropping the trailing zeros of a padded number loses nothing, given the width. */
  lemma TrimmedDigits(n: nat, w: nat)
    requires n < Pow10(w)
    ensures var digits := TrimZeros(Pad(n, w));
            && |digits| <= w && Value(digits + Zeros(w - |digits|)) == Some(n)
            && (|digits| == w ==> digits == Pad(n, w))
            && (forall i :: 0 <= i < |digits| ==> IsDigit(digits[i]))
            && (digits == "" ==> n == 0)
  {
    PadExact(n, w);
    var full := Pad(n, w);
    var digits := TrimZeros(full);
    TrimmedZeros(full);
    forall i | 0 <= i < |digits| ensures IsDigit(digits[i]) {
      ValueIsDigits(full, i);
    }
    if digits == "" {
      assert full == Zeros(w);
      ZerosValue(w);
    }
  }

  lemma FractionDigits(nano: nat)
    requires nano < Pow10(9)
    ensures var digits := TrimZeros(Pad(nano, 9));
            && |digits| <= 9 && Nanos(digits) == Some(nano)
            && (forall i :: 0 <= i < |digits| ==> IsDigit(digits[i]))
            && (digits == "" ==> nano == 0)
  {
    TrimmedDigits(nano, 9);
    var digits := TrimZeros(Pad(nano, 9));
    if |digits| == 9 {
      assert digits + Zeros(0) == digits && digits[..9] == digits;
    }
  }

  lemma DigitsRead(digits: string, rest: string)
    requires digits != "" && forall i :: 0 <= i < |digits| ==> IsDigit(digits[i])
    requires rest == "" || !IsDigit(rest[0])
    ensures ParseFraction("." + digits + rest) == (Nanos(digits), rest)
  {
    var s := "." + digits + rest;
    assert s[1..] == digits + rest && s[1] == digits[0];
    DigitRunSplit(digits, rest);
    assert s[1..1 + |digits|] == digits && s[1 + |digits|..] == rest;
  }

  lemma FractionRoundTrip(nano: nat, rest: string)
    requires nano < Pow10(9)
    requires rest != "" && !IsDigit(rest[0]) && rest[0] != '.'
    ensures ParseFraction(FormatFraction(nano) + rest) == (Some(nano), rest)
  {
    FractionDigits(nano);
    var digits := TrimZeros(Pad(nano, 9));
    if digits == "" {
      assert FormatFraction(nano) + rest == rest;
    } else {
      DigitsRead(digits, rest);
      assert FormatFraction(nano) + rest == "." + digits + rest;
    }
  }

  // ---- Zone --------------------------------------------------------------------------------------------

  function ZoneText(sign: char, hours: string, minutes: string): string {
    [sign] + hours + ":" + minutes
  }

  lemma ZoneFields(sign: char, hours: string, minutes: string)
    requires |hours| == |minutes| == 2
    ensures var s := ZoneText(sign, hours, minutes);
            |s| == 6 && s[0] == sign && s[3] == ':' && s[1..3] == hours && s[4..6] == minutes
  {
  }

  /** Only whole minutes of the offset are printed; the division truncates toward zero. */
  function FormatZone(offset: int): string
    requires -86400 < offset < 86400
  {
    if offset == 0 then "Z"
    else
      var minutes := if offset < 0 then -offset / 60 else offset / 60;
      ZoneText(if offset < 0 && minutes > 0 then '-' else '+', Pad(minutes / 60, 2), Pad(minutes % 60, 2))
  }

  function ParseZone(s: string): (r: Option<int>)
    ensures r.Some? ==> r.value % 60 == 0 && -86400 < r.value < 86400
  {
    if s == "Z" then Some(0)
    else if |s| != 6 || (s[0] != '+' && s[0] != '-') || s[3] != ':' then None
    else
      match (Field(s, 1, 2), Field(s, 4, 2))
      case (Some(h), Some(m)) =>
        if h > 23 || m > 59 then None
        else
          var offset: int := (h * 60 + m) * 60;
          Some(if s[0] == '-' then -offset else offset)
      case _ => None
  }

  lemma ZoneParsed(sign: char, hours: string, minutes: string, h: nat, m: nat)
    requires |hours| == |minutes| == 2 && Value(hours) == Some(h) && Value(minutes) == Some(m)
    requires h < 24 && m < 60 && (sign == '+' || sign == '-')
    ensures ParseZone(ZoneText(sign, hours, minutes))
            == Some(if sign == '-' then -((h * 60 + m) * 60) else (h * 60 + m) * 60)
  {
    ZoneFields(sign, hours, minutes);
  }

  lemma TwoDigits(n: nat)
    requires n < 100
    ensures |Pad(n, 2)| == 2 && Value(Pad(n, 2)) == Some(n)
  {
    assert Pow10(2) == 100;
    PadExact(n, 2);
  }

  lemma MinutesParsed(sign: char, minutes: nat)
    requires minutes < 24 * 60 && (sign == '+' || sign == '-')
    ensures ParseZone(ZoneText(sign, Pad(minutes / 60, 2), Pad(minutes % 60, 2)))
            == Some(if sign == '-' then -(minutes * 60) else minutes * 60)
  {
    var h, m := minutes / 60, minutes % 60;
    assert h * 60 + m == minutes && h < 24;
    TwoDigits(h);
    TwoDigits(m);
    ZoneParsed(sign, Pad(h, 2), Pad(m, 2), h, m);
  }

  lemma ZoneRoundTrip(offset: int)
    requires -86400 < offset < 86400 && offset % 60 == 0
    ensures ParseZone(FormatZone(offset)) == Some(offset)
  {
    if offset != 0 {
      var minutes := if offset < 0 then -offset / 60 else offset / 60;
      assert minutes > 0 && minutes * 60 == (if offset < 0 then -offset else offset);
      MinutesParsed(if offset < 0 then '-' else '+', minutes);
    }
  }

  // ---- Whole timestamps ------------------------------------------------------------------------------------

  function Format(t: Timestamp): string
    requires Civil(t)
  {
    FormatDateTime(t) + (FormatFraction(t.nano) + FormatZone(t.offset))
  }

  function Parse(s: string): (r: Option<Timestamp>)
    ensures r.Some? ==> 0 <= r.value.year <= 9999 && r.value.offset % 60 == 0
  {
    if |s| < 19 then None
    else
      var (nano, zone) := ParseFraction(s[19..]);
      match (ParseDateTime(s[..19]), nano, ParseZone(zone))
      case (Some(t), Some(n), Some(offset)) => FourDigits(s[..19]); Some(t.(nano := n, offset := offset))
      case _ => None
  }

  lemma {:induction false} ValueBelow(s: string)
    requires Value(s).Some?
    ensures Value(s).value < Pow10(|s|)
  {
    if s != "" {
      ValueBelow(s[..|s| - 1]);
    }
  }

  lemma FourDigits(s: string)
    requires |s| == 19
    ensures ParseDateTime(s).Some? ==> ParseDateTime(s).value.year <= 9999
  {
    if Field(s, 0, 4).Some? {
      ValueBelow(s[0..4]);
      assert Pow10(4) == 10000;
    }
  }

  /** A cursor parses back to exactly the time it was printed from if and only if the year has at
      most four digits and the zone offset is a whole number of minutes. */
  lemma CursorRoundTrip(t: Timestamp)
    requires Civil(t)
    ensures Parse(Format(t)) == Some(t) <==> 0 <= t.year <= 9999 && t.offset % 60 == 0
  {
    if 0 <= t.year <= 9999 && t.offset % 60 == 0 {
      DateTimeRoundTrip(t);
      var s, tail := Format(t), FormatFraction(t.nano) + FormatZone(t.offset);
      assert s[..19] == FormatDateTime(t) && s[19..] == tail;
      ZoneRoundTrip(t.offset);
      FractionRoundTrip(t.nano, FormatZone(t.offset));
    }
  }

  // ---- What is printed -----------------------------------------------------------------------------------

  /** Digits are decimal, most significant first. */
  lemma ValueSpelled(s: string, c: char)
    ensures Value("") == Some(0)
    ensures Value(s).Some? && '0' <= c <= '9' ==> Value(s + [c]) == Some(Value(s).value * 10 + (c as int - '0' as int))
    ensures !('0' <= c <= '9') ==> Value(s + [c]) == None
  {
    assert (s + [c])[..|s|] == s;
  }

  /** The calendar: thirty-one days but for four months of thirty and February, which has twenty-nine in
      years divisible by four, centuries not divisible by 400 excepted. */
  lemma CalendarSpelled(year: int)
    ensures forall m :: m in {1, 3, 5, 7, 8, 10, 12} ==> DaysIn(year, m) == 31
    ensures forall m :: m in {4, 6, 9, 11} ==> DaysIn(year, m) == 30
    ensures DaysIn(year, 2) == 29 <==> year % 400 == 0 || (year % 4 == 0 && year % 100 != 0)
    ensures DaysIn(year, 2) == 29 || DaysIn(year, 2) == 28
  {
  }

  predicate Reads(s: string, i: nat, j: nat, n: int) {
    i <= j <= |s| && n >= 0 && Value(s[i..j]) == Some(n)
  }

  /** Date and time: year, month, day, hour, minute and second, in that order and with these marks. */
  lemma DateTimePrinted(t: Timestamp)
    requires Civil(t) && 0 <= t.year <= 9999
    ensures var s := Format(t);
            && |s| >= 20
            && Reads(s, 0, 4, t.year) && s[4] == '-' && Reads(s, 5, 7, t.month) && s[7] == '-' && Reads(s, 8, 10, t.day)
            && s[10] == 'T' && Reads(s, 11, 13, t.hour) && s[13] == ':' && Reads(s, 14, 16, t.minute)
            && s[16] == ':' && Reads(s, 17, 19, t.second)
            && s[19..] == FormatFraction(t.nano) + FormatZone(t.offset)
  {
    FourDigitYear(t.year);
    TwoDigits(t.month);
    TwoDigits(t.day);
    TwoDigits(t.hour);
    TwoDigits(t.minute);
    TwoDigits(t.second);
    Laid(Pad(t.year, 4), Pad(t.month, 2), Pad(t.day, 2), Pad(t.hour, 2), Pad(t.minute, 2), Pad(t.second, 2),
         FormatFraction(t.nano) + FormatZone(t.offset));
    ZoneNotEmpty(t.offset);
  }

  lemma FourDigitYear(n: nat)
    requires n < 10000
    ensures |Pad(n, 4)| == 4 && Value(Pad(n, 4)) == Some(n)
  {
    assert Pow10(4) == 10000;
    PadExact(n, 4);
  }

  lemma ZoneNotEmpty(offset: int)
    requires -86400 < offset < 86400
    ensures FormatZone(offset) != ""
  {
  }

  lemma Laid(y: string, mo: string, d: string, h: string, mi: string, sec: string, tail: string)
    requires |y| == 4 && |mo| == |d| == |h| == |mi| == |sec| == 2
    ensures var s := Layout(y, mo, d, h, mi, sec) + tail;
            && s[0..4] == y && s[5..7] == mo && s[8..10] == d && s[11..13] == h && s[14..16] == mi && s[17..19] == sec
            && s[4] == '-' && s[7] == '-' && s[10] == 'T' && s[13] == ':' && s[16] == ':' && s[19..] == tail
  {
    LayoutFields(y, mo, d, h, mi, sec);
  }

  /** What is read: the same fields in the same places, and a time that exists. */
  lemma ParsedFields(s: string)
    requires Parse(s).Some?
    ensures var t := Parse(s).value;
            && Civil(t) && |s| >= 20
            && Reads(s, 0, 4, t.year) && s[4] == '-' && Reads(s, 5, 7, t.month) && s[7] == '-' && Reads(s, 8, 10, t.day)
            && s[10] == 'T' && Reads(s, 11, 13, t.hour) && s[13] == ':' && Reads(s, 14, 16, t.minute)
            && s[16] == ':' && Reads(s, 17, 19, t.second)
  {
    var d := s[..19];
    assert s[0..4] == d[0..4] && s[5..7] == d[5..7] && s[8..10] == d[8..10];
    assert s[11..13] == d[11..13] && s[14..16] == d[14..16] && s[17..19] == d[17..19];
    NanosInRange(s[19..]);
  }

  lemma NanosInRange(s: string)
    ensures ParseFraction(s).0.Some? ==> ParseFraction(s).0.value < Pow10(9)
  {
    if |s| >= 2 && s[0] == '.' && IsDigit(s[1]) {
      var n := DigitRun(s[1..]);
      var digits := s[1..1 + n];
      if Nanos(digits).Some? {
        ValueBelow(if |digits| >= 9 then digits[..9] else digits + Zeros(9 - |digits|));
      }
    }
  }

  /** The fraction: nothing for zero, otherwise a point and as many of the nine digits as are needed. */
  lemma FractionPrinted(nano: nat) returns (digits: string)
    requires nano < Pow10(9)
    ensures FormatFraction(nano) == if nano == 0 then "" else "." + digits
    ensures nano > 0 ==>
      1 <= |digits| <= 9 && digits[|digits| - 1] != '0' && Value(digits + Zeros(9 - |digits|)) == Some(nano)
  {
    digits := TrimZeros(Pad(nano, 9));
    TrimmedDigits(nano, 9);
    TrimmedEnd(Pad(nano, 9));
    if nano == 0 {
      NoDigitsForZero(9);
    }
  }

  lemma {:induction false} TrimmedEnd(s: string)
    ensures TrimZeros(s) != "" ==> TrimZeros(s)[|TrimZeros(s)| - 1] != '0'
  {
    if s != "" && s[|s| - 1] == '0' {
      TrimmedEnd(s[..|s| - 1]);
    }
  }

  lemma {:induction false} NoDigitsForZero(w: nat)
    ensures TrimZeros(Pad(0, w)) == ""
  {
    if w > 0 {
      NoDigitsForZero(w - 1);
      assert Pad(0, w)[..|Pad(0, w)| - 1] == Pad(0, w - 1);
    }
  }

  /** The zone: Z for none, otherwise its sign, hours and minutes. */
  lemma ZonePrinted(offset: int)
    requires -86400 < offset < 86400 && offset % 60 == 0
    ensures var z := FormatZone(offset);
            if offset == 0 then z == "Z"
            else
              && |z| == 6 && z[0] == (if offset < 0 then '-' else '+') && z[3] == ':'
              && exists h: nat, m: nat :: m < 60 && Value(z[1..3]) == Some(h) && Value(z[4..6]) == Some(m)
                                          && h * 3600 + m * 60 == if offset < 0 then -offset else offset
  {
    if offset != 0 {
      var minutes := if offset < 0 then -offset / 60 else offset / 60;
      assert minutes * 60 == if offset < 0 then -offset else offset;
      var h, m := minutes / 60, minutes % 60;
      TwoDigits(h);
      TwoDigits(m);
      ZoneFields(if offset < 0 then '-' else '+', Pad(h, 2), Pad(m, 2));
      assert h * 3600 + m * 60 == minutes * 60;
    }
  }
}
