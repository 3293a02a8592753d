/**
  * RFC 3339 date-times: three printers (crates/daemon/src/envelope.rs,
  * crates/adapter-dsh-std/src/time.rs, crates/adapter-dsh/src/usage.rs), one parser
  * (crates/daemon/src/scheduler.rs) and one recogniser (crates/daemon/src/envelope.rs).
  * An instant is a number of milliseconds since 1970-01-01T00:00:00Z.
  */
module Rfc3339 {
  import opened Core
  import opened Arithmetic
  import opened Calendar

  const HYPHEN: Byte := 45
  const PLUS: Byte := 43
  const DOT: Byte := 46
  const COLON: Byte := 58
  const UPPER_T: Byte := 84
  const LOWER_T: Byte := 116
  const UPPER_Z: Byte := 90
  const LOWER_Z: Byte := 122

  const U32_MAX := 0xFFFF_FFFF
  const I64_MAX := 0x7FFF_FFFF_FFFF_FFFF

  /** 10000-01-01T00:00:00Z: the first instant whose year needs five digits. */
  const YEAR_10000: int := 253402300800000

  // ---------- Printing ----------

  /** Rust's `{:0w}` for an unsigned number: at least `w` decimal digits. */
  function Padded(n: nat, w: nat): Text
    decreases n, w
  {
    if n < 10 && w <= 1 then [48 + n]
    else Padded(n / 10, if w == 0 then 0 else w - 1) + [48 + n % 10]
  }

  function DateText(c: Civil): Text
    requires c.year >= 0 && c.month >= 0 && c.day >= 0
  {
    Padded(c.year, 4) + [HYPHEN] + Padded(c.month, 2) + [HYPHEN] + Padded(c.day, 2)
  }

  function ClockText(hour: nat, minute: nat, second: nat, millis: nat): Text {
    Padded(hour, 2) + [COLON] + Padded(minute, 2) + [COLON] + Padded(second, 2) + [DOT] + Padded(millis, 3)
  }

  /** Date and time of day to the millisecond, without a zone: the format string of all printers. */
  function Layout(c: Civil, hour: nat, minute: nat, second: nat, millis: nat): Text
    requires c.year >= 0 && c.month >= 0 && c.day >= 0
  {
    DateText(c) + [UPPER_T] + ClockText(hour, minute, second, millis)
  }

  /** envelope.rs; instants before the epoch print as the epoch. */
  function NowTimestampLike(unixMs: int): Text {
    var now: nat := if unixMs < 0 then 0 else unixMs;
    var secs := now / 1000;
    var rem := secs % 86400;
    YearAfterEpoch(secs / 86400);
    Layout(CivilFromDays(secs / 86400), rem / 3600, (rem % 3600) / 60, rem % 60, now % 1000) + [UPPER_Z]
  }

  /** time.rs. */
  function Rfc3339At(secs: nat, millis: nat): Text {
    var secsOfDay := secs % 86400;
    CopiesAgree(secs / 86400);
    YearAfterEpoch(secs / 86400);
    Layout(CivilFromDaysEuclid(secs / 86400), secsOfDay / 3600, (secsOfDay % 3600) / 60, secsOfDay % 60, millis)
      + [UPPER_Z]
  }

  /** usage.rs. */
  function UnixMsToRfc3339(unixMs: nat): Text {
    var remMs := unixMs % 86400000;
    CopiesAgree(unixMs / 86400000);
    YearAfterEpoch(unixMs / 86400000);
    Layout(CivilFromDaysEuclid(unixMs / 86400000),
           remMs / 3600000, (remMs / 60000) % 60, (remMs / 1000) % 60, remMs % 1000) + [UPPER_Z]
  }

  lemma DayNumberBounds(c: Civil)
    requires RealDate(c)
    ensures c.year < 1970 ==> DaysFromCivil(c.year, c.month, c.day) < 0
    ensures c.year <= 9999 <==> DaysFromCivil(c.year, c.month, c.day) < YEAR_10000 / 86400000
  {
    if c.year < 1970 {
      DaysBeforeEpoch(c);
    }
    DaysBefore10000(c);
    hide DaysFromCivil;
    hide RealDate;
  }

  lemma DaysBeforeEpoch(c: Civil)
    requires RealDate(c) && c.year < 1970
    ensures DaysFromCivil(c.year, c.month, c.day) < 0
  {
  }

  lemma DaysBefore10000(c: Civil)
    requires RealDate(c)
    ensures c.year <= 9999 <==> DaysFromCivil(c.year, c.month, c.day) < YEAR_10000 / 86400000
  {
  }

  lemma YearAfterEpoch(days: int)
    ensures RealDate(CivilFromDays(days))
    ensures days >= 0 ==> CivilFromDays(days).year >= 1970
    ensures CivilFromDays(days).year <= 9999 <==> days < YEAR_10000 / 86400000
  {
    hide CivilFromDays;
    hide DaysFromCivil;
    DaysAfterCivil(days);
    DayNumberBounds(CivilFromDays(days));
  }

  // ---------- Text shapes ----------

  predicate DigitsAt(s: Text, i: nat, n: nat) {
    i + n <= |s| && forall k :: i <= k < i + n ==> IsDigit(s[k])
  }

  /** Value of the `n` digits at `i`. */
  function NumberAt(s: Text, i: nat, n: nat): nat
    requires DigitsAt(s, i, n)
  {
    if n == 0 then 0 else NumberAt(s, i, n - 1) * 10 + (s[i + n - 1] - 48)
  }

  /** End of the run of digits that starts at `i`. */
  function DigitsEnd(s: Text, i: nat): (e: nat)
    requires i <= |s|
    ensures i <= e <= |s| && DigitsAt(s, i, e - i)
    ensures e < |s| ==> !IsDigit(s[e])
    decreases |s| - i
  {
    if i < |s| && IsDigit(s[i]) then DigitsEnd(s, i + 1) else i
  }

  /** `YYYY-MM-DD?HH:MM:SS` with any byte between date and time. */
  predicate DateTimeShape(s: Text) {
    && |s| >= 19
    && DigitsAt(s, 0, 4) && s[4] == HYPHEN && DigitsAt(s, 5, 2) && s[7] == HYPHEN && DigitsAt(s, 8, 2)
    && DigitsAt(s, 11, 2) && s[13] == COLON && DigitsAt(s, 14, 2) && s[16] == COLON && DigitsAt(s, 17, 2)
  }

  /** Every field in range; the day is only checked against 31. */
  predicate FieldRanges(s: Text, maxSecond: nat)
    requires DateTimeShape(s)
  {
    && 1 <= NumberAt(s, 5, 2) <= 12 && 1 <= NumberAt(s, 8, 2) <= 31
    && NumberAt(s, 11, 2) <= 23 && NumberAt(s, 14, 2) <= 59 && NumberAt(s, 17, 2) <= maxSecond
  }

  predicate HasFraction(s: Text) {
    |s| > 19 && s[19] == DOT
  }

  function ZoneStart(s: Text): (i: nat)
    requires |s| >= 19
    ensures 19 <= i <= |s|
  {
    if HasFraction(s) then DigitsEnd(s, 20) else 19
  }

  /** `Z`, `z` or a numeric offset, ending the text. */
  predicate ZoneShape(s: Text, i: nat) {
    || (|s| == i + 1 && s[i] in {UPPER_Z, LOWER_Z})
    || (|s| == i + 6 && s[i] in {PLUS, HYPHEN} && DigitsAt(s, i + 1, 2) && s[i + 3] == COLON && DigitsAt(s, i + 4, 2)
        && NumberAt(s, i + 1, 2) <= 23 && NumberAt(s, i + 4, 2) <= 59)
  }

  function OffsetSeconds(s: Text, i: nat): int
    requires ZoneShape(s, i)
  {
    if |s| == i + 1 then 0
    else (if s[i] == HYPHEN then -1 else 1) * (NumberAt(s, i + 1, 2) * 3600 + NumberAt(s, i + 4, 2) * 60)
  }

  /** Milliseconds of a fraction at `i`: its first three digits, missing digits read as 0. */
  function Millis(s: Text, i: nat, e: nat): nat
    requires i <= e && DigitsAt(s, i, e - i)
  {
    if e == i then 0
    else if e == i + 1 then NumberAt(s, i, 1) * 100
    else if e == i + 2 then NumberAt(s, i, 2) * 10
    else NumberAt(s, i, 3)
  }

  function Fraction(s: Text): nat
    requires |s| >= 19
  {
    if HasFraction(s) then Millis(s, 20, DigitsEnd(s, 20)) else 0
  }

  predicate DateTimeText(s: Text, maxSecond: nat) {
    DateTimeShape(s) && FieldRanges(s, maxSecond) && ZoneShape(s, ZoneStart(s))
  }

  /** The instant a date-time text denotes; negative before 1970. */
  function Instant(s: Text): int
    requires DateTimeText(s, 60)
  {
    var days := DaysFromCivil(NumberAt(s, 0, 4), NumberAt(s, 5, 2), NumberAt(s, 8, 2));
    var secs := days * 86400 + NumberAt(s, 11, 2) * 3600 + NumberAt(s, 14, 2) * 60 + NumberAt(s, 17, 2)
                - OffsetSeconds(s, ZoneStart(s));
    secs * 1000 + Fraction(s)
  }

  /** What the parser returns: an upper-case `T`, second 60 and an empty fraction allowed. */
  function Parse(s: Text): Option<nat> {
    if DateTimeText(s, 60) && s[10] == UPPER_T && Instant(s) >= 0 then Some(Instant(s)) else None
  }

  /** What the recogniser accepts. */
  predicate Recognised(s: Text) {
    DateTimeText(s, 59) && s[10] in {UPPER_T, LOWER_T} && (HasFraction(s) ==> DigitsEnd(s, 20) > 20)
  }

  // ---------- The parser ----------

  /** Byte cursor of the parser. */
  class Cursor {
    const bytes: Text
    var pos: nat

    ghost predicate Valid()
      reads this
    {
      pos <= |bytes|
    }

    constructor (bytes: Text)
      ensures this.bytes == bytes && pos == 0
    {
      this.bytes := bytes;
      pos := 0;
    }

    function Peek(): (r: Option<Byte>)
      reads this
      ensures r.Some? <==> pos < |bytes|
      ensures r.Some? ==> r.value == bytes[pos]
    {
      if pos < |bytes| then Some(bytes[pos]) else None
    }

    method Eat(expected: Byte) returns (ok: bool)
      requires Valid()
      modifies this
      ensures Valid()
      ensures ok <==> old(pos) < |bytes| && bytes[old(pos)] == expected
      ensures pos == if ok then old(pos) + 1 else old(pos)
    {
      ok := Peek() == Some(expected);
      if ok {
        pos := pos + 1;
      }
    }

    method Digits(count: nat) returns (r: Option<nat>)
      requires Valid()
      modifies this
      ensures Valid()
      ensures r.Some? <==> DigitsAt(bytes, old(pos), count) && NumberAt(bytes, old(pos), count) <= U32_MAX
      ensures r.Some? ==> r.value == NumberAt(bytes, old(pos), count) && pos == old(pos) + count
    {
      var value := 0;
      for i := 0 to count
        invariant pos == old(pos) + i && Valid()
        invariant DigitsAt(bytes, old(pos), i) && value == NumberAt(bytes, old(pos), i) <= U32_MAX
      {
        if pos == |bytes| || !IsDigit(bytes[pos]) {
          return None;
        }
        var digit := bytes[pos] - 48;
        if value * 10 + digit > U32_MAX {
          LongerIsLarger(bytes, old(pos), i + 1, count);
          return None;
        }
        value := value * 10 + digit;
        pos := pos + 1;
      }
      return Some(value);
    }
  }

  lemma LongerIsLarger(s: Text, i: nat, n: nat, m: nat)
    requires n <= m && DigitsAt(s, i, n)
    ensures DigitsAt(s, i, m) ==> NumberAt(s, i, n) <= NumberAt(s, i, m)
  {
    if n < m && DigitsAt(s, i, m) {
      LongerIsLarger(s, i, n, m - 1);
    }
  }

  lemma SmallNumber(s: Text, i: nat, n: nat)
    requires n <= 4 && DigitsAt(s, i, n)
    ensures NumberAt(s, i, n) <=
            (if n == 0 then 0 else if n == 1 then 9 else if n == 2 then 99 else if n == 3 then 999 else 9999)
  {
    if n > 0 {
      SmallNumber(s, i, n - 1);
    }
  }

  datatype DateTime = DateTime(year: nat, month: nat, day: nat, hour: nat, minute: nat, second: nat)

  function DateTimeAt(s: Text): DateTime
    requires DateTimeShape(s)
  {
    DateTime(NumberAt(s, 0, 4), NumberAt(s, 5, 2), NumberAt(s, 8, 2),
             NumberAt(s, 11, 2), NumberAt(s, 14, 2), NumberAt(s, 17, 2))
  }

  /** `n` digits followed, when given, by one separator byte. */
  method ParseField(cursor: Cursor, n: nat, separator: Option<Byte>) returns (r: Option<nat>)
    requires cursor.Valid() && n <= 4
    modifies cursor
    ensures cursor.Valid()
    ensures var s, i := cursor.bytes, old(cursor.pos);
            && (r.Some? <==> DigitsAt(s, i, n) && (separator.Some? ==> i + n < |s| && s[i + n] == separator.value))
            && (r.Some? ==> r.value == NumberAt(s, i, n)
                            && cursor.pos == i + n + if separator.Some? then 1 else 0)
  {
    if DigitsAt(cursor.bytes, cursor.pos, n) {
      SmallNumber(cursor.bytes, cursor.pos, n);
    }
    r := cursor.Digits(n);
    if r.Some? && separator.Some? {
      var ok := cursor.Eat(separator.value);
      if !ok {
        return None;
      }
    }
  }

  method ParseDateTime(cursor: Cursor) returns (r: Option<DateTime>)
    requires cursor.pos == 0
    modifies cursor
    ensures cursor.Valid()
    ensures r.Some? <==> DateTimeShape(cursor.bytes) && cursor.bytes[10] == UPPER_T
    ensures r.Some? ==> r.value == DateTimeAt(cursor.bytes) && cursor.pos == 19
  {
    var year := ParseField(cursor, 4, Some(HYPHEN));
    if year.None? { return None; }
    var month := ParseField(cursor, 2, Some(HYPHEN));
    if month.None? { return None; }
    var day := ParseField(cursor, 2, Some(UPPER_T));
    if day.None? { return None; }
    var hour := ParseField(cursor, 2, Some(COLON));
    if hour.None? { return None; }
    var minute := ParseField(cursor, 2, Some(COLON));
    if minute.None? { return None; }
    var second := ParseField(cursor, 2, None);
    if second.None? { return None; }
    return Some(DateTime(year.value, month.value, day.value, hour.value, minute.value, second.value));
  }

  function Scale(digits: nat): nat {
    if digits == 0 then 100 else if digits == 1 then 10 else if digits == 2 then 1 else 0
  }

  lemma MillisStep(s: Text, i: nat, d: nat)
    requires d < 3 && DigitsAt(s, i, d + 1)
    ensures Millis(s, i, i + d + 1) == Millis(s, i, i + d) + (s[i + d] - 48) * Scale(d)
  {
    assert NumberAt(s, i, d + 1) == NumberAt(s, i, d) * 10 + (s[i + d] - 48);
  }

  /** An optional fraction: three digits are read, the others are skipped. */
  method ParseFraction(cursor: Cursor) returns (millis: nat)
    requires cursor.pos == 19 <= |cursor.bytes|
    modifies cursor
    ensures cursor.pos == ZoneStart(cursor.bytes)
    ensures millis == Fraction(cursor.bytes)
  {
    millis := 0;
    if cursor.Peek() == Some(DOT) {
      var s := cursor.bytes;
      cursor.pos := 20;
      var scale := 100;
      var digits := 0;
      while digits < 3 && cursor.pos < |s| && IsDigit(s[cursor.pos])
        invariant digits <= 3 && cursor.pos == 20 + digits <= |s|
        invariant DigitsAt(s, 20, digits) && millis == Millis(s, 20, 20 + digits)
        invariant scale == Scale(digits)
        invariant DigitsEnd(s, 20) == DigitsEnd(s, cursor.pos)
      {
        MillisStep(s, 20, digits);
        var digit: int := s[cursor.pos] - 48;
        millis := millis + digit * scale;
        scale := scale / 10;
        cursor.pos := cursor.pos + 1;
        digits := digits + 1;
      }
      SkipDigits(cursor);
    }
  }

  method SkipDigits(cursor: Cursor)
    requires cursor.Valid()
    modifies cursor
    ensures cursor.pos == DigitsEnd(cursor.bytes, old(cursor.pos))
  {
    while cursor.pos < |cursor.bytes| && IsDigit(cursor.bytes[cursor.pos])
      invariant cursor.Valid()
      invariant DigitsEnd(cursor.bytes, old(cursor.pos)) == DigitsEnd(cursor.bytes, cursor.pos)
    {
      cursor.pos := cursor.pos + 1;
    }
  }

  /** The zone, which must end the text. */
  method ParseZone(cursor: Cursor) returns (offset: Option<int>)
    requires cursor.Valid()
    modifies cursor
    ensures offset.Some? <==> ZoneShape(cursor.bytes, old(cursor.pos))
    ensures offset.Some? ==> offset.value == OffsetSeconds(cursor.bytes, old(cursor.pos))
  {
    var offsetSecs: int := 0;
    match cursor.Peek() {
      case None => return None;
      case Some(b) =>
        if b == UPPER_Z || b == LOWER_Z {
          cursor.pos := cursor.pos + 1;
        } else if b == PLUS || b == HYPHEN {
          var sign: int := if b == HYPHEN then -1 else 1;
          cursor.pos := cursor.pos + 1;
          var hour := ParseField(cursor, 2, Some(COLON));
          if hour.None? { return None; }
          var minute := ParseField(cursor, 2, None);
          if minute.None? { return None; }
          if hour.value > 23 || minute.value > 59 { return None; }
          offsetSecs := sign * (hour.value * 3600 + minute.value * 60);
        } else {
          return None;
        }
    }
    return if cursor.pos == |cursor.bytes| then Some(offsetSecs) else None;
  }

  lemma DaysAreBounded(year: int, month: int, day: int)
    requires 0 <= year <= 9999 && 1 <= month <= 12 && 1 <= day <= 31
    ensures -800000 <= DaysFromCivil(year, month, day) <= 3000000
  {
  }

  method ParseRfc3339(input: Text) returns (r: Option<nat>)
    ensures r == Parse(input)
  {
    hide DaysFromCivil;
    var cursor := new Cursor(input);
    var head := ParseDateTime(cursor);
    if head.None? { return None; }
    var millis := ParseFraction(cursor);
    var offset := ParseZone(cursor);
    if offset.None? { return None; }
    var d := head.value;
    if !(1 <= d.month <= 12) || !(1 <= d.day <= 31) || d.hour > 23 || d.minute > 59 || d.second > 60 {
      return None;
    }
    var days := DaysFromCivil(d.year, d.month, d.day);
    var unixSecs := days * 86400 + d.hour * 3600 + d.minute * 60 + d.second - offset.value;
    InstantFits(input);
    if unixSecs * 1000 > I64_MAX || unixSecs * 1000 < -I64_MAX - 1 || unixSecs * 1000 + millis > I64_MAX {
      return None;
    }
    var millisTotal := unixSecs * 1000 + millis;
    return if millisTotal < 0 then None else Some(millisTotal);
  }

  /** The checked 64-bit multiplication and addition of the parser never overflow. */
  lemma InstantFits(s: Text)
    requires DateTimeText(s, 60)
    ensures -I64_MAX <= Instant(s) - Fraction(s) && Instant(s) <= I64_MAX
  {
    hide DaysFromCivil;
    hide NumberAt;
    SmallNumber(s, 0, 4);
    DaysAreBounded(NumberAt(s, 0, 4), NumberAt(s, 5, 2), NumberAt(s, 8, 2));
    if HasFraction(s) {
      var e := DigitsEnd(s, 20);
      SmallNumber(s, 20, if e >= 23 then 3 else e - 20);
    }
  }

  // ---------- The recogniser ----------

  method AllDigits(bytes: Text, lo: nat, hi: nat) returns (ok: bool)
    requires lo <= hi <= |bytes|
    ensures ok <==> DigitsAt(bytes, lo, hi - lo)
  {
    for i := lo to hi
      invariant DigitsAt(bytes, lo, i - lo)
    {
      if !IsDigit(bytes[i]) {
        return false;
      }
    }
    return true;
  }

  /** The recogniser's own arithmetic, on 8-bit values. */
  function TwoDigits(s: Text, i: nat): Byte
    requires DigitsAt(s, i, 2)
  {
    (s[i] - 48) * 10 + (s[i + 1] - 48)
  }

  lemma TwoDigitNumber(s: Text, i: nat)
    requires DigitsAt(s, i, 2)
    ensures NumberAt(s, i, 2) == TwoDigits(s, i)
  {
    assert NumberAt(s, i, 1) == s[i] - 48;
  }

  method RecogniseDateTime(bytes: Text) returns (ok: bool)
    requires |bytes| >= 20
    ensures ok <==> DateTimeShape(bytes) && FieldRanges(bytes, 59) && bytes[10] in {UPPER_T, LOWER_T}
  {
    var y := AllDigits(bytes, 0, 4);
    var mo := AllDigits(bytes, 5, 7);
    var d := AllDigits(bytes, 8, 10);
    if !y || bytes[4] != HYPHEN || !mo || bytes[7] != HYPHEN || !d {
      return false;
    }
    TwoDigitNumber(bytes, 5);
    TwoDigitNumber(bytes, 8);
    var month, day := TwoDigits(bytes, 5), TwoDigits(bytes, 8);
    if !(1 <= month <= 12) || !(1 <= day <= 31) {
      return false;
    }
    var h := AllDigits(bytes, 11, 13);
    var mi := AllDigits(bytes, 14, 16);
    var se := AllDigits(bytes, 17, 19);
    if !(bytes[10] == UPPER_T || bytes[10] == LOWER_T) || !h || bytes[13] != COLON || !mi || bytes[16] != COLON || !se {
      return false;
    }
    TwoDigitNumber(bytes, 11);
    TwoDigitNumber(bytes, 14);
    TwoDigitNumber(bytes, 17);
    var hour, minute, second := TwoDigits(bytes, 11), TwoDigits(bytes, 14), TwoDigits(bytes, 17);
    return !(hour > 23 || minute > 59 || second > 59);
  }

  method RecogniseZone(bytes: Text, i: nat) returns (ok: bool)
    requires i <= |bytes|
    ensures ok <==> ZoneShape(bytes, i)
  {
    if i == |bytes| {
      return false;
    }
    if bytes[i] == UPPER_Z || bytes[i] == LOWER_Z {
      return i + 1 == |bytes|;
    }
    if !(bytes[i] == PLUS || bytes[i] == HYPHEN) || |bytes| != i + 6 {
      return false;
    }
    var h := AllDigits(bytes, i + 1, i + 3);
    var m := AllDigits(bytes, i + 4, i + 6);
    if !h || bytes[i + 3] != COLON || !m {
      return false;
    }
    TwoDigitNumber(bytes, i + 1);
    TwoDigitNumber(bytes, i + 4);
    return TwoDigits(bytes, i + 1) <= 23 && TwoDigits(bytes, i + 4) <= 59;
  }

  method IsRfc3339Timestamp(bytes: Text) returns (ok: bool)
    ensures ok <==> Recognised(bytes)
  {
    if |bytes| < 20 {
      return false;
    }
    var head := RecogniseDateTime(bytes);
    if !head {
      return false;
    }
    var i := 19;
    if bytes[i] == DOT {
      i := 20;
      while i < |bytes| && IsDigit(bytes[i])
        invariant 20 <= i <= |bytes| && DigitsEnd(bytes, 20) == DigitsEnd(bytes, i)
      {
        i := i + 1;
      }
      if i == 20 {
        return false;
      }
    }
    ok := RecogniseZone(bytes, i);
  }

  // ---------- Main results ----------

  /** Parser and recogniser accept the same texts, except lower-case `t`, second 60, an empty
      fraction and instants before 1970. */
  lemma ParserMeetsRecogniser(s: Text)
    ensures Recognised(s) && s[10] == UPPER_T && Instant(s) >= 0
       <==> Parse(s).Some? && NumberAt(s, 17, 2) != 60 && (HasFraction(s) ==> DigitsEnd(s, 20) > 20)
  {
    hide Instant;
    hide NumberAt;
  }

  predicate FourDigitYear(wallMs: int) {
    0 <= CivilFromDays(wallMs / 86400000).year <= 9999
  }

  /** Wall-clock reading of an instant shifted by an offset. */
  function Stamp(wallMs: int): Text
    requires CivilFromDays(wallMs / 86400000).year >= 0
  {
    YearAfterEpoch(wallMs / 86400000);
    var t: nat := wallMs % 86400000;
    Layout(CivilFromDays(wallMs / 86400000), t / 3600000, (t / 60000) % 60, (t / 1000) % 60, t % 1000)
  }

  lemma TimeOfDayFields(ms: nat)
    ensures var secs := ms / 1000; var rem := secs % 86400; var t := ms % 86400000;
            && secs / 86400 == ms / 86400000
            && rem / 3600 == t / 3600000
            && (rem % 3600) / 60 == (t / 60000) % 60
            && rem % 60 == (t / 1000) % 60
            && ms % 1000 == t % 1000
  {
    var days, t := ms / 86400000, ms % 86400000;
    var hour, u := t / 3600000, t % 3600000;
    var minute, v := u / 60000, u % 60000;
    var second, milli := v / 1000, v % 1000;
    Quotient(ms, 1000, days * 86400 + hour * 3600 + minute * 60 + second, milli);
    Quotient(t, 1000, hour * 3600 + minute * 60 + second, milli);
    Quotient(t, 60000, hour * 60 + minute, v);
    Quotient(hour * 60 + minute, 60, hour, minute);
    Quotient(hour * 3600 + minute * 60 + second, 60, hour * 60 + minute, second);
    var rem := hour * 3600 + minute * 60 + second;
    Quotient(ms / 1000, 86400, days, rem);
    Quotient(rem, 3600, hour, minute * 60 + second);
    Quotient(minute * 60 + second, 60, minute, second);
  }

  /** The three printers give the same text for every instant. */
  lemma PrintersAgree(ms: nat)
    ensures CivilFromDays(ms / 86400000).year >= 0
    ensures NowTimestampLike(ms) == Stamp(ms) + [UPPER_Z]
    ensures Rfc3339At(ms / 1000, ms % 1000) == Stamp(ms) + [UPPER_Z]
    ensures UnixMsToRfc3339(ms) == Stamp(ms) + [UPPER_Z]
  {
    hide CivilFromDays;
    hide CivilFromDaysEuclid;
    hide Layout;
    TimeOfDayFields(ms);
    YearAfterEpoch(ms / 86400000);
    CopiesAgree(ms / 86400000);
  }

  function Pow10(w: nat): nat {
    if w == 0 then 1 else 10 * Pow10(w - 1)
  }

  lemma {:induction false} PaddedLength(n: nat, w: nat)
    requires w >= 1
    ensures if n < Pow10(w) then |Padded(n, w)| == w else |Padded(n, w)| > w
    decreases w
  {
    if w == 1 {
      if n >= 10 {
        PaddedNonEmpty(n / 10, 0);
      }
    } else {
      PaddedLength(n / 10, w - 1);
    }
  }

  lemma PaddedNonEmpty(n: nat, w: nat)
    ensures |Padded(n, w)| >= 1
  {
  }

  lemma {:induction false} PaddedDigits(n: nat, w: nat)
    ensures forall k :: 0 <= k < |Padded(n, w)| ==> IsDigit(Padded(n, w)[k])
    decreases n, w
  {
    if !(n < 10 && w <= 1) {
      PaddedDigits(n / 10, if w == 0 then 0 else w - 1);
    }
  }

  /** A printed field reads back as its number. */
  lemma {:induction false} FieldReadsBack(s: Text, i: nat, n: nat, w: nat)
    requires w >= 1 && n < Pow10(w) && i + w <= |s| && s[i..i + w] == Padded(n, w)
    ensures DigitsAt(s, i, w) && NumberAt(s, i, w) == n
    decreases w
  {
    PaddedDigits(n, w);
    assert forall k :: i <= k < i + w ==> s[k] == Padded(n, w)[k - i];
    if w == 1 {
      assert NumberAt(s, i, 1) == NumberAt(s, i, 0) * 10 + (s[i] - 48);
    } else {
      PaddedLength(n / 10, w - 1);
      assert s[i..i + w - 1] == s[i..i + w][..w - 1] == Padded(n / 10, w - 1);
      FieldReadsBack(s, i, n / 10, w - 1);
    }
  }

  lemma DatePieces(c: Civil)
    requires 0 <= c.year <= 9999 && RealDate(c)
    ensures var s := DateText(c);
            && |s| == 10 && s[4] == HYPHEN && s[7] == HYPHEN
            && s[0..4] == Padded(c.year, 4) && s[5..7] == Padded(c.month, 2) && s[8..10] == Padded(c.day, 2)
  {
    PowersOfTen();
    hide Pow10;
    hide Padded;
    PaddedLength(c.year, 4);
    PaddedLength(c.month, 2);
    PaddedLength(c.day, 2);
  }

  lemma ClockPieces(hour: nat, minute: nat, second: nat, millis: nat)
    requires hour <= 23 && minute <= 59 && second <= 59 && millis <= 999
    ensures var s := ClockText(hour, minute, second, millis);
            && |s| == 12 && s[2] == COLON && s[5] == COLON && s[8] == DOT
            && s[0..2] == Padded(hour, 2) && s[3..5] == Padded(minute, 2) && s[6..8] == Padded(second, 2)
            && s[9..12] == Padded(millis, 3)
  {
    PowersOfTen();
    hide Pow10;
    hide Padded;
    PaddedLength(hour, 2);
    PaddedLength(minute, 2);
    PaddedLength(second, 2);
    PaddedLength(millis, 3);
  }

  lemma PowersOfTen()
    ensures Pow10(2) == 100 && Pow10(3) == 1000 && Pow10(4) == 10000
  {
    assert Pow10(1) == 10 * Pow10(0);
    assert Pow10(2) == 10 * Pow10(1);
    assert Pow10(3) == 10 * Pow10(2);
  }

  lemma DateReadsBack(s: Text, c: Civil)
    requires 0 <= c.year <= 9999 && RealDate(c) && |s| >= 10 && s[..10] == DateText(c)
    ensures DigitsAt(s, 0, 4) && s[4] == HYPHEN && DigitsAt(s, 5, 2) && s[7] == HYPHEN && DigitsAt(s, 8, 2)
    ensures NumberAt(s, 0, 4) == c.year && NumberAt(s, 5, 2) == c.month && NumberAt(s, 8, 2) == c.day
  {
    assert c.day <= 31;
    hide DaysInMonth;
    hide Padded;
    DatePieces(c);
    PowersOfTen();
    hide Pow10;
    var date := DateText(c);
    hide DateText;
    assert s[0..4] == date[0..4] && s[5..7] == date[5..7] && s[8..10] == date[8..10];
    FieldReadsBack(s, 0, c.year, 4);
    FieldReadsBack(s, 5, c.month, 2);
    FieldReadsBack(s, 8, c.day, 2);
  }

  lemma SubSlice(s: Text, a: nat, b: nat, c: nat, d: nat)
    requires a <= b <= |s| && c <= d <= b - a
    ensures s[a..b][c..d] == s[a + c..a + d]
  {
    var x, y := s[a..b][c..d], s[a + c..a + d];
    assert forall k :: 0 <= k < d - c ==> x[k] == s[a + c + k] == y[k];
  }

  lemma ClockReadsBack(s: Text, hour: nat, minute: nat, second: nat, millis: nat)
    requires hour <= 23 && minute <= 59 && second <= 59 && millis <= 999
    requires |s| >= 23 && s[11..23] == ClockText(hour, minute, second, millis)
    ensures DigitsAt(s, 11, 2) && s[13] == COLON && DigitsAt(s, 14, 2) && s[16] == COLON && DigitsAt(s, 17, 2)
    ensures s[19] == DOT && DigitsAt(s, 20, 3)
    ensures NumberAt(s, 11, 2) == hour && NumberAt(s, 14, 2) == minute && NumberAt(s, 17, 2) == second
    ensures NumberAt(s, 20, 3) == millis
  {
    hide Padded;
    ClockPieces(hour, minute, second, millis);
    PowersOfTen();
    hide Pow10;
    var clock := ClockText(hour, minute, second, millis);
    hide ClockText;
    SubSlice(s, 11, 23, 0, 2);
    SubSlice(s, 11, 23, 3, 5);
    SubSlice(s, 11, 23, 6, 8);
    SubSlice(s, 11, 23, 9, 12);
    assert s[13] == clock[2] && s[16] == clock[5] && s[19] == clock[8];
    FieldReadsBack(s, 11, hour, 2);
    FieldReadsBack(s, 14, minute, 2);
    FieldReadsBack(s, 17, second, 2);
    FieldReadsBack(s, 20, millis, 3);
  }

  /** The fields of a printed four-digit-year text read back, whatever zone follows. */
  lemma LayoutReadsBack(c: Civil, hour: nat, minute: nat, second: nat, millis: nat, zone: Text)
    requires 0 <= c.year <= 9999 && RealDate(c) && hour <= 23 && minute <= 59 && second <= 59 && millis <= 999
    requires |zone| >= 1 && !IsDigit(zone[0])
    ensures var s := Layout(c, hour, minute, second, millis) + zone;
            && DateTimeShape(s) && s[10] == UPPER_T && |s| == 23 + |zone| && s[23..] == zone
            && DateTimeAt(s) == DateTime(c.year, c.month, c.day, hour, minute, second)
            && HasFraction(s) && DigitsEnd(s, 20) == 23 && Fraction(s) == millis
  {
    hide DaysInMonth;
    hide NumberAt;
    DatePieces(c);
    ClockPieces(hour, minute, second, millis);
    hide DateText;
    hide ClockText;
    var date, clock := DateText(c), ClockText(hour, minute, second, millis);
    var s := date + [UPPER_T] + clock + zone;
    assert s[..10] == date && s[11..23] == clock && s[23..] == zone;
    DateReadsBack(s, c);
    ClockReadsBack(s, hour, minute, second, millis);
    DigitsRun(s, 20, 3);
  }

  lemma {:induction false} DigitsRun(s: Text, i: nat, n: nat)
    requires DigitsAt(s, i, n) && (i + n < |s| ==> !IsDigit(s[i + n]))
    ensures DigitsEnd(s, i) == i + n
    decreases n
  {
    if n > 0 {
      DigitsRun(s, i + 1, n - 1);
    }
  }

  /** A printed wall time followed by a zone denotes the wall time minus the offset. */
  lemma StampInstant(wallMs: int, zone: Text)
    requires FourDigitYear(wallMs)
    requires |zone| >= 1 && !IsDigit(zone[0])
    ensures var s := Stamp(wallMs) + zone;
            && DateTimeShape(s) && FieldRanges(s, 59) && s[10] == UPPER_T
            && HasFraction(s) && DigitsEnd(s, 20) == 23 && |s| == 23 + |zone| && s[23..] == zone
            && (ZoneShape(s, 23) ==> DateTimeText(s, 59) && Instant(s) == wallMs - OffsetSeconds(s, 23) * 1000)
  {
    hide CivilFromDays;
    hide DaysFromCivil;
    var days, t: nat := wallMs / 86400000, wallMs % 86400000;
    YearAfterEpoch(days);
    DaysAfterCivil(days);
    var c := CivilFromDays(days);
    var hour, minute, second, millis := t / 3600000, (t / 60000) % 60, (t / 1000) % 60, t % 1000;
    ClockOfDay(t);
    LayoutReadsBack(c, hour, minute, second, millis, zone);
    assert c.day <= 31;
    hide Layout;
    hide DaysInMonth;
    hide NumberAt;
    hide ZoneShape;
  }

  lemma ClockOfDay(t: nat)
    requires t < 86400000
    ensures var hour, minute, second, millis := t / 3600000, (t / 60000) % 60, (t / 1000) % 60, t % 1000;
            && hour <= 23 && minute <= 59 && second <= 59 && millis <= 999
            && t == (hour * 3600 + minute * 60 + second) * 1000 + millis
  {
    var hour, u := t / 3600000, t % 3600000;
    var minute, v := u / 60000, u % 60000;
    var second, milli := v / 1000, v % 1000;
    Quotient(t, 1000, hour * 3600 + minute * 60 + second, milli);
    Quotient(t, 60000, hour * 60 + minute, v);
    Quotient(hour * 60 + minute, 60, hour, minute);
    Quotient(hour * 3600 + minute * 60 + second, 60, hour * 60 + minute, second);
  }

  lemma FiveDigitYearText(ms: nat)
    requires ms >= YEAR_10000
    ensures !DateTimeShape(NowTimestampLike(ms))
  {
    hide CivilFromDays;
    hide NowTimestampLike;
    PrintersAgree(ms);
    YearAfterEpoch(ms / 86400000);
    var year := CivilFromDays(ms / 86400000).year;
    hide RealDate;
    PowersOfTen();
    PaddedLength(year, 4);
    PaddedDigits(year, 4);
    hide Padded;
    assert (Stamp(ms) + [UPPER_Z])[4] == Padded(year, 4)[4];
  }

  lemma FourDigitYearBefore(ms: nat)
    requires ms < YEAR_10000
    ensures FourDigitYear(ms)
  {
    hide CivilFromDays;
    YearAfterEpoch(ms / 86400000);
    hide RealDate;
  }

  lemma UtcTextParses(s: Text, ms: nat)
    requires |s| == 24 && s[10] == UPPER_T && s[23] == UPPER_Z && HasFraction(s) && DigitsEnd(s, 20) == 23
    requires ZoneShape(s, 23) ==> DateTimeText(s, 59) && Instant(s) == ms - OffsetSeconds(s, 23) * 1000
    ensures Parse(s) == Some(ms) && Recognised(s)
  {
    hide Instant;
    hide NumberAt;
    hide DigitsAt;
    hide DateTimeShape;
  }

  lemma UtcStampParses(ms: nat)
    requires FourDigitYear(ms)
    ensures Parse(Stamp(ms) + [UPPER_Z]) == Some(ms) && Recognised(Stamp(ms) + [UPPER_Z])
  {
    hide Parse;
    hide Recognised;
    hide Instant;
    hide NumberAt;
    hide Stamp;
    hide FourDigitYear;
    hide DateTimeShape;
    hide DateTimeText;
    hide FieldRanges;
    hide DigitsEnd;
    hide ZoneShape;
    hide OffsetSeconds;
    StampInstant(ms, [UPPER_Z]);
    var s := Stamp(ms) + [UPPER_Z];
    assert s[23] == s[23..][0] == UPPER_Z;
    UtcTextParses(s, ms);
  }

  /** Parsing a printed timestamp gives the instant back, exactly until the end of the year 9999. */
  lemma ParseAfterPrint(ms: nat)
    ensures Parse(NowTimestampLike(ms)) == if ms < YEAR_10000 then Some(ms) else None
    ensures Recognised(NowTimestampLike(ms)) <==> ms < YEAR_10000
  {
    hide NowTimestampLike;
    hide CivilFromDays;
    if ms < YEAR_10000 {
      PrintersAgree(ms);
      FourDigitYearBefore(ms);
      hide FourDigitYear;
      UtcStampParses(ms);
      hide Parse;
      hide Recognised;
    } else {
      FiveDigitYearText(ms);
    }
  }

  function ZoneText(west: bool, hours: nat, minutes: nat): Text {
    [if west then HYPHEN else PLUS] + Padded(hours, 2) + [COLON] + Padded(minutes, 2)
  }

  function ZoneSeconds(west: bool, hours: nat, minutes: nat): int {
    (if west then -1 else 1) * (hours * 3600 + minutes * 60)
  }

  lemma ZoneReadsBack(s: Text, west: bool, hours: nat, minutes: nat)
    requires hours <= 23 && minutes <= 59
    requires |s| >= 23 && s[23..] == ZoneText(west, hours, minutes)
    ensures ZoneShape(s, 23) && OffsetSeconds(s, 23) == ZoneSeconds(west, hours, minutes)
  {
    PowersOfTen();
    hide Pow10;
    hide Padded;
    PaddedLength(hours, 2);
    PaddedLength(minutes, 2);
    var zone := ZoneText(west, hours, minutes);
    assert forall k :: 0 <= k < 6 ==> s[23 + k] == zone[k];
    assert s[24..26] == zone[1..3] == Padded(hours, 2);
    assert s[27..29] == zone[4..6] == Padded(minutes, 2);
    FieldReadsBack(s, 24, hours, 2);
    FieldReadsBack(s, 27, minutes, 2);
  }

  /** The same instant written as local wall time with a numeric offset parses to the same instant. */
  lemma ParseAfterLocalPrint(ms: nat, west: bool, hours: nat, minutes: nat)
    requires hours <= 23 && minutes <= 59
    requires FourDigitYear(ms + ZoneSeconds(west, hours, minutes) * 1000)
    ensures Parse(Stamp(ms + ZoneSeconds(west, hours, minutes) * 1000) + ZoneText(west, hours, minutes)) == Some(ms)
  {
    hide CivilFromDays;
    hide Padded;
    var wall := ms + ZoneSeconds(west, hours, minutes) * 1000;
    var zone := ZoneText(west, hours, minutes);
    assert zone[0] in {PLUS, HYPHEN};
    StampInstant(wall, zone);
    var s := Stamp(wall) + zone;
    hide Stamp;
    hide ZoneText;
    ZoneReadsBack(s, west, hours, minutes);
    hide ZoneShape;
    hide NumberAt;
    hide Instant;
  }

  // ---------- Printing after parsing ----------

  /** The shape every printer writes: three fraction digits and `Z`. */
  predicate PrintedShape(s: Text) {
    |s| == 24 && Parse(s).Some? && HasFraction(s) && DigitsEnd(s, 20) == 23 && s[23] == UPPER_Z
  }

  predicate NamesRealDate(s: Text)
    requires DateTimeShape(s)
  {
    RealDate(Civil(NumberAt(s, 0, 4), NumberAt(s, 5, 2), NumberAt(s, 8, 2))) && NumberAt(s, 17, 2) < 60
  }

  lemma {:induction false} SameNumberSameDigits(s: Text, t: Text, i: nat, n: nat)
    requires DigitsAt(s, i, n) && DigitsAt(t, i, n)
    requires NumberAt(s, i, n) == NumberAt(t, i, n)
    ensures forall k :: i <= k < i + n ==> s[k] == t[k]
    decreases n
  {
    if n > 0 {
      var a, b := s[i + n - 1] - 48, t[i + n - 1] - 48;
      SameQuotient(10, NumberAt(s, i, n - 1), a, NumberAt(t, i, n - 1), b);
      SameNumberSameDigits(s, t, i, n - 1);
    }
  }

  lemma SamePrintedText(s: Text, t: Text)
    requires |s| == 24 && |t| == 24 && DateTimeShape(s) && DateTimeShape(t) && DateTimeAt(s) == DateTimeAt(t)
    requires s[10] == t[10] && s[19] == t[19] && s[23] == t[23]
    requires DigitsAt(s, 20, 3) && DigitsAt(t, 20, 3) && NumberAt(s, 20, 3) == NumberAt(t, 20, 3)
    ensures s == t
  {
    hide NumberAt;
    SameNumberSameDigits(s, t, 0, 4);
    SameNumberSameDigits(s, t, 5, 2);
    SameNumberSameDigits(s, t, 8, 2);
    SameNumberSameDigits(s, t, 11, 2);
    SameNumberSameDigits(s, t, 14, 2);
    SameNumberSameDigits(s, t, 17, 2);
    SameNumberSameDigits(s, t, 20, 3);
  }

  lemma InstantParts(days: int, hour: nat, minute: nat, second: nat, millis: nat)
    requires hour <= 23 && minute <= 59 && second <= 59 && millis <= 999
    ensures var ms := (days * 86400 + hour * 3600 + minute * 60 + second) * 1000 + millis; var t := ms % 86400000;
            ms / 86400000 == days && t / 3600000 == hour && (t / 60000) % 60 == minute && (t / 1000) % 60 == second
            && t % 1000 == millis
  {
    var ms := (days * 86400 + hour * 3600 + minute * 60 + second) * 1000 + millis;
    var t := (hour * 3600 + minute * 60 + second) * 1000 + millis;
    Quotient(ms, 86400000, days, t);
    Quotient(t, 3600000, hour, (minute * 60 + second) * 1000 + millis);
    Quotient(t, 60000, hour * 60 + minute, second * 1000 + millis);
    Quotient(hour * 60 + minute, 60, hour, minute);
    Quotient(t, 1000, hour * 3600 + minute * 60 + second, millis);
    Quotient(hour * 3600 + minute * 60 + second, 60, hour * 60 + minute, second);
  }

  lemma PrintAfterParseOnRealDates(s: Text)
    requires PrintedShape(s) && NamesRealDate(s)
    ensures NowTimestampLike(Parse(s).value) == s
  {
    hide NumberAt;
    hide DaysFromCivil;
    hide CivilFromDays;
    hide NowTimestampLike;
    hide Padded;
    var d, millis := DateTimeAt(s), Fraction(s);
    var c := Civil(d.year, d.month, d.day);
    assert ZoneStart(s) == 23;
    SmallNumber(s, 0, 4);
    SmallNumber(s, 20, 3);
    CivilAfterDays(c);
    var days := DaysFromCivil(c.year, c.month, c.day);
    InstantParts(days, d.hour, d.minute, d.second, millis);
    var ms := Instant(s);
    PrintersAgree(ms);
    var t := Layout(c, d.hour, d.minute, d.second, millis) + [UPPER_Z];
    assert NowTimestampLike(ms) == t;
    LayoutReadsBack(c, d.hour, d.minute, d.second, millis, [UPPER_Z]);
    hide Layout;
    SamePrintedText(s, t);
  }

  /** On texts of the printed shape, printing after parsing is the identity exactly when the text
      names a real date and no leap second. */
  lemma PrintAfterParse(s: Text)
    requires PrintedShape(s)
    ensures NowTimestampLike(Parse(s).value) == s <==> NamesRealDate(s)
  {
    hide NumberAt;
    hide CivilFromDays;
    hide NowTimestampLike;
    hide Instant;
    var ms := Parse(s).value;
    if NamesRealDate(s) {
      PrintAfterParseOnRealDates(s);
    }
    if NowTimestampLike(ms) == s {
      ParseAfterPrint(ms);
      PrintersAgree(ms);
      YearAfterEpoch(ms / 86400000);
      ClockOfDay(ms % 86400000);
      var t := ms % 86400000;
      LayoutReadsBack(CivilFromDays(ms / 86400000), t / 3600000, (t / 60000) % 60, (t / 1000) % 60, t % 1000,
        [UPPER_Z]);
    }
  }

  /** `1970-02-31T00:00:00.000Z` */
  const FEBRUARY_31: Text := FEBRUARY_31_DATE + MIDNIGHT
  const FEBRUARY_31_DATE: Text := [49, 57, 55, 48, 45, 48, 50, 45, 51, 49]
  const MIDNIGHT: Text := [84, 48, 48, 58, 48, 48, 58, 48, 48, 46, 48, 48, 48, 90]

  lemma FourDigitNumber(s: Text, i: nat)
    requires DigitsAt(s, i, 4)
    ensures NumberAt(s, i, 4) == TwoDigits(s, i) * 100 + TwoDigits(s, i + 2)
  {
    TwoDigitNumber(s, i);
    assert NumberAt(s, i, 3) == NumberAt(s, i, 2) * 10 + (s[i + 2] - 48);
  }

  /** The text is `yyyy-02-31T00:00:00.000Z`. */
  predicate IsFebruary31(s: Text) {
    && |s| == 24 && DigitsAt(s, 0, 4)
    && s[4] == HYPHEN && s[5] == 48 && s[6] == 50 && s[7] == HYPHEN && s[8] == 51 && s[9] == 49
    && s[10] == UPPER_T && s[13] == COLON && s[16] == COLON && s[19] == DOT && s[23] == UPPER_Z
    && s[11] == s[12] == s[14] == s[15] == s[17] == s[18] == s[20] == s[21] == s[22] == 48
  }

  lemma February31Fields(s: Text)
    requires IsFebruary31(s)
    ensures DateTimeShape(s) && FieldRanges(s, 60) && NumberAt(s, 5, 2) == 2 && NumberAt(s, 8, 2) == 31
    ensures NumberAt(s, 11, 2) == 0 && NumberAt(s, 14, 2) == 0 && NumberAt(s, 17, 2) == 0
  {
    hide NumberAt;
    TwoDigitNumber(s, 5);
    TwoDigitNumber(s, 8);
    TwoDigitNumber(s, 11);
    TwoDigitNumber(s, 14);
    TwoDigitNumber(s, 17);
  }

  lemma February31Zone(s: Text)
    requires IsFebruary31(s)
    ensures HasFraction(s) && DigitsEnd(s, 20) == 23 && Fraction(s) == 0 && ZoneShape(s, 23)
            && OffsetSeconds(s, 23) == 0
  {
    DigitsRun(s, 20, 3);
    TwoDigitNumber(s, 20);
    assert NumberAt(s, 20, 3) == 0;
  }

  /** No such text comes back: it parses as a day of March. */
  lemma February31DoesNotComeBack(s: Text)
    requires IsFebruary31(s) && NumberAt(s, 0, 4) >= 1970
    ensures PrintedShape(s) && NowTimestampLike(Parse(s).value) != s
  {
    February31Fields(s);
    February31Zone(s);
    FourDigitNumber(s, 0);
    hide NumberAt;
    hide DigitsEnd;
    hide NowTimestampLike;
    hide IsFebruary31;
    assert DaysFromCivil(NumberAt(s, 0, 4), 2, 31) >= 0 by {
      February31IsAfterEpoch(NumberAt(s, 0, 4));
    }
    hide DaysFromCivil;
    PrintAfterParse(s);
  }

  lemma February31IsAfterEpoch(year: nat)
    requires 1970 <= year <= 9999
    ensures DaysFromCivil(year, 2, 31) >= 0
  {
  }

  /** There is one: 31 February 1970. */
  lemma February31Exists()
    ensures IsFebruary31(FEBRUARY_31) && NumberAt(FEBRUARY_31, 0, 4) == 1970
  {
    hide NumberAt;
    var s := FEBRUARY_31;
    assert s[..10] == FEBRUARY_31_DATE && s[10..] == MIDNIGHT;
    assert forall k :: 0 <= k < 10 ==> s[k] == FEBRUARY_31_DATE[k];
    assert forall k :: 10 <= k < 24 ==> s[k] == MIDNIGHT[k - 10];
    FourDigitNumber(s, 0);
  }
}
