/** Exactly which texts the timestamp parser (crates/daemon/src/scheduler.rs) reads, and as which instants. */
module Timestamps {
  import opened Core
  import opened Calendar
  import opened Rfc3339
  import opened Fractions

  // ---------- Written timestamps ----------

  datatype Zone = Zulu(small: bool) | Offset(west: bool, hours: nat, minutes: nat)

  datatype Written = Written(at: DateTime, fraction: Option<Text>, zone: Zone)

  /** `YYYY-MM-DDTHH:MM:SS` */
  function HeadText(d: DateTime): Text {
    Padded(d.year, 4) + ['-' as int] + Padded(d.month, 2) + ['-' as int] + Padded(d.day, 2) + ['T' as int]
    + Padded(d.hour, 2) + [':' as int] + Padded(d.minute, 2) + [':' as int] + Padded(d.second, 2)
  }

  function FractionText(fraction: Option<Text>): Text {
    if fraction.None? then [] else ['.' as int] + fraction.value
  }

  /** `Z`, `z` or a signed offset. */
  function ZoneAsText(z: Zone): Text {
    match z
    case Zulu(small) => [if small then 'z' as int else 'Z' as int]
    case Offset(west, hours, minutes) =>
      [if west then '-' as int else '+' as int] + Padded(hours, 2) + [':' as int] + Padded(minutes, 2)
  }

  function AsText(w: Written): Text {
    HeadText(w.at) + FractionText(w.fraction) + ZoneAsText(w.zone)
  }

  /** Every field within its bounds; a day is only within 31 and a second within 60. */
  predicate LegalDate(d: DateTime) {
    && 0 <= d.year <= 9999 && 1 <= d.month <= 12 && 1 <= d.day <= 31
    && 0 <= d.hour <= 23 && 0 <= d.minute <= 59 && 0 <= d.second <= 60
  }

  predicate LegalZone(z: Zone) {
    z.Offset? ==> z.hours <= 23 && z.minutes <= 59
  }

  predicate Legal(w: Written) {
    LegalDate(w.at) && LegalZone(w.zone) && (w.fraction.Some? ==> OnlyDigits(w.fraction.value))
  }

  /** The digit at a place, or zero where there is none. */
  function Place(digits: Text, i: nat): int {
    if i < |digits| then digits[i] - '0' as int else 0
  }

  function ZoneSecs(z: Zone): int {
    match z
    case Zulu(_) => 0
    case Offset(west, hours, minutes) => if west then -(hours * 3600 + minutes * 60) else hours * 3600 + minutes * 60
  }

  /** The instant in milliseconds; the fraction counts to three places. */
  function Denotes(w: Written): int {
    var d, f := w.at, if w.fraction.None? then [] else w.fraction.value;
    (DaysFromCivil(d.year, d.month, d.day) * 86400 + d.hour * 3600 + d.minute * 60 + d.second - ZoneSecs(w.zone)) * 1000
    + Place(f, 0) * 100 + Place(f, 1) * 10 + Place(f, 2)
  }

  // ---------- Reading a written timestamp ----------

  lemma HeadPieces(d: DateTime)
    requires LegalDate(d)
    ensures var s := HeadText(d);
            && |s| == 19 && s[4] == HYPHEN && s[7] == HYPHEN && s[10] == UPPER_T && s[13] == COLON && s[16] == COLON
            && s[0..4] == Padded(d.year, 4) && s[5..7] == Padded(d.month, 2) && s[8..10] == Padded(d.day, 2)
            && s[11..13] == Padded(d.hour, 2) && s[14..16] == Padded(d.minute, 2) && s[17..19] == Padded(d.second, 2)
  {
    PowersOfTen();
    hide Pow10;
    hide Padded;
    PaddedLength(d.year, 4);
    PaddedLength(d.month, 2);
    PaddedLength(d.day, 2);
    PaddedLength(d.hour, 2);
    PaddedLength(d.minute, 2);
    PaddedLength(d.second, 2);
  }

  lemma HeadReads(s: Text, d: DateTime)
    requires LegalDate(d) && |s| >= 19 && s[..19] == HeadText(d)
    ensures DateTimeShape(s) && DateTimeAt(s) == d && s[10] == UPPER_T
  {
    hide Padded;
    hide NumberAt;
    hide Pow10;
    HeadPieces(d);
    PowersOfTen();
    var h := HeadText(d);
    hide HeadText;
    assert s[4] == h[4] && s[7] == h[7] && s[10] == h[10] && s[13] == h[13] && s[16] == h[16];
    assert s[0..4] == h[0..4] && s[5..7] == h[5..7] && s[8..10] == h[8..10];
    assert s[11..13] == h[11..13] && s[14..16] == h[14..16] && s[17..19] == h[17..19];
    FieldReadsBack(s, 0, d.year, 4);
    FieldReadsBack(s, 5, d.month, 2);
    FieldReadsBack(s, 8, d.day, 2);
    FieldReadsBack(s, 11, d.hour, 2);
    FieldReadsBack(s, 14, d.minute, 2);
    FieldReadsBack(s, 17, d.second, 2);
  }

  lemma ZoneReads(s: Text, i: nat, z: Zone)
    requires LegalZone(z) && i <= |s| && s[i..] == ZoneAsText(z)
    ensures ZoneShape(s, i) && OffsetSeconds(s, i) == ZoneSecs(z)
  {
    hide Padded;
    hide Pow10;
    hide NumberAt;
    var text := ZoneAsText(z);
    assert s[i] == s[i..][0] == text[0];
    if z.Offset? {
      PowersOfTen();
      PaddedLength(z.hours, 2);
      PaddedLength(z.minutes, 2);
      assert |s| == i + 6 && s[i + 3] == s[i..][3] == text[3];
      assert s[i + 1..i + 3] == s[i..][1..3] == Padded(z.hours, 2);
      assert s[i + 4..i + 6] == s[i..][4..6] == Padded(z.minutes, 2);
      FieldReadsBack(s, i + 1, z.hours, 2);
      FieldReadsBack(s, i + 4, z.minutes, 2);
    }
  }

  lemma MillisArePlaces(s: Text, digits: Text)
    requires |s| >= 20 + |digits| && s[20..20 + |digits|] == digits && OnlyDigits(digits)
    ensures DigitsAt(s, 20, |digits|)
    ensures Millis(s, 20, 20 + |digits|) == Place(digits, 0) * 100 + Place(digits, 1) * 10 + Place(digits, 2)
  {
    assert forall k :: 20 <= k < 20 + |digits| ==> s[k] == s[20..20 + |digits|][k - 20] == digits[k - 20];
    var n := |digits|;
    if n >= 1 {
      assert NumberAt(s, 20, 1) == s[20] - 48;
    }
    if n >= 2 {
      assert NumberAt(s, 20, 2) == NumberAt(s, 20, 1) * 10 + (s[21] - 48);
    }
    if n >= 3 {
      assert NumberAt(s, 20, 3) == NumberAt(s, 20, 2) * 10 + (s[22] - 48);
    }
  }

  lemma ZoneStarts(z: Zone)
    ensures ZoneAsText(z) != [] && !IsDigit(ZoneAsText(z)[0]) && ZoneAsText(z)[0] != DOT
  {
    hide Padded;
  }

  lemma TailReads(head: Text, fraction: Option<Text>, zone: Text)
    requires |head| == 19 && (fraction.Some? ==> OnlyDigits(fraction.value))
    requires zone != [] && !IsDigit(zone[0]) && zone[0] != DOT
    ensures var s, f := head + FractionText(fraction) + zone, if fraction.None? then [] else fraction.value;
            && s[..19] == head && s[ZoneStart(s)..] == zone
            && Fraction(s) == Place(f, 0) * 100 + Place(f, 1) * 10 + Place(f, 2)
            && (HasFraction(s) <==> fraction.Some?)
            && (fraction.Some? ==> DigitsEnd(s, 20) == 20 + |fraction.value|)
  {
    var s := head + FractionText(fraction) + zone;
    if fraction.Some? {
      var digits := fraction.value;
      assert s == head + [DOT] + digits + zone;
      FractionAt(head, digits, zone);
      MillisArePlaces(s, digits);
    } else {
      assert s == head + zone && s[19] == zone[0] && s[19..] == zone;
    }
  }

  lemma WrittenIsText(w: Written)
    requires Legal(w)
    ensures var s := AsText(w);
            && DateTimeText(s, 60) && s[10] == UPPER_T && Instant(s) == Denotes(w)
            && (DateTimeText(s, 59) <==> w.at.second <= 59)
            && (HasFraction(s) <==> w.fraction.Some?)
            && (w.fraction.Some? ==> DigitsEnd(s, 20) == 20 + |w.fraction.value|)
  {
    hide Padded;
    hide NumberAt;
    hide DaysFromCivil;
    hide Fraction;
    hide ZoneStart;
    hide HeadText;
    hide ZoneAsText;
    hide OnlyDigits;
    hide Place;
    var s := AsText(w);
    HeadPieces(w.at);
    ZoneStarts(w.zone);
    TailReads(HeadText(w.at), w.fraction, ZoneAsText(w.zone));
    HeadReads(s, w.at);
    ZoneReads(s, ZoneStart(s), w.zone);
    hide DateTimeShape;
    hide ZoneShape;
    hide OffsetSeconds;
  }

  /** Every legal timestamp is read as the instant it denotes, and refused when that is before 1970. */
  lemma WrittenIsRead(w: Written)
    requires Legal(w)
    ensures Parse(AsText(w)) == if Denotes(w) >= 0 then Some(Denotes(w)) else None
  {
    WrittenIsText(w);
    hide Legal;
    hide DateTimeText;
    hide Instant;
    hide Denotes;
  }

  // ---------- What is read was written ----------

  lemma {:induction false} DigitsArePadded(s: Text, i: nat, w: nat)
    requires w >= 1 && DigitsAt(s, i, w)
    ensures s[i..i + w] == Padded(NumberAt(s, i, w), w)
    decreases w
  {
    var n, d := NumberAt(s, i, w), s[i + w - 1] - 48;
    if w == 1 {
      assert n == NumberAt(s, i, 0) * 10 + d == d;
    } else {
      DigitsArePadded(s, i, w - 1);
      assert n / 10 == NumberAt(s, i, w - 1) && n % 10 == d;
      assert s[i..i + w] == s[i..i + w - 1] + [s[i + w - 1]];
    }
  }

  lemma DateParts(s: Text)
    requires |s| >= 19
    ensures s[..11] == s[0..4] + [s[4]] + s[5..7] + [s[7]] + s[8..10] + [s[10]]
  {
  }

  lemma ClockParts(s: Text)
    requires |s| >= 19
    ensures s[11..19] == s[11..13] + [s[13]] + s[14..16] + [s[16]] + s[17..19] && s[..19] == s[..11] + s[11..19]
  {
  }

  lemma Behind(date: Text, a: Text, b: Text, c: Text, d: Text, e: Text)
    ensures date + (a + b + c + d + e) == date + a + b + c + d + e
  {
  }

  lemma HeadWasWritten(s: Text)
    requires DateTimeShape(s) && s[10] == UPPER_T
    ensures s[..19] == HeadText(DateTimeAt(s))
  {
    hide Padded;
    hide NumberAt;
    DigitsArePadded(s, 0, 4);
    DigitsArePadded(s, 5, 2);
    DigitsArePadded(s, 8, 2);
    DigitsArePadded(s, 11, 2);
    DigitsArePadded(s, 14, 2);
    DigitsArePadded(s, 17, 2);
    hide DigitsAt;
    DateParts(s);
    ClockParts(s);
    Behind(s[..11], s[11..13], [s[13]], s[14..16], [s[16]], s[17..19]);
  }

  lemma ZoneWasWritten(s: Text, i: nat) returns (z: Zone)
    requires i <= |s| && ZoneShape(s, i)
    ensures LegalZone(z) && s[i..] == ZoneAsText(z)
  {
    if |s| == i + 1 {
      z := Zulu(s[i] == LOWER_Z);
      assert s[i..] == [s[i]];
    } else {
      z := Offset(s[i] == HYPHEN, NumberAt(s, i + 1, 2), NumberAt(s, i + 4, 2));
      DigitsArePadded(s, i + 1, 2);
      DigitsArePadded(s, i + 4, 2);
      hide Padded;
      hide NumberAt;
      assert s[i..] == [s[i]] + s[i + 1..i + 3] + [s[i + 3]] + s[i + 4..i + 6];
    }
  }

  lemma TextWasWritten(s: Text) returns (w: Written)
    requires DateTimeText(s, 60) && s[10] == UPPER_T
    ensures Legal(w) && s == AsText(w)
  {
    hide Padded;
    hide NumberAt;
    hide HeadText;
    hide ZoneAsText;
    hide OnlyDigits;
    hide ZoneShape;
    var i := ZoneStart(s);
    var zone := ZoneWasWritten(s, i);
    HeadWasWritten(s);
    var fraction := FractionWasWritten(s);
    SmallNumber(s, 0, 4);
    w := Written(DateTimeAt(s), fraction, zone);
    assert Legal(w);
    hide DateTimeShape;
    hide FractionText;
    assert s == s[..19] + s[19..i] + s[i..];
  }

  /** Every text that is read is a legal timestamp. */
  lemma ReadWasWritten(s: Text) returns (w: Written)
    requires Parse(s).Some?
    ensures Legal(w) && s == AsText(w) && Parse(s) == Some(Denotes(w))
  {
    hide DateTimeText;
    hide Instant;
    hide Denotes;
    hide Legal;
    hide AsText;
    w := TextWasWritten(s);
    WrittenIsRead(w);
  }

  lemma FractionWasWritten(s: Text) returns (fraction: Option<Text>)
    requires |s| >= 19
    ensures FractionText(fraction) == s[19..ZoneStart(s)] && (fraction.Some? ==> OnlyDigits(fraction.value))
  {
    fraction := None;
    if HasFraction(s) {
      var e := DigitsEnd(s, 20);
      var digits := s[20..e];
      forall k | 0 <= k < |digits|
        ensures IsDigit(digits[k])
      {
        assert digits[k] == s[20 + k];
      }
      fraction := Some(digits);
      assert s[19..e] == [s[19]] + digits;
    }
  }

  // ---------- The recogniser ----------

  /** The byte between date and time does not matter to the shape. */
  lemma LetterIsFree(s: Text, b: Byte, maxSecond: nat)
    requires |s| >= 19
    ensures var t := s[10 := b];
            && (DateTimeText(s, maxSecond) <==> DateTimeText(t, maxSecond)) && (HasFraction(s) <==> HasFraction(t))
            && (HasFraction(s) ==> DigitsEnd(t, 20) == DigitsEnd(s, 20))
  {
    hide NumberAt;
    var t := s[10 := b];
    SameFields(s, t);
    if HasFraction(s) {
      var e := DigitsEnd(s, 20);
      assert forall k :: 20 <= k < |s| ==> t[k] == s[k];
      DigitsRun(t, 20, e - 20);
    }
    var i := ZoneStart(s);
    assert ZoneStart(t) == i;
    assert s[i..] == t[i..];
    SameZone(s, i, t, i);
    SameZone(t, i, s, i);
    hide ZoneShape;
    hide DateTimeShape;
  }

  lemma SameFields(s: Text, t: Text)
    requires |s| >= 19 && |t| == |s| && forall k :: 0 <= k < |s| && k != 10 ==> t[k] == s[k]
    ensures DateTimeShape(s) <==> DateTimeShape(t)
    ensures DateTimeShape(s) ==> DateTimeAt(s) == DateTimeAt(t)
  {
    hide NumberAt;
    FieldApart(s, t, 0, 4);
    FieldApart(s, t, 5, 2);
    FieldApart(s, t, 8, 2);
    FieldApart(s, t, 11, 2);
    FieldApart(s, t, 14, 2);
    FieldApart(s, t, 17, 2);
    hide DigitsAt;
  }

  lemma FieldApart(s: Text, t: Text, i: nat, n: nat)
    requires |t| == |s| && i + n <= |s| && forall k :: i <= k < i + n ==> t[k] == s[k]
    ensures DigitsAt(s, i, n) <==> DigitsAt(t, i, n)
    ensures DigitsAt(s, i, n) ==> NumberAt(s, i, n) == NumberAt(t, i, n)
  {
    assert t[i..i + n] == s[i..i + n];
    if DigitsAt(s, i, n) {
      SameDigitsSameNumber(s, i, t, i, n);
    }
  }

  /** A legal timestamp, with any byte in place of its `T`, is recognised exactly when that is `T` or `t`, the
      second is below 60 and a fraction has digits. */
  lemma WrittenIsRecognised(w: Written, b: Byte)
    requires Legal(w)
    ensures |AsText(w)| >= 19
    ensures Recognised(AsText(w)[10 := b]) <==>
            (b == 'T' as int || b == 't' as int) && w.at.second <= 59 && w.fraction != Some([])
  {
    WrittenIsText(w);
    var s := AsText(w);
    hide AsText;
    hide Legal;
    LetterIsFree(s, b, 59);
    hide DateTimeText;
    hide Instant;
    hide Denotes;
  }

  /** And every recognised text is such a timestamp. */
  lemma RecognisedWasWritten(s: Text) returns (w: Written)
    requires Recognised(s)
    ensures Legal(w) && |AsText(w)| >= 19 && s == AsText(w)[10 := s[10]]
  {
    var t := s[10 := UPPER_T];
    LetterIsFree(s, UPPER_T, 60);
    w := TextWasWritten(t);
    assert t[10 := s[10]] == s;
  }
}
