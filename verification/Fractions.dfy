/**
  * How the timestamp parser (crates/daemon/src/scheduler.rs) reads fractions of a second and zones:
  * what it makes of every text, told by another text that it reads the same.
  */
module Fractions {
  import opened Core
  import opened Rfc3339

  // ---------- What a reading depends on ----------

  lemma {:induction false} SameDigitsSameNumber(s: Text, i: nat, t: Text, j: nat, n: nat)
    requires DigitsAt(s, i, n) && j + n <= |t| && t[j..j + n] == s[i..i + n]
    ensures DigitsAt(t, j, n) && NumberAt(t, j, n) == NumberAt(s, i, n)
  {
    forall k | j <= k < j + n
      ensures t[k] == s[i + (k - j)] && IsDigit(t[k])
    {
      assert t[k] == t[j..j + n][k - j] == s[i..i + n][k - j];
    }
    if n > 0 {
      assert t[j..j + n - 1] == t[j..j + n][..n - 1] == s[i..i + n][..n - 1] == s[i..i + n - 1];
      SameDigitsSameNumber(s, i, t, j, n - 1);
    }
  }

  /** A field within the first nineteen bytes. */
  lemma SameField(s: Text, t: Text, i: nat, n: nat)
    requires |s| >= 19 && |t| >= 19 && s[..19] == t[..19] && i + n <= 19
    ensures DigitsAt(s, i, n) <==> DigitsAt(t, i, n)
    ensures DigitsAt(s, i, n) ==> NumberAt(s, i, n) == NumberAt(t, i, n)
  {
    assert forall k :: 0 <= k < 19 ==> s[k] == s[..19][k] == t[k];
    assert s[i..i + n] == s[..19][i..i + n] == t[i..i + n];
    if DigitsAt(s, i, n) {
      SameDigitsSameNumber(s, i, t, i, n);
    }
  }

  lemma SameDateTime(s: Text, t: Text)
    requires |s| >= 19 && |t| >= 19 && s[..19] == t[..19]
    ensures DateTimeShape(s) <==> DateTimeShape(t)
    ensures DateTimeShape(s) ==> DateTimeAt(s) == DateTimeAt(t) && s[10] == t[10]
  {
    assert forall k :: 0 <= k < 19 ==> s[k] == s[..19][k] == t[k];
    SameField(s, t, 0, 4);
    SameField(s, t, 5, 2);
    SameField(s, t, 8, 2);
    SameField(s, t, 11, 2);
    SameField(s, t, 14, 2);
    SameField(s, t, 17, 2);
    hide DigitsAt;
    hide NumberAt;
  }

  lemma SameZone(s: Text, i: nat, t: Text, j: nat)
    requires i <= |s| && j <= |t| && s[i..] == t[j..]
    ensures ZoneShape(s, i) ==> ZoneShape(t, j) && OffsetSeconds(s, i) == OffsetSeconds(t, j)
  {
    if ZoneShape(s, i) {
      assert s[i] == s[i..][0] == t[j];
    }
    if ZoneShape(s, i) && |s| == i + 6 {
      assert s[i + 3] == s[i..][3] == t[j + 3];
      assert s[i + 1..i + 3] == s[i..][1..3] == t[j + 1..j + 3];
      assert s[i + 4..i + 6] == s[i..][4..6] == t[j + 4..j + 6];
      SameDigitsSameNumber(s, i + 1, t, j + 1, 2);
      SameDigitsSameNumber(s, i + 4, t, j + 4, 2);
    }
  }

  predicate SameOffset(s: Text, i: nat, t: Text, j: nat) {
    (ZoneShape(s, i) <==> ZoneShape(t, j)) && (ZoneShape(s, i) ==> OffsetSeconds(s, i) == OffsetSeconds(t, j))
  }

  lemma ReadingParts(s: Text, t: Text)
    requires |s| >= 19 && |t| >= 19 && s[..19] == t[..19]
    requires Fraction(s) == Fraction(t) && SameOffset(s, ZoneStart(s), t, ZoneStart(t))
    ensures Parse(s) == Parse(t)
  {
    hide Fraction;
    hide ZoneStart;
    hide NumberAt;
    hide DigitsAt;
    SameDateTime(s, t);
    hide ZoneShape;
    hide DateTimeShape;
    hide OffsetSeconds;
  }

  /** The parser sees a text as its first nineteen bytes, its milliseconds and what follows the fraction. */
  lemma ReadingDependsOn(s: Text, t: Text)
    requires |s| >= 19 && |t| >= 19 && s[..19] == t[..19]
    requires Fraction(s) == Fraction(t) && s[ZoneStart(s)..] == t[ZoneStart(t)..]
    ensures Parse(s) == Parse(t)
  {
    SameZone(s, ZoneStart(s), t, ZoneStart(t));
    SameZone(t, ZoneStart(t), s, ZoneStart(s));
    hide Fraction;
    hide ZoneStart;
    hide ZoneShape;
    hide OffsetSeconds;
    hide Parse;
    ReadingParts(s, t);
  }

  // ---------- Fractions ----------

  /** Three digits: the first three, with zeros filled up behind. */
  function Three(digits: Text): (r: Text)
    ensures |r| == 3
  {
    (digits + [48, 48, 48])[..3]
  }

  predicate OnlyDigits(digits: Text) {
    forall i :: 0 <= i < |digits| ==> IsDigit(digits[i])
  }

  /** What stands behind a fraction does not carry it on. */
  predicate EndsDigits(zone: Text) {
    zone == [] || !IsDigit(zone[0])
  }

  lemma FractionAt(head: Text, digits: Text, zone: Text)
    requires |head| == 19 && OnlyDigits(digits) && EndsDigits(zone)
    ensures var s, e := head + [DOT] + digits + zone, 20 + |digits|;
            && HasFraction(s) && DigitsAt(s, 20, |digits|) && DigitsEnd(s, 20) == e && ZoneStart(s) == e
            && s[20..e] == digits && s[e..] == zone && s[..19] == head
  {
    var s, e := head + [DOT] + digits + zone, 20 + |digits|;
    assert s[20..e] == digits && s[e..] == zone && s[..19] == head && s[19] == DOT;
    assert forall k :: 20 <= k < e ==> s[k] == digits[k - 20];
    assert e < |s| ==> s[e] == zone[0];
    DigitsRun(s, 20, |digits|);
  }

  /** The milliseconds are the number the three digits write. */
  lemma MillisOfThree(head: Text, digits: Text, zone: Text)
    requires |head| == 19 && OnlyDigits(digits) && EndsDigits(zone)
    ensures var s, t := head + [DOT] + digits + zone, head + [DOT] + Three(digits) + zone;
            OnlyDigits(Three(digits)) && Fraction(s) == Fraction(t)
  {
    var three := Three(digits);
    var s, t := head + [DOT] + digits + zone, head + [DOT] + three + zone;
    assert forall i :: 0 <= i < 3 ==> three[i] == if i < |digits| then digits[i] else 48;
    FractionAt(head, digits, zone);
    FractionAt(head, three, zone);
    assert NumberAt(t, 20, 0) == 0;
    assert NumberAt(t, 20, 1) == t[20] - 48;
    assert NumberAt(t, 20, 2) == NumberAt(t, 20, 1) * 10 + (t[21] - 48);
    assert NumberAt(t, 20, 3) == NumberAt(t, 20, 2) * 10 + (t[22] - 48);
    var n := if |digits| < 3 then |digits| else 3;
    assert t[20..20 + n] == three[..n] == digits[..n] == s[20..20 + n];
    SameDigitsSameNumber(s, 20, t, 20, n);
  }

  /** Any digits behind the first three change nothing, and a fraction of fewer is filled up with zeros. */
  lemma FractionReadsAsThreeDigits(head: Text, digits: Text, zone: Text)
    requires |head| == 19 && OnlyDigits(digits) && EndsDigits(zone)
    ensures Parse(head + [DOT] + digits + zone) == Parse(head + [DOT] + Three(digits) + zone)
  {
    hide Parse;
    hide Fraction;
    MillisOfThree(head, digits, zone);
    FractionAt(head, digits, zone);
    FractionAt(head, Three(digits), zone);
    ReadingDependsOn(head + [DOT] + digits + zone, head + [DOT] + Three(digits) + zone);
  }

  /** A text without a fraction reads as the same text with a zero fraction. */
  lemma NoFractionReadsAsZero(head: Text, zone: Text)
    requires |head| == 19 && EndsDigits(zone) && (zone != [] ==> zone[0] != DOT)
    ensures Parse(head + zone) == Parse(head + [DOT, 48, 48, 48] + zone)
  {
    hide Parse;
    var s := head + zone;
    assert s[..19] == head && s[19..] == zone;
    assert Three([]) == [48, 48, 48];
    assert head + [DOT, 48, 48, 48] + zone == head + [DOT] + Three([]) + zone;
    FractionAt(head, Three([]), zone);
    MillisOfThree(head, [], zone);
    FractionAt(head, [], zone);
    ReadingDependsOn(s, head + [DOT] + Three([]) + zone);
  }

  // ---------- Through the printer ----------

  /** A printed timestamp with any further digits written behind its fraction still reads as its instant,
      in UTC and with every numeric offset. */
  lemma PrintedWithMoreDigits(ms: nat, digits: Text, west: bool, hours: nat, minutes: nat)
    requires OnlyDigits(digits) && hours <= 23 && minutes <= 59
    ensures ms < YEAR_10000 ==> Parse(Stamp(ms) + digits + [UPPER_Z]) == Some(ms)
    ensures var wall := ms + ZoneSeconds(west, hours, minutes) * 1000;
            FourDigitYear(wall) ==> Parse(Stamp(wall) + digits + ZoneText(west, hours, minutes)) == Some(ms)
  {
    hide Parse;
    hide Stamp;
    hide FourDigitYear;
    if ms < YEAR_10000 {
      FourDigitYearBefore(ms);
      UtcStampParses(ms);
      StampWithMoreDigits(ms, digits, [UPPER_Z]);
    }
    var wall := ms + ZoneSeconds(west, hours, minutes) * 1000;
    if FourDigitYear(wall) {
      ParseAfterLocalPrint(ms, west, hours, minutes);
      StampWithMoreDigits(wall, digits, ZoneText(west, hours, minutes));
    }
  }

  lemma StampWithMoreDigits(wall: int, digits: Text, zone: Text)
    requires FourDigitYear(wall) && OnlyDigits(digits) && zone != [] && !IsDigit(zone[0])
    ensures Parse(Stamp(wall) + digits + zone) == Parse(Stamp(wall) + zone)
  {
    hide Parse;
    StampInstant(wall, zone);
    hide FourDigitYear;
    var stamp := Stamp(wall);
    hide Stamp;
    assert |stamp| == 23;
    var s := stamp + zone;
    var head, three := stamp[..19], stamp[20..];
    assert s[19] == stamp[19] && forall k :: 20 <= k < 23 ==> s[k] == three[k - 20];
    assert DigitsAt(s, 20, 3);
    assert stamp == head + [DOT] + three;
    assert Three(three + digits) == three;
    FractionReadsAsThreeDigits(head, three + digits, zone);
    assert head + [DOT] + (three + digits) + zone == stamp + digits + zone;
    assert head + [DOT] + Three(three + digits) + zone == stamp + zone;
  }

  // ---------- Zones ----------

  lemma {:induction false} SameEnd(front: Text, a: Byte, b: Byte, i: nat)
    requires i <= |front| && !IsDigit(a) && !IsDigit(b)
    ensures DigitsEnd(front + [a], i) == DigitsEnd(front + [b], i) <= |front|
    decreases |front| - i
  {
    if i < |front| {
      assert (front + [a])[i] == front[i] == (front + [b])[i];
      SameEnd(front, a, b, i + 1);
    }
  }

  lemma SameMillis(front: Text, a: Byte, b: Byte, e: nat)
    requires 20 <= e <= |front| && DigitsAt(front, 20, e - 20)
    ensures DigitsAt(front + [a], 20, e - 20) && DigitsAt(front + [b], 20, e - 20)
    ensures Millis(front + [a], 20, e) == Millis(front + [b], 20, e)
  {
    var n := if e < 23 then e - 20 else 3;
    assert (front + [a])[20..20 + n] == front[20..20 + n] == (front + [b])[20..20 + n];
    assert forall k :: 20 <= k < e ==> (front + [a])[k] == front[k] == (front + [b])[k];
    SameDigitsSameNumber(front + [a], 20, front + [b], 20, n);
  }

  lemma LetterZone(front: Text, letter: Byte, i: nat)
    requires letter in {UPPER_Z, LOWER_Z} && i <= |front|
    ensures ZoneShape(front + [letter], i) <==> i == |front|
    ensures ZoneShape(front + [letter], i) ==> OffsetSeconds(front + [letter], i) == 0
  {
    assert (front + [letter])[|front|] == letter;
  }

  /** `z` reads as `Z`. */
  lemma SmallZoneLetter(front: Text)
    ensures Parse(front + ['z' as int]) == Parse(front + ['Z' as int])
  {
    var s, t := front + [LOWER_Z], front + [UPPER_Z];
    if |front| >= 19 {
      assert s[..19] == front[..19] == t[..19];
      assert s[19] == if |front| > 19 then front[19] else LOWER_Z;
      assert t[19] == if |front| > 19 then front[19] else UPPER_Z;
      if HasFraction(s) {
        SameEnd(front, LOWER_Z, UPPER_Z, 20);
        var e := DigitsEnd(s, 20);
        assert forall k :: 20 <= k < e ==> front[k] == s[k];
        SameMillis(front, LOWER_Z, UPPER_Z, e);
      }
      var i := ZoneStart(s);
      assert ZoneStart(t) == i <= |front| && Fraction(s) == Fraction(t);
      hide ZoneStart;
      hide Fraction;
      LetterZone(front, LOWER_Z, i);
      LetterZone(front, UPPER_Z, i);
      hide ZoneShape;
      hide OffsetSeconds;
      hide Parse;
      ReadingParts(s, t);
    }
  }

  lemma ZoneNumbers(s: Text, west: bool, hours: nat, minutes: nat)
    requires hours <= 99 && minutes <= 99
    requires |s| >= 23 && s[23..] == ZoneText(west, hours, minutes)
    ensures |s| == 29 && DigitsAt(s, 24, 2) && DigitsAt(s, 27, 2)
    ensures NumberAt(s, 24, 2) == hours && NumberAt(s, 27, 2) == minutes
  {
    PowersOfTen();
    hide Pow10;
    hide Padded;
    PaddedLength(hours, 2);
    PaddedLength(minutes, 2);
    var zone := ZoneText(west, hours, minutes);
    assert s[24..26] == zone[1..3] == Padded(hours, 2);
    assert s[27..29] == zone[4..6] == Padded(minutes, 2);
    FieldReadsBack(s, 24, hours, 2);
    FieldReadsBack(s, 27, minutes, 2);
  }

  /** An offset of 24 hours or more, or with 60 minutes or more, is refused behind every date and time. */
  lemma OffsetOutOfRange(wall: int, west: bool, hours: nat, minutes: nat)
    requires FourDigitYear(wall) && hours <= 99 && minutes <= 99 && (hours > 23 || minutes > 59)
    ensures Parse(Stamp(wall) + ZoneText(west, hours, minutes)) == None
  {
    hide Padded;
    var zone := ZoneText(west, hours, minutes);
    assert zone[0] in {PLUS, HYPHEN};
    StampInstant(wall, zone);
    var s := Stamp(wall) + zone;
    hide Stamp;
    hide FourDigitYear;
    ZoneNumbers(s, west, hours, minutes);
    hide ZoneText;
    hide NumberAt;
    assert !ZoneShape(s, 23);
    hide ZoneShape;
    hide Instant;
    hide DateTimeShape;
    hide FieldRanges;
  }

  /** A clock before 1970 prints as the epoch. */
  lemma BeforeTheEpoch(ms: int)
    requires ms < 0
    ensures Parse(NowTimestampLike(ms)) == Some(0)
  {
    ParseAfterPrint(0);
    assert NowTimestampLike(ms) == NowTimestampLike(0);
    hide Parse;
    hide NowTimestampLike;
  }
}
