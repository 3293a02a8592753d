/**
  * Civil dates. `CivilFromDays` is written three times in the workspace: once with
  * truncating division (crates/daemon/src/envelope.rs) and twice with Euclidean division
  * (crates/adapter-dsh-std/src/time.rs, crates/adapter-dsh/src/usage.rs). `DaysFromCivil`
  * (crates/daemon/src/scheduler.rs) is the other direction. All are compared with the
  * proleptic Gregorian calendar, stepped one day at a time from 1970-01-01.
  */
module Calendar {
  import opened Arithmetic

  datatype Civil = Civil(year: int, month: int, day: int)

  // ---------- The reference calendar ----------

  predicate IsLeap(year: int) {
    year % 4 == 0 && (year % 100 != 0 || year % 400 == 0)
  }

  function DaysInMonth(year: int, month: int): int {
    if month == 2 then (if IsLeap(year) then 29 else 28)
    else if month in {4, 6, 9, 11} then 30
    else 31
  }

  predicate RealDate(c: Civil) {
    1 <= c.month <= 12 && 1 <= c.day <= DaysInMonth(c.year, c.month)
  }

  function NextDay(c: Civil): Civil {
    if c.day < DaysInMonth(c.year, c.month) then c.(day := c.day + 1)
    else if c.month < 12 then Civil(c.year, c.month + 1, 1)
    else Civil(c.year + 1, 1, 1)
  }

  function PreviousDay(c: Civil): Civil {
    if c.day > 1 then c.(day := c.day - 1)
    else if c.month > 1 then Civil(c.year, c.month - 1, DaysInMonth(c.year, c.month - 1))
    else Civil(c.year - 1, 12, 31)
  }

  /** The date reached by stepping |days| single days from 1970-01-01. */
  function Stepped(days: int): Civil
    decreases if days < 0 then -days else days
  {
    if days == 0 then Civil(1970, 1, 1)
    else if days > 0 then NextDay(Stepped(days - 1))
    else PreviousDay(Stepped(days + 1))
  }

  // ---------- The source's arithmetic ----------

  /** Rust's integer division: towards zero. */
  function TruncDiv(a: int, b: int): int
    requires b > 0
  {
    if a >= 0 then a / b else -(-a / b)
  }

  /** Year within the 400-year era, counted from 1 March. Every subtraction is on unsigned values. */
  function YearOfEra(doe: nat): nat {
    var a: nat := doe - doe / 1460;
    var b: nat := a + doe / 36524;
    var c: nat := b - doe / 146096;
    c / 365
  }

  /** Days before 1 March of the given year of the era. */
  function YearStart(yoe: nat): nat {
    var a: nat := 365 * yoe + yoe / 4;
    a - yoe / 100
  }

  /** The part of the algorithm the three copies share, from the day of the era on. */
  function CivilInEra(era: int, doe: nat): Civil
    requires doe < 146097
  {
    YearOfEraIsExact(doe);
    var yoe := YearOfEra(doe);
    var doy: nat := doe - YearStart(yoe);
    var mp: nat := (5 * doy + 2) / 153;
    MonthSplit(doy);
    var rest: nat := doy - (153 * mp + 2) / 5;
    var day := rest + 1;
    var month: nat := if mp < 10 then mp + 3 else mp - 9;
    var year := yoe + era * 400;
    Civil(if month <= 2 then year + 1 else year, month, day)
  }

  /** envelope.rs: truncating division with a manual correction for negative values. */
  function CivilFromDays(days: int): Civil {
    var z := days + 719468;
    var era := TruncDiv(if z >= 0 then z else z - 146096, 146097);
    TruncatingEra(z);
    var doe: nat := z - era * 146097;
    CivilInEra(era, doe)
  }

  /** time.rs and usage.rs: `div_euclid` and `rem_euclid`. */
  function CivilFromDaysEuclid(days: int): Civil {
    var z := days + 719468;
    CivilInEra(z / 146097, z % 146097)
  }

  function DaysFromCivil(year: int, month: int, day: int): int {
    var y := if month <= 2 then year - 1 else year;
    var era := TruncDiv(if y >= 0 then y else y - 399, 400);
    var yoe := y - era * 400;
    var mp := (month + 9) % 12;
    var doy := (153 * mp + 2) / 5 + day - 1;
    var doe := yoe * 365 + yoe / 4 - yoe / 100 + doy;
    era * 146097 + doe - 719468
  }

  // ---------- Arithmetic of eras, years and months ----------

  lemma TruncatingEra(z: int)
    ensures TruncDiv(if z >= 0 then z else z - 146096, 146097) == z / 146097
    ensures 0 <= z - (z / 146097) * 146097 < 146097
  {
  }

  lemma TruncatingCentury(y: int)
    ensures TruncDiv(if y >= 0 then y else y - 399, 400) == y / 400
  {
  }

  /** Length of the year of the era that starts on 1 March. */
  function YearLength(yoe: nat): nat {
    if (yoe + 1) % 4 == 0 && ((yoe + 1) % 100 != 0 || (yoe + 1) % 400 == 0) then 366 else 365
  }

  /** Century `c`, four-year block `q` and year `r` of the block make a year of the era. */
  predicate Position(c: nat, q: nat, r: nat, doy: nat) {
    c <= 3 && q <= 24 && r <= 3 && doy < YearLength(100 * c + 4 * q + r)
  }

  lemma PositionStart(c: nat, q: nat, r: nat, doy: nat)
    requires Position(c, q, r, doy)
    ensures YearStart(100 * c + 4 * q + r) == 36524 * c + 1461 * q + 365 * r
    ensures doy == 365 ==> r == 3 && (q < 24 || c == 3)
  {
    hide YearLength;
    PositionLength(c, q, r);
    var yoe := 100 * c + 4 * q + r;
    Quotient(yoe, 4, 25 * c + q, r);
    Quotient(yoe, 100, c, 4 * q + r);
  }

  lemma YearOfPosition(c: nat, q: nat, r: nat, doy: nat)
    requires Position(c, q, r, doy)
    ensures 36524 * c + 1461 * q + 365 * r + doy < 146097
    ensures YearOfEra(36524 * c + 1461 * q + 365 * r + doy) == 100 * c + 4 * q + r
  {
    hide YearLength;
    hide YearStart;
    PositionLength(c, q, r);
    PositionStart(c, q, r, doy);
    var doe := 36524 * c + 1461 * q + 365 * r + doy;
    var extra := 24 * c + q + 365 * r + doy;
    var carry := if extra >= 1460 then 1 else 0;
    Quotient(doe, 1460, 25 * c + q + carry, extra - 1460 * carry);
    var last := if doe == 146096 then 1 else 0;
    Quotient(doe, 36524, c + last, doe - 36524 * (c + last));
    Quotient(doe, 146096, last, doe - 146096 * last);
    Quotient(doe - (25 * c + q + carry) + c, 365, 100 * c + 4 * q + r, doy - carry);
  }

  /** The closed form finds the one year of the era that contains the day. */
  lemma YearOfEraIsExact(doe: nat)
    requires doe < 146097
    ensures YearOfEra(doe) < 400
    ensures YearStart(YearOfEra(doe)) <= doe < YearStart(YearOfEra(doe)) + YearLength(YearOfEra(doe))
  {
    hide YearLength;
    hide YearStart;
    hide YearOfEra;
    var c := if doe == 146096 then 3 else doe / 36524;
    var inCentury := doe - 36524 * c;
    var q := inCentury / 1461;
    var inBlock := inCentury - 1461 * q;
    var r := if inBlock == 1460 then 3 else inBlock / 365;
    var doy := inBlock - 365 * r;
    PositionLength(c, q, r);
    PositionStart(c, q, r, doy);
    YearOfPosition(c, q, r, doy);
  }

  lemma PositionLength(c: nat, q: nat, r: nat)
    requires c <= 3 && q <= 24 && r <= 3
    ensures YearLength(100 * c + 4 * q + r) == if r == 3 && (q < 24 || c == 3) then 366 else 365
  {
    var next := 100 * c + 4 * q + r + 1;
    assert next % 4 == (r + 1) % 4;
    if r == 3 {
      assert next % 100 == (4 * q + 4) % 100;
    }
  }

  lemma YearOfEraIsUnique(yoe: nat, doy: nat)
    requires yoe < 400 && doy < YearLength(yoe)
    ensures YearStart(yoe) + doy < 146097
    ensures YearOfEra(YearStart(yoe) + doy) == yoe
  {
    var c, q, r := yoe / 100, (yoe % 100) / 4, yoe % 4;
    assert yoe == 100 * c + 4 * q + r;
    PositionStart(c, q, r, doy);
    YearOfPosition(c, q, r, doy);
  }

  lemma MonthSplit(doy: nat)
    requires doy < 366
    ensures var mp := (5 * doy + 2) / 153; mp < 12 && (153 * mp + 2) / 5 <= doy
  {
  }

  /** Days before the given month, in a year that starts on 1 March. */
  function MonthStart(mp: nat): nat {
    (153 * mp + 2) / 5
  }

  /** Length of the `mp`-th month of the March-based year `yoe`, as the reference calendar has it. */
  function MonthLength(yoe: nat, mp: nat): int {
    DaysInMonth(if mp < 10 then yoe else yoe + 1, if mp < 10 then mp + 3 else mp - 9)
  }

  lemma MonthOfDay(yoe: nat, mp: nat, day: nat)
    requires mp < 12 && 1 <= day <= MonthLength(yoe, mp)
    ensures MonthStart(mp) + day - 1 < YearLength(yoe)
    ensures (5 * (MonthStart(mp) + day - 1) + 2) / 153 == mp
  {
  }

  lemma DayOfMonth(yoe: nat, doy: nat)
    requires doy < YearLength(yoe)
    ensures var mp := (5 * doy + 2) / 153;
            mp < 12 && 1 <= doy - MonthStart(mp) + 1 <= MonthLength(yoe, mp)
  {
  }

  lemma FourYearRemainder(era: int, year: int)
    ensures (year + 400 * era) % 4 == year % 4
  {
    assert year + 400 * era == year % 4 + 4 * (year / 4 + 100 * era);
  }

  lemma CenturyRemainder(era: int, year: int)
    ensures (year + 400 * era) % 100 == year % 100
  {
    assert year + 400 * era == year % 100 + 100 * (year / 100 + 4 * era);
  }

  lemma CycleRemainder(era: int, year: int)
    ensures (year + 400 * era) % 400 == year % 400
    ensures (year + 400 * era) / 400 == year / 400 + era
  {
    assert year + 400 * era == year % 400 + 400 * (year / 400 + era);
  }

  /** The calendar repeats every 400 years. */
  lemma EraShift(era: int, year: int, month: int)
    ensures DaysInMonth(year + 400 * era, month) == DaysInMonth(year, month)
  {
    FourYearRemainder(era, year);
    CenturyRemainder(era, year);
    CycleRemainder(era, year);
  }

  /** A date split into era, March-based year, March-based month and day. */
  function Marched(era: int, yoe: nat, mp: nat, day: int): Civil {
    Civil((if mp < 10 then yoe else yoe + 1) + 400 * era, if mp < 10 then mp + 3 else mp - 9, day)
  }

  function MarchedDays(era: int, yoe: nat, mp: nat, day: int): int {
    era * 146097 + YearStart(yoe) + MonthStart(mp) + day - 1 - 719468
  }

  lemma MarchedIsReal(era: int, yoe: nat, mp: nat, day: int)
    requires yoe < 400 && mp < 12
    ensures RealDate(Marched(era, yoe, mp, day)) <==> 1 <= day <= MonthLength(yoe, mp)
  {
    hide DaysInMonth;
    EraShift(era, if mp < 10 then yoe else yoe + 1, if mp < 10 then mp + 3 else mp - 9);
  }

  lemma MarchedDayNumber(era: int, yoe: nat, mp: nat, day: int)
    requires yoe < 400 && mp < 12
    ensures var c := Marched(era, yoe, mp, day);
            DaysFromCivil(c.year, c.month, c.day) == MarchedDays(era, yoe, mp, day)
  {
    hide TruncDiv;
    var c := Marched(era, yoe, mp, day);
    var y := if c.month <= 2 then c.year - 1 else c.year;
    assert y == yoe + 400 * era && (c.month + 9) % 12 == mp;
    TruncatingCentury(y);
    Quotient(y, 400, era, yoe);
  }

  lemma MarchedForm(c: Civil) returns (era: int, yoe: nat, mp: nat)
    requires 1 <= c.month <= 12
    ensures yoe < 400 && mp < 12
    ensures c == Marched(era, yoe, mp, c.day)
  {
    var y := if c.month <= 2 then c.year - 1 else c.year;
    era, yoe, mp := y / 400, y % 400, (c.month + 9) % 12;
  }

  lemma MonthsAreContiguous(yoe: nat, mp: nat)
    requires yoe < 400 && mp < 12
    ensures mp < 11 ==> MonthStart(mp) + MonthLength(yoe, mp) == MonthStart(mp + 1)
    ensures MonthStart(11) + MonthLength(yoe, 11) == YearLength(yoe)
  {
  }

  lemma FirstOfMonth(yoe: nat, mp: nat)
    ensures MonthLength(yoe, mp) >= 1
  {
  }

  lemma MonthStartOfMarch()
    ensures MonthStart(0) == 0 && YearStart(0) == 0
  {
  }

  lemma YearsAreContiguous(yoe: nat)
    requires yoe < 400
    ensures YearStart(yoe) + YearLength(yoe) == if yoe < 399 then YearStart(yoe + 1) else 146097
  {
    hide YearStart;
    hide YearLength;
    var c, q, r := yoe / 100, (yoe % 100) / 4, yoe % 4;
    assert yoe == 100 * c + 4 * q + r;
    PositionLength(c, q, r);
    PositionStart(c, q, r, 0);
    if yoe < 399 {
      var c', q', r' := if q == 24 && r == 3 then c + 1 else c,
                        if r < 3 then q else if q < 24 then q + 1 else 0,
                        if r < 3 then r + 1 else 0;
      assert yoe + 1 == 100 * c' + 4 * q' + r';
      PositionLength(c', q', r');
      PositionStart(c', q', r', 0);
    }
  }

  // ---------- Main results ----------

  lemma CopiesAgree(days: int)
    ensures CivilFromDays(days) == CivilFromDaysEuclid(days)
  {
    hide CivilInEra;
    hide TruncDiv;
    TruncatingEra(days + 719468);
  }

  lemma CivilInEraIsMarched(era: int, doe: nat) returns (yoe: nat, mp: nat, day: nat)
    requires doe < 146097
    ensures yoe < 400 && mp < 12 && 1 <= day <= MonthLength(yoe, mp)
    ensures CivilInEra(era, doe) == Marched(era, yoe, mp, day)
    ensures doe == YearStart(yoe) + MonthStart(mp) + day - 1
  {
    hide YearOfEra;
    hide YearStart;
    hide YearLength;
    hide DaysInMonth;
    YearOfEraIsExact(doe);
    yoe := YearOfEra(doe);
    var doy := doe - YearStart(yoe);
    DayOfMonth(yoe, doy);
    mp := (5 * doy + 2) / 153;
    day := doy - MonthStart(mp) + 1;
  }

  /** Every day number is a real date, and `DaysFromCivil` takes it back. */
  lemma DaysAfterCivil(days: int)
    ensures RealDate(CivilFromDays(days))
    ensures var c := CivilFromDays(days); DaysFromCivil(c.year, c.month, c.day) == days
  {
    hide CivilInEra;
    hide Marched;
    hide DaysFromCivil;
    hide RealDate;
    var z := days + 719468;
    TruncatingEra(z);
    var era, doe: nat := z / 146097, z % 146097;
    var yoe, mp, day := CivilInEraIsMarched(era, doe);
    MarchedIsReal(era, yoe, mp, day);
    MarchedDayNumber(era, yoe, mp, day);
  }

  /** Every real date is the date of its day number. */
  lemma CivilAfterDays(c: Civil)
    requires RealDate(c)
    ensures CivilFromDays(DaysFromCivil(c.year, c.month, c.day)) == c
  {
    hide YearOfEra;
    hide YearStart;
    hide YearLength;
    hide TruncDiv;
    hide DaysFromCivil;
    hide DaysInMonth;
    var era, yoe, mp := MarchedForm(c);
    MarchedIsReal(era, yoe, mp, c.day);
    MarchedDayNumber(era, yoe, mp, c.day);
    MonthOfDay(yoe, mp, c.day);
    var doy := MonthStart(mp) + c.day - 1;
    YearOfEraIsUnique(yoe, doy);
    var doe := YearStart(yoe) + doy;
    var z := era * 146097 + doe;
    assert z / 146097 == era && z % 146097 == doe;
    TruncatingEra(z);
    assert CivilInEra(era, doe) == c;
  }

  lemma DayNumberOfNextDay(c: Civil)
    requires RealDate(c)
    ensures RealDate(NextDay(c))
    ensures var n := NextDay(c); DaysFromCivil(n.year, n.month, n.day) == DaysFromCivil(c.year, c.month, c.day) + 1
  {
    hide YearStart;
    hide YearLength;
    hide DaysFromCivil;
    hide DaysInMonth;
    hide MonthStart;
    var era, yoe, mp := MarchedForm(c);
    MarchedIsReal(era, yoe, mp, c.day);
    MarchedDayNumber(era, yoe, mp, c.day);
    EraShift(era, if mp < 10 then yoe else yoe + 1, c.month);
    MonthsAreContiguous(yoe, mp);
    YearsAreContiguous(yoe);
    var e, y, m, d := era, yoe, mp, c.day + 1;
    if c.day == MonthLength(yoe, mp) {
      e, y, m, d := if mp == 11 && yoe == 399 then era + 1 else era,
                    if mp < 11 then yoe else if yoe < 399 then yoe + 1 else 0,
                    if mp < 11 then mp + 1 else 0,
                    1;
      FirstOfMonth(y, m);
      MonthStartOfMarch();
    }
    assert NextDay(c) == Marched(e, y, m, d);
    MarchedIsReal(e, y, m, d);
    MarchedDayNumber(e, y, m, d);
  }

  lemma PreviousDayIsInverse(c: Civil)
    requires RealDate(c)
    ensures PreviousDay(NextDay(c)) == c
  {
  }

  /** One more day number is one calendar day later. */
  lemma OneDayLater(days: int)
    ensures CivilFromDays(days + 1) == NextDay(CivilFromDays(days))
    ensures CivilFromDays(days) == PreviousDay(CivilFromDays(days + 1))
  {
    hide CivilFromDays;
    hide DaysFromCivil;
    DaysAfterCivil(days);
    var c := CivilFromDays(days);
    DayNumberOfNextDay(c);
    CivilAfterDays(NextDay(c));
    PreviousDayIsInverse(c);
  }

  lemma EpochDate()
    ensures CivilFromDays(0) == Civil(1970, 1, 1)
  {
  }

  /** For every day number, the closed form is the calendar stepped one day at a time. */
  lemma {:induction false} CivilFromDaysIsStepped(days: int)
    ensures CivilFromDays(days) == Stepped(days)
    decreases if days < 0 then -days else days
  {
    hide CivilFromDays;
    EpochDate();
    if days > 0 {
      CivilFromDaysIsStepped(days - 1);
      OneDayLater(days - 1);
    } else if days < 0 {
      CivilFromDaysIsStepped(days + 1);
      OneDayLater(days);
    }
  }

  /** Outside real dates the day number runs on into the following month, so the round trip
      holds exactly for real dates. */
  lemma RoundTripExactlyOnRealDates(c: Civil)
    requires 1 <= c.month <= 12
    ensures CivilFromDays(DaysFromCivil(c.year, c.month, c.day)) == c <==> RealDate(c)
  {
    hide CivilFromDays;
    hide DaysFromCivil;
    if RealDate(c) {
      CivilAfterDays(c);
    }
    DaysAfterCivil(DaysFromCivil(c.year, c.month, c.day));
  }
}
