/** Timestamp: the ProtoJSON form of google.protobuf.Timestamp, read with Go's
    RFC 3339 parser and written in canonical form. */
module Timestamp {
  import opened Decimal

  /** A time.Time in UTC, by its civil fields. */
  datatype Time = Time(year: nat, month: nat, day: nat, hour: nat, minute: nat, second: nat, nanos: nat)

  predicate Leap(year: nat) {
    year % 4 == 0 && (year % 100 != 0 || year % 400 == 0)
  }

  function DaysIn(month: nat, year: nat): (d: nat)
    ensures 28 <= d <= 31
  {
    if month == 2 then (if Leap(year) then 29 else 28)
    else if month in {4, 6, 9, 11} then 30
    else 31
  }

  predicate ValidDate(year: nat, month: nat, day: nat) {
    1 <= month <= 12 && 1 <= day <= DaysIn(month, year)
  }

  predicate ValidClock(hour: nat, minute: nat, second: nat) {
    hour < 24 && minute < 60 && second < 60
  }

  const BILLION := 1_000_000_000

  predicate Valid(t: Time) {
    && 1 <= t.year <= 9999 && ValidDate(t.year, t.month, t.day)
    && ValidClock(t.hour, t.minute, t.second) && t.nanos < BILLION
  }

  // ------------------------------------------------------------------ writing

  function FormatDate(year: nat, month: nat, day: nat): string {
    Pad(year, 4) + "-" + Pad(month, 2) + "-" + Pad(day, 2)
  }

  function FormatClock(hour: nat, minute: nat, second: nat): string {
    Pad(hour, 2) + ":" + Pad(minute, 2) + ":" + Pad(second, 2)
  }

  /** No fraction, or three, six or nine digits. */
  function FormatFraction(nanos: nat): string {
    if nanos == 0 then ""
    else if nanos % 1_000_000 == 0 then "." + Pad(nanos / 1_000_000, 3)
    else if nanos % 1_000 == 0 then "." + Pad(nanos / 1_000, 6)
    else "." + Pad(nanos, 9)
  }

  /** formatTimestamp. */
  function Format(t: Time): string {
    FormatDate(t.year, t.month, t.day) + "T" + FormatClock(t.hour, t.minute, t.second)
    + FormatFraction(t.nanos) + "Z"
  }

  // ------------------------------------------------------------------ reading

  /** The given character, then the rest. */
  function Skip(s: string, c: char): Option<string> {
    if s != "" && s[0] == c then Some(s[1..]) else None
  }

  /** Exactly `k` digits, then the rest. */
  function Digits(s: string, k: nat): Option<(nat, string)> {
    if k <= |s| && AllDigits(s[..k]) then Some((Value(s[..k]), s[k..])) else None
  }

  /** Go reads the hour of this layout with one digit or two. */
  function OneOrTwoDigits(s: string): Option<(nat, string)> {
    if Digits(s, 2).Some? then Digits(s, 2) else Digits(s, 1)
  }

  function ParseDate(s: string): Option<(nat, nat, nat, string)> {
    var (year, s1) :- Digits(s, 4);
    var s2 :- Skip(s1, '-');
    var (month, s3) :- Digits(s2, 2);
    var s4 :- Skip(s3, '-');
    var (day, s5) :- Digits(s4, 2);
    if ValidDate(year, month, day) then Some((year, month, day, s5)) else None
  }

  function ParseClock(s: string): Option<(nat, nat, nat, string)> {
    var (hour, s1) :- OneOrTwoDigits(s);
    var s2 :- Skip(s1, ':');
    var (minute, s3) :- Digits(s2, 2);
    var s4 :- Skip(s3, ':');
    var (second, s5) :- Digits(s4, 2);
    if ValidClock(hour, minute, second) then Some((hour, minute, second, s5)) else None
  }

  /** A fraction is a point or comma and at least one digit; it may be absent. */
  function FractionDigits(s: string): (k: nat)
    ensures k > 0 ==> 1 + k <= |s| && AllDigits(s[1..1 + k])
  {
    if |s| >= 2 && (s[0] == '.' || s[0] == ',') then
      assert s[1..1 + DigitRun(s[1..])] == s[1..][..DigitRun(s[1..])];
      DigitRun(s[1..])
    else 0
  }

  /** Nanoseconds of a fraction: nine digits count, further ones are dropped. */
  function Nanos(digits: string): nat
    requires AllDigits(digits)
  {
    if |digits| <= 9 then Value(digits) * Pow10(9 - |digits|) else Value(digits[..9])
  }

  function ParseFraction(s: string): (nat, string) {
    var k := FractionDigits(s);
    if k == 0 then (0, s) else (Nanos(s[1..1 + k]), s[1 + k..])
  }

  /** Timestamp.parse; None is an error. */
  function Parse(s: string): Option<Time> {
    if s == "" || s[|s| - 1] != 'Z' then None
    else
      var (year, month, day, s1) :- ParseDate(s);
      var s2 :- Skip(s1, 'T');
      var (hour, minute, second, s3) :- ParseClock(s2);
      var (nanos, s4) := ParseFraction(s3);
      if s4 == "Z" && 1 <= year <= 9999
      then Some(Time(year, month, day, hour, minute, second, nanos))
      else None
  }

  // ------------------------------------------------------ parse undoes format

  lemma DigitsOfPad(n: nat, k: nat, rest: string)
    requires n < Pow10(k)
    ensures Digits(Pad(n, k) + rest, k) == Some((n, rest))
  {
    ValueOfPad(n, k);
    var s := Pad(n, k) + rest;
    assert s[..k] == Pad(n, k) && s[k..] == rest;
  }

  lemma SkipOver(c: char, rest: string)
    ensures Skip([c] + rest, c) == Some(rest)
  {
    assert ([c] + rest)[1..] == rest;
  }

  lemma Powers()
    ensures Pow10(0) == 1 && Pow10(2) == 100 && Pow10(3) == 1_000 && Pow10(4) == 10_000
    ensures Pow10(6) == 1_000_000 && Pow10(9) == BILLION
  {
    assert Pow10(1) == 10 && Pow10(2) == 100 && Pow10(3) == 1_000;
    assert Pow10(4) == 10_000 && Pow10(5) == 100_000 && Pow10(6) == 1_000_000;
    assert Pow10(7) == 10_000_000 && Pow10(8) == 100_000_000;
  }

  lemma DateReadsBack(year: nat, month: nat, day: nat, rest: string)
    requires year <= 9999 && ValidDate(year, month, day)
    ensures ParseDate(FormatDate(year, month, day) + rest) == Some((year, month, day, rest))
  {
    hide Pad, Digits, Skip;
    Powers();
    var s5 := rest;
    var s4 := Pad(day, 2) + s5;
    var s3 := "-" + s4;
    var s2 := Pad(month, 2) + s3;
    var s1 := "-" + s2;
    assert FormatDate(year, month, day) + rest == Pad(year, 4) + s1;
    DigitsOfPad(year, 4, s1);
    SkipOver('-', s2);
    DigitsOfPad(month, 2, s3);
    SkipOver('-', s4);
    DigitsOfPad(day, 2, s5);
  }

  lemma ClockReadsBack(hour: nat, minute: nat, second: nat, rest: string)
    requires ValidClock(hour, minute, second)
    ensures ParseClock(FormatClock(hour, minute, second) + rest) == Some((hour, minute, second, rest))
  {
    hide Pad, Digits, Skip;
    Powers();
    var s5 := rest;
    var s4 := Pad(second, 2) + s5;
    var s3 := ":" + s4;
    var s2 := Pad(minute, 2) + s3;
    var s1 := ":" + s2;
    assert FormatClock(hour, minute, second) + rest == Pad(hour, 2) + s1;
    DigitsOfPad(hour, 2, s1);
    SkipOver(':', s2);
    DigitsOfPad(minute, 2, s3);
    SkipOver(':', s4);
    DigitsOfPad(second, 2, s5);
  }

  lemma FractionOfPad(n: nat, k: nat)
    requires 0 < k <= 9 && n < Pow10(k)
    ensures ParseFraction("." + Pad(n, k) + "Z") == (n * Pow10(9 - k), "Z")
  {
    var s := "." + Pad(n, k) + "Z";
    ValueOfPad(n, k);
    DigitRunOfConcat(Pad(n, k), "Z");
    assert s[1..] == Pad(n, k) + "Z";
    assert s[1..1 + k] == Pad(n, k) && s[1 + k..] == "Z";
  }

  lemma FractionReadsBack(nanos: nat)
    requires nanos < BILLION
    ensures ParseFraction(FormatFraction(nanos) + "Z") == (nanos, "Z")
  {
    Powers();
    if nanos == 0 {
      NoFraction();
    } else {
      hide ParseFraction, Pad, Pow10, FormatFraction;
      PaddedFraction(nanos);
      FractionOfPad(if nanos % 1_000_000 == 0 then nanos / 1_000_000 else if nanos % 1_000 == 0 then nanos / 1_000 else nanos,
                    if nanos % 1_000_000 == 0 then 3 else if nanos % 1_000 == 0 then 6 else 9);
    }
  }

  lemma NoFraction()
    ensures ParseFraction(FormatFraction(0) + "Z") == (0, "Z")
  {
    assert FormatFraction(0) + "Z" == "Z";
  }

  /** Parsing undoes formatting, for every instant of the years 1 to 9999. */
  lemma ParseOfFormat(t: Time)
    requires Valid(t)
    ensures Parse(Format(t)) == Some(t)
  {
    hide FormatDate, FormatClock, FormatFraction, ParseDate, ParseClock, ParseFraction, Skip;
    var s := Format(t);
    var s3 := FormatFraction(t.nanos) + "Z";
    var s2 := FormatClock(t.hour, t.minute, t.second) + s3;
    var s1 := "T" + s2;
    assert s == FormatDate(t.year, t.month, t.day) + s1;
    assert s[|s| - 1] == 'Z';
    DateReadsBack(t.year, t.month, t.day, s1);
    SkipOver('T', s2);
    ClockReadsBack(t.hour, t.minute, t.second, s3);
    FractionReadsBack(t.nanos);
  }

  lemma NanosBound(digits: string)
    requires AllDigits(digits)
    ensures Nanos(digits) < BILLION
  {
    Powers();
    if |digits| <= 9 {
      ValueBound(digits);
      PowersMultiply(|digits|, 9 - |digits|);
      assert Value(digits) * Pow10(9 - |digits|) < Pow10(|digits|) * Pow10(9 - |digits|);
    } else {
      ValueBound(digits[..9]);
    }
  }

  lemma {:induction false} PowersMultiply(a: nat, b: nat)
    ensures Pow10(a) * Pow10(b) == Pow10(a + b)
  {
    if a > 0 {
      PowersMultiply(a - 1, b);
    }
  }

  /** Only valid times of the years 1 to 9999 are accepted. */
  lemma ParseIsValid(s: string)
    requires Parse(s).Some?
    ensures Valid(Parse(s).value)
  {
    hide Digits, Skip, OneOrTwoDigits, FractionDigits;
    var (_, _, _, s1) := ParseDate(s).value;
    var s2 := Skip(s1, 'T').value;
    var (_, _, _, s3) := ParseClock(s2).value;
    var k := FractionDigits(s3);
    if k > 0 {
      NanosBound(s3[1..1 + k]);
    }
  }

  // ---------------------------------------------------------------- canonical

  /** What UnmarshalJSON stores for an accepted spelling. */
  function Canonicalise(s: string): Option<string> {
    match Parse(s)
    case Some(t) => Some(Format(t))
    case None => None
  }

  /** A canonical spelling is accepted and canonicalises to itself. */
  lemma CanonicalIsFixed(s: string)
    requires Canonicalise(s).Some?
    ensures Canonicalise(Canonicalise(s).value) == Canonicalise(s)
  {
    hide Parse, Format;
    ParseIsValid(s);
    ParseOfFormat(Parse(s).value);
  }

  // ------------------------------------------------------------------ instant

  function DaysInYear(year: nat): nat {
    if Leap(year) then 366 else 365
  }

  function DaysBeforeYear(year: nat): nat {
    if year == 0 then 0 else DaysBeforeYear(year - 1) + DaysInYear(year - 1)
  }

  function DaysBeforeMonth(month: nat, year: nat): nat {
    if month <= 1 then 0 else DaysBeforeMonth(month - 1, year) + DaysIn(month - 1, year)
  }

  function DayNumber(year: nat, month: nat, day: nat): int {
    DaysBeforeYear(year) + DaysBeforeMonth(month, year) + day - 1
  }

  /** The instant itself: nanoseconds since the first day of year 0. */
  function Instant(t: Time): int {
    (((DayNumber(t.year, t.month, t.day) * 24 + t.hour) * 60 + t.minute) * 60 + t.second) * BILLION + t.nanos
  }

  lemma {:induction false} MonthsInOrder(a: nat, b: nat, year: nat)
    requires 1 <= a < b
    ensures DaysBeforeMonth(a, year) + DaysIn(a, year) <= DaysBeforeMonth(b, year)
    decreases b
  {
    if a + 1 < b {
      MonthsInOrder(a, b - 1, year);
    }
  }

  lemma MonthsFillTheYear(year: nat)
    ensures DaysBeforeMonth(13, year) == DaysInYear(year)
  {
    assert DaysBeforeMonth(2, year) == 31 && DaysBeforeMonth(3, year) == 31 + DaysIn(2, year);
    assert DaysBeforeMonth(4, year) == 62 + DaysIn(2, year) && DaysBeforeMonth(5, year) == 92 + DaysIn(2, year);
    assert DaysBeforeMonth(6, year) == 123 + DaysIn(2, year) && DaysBeforeMonth(7, year) == 153 + DaysIn(2, year);
    assert DaysBeforeMonth(8, year) == 184 + DaysIn(2, year) && DaysBeforeMonth(9, year) == 215 + DaysIn(2, year);
    assert DaysBeforeMonth(10, year) == 245 + DaysIn(2, year) && DaysBeforeMonth(11, year) == 276 + DaysIn(2, year);
    assert DaysBeforeMonth(12, year) == 306 + DaysIn(2, year);
  }

  lemma DayOfYear(year: nat, month: nat, day: nat)
    requires ValidDate(year, month, day)
    ensures 0 <= DaysBeforeMonth(month, year) + day - 1 < DaysInYear(year)
  {
    MonthsInOrder(month, 13, year);
    MonthsFillTheYear(year);
  }

  lemma {:induction false} YearsInOrder(a: nat, b: nat)
    requires a < b
    ensures DaysBeforeYear(a) + DaysInYear(a) <= DaysBeforeYear(b)
    decreases b
  {
    if a + 1 < b {
      YearsInOrder(a, b - 1);
    }
  }

  /** No two dates share a day. */
  lemma DayNumberIsInjective(y: nat, m: nat, d: nat, y': nat, m': nat, d': nat)
    requires ValidDate(y, m, d) && ValidDate(y', m', d')
    requires DayNumber(y, m, d) == DayNumber(y', m', d')
    ensures y == y' && m == m' && d == d'
  {
    DayOfYear(y, m, d);
    DayOfYear(y', m', d');
    if y < y' {
      YearsInOrder(y, y');
    } else if y' < y {
      YearsInOrder(y', y);
    }
    if m < m' {
      MonthsInOrder(m, m', y);
    } else if m' < m {
      MonthsInOrder(m', m, y);
    }
  }

  lemma InstantIsInjective(t: Time, u: Time)
    requires Valid(t) && Valid(u) && Instant(t) == Instant(u)
    ensures t == u
  {
    hide DayNumber, ValidDate;
    var p, q := DayNumber(t.year, t.month, t.day), DayNumber(u.year, u.month, u.day);
    Radix(((p * 24 + t.hour) * 60 + t.minute) * 60 + t.second, t.nanos,
          ((q * 24 + u.hour) * 60 + u.minute) * 60 + u.second, u.nanos, BILLION);
    Radix((p * 24 + t.hour) * 60 + t.minute, t.second, (q * 24 + u.hour) * 60 + u.minute, u.second, 60);
    Radix(p * 24 + t.hour, t.minute, q * 24 + u.hour, u.minute, 60);
    Radix(p, t.hour, q, u.hour, 24);
    DayNumberIsInjective(t.year, t.month, t.day, u.year, u.month, u.day);
  }

  lemma {:induction false} MonthOf(year: nat, r: nat, top: nat) returns (month: nat, day: nat)
    requires 1 <= top <= 12 && r < DaysBeforeMonth(top + 1, year)
    ensures ValidDate(year, month, day) && DaysBeforeMonth(month, year) + day - 1 == r
    decreases top
  {
    if r < DaysBeforeMonth(top, year) {
      month, day := MonthOf(year, r, top - 1);
    } else {
      month, day := top, r - DaysBeforeMonth(top, year) + 1;
    }
  }

  lemma {:induction false} DateOf(n: nat, top: nat) returns (year: nat, month: nat, day: nat)
    requires n < DaysBeforeYear(top + 1)
    ensures year <= top && ValidDate(year, month, day) && DayNumber(year, month, day) == n
    decreases top
  {
    if n < DaysBeforeYear(top) {
      year, month, day := DateOf(n, top - 1);
    } else {
      MonthsFillTheYear(top);
      year := top;
      month, day := MonthOf(top, n - DaysBeforeYear(top), 12);
    }
  }

  lemma Split(x: nat, base: nat) returns (q: nat, r: nat)
    requires base > 0
    ensures x == q * base + r && r < base
  {
    q, r := x / base, x % base;
  }

  lemma YearBounds(year: nat)
    ensures DayNumber(year, 1, 1) == DaysBeforeYear(year)
    ensures DayNumber(year, 12, 31) == DaysBeforeYear(year + 1) - 1
  {
    MonthsFillTheYear(year);
    assert DaysBeforeMonth(13, year) == DaysBeforeMonth(12, year) + 31;
  }

  lemma DateIsNotBefore(first: nat, year: nat, month: nat, day: nat)
    requires ValidDate(year, month, day) && DaysBeforeYear(first) <= DayNumber(year, month, day)
    ensures first <= year
  {
    DayOfYear(year, month, day);
    if year < first {
      YearsInOrder(year, first);
    }
  }

  /** Every nanosecond from the first of some year to the last of another is the
      instant of a valid date and clock between them: they leave no gap. */
  lemma InstantIsOnto(x: int, first: nat, last: nat)
    requires Instant(Time(first, 1, 1, 0, 0, 0, 0)) <= x <= Instant(Time(last, 12, 31, 23, 59, 59, BILLION - 1))
    ensures exists t :: Instant(t) == x && first <= t.year <= last && ValidDate(t.year, t.month, t.day)
                        && ValidClock(t.hour, t.minute, t.second) && t.nanos < BILLION
  {
    YearBounds(first);
    YearBounds(last);
    hide DayNumber, ValidDate, DaysBeforeYear;
    var seconds, nanos := Split(x, BILLION);
    var minutes, second := Split(seconds, 60);
    var hours, minute := Split(minutes, 60);
    var days, hour := Split(hours, 24);
    var year, month, day := DateOf(days, last);
    DateIsNotBefore(first, year, month, day);
    assert Instant(Time(year, month, day, hour, minute, second, nanos)) == x;
  }

  // ---------------------------------------------------------------- spellings

  /** A timestamp as it may be written: the parts of RFC 3339 section 5.6 in UTC,
      with the liberties that Go's parser takes: an hour of one digit, a comma for
      the point, any number of fractional digits. */
  datatype Spelling = Spelling(year: nat, month: nat, day: nat, hour: nat, oneDigit: bool, minute: nat, second: nat,
                               mark: char, digits: string)

  predicate Lawful(sp: Spelling) {
    && 1 <= sp.year <= 9999 && ValidDate(sp.year, sp.month, sp.day) && ValidClock(sp.hour, sp.minute, sp.second)
    && (sp.oneDigit ==> sp.hour < 10) && sp.mark in {'.', ','} && AllDigits(sp.digits)
  }

  function SpellClock(sp: Spelling): string
    requires Lawful(sp)
  {
    (if sp.oneDigit then [DigitChar(sp.hour)] else Pad(sp.hour, 2)) + ":" + Pad(sp.minute, 2) + ":" + Pad(sp.second, 2)
  }

  function SpellFraction(sp: Spelling): string {
    if sp.digits == "" then "" else [sp.mark] + sp.digits
  }

  function Spell(sp: Spelling): string
    requires Lawful(sp)
  {
    FormatDate(sp.year, sp.month, sp.day) + "T" + SpellClock(sp) + SpellFraction(sp) + "Z"
  }

  /** The time that a spelling denotes. */
  function TimeOf(sp: Spelling): Time
    requires Lawful(sp)
  {
    Time(sp.year, sp.month, sp.day, sp.hour, sp.minute, sp.second, Nanos(sp.digits))
  }

  lemma HourReads(sp: Spelling, rest: string)
    requires Lawful(sp)
    ensures var text := if sp.oneDigit then [DigitChar(sp.hour)] else Pad(sp.hour, 2);
            OneOrTwoDigits(text + ":" + rest) == Some((sp.hour, ":" + rest))
  {
    if sp.oneDigit {
      OneDigitReads(sp.hour, rest);
    } else {
      TwoDigitsRead(sp.hour, rest);
    }
  }

  lemma OneDigitReads(hour: nat, rest: string)
    requires hour < 10
    ensures OneOrTwoDigits([DigitChar(hour)] + ":" + rest) == Some((hour, ":" + rest))
  {
    var s := [DigitChar(hour)] + ":" + rest;
    assert s[..1] == [DigitChar(hour)] && s[1..] == ":" + rest;
    assert s[..2][1] == ':';
    ValueSnoc("", hour);
    assert "" + [DigitChar(hour)] == [DigitChar(hour)];
  }

  lemma TwoDigitsRead(hour: nat, rest: string)
    requires hour < 100
    ensures OneOrTwoDigits(Pad(hour, 2) + ":" + rest) == Some((hour, ":" + rest))
  {
    Powers();
    assert Pad(hour, 2) + ":" + rest == Pad(hour, 2) + (":" + rest);
    DigitsOfPad(hour, 2, ":" + rest);
  }

  lemma ClockReads(sp: Spelling, rest: string)
    requires Lawful(sp)
    ensures ParseClock(SpellClock(sp) + rest) == Some((sp.hour, sp.minute, sp.second, rest))
  {
    hide Pad, Digits, Skip, OneOrTwoDigits;
    Powers();
    var s5 := rest;
    var s4 := Pad(sp.second, 2) + s5;
    var s3 := ":" + s4;
    var s2 := Pad(sp.minute, 2) + s3;
    var text := if sp.oneDigit then [DigitChar(sp.hour)] else Pad(sp.hour, 2);
    assert SpellClock(sp) + rest == text + ":" + s2;
    HourReads(sp, s2);
    SkipOver(':', s2);
    DigitsOfPad(sp.minute, 2, s3);
    SkipOver(':', s4);
    DigitsOfPad(sp.second, 2, s5);
  }

  lemma FractionReads(sp: Spelling)
    requires Lawful(sp)
    ensures ParseFraction(SpellFraction(sp) + "Z") == (Nanos(sp.digits), "Z")
  {
    var k := |sp.digits|;
    if k == 0 {
      assert SpellFraction(sp) + "Z" == "Z";
    } else {
      var s := [sp.mark] + sp.digits + "Z";
      assert SpellFraction(sp) + "Z" == s;
      DigitRunOfConcat(sp.digits, "Z");
      assert s[1..] == sp.digits + "Z";
      assert s[1..1 + k] == sp.digits && s[1 + k..] == "Z";
    }
  }

  /** Every lawful spelling is accepted and read as the time it denotes. */
  lemma SpellingIsRead(sp: Spelling)
    requires Lawful(sp)
    ensures Parse(Spell(sp)) == Some(TimeOf(sp))
  {
    hide FormatDate, SpellClock, SpellFraction, ParseDate, ParseClock, ParseFraction, Skip, Nanos;
    var s := Spell(sp);
    var s3 := SpellFraction(sp) + "Z";
    var s2 := SpellClock(sp) + s3;
    var s1 := "T" + s2;
    assert s == FormatDate(sp.year, sp.month, sp.day) + s1;
    assert s[|s| - 1] == 'Z';
    DateReadsBack(sp.year, sp.month, sp.day, s1);
    SkipOver('T', s2);
    ClockReads(sp, s3);
    FractionReads(sp);
  }

  lemma DigitsInverse(s: string, k: nat)
    requires Digits(s, k).Some?
    ensures var (v, rest) := Digits(s, k).value; s == Pad(v, k) + rest
  {
    PadOfValue(s[..k]);
    assert s == s[..k] + s[k..];
  }

  lemma SkipInverse(s: string, c: char)
    requires Skip(s, c).Some?
    ensures s == [c] + Skip(s, c).value
  {
  }

  lemma DateInverse(s: string)
    requires ParseDate(s).Some?
    ensures var (year, month, day, rest) := ParseDate(s).value;
            ValidDate(year, month, day) && s == FormatDate(year, month, day) + rest
  {
    hide Pad, Digits, Skip;
    var (year, s1) := Digits(s, 4).value;
    var s2 := Skip(s1, '-').value;
    var (month, s3) := Digits(s2, 2).value;
    var s4 := Skip(s3, '-').value;
    var (day, s5) := Digits(s4, 2).value;
    DigitsInverse(s, 4);
    SkipInverse(s1, '-');
    DigitsInverse(s2, 2);
    SkipInverse(s3, '-');
    DigitsInverse(s4, 2);
    assert s == Pad(year, 4) + ("-" + (Pad(month, 2) + ("-" + (Pad(day, 2) + s5))));
    assert s == FormatDate(year, month, day) + s5;
  }

  lemma HourInverse(s: string)
    requires OneOrTwoDigits(s).Some?
    ensures var (hour, rest) := OneOrTwoDigits(s).value;
            s == Pad(hour, 2) + rest || (hour < 10 && s == [DigitChar(hour)] + rest)
  {
    if Digits(s, 2).Some? {
      DigitsInverse(s, 2);
    } else {
      var (hour, rest) := Digits(s, 1).value;
      DigitsInverse(s, 1);
      ValueBound(s[..1]);
      assert Pow10(1) == 10;
      assert Pad(hour, 1) == Pad(hour / 10, 0) + [DigitChar(hour % 10)];
    }
  }

  lemma ClockInverse(s: string) returns (oneDigit: bool)
    requires ParseClock(s).Some?
    ensures var (hour, minute, second, rest) := ParseClock(s).value;
            && ValidClock(hour, minute, second) && (oneDigit ==> hour < 10)
            && s == (if oneDigit then [DigitChar(hour)] else Pad(hour, 2)) + ":" + Pad(minute, 2) + ":" + Pad(second, 2) + rest
  {
    hide Pad, Digits, Skip, OneOrTwoDigits;
    var (hour, s1) := OneOrTwoDigits(s).value;
    var s2 := Skip(s1, ':').value;
    var (minute, s3) := Digits(s2, 2).value;
    var s4 := Skip(s3, ':').value;
    var (second, s5) := Digits(s4, 2).value;
    HourInverse(s);
    SkipInverse(s1, ':');
    DigitsInverse(s2, 2);
    SkipInverse(s3, ':');
    DigitsInverse(s4, 2);
    oneDigit := s != Pad(hour, 2) + s1;
    var text := if oneDigit then [DigitChar(hour)] else Pad(hour, 2);
    assert s == text + (":" + (Pad(minute, 2) + (":" + (Pad(second, 2) + s5))));
    assert s == text + ":" + Pad(minute, 2) + ":" + Pad(second, 2) + s5;
  }

  lemma FractionInverse(s: string) returns (mark: char, digits: string)
    requires ParseFraction(s).1 == "Z"
    ensures mark in {'.', ','} && AllDigits(digits) && ParseFraction(s).0 == Nanos(digits)
    ensures s == (if digits == "" then "" else [mark] + digits) + "Z"
  {
    var k := FractionDigits(s);
    if k == 0 {
      mark, digits := '.', "";
      assert Nanos("") == 0;
    } else {
      mark, digits := s[0], s[1..1 + k];
      assert s == [s[0]] + s[1..1 + k] + s[1 + k..];
    }
  }

  /** Nothing else is accepted. */
  lemma OnlySpellingsAreRead(s: string) returns (sp: Spelling)
    requires Parse(s).Some?
    ensures Lawful(sp) && Spell(sp) == s && Parse(s).value == TimeOf(sp)
  {
    hide FormatDate, ParseDate, ParseClock, ParseFraction, Skip, Nanos, Pad;
    var (year, month, day, s1) := ParseDate(s).value;
    var s2 := Skip(s1, 'T').value;
    var (hour, minute, second, s3) := ParseClock(s2).value;
    DateInverse(s);
    SkipInverse(s1, 'T');
    var oneDigit := ClockInverse(s2);
    var mark, digits := FractionInverse(s3);
    sp := Spelling(year, month, day, hour, oneDigit, minute, second, mark, digits);
    assert s2 == SpellClock(sp) + s3;
    assert s3 == SpellFraction(sp) + "Z";
    hide SpellClock, SpellFraction;
    assert s == FormatDate(year, month, day) + ("T" + (SpellClock(sp) + (SpellFraction(sp) + "Z")));
    assert s == Spell(sp);
  }

  lemma TimeOfIsValid(sp: Spelling)
    requires Lawful(sp)
    ensures Valid(TimeOf(sp))
  {
    NanosBound(sp.digits);
  }

  /** Two spellings have the same canonical form exactly when their dates, clocks
      and fractions denote the same instant. */
  lemma SameCanonicalIffSameInstant(sp: Spelling, sq: Spelling)
    requires Lawful(sp) && Lawful(sq)
    ensures Canonicalise(Spell(sp)).Some? && Canonicalise(Spell(sq)).Some?
    ensures Canonicalise(Spell(sp)) == Canonicalise(Spell(sq)) <==> Instant(TimeOf(sp)) == Instant(TimeOf(sq))
  {
    hide Parse, Format, Instant, Spell, TimeOf;
    SpellingIsRead(sp);
    SpellingIsRead(sq);
    TimeOfIsValid(sp);
    TimeOfIsValid(sq);
    ParseOfFormat(TimeOf(sp));
    ParseOfFormat(TimeOf(sq));
    if Instant(TimeOf(sp)) == Instant(TimeOf(sq)) {
      InstantIsInjective(TimeOf(sp), TimeOf(sq));
    }
  }

  /** How many of the years 0 to `year - 1` are multiples of `d`. */
  function MultiplesBefore(year: nat, d: nat): nat
    requires d > 0
  {
    (year + (d - 1)) / d
  }

  /** The calendar is the Gregorian one: a leap year every four years, except every
      hundred, except every four hundred. */
  lemma {:induction false} GregorianYears(year: nat)
    ensures DaysBeforeYear(year) ==
            365 * year + MultiplesBefore(year, 4) - MultiplesBefore(year, 100) + MultiplesBefore(year, 400)
  {
    if year > 0 {
      GregorianYears(year - 1);
      OneMoreYear(year - 1, 4);
      OneMoreYear(year - 1, 100);
      OneMoreYear(year - 1, 400);
      Centuries(year - 1);
      hide MultiplesBefore;
    }
  }

  lemma Centuries(year: nat)
    ensures year % 400 == 0 ==> year % 100 == 0
    ensures year % 100 == 0 ==> year % 4 == 0
  {
    if year % 400 == 0 {
      Quotient(year, 100, 4 * (year / 400), 0);
    }
    if year % 100 == 0 {
      Quotient(year, 4, 25 * (year / 100), 0);
    }
  }

  lemma OneMoreYear(year: nat, d: nat)
    requires d > 1
    ensures MultiplesBefore(year + 1, d) == MultiplesBefore(year, d) + if year % d == 0 then 1 else 0
  {
    var q, r := year / d, year % d;
    assert year == q * d + r;
    assert (q + 1) * d == q * d + d;
    Quotient(year + d, d, q + 1, r);
    if r == 0 {
      Quotient(year + (d - 1), d, q, d - 1);
    } else {
      Quotient(year + (d - 1), d, q + 1, r - 1);
    }
  }

  /** A fraction of at most nine digits is read exactly; a longer one is cut off
      to whole nanoseconds. */
  lemma FractionIsExactOrTruncated(digits: string)
    requires AllDigits(digits)
    ensures Nanos(digits) * Pow10(|digits|) <= Value(digits) * BILLION < (Nanos(digits) + 1) * Pow10(|digits|)
    ensures |digits| <= 9 ==> Nanos(digits) * Pow10(|digits|) == Value(digits) * BILLION
  {
    Powers();
    var v, n := Value(digits), Nanos(digits);
    if |digits| <= 9 {
      var q, p := Pow10(9 - |digits|), Pow10(|digits|);
      PowersMultiply(9 - |digits|, |digits|);
      Regroup(v, q, p);
    } else {
      var p := Pow10(|digits| - 9);
      ValueOfPrefix(digits, 9);
      PowersMultiply(9, |digits| - 9);
      Widen(n, p, v, BILLION);
    }
  }

  lemma Regroup(v: nat, q: nat, p: nat)
    ensures v * q * p == v * (q * p)
    ensures p > 0 ==> v * (q * p) < (v * q + 1) * p
  {
    assert (v * q + 1) * p == v * q * p + p;
  }

  lemma Widen(n: nat, p: nat, v: nat, b: nat)
    requires n * p <= v < (n + 1) * p && b > 0
    ensures n * (b * p) <= v * b < (n + 1) * (b * p)
  {
    assert n * (b * p) == (n * p) * b;
    assert (n + 1) * (b * p) == ((n + 1) * p) * b;
    Ordered(n * p, v, b);
    Ordered(v + 1, (n + 1) * p, b);
    assert (v + 1) * b == v * b + b;
  }

  lemma Ordered(x: nat, y: nat, b: nat)
    requires x <= y
    ensures x * b <= y * b
  {
    assert y * b == x * b + (y - x) * b;
  }

  lemma {:induction false} ValueOfPrefix(digits: string, k: nat)
    requires AllDigits(digits) && k <= |digits|
    ensures var p := Pow10(|digits| - k);
            Value(digits[..k]) * p <= Value(digits) < (Value(digits[..k]) + 1) * p
  {
    if k == |digits| {
      assert digits[..k] == digits;
    } else {
      var front := digits[..|digits| - 1];
      ValueOfPrefix(front, k);
      assert front[..k] == digits[..k];
      NextDigit(Value(digits[..k]), Pow10(|front| - k), Value(front), DigitValue(digits[|digits| - 1]));
    }
  }

  lemma NextDigit(n: nat, p: nat, v: nat, d: nat)
    requires n * p <= v < (n + 1) * p && d < 10
    ensures n * (10 * p) <= 10 * v + d < (n + 1) * (10 * p)
  {
    assert n * (10 * p) == 10 * (n * p);
    assert (n + 1) * (10 * p) == 10 * ((n + 1) * p);
  }

  // ----------------------------------------------------------------- shortest

  /** Whether `k` digits after the point can express the nanoseconds exactly. */
  predicate ExactWith(nanos: nat, k: nat)
    requires k <= 9
  {
    nanos % Pow10(9 - k) == 0
  }

  /** The printed fraction has as few digits as possible among 0, 3, 6 and 9, and
      loses nothing. */
  lemma FractionIsShortest(nanos: nat)
    requires nanos < BILLION
    ensures var k := if nanos == 0 then 0 else |FormatFraction(nanos)| - 1;
            && k in {0, 3, 6, 9} && ExactWith(nanos, k)
            && (forall j | j in {0, 3, 6, 9} && j < k :: !ExactWith(nanos, j))
            && (k > 0 ==> FormatFraction(nanos) == "." + Pad(nanos / Pow10(9 - k), k))
            && (k == 0 ==> FormatFraction(nanos) == "")
  {
    ExactDigits(nanos);
    PaddedFraction(nanos);
    hide Pad, Pow10, ExactWith, FormatFraction;
  }

  /** Which digits are enough, among 0, 3, 6 and 9. */
  lemma ExactDigits(nanos: nat)
    requires nanos < BILLION
    ensures ExactWith(nanos, 0) <==> nanos == 0
    ensures ExactWith(nanos, 3) <==> nanos % 1_000_000 == 0
    ensures ExactWith(nanos, 6) <==> nanos % 1_000 == 0
    ensures ExactWith(nanos, 9)
  {
    Powers();
    hide Pow10;
  }

  lemma PaddedFraction(nanos: nat)
    requires nanos < BILLION
    ensures nanos == 0 ==> FormatFraction(nanos) == ""
    ensures nanos != 0 ==>
              var k := if nanos % 1_000_000 == 0 then 3 else if nanos % 1_000 == 0 then 6 else 9;
              |FormatFraction(nanos)| == k + 1 && FormatFraction(nanos) == "." + Pad(nanos / Pow10(9 - k), k)
  {
    Powers();
    hide Pad, Pow10;
  }
}
