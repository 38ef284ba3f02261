/** formatDuration and formatUptimeSeconds: whole seconds as 1h2m5s. Both are the
    same text of a 64-bit time.Duration. */
module Durations {
  import opened Decimal

  const SECOND := 1_000_000_000
  const MINUTE := 60 * SECOND
  const HOUR := 60 * MINUTE
  const TWO63 := 0x8000_0000_0000_0000
  const MAX_SECONDS := 9_223_372_036

  /** The value of an int64 after arithmetic overflow. */
  function Wrap(n: int): (w: int)
    ensures -TWO63 <= w < TWO63
    ensures -TWO63 <= n < TWO63 ==> w == n
  {
    (n + TWO63) % (2 * TWO63) - TWO63
  }

  /** Go's integer division and remainder round toward zero. */
  function Quot(a: int, b: int): int
    requires b > 0
  {
    if a >= 0 then a / b else -((-a) / b)
  }

  function Rem(a: int, b: int): int
    requires b > 0
  {
    a - b * Quot(a, b)
  }

  /** `%d`. */
  function PrintInt(n: int): string {
    if n < 0 then "-" + Print(-n) else Print(n)
  }

  function Format(seconds: int): string {
    if seconds <= 0 then "0s"
    else
      var d := Wrap(seconds * SECOND);
      Compact(Quot(d, HOUR), Quot(Rem(d, HOUR), MINUTE), Quot(Rem(d, MINUTE), SECOND))
  }

  /** The switch over the parts that are not zero. */
  function Compact(h: int, m: int, s: int): string {
    if h > 0 && m > 0 && s > 0 then PrintInt(h) + "h" + PrintInt(m) + "m" + PrintInt(s) + "s"
    else if h > 0 && m > 0 then PrintInt(h) + "h" + PrintInt(m) + "m"
    else if h > 0 && s > 0 then PrintInt(h) + "h" + PrintInt(s) + "s"
    else if h > 0 then PrintInt(h) + "h"
    else if m > 0 && s > 0 then PrintInt(m) + "m" + PrintInt(s) + "s"
    else if m > 0 then PrintInt(m) + "m"
    else PrintInt(s) + "s"
  }

  /** A number with its unit, in seconds. */
  function Amount(n: nat, unit: char): Option<nat> {
    match unit
    case 'h' => Some(3600 * n)
    case 'm' => Some(60 * n)
    case 's' => Some(n)
    case _ => None
  }

  /** What a reader makes of such a text: the sum of number and unit pairs. */
  function Read(s: string): Option<nat> {
    if s == "" then Some(0)
    else
      var k := DigitRun(s);
      if k == 0 || k == |s| then None
      else
        match (Amount(Value(s[..k]), s[k]), Read(s[k + 1..]))
        case (Some(amount), Some(rest)) => Some(amount + rest)
        case _ => None
  }

  lemma ReadStep(s: string, k: nat, amount: nat, rest: nat)
    requires 0 < k < |s| && DigitRun(s) == k && Amount(Value(s[..k]), s[k]) == Some(amount)
    requires Read(s[k + 1..]) == Some(rest)
    ensures Read(s) == Some(amount + rest)
  {
    hide Value, Amount, DigitRun;
  }

  lemma Pieces(p: string, c: char, rest: string)
    ensures var s := p + [c] + rest;
            s == p + ([c] + rest) && s[..|p|] == p && s[|p|] == c && s[|p| + 1..] == rest
  {
  }

  lemma ReadPair(n: nat, unit: char, rest: string)
    requires Amount(n, unit).Some? && Read(rest).Some?
    ensures Read(Print(n) + [unit] + rest) == Some(Amount(n, unit).value + Read(rest).value)
  {
    assert !IsDigit(unit);
    hide *;
    ValueOfPrint(n);
    Pieces(Print(n), unit, rest);
    assert ([unit] + rest)[0] == unit;
    DigitRunOfConcat(Print(n), [unit] + rest);
    ReadStep(Print(n) + [unit] + rest, |Print(n)|, Amount(n, unit).value, Read(rest).value);
  }

  lemma ReadOne(n: nat, unit: char)
    requires Amount(n, unit).Some?
    ensures Read(Print(n) + [unit]) == Amount(n, unit)
  {
    ReadPair(n, unit, "");
    assert Print(n) + [unit] + "" == Print(n) + [unit];
  }

  /** One part of the text: nothing at all for zero. */
  function Part(n: nat, unit: char): string {
    if n == 0 then "" else Print(n) + [unit]
  }

  /** The text is its parts in order; only a text without parts says "0s". */
  lemma ZeroPartsAreLeftOut(h: nat, m: nat, s: nat)
    ensures Compact(h, m, s) ==
            if h == m == s == 0 then "0s" else Part(h, 'h') + Part(m, 'm') + Part(s, 's')
  {
    assert Print(0) == "0";
    hide Print;
    Regroup(Print(h), "h", Print(m), "m", Print(s), "s");
    Regroup(Print(h), "h", Print(s), "s", "", "");
    Regroup(Print(m), "m", Print(s), "s", "", "");
    NothingAround(Part(h, 'h'));
    NothingAround(Part(m, 'm'));
    NothingAround(Part(s, 's'));
    NothingAround(Part(h, 'h') + Part(m, 'm'));
  }

  lemma Regroup(a: string, b: string, c: string, d: string, e: string, f: string)
    ensures a + b + c + d == (a + b) + (c + d) && a + b + c + d + e + f == (a + b) + (c + d) + (e + f)
  {
  }

  lemma NothingAround(text: string)
    ensures "" + text == text && text + "" == text
  {
  }

  /** The compact text of natural parts reads back as their sum. */
  lemma CompactReadsBack(h: nat, m: nat, s: nat)
    ensures Read(Compact(h, m, s)) == Some(h * 3600 + m * 60 + s)
  {
    hide Read, Print;
    ReadOne(h, 'h');
    ReadOne(m, 'm');
    ReadOne(s, 's');
    var ms := Print(m) + "m" + (Print(s) + "s");
    ReadPair(m, 'm', Print(s) + "s");
    ReadPair(h, 'h', ms);
    ReadPair(h, 'h', Print(m) + "m");
    ReadPair(h, 'h', Print(s) + "s");
    assert Print(h) + "h" + Print(m) + "m" + Print(s) + "s" == Print(h) + "h" + ms;
    assert Print(m) + "m" + Print(s) + "s" == ms;
    assert Print(h) + "h" + Print(m) + "m" == Print(h) + "h" + (Print(m) + "m");
    assert Print(h) + "h" + Print(s) + "s" == Print(h) + "h" + (Print(s) + "s");
  }

  /** The parts of a non-negative duration add up to its whole seconds. */
  lemma PartsAddUp(d: nat)
    ensures var h, m, s := Quot(d, HOUR), Quot(Rem(d, HOUR), MINUTE), Quot(Rem(d, MINUTE), SECOND);
            h >= 0 && 0 <= m < 60 && 0 <= s < 60 && h * 3600 + m * 60 + s == d / SECOND
  {
    hide Quot, Rem;
    var q, r := d / SECOND, d % SECOND;
    PartOf(d, HOUR, q, r, 3600);
    PartOf(Rem(d, HOUR), MINUTE, q % 3600, r, 60);
    PartOf(d, MINUTE, q, r, 60);
    PartOf(Rem(d, MINUTE), SECOND, q % 60, r, 1);
    SumOfParts(q);
  }

  lemma SumOfParts(q: nat)
    ensures q / 3600 * 3600 + q % 3600 / 60 * 60 + q % 60 / 1 == q
  {
    var a, b := q / 3600, q % 3600;
    var c, e := b / 60, b % 60;
    assert q == 60 * (60 * a + c) + e;
    Division(q, 60, 60 * a + c, e);
  }

  /** Dividing q seconds and r nanoseconds by k seconds. */
  lemma PartOf(d: int, unit: int, q: nat, r: nat, k: nat)
    requires k > 0 && r < SECOND && d == q * SECOND + r && unit == k * SECOND
    ensures Quot(d, unit) == q / k && Rem(d, unit) == q % k * SECOND + r
  {
    hide Quot, Rem;
    var a, b := q / k, q % k;
    assert q == k * a + b;
    assert unit * a == (k * a) * SECOND;
    Division(d, unit, a, b * SECOND + r);
  }

  lemma Division(a: nat, b: nat, q: nat, r: nat)
    requires a == b * q + r && r < b
    ensures a / b == q && a % b == r && Quot(a, b) == q && Rem(a, b) == r
  {
    assert a == (a / b) * b + a % b && b * q == q * b;
    Radix(a / b, a % b, q, r, b);
  }

  /** A negative duration leaves no positive part. */
  lemma NegativeParts(d: int)
    requires d < 0
    ensures Quot(d, HOUR) <= 0 && Quot(Rem(d, HOUR), MINUTE) <= 0 && Quot(Rem(d, MINUTE), SECOND) <= 0
  {
  }

  lemma ReadOfNegative(n: int)
    requires n <= 0
    ensures Read(PrintInt(n) + "s") == if n == 0 then Some(0) else None
  {
    if n == 0 {
      ReadOne(0, 's');
    } else {
      var s := PrintInt(n) + "s";
      assert s[0] == '-';
    }
  }

  /** The printed duration reads back as the number of seconds exactly for 0 to
      9223372036; beyond that the 64-bit product overflows and the text means
      something smaller or nothing. */
  lemma ReadsBackIffInRange(seconds: int)
    ensures (seconds >= 0 && Read(Format(seconds)) == Some(seconds)) <==> 0 <= seconds <= MAX_SECONDS
  {
    if seconds <= 0 {
      ReadOfNegative(0);
      assert PrintInt(0) + "s" == "0s";
    } else {
      hide Read, Wrap, Compact, Quot, Rem;
      var d := Wrap(seconds * SECOND);
      assert Format(seconds) == Compact(Quot(d, HOUR), Quot(Rem(d, HOUR), MINUTE), Quot(Rem(d, MINUTE), SECOND));
      hide Format;
      InRange(seconds);
      ReadOfDuration(d);
    }
  }

  /** The text of a duration reads as its whole seconds, or, when it is negative,
      as nothing or zero. */
  lemma ReadOfDuration(d: int)
    ensures var text := Compact(Quot(d, HOUR), Quot(Rem(d, HOUR), MINUTE), Quot(Rem(d, MINUTE), SECOND));
            && (d >= 0 ==> Read(text) == Some(d / SECOND))
            && (d < 0 ==> Read(text) in {None, Some(0)})
  {
    hide Read, Quot, Rem;
    var h, m, s := Quot(d, HOUR), Quot(Rem(d, HOUR), MINUTE), Quot(Rem(d, MINUTE), SECOND);
    if d >= 0 {
      PartsAddUp(d);
      hide Compact;
      CompactReadsBack(h, m, s);
    } else {
      NegativeParts(d);
      ReadOfNegative(s);
    }
  }

  lemma InRange(seconds: nat)
    ensures seconds <= MAX_SECONDS <==> Wrap(seconds * SECOND) == seconds * SECOND
    ensures seconds > MAX_SECONDS ==> Wrap(seconds * SECOND) / SECOND <= MAX_SECONDS
  {
  }

  /** In the range the text shows hours, minutes below 60 and seconds below 60. */
  lemma FormatShows(h: nat, m: nat, s: nat)
    requires m < 60 && s < 60 && 3600 * h + 60 * m + s <= MAX_SECONDS
    ensures Format(3600 * h + 60 * m + s) ==
            if h == m == s == 0 then "0s" else Part(h, 'h') + Part(m, 'm') + Part(s, 's')
  {
    var seconds := 3600 * h + 60 * m + s;
    var d := seconds * SECOND;
    InRange(seconds);
    PartsAddUp(d);
    ZeroPartsAreLeftOut(h, m, s);
    hide Compact, Wrap, Part, Quot, Rem;
    Radix(60 * Quot(d, HOUR) + Quot(Rem(d, HOUR), MINUTE), Quot(Rem(d, MINUTE), SECOND), 60 * h + m, s, 60);
    Radix(Quot(d, HOUR), Quot(Rem(d, HOUR), MINUTE), h, m, 60);
  }

  /** Different seconds in the range print differently. */
  lemma FormatIsInjective(a: int, b: int)
    requires 0 <= a <= MAX_SECONDS && 0 <= b <= MAX_SECONDS && Format(a) == Format(b)
    ensures a == b
  {
    ReadsBackIffInRange(a);
    ReadsBackIffInRange(b);
  }

  /** The first number past the range overflows to a negative duration. */
  lemma OverflowExample()
    ensures Wrap((MAX_SECONDS + 1) * SECOND) < 0
    ensures Read(Format(MAX_SECONDS + 1)) != Some(MAX_SECONDS + 1)
  {
    hide Read, Format;
    ReadsBackIffInRange(MAX_SECONDS + 1);
  }
}
