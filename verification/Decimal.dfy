/** Decimal text: the `%d` and `%0Nd` verbs of Go's fmt and the inverse reads
    of strconv.Atoi, over unbounded naturals. */
module Decimal {

  datatype Option<+T> = None | Some(value: T) {
    predicate IsFailure() {
      None?
    }

    function PropagateFailure<U>(): Option<U>
      requires None?
    {
      None
    }

    function Extract(): T
      requires Some?
    {
      value
    }
  }

  predicate IsDigit(c: char) {
    '0' <= c <= '9'
  }

  function DigitChar(d: nat): (c: char)
    requires d < 10
    ensures IsDigit(c) && DigitValue(c) == d
  {
    '0' + d as char
  }

  function DigitValue(c: char): (d: nat)
    requires IsDigit(c)
    ensures d < 10
  {
    (c - '0') as nat
  }

  predicate AllDigits(s: string) {
    forall i | 0 <= i < |s| :: IsDigit(s[i])
  }

  /** The number that a run of digits denotes, most significant digit first. */
  function Value(s: string): nat
    requires AllDigits(s)
  {
    if s == "" then 0 else 10 * Value(s[..|s| - 1]) + DigitValue(s[|s| - 1])
  }

  /** `%d` of a natural number. */
  function Print(n: nat): (s: string)
    ensures s != "" && AllDigits(s)
  {
    if n < 10 then [DigitChar(n)] else Print(n / 10) + [DigitChar(n % 10)]
  }

  /** `%0Kd` of a natural number below 10^k. */
  function Pad(n: nat, k: nat): (s: string)
    ensures |s| == k && AllDigits(s)
  {
    if k == 0 then "" else Pad(n / 10, k - 1) + [DigitChar(n % 10)]
  }

  function Pow10(k: nat): (p: nat)
    ensures p > 0
  {
    if k == 0 then 1 else 10 * Pow10(k - 1)
  }

  lemma {:induction false} ValueOfPrint(n: nat)
    ensures Value(Print(n)) == n
  {
    if n < 10 {
      assert Print(n)[..0] == "";
    } else {
      ValueOfPrint(n / 10);
      assert Print(n)[..|Print(n)| - 1] == Print(n / 10);
    }
  }

  lemma ValueSnoc(s: string, d: nat)
    requires AllDigits(s) && d < 10
    ensures AllDigits(s + [DigitChar(d)]) && Value(s + [DigitChar(d)]) == 10 * Value(s) + d
  {
    var t := s + [DigitChar(d)];
    assert t[..|s|] == s;
  }

  lemma {:induction false} ValueOfPad(n: nat, k: nat)
    requires n < Pow10(k)
    ensures Value(Pad(n, k)) == n
  {
    if k > 0 {
      ValueOfPad(n / 10, k - 1);
      ValueSnoc(Pad(n / 10, k - 1), n % 10);
    }
  }

  /** A digit string is the padded text of its value. */
  lemma {:induction false} PadOfValue(s: string)
    requires AllDigits(s)
    ensures Pad(Value(s), |s|) == s
  {
    if s != "" {
      var front, last := s[..|s| - 1], s[|s| - 1];
      PadOfValue(front);
      assert Value(s) == 10 * Value(front) + DigitValue(last);
      hide *;
      PadSnoc(Value(front), DigitValue(last), |front|);
      DigitOfValue(last);
      assert s == front + [last];
    }
  }

  lemma PadSnoc(n: nat, d: nat, k: nat)
    requires d < 10
    ensures Pad(10 * n + d, k + 1) == Pad(n, k) + [DigitChar(d)]
  {
  }

  lemma DigitOfValue(c: char)
    requires IsDigit(c)
    ensures DigitChar(DigitValue(c)) == c
  {
  }

  /** A digit string denotes less than ten to its length. */
  lemma {:induction false} ValueBound(s: string)
    requires AllDigits(s)
    ensures Value(s) < Pow10(|s|)
  {
    if s != "" {
      ValueBound(s[..|s| - 1]);
    }
  }

  /** How many digits lead the text. */
  function DigitRun(s: string): (k: nat)
    ensures k <= |s| && AllDigits(s[..k])
    ensures k < |s| ==> !IsDigit(s[k])
  {
    if s == "" || !IsDigit(s[0]) then 0
    else
      var k := DigitRun(s[1..]);
      assert s[..k + 1] == [s[0]] + s[1..][..k];
      assert k + 1 < |s| ==> s[k + 1] == s[1..][k];
      k + 1
  }

  /** The digit run of digits followed by anything else is exactly those digits. */
  lemma {:induction false} DigitRunOfConcat(digits: string, rest: string)
    requires AllDigits(digits)
    requires rest == "" || !IsDigit(rest[0])
    ensures DigitRun(digits + rest) == |digits|
  {
    if digits == "" {
      assert digits + rest == rest;
    } else {
      DigitRunOfConcat(digits[1..], rest);
      assert (digits + rest)[1..] == digits[1..] + rest;
    }
  }

  const MAX_INT := 0x7FFF_FFFF_FFFF_FFFF

  /** strconv.Atoi on a 64-bit platform: an optional sign, then at least one
      digit, and a value that fits. */
  function Atoi(s: string): (r: Option<int>)
    ensures r.Some? ==> -MAX_INT - 1 <= r.value <= MAX_INT
  {
    var signed := s != "" && (s[0] == '-' || s[0] == '+');
    var digits := if signed then s[1..] else s;
    if digits == "" || !AllDigits(digits) then None
    else
      var magnitude: int := Value(digits);
      var n := if signed && s[0] == '-' then -magnitude else magnitude;
      if -MAX_INT - 1 <= n <= MAX_INT then Some(n) else None
  }

  lemma AtoiOfPrint(n: nat)
    requires n <= MAX_INT
    ensures Atoi(Print(n)) == Some(n)
  {
    ValueOfPrint(n);
    var s := Print(n);
    assert IsDigit(s[0]);
  }

  /** An optional sign and at least one digit. */
  predicate IntegerText(s: string) {
    var digits := if s != "" && s[0] in {'-', '+'} then s[1..] else s;
    digits != "" && AllDigits(digits)
  }

  /** The number that such a text denotes. */
  function IntegerValue(s: string): int
    requires IntegerText(s)
  {
    if s[0] == '-' then 0 - Value(s[1..]) else if s[0] == '+' then Value(s[1..]) else Value(s)
  }

  /** Atoi accepts exactly the integer texts whose number fits, and yields it. */
  lemma AtoiIff(s: string)
    ensures Atoi(s).Some? <==> IntegerText(s) && -MAX_INT - 1 <= IntegerValue(s) <= MAX_INT
    ensures Atoi(s).Some? ==> Atoi(s).value == IntegerValue(s)
  {
  }

  /** Digits in any base are determined by the number. */
  lemma Radix(a: int, x: nat, b: int, y: nat, base: nat)
    requires x < base && y < base && a * base + x == b * base + y
    ensures a == b && x == y
  {
    if a < b {
      Multiple(b - a, base);
    } else if b < a {
      Multiple(a - b, base);
    }
  }

  /** The quotient is the one with a small remainder. */
  lemma Quotient(a: nat, b: nat, q: nat, r: nat)
    requires a == q * b + r && r < b
    ensures a / b == q && a % b == r
  {
    assert a == (a / b) * b + a % b;
    Radix(a / b, a % b, q, r, b);
  }

  lemma Multiple(k: int, base: nat)
    requires 1 <= k
    ensures k * base >= base
  {
    assert k * base == base + (k - 1) * base;
  }
}
