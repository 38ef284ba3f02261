/** Standard base64 (RFC 4648 section 4) as encoding/json applies it to a byte
    slice: padding is required, carriage returns and line feeds are skipped. */
module Base64 {
  import opened Decimal

  type Byte = n: nat | n < 256

  function Symbol(v: nat): (c: char)
    requires v < 64
    ensures Sextet(c) == Some(v)
    ensures c != '=' && c != '\r' && c != '\n'
  {
    if v < 26 then 'A' + v as char
    else if v < 52 then 'a' + (v - 26) as char
    else if v < 62 then '0' + (v - 52) as char
    else if v == 62 then '+' else '/'
  }

  function Sextet(c: char): (v: Option<nat>)
    ensures v.Some? ==> v.value < 64
  {
    if 'A' <= c <= 'Z' then Some((c - 'A') as nat)
    else if 'a' <= c <= 'z' then Some((c - 'a') as nat + 26)
    else if '0' <= c <= '9' then Some((c - '0') as nat + 52)
    else if c == '+' then Some(62)
    else if c == '/' then Some(63)
    else None
  }

  function Encode(bytes: seq<Byte>): string {
    if bytes == [] then ""
    else
      var a := bytes[0];
      if |bytes| == 1 then [Symbol(a / 4), Symbol(a % 4 * 16), '=', '=']
      else
        var b := bytes[1];
        if |bytes| == 2 then [Symbol(a / 4), Symbol(a % 4 * 16 + b / 16), Symbol(b % 16 * 4), '=']
        else
          var c := bytes[2];
          [Symbol(a / 4), Symbol(a % 4 * 16 + b / 16), Symbol(b % 16 * 4 + c / 64), Symbol(c % 64)]
          + Encode(bytes[3..])
  }

  predicate LineBreak(c: char) {
    c == '\r' || c == '\n'
  }

  function Strip(s: string): string {
    if s == "" then "" else (if LineBreak(s[0]) then "" else [s[0]]) + Strip(s[1..])
  }

  /** Groups of four symbols; only the last group may be padded. */
  function DecodeGroups(s: string): Option<seq<Byte>> {
    if s == "" then Some([])
    else if |s| < 4 then None
    else
      match (Sextet(s[0]), Sextet(s[1]))
      case (Some(p), Some(q)) =>
        var a: Byte := p * 4 + q / 16;
        if s[2] == '=' then (if s[3] == '=' && |s| == 4 then Some([a]) else None)
        else (
          match Sextet(s[2])
          case None => None
          case Some(r) =>
            var b: Byte := q % 16 * 16 + r / 4;
            if s[3] == '=' then (if |s| == 4 then Some([a, b]) else None)
            else
              match (Sextet(s[3]), DecodeGroups(s[4..]))
              case (Some(t), Some(rest)) => var c: Byte := r % 4 * 64 + t; Some([a, b, c] + rest)
              case _ => None
        )
      case _ => None
  }

  function Decode(s: string): Option<seq<Byte>> {
    DecodeGroups(Strip(s))
  }

  lemma SextetsOfBytes(a: Byte, b: Byte, c: Byte)
    ensures a / 4 < 64 && a % 4 * 16 + b / 16 < 64 && b % 16 * 4 + c / 64 < 64 && c % 64 < 64
    ensures a / 4 * 4 + (a % 4 * 16 + b / 16) / 16 == a
    ensures (a % 4 * 16 + b / 16) % 16 * 16 + (b % 16 * 4 + c / 64) / 4 == b
    ensures (b % 16 * 4 + c / 64) % 4 * 64 + c % 64 == c
  {
  }

  /** A group without padding, symbol by symbol. */
  lemma FourSymbols(s: string, p: nat, q: nat, r: nat, t: nat, a: Byte, b: Byte, c: Byte, tail: seq<Byte>)
    requires |s| >= 4 && s[2] != '=' && s[3] != '=' && DecodeGroups(s[4..]) == Some(tail)
    requires Sextet(s[0]) == Some(p) && Sextet(s[1]) == Some(q) && Sextet(s[2]) == Some(r) && Sextet(s[3]) == Some(t)
    requires p * 4 + q / 16 == a && q % 16 * 16 + r / 4 == b && r % 4 * 64 + t == c
    ensures DecodeGroups(s) == Some([a, b, c] + tail)
  {
    hide Sextet;
    assert s != "" && !(|s| < 4);
    assert Sextet(s[0]).Some? && Sextet(s[1]).Some? && Sextet(s[2]).Some? && Sextet(s[3]).Some?;
  }

  lemma FullGroup(a: Byte, b: Byte, c: Byte, rest: string, tail: seq<Byte>)
    requires DecodeGroups(rest) == Some(tail)
    ensures DecodeGroups([Symbol(a / 4), Symbol(a % 4 * 16 + b / 16), Symbol(b % 16 * 4 + c / 64), Symbol(c % 64)] + rest)
            == Some([a, b, c] + tail)
  {
    hide Symbol, Sextet, DecodeGroups;
    SextetsOfBytes(a, b, c);
    var p, q, r, t := a / 4, a % 4 * 16 + b / 16, b % 16 * 4 + c / 64, c % 64;
    var s := [Symbol(p), Symbol(q), Symbol(r), Symbol(t)] + rest;
    assert s[4..] == rest;
    FourSymbols(s, p, q, r, t, a, b, c, tail);
  }

  lemma PaddedGroups(a: Byte, b: Byte)
    ensures DecodeGroups([Symbol(a / 4), Symbol(a % 4 * 16), '=', '=']) == Some([a])
    ensures DecodeGroups([Symbol(a / 4), Symbol(a % 4 * 16 + b / 16), Symbol(b % 16 * 4), '=']) == Some([a, b])
  {
    SextetsOfBytes(a, 0, 0);
    SextetsOfBytes(a, b, 0);
    hide Symbol, Sextet;
  }

  lemma {:induction false} GroupsOfEncode(bytes: seq<Byte>)
    ensures DecodeGroups(Encode(bytes)) == Some(bytes)
  {
    hide Symbol, Sextet, DecodeGroups;
    if |bytes| >= 3 {
      GroupsOfEncode(bytes[3..]);
      FullGroup(bytes[0], bytes[1], bytes[2], Encode(bytes[3..]), bytes[3..]);
      assert bytes == [bytes[0], bytes[1], bytes[2]] + bytes[3..];
    } else if |bytes| == 2 {
      PaddedGroups(bytes[0], bytes[1]);
      assert bytes == [bytes[0], bytes[1]];
    } else if |bytes| == 1 {
      PaddedGroups(bytes[0], 0);
      assert bytes == [bytes[0]];
    } else {
      NoGroups();
    }
  }

  lemma NoGroups()
    ensures DecodeGroups("") == Some([])
  {
  }

  predicate Unbroken(s: string) {
    forall i | 0 <= i < |s| :: !LineBreak(s[i])
  }

  lemma {:induction false} EncodeIsUnbroken(bytes: seq<Byte>)
    ensures Unbroken(Encode(bytes))
  {
    if |bytes| >= 3 {
      EncodeIsUnbroken(bytes[3..]);
    }
  }

  lemma {:induction false} StripUnbroken(s: string)
    requires Unbroken(s)
    ensures Strip(s) == s
  {
    if s != "" {
      StripUnbroken(s[1..]);
    }
  }

  /** Decoding undoes encoding, for every byte string. */
  lemma DecodeOfEncode(bytes: seq<Byte>)
    ensures Decode(Encode(bytes)) == Some(bytes)
  {
    EncodeIsUnbroken(bytes);
    StripUnbroken(Encode(bytes));
    GroupsOfEncode(bytes);
  }

  predicate InAlphabet(c: char) {
    'A' <= c <= 'Z' || 'a' <= c <= 'z' || '0' <= c <= '9' || c == '+' || c == '/'
  }

  /** Whole groups of four symbols, the last of which may end in one or two pads. */
  predicate Padded(s: string) {
    |s| % 4 == 0 && exists k | 0 <= k <= 2 && k <= |s| :: PaddedBy(s, k)
  }

  predicate PaddedBy(s: string, k: nat)
    requires k <= |s|
  {
    forall i | 0 <= i < |s| :: if i < |s| - k then InAlphabet(s[i]) else s[i] == '='
  }

  lemma PadsBehind(s: string, k: nat)
    requires 8 <= |s| && k <= 2
    ensures PaddedBy(s, k) <==>
              InAlphabet(s[0]) && InAlphabet(s[1]) && InAlphabet(s[2]) && InAlphabet(s[3]) && PaddedBy(s[4..], k)
  {
    assert forall i | 4 <= i < |s| :: s[i] == s[4..][i - 4];
  }

  lemma SextetIff(c: char)
    ensures Sextet(c).Some? <==> InAlphabet(c)
  {
  }

  /** In a text of more than one group the first group has no pads. */
  lemma FirstGroup(s: string)
    requires |s| > 4
    ensures DecodeGroups(s).Some? <==>
              InAlphabet(s[0]) && InAlphabet(s[1]) && InAlphabet(s[2]) && InAlphabet(s[3]) && DecodeGroups(s[4..]).Some?
  {
    SextetIff(s[0]);
    SextetIff(s[1]);
    SextetIff(s[2]);
    SextetIff(s[3]);
    hide Sextet;
  }

  lemma LastGroup(s: string)
    requires |s| == 4
    ensures DecodeGroups(s).Some? <==>
              && InAlphabet(s[0]) && InAlphabet(s[1])
              && (InAlphabet(s[2]) || (s[2] == '=' && s[3] == '=')) && (InAlphabet(s[3]) || s[3] == '=')
  {
    SextetIff(s[0]);
    SextetIff(s[1]);
    SextetIff(s[2]);
    SextetIff(s[3]);
    NoGroups();
    assert s[4..] == "";
    hide Sextet;
  }

  /** The decoder accepts exactly the padded texts. */
  lemma {:induction false} GroupsIff(s: string)
    ensures DecodeGroups(s).Some? <==> Padded(s)
  {
    if |s| < 4 {
      assert s == "" ==> PaddedBy(s, 0);
    } else if |s| == 4 {
      LastGroup(s);
      PaddedGroup(s);
      hide *;
    } else {
      FirstGroup(s);
      GroupsIff(s[4..]);
      hide DecodeGroups, InAlphabet, PaddedBy;
      if 8 <= |s| {
        PaddedBehind(s);
        hide Padded;
      }
    }
  }

  lemma PaddedGroup(s: string)
    requires |s| == 4
    ensures Padded(s) <==>
              && InAlphabet(s[0]) && InAlphabet(s[1])
              && (InAlphabet(s[2]) || (s[2] == '=' && s[3] == '=')) && (InAlphabet(s[3]) || s[3] == '=')
  {
    assert PaddedBy(s, 0) <==> InAlphabet(s[0]) && InAlphabet(s[1]) && InAlphabet(s[2]) && InAlphabet(s[3]);
    assert PaddedBy(s, 1) <==> InAlphabet(s[0]) && InAlphabet(s[1]) && InAlphabet(s[2]) && s[3] == '=';
    assert PaddedBy(s, 2) <==> InAlphabet(s[0]) && InAlphabet(s[1]) && s[2] == '=' && s[3] == '=';
    ThreePads(s);
    hide PaddedBy, Padded;
  }

  lemma PaddedBehind(s: string)
    requires 8 <= |s|
    ensures Padded(s) <==>
              InAlphabet(s[0]) && InAlphabet(s[1]) && InAlphabet(s[2]) && InAlphabet(s[3]) && Padded(s[4..])
  {
    hide PaddedBy, Padded, InAlphabet;
    PadsBehind(s, 0);
    PadsBehind(s, 1);
    PadsBehind(s, 2);
    ThreePads(s);
    ThreePads(s[4..]);
  }

  lemma ThreePads(s: string)
    requires 2 <= |s|
    ensures Padded(s) <==> |s| % 4 == 0 && (PaddedBy(s, 0) || PaddedBy(s, 1) || PaddedBy(s, 2))
  {
    hide PaddedBy;
  }

  lemma Regroup(a: string, b: string, c: string)
    ensures a + (b + c) == (a + b) + c
  {
  }

  lemma {:induction false} StripOfConcat(a: string, b: string)
    ensures Strip(a + b) == Strip(a) + Strip(b)
  {
    if a == "" {
      assert a + b == b;
    } else {
      StripOfConcat(a[1..], b);
      assert (a + b)[0] == a[0] && (a + b)[1..] == a[1..] + b;
      var first := if LineBreak(a[0]) then "" else [a[0]];
      assert Strip(a + b) == first + Strip(a[1..] + b) && Strip(a) == first + Strip(a[1..]);
      hide *;
      Regroup(first, Strip(a[1..]), Strip(b));
    }
  }

  /** Line breaks do not matter, wherever they are. */
  lemma LineBreaksAreSkipped(a: string, c: char, b: string)
    requires c in {'\r', '\n'}
    ensures Decode(a + [c] + b) == Decode(a + b)
  {
    StripOfConcat(a + [c], b);
    StripOfConcat(a, [c]);
    StripOfConcat(a, b);
    var one := [c];
    assert one[1..] == "";
    assert Strip(one) == "" && Strip(a + one) == Strip(a);
    assert a + [c] + b == (a + one) + b;
  }

  // ---------------------------------------------------------- encode of decode

  lemma SymbolOfSextet(c: char)
    requires Sextet(c).Some?
    ensures Symbol(Sextet(c).value) == c
  {
  }

  /** The last symbol before the pads: some of its bits belong to no byte. */
  predicate Final(s: string, i: nat) {
    i + 1 < |s| && s[i] != '=' && s[i + 1] == '='
  }

  /** The weight of the bits that count in it. */
  function Spare(s: string): nat
    requires |s| >= 2
  {
    if s[|s| - 2] == '=' then 16 else 4
  }

  /** `t` says the same as `s`, with the bits that belong to no byte cleared. */
  predicate Cleared(s: string, t: string) {
    && |t| == |s|
    && forall i | 0 <= i < |s| ::
         if Final(s, i) then
           && Sextet(s[i]).Some? && Sextet(t[i]).Some?
           && Sextet(t[i]).value == Sextet(s[i]).value / Spare(s) * Spare(s)
         else t[i] == s[i]
  }

  /** The two bytes of three sextets, and the last sextet of each text. */
  lemma TwoBytes(p: nat, q: nat, r: nat) returns (a: Byte, b: Byte, x: nat, y: nat)
    requires p < 64 && q < 64 && r < 64
    ensures a == p * 4 + q / 16 && b == q % 16 * 16 + r / 4 && x == q / 16 * 16 < 64 && y == r / 4 * 4 < 64
    ensures a / 4 == p && a % 4 * 16 + b / 16 == q && b % 16 * 4 == y && a % 4 * 16 == x
  {
    a, b, x, y := p * 4 + q / 16, q % 16 * 16 + r / 4, q / 16 * 16, r / 4 * 4;
  }

  lemma DecodeTwoPads(s: string, p: nat, q: nat, a: Byte)
    requires |s| == 4 && s[2] == '=' && s[3] == '=' && Sextet(s[0]) == Some(p) && Sextet(s[1]) == Some(q)
    requires a == p * 4 + q / 16
    ensures DecodeGroups(s) == Some([a])
  {
    hide Sextet;
  }

  lemma DecodeOnePad(s: string, p: nat, q: nat, r: nat, a: Byte, b: Byte)
    requires |s| == 4 && s[2] != '=' && s[3] == '='
    requires Sextet(s[0]) == Some(p) && Sextet(s[1]) == Some(q) && Sextet(s[2]) == Some(r)
    requires a == p * 4 + q / 16 && b == q % 16 * 16 + r / 4
    ensures DecodeGroups(s) == Some([a, b])
  {
    hide Sextet;
  }

  lemma EncodeShort(a: Byte, b: Byte, p: nat, q: nat, r: nat, x: nat)
    requires p < 64 && q < 64 && x < 64 && r < 64 && a / 4 == p
    ensures a % 4 * 16 == x ==> Encode([a]) == [Symbol(p), Symbol(x), '=', '=']
    ensures a % 4 * 16 + b / 16 == q && b % 16 * 4 == r ==> Encode([a, b]) == [Symbol(p), Symbol(q), Symbol(r), '=']
  {
    hide Symbol;
  }

  /** A text with two pads whose last symbol was cleared. */
  lemma ClearedByTwo(s: string, x: char)
    requires |s| == 4 && s[0] != '=' && s[1] != '=' && s[2] == '=' && s[3] == '='
    requires Sextet(s[1]).Some? && Sextet(x) == Some(Sextet(s[1]).value / 16 * 16)
    ensures Cleared(s, [s[0], x, '=', '='])
  {
    hide Sextet;
    assert !Final(s, 0) && Final(s, 1) && !Final(s, 2) && !Final(s, 3);
  }

  /** A text with one pad whose last symbol was cleared. */
  lemma ClearedByOne(s: string, x: char)
    requires |s| == 4 && s[0] != '=' && s[1] != '=' && s[2] != '=' && s[3] == '='
    requires Sextet(s[2]).Some? && Sextet(x) == Some(Sextet(s[2]).value / 4 * 4)
    ensures Cleared(s, [s[0], s[1], x, '='])
  {
    hide Sextet;
    assert !Final(s, 0) && !Final(s, 1) && Final(s, 2) && !Final(s, 3);
  }

  lemma TwoPads(s: string)
    requires |s| == 4 && s[2] == '=' && s[3] == '=' && Sextet(s[0]).Some? && Sextet(s[1]).Some?
    ensures DecodeGroups(s).Some? && Cleared(s, Encode(DecodeGroups(s).value))
  {
    SymbolOfSextet(s[0]);
    SymbolOfSextet(s[1]);
    assert Sextet('=') == None;
    hide *;
    var p, q := Sextet(s[0]).value, Sextet(s[1]).value;
    var a, _, x, _ := TwoBytes(p, q, 0);
    DecodeTwoPads(s, p, q, a);
    EncodeShort(a, 0, p, q, 0, x);
    ClearedByTwo(s, Symbol(x));
  }

  lemma OnePad(s: string)
    requires |s| == 4 && s[2] != '=' && s[3] == '=' && Sextet(s[0]).Some? && Sextet(s[1]).Some? && Sextet(s[2]).Some?
    ensures DecodeGroups(s).Some? && Cleared(s, Encode(DecodeGroups(s).value))
  {
    SymbolOfSextet(s[0]);
    SymbolOfSextet(s[1]);
    SymbolOfSextet(s[2]);
    assert Sextet('=') == None;
    hide *;
    var p, q, r := Sextet(s[0]).value, Sextet(s[1]).value, Sextet(s[2]).value;
    var a, b, _, y := TwoBytes(p, q, r);
    DecodeOnePad(s, p, q, r, a, b);
    EncodeShort(a, b, p, q, y, 0);
    ClearedByOne(s, Symbol(y));
  }

  lemma WholeGroup(s: string) returns (a: Byte, b: Byte, c: Byte)
    requires |s| >= 4 && s[3] != '=' && DecodeGroups(s).Some?
    ensures s[0] != '=' && s[1] != '=' && s[2] != '=' && DecodeGroups(s[4..]).Some?
    ensures DecodeGroups(s).value == [a, b, c] + DecodeGroups(s[4..]).value
    ensures [Symbol(a / 4), Symbol(a % 4 * 16 + b / 16), Symbol(b % 16 * 4 + c / 64), Symbol(c % 64)] == s[..4]
  {
    SymbolOfSextet(s[0]);
    SymbolOfSextet(s[1]);
    SymbolOfSextet(s[2]);
    SymbolOfSextet(s[3]);
    var p, q, r, t := Sextet(s[0]).value, Sextet(s[1]).value, Sextet(s[2]).value, Sextet(s[3]).value;
    a, b, c := p * 4 + q / 16, q % 16 * 16 + r / 4, r % 4 * 64 + t;
    assert DecodeGroups(s).value == [a, b, c] + DecodeGroups(s[4..]).value;
    hide *;
    assert a / 4 == p && a % 4 * 16 + b / 16 == q && b % 16 * 4 + c / 64 == r && c % 64 == t;
  }

  lemma ClearedBehind(s: string, t: string)
    requires |s| >= 4 && s[0] != '=' && s[1] != '=' && s[2] != '=' && s[3] != '='
    requires Cleared(s[4..], t) && (|s| > 4 ==> |s| >= 8 && s[4] != '=')
    ensures Cleared(s, s[..4] + t)
  {
    hide Sextet;
    var all := s[..4] + t;
    assert |s| > 4 ==> Spare(s) == Spare(s[4..]);
    forall i | 0 <= i < |s|
      ensures if Final(s, i) then
                && Sextet(s[i]).Some? && Sextet(all[i]).Some?
                && Sextet(all[i]).value == Sextet(s[i]).value / Spare(s) * Spare(s)
              else all[i] == s[i]
    {
      if i >= 4 {
        assert s[i] == s[4..][i - 4] && all[i] == t[i - 4];
        assert Final(s, i) <==> Final(s[4..], i - 4);
      } else {
        assert !Final(s, i);
      }
    }
  }

  /** Encoding what was decoded gives the text back, but for the bits of its last
      symbol that belong to no byte. */
  lemma {:induction false} EncodeOfDecode(s: string)
    requires DecodeGroups(s).Some?
    ensures Cleared(s, Encode(DecodeGroups(s).value))
  {
    if s == "" {
    } else if s[3] == '=' {
      PadEnds(s);
      LastGroup(s);
      SextetIff(s[0]);
      SextetIff(s[1]);
      SextetIff(s[2]);
      hide DecodeGroups, Sextet, Cleared, Encode;
      if s[2] == '=' {
        TwoPads(s);
      } else {
        OnePad(s);
      }
    } else {
      var a, b, c := WholeGroup(s);
      EncodeOfDecode(s[4..]);
      StartsWell(s[4..]);
      hide *;
      var rest := DecodeGroups(s[4..]).value;
      EncodeGroup(a, b, c, rest);
      ClearedBehind(s, Encode(rest));
    }
  }

  lemma PadEnds(s: string)
    requires |s| >= 4 && s[3] == '=' && DecodeGroups(s).Some?
    ensures |s| == 4
  {
  }

  lemma StartsWell(s: string)
    requires DecodeGroups(s).Some?
    ensures s != "" ==> |s| >= 4 && s[0] != '='
  {
  }

  lemma EncodeGroup(a: Byte, b: Byte, c: Byte, rest: seq<Byte>)
    ensures Encode([a, b, c] + rest) ==
            [Symbol(a / 4), Symbol(a % 4 * 16 + b / 16), Symbol(b % 16 * 4 + c / 64), Symbol(c % 64)] + Encode(rest)
  {
    hide Symbol;
    assert ([a, b, c] + rest)[3..] == rest;
  }
}
