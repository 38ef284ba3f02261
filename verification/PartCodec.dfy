/** The ProtoJSON codec of an A2A Part: MarshalJSON and UnmarshalJSON. */
module PartCodec {
  import opened Decimal
  import opened Base64
  import opened Json

  datatype Kind = Unspecified | Text | Raw | Url | Data

  /** The Go struct. `raw` is None for a nil slice, `data` VNull for a nil any,
      `metadata` None for a nil map. */
  datatype Part = Part(kind: Kind, text: string, raw: Option<seq<Byte>>, url: string, data: Value,
                       metadata: Option<map<string, Value>>, filename: string, mediaType: string)

  const EMPTY := Part(Unspecified, "", None, "", VNull, None, "", "")

  function TextPart(text: string): (p: Part)
    ensures WellFormed(p) && ContentOf(p) == TextOf(text)
    ensures p.metadata == None && p.filename == "" && p.mediaType == ""
  {
    EMPTY.(kind := Text, text := text)
  }

  function RawPart(raw: seq<Byte>): (p: Part)
    ensures WellFormed(p) && ContentOf(p) == RawOf(raw)
    ensures p.metadata == None && p.filename == "" && p.mediaType == ""
  {
    EMPTY.(kind := Raw, raw := Some(raw))
  }

  function UrlPart(url: string): (p: Part)
    ensures WellFormed(p) && ContentOf(p) == UrlOf(url)
    ensures p.metadata == None && p.filename == "" && p.mediaType == ""
  {
    EMPTY.(kind := Url, url := url)
  }

  function DataPart(data: Value): (p: Part)
    ensures WellFormed(p) && ContentOf(p) == DataOf(data)
    ensures p.metadata == None && p.filename == "" && p.mediaType == ""
  {
    EMPTY.(kind := Data, data := data)
  }

  /** At most the arm named by the kind is populated. */
  predicate OneArm(p: Part) {
    && (p.kind != Text ==> p.text == "")
    && (p.kind != Raw ==> p.raw == None)
    && (p.kind != Url ==> p.url == "")
    && (p.kind != Data ==> p.data == VNull)
  }

  predicate WellFormed(p: Part) {
    OneArm(p) && (p.kind == Raw ==> p.raw.Some?)
  }

  /** clearContent. */
  function ClearContent(p: Part, kind: Kind): Part {
    p.(kind := kind,
       text := if kind != Text then "" else p.text,
       raw := if kind != Raw then None else p.raw,
       url := if kind != Url then "" else p.url,
       data := if kind != Data then VNull else p.data)
  }

  /** The Part being decoded, and the bytes of the array behind its raw slice:
      encoding/json decodes a JSON array into that array again. */
  datatype Decoding = Decoding(part: Part, backing: seq<Byte>)

  const START := Decoding(EMPTY, [])

  function ByteOf(j: Json): Option<Byte> {
    if j.JNum? && j.plain && 0 <= j.number.Floor < 256 && j.number.Floor as real == j.number
    then Some(j.number.Floor) else None
  }

  /** Decoding a JSON array of numbers into a byte slice. A null element keeps
      the byte that is already in memory at its place. */
  function DecodeBytes(items: seq<Json>, backing: seq<Byte>): (r: Option<seq<Byte>>)
    ensures r.Some? ==> |r.value| == |items|
  {
    if items == [] then Some([])
    else
      var front := DecodeBytes(items[..|items| - 1], backing);
      var i, last := |items| - 1, items[|items| - 1];
      var kept := if i < |backing| then backing[i] else 0;
      var byte := if last.JNull? then Some(kept) else ByteOf(last);
      if front.None? || byte.None? then None else Some(front.value + [byte.value])
  }

  /** json.Unmarshal of a non-null field into `raw`: a base64 string, or an array
      of numbers. The result is the slice and the array behind it. */
  function DecodeRaw(j: Json, backing: seq<Byte>): Option<(seq<Byte>, seq<Byte>)> {
    match j
    case JStr(s) => (match Decode(s) case Some(b) => Some((b, b)) case None => None)
    case JArr(items) =>
      (match DecodeBytes(items, backing)
       case None => None
       case Some(b) =>
         Some((b, if b == [] then [] else if |b| < |backing| then b + backing[|b|..] else b)))
    case _ => None
  }

  /** The loop body of UnmarshalJSON for one field; None is an error. */
  function DecodeField(d: Decoding, f: Field): Option<Decoding> {
    var p := d.part;
    match f.name
    case "text" =>
      if f.value.JNull? then Some(d)
      else if f.value.JStr? then Some(Decoding(ClearContent(p.(text := f.value.s), Text), []))
      else None
    case "raw" =>
      if f.value.JNull? then Some(d)
      else
        (match DecodeRaw(f.value, d.backing)
         case None => None
         case Some((slice, backing)) => Some(Decoding(ClearContent(p.(raw := Some(slice)), Raw), backing)))
    case "url" =>
      if f.value.JNull? then Some(d)
      else if f.value.JStr? then Some(Decoding(ClearContent(p.(url := f.value.s), Url), []))
      else None
    case "data" => Some(Decoding(ClearContent(p.(data := ToValue(f.value)), Data), []))
    case "metadata" =>
      (match f.value
       case JNull => Some(d.(part := p.(metadata := None)))
       case JObj(fields) =>
         var known := if p.metadata.Some? then p.metadata.value else map[];
         Some(d.(part := p.(metadata := Some(known + ToMembers(fields)))))
       case _ => None)
    case "filename" =>
      (match f.value
       case JNull => Some(d)
       case JStr(s) => Some(d.(part := p.(filename := s)))
       case _ => None)
    case "mediaType" => DecodeMediaType(d, f.value)
    case "media_type" => DecodeMediaType(d, f.value)
    case _ => None
  }

  function DecodeMediaType(d: Decoding, j: Json): Option<Decoding> {
    match j
    case JNull => Some(d)
    case JStr(s) => Some(d.(part := d.part.(mediaType := s)))
    case _ => None
  }

  function DecodeFields(fields: seq<Field>): Option<Decoding> {
    if fields == [] then Some(START)
    else
      match DecodeFields(fields[..|fields| - 1])
      case None => None
      case Some(d) => DecodeField(d, fields[|fields| - 1])
  }

  /** The text handed to UnmarshalJSON: not JSON at all, or a JSON document. */
  datatype Input = Malformed | Document(json: Json)

  class Target {
    var part: Part

    constructor (part: Part)
      ensures this.part == part
    {
      this.part := part;
    }

    /** Part.UnmarshalJSON. It accepts exactly the objects whose fields all have a
        known name and an admissible value, and decodes them in source order; a
        failure leaves the receiver unchanged. */
    method UnmarshalJSON(input: Input) returns (ok: bool)
      modifies this
      ensures ok <==> input.Document? && input.json.JObj?
                      && forall i | 0 <= i < |input.json.fields| :: Admits(input.json.fields[i])
      ensures ok <==> input.Document? && input.json.JObj? && DecodeFields(input.json.fields).Some?
      ensures ok ==> part == DecodeFields(input.json.fields).value.part && WellFormed(part)
      ensures !ok ==> part == old(part)
    {
      if !input.Document? || !input.json.JObj? {
        return false;
      }
      var fields := input.json.fields;
      AcceptedIff(fields);
      DecodeNothing();
      hide Admits, DecodeField, DecodeFields, WellFormed;
      assert fields[..0] == [];
      var decoded := START;
      var n := 0;
      while n < |fields|
        invariant 0 <= n <= |fields|
        invariant DecodeFields(fields[..n]) == Some(decoded)
        invariant WellFormed(decoded.part)
        invariant part == old(part)
      {
        DecodeNext(fields, n);
        var step := DecodeField(decoded, fields[n]);
        if step.None? {
          FailureIsFinal(fields, n + 1);
          return false;
        }
        DecodeFieldKeepsForm(decoded, fields[n]);
        decoded := step.value;
        n := n + 1;
      }
      assert fields[..n] == fields;
      part := decoded.part;
      ok := true;
    }
  }

  lemma DecodeNothing()
    ensures DecodeFields([]) == Some(START) && WellFormed(START.part)
  {
  }

  lemma DecodeNext(fields: seq<Field>, n: nat)
    requires n < |fields| && DecodeFields(fields[..n]).Some?
    ensures DecodeFields(fields[..n + 1]) == DecodeField(DecodeFields(fields[..n]).value, fields[n])
  {
    hide DecodeField;
    assert fields[..n + 1][..n] == fields[..n];
  }

  lemma {:induction false} FailureIsFinal(fields: seq<Field>, n: nat)
    requires n <= |fields| && DecodeFields(fields[..n]) == None
    ensures DecodeFields(fields) == None
    decreases |fields| - n
  {
    if n == |fields| {
      assert fields[..n] == fields;
    } else {
      assert fields[..n + 1][..n] == fields[..n];
      FailureIsFinal(fields, n + 1);
    }
  }

  lemma DecodeFieldKeepsForm(d: Decoding, f: Field)
    requires WellFormed(d.part) && DecodeField(d, f).Some?
    ensures WellFormed(DecodeField(d, f).value.part)
  {
  }

  // --------------------------------------------------------------- acceptance

  predicate Textual(j: Json) {
    j.JNull? || j.JStr?
  }

  /** An item of a byte array: null, or a plain whole number below 256. */
  predicate ByteItem(j: Json) {
    j.JNull? || (j.JNum? && j.plain && 0.0 <= j.number < 256.0 && j.number == j.number.Floor as real)
  }

  /** The fields that a Part may have, and the shape of their values. */
  predicate Admits(f: Field) {
    || (f.name in {"text", "url", "filename", "mediaType", "media_type"} && Textual(f.value))
    || f.name == "data"
    || (f.name == "metadata" && (f.value.JNull? || f.value.JObj?))
    || (f.name == "raw" &&
        match f.value
        case JNull => true
        case JStr(s) => Padded(Strip(s))
        case JArr(items) => forall i | 0 <= i < |items| :: ByteItem(items[i])
        case _ => false)
  }

  lemma {:induction false} BytesIff(items: seq<Json>, backing: seq<Byte>)
    ensures DecodeBytes(items, backing).Some? <==> forall i | 0 <= i < |items| :: ByteItem(items[i])
    ensures DecodeBytes(items, backing).Some? ==>
              forall i | 0 <= i < |items| && items[i].JNum? :: DecodeBytes(items, backing).value[i] as real == items[i].number
  {
    if items != [] {
      var front, last := items[..|items| - 1], items[|items| - 1];
      BytesIff(front, backing);
      assert ByteItem(last) <==> last.JNull? || ByteOf(last).Some?;
      assert forall i | 0 <= i < |front| :: front[i] == items[i];
    }
  }

  lemma RawIff(j: Json, backing: seq<Byte>)
    requires !j.JNull?
    ensures DecodeRaw(j, backing).Some? <==> Admits(Field("raw", j))
  {
    hide DecodeGroups, Padded, Strip, DecodeBytes;
    if j.JStr? {
      GroupsIff(Strip(j.s));
    } else if j.JArr? {
      BytesIff(j.items, backing);
    }
  }

  lemma FieldIff(d: Decoding, f: Field)
    ensures DecodeField(d, f).Some? <==> Admits(f)
  {
    if f.name == "raw" && !f.value.JNull? {
      RawIff(f.value, d.backing);
      assert f == Field("raw", f.value);
    }
    hide DecodeRaw, Padded, Strip;
  }

  /** An object is accepted exactly when every field has a known name and a value of
      the shape that the name admits; unknown fields fail closed. */
  lemma {:induction false} AcceptedIff(fields: seq<Field>)
    ensures DecodeFields(fields).Some? <==> forall i | 0 <= i < |fields| :: Admits(fields[i])
  {
    hide DecodeField, Admits;
    if fields != [] {
      var front, last := fields[..|fields| - 1], fields[|fields| - 1];
      AcceptedIff(front);
      assert forall i | 0 <= i < |front| :: front[i] == fields[i];
      if DecodeFields(front).Some? {
        FieldIff(DecodeFields(front).value, last);
      }
    }
  }

  // --------------------------------------------------------------- attributes

  /** The last field with one of these names that is not null, or -1. */
  function LastOf(fields: seq<Field>, names: set<string>): (i: int)
    ensures -1 <= i < |fields|
    ensures i >= 0 ==> fields[i].name in names && !fields[i].value.JNull?
    ensures forall k | i < k < |fields| :: !(fields[k].name in names && !fields[k].value.JNull?)
  {
    if fields == [] then -1
    else if fields[|fields| - 1].name in names && !fields[|fields| - 1].value.JNull? then |fields| - 1
    else LastOf(fields[..|fields| - 1], names)
  }

  function TextAt(fields: seq<Field>, i: int): string
    requires i < |fields|
  {
    if i >= 0 && fields[i].value.JStr? then fields[i].value.s else ""
  }

  const MEDIA_TYPE := {"mediaType", "media_type"}
  const FILENAME := {"filename"}

  lemma AttributeStep(d: Decoding, f: Field)
    requires DecodeField(d, f).Some?
    ensures var p := DecodeField(d, f).value.part;
            && p.mediaType == (if f.name in MEDIA_TYPE && !f.value.JNull? then f.value.s else d.part.mediaType)
            && p.filename == (if f.name in FILENAME && !f.value.JNull? then f.value.s else d.part.filename)
            && (f.name in MEDIA_TYPE + FILENAME ==> Textual(f.value))
            && p.metadata == (if f.name != "metadata" then d.part.metadata
                              else if f.value.JObj? then Some((if d.part.metadata.Some? then d.part.metadata.value else map[])
                                                              + ToMembers(f.value.fields))
                              else None)
  {
    hide DecodeRaw, ToMembers;
  }

  /** The decoded media type is the text of the last field that gives one, in either
      spelling, and so is the file name. */
  lemma {:induction false} LastTextWins(fields: seq<Field>)
    requires DecodeFields(fields).Some?
    ensures DecodeFields(fields).value.part.mediaType == TextAt(fields, LastOf(fields, MEDIA_TYPE))
    ensures DecodeFields(fields).value.part.filename == TextAt(fields, LastOf(fields, FILENAME))
  {
    if fields != [] {
      var front, last := fields[..|fields| - 1], fields[|fields| - 1];
      LastTextWins(front);
      hide DecodeField;
      AttributeStep(DecodeFields(front).value, last);
    }
  }

  /** A metadata object that no later null has discarded. */
  predicate Merged(fields: seq<Field>, i: int) {
    && 0 <= i < |fields| && fields[i].name == "metadata" && fields[i].value.JObj?
    && forall k | i < k < |fields| :: !(fields[k].name == "metadata" && fields[k].value.JNull?)
  }

  predicate Gives(fields: seq<Field>, i: int, key: string) {
    Merged(fields, i) && key in Names(fields[i].value.fields)
  }

  /** The metadata is the merge of the objects since the last null: its keys are
      theirs, and each value comes from the last of them that has the key. */
  ghost predicate MergeOf(m: Option<map<string, Value>>, fields: seq<Field>) {
    && (m.Some? <==> exists i :: Merged(fields, i))
    && (m.Some? ==>
          && (forall key | key in m.value :: exists i :: Gives(fields, i, key))
          && (forall i, key | Gives(fields, i, key) && (forall k | i < k < |fields| :: !Gives(fields, k, key)) ::
                key in m.value && key in ToMembers(fields[i].value.fields)
                && m.value[key] == ToMembers(fields[i].value.fields)[key]))
  }

  lemma MergedStep(front: seq<Field>, last: Field, i: int)
    ensures Merged(front + [last], i) <==>
              || (Merged(front, i) && !(last.name == "metadata" && last.value.JNull?))
              || (i == |front| && last.name == "metadata" && last.value.JObj?)
  {
    var fields := front + [last];
    assert fields[|front|] == last;
    assert forall k | 0 <= k < |front| :: fields[k] == front[k];
  }

  lemma GivesStep(front: seq<Field>, last: Field, i: int, key: string)
    ensures Gives(front + [last], i, key) <==>
              || (Gives(front, i, key) && !(last.name == "metadata" && last.value.JNull?))
              || (i == |front| && last.name == "metadata" && last.value.JObj? && key in Names(last.value.fields))
    ensures 0 <= i < |front| ==> (front + [last])[i] == front[i]
    ensures (front + [last])[|front|] == last
  {
    MergedStep(front, last, i);
    hide Names;
  }

  lemma MergeKept(m: Option<map<string, Value>>, front: seq<Field>, last: Field)
    requires MergeOf(m, front) && last.name != "metadata"
    ensures MergeOf(m, front + [last])
  {
    var fields := front + [last];
    forall i ensures Merged(fields, i) <==> Merged(front, i) {
      MergedStep(front, last, i);
    }
    hide Merged, Names, Gives;
    if m.Some? {
      var i :| Merged(front, i);
      assert Merged(fields, i);
      forall key | key in m.value ensures exists i :: Gives(fields, i, key) {
        var i :| Gives(front, i, key);
        GivesStep(front, last, i, key);
        assert Gives(fields, i, key);
      }
      forall i, key | Gives(fields, i, key) && (forall k | i < k < |fields| :: !Gives(fields, k, key))
        ensures key in m.value && key in ToMembers(fields[i].value.fields)
                && m.value[key] == ToMembers(fields[i].value.fields)[key]
      {
        NewestKept(m, front, last, i, key);
      }
    }
  }

  lemma NewestKept(m: Option<map<string, Value>>, front: seq<Field>, last: Field, i: int, key: string)
    requires MergeOf(m, front) && last.name != "metadata"
    requires var fields := front + [last];
             Gives(fields, i, key) && forall k | i < k < |fields| :: !Gives(fields, k, key)
    ensures var fields := front + [last];
            && m.Some? && 0 <= i < |fields| && fields[i].value.JObj?
            && key in m.value && key in ToMembers(fields[i].value.fields)
            && m.value[key] == ToMembers(fields[i].value.fields)[key]
  {
    var fields := front + [last];
    GivesStep(front, last, i, key);
    hide Names, ToMembers;
    GivesIndex(front, i, key);
    forall k | i < k < |front| ensures !Gives(front, k, key) {
      GivesStep(front, last, k, key);
    }
    assert Merged(front, i);
  }

  lemma GivesIndex(fields: seq<Field>, i: int, key: string)
    requires Gives(fields, i, key)
    ensures 0 <= i < |fields| && fields[i].name == "metadata" && fields[i].value.JObj?
  {
  }

  lemma MergeCleared(front: seq<Field>, last: Field)
    requires last.name == "metadata" && last.value.JNull?
    ensures MergeOf(None, front + [last])
  {
    var fields := front + [last];
    assert fields[|front|] == last;
  }

  lemma MergeExtended(m: Option<map<string, Value>>, front: seq<Field>, last: Field)
    requires MergeOf(m, front) && last.name == "metadata" && last.value.JObj?
    ensures MergeOf(Some((if m.Some? then m.value else map[]) + ToMembers(last.value.fields)), front + [last])
  {
    var fields, known, members := front + [last], if m.Some? then m.value else map[], ToMembers(last.value.fields);
    var all := known + members;
    LastMemberWins(last.value.fields);
    MergedStep(front, last, |front|);
    assert Merged(fields, |front|);
    forall key | key in all ensures exists i :: Gives(fields, i, key) {
      if key in members {
        GivesStep(front, last, |front|, key);
        assert Gives(fields, |front|, key);
      } else {
        var i :| Gives(front, i, key);
        GivesStep(front, last, i, key);
        assert Gives(fields, i, key);
      }
    }
    forall i, key | Gives(fields, i, key) && (forall k | i < k < |fields| :: !Gives(fields, k, key))
      ensures key in all && key in ToMembers(fields[i].value.fields) && all[key] == ToMembers(fields[i].value.fields)[key]
    {
      NewestGives(m, front, last, i, key);
    }
  }

  lemma NewestGives(m: Option<map<string, Value>>, front: seq<Field>, last: Field, i: int, key: string)
    requires MergeOf(m, front) && last.name == "metadata" && last.value.JObj?
    requires var fields := front + [last];
             Gives(fields, i, key) && forall k | i < k < |fields| :: !Gives(fields, k, key)
    ensures var fields, all := front + [last], (if m.Some? then m.value else map[]) + ToMembers(last.value.fields);
            && 0 <= i < |fields| && fields[i].value.JObj?
            && key in all && key in ToMembers(fields[i].value.fields) && all[key] == ToMembers(fields[i].value.fields)[key]
  {
    var fields := front + [last];
    LastMemberWins(last.value.fields);
    GivesStep(front, last, i, key);
    GivesStep(front, last, |front|, key);
    hide Names, ToMembers;
    GivesIndex(fields, i, key);
    if i < |front| {
      forall k | i < k < |front| ensures !Gives(front, k, key) {
        GivesStep(front, last, k, key);
      }
      assert Gives(front, i, key);
      assert Merged(front, i);
    }
  }

  /** Whatever the fields, the decoded metadata is that merge. */
  lemma {:induction false} MetadataMerges(fields: seq<Field>)
    requires DecodeFields(fields).Some?
    ensures MergeOf(DecodeFields(fields).value.part.metadata, fields)
  {
    if fields != [] {
      var front, last := fields[..|fields| - 1], fields[|fields| - 1];
      MetadataMerges(front);
      var d := DecodeFields(front).value;
      AttributeStep(d, last);
      FieldIff(d, last);
      assert fields == front + [last];
      assert DecodeFields(fields) == DecodeField(d, last);
      assert last.name == "metadata" ==> last.value.JNull? || last.value.JObj?;
      hide *;
      if last.name != "metadata" {
        MergeKept(d.part.metadata, front, last);
      } else if last.value.JNull? {
        MergeCleared(front, last);
      } else {
        MergeExtended(d.part.metadata, front, last);
      }
    }
  }

  // ---------------------------------------------------------------- last wins

  datatype Content = NoContent | TextOf(text: string) | RawOf(raw: seq<Byte>) | UrlOf(url: string) | DataOf(data: Value)

  function ContentOf(p: Part): Content
    requires WellFormed(p)
  {
    match p.kind
    case Unspecified => NoContent
    case Text => TextOf(p.text)
    case Raw => RawOf(p.raw.value)
    case Url => UrlOf(p.url)
    case Data => DataOf(p.data)
  }

  /** A field that selects an arm: any data, or a non-null text, raw or url. */
  predicate Effective(f: Field) {
    f.name == "data" || (f.name in {"text", "raw", "url"} && !f.value.JNull?)
  }

  function LastEffective(fields: seq<Field>): (i: int)
    ensures -1 <= i < |fields|
    ensures i >= 0 ==> Effective(fields[i])
    ensures forall k | i < k < |fields| :: !Effective(fields[k])
  {
    if fields == [] then -1
    else if Effective(fields[|fields| - 1]) then |fields| - 1
    else LastEffective(fields[..|fields| - 1])
  }

  /** What the field says on its own, read into a fresh Part. */
  function Meaning(f: Field): (c: Option<Content>)
    requires Effective(f)
  {
    match f.name
    case "data" => Some(DataOf(ToValue(f.value)))
    case "text" => if f.value.JStr? then Some(TextOf(f.value.s)) else None
    case "url" => if f.value.JStr? then Some(UrlOf(f.value.s)) else None
    case _ => match DecodeRaw(f.value, []) case Some((b, _)) => Some(RawOf(b)) case None => None
  }

  /** The bytes that the raw fields before this point leave in memory: those of the
      run of raw fields since the last other effective field. A base64 string and an
      empty array start anew, another array overwrites the bytes it reaches. */
  function RawBytes(fields: seq<Field>): seq<Byte> {
    if fields == [] then []
    else
      var before, last := RawBytes(fields[..|fields| - 1]), fields[|fields| - 1];
      if !Effective(last) then before
      else if last.name != "raw" then []
      else match DecodeRaw(last.value, before) case Some((_, bytes)) => bytes case None => []
  }

  /** The decoder's memory is determined by the fields alone. */
  lemma {:induction false} BackingIsRawBytes(fields: seq<Field>)
    requires DecodeFields(fields).Some?
    ensures DecodeFields(fields).value.backing == RawBytes(fields)
  {
    if fields != [] {
      var front, last := fields[..|fields| - 1], fields[|fields| - 1];
      BackingIsRawBytes(front);
      hide DecodeRaw, DecodeFields, RawBytes;
      BackingStep(DecodeFields(front).value, last);
    }
  }

  lemma BackingStep(d: Decoding, f: Field)
    requires DecodeField(d, f).Some?
    ensures DecodeField(d, f).value.backing ==
            if !Effective(f) then d.backing
            else if f.name != "raw" then []
            else match DecodeRaw(f.value, d.backing) case Some((_, bytes)) => bytes case None => []
  {
    hide DecodeRaw;
  }

  /** A raw array with a null element where the array behind the slice still
      holds a non-zero byte of an earlier raw field. */
  predicate KeepsStaleByte(f: Field, backing: seq<Byte>) {
    && f.name == "raw" && f.value.JArr?
    && exists i | 0 <= i < |f.value.items| ::
         f.value.items[i].JNull? && i < |backing| && backing[i] != 0
  }

  lemma {:induction false} StaleBytes(items: seq<Json>, backing: seq<Byte>)
    ensures DecodeBytes(items, backing).Some? <==> DecodeBytes(items, []).Some?
    ensures DecodeBytes(items, []).Some? ==>
              forall i | 0 <= i < |items| ::
                DecodeBytes(items, backing).value[i] ==
                  (if items[i].JNull? && i < |backing| then backing[i] else DecodeBytes(items, []).value[i])
    ensures DecodeBytes(items, []).Some? ==>
              forall i | 0 <= i < |items| && items[i].JNull? :: DecodeBytes(items, []).value[i] == 0
  {
    if items != [] {
      StaleBytes(items[..|items| - 1], backing);
    }
  }

  lemma RawReuse(f: Field, backing: seq<Byte>)
    requires f.name == "raw" && !f.value.JNull?
    ensures DecodeRaw(f.value, backing).Some? <==> DecodeRaw(f.value, []).Some?
    ensures DecodeRaw(f.value, backing).Some? ==>
              (DecodeRaw(f.value, backing).value.0 == DecodeRaw(f.value, []).value.0 <==> !KeepsStaleByte(f, backing))
  {
    if f.value.JArr? {
      var items := f.value.items;
      StaleBytes(items, backing);
      if DecodeBytes(items, []).Some? {
        var now, alone := DecodeBytes(items, backing).value, DecodeBytes(items, []).value;
        if KeepsStaleByte(f, backing) {
          var i :| 0 <= i < |items| && items[i].JNull? && i < |backing| && backing[i] != 0;
          assert now[i] != alone[i];
        } else {
          assert now == alone;
        }
      }
    }
  }

  predicate SameArm(f: Field, c: Content) {
    && (f.name == "text" <==> c.TextOf?) && (f.name == "raw" <==> c.RawOf?)
    && (f.name == "url" <==> c.UrlOf?) && (f.name == "data" <==> c.DataOf?)
  }

  /** An effective field takes over the content, whatever was there. */
  lemma EffectiveTakesOver(d: Decoding, f: Field)
    requires WellFormed(d.part) && Effective(f) && DecodeField(d, f).Some?
    ensures var p := DecodeField(d, f).value.part;
            && WellFormed(p) && SameArm(f, ContentOf(p)) && Meaning(f).Some?
            && (ContentOf(p) == Meaning(f).value <==> !KeepsStaleByte(f, d.backing))
  {
    if f.name == "raw" {
      RawReuse(f, d.backing);
    }
  }

  /** Any other accepted field leaves the content alone. */
  lemma InertKeepsContent(d: Decoding, f: Field)
    requires WellFormed(d.part) && !Effective(f) && DecodeField(d, f).Some?
    ensures var e := DecodeField(d, f).value;
            WellFormed(e.part) && ContentOf(e.part) == ContentOf(d.part) && e.backing == d.backing
  {
  }

  /** Every field sequence that decodes leaves exactly one arm at most. Without
      an effective field no arm is active; otherwise the active arm is that of
      the last effective field, and its value is what that field says on its own
      if and only if the field does not keep a stale byte. */
  lemma {:induction false} LastWins(fields: seq<Field>)
    requires DecodeFields(fields).Some?
    ensures WellFormed(DecodeFields(fields).value.part)
    ensures LastEffective(fields) < 0 ==> ContentOf(DecodeFields(fields).value.part) == NoContent
    ensures LastEffective(fields) >= 0 ==>
              var i := LastEffective(fields);
              var got := ContentOf(DecodeFields(fields).value.part);
              && Meaning(fields[i]).Some? && SameArm(fields[i], got)
              && (got == Meaning(fields[i]).value <==> !KeepsStaleByte(fields[i], RawBytes(fields[..i])))
  {
    hide DecodeField, Effective, Meaning, KeepsStaleByte, SameArm;
    if fields != [] {
      var front, last := fields[..|fields| - 1], fields[|fields| - 1];
      LastWins(front);
      var d := DecodeFields(front).value;
      BackingIsRawBytes(front);
      if Effective(last) {
        EffectiveTakesOver(d, last);
      } else {
        InertKeepsContent(d, last);
        var i := LastEffective(fields);
        if i >= 0 {
          assert front[..i] == fields[..i] && front[i] == fields[i];
        }
      }
    }
  }

  // ------------------------------------------------------- the bytes in memory

  function At(bytes: seq<Byte>, k: nat): Byte {
    if k < |bytes| then bytes[k] else 0
  }

  /** The field decides what is in memory at place `k`: every effective field does,
      but for a raw array that does not reach so far or has a null there. */
  predicate Touches(f: Field, k: nat) {
    && Effective(f)
    && (f.name == "raw" && f.value.JArr? && f.value.items != [] ==>
          k < |f.value.items| && !f.value.items[k].JNull?)
  }

  /** What it leaves there: its own byte, or zero. */
  predicate Leaves(f: Field, k: nat, b: Byte) {
    if f.name == "raw" && f.value.JArr? && k < |f.value.items| then
      f.value.items[k].JNum? && b as real == f.value.items[k].number
    else if f.name == "raw" && f.value.JStr? then
      Decode(f.value.s).Some? && b == At(Decode(f.value.s).value, k)
    else b == 0
  }

  function LastTouch(fields: seq<Field>, k: nat): (i: int)
    ensures -1 <= i < |fields|
    ensures i >= 0 ==> Touches(fields[i], k)
    ensures forall j | i < j < |fields| :: !Touches(fields[j], k)
  {
    if fields == [] then -1
    else if Touches(fields[|fields| - 1], k) then |fields| - 1
    else LastTouch(fields[..|fields| - 1], k)
  }

  lemma ArrayStep(items: seq<Json>, backing: seq<Byte>, k: nat)
    requires DecodeBytes(items, backing).Some? && items != []
    ensures DecodeRaw(JArr(items), backing).Some?
    ensures var b := DecodeRaw(JArr(items), backing).value;
            && b.0 <= b.1
            && (if k < |items| && !items[k].JNull? then items[k].JNum? && At(b.1, k) as real == items[k].number
                else At(b.1, k) == At(backing, k))
  {
    BytesIff(items, backing);
    StaleBytes(items, backing);
    hide DecodeBytes;
    assert k < |items| ==> ByteItem(items[k]);
  }

  lemma RawStep(j: Json, backing: seq<Byte>, k: nat)
    requires DecodeRaw(j, backing).Some?
    ensures var f, b := Field("raw", j), DecodeRaw(j, backing).value;
            && b.0 <= b.1
            && (if Touches(f, k) then Leaves(f, k, At(b.1, k)) else At(b.1, k) == At(backing, k))
  {
    if j.JArr? && j.items != [] {
      ArrayStep(j.items, backing, k);
      hide DecodeRaw;
    } else {
      hide Decode;
    }
  }

  /** What is in memory at any place was left there by the last field that decides
      about it. */
  lemma {:induction false} LastByteWins(fields: seq<Field>, k: nat)
    requires DecodeFields(fields).Some?
    ensures var i, b := LastTouch(fields, k), At(RawBytes(fields), k);
            if i < 0 then b == 0 else Leaves(fields[i], k, b)
  {
    if fields != [] {
      var front, last := fields[..|fields| - 1], fields[|fields| - 1];
      LastByteWins(front, k);
      BackingIsRawBytes(front);
      if Effective(last) && last.name == "raw" {
        RawStep(last.value, RawBytes(front), k);
        assert last == Field("raw", last.value);
      }
      hide DecodeRaw, Leaves;
      assert Effective(last) && last.name != "raw" ==> Leaves(last, k, 0) by {
        hide *;
        NothingLeft(last, k);
      }
    }
  }

  lemma NothingLeft(f: Field, k: nat)
    ensures f.name != "raw" ==> Leaves(f, k, 0)
  {
  }

  /** The slice is the beginning of the array behind it. */
  lemma {:induction false} SliceInMemory(fields: seq<Field>)
    requires DecodeFields(fields).Some? && DecodeFields(fields).value.part.kind == Raw
    ensures var d := DecodeFields(fields).value; d.part.raw.Some? && d.part.raw.value <= d.backing
  {
    var front, last := fields[..|fields| - 1], fields[|fields| - 1];
    var d := DecodeFields(front).value;
    assert DecodeField(d, last) == DecodeFields(fields);
    if last.name == "raw" && !last.value.JNull? {
      RawStep(last.value, d.backing, 0);
    } else {
      assert d.part.kind == Raw;
      SliceInMemory(front);
    }
  }

  /** Every byte of a decoded raw arm is the one of the last field that decides about
      its place. */
  lemma RawByteIs(fields: seq<Field>, k: nat)
    requires DecodeFields(fields).Some? && DecodeFields(fields).value.part.kind == Raw
    ensures DecodeFields(fields).value.part.raw.Some?
    ensures var raw, i := DecodeFields(fields).value.part.raw.value, LastTouch(fields, k);
            k < |raw| ==> if i < 0 then raw[k] == 0 else Leaves(fields[i], k, raw[k])
  {
    SliceInMemory(fields);
    LastByteWins(fields, k);
    BackingIsRawBytes(fields);
    hide Leaves, DecodeFields, RawBytes, LastTouch;
  }

  lemma OneNull(items: seq<Json>, backing: seq<Byte>)
    requires items == [JNull]
    ensures DecodeBytes(items, backing) == Some([if backing == [] then 0 else backing[0]])
  {
    assert items[..0] == [];
    var front := DecodeBytes(items[..0], backing);
    assert front.Some?;
    var kept: Byte := if backing == [] then 0 else backing[0];
    assert DecodeBytes(items, backing) == Some(front.value + [kept]);
    assert front.value + [kept] == [kept];
  }

  lemma TwoFields(f: Field, g: Field)
    requires DecodeField(START, f).Some?
    ensures DecodeFields([f, g]) == DecodeField(DecodeField(START, f).value, g)
  {
    hide DecodeField;
    var fields := [f, g];
    assert fields[..1] == [f] && fields[..1][..0] == [];
    assert DecodeFields(fields[..1]) == DecodeField(START, f);
  }

  /** The stale byte is real: after any raw string whose first byte is not zero,
      a raw field [null] alone means one zero byte but decodes to that byte. */
  lemma StaleByteExample(b: seq<Byte>)
    requires b != [] && b[0] != 0
    ensures var f, g := Field("raw", JStr(Encode(b))), Field("raw", JArr([JNull]));
            && Meaning(g) == Some(RawOf([0]))
            && DecodeFields([f, g]).Some? && ContentOf(DecodeFields([f, g]).value.part) == RawOf([b[0]])
  {
    hide Decode, Encode, DecodeBytes;
    var f, g := Field("raw", JStr(Encode(b))), Field("raw", JArr([JNull]));
    DecodeOfEncode(b);
    assert DecodeField(START, f) == Some(Decoding(RawPart(b), b));
    OneNull([JNull], b);
    OneNull([JNull], []);
    TwoFields(f, g);
  }

  // --------------------------------------------------------------- round trip

  /** The content field that MarshalJSON emits. */
  function ArmName(kind: Kind): string {
    match kind
    case Unspecified => ""
    case Text => "text"
    case Raw => "raw"
    case Url => "url"
    case Data => "data"
  }

  /** The fields that MarshalJSON puts into its output map. */
  function EmittedNames(p: Part): set<string> {
    (if p.kind == Unspecified then {} else {ArmName(p.kind)})
    + (if p.metadata.Some? then {"metadata"} else {})
    + (if p.filename != "" then {"filename"} else {})
    + (if p.mediaType != "" then {"mediaType"} else {})
  }

  ghost predicate EmittedValue(p: Part, f: Field) {
    match f.name
    case "text" => f.value == JStr(p.text)
    case "raw" => f.value == if p.raw.Some? then JStr(Encode(p.raw.value)) else JNull
    case "url" => f.value == JStr(p.url)
    case "data" => Prints(p.data, f.value)
    case "metadata" => p.metadata.Some? && Prints(VObj(p.metadata.value), f.value)
    case "filename" => f.value == JStr(p.filename)
    case "mediaType" => f.value == JStr(p.mediaType)
    case _ => false
  }

  ghost predicate Carries(p: Part, fields: seq<Field>, names: set<string>) {
    && DistinctNames(fields) && Names(fields) == names
    && forall i | 0 <= i < |fields| :: EmittedValue(p, fields[i])
  }

  /** The printed object: the emitted fields, each once, in any order. */
  ghost predicate Emits(p: Part, fields: seq<Field>) {
    Carries(p, fields, EmittedNames(p))
  }

  function When(b: bool, name: string, value: Json): seq<Field> {
    if b then [Field(name, value)] else []
  }

  function ArmValue(p: Part, data: Json): Json {
    match p.kind
    case Unspecified => JNull
    case Text => JStr(p.text)
    case Raw => if p.raw.Some? then JStr(Encode(p.raw.value)) else JNull
    case Url => JStr(p.url)
    case Data => data
  }

  /** MarshalJSON: the output map in the order the code fills it; `data` and
      `metadata` are the texts of the two free-form values. */
  function MarshalJSON(p: Part, data: Json, metadata: Json): seq<Field> {
    When(p.kind != Unspecified, ArmName(p.kind), ArmValue(p, data))
    + When(p.metadata.Some?, "metadata", metadata)
    + When(p.filename != "", "filename", JStr(p.filename))
    + When(p.mediaType != "", "mediaType", JStr(p.mediaType))
  }

  lemma NamesOfConcat(a: seq<Field>, b: seq<Field>)
    ensures Names(a + b) == Names(a) + Names(b)
  {
    var all := a + b;
    assert forall i | 0 <= i < |a| :: all[i].name == a[i].name;
    assert forall i | 0 <= i < |b| :: all[|a| + i].name == b[i].name;
    assert Names(a) <= Names(all) && Names(b) <= Names(all);
    assert forall i | 0 <= i < |all| :: all[i].name in (if i < |a| then Names(a) else Names(b));
  }

  /** Appending an optional field with a new name. */
  lemma AppendWhen(p: Part, fields: seq<Field>, names: set<string>, b: bool, name: string, value: Json)
    requires Carries(p, fields, names) && name !in names
    requires b ==> EmittedValue(p, Field(name, value))
    ensures Carries(p, fields + When(b, name, value), names + if b then {name} else {})
  {
    hide EmittedValue;
    NamesOfConcat(fields, When(b, name, value));
    assert forall i | 0 <= i < |fields| :: fields[i].name in Names(fields);
    assert Names(When(b, name, value)) == if b then {name} else {} by {
      if b {
        assert When(b, name, value)[0].name == name;
      }
    }
  }

  lemma EmittedTexts(p: Part, data: Json, metadata: Json)
    requires p.kind == Data ==> Prints(p.data, data)
    requires p.metadata.Some? ==> Prints(VObj(p.metadata.value), metadata)
    ensures p.kind != Unspecified ==> EmittedValue(p, Field(ArmName(p.kind), ArmValue(p, data)))
    ensures p.metadata.Some? ==> EmittedValue(p, Field("metadata", metadata))
    ensures EmittedValue(p, Field("filename", JStr(p.filename)))
    ensures EmittedValue(p, Field("mediaType", JStr(p.mediaType)))
  {
  }

  lemma CarriesNothing(p: Part)
    ensures Carries(p, [], {})
  {
  }

  /** MarshalJSON yields an object that carries the Part. */
  lemma MarshalEmits(p: Part, data: Json, metadata: Json)
    requires p.kind == Data ==> Prints(p.data, data)
    requires p.metadata.Some? ==> Prints(VObj(p.metadata.value), metadata)
    ensures Emits(p, MarshalJSON(p, data, metadata))
  {
    hide EmittedValue, When, Prints, ArmValue, Carries;
    EmittedTexts(p, data, metadata);
    CarriesNothing(p);
    AppendWhen(p, [], {}, p.kind != Unspecified, ArmName(p.kind), ArmValue(p, data));
    var f1 := When(p.kind != Unspecified, ArmName(p.kind), ArmValue(p, data));
    var n1: set<string> := if p.kind != Unspecified then {ArmName(p.kind)} else {};
    assert [] + f1 == f1 && {} + n1 == n1;
    AppendWhen(p, f1, n1, p.metadata.Some?, "metadata", metadata);
    var f2 := f1 + When(p.metadata.Some?, "metadata", metadata);
    var n2 := n1 + if p.metadata.Some? then {"metadata"} else {};
    AppendWhen(p, f2, n2, p.filename != "", "filename", JStr(p.filename));
    var f3 := f2 + When(p.filename != "", "filename", JStr(p.filename));
    var n3 := n2 + if p.filename != "" then {"filename"} else {};
    AppendWhen(p, f3, n3, p.mediaType != "", "mediaType", JStr(p.mediaType));
    assert EmittedNames(p) == n3 + if p.mediaType != "" then {"mediaType"} else {};
  }

  /** The part of `p` that a set of emitted fields carries. */
  function Restricted(p: Part, names: set<string>): Part {
    Part(if ArmName(p.kind) in names then p.kind else Unspecified,
         if p.kind == Text && "text" in names then p.text else "",
         if p.kind == Raw && "raw" in names then p.raw else None,
         if p.kind == Url && "url" in names then p.url else "",
         if p.kind == Data && "data" in names then p.data else VNull,
         if "metadata" in names then p.metadata else None,
         if "filename" in names then p.filename else "",
         if "mediaType" in names then p.mediaType else "")
  }

  predicate Pending(p: Part, names: set<string>, f: Field) {
    WellFormed(p) && f.name in EmittedNames(p) && f.name !in names && names <= EmittedNames(p)
  }

  lemma ReadsBackArm(p: Part, names: set<string>, f: Field, backing: seq<Byte>)
    requires Pending(p, names, f) && EmittedValue(p, f) && f.name == ArmName(p.kind)
    ensures DecodeField(Decoding(Restricted(p, names), backing), f).Some?
    ensures DecodeField(Decoding(Restricted(p, names), backing), f).value.part == Restricted(p, names + {f.name})
  {
    hide ToMembers, Prints, DecodeBytes, Encode, Decode;
    match p.kind
    case Raw => DecodeOfEncode(p.raw.value);
    case Data => PrintedReadsBack(p.data, f.value);
    case _ =>
  }

  lemma AttributeOnly(p: Part, names: set<string>, name: string)
    requires name in EmittedNames(p) && name != ArmName(p.kind)
    ensures name in {"metadata", "filename", "mediaType"}
    ensures Restricted(p, names + {name}) == Restricted(p, names).(
              metadata := if name == "metadata" || "metadata" in names then p.metadata else None,
              filename := if name == "filename" || "filename" in names then p.filename else "",
              mediaType := if name == "mediaType" || "mediaType" in names then p.mediaType else "")
  {
  }

  lemma ReadsBackAttribute(p: Part, names: set<string>, f: Field, backing: seq<Byte>)
    requires Pending(p, names, f) && EmittedValue(p, f) && f.name != ArmName(p.kind)
    ensures DecodeField(Decoding(Restricted(p, names), backing), f).Some?
    ensures DecodeField(Decoding(Restricted(p, names), backing), f).value.part == Restricted(p, names + {f.name})
  {
    hide ToMembers, Prints, DecodeRaw;
    AttributeOnly(p, names, f.name);
    hide EmittedNames, WellFormed;
    if f.name == "metadata" {
      PrintedReadsBack(VObj(p.metadata.value), f.value);
      assert map[] + p.metadata.value == p.metadata.value;
    }
  }

  lemma ReadsBackOneField(p: Part, names: set<string>, f: Field, backing: seq<Byte>)
    requires Pending(p, names, f) && EmittedValue(p, f)
    ensures DecodeField(Decoding(Restricted(p, names), backing), f).Some?
    ensures DecodeField(Decoding(Restricted(p, names), backing), f).value.part == Restricted(p, names + {f.name})
  {
    hide *;
    if f.name == ArmName(p.kind) {
      ReadsBackArm(p, names, f, backing);
    } else {
      ReadsBackAttribute(p, names, f, backing);
    }
  }

  lemma NamesStep(fields: seq<Field>, k: nat)
    requires k < |fields|
    ensures Names(fields[..k + 1]) == Names(fields[..k]) + {fields[k].name} && fields[k].name in Names(fields)
    ensures Names(fields[..k]) <= Names(fields) && (DistinctNames(fields) ==> fields[k].name !in Names(fields[..k]))
  {
    assert fields[..k + 1][k] == fields[k];
    assert forall i | 0 <= i < k :: fields[..k][i] == fields[i] == fields[..k + 1][i];
  }

  lemma {:induction false} ReadsBackPrefix(p: Part, fields: seq<Field>, n: nat)
    requires WellFormed(p) && Emits(p, fields) && n <= |fields|
    ensures DecodeFields(fields[..n]).Some?
    ensures DecodeFields(fields[..n]).value.part == Restricted(p, Names(fields[..n]))
  {
    hide DecodeField, EmittedValue, EmittedNames, WellFormed, DecodeRaw, ToMembers;
    if n > 0 {
      hide Restricted;
      ReadsBackPrefix(p, fields, n - 1);
      var front, f := fields[..n - 1], fields[n - 1];
      assert fields[..n][..n - 1] == front;
      NamesStep(fields, n - 1);
      ReadsBackOneField(p, Names(front), f, DecodeFields(front).value.backing);
    }
  }

  /** Decoding a printed Part gives that Part back, in every field order, exactly
      when the Part is well formed: one arm, and a raw arm that is not nil. */
  lemma RoundTrip(p: Part, fields: seq<Field>)
    requires Emits(p, fields)
    ensures (DecodeFields(fields).Some? && DecodeFields(fields).value.part == p) <==> WellFormed(p)
  {
    if WellFormed(p) {
      ReadsBackPrefix(p, fields, |fields|);
      assert fields[..|fields|] == fields;
      assert Restricted(p, EmittedNames(p)) == p;
    } else if DecodeFields(fields).Some? {
      LastWins(fields);
    }
  }

  /** Every Part that came out of the decoder survives another round. */
  lemma DecodedPartsRoundTrip(source: seq<Field>, printed: seq<Field>)
    requires DecodeFields(source).Some?
    requires Emits(DecodeFields(source).value.part, printed)
    ensures DecodeFields(printed).Some?
    ensures DecodeFields(printed).value.part == DecodeFields(source).value.part
  {
    LastWins(source);
    RoundTrip(DecodeFields(source).value.part, printed);
  }
}
