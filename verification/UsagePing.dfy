/** The usage-ping consent block of daemon.yaml: `usagePing.*` set commands, each
    a sequence of atomic file replacements that a crash may cut short. The file is
    a document with anchors and aliases; nothing is assumed about it except where
    a lemma says so. */
module UsagePing {
  import opened Decimal
  import opened MappingNode
  import opened YamlText
  import opened Base64

  // ------------------------------------------------------------------ reading

  function Lookup(mapping: Meaning, key: string): Option<Meaning> {
    if mapping.kind == Mapping then Find(mapping.content, LabelRead, key) else None
  }

  /** The node that findMappingValue returns for a value: aliases are followed. */
  function Target(m: Meaning): Meaning {
    if m.kind == Alias && |m.content| == 1 then m.content[0] else m
  }

  function FieldIn(block: Meaning, field: string): string {
    match Lookup(block, field)
    case Some(v) => if Target(v).kind == Scalar then Target(v).value else ""
    case None => ""
  }

  function FieldOf(doc: Meaning, field: string): string {
    match Lookup(doc, "usagePing")
    case None => ""
    case Some(block) => FieldIn(Target(block), field)
  }

  /** readUsagePingField: "" when the block or the field is missing. */
  function ReadField(doc: Tree, field: string): string {
    FieldOf(Read(doc, map[]), field)
  }

  predicate LowerHex(c: char) {
    '0' <= c <= '9' || 'a' <= c <= 'f'
  }

  /** What a minted id looks like. */
  predicate ValidId(id: string) {
    |id| == 32 && forall i | 0 <= i < |id| :: LowerHex(id[i])
  }

  function HexDigit(n: nat): (c: char)
    requires n < 16
    ensures LowerHex(c)
  {
    if n < 10 then '0' + n as char else 'a' + (n - 10) as char
  }

  /** hex.EncodeToString. */
  function Hex(bytes: seq<Byte>): (s: string)
    ensures |s| == 2 * |bytes| && forall i | 0 <= i < |s| :: LowerHex(s[i])
  {
    if bytes == [] then "" else [HexDigit(bytes[0] / 16), HexDigit(bytes[0] % 16)] + Hex(bytes[1..])
  }

  /** The spellings that the YAML decoder reads as true into a bool. */
  predicate Truthy(s: string) {
    s in {"true", "True", "TRUE", "y", "Y", "yes", "Yes", "YES", "on", "On", "ON"}
  }

  /** The promise: a file that says "enabled" carries an installation id. */
  predicate Consent(doc: Tree) {
    Truthy(ReadField(doc, "enabled")) ==> ValidId(ReadField(doc, "installationId"))
  }

  // ------------------------------------------------------------------ writing

  function ScalarTree(tag: string, value: string): Tree {
    Tree(Scalar, tag, value, "", [])
  }

  const EMPTY_BLOCK := Tree(Mapping, "!!map", "", "", [])

  const KEY := ScalarTree("!!str", "usagePing")

  /** Where findMappingValue finds the usagePing key, or -1. */
  function KeyPlace(doc: Tree): (i: int)
    ensures i == -1 || 0 <= i < |doc.content| - 1
  {
    First(doc.content, ScalarNamed(LabelOf, "usagePing"))
  }

  /** The way to the block that a write edits in place: the value of usagePing, or
      the node it is an alias of. None if that is missing or not a mapping. */
  function BlockPath(doc: Tree): (r: Option<Path>)
    ensures r.Some? ==> PathIn(doc.content, r.value) && AtIn(doc.content, r.value).kind == Mapping
  {
    var i := KeyPlace(doc);
    if i < 0 then None
    else
      var v := doc.content[i + 1];
      if v.kind == Mapping then Some([i + 1])
      else if v.kind != Alias || v.value == "" then None
      else
        match LastIn(doc.content[..i + 1], v.value)
        case None => None
        case Some(p) =>
          PathInFront(doc.content, i + 1, p, map[]);
          if AtIn(doc.content, p).kind == Mapping then Some(p) else None
  }

  /** The block that a write starts from: a fresh one in place of nothing or of
      something that is not a mapping. */
  function BlockOf(doc: Tree): (b: Tree)
    ensures b.kind == Mapping
  {
    match BlockPath(doc)
    case Some(p) => AtIn(doc.content, p)
    case None => EMPTY_BLOCK
  }

  function FieldTree(field: string, value: string): Tree {
    ScalarTree(if field == "enabled" then "!!bool" else "!!str", value)
  }

  function EditBlock(block: Tree, field: string, value: string): Tree {
    block.(content := EditList(block.content, field, value))
  }

  /** writeUsagePingField: the document that replaces the file. */
  function WriteField(doc: Tree, field: string, value: string): Tree {
    var block, i := EditBlock(BlockOf(doc), field, value), KeyPlace(doc);
    doc.(content :=
      match BlockPath(doc)
      case Some(p) => ExchangeIn(doc.content, p, block)
      case None => if i < 0 then doc.content + [KEY, block] else doc.content[i + 1 := block])
  }

  /** The document once the block that will be edited is in its place ... */
  function Placed(doc: Tree): Tree {
    var i := KeyPlace(doc);
    if BlockPath(doc).Some? then doc
    else doc.(content := if i < 0 then doc.content + [KEY, EMPTY_BLOCK] else doc.content[i + 1 := EMPTY_BLOCK])
  }

  /** ... and that place. */
  function Place(doc: Tree): Path {
    match BlockPath(doc)
    case Some(p) => p
    case None => [if KeyPlace(doc) < 0 then |doc.content| + 1 else KeyPlace(doc) + 1]
  }

  lemma WriteIsExchange(doc: Tree, field: string, value: string)
    requires doc.kind == Mapping
    ensures HasPath(Placed(doc), Place(doc))
    ensures WriteField(doc, field, value) == Exchange(Placed(doc), Place(doc), EditBlock(BlockOf(doc), field, value))
  {
    hide EditBlock;
    if BlockPath(doc).None? {
      OneStep(Placed(doc).content, Place(doc)[0], EditBlock(EMPTY_BLOCK, field, value));
    }
  }

  /** deleteUsagePingBlock. */
  function DeleteBlock(doc: Tree): Tree {
    doc.(content := Delete(doc.content, LabelOf, "usagePing"))
  }

  // ----------------------------------------------------------------- commands

  /** The endpoint command has already been trimmed and checked. */
  datatype Command = Enable(random: seq<Byte>) | Disable | SetEndpoint(endpoint: string)

  predicate Minted(c: Command) {
    c.Enable? ==> |c.random| == 16
  }

  /** The successive contents of the file while the command runs to the end. */
  function Writes(doc: Tree, c: Command): seq<Tree> {
    match c
    case Enable(random) =>
      var known := ReadField(doc, "installationId");
      var first := WriteField(doc, "installationId", if ValidId(known) then known else Hex(random));
      [first, WriteField(first, "enabled", "true")]
    case Disable => [DeleteBlock(doc)]
    case SetEndpoint(endpoint) => [WriteField(doc, "endpoint", endpoint)]
  }

  // ------------------------------------------------ a write, as it is read back

  const EMPTY_READ := Meaning(Mapping, "!!map", "", [])

  /** The block as a reader sees it, empty if there is none. */
  function Seen(doc: Tree): Meaning {
    match Lookup(Read(doc, map[]), "usagePing")
    case None => EMPTY_READ
    case Some(b) => if Target(b).kind == Mapping then Target(b) else EMPTY_READ
  }

  function EditRead(block: Meaning, field: string, value: string): Meaning {
    block.(content := EditMeanings(block.content, field, value))
  }

  lemma FieldsAreSeen(doc: Tree, field: string)
    ensures ReadField(doc, field) == FieldIn(Seen(doc), field)
  {
  }

  lemma ScalarReads(tag: string, value: string, s: Scope)
    ensures Read(ScalarTree(tag, value), s) == Meaning(Scalar, tag, value, [])
    ensures Anchors(ScalarTree(tag, value)) == {}
  {
    assert ReadAll([], s) == [];
  }

  lemma ScalarScope(tag: string, value: string, s: Scope)
    ensures After(ScalarTree(tag, value), s) == s
  {
    assert AnchorsAll([]) == {};
    AfterNameless(ScalarTree(tag, value), s);
  }

  function EditList(ts: seq<Tree>, field: string, value: string): seq<Tree> {
    if value == "" then Delete(ts, LabelOf, field)
    else Upsert(ts, LabelOf, field, ScalarTree("!!str", field), FieldTree(field, value))
  }

  function EditMeanings(ms: seq<Meaning>, field: string, value: string): seq<Meaning> {
    if value == "" then Delete(ms, LabelRead, field)
    else Upsert(ms, LabelRead, field, Meaning(Scalar, "!!str", field, []), Meaning(Scalar, FieldTree(field, value).tag, value, []))
  }

  /** Every name that is taken behind the node or pair which the edit removes meant
      the same before it. */
  predicate FieldsKept(ts: seq<Tree>, field: string, value: string, e: Scope) {
    var j := First(ts, Named(LabelOf, field));
    j < 0 ||
    var k := if value == "" then j else j + 1;
    var s := AfterAll(ts[..k], e);
    Agree(AfterAll(ts[k..j + 2], s), s, FreeAll(ts[j + 2..]))
  }

  /** The edit of a list is read as the same edit of what was read before exactly
      when it keeps the other nodes in this sense. */
  lemma EditListIff(ts: seq<Tree>, field: string, value: string, e: Scope)
    ensures ReadAll(EditList(ts, field, value), e) == EditMeanings(ReadAll(ts, e), field, value)
            <==> FieldsKept(ts, field, value, e)
  {
    ReadKeepsSearch(ts, e, field);
    var j, ms := First(ts, Named(LabelOf, field)), ReadAll(ts, e);
    assert First(ms, Named(LabelRead, field)) == j;
    if j < 0 {
      hide First, ReadAll;
      ReadNewPair(ts, field, value, e);
    } else if value == "" {
      DropFieldIff(ts, field, j, e);
    } else {
      ReplaceFieldIff(ts, field, value, j, e);
    }
  }

  lemma DropFieldIff(ts: seq<Tree>, field: string, j: nat, e: Scope)
    requires First(ts, Named(LabelOf, field)) == j == First(ReadAll(ts, e), Named(LabelRead, field)) && j + 1 < |ts|
    ensures ReadAll(EditList(ts, field, ""), e) == EditMeanings(ReadAll(ts, e), field, "") <==> FieldsKept(ts, field, "", e)
  {
    var pre, pair, post := ts[..j], ts[j..j + 2], ts[j + 2..];
    hide First, ReadAll, AfterAll, FreeAll;
    assert ts == pre + pair + post && |pre + pair| == j + 2;
    assert EditList(ts, field, "") == pre + post;
    DropIff(pre, pair, post, e);
  }

  lemma ReplaceFieldIff(ts: seq<Tree>, field: string, value: string, j: nat, e: Scope)
    requires First(ts, Named(LabelOf, field)) == j == First(ReadAll(ts, e), Named(LabelRead, field)) && j + 1 < |ts|
    requires value != ""
    ensures ReadAll(EditList(ts, field, value), e) == EditMeanings(ReadAll(ts, e), field, value)
            <==> FieldsKept(ts, field, value, e)
  {
    var v := FieldTree(field, value);
    hide First, ReadAll, AfterAll, FreeAll;
    assert EditList(ts, field, value) == ts[j + 1 := v];
    ReplaceIff(ts, j + 1, v, e);
    assert ts[j + 1..j + 2] == [ts[j + 1]];
    ReadOne(ts[j + 1], AfterAll(ts[..j + 1], e));
  }

  lemma ReadNewPair(ts: seq<Tree>, field: string, value: string, e: Scope)
    ensures ReadAll(ts + [ScalarTree("!!str", field), FieldTree(field, value)], e) ==
            ReadAll(ts, e) + [Meaning(Scalar, "!!str", field, []), Meaning(Scalar, FieldTree(field, value).tag, value, [])]
  {
    var k, v, s := ScalarTree("!!str", field), FieldTree(field, value), AfterAll(ts, e);
    ScalarReads("!!str", field, s);
    ScalarScope("!!str", field, s);
    ScalarReads(v.tag, value, s);
    hide Read, ReadAll, After, AfterAll;
    ReadConcat(ts, [k, v], e);
    ReadTwo(k, v, s);
  }

  /** One node exchanged for a nameless scalar. */
  lemma ReplaceIff(ts: seq<Tree>, k: nat, v: Tree, e: Scope)
    requires k < |ts| && v == ScalarTree(v.tag, v.value)
    ensures var s := AfterAll(ts[..k], e);
            ReadAll(ts[k := v], e) == ReadAll(ts, e)[k := Meaning(Scalar, v.tag, v.value, [])]
            <==> Agree(After(ts[k], s), s, FreeAll(ts[k + 1..]))
  {
    var s, post := AfterAll(ts[..k], e), ts[k + 1..];
    ScalarReads(v.tag, v.value, s);
    ScalarScope(v.tag, v.value, s);
    hide *;
    ReadAround(ts, k, ts[k], e);
    ReadAround(ts, k, v, e);
    assert ts[k := ts[k]] == ts;
    SameReadingIff(post, After(ts[k], s), s);
    var pre, x, y := ReadAll(ts[..k], e), Read(ts[k], s), Read(v, s);
    var a, b := ReadAll(post, After(ts[k], s)), ReadAll(post, s);
    assert (pre + [x] + a)[k := y] == pre + [y] + a;
    SameTail(pre + [y], a, b);
  }

  lemma DropIff(pre: seq<Tree>, pair: seq<Tree>, post: seq<Tree>, e: Scope)
    ensures var s, was := AfterAll(pre, e), ReadAll(pre + pair + post, e);
            ReadAll(pre + post, e) == was[..|pre|] + was[|pre + pair|..]
            <==> Agree(AfterAll(pair, s), s, FreeAll(post))
  {
    hide *;
    var s := AfterAll(pre, e);
    SpliceIff(pre, pair, [], post, e);
    ReadConcat(pre, post, e);
    NothingRead(s);
    var a, b, c := ReadAll(pre, e), ReadAll(pair, s), ReadAll(post, AfterAll(pair, s));
    assert (a + b + c)[..|a|] == a && (a + b + c)[|a + b|..] == c;
    SameTail(a, ReadAll(post, s), c);
  }

  lemma NothingRead(s: Scope)
    ensures AfterAll([], s) == s
  {
  }

  lemma SameTail<T>(a: seq<T>, b: seq<T>, c: seq<T>)
    ensures a + b == a + c <==> b == c
  {
    if a + b == a + c {
      assert b == (a + b)[|a|..] == (a + c)[|a|..] == c;
    }
  }

  lemma ReadTwo(k: Tree, v: Tree, s: Scope)
    ensures ReadAll([k, v], s) == [Read(k, s), Read(v, After(k, s))]
    ensures AfterAll([k, v], s) == After(v, After(k, s))
  {
    ReadOne(k, s);
    ReadSnoc([k], v, s);
    assert [k] + [v] == [k, v];
  }

  /** An edit gives no new names. */
  lemma EditNames(ts: seq<Tree>, field: string, value: string)
    ensures AnchorsAll(EditList(ts, field, value)) <= AnchorsAll(ts)
  {
    hide *;
    var j, k, v := First(ts, Named(LabelOf, field)), ScalarTree("!!str", field), FieldTree(field, value);
    EditShape(ts, field, value);
    PlainField(field, value);
    ScalarReads("!!str", field, map[]);
    ScalarReads(v.tag, v.value, map[]);
    if j < 0 && value != "" {
      NamesOfTwo(k, v);
      NamesOfConcat(ts, [k, v]);
    } else if j >= 0 && value == "" {
      NamesWithout(ts, j);
    } else if j >= 0 {
      NamesReplaced(ts, j + 1, v);
    }
  }

  lemma NamesWithout(ts: seq<Tree>, j: nat)
    requires j + 2 <= |ts|
    ensures AnchorsAll(ts[..j] + ts[j + 2..]) <= AnchorsAll(ts)
  {
    hide *;
    var pre, pair, post := ts[..j], ts[j..j + 2], ts[j + 2..];
    assert ts == pre + pair + post;
    NamesOfConcat(pre + pair, post);
    NamesOfConcat(pre, pair);
    NamesOfConcat(pre, post);
  }

  lemma NamesReplaced(ts: seq<Tree>, k: nat, v: Tree)
    requires k < |ts| && Anchors(v) == {}
    ensures AnchorsAll(ts[k := v]) <= AnchorsAll(ts)
  {
    hide *;
    var pre, post := ts[..k], ts[k + 1..];
    assert ts == pre + [ts[k]] + post && ts[k := v] == pre + [v] + post;
    ReadOne(v, map[]);
    NamesOfConcat(pre + [ts[k]], post);
    NamesOfConcat(pre, [ts[k]]);
    NamesOfConcat(pre + [v], post);
    NamesOfConcat(pre, [v]);
  }

  lemma NamesOfTwo(k: Tree, v: Tree)
    ensures AnchorsAll([k, v]) == Anchors(k) + Anchors(v)
  {
    ReadOne(k, map[]);
    ReadOne(v, map[]);
    NamesOfConcat([k], [v]);
    assert [k] + [v] == [k, v];
  }

  // -------------------------------------------------------- finding the block

  /** What an alias behind some nodes is read as: the last of them that has its
      name, or nothing. */
  lemma AliasReads(pre: seq<Tree>, v: Tree)
    requires v.kind == Alias
    ensures var found := if v.value == "" then None else LastIn(pre, v.value);
            Read(v, AfterAll(pre, map[])).content ==
              if found.Some? then [Read(AtIn(pre, found.value), ScopeIn(pre, found.value, map[]))] else []
  {
    AfterAllScope(pre, map[]);
    if v.value == "" {
      NoEmptyName(pre);
    } else {
      LastInIsBound(pre, v.value, map[]);
    }
    hide AfterAll, LastIn, AnchorsAll;
  }

  lemma SeenValue(doc: Tree)
    requires doc.kind == Mapping
    ensures var i := KeyPlace(doc);
            var b := if i < 0 then EMPTY_READ else Target(Read(doc.content[i + 1], AfterAll(doc.content[..i + 1], map[])));
            Seen(doc) == if b.kind == Mapping then b else EMPTY_READ
  {
    ReadValue(doc);
    hide KeyPlace, Lookup, Read;
  }

  /** The value of usagePing, as it is read in its place. */
  lemma ReadValue(doc: Tree)
    requires doc.kind == Mapping
    ensures var i := KeyPlace(doc);
            Lookup(Read(doc, map[]), "usagePing") ==
              if i < 0 then None else Some(Read(doc.content[i + 1], AfterAll(doc.content[..i + 1], map[])))
  {
    assert Enter(doc, map[]) == map[];
    ReadKeepsSearch(doc.content, map[], "usagePing");
    if KeyPlace(doc) >= 0 {
      ReadAt(doc.content, KeyPlace(doc) + 1, map[]);
    }
    hide First, ReadAll, AfterAll;
  }

  /** The node at the end of the path is what a reader sees as the block. */
  lemma BlockIsSeen(doc: Tree)
    requires doc.kind == Mapping
    ensures match BlockPath(doc)
            case Some(p) => Seen(doc) == Read(AtIn(doc.content, p), ScopeIn(doc.content, p, map[]))
            case None => Seen(doc) == EMPTY_READ
  {
    SeenValue(doc);
    hide Seen, KeyPlace, AfterAll, LastIn, ReadAll;
    var ts, i := doc.content, KeyPlace(doc);
    if i >= 0 && ts[i + 1].kind == Alias {
      var pre, v := ts[..i + 1], ts[i + 1];
      AliasReads(pre, v);
      if v.value != "" && LastIn(pre, v.value).Some? {
        PathInFront(ts, i + 1, LastIn(pre, v.value).value, map[]);
      }
    }
  }

  // --------------------------------------------------------- after the write

  /** Keys and values alternate, as a parser leaves them. Keys may be anything, the
      block may be shared through aliases or be an alias, and any node may have a
      name. */
  predicate Tidy(doc: Tree) {
    doc.kind == Mapping && |doc.content| % 2 == 0 && |BlockOf(doc).content| % 2 == 0
  }

  /** Only the list of the block changes. */
  lemma EditKeepsHead(block: Tree, field: string, value: string)
    ensures var b := EditBlock(block, field, value);
            b.kind == block.kind && b.tag == block.tag && b.value == block.value && b.anchor == block.anchor
  {
  }

  lemma {:induction false} SameLabels(a: seq<Tree>, b: seq<Tree>, hit: Tree -> bool)
    requires |a| == |b| && forall j | 0 <= j < |a| :: hit(a[j]) == hit(b[j])
    ensures First(a, hit) == First(b, hit)
  {
    if |a| >= 2 {
      SameLabels(a[2..], b[2..], hit);
    }
  }

  /** An edited node keeps its kind and text, and so does everything around it. */
  lemma ExchangeKeepsPlace(doc: Tree, p: Path, u: Tree)
    requires PathIn(doc.content, p) && LabelOf(u) == LabelOf(AtIn(doc.content, p))
    ensures KeyPlace(doc.(content := ExchangeIn(doc.content, p, u))) == KeyPlace(doc)
  {
    var hit, after := ScalarNamed(LabelOf, "usagePing"), ExchangeIn(doc.content, p, u);
    forall j | 0 <= j < |after| ensures hit(after[j]) == hit(doc.content[j]) {
      if j == p[0] {
        assert after[j] == Exchange(doc.content[j], p[1..], u);
        assert AtIn(doc.content, p) == At(doc.content[j], p[1..]);
      }
    }
    SameLabels(after, doc.content, hit);
  }

  /** The block is where it was, or where usagePing is or will be. */
  lemma BlockAfterWrite(doc: Tree, field: string, value: string) returns (p: Path)
    requires Tidy(doc)
    ensures var after := WriteField(doc, field, value);
            && after.kind == Mapping && BlockPath(after) == Some(p)
            && AtIn(after.content, p) == EditBlock(BlockOf(doc), field, value)
            && (BlockPath(doc).Some? ==> BlockPath(doc) == Some(p)
                                         && ScopeIn(after.content, p, map[]) == ScopeIn(doc.content, p, map[]))
  {
    var b, i := EditBlock(BlockOf(doc), field, value), KeyPlace(doc);
    EditKeepsHead(BlockOf(doc), field, value);
    EditNames(BlockOf(doc).content, field, value);
    assert AnchorsAll(b.content) <= AnchorsAll(BlockOf(doc).content);
    hide EditBlock, AnchorsAll;
    match BlockPath(doc)
    case Some(q) =>
      p := q;
      ExchangeInFacts(doc.content, p, b, map[]);
      if doc.content[i + 1].kind == Alias {
        AliasAfterExchange(doc, p, b);
      } else {
        assert p[1..] == [];
        assert ExchangeIn(doc.content, p, b) == doc.content[i + 1 := b];
        UpdatedPlace(doc, b);
      }
    case None =>
      if i >= 0 {
        UpdatedPlace(doc, b);
        p := [i + 1];
      } else {
        AppendedPlace(doc, b);
        p := [|doc.content| + 1];
      }
  }

  lemma UpdatedPlace(doc: Tree, b: Tree)
    requires KeyPlace(doc) >= 0 && b.kind == Mapping
    ensures var after := doc.(content := doc.content[KeyPlace(doc) + 1 := b]);
            BlockPath(after) == Some([KeyPlace(doc) + 1]) && AtIn(after.content, [KeyPlace(doc) + 1]) == b
  {
    FirstOfUpdate(doc.content, ScalarNamed(LabelOf, "usagePing"), KeyPlace(doc) + 1, b);
    hide First;
    OneStep(doc.content[KeyPlace(doc) + 1 := b], KeyPlace(doc) + 1, b);
  }

  lemma AppendedPlace(doc: Tree, b: Tree)
    requires KeyPlace(doc) < 0 && b.kind == Mapping && |doc.content| % 2 == 0
    ensures var after := doc.(content := doc.content + [KEY, b]);
            BlockPath(after) == Some([|doc.content| + 1]) && AtIn(after.content, [|doc.content| + 1]) == b
  {
    var hit, after := ScalarNamed(LabelOf, "usagePing"), doc.content + [KEY, b];
    HitsAreTests(KEY, "usagePing");
    hide First;
    FirstOfConcat(doc.content, [KEY, b], hit);
    FirstOfPair(KEY, b, [], hit);
    assert [KEY, b] + [] == [KEY, b];
    OneStep(after, |doc.content| + 1, b);
  }

  /** An alias still finds the node it stood for, with its new content. */
  lemma AliasAfterExchange(doc: Tree, p: Path, b: Tree)
    requires KeyPlace(doc) >= 0 && doc.content[KeyPlace(doc) + 1].kind == Alias && BlockPath(doc) == Some(p)
    requires b.kind == Mapping && LabelOf(b) == LabelOf(BlockOf(doc)) && b.anchor == BlockOf(doc).anchor
    requires AnchorsAll(b.content) <= AnchorsAll(BlockOf(doc).content)
    ensures BlockPath(doc.(content := ExchangeIn(doc.content, p, b))) == Some(p)
  {
    var i, ts := KeyPlace(doc), doc.content;
    var name, pre, after := ts[i + 1].value, ts[..i + 1], doc.(content := ExchangeIn(ts, p, b));
    LastInIsBound(pre, name, map[]);
    PathInFront(ts, i + 1, p, map[]);
    ExchangeKeepsLastIn(pre, name, b);
    ExchangeKeepsPlace(doc, p, b);
    ExchangeInFacts(ts, p, b, map[]);
    hide LastIn, KeyPlace;
    assert after.content[..i + 1] == ExchangeIn(pre, p, b) && after.content[i + 1] == ts[i + 1];
  }

  /** The scope in which the block is read. */
  function BlockScope(doc: Tree): Scope {
    match BlockPath(doc)
    case Some(p) => ScopeIn(doc.content, p, map[])
    case None => map[]
  }

  /** And that of the nodes inside it. */
  function InnerScope(doc: Tree): Scope {
    Enter(BlockOf(doc), BlockScope(doc))
  }

  lemma SeenInScope(doc: Tree)
    requires doc.kind == Mapping
    ensures Seen(doc) == Read(BlockOf(doc), BlockScope(doc)) && Seen(doc).kind == Mapping
    ensures Seen(doc).content == ReadAll(BlockOf(doc).content, InnerScope(doc))
  {
    BlockIsSeen(doc);
  }

  /** The write leaves the other nodes of the block as they are read. */
  predicate Kept(doc: Tree, field: string, value: string) {
    FieldsKept(BlockOf(doc).content, field, value, InnerScope(doc))
  }

  /** A write is seen as an edit of what was seen before, and of nothing else,
      exactly when the names of the node that it removes are not missed. */
  lemma WriteIsSeen(doc: Tree, field: string, value: string)
    requires Tidy(doc)
    ensures var after := WriteField(doc, field, value);
            && Tidy(after) && BlockOf(after) == EditBlock(BlockOf(doc), field, value)
            && (BlockPath(doc).Some? ==> BlockScope(after) == BlockScope(doc) && BlockPath(after) == BlockPath(doc))
            && (Seen(after) == EditRead(Seen(doc), field, value) <==> Kept(doc, field, value))
  {
    hide *;
    var after := WriteField(doc, field, value);
    WriteStaysTidy(doc, field, value);
    TidyIsEven(doc);
    TidyIsEven(after);
    SeenInScope(doc);
    SeenInScope(after);
    EditedSeen(doc, after, field, value);
  }

  lemma WriteStaysTidy(doc: Tree, field: string, value: string)
    requires Tidy(doc)
    ensures var after := WriteField(doc, field, value);
            && Tidy(after) && BlockOf(after) == EditBlock(BlockOf(doc), field, value)
            && (BlockPath(doc).Some? ==> BlockScope(after) == BlockScope(doc) && BlockPath(after) == BlockPath(doc))
  {
    var p := BlockAfterWrite(doc, field, value);
    EvenList(BlockOf(doc).content, field, value);
    EditedContent(BlockOf(doc), field, value);
    assert |WriteField(doc, field, value).content| % 2 == 0;
    hide EditBlock, EditList, KeyPlace, BlockPath;
  }

  lemma EditedContent(block: Tree, field: string, value: string)
    ensures EditBlock(block, field, value).content == EditList(block.content, field, value)
  {
    hide EditList;
  }

  lemma EditedSeen(doc: Tree, after: Tree, field: string, value: string)
    requires BlockOf(after) == EditBlock(BlockOf(doc), field, value)
    requires BlockPath(doc).Some? ==> BlockScope(after) == BlockScope(doc)
    requires Seen(doc) == Read(BlockOf(doc), BlockScope(doc)) && Seen(after) == Read(BlockOf(after), BlockScope(after))
    requires Seen(doc).content == ReadAll(BlockOf(doc).content, InnerScope(doc))
    requires Seen(after).content == ReadAll(BlockOf(after).content, InnerScope(after))
    ensures Seen(after) == EditRead(Seen(doc), field, value) <==> Kept(doc, field, value)
  {
    var b, e := BlockOf(doc), InnerScope(after);
    EditKeepsHead(b, field, value);
    EditedContent(b, field, value);
    HeadsRead(b, BlockScope(doc));
    HeadsRead(BlockOf(after), BlockScope(after));
    if BlockPath(doc).None? {
      assert b.content == [];
      NothingKept(field, value, e);
      NothingKept(field, value, InnerScope(doc));
    } else {
      assert e == InnerScope(doc);
    }
    hide Read, ReadAll, Seen, EditList, EditMeanings, FieldsKept, BlockPath, BlockOf, BlockScope, EditBlock;
    EditListIff(b.content, field, value, e);
  }

  lemma HeadsRead(b: Tree, s: Scope)
    requires b.kind != Alias
    ensures var m := Read(b, s); m.kind == b.kind && m.tag == b.tag && m.value == b.value
  {
  }

  /** In an empty block there is nothing to miss. */
  lemma NothingKept(field: string, value: string, e: Scope)
    ensures FieldsKept([], field, value, e) && ReadAll([], e) == []
  {
    NoPairs(Named(LabelOf, field));
  }

  lemma EvenList(ts: seq<Tree>, field: string, value: string)
    ensures |EditList(ts, field, value)| % 2 == |ts| % 2
  {
    EvenDelete(ts, field);
    hide First, Delete;
  }

  lemma EvenDelete(ts: seq<Tree>, key: string)
    ensures |Delete(ts, LabelOf, key)| % 2 == |ts| % 2
  {
    hide First;
  }

  /** What is seen of the block has its keys in the same places. */
  lemma SeenKeys(doc: Tree, key: string)
    requires doc.kind == Mapping
    ensures |Seen(doc).content| == |BlockOf(doc).content|
    ensures Visible(Seen(doc).content, LabelRead, key) <==> Visible(BlockOf(doc).content, LabelOf, key)
  {
    SeenInScope(doc);
    var ts, e := BlockOf(doc).content, InnerScope(doc);
    ReadKeepsSearch(ts, e, key);
    hide First, Seen, ReadAll;
    var i := First(ts, Named(LabelOf, key));
    if i >= 0 {
      ReadAt(ts, i, e);
    }
  }

  /** What a write leaves to be read, when it keeps the other nodes of the block:
      the written field, if its key is visible, and every other field as it was. */
  lemma WriteEffect(doc: Tree, field: string, value: string)
    requires Tidy(doc) && Kept(doc, field, value)
    ensures var after := WriteField(doc, field, value);
            && (forall other | other != field :: ReadField(after, other) == ReadField(doc, other))
            && (value != "" ==>
                  ReadField(after, field) ==
                    if Visible(BlockOf(doc).content, LabelOf, field) then value else ReadField(doc, field))
            && (value == "" && Lone(BlockOf(doc).content, field) ==> ReadField(after, field) == "")
  {
    var after := WriteField(doc, field, value);
    WriteIsSeen(doc, field, value);
    SeenInScope(doc);
    SeenKeys(doc, field);
    FieldsAreSeen(after, field);
    FieldsAreSeen(doc, field);
    EditedField(Seen(doc), field, value);
    LoneIsSeen(doc, field);
    hide *;
    forall other | other != field ensures ReadField(after, other) == ReadField(doc, other) {
      FieldsAreSeen(after, other);
      FieldsAreSeen(doc, other);
      EditedOther(Seen(doc), field, value, other);
    }
  }

  lemma NamesOfSlice(ts: seq<Tree>, j: nat, k: nat, m: nat)
    requires j <= k <= m <= |ts|
    ensures AnchorsAll(ts[k..m]) <= AnchorsAll(ts[j..m])
  {
    assert ts[j..m] == ts[j..k] + ts[k..m];
    NamesOfConcat(ts[j..k], ts[k..m]);
  }

  /** The key occurs at most once, and as a scalar. */
  predicate Lone(content: seq<Tree>, key: string) {
    var i := First(content, Named(LabelOf, key));
    i < 0 || (content[i].kind == Scalar && First(content[i + 2..], Named(LabelOf, key)) < 0)
  }

  lemma LoneReads(ts: seq<Tree>, e: Scope, key: string)
    requires Lone(ts, key)
    ensures Find(Delete(ReadAll(ts, e), LabelRead, key), LabelRead, key) == None
  {
    var i, ms := First(ts, Named(LabelOf, key)), ReadAll(ts, e);
    DeleteThenFind(ms, LabelRead, key);
    ReadKeepsSearch(ts, e, key);
    hide First, ReadAll, AfterAll;
    if i >= 0 {
      var pre, post := ts[..i + 2], ts[i + 2..];
      assert ts == pre + post;
      ReadConcat(pre, post, e);
      assert ms[i + 2..] == ReadAll(post, AfterAll(pre, e));
      ReadKeepsSearch(post, AfterAll(pre, e), key);
      NoNameNoScalar(post, LabelOf, key);
    }
  }

  lemma LoneIsSeen(doc: Tree, key: string)
    requires doc.kind == Mapping
    ensures Lone(BlockOf(doc).content, key) ==> Lookup(EditRead(Seen(doc), key, ""), key) == None
  {
    SeenInScope(doc);
    hide Lone, Find, Delete, ReadAll, Seen;
    if Lone(BlockOf(doc).content, key) {
      LoneReads(BlockOf(doc).content, InnerScope(doc), key);
    }
  }

  lemma EditedField(block: Meaning, field: string, value: string)
    requires block.kind == Mapping && |block.content| % 2 == 0
    ensures value != "" ==>
              FieldIn(EditRead(block, field, value), field) ==
                if Visible(block.content, LabelRead, field) then value else FieldIn(block, field)
    ensures value == "" && Lookup(EditRead(block, field, value), field) == None ==>
              FieldIn(EditRead(block, field, value), field) == ""
  {
    hide First, Find, Upsert, Delete;
    FindAfterUpsert(block.content, LabelRead, field, Meaning(Scalar, "!!str", field, []),
                    Meaning(Scalar, FieldTree(field, value).tag, value, []));
  }

  lemma EditedOther(block: Meaning, field: string, value: string, other: string)
    requires block.kind == Mapping && |block.content| % 2 == 0 && other != field
    ensures FieldIn(EditRead(block, field, value), other) == FieldIn(block, other)
  {
    hide First, Find, Upsert, Delete;
    DeleteKeepsOther(block.content, LabelRead, field, other);
    UpsertKeepsOther(block.content, LabelRead, field, Meaning(Scalar, "!!str", field, []),
                     Meaning(Scalar, FieldTree(field, value).tag, value, []), other);
  }

  // ------------------------------------------------- one field after the write

  /** The text of a field's value as it is read. */
  function HeadValue(m: Meaning): string {
    if Target(m).kind == Scalar then Target(m).value else ""
  }

  function FieldInList(ms: seq<Meaning>, field: string): string {
    match Find(ms, LabelRead, field)
    case Some(v) => HeadValue(v)
    case None => ""
  }

  /** The text that a name stands for in a scope. */
  function NameValue(s: Scope, name: string): string {
    if name in s && s[name].kind == Scalar then s[name].value else ""
  }

  /** The value is an alias of one of the removed nodes: behind them, and not given
      again in between. */
  predicate AliasOf(v: Tree, removed: seq<Tree>, between: seq<Tree>) {
    v.kind == Alias && v.value in AnchorsAll(removed) && v.value !in AnchorsAll(between)
  }

  /** What another field will read as when a field is written: what it reads as now,
      unless it is an alias of the node that the write removes; then what that name
      stood for before the node. */
  function LaterIn(ts: seq<Tree>, field: string, value: string, other: string, e: Scope): string {
    var j, m := First(ts, Named(LabelOf, field)), First(ts, ScalarNamed(LabelOf, other));
    if m < 0 then ""
    else
      var k := if value == "" then j else j + 1;
      if 0 <= j < m && AliasOf(ts[m + 1], ts[k..j + 2], ts[j + 2..m + 1])
      then NameValue(AfterAll(ts[..k], e), ts[m + 1].value)
      else HeadValue(Read(ts[m + 1], AfterAll(ts[..m + 1], e)))
  }

  /** A value behind some nodes, with others removed before them. */
  lemma ReadBehind(v: Tree, removed: seq<Tree>, between: seq<Tree>, s: Scope)
    ensures HeadValue(Read(v, AfterAll(between, s))) ==
            if AliasOf(v, removed, between) then NameValue(s, v.value)
            else HeadValue(Read(v, AfterAll(between, AfterAll(removed, s))))
  {
    var t := AfterAll(removed, s);
    if v.kind != Alias {
      HeadsRead(v, AfterAll(between, s));
      HeadsRead(v, AfterAll(between, t));
    } else {
      AliasHeadValue(v, AfterAll(between, s));
      AliasHeadValue(v, AfterAll(between, t));
      if v.value in AnchorsAll(between) {
        NamedHead(between, v.value, s, t);
      } else {
        AfterAllScope(between, s);
        AfterAllScope(between, t);
        AfterAllScope(removed, s);
        assert Same(AfterAll(between, s), s, v.value) && Same(AfterAll(between, t), t, v.value);
        assert v.value !in AnchorsAll(removed) ==> Same(t, s, v.value);
      }
    }
    hide AfterAll, AnchorsAll, Read;
  }

  lemma AliasHeadValue(v: Tree, s: Scope)
    requires v.kind == Alias
    ensures HeadValue(Read(v, s)) == NameValue(s, v.value)
  {
  }

  /** The node that a name goes to looks the same in every scope. */
  lemma NamedHead(ts: seq<Tree>, name: string, s: Scope, t: Scope)
    requires name in AnchorsAll(ts)
    ensures NameValue(AfterAll(ts, s), name) == NameValue(AfterAll(ts, t), name)
  {
    NoEmptyName(ts);
    LastInIsBound(ts, name, s);
    LastInIsBound(ts, name, t);
    hide AfterAll, AnchorsAll, LastIn, Read;
    var p := LastIn(ts, name).value;
    HeadsRead(AtIn(ts, p), ScopeIn(ts, p, s));
    HeadsRead(AtIn(ts, p), ScopeIn(ts, p, t));
  }

  /** Behind a node that was exchanged for a nameless scalar. */
  lemma ReadAfterReplace(ts: seq<Tree>, k: nat, w: Tree, m: nat, e: Scope)
    requires k < m < |ts| && w == ScalarTree(w.tag, w.value)
    ensures HeadValue(Read(ts[m], AfterAll(ts[k := w][..m], e))) ==
            if AliasOf(ts[m], ts[k..k + 1], ts[k + 1..m]) then NameValue(AfterAll(ts[..k], e), ts[m].value)
            else HeadValue(Read(ts[m], AfterAll(ts[..m], e)))
  {
    var pre, b, s := ts[..k], ts[k + 1..m], AfterAll(ts[..k], e);
    ScalarScope(w.tag, w.value, s);
    hide *;
    assert ts[k := w][..m] == pre + [w] + b && ts[..m] == pre + ts[k..k + 1] + b;
    ReadConcat(pre + [w], b, e);
    ReadSnoc(pre, w, e);
    ReadConcat(pre + ts[k..k + 1], b, e);
    ReadConcat(pre, ts[k..k + 1], e);
    ReadBehind(ts[m], ts[k..k + 1], b, s);
  }

  /** Behind a pair that was removed. */
  lemma ReadAfterDrop(ts: seq<Tree>, j: nat, m: nat, e: Scope)
    requires j + 2 <= m < |ts|
    ensures HeadValue(Read(ts[m], AfterAll((ts[..j] + ts[j + 2..])[..m - 2], e))) ==
            if AliasOf(ts[m], ts[j..j + 2], ts[j + 2..m]) then NameValue(AfterAll(ts[..j], e), ts[m].value)
            else HeadValue(Read(ts[m], AfterAll(ts[..m], e)))
  {
    var pre, b := ts[..j], ts[j + 2..m];
    hide *;
    assert (ts[..j] + ts[j + 2..])[..m - 2] == pre + b && ts[..m] == pre + ts[j..j + 2] + b;
    ReadConcat(pre, b, e);
    ReadConcat(pre + ts[j..j + 2], b, e);
    ReadConcat(pre, ts[j..j + 2], e);
    ReadBehind(ts[m], ts[j..j + 2], b, AfterAll(pre, e));
  }

  lemma FieldAtPlace(ts: seq<Tree>, field: string, e: Scope)
    ensures var m := First(ts, ScalarNamed(LabelOf, field));
            FieldInList(ReadAll(ts, e), field) ==
              if m < 0 then "" else HeadValue(Read(ts[m + 1], AfterAll(ts[..m + 1], e)))
  {
    ReadKeepsSearch(ts, e, field);
    var m := First(ts, ScalarNamed(LabelOf, field));
    if m >= 0 {
      ReadAt(ts, m + 1, e);
    }
    hide First, ReadAll, Read, AfterAll;
  }

  /** Where a field is found after the edit of another one, or of a hidden one. */
  lemma PlaceAfterEdit(ts: seq<Tree>, field: string, value: string, other: string)
    requires |ts| % 2 == 0 && (other != field || (value != "" && !Visible(ts, LabelOf, field)))
    ensures var j, m := First(ts, Named(LabelOf, field)), First(ts, ScalarNamed(LabelOf, other));
            && (m >= 0 ==> m != j)
            && First(EditList(ts, field, value), ScalarNamed(LabelOf, other)) == if value == "" && 0 <= j < m then m - 2 else m
  {
    hide *;
    OtherPlace(ts, field, value, other);
    var j := First(ts, Named(LabelOf, field));
    if j < 0 {
      PlaceAfterAppend(ts, field, value, other);
    } else if value != "" {
      PlaceAfterReplace(ts, field, value, other);
    } else {
      PlaceAfterDrop(ts, field, other);
    }
  }

  lemma PlaceAfterAppend(ts: seq<Tree>, field: string, value: string, other: string)
    requires |ts| % 2 == 0 && other != field && First(ts, Named(LabelOf, field)) < 0
    ensures First(EditList(ts, field, value), ScalarNamed(LabelOf, other)) == First(ts, ScalarNamed(LabelOf, other))
  {
    var k, v := ScalarTree("!!str", field), FieldTree(field, value);
    EditShape(ts, field, value);
    hide First, EditList;
    HitsAreTests(k, other);
    PlaceAppended(ts, k, v, ScalarNamed(LabelOf, other));
  }

  lemma PlaceAfterReplace(ts: seq<Tree>, field: string, value: string, other: string)
    requires value != "" && First(ts, Named(LabelOf, field)) >= 0
    ensures First(EditList(ts, field, value), ScalarNamed(LabelOf, other)) == First(ts, ScalarNamed(LabelOf, other))
  {
    EditShape(ts, field, value);
    hide First, EditList;
    FirstOfUpdate(ts, ScalarNamed(LabelOf, other), First(ts, Named(LabelOf, field)) + 1, FieldTree(field, value));
  }

  lemma PlaceAfterDrop(ts: seq<Tree>, field: string, other: string)
    requires other != field && First(ts, Named(LabelOf, field)) >= 0
    ensures var j, m := First(ts, Named(LabelOf, field)), First(ts, ScalarNamed(LabelOf, other));
            First(EditList(ts, field, ""), ScalarNamed(LabelOf, other)) == if j < m then m - 2 else m
  {
    var j := First(ts, Named(LabelOf, field));
    EditShape(ts, field, "");
    hide First, EditList;
    HitsAreTests(ts[j], other);
    PlaceDropped(ts, j, ScalarNamed(LabelOf, other));
  }

  /** The edited list. */
  lemma EditShape(ts: seq<Tree>, field: string, value: string)
    ensures var j, after := First(ts, Named(LabelOf, field)), EditList(ts, field, value);
            && (j >= 0 ==> j % 2 == 0 && j + 1 < |ts| && ts[j].value == field)
            && after == if j < 0 then (if value == "" then ts else ts + [ScalarTree("!!str", field), FieldTree(field, value)])
                        else if value == "" then ts[..j] + ts[j + 2..] else ts[j + 1 := FieldTree(field, value)]
  {
    var j := First(ts, Named(LabelOf, field));
    if j >= 0 {
      HitsAreTests(ts[j], field);
    }
    hide First;
  }

  /** The place of another field, or of a hidden one, is another place. */
  lemma OtherPlace(ts: seq<Tree>, field: string, value: string, other: string)
    requires |ts| % 2 == 0 && (other != field || (value != "" && !Visible(ts, LabelOf, field)))
    ensures var j, m := First(ts, Named(LabelOf, field)), First(ts, ScalarNamed(LabelOf, other));
            && (m >= 0 ==> m != j && m % 2 == 0 && m + 1 < |ts|)
            && (other == field ==> j >= 0)
  {
    var j, m := First(ts, Named(LabelOf, field)), First(ts, ScalarNamed(LabelOf, other));
    if m >= 0 {
      HitsAreTests(ts[m], other);
    }
    if j >= 0 {
      HitsAreTests(ts[j], field);
    }
    hide First;
  }

  lemma PlaceAppended(ts: seq<Tree>, k: Tree, v: Tree, hit: Tree -> bool)
    requires |ts| % 2 == 0 && !hit(k)
    ensures First(ts + [k, v], hit) == First(ts, hit)
  {
    hide First;
    FirstOfConcat(ts, [k, v], hit);
    FirstOfPair(k, v, [], hit);
    NoPairs(hit);
    assert [k, v] + [] == [k, v];
  }

  lemma PlaceDropped(ts: seq<Tree>, j: nat, hit: Tree -> bool)
    requires j % 2 == 0 && j + 1 < |ts| && !hit(ts[j])
    ensures var m := First(ts, hit);
            m != j && First(ts[..j] + ts[j + 2..], hit) == if j < m then m - 2 else m
  {
    hide First;
    var pre, k, v, post := ts[..j], ts[j], ts[j + 1], ts[j + 2..];
    assert ts == pre + ([k, v] + post);
    FirstOfConcat(pre, post, hit);
    FirstOfConcat(pre, [k, v] + post, hit);
    FirstOfPair(k, v, post, hit);
  }

  /** The field after the edit, exactly. */
  lemma FieldAfterEdit(ts: seq<Tree>, field: string, value: string, other: string, e: Scope)
    requires |ts| % 2 == 0 && (other != field || (value != "" && !Visible(ts, LabelOf, field)))
    ensures FieldInList(ReadAll(EditList(ts, field, value), e), other) == LaterIn(ts, field, value, other, e)
  {
    hide *;
    var j, m := First(ts, Named(LabelOf, field)), First(ts, ScalarNamed(LabelOf, other));
    OtherPlace(ts, field, value, other);
    PlaceAfterEdit(ts, field, value, other);
    FieldAtPlace(EditList(ts, field, value), other, e);
    LaterMeans(ts, field, value, other, e);
    if m >= 0 && (j < 0 || m < j) {
      FieldBefore(ts, field, value, m);
      AliasBehind(ts, field, value, other, e);
    } else if m >= 0 && value == "" {
      FieldBehindDrop(ts, field, j, m, e);
    } else if m >= 0 {
      FieldBehindReplace(ts, field, value, j, m, e);
    }
  }

  lemma FieldBefore(ts: seq<Tree>, field: string, value: string, m: nat)
    requires var j := First(ts, Named(LabelOf, field)); m + 1 < |ts| && m % 2 == 0 && (j < 0 || m < j)
    ensures var after := EditList(ts, field, value);
            m + 1 < |after| && after[m + 1] == ts[m + 1] && after[..m + 1] == ts[..m + 1]
  {
    hide *;
    EditShape(ts, field, value);
  }

  lemma FieldBehindDrop(ts: seq<Tree>, field: string, j: nat, m: nat, e: Scope)
    requires First(ts, Named(LabelOf, field)) == j && j + 2 <= m && m + 1 < |ts|
    ensures var after := EditList(ts, field, "");
            && m - 1 < |after|
            && HeadValue(Read(after[m - 1], AfterAll(after[..m - 1], e))) ==
               if AliasOf(ts[m + 1], ts[j..j + 2], ts[j + 2..m + 1]) then NameValue(AfterAll(ts[..j], e), ts[m + 1].value)
               else HeadValue(Read(ts[m + 1], AfterAll(ts[..m + 1], e)))
  {
    hide *;
    EditShape(ts, field, "");
    DroppedAt(ts, j, m);
    ReadAfterDrop(ts, j, m + 1, e);
  }

  lemma DroppedAt(ts: seq<Tree>, j: nat, m: nat)
    requires j + 2 <= m && m + 1 < |ts|
    ensures var after := ts[..j] + ts[j + 2..]; |after| == |ts| - 2 && after[m - 1] == ts[m + 1]
  {
  }

  lemma FieldBehindReplace(ts: seq<Tree>, field: string, value: string, j: nat, m: nat, e: Scope)
    requires First(ts, Named(LabelOf, field)) == j && j < m && m + 1 < |ts| && value != ""
    ensures var after := EditList(ts, field, value);
            && |after| == |ts|
            && HeadValue(Read(after[m + 1], AfterAll(after[..m + 1], e))) ==
               if AliasOf(ts[m + 1], ts[j + 1..j + 2], ts[j + 2..m + 1]) then NameValue(AfterAll(ts[..j + 1], e), ts[m + 1].value)
               else HeadValue(Read(ts[m + 1], AfterAll(ts[..m + 1], e)))
  {
    hide *;
    EditShape(ts, field, value);
    PlainField(field, value);
    ReadAfterReplace(ts, j + 1, FieldTree(field, value), m + 1, e);
  }

  lemma PlainField(field: string, value: string)
    ensures var v := FieldTree(field, value); v == ScalarTree(v.tag, v.value)
  {
  }

  lemma AliasBehind(ts: seq<Tree>, field: string, value: string, other: string, e: Scope)
    requires var j, m := First(ts, Named(LabelOf, field)), First(ts, ScalarNamed(LabelOf, other)); 0 <= m && (j < 0 || m < j)
    ensures var m := First(ts, ScalarNamed(LabelOf, other));
            LaterIn(ts, field, value, other, e) == HeadValue(Read(ts[m + 1], AfterAll(ts[..m + 1], e)))
  {
    hide First, HeadValue, Read, AfterAll;
  }

  lemma LaterMeans(ts: seq<Tree>, field: string, value: string, other: string, e: Scope)
    ensures var j, m := First(ts, Named(LabelOf, field)), First(ts, ScalarNamed(LabelOf, other));
            && (m < 0 ==> LaterIn(ts, field, value, other, e) == "")
            && (0 <= j < m && value == "" ==>
                  LaterIn(ts, field, value, other, e) ==
                    if AliasOf(ts[m + 1], ts[j..j + 2], ts[j + 2..m + 1]) then NameValue(AfterAll(ts[..j], e), ts[m + 1].value)
                    else HeadValue(Read(ts[m + 1], AfterAll(ts[..m + 1], e))))
            && (0 <= j < m && value != "" ==>
                  LaterIn(ts, field, value, other, e) ==
                    if AliasOf(ts[m + 1], ts[j + 1..j + 2], ts[j + 2..m + 1]) then NameValue(AfterAll(ts[..j + 1], e), ts[m + 1].value)
                    else HeadValue(Read(ts[m + 1], AfterAll(ts[..m + 1], e))))
  {
    hide First, HeadValue, Read, AfterAll, AliasOf, NameValue;
  }

  function Later(doc: Tree, field: string, value: string, other: string): string {
    LaterIn(BlockOf(doc).content, field, value, other, InnerScope(doc))
  }

  /** What any other field, or a hidden one, reads as after a write, on any document
      and with any names. */
  lemma FieldAfterWrite(doc: Tree, field: string, value: string, other: string)
    requires Tidy(doc) && (other != field || (value != "" && !Visible(BlockOf(doc).content, LabelOf, field)))
    ensures ReadField(WriteField(doc, field, value), other) == Later(doc, field, value, other)
  {
    hide *;
    var after := WriteField(doc, field, value);
    WriteStaysTidy(doc, field, value);
    TidyIsEven(doc);
    TidyIsEven(after);
    EditedContent(BlockOf(doc), field, value);
    SeenInScope(after);
    FieldsAreSeen(after, other);
    FieldInSeen(after, other);
    FieldAfterEdit(BlockOf(doc).content, field, value, other, InnerScope(after));
    LaterInPlace(doc, after, field, value, other);
  }

  lemma FieldInSeen(doc: Tree, field: string)
    requires Seen(doc).kind == Mapping
    ensures FieldIn(Seen(doc), field) == FieldInList(Seen(doc).content, field)
  {
    hide Seen, Find;
  }

  lemma LaterInPlace(doc: Tree, after: Tree, field: string, value: string, other: string)
    requires BlockOf(after) == EditBlock(BlockOf(doc), field, value)
    requires BlockPath(doc).Some? ==> BlockScope(after) == BlockScope(doc)
    ensures LaterIn(BlockOf(doc).content, field, value, other, InnerScope(after)) == Later(doc, field, value, other)
  {
    EditKeepsHead(BlockOf(doc), field, value);
    if BlockPath(doc).None? {
      NoPairs(ScalarNamed(LabelOf, other));
      assert BlockOf(doc).content == [];
    } else {
      assert InnerScope(after) == InnerScope(doc);
    }
    hide First, LaterIn;
  }

  // ------------------------------------------------------------- other keys

  /** Every node of the document but the value of usagePing is read as before. */
  predicate OthersKept(doc: Tree, after: Tree) {
    && |doc.content| <= |after.content|
    && forall j | 0 <= j < |doc.content| && (KeyPlace(doc) < 0 || j != KeyPlace(doc) + 1) ::
         ReadAll(after.content, map[])[j] == ReadAll(doc.content, map[])[j]
  }

  /** Replacing the value of usagePing by any other node keeps the others exactly
      when both leave the same nodes under every name that is taken later on. */
  lemma UpdateKeepsOthersIff(doc: Tree, b: Tree)
    requires KeyPlace(doc) >= 0
    ensures var i := KeyPlace(doc);
            var s := AfterAll(doc.content[..i + 1], map[]);
            OthersKept(doc, doc.(content := doc.content[i + 1 := b]))
            <==> Agree(After(doc.content[i + 1], s), After(b, s), FreeAll(doc.content[i + 2..]))
  {
    var ts, k := doc.content, KeyPlace(doc) + 1;
    var s, post := AfterAll(ts[..k], map[]), ts[k + 1..];
    hide *;
    ReadAround(ts, k, ts[k], map[]);
    ReadAround(ts, k, b, map[]);
    assert ts[k := ts[k]] == ts;
    SameReadingIff(post, After(ts[k], s), After(b, s));
    var pre, x, y := ReadAll(ts[..k], map[]), Read(ts[k], s), Read(b, s);
    SameAround(pre, x, y, ReadAll(post, After(ts[k], s)), ReadAll(post, After(b, s)));
    OthersKeptMeans(doc, doc.(content := ts[k := b]));
  }

  lemma OthersKeptMeans(doc: Tree, after: Tree)
    requires KeyPlace(doc) >= 0 && |after.content| == |doc.content|
    ensures var k, now, was := KeyPlace(doc) + 1, ReadAll(after.content, map[]), ReadAll(doc.content, map[]);
            OthersKept(doc, after) <==> now[..k] == was[..k] && now[k + 1..] == was[k + 1..]
  {
    hide KeyPlace, ReadAll;
    AllButOne(ReadAll(after.content, map[]), ReadAll(doc.content, map[]), KeyPlace(doc) + 1);
  }

  lemma SameAround<T>(pre: seq<T>, x: T, y: T, c: seq<T>, d: seq<T>)
    ensures var was, now := pre + [x] + c, pre + [y] + d;
            now[..|pre|] == was[..|pre|] && (now[|pre| + 1..] == was[|pre| + 1..] <==> c == d)
  {
    assert (pre + [x] + c)[|pre| + 1..] == c && (pre + [y] + d)[|pre| + 1..] == d;
  }

  lemma AllButOne<T>(a: seq<T>, b: seq<T>, k: nat)
    requires |a| == |b| && k < |a|
    ensures (forall j | 0 <= j < |a| && j != k :: a[j] == b[j]) <==> a[..k] == b[..k] && a[k + 1..] == b[k + 1..]
  {
    if a[..k] == b[..k] && a[k + 1..] == b[k + 1..] {
      forall j | 0 <= j < |a| && j != k ensures a[j] == b[j] {
        if j < k {
          assert a[..k][j] == b[..k][j];
        } else {
          assert a[k + 1..][j - k - 1] == b[k + 1..][j - k - 1];
        }
      }
    }
  }

  /** A write keeps every other node of the document exactly under these conditions.
      A block given in place must leave the same nodes as before under every name
      that is taken behind it: its own name and the names of its fields. A block
      reached through an alias must moreover be read as before, since the key that
      holds it is another one. A value that is not a mapping loses its names. */
  lemma WriteKeepsOthersIff(doc: Tree, field: string, value: string)
    requires Tidy(doc)
    ensures var i, after := KeyPlace(doc), WriteField(doc, field, value);
            var b, c, s := BlockOf(doc), EditBlock(BlockOf(doc), field, value), BlockScope(doc);
            OthersKept(doc, after) <==>
              match BlockPath(doc)
              case Some(p) =>
                if p == [i + 1] then Agree(After(b, s), After(c, s), FreeAll(doc.content[i + 2..]))
                else Seen(after) == Seen(doc) && Agree(After(c, s), After(b, s), TakenBehindIn(doc.content, p))
              case None =>
                var t := AfterAll(doc.content[..i + 1], map[]);
                i < 0 || Agree(After(doc.content[i + 1], t), t, FreeAll(doc.content[i + 2..]))
  {
    var i, b := KeyPlace(doc), EditBlock(BlockOf(doc), field, value);
    hide ReadAll, AfterAll, After, Read, FreeAll, TakenBehindIn, KeyPlace, Seen, EditBlock, Tidy;
    match BlockPath(doc)
    case Some(p) =>
      if p == [i + 1] {
        OneStep(doc.content, i + 1, b);
        UpdateKeepsOthersIff(doc, b);
      } else {
        AliasedWriteIff(doc, field, value);
      }
    case None =>
      if i >= 0 {
        NewBlockScope(field, value, AfterAll(doc.content[..i + 1], map[]));
        UpdateKeepsOthersIff(doc, b);
      } else {
        ReadConcat(doc.content, [KEY, b], map[]);
      }
  }

  lemma NewBlockScope(field: string, value: string, s: Scope)
    ensures After(EditBlock(EMPTY_BLOCK, field, value), s) == s
  {
    EditNames([], field, value);
    assert AnchorsAll([]) == {};
    AfterNameless(EditBlock(EMPTY_BLOCK, field, value), s);
  }

  /** For a block given in place whose fields have no names that is: exactly when
      nothing that is read of the block changes, or nothing behind it is an alias of
      it. */
  lemma UnnamedWriteIff(doc: Tree, field: string, value: string)
    requires Tidy(doc) && KeyPlace(doc) >= 0 && BlockPath(doc) == Some([KeyPlace(doc) + 1])
    requires AnchorsAll(BlockOf(doc).content) == {}
    ensures var after := WriteField(doc, field, value);
            OthersKept(doc, after) <==>
              Seen(after) == Seen(doc) || BlockOf(doc).anchor == ""
              || BlockOf(doc).anchor !in FreeAll(doc.content[KeyPlace(doc) + 2..])
  {
    var b, c, s := BlockOf(doc), EditBlock(BlockOf(doc), field, value), BlockScope(doc);
    WriteKeepsOthersIff(doc, field, value);
    WriteIsSeen(doc, field, value);
    EditNames(b.content, field, value);
    EditKeepsHead(b, field, value);
    SeenInScope(doc);
    SeenInScope(WriteField(doc, field, value));
    AfterNameless(b, s);
    AfterNameless(c, s);
    hide *;
    RebindIff(s, b.anchor, Read(b, s), Read(c, s), FreeAll(doc.content[KeyPlace(doc) + 2..]));
  }

  lemma RebindIff(s: Scope, name: string, x: Meaning, y: Meaning, names: set<string>)
    ensures Agree(if name == "" then s else s[name := x], if name == "" then s else s[name := y], names)
            <==> x == y || name == "" || name !in names
  {
    var a, b := s[name := x], s[name := y];
    assert a[name] == x && b[name] == y;
    if name in names && x != y {
      assert !Same(a, b, name);
    }
  }

  lemma OneStep(ts: seq<Tree>, k: nat, b: Tree)
    requires k < |ts|
    ensures PathIn(ts, [k]) && AtIn(ts, [k]) == ts[k] && ExchangeIn(ts, [k], b) == ts[k := b]
    ensures ScopeIn(ts, [k], map[]) == AfterAll(ts[..k], map[])
  {
    var p := [k];
    assert p[1..] == [];
  }

  /** A write through an alias changes the node that the alias stands for. */
  lemma AliasedWriteIff(doc: Tree, field: string, value: string)
    requires Tidy(doc) && BlockPath(doc).Some? && BlockPath(doc) != Some([KeyPlace(doc) + 1])
    ensures var after, p := WriteField(doc, field, value), BlockPath(doc).value;
            var b, c, s := BlockOf(doc), EditBlock(BlockOf(doc), field, value), BlockScope(doc);
            OthersKept(doc, after) <==>
              Seen(after) == Seen(doc) && Agree(After(c, s), After(b, s), TakenBehindIn(doc.content, p))
  {
    var p, b, c := BlockPath(doc).value, BlockOf(doc), EditBlock(BlockOf(doc), field, value);
    var ts, s, after := doc.content, BlockScope(doc), WriteField(doc, field, value);
    WriteIsSeen(doc, field, value);
    SeenInScope(doc);
    SeenInScope(after);
    EditNames(b.content, field, value);
    EditKeepsHead(b, field, value);
    assert after.content == ExchangeIn(ts, p, c) && BlockOf(after) == c;
    assert AtIn(ts, p) == b && ScopeIn(ts, p, map[]) == s;
    AliasedBlock(doc);
    hide *;
    ExchangeIff(ts, p, c, map[]);
    if OthersKept(doc, after) {
      AliasReadsAlike(doc, p, c);
      OthersKeptMeansAll(doc, after);
    } else {
      AllKeptMeansOthers(doc, after);
    }
  }

  lemma AllKeptMeansOthers(doc: Tree, after: Tree)
    ensures ReadAll(after.content, map[]) == ReadAll(doc.content, map[]) ==> OthersKept(doc, after)
  {
    hide ReadAll;
    assert |ReadAll(after.content, map[])| == |after.content| && |ReadAll(doc.content, map[])| == |doc.content|;
  }

  lemma OthersKeptMeansAll(doc: Tree, after: Tree)
    requires OthersKept(doc, after) && KeyPlace(doc) >= 0 && |after.content| == |doc.content|
    requires ReadAll(after.content, map[])[KeyPlace(doc) + 1] == ReadAll(doc.content, map[])[KeyPlace(doc) + 1]
    ensures ReadAll(after.content, map[]) == ReadAll(doc.content, map[])
  {
    hide ReadAll, KeyPlace;
  }

  /** How the alias leads to the block. */
  lemma AliasedBlock(doc: Tree)
    requires BlockPath(doc).Some? && BlockPath(doc) != Some([KeyPlace(doc) + 1])
    ensures var i, p := KeyPlace(doc), BlockPath(doc).value;
            && 0 <= i < |doc.content| - 1 && doc.content[i + 1].kind == Alias && doc.content[i + 1].value != ""
            && LastIn(doc.content[..i + 1], doc.content[i + 1].value) == Some(p) && p[0] <= i
            && AtIn(doc.content, p) == AtIn(doc.content[..i + 1], p) && AtIn(doc.content, p).kind == Mapping
            && doc.content[i + 1].value !in AnchorsAll(AtIn(doc.content, p).content)
            && AtIn(doc.content, p).anchor == doc.content[i + 1].value
  {
    var i, p := KeyPlace(doc), BlockPath(doc).value;
    LastInIsBound(doc.content[..i + 1], doc.content[i + 1].value, map[]);
    PathInFront(doc.content, i + 1, p, map[]);
  }

  /** When all others are read as before, so is the alias. */
  lemma AliasReadsAlike(doc: Tree, p: Path, c: Tree)
    requires BlockPath(doc) == Some(p) && BlockPath(doc) != Some([KeyPlace(doc) + 1])
    requires OthersKept(doc, doc.(content := ExchangeIn(doc.content, p, c)))
    requires c.kind == Mapping && c.anchor == BlockOf(doc).anchor && AnchorsAll(c.content) <= AnchorsAll(BlockOf(doc).content)
    ensures KeyPlace(doc) >= 0
    ensures ReadAll(ExchangeIn(doc.content, p, c), map[])[KeyPlace(doc) + 1] == ReadAll(doc.content, map[])[KeyPlace(doc) + 1]
  {
    AliasedBlock(doc);
    var ts, i, after := doc.content, KeyPlace(doc), ExchangeIn(doc.content, p, c);
    var pre, v := ts[..i + 1], ts[i + 1];
    assert BlockOf(doc) == AtIn(ts, p);
    assert ReadAll(after, map[])[p[0]] == ReadAll(ts, map[])[p[0]];
    hide KeyPlace, ReadAll, BlockPath, OthersKept, BlockOf, LastIn, AfterAll, Read, After, ScopeIn, AtIn, ExchangeIn;
    NoticedAt(ts, p, c);
    PathInFront(ts, i + 1, p, map[]);
    ExchangeKeepsLastIn(pre, v.value, c);
    ExchangeInFacts(pre, p, c, map[]);
    AliasReads(pre, v);
    AliasReads(ExchangeIn(pre, p, c), v);
    assert after[..i + 1] == ExchangeIn(pre, p, c);
    assert after[i + 1] == v;
    ReadAt(ts, i + 1, map[]);
    ReadAt(after, i + 1, map[]);
    AliasHead(v, AfterAll(pre, map[]));
    AliasHead(v, AfterAll(after[..i + 1], map[]));
  }

  lemma NoticedAt(ts: seq<Tree>, p: Path, c: Tree)
    requires PathIn(ts, p) && ReadAll(ExchangeIn(ts, p, c), map[])[p[0]] == ReadAll(ts, map[])[p[0]]
    ensures Read(c, ScopeIn(ts, p, map[])) == Read(AtIn(ts, p), ScopeIn(ts, p, map[]))
  {
    var after := ExchangeIn(ts, p, c);
    assert after[..p[0]] == ts[..p[0]];
    hide ReadAll, AfterAll, Read, After;
    ReadAt(ts, p[0], map[]);
    ReadAt(after, p[0], map[]);
    ExchangeNoticed(ts[p[0]], p[1..], c, AfterAll(ts[..p[0]], map[]));
  }

  lemma AliasHead(v: Tree, s: Scope)
    requires v.kind == Alias
    ensures Read(v, s) == Meaning(Alias, v.tag, v.value, Read(v, s).content)
  {
  }

  /** Where the others are kept, every other key reads as it did. */
  lemma OtherKeysRead(doc: Tree, field: string, value: string, key: string)
    requires Tidy(doc) && OthersKept(doc, WriteField(doc, field, value)) && key != "usagePing"
    ensures Lookup(Read(WriteField(doc, field, value), map[]), key) == Lookup(Read(doc, map[]), key)
  {
    var i, after := KeyPlace(doc), WriteField(doc, field, value);
    var now, was := ReadAll(after.content, map[]), ReadAll(doc.content, map[]);
    ReadDocument(doc);
    ReadDocument(after);
    if i >= 0 {
      ReadKeepsSearch(doc.content, map[], "usagePing");
      assert |after.content| == |doc.content|;
      hide ReadAll, Read, WriteField;
      assert now == was[i + 1 := now[i + 1]];
      ValueOnly(was, i, now[i + 1], key);
    } else {
      var b, s := EditBlock(BlockOf(doc), field, value), AfterAll(doc.content, map[]);
      assert after.content == doc.content + [KEY, b];
      hide ReadAll, Read, WriteField, EditBlock, AfterAll, First;
      ReadConcat(doc.content, [KEY, b], map[]);
      ReadTwo(KEY, b, s);
      ScalarReads("!!str", "usagePing", s);
      FindAfterAppend(was, LabelRead, key, Read(KEY, s), Read(b, After(KEY, s)));
    }
  }

  lemma ReadDocument(doc: Tree)
    requires doc.kind == Mapping
    ensures Read(doc, map[]).kind == Mapping && Read(doc, map[]).content == ReadAll(doc.content, map[])
  {
    assert Enter(doc, map[]) == map[];
  }

  /** Another value for one key is no change for another key. */
  lemma ValueOnly(was: seq<Meaning>, i: nat, value: Meaning, key: string)
    requires First(was, ScalarNamed(LabelRead, "usagePing")) == i && i + 1 < |was| && key != "usagePing"
    ensures Find(was[i + 1 := value], LabelRead, key) == Find(was, LabelRead, key)
  {
    FirstOfUpdate(was, ScalarNamed(LabelRead, key), i + 1, value);
  }

  /** Where delete finds the usagePing pair: a key of any kind. */
  function PairPlace(doc: Tree): (i: int)
    ensures i == -1 || 0 <= i < |doc.content| - 1
  {
    First(doc.content, Named(LabelOf, "usagePing"))
  }

  /** The document without the pair reads like the document, the pair left out. */
  predicate RestKept(doc: Tree)
    requires PairPlace(doc) >= 0
  {
    var i, was := PairPlace(doc), ReadAll(doc.content, map[]);
    ReadAll(DeleteBlock(doc).content, map[]) == was[..i] + was[i + 2..]
  }

  /** A disable keeps every other node of the document exactly when every name
      that is taken behind the removed pair meant the same before it. */
  lemma DisableKeepsOthersIff(doc: Tree)
    requires PairPlace(doc) >= 0
    ensures var i, ts := PairPlace(doc), doc.content;
            var s := AfterAll(ts[..i], map[]);
            RestKept(doc) <==> Agree(AfterAll(ts[i..i + 2], s), s, FreeAll(ts[i + 2..]))
  {
    var i, ts := PairPlace(doc), doc.content;
    var pre, pair, post := ts[..i], ts[i..i + 2], ts[i + 2..];
    assert DeleteBlock(doc).content == pre + post && ts == pre + pair + post;
    hide *;
    DropIff(pre, pair, post, map[]);
    RestKeptMeans(doc);
  }

  lemma RestKeptMeans(doc: Tree)
    requires PairPlace(doc) >= 0
    ensures var i, was := PairPlace(doc), ReadAll(doc.content, map[]);
            RestKept(doc) <==> ReadAll(DeleteBlock(doc).content, map[]) == was[..i] + was[i + 2..]
  {
  }

  /** When the names of the pair are new, that is: exactly when nothing behind the
      pair is an alias of it or of anything inside it. */
  lemma DisableNeedsNoAlias(doc: Tree)
    requires PairPlace(doc) >= 0
    requires AnchorsAll(doc.content[PairPlace(doc)..PairPlace(doc) + 2]) !! AfterAll(doc.content[..PairPlace(doc)], map[]).Keys
    ensures var i, ts := PairPlace(doc), doc.content;
            RestKept(doc) <==> AnchorsAll(ts[i..i + 2]) !! FreeAll(ts[i + 2..])
  {
    DisableKeepsOthersIff(doc);
    var i, ts := PairPlace(doc), doc.content;
    var s, pair, post := AfterAll(ts[..i], map[]), ts[i..i + 2], ts[i + 2..];
    AfterAllScope(pair, s);
    hide ReadAll, AfterAll, FreeAll, PairPlace, AnchorsAll, RestKept;
    if Agree(AfterAll(pair, s), s, FreeAll(post)) {
      assert forall n | n in FreeAll(post) :: Same(AfterAll(pair, s), s, n);
    }
  }

  /** On any document, disabling leaves no usagePing key exactly when the file did
      not hold a second one behind the pair that is removed. */
  lemma DisableClearsIff(doc: Tree)
    requires doc.kind == Mapping
    ensures var i := PairPlace(doc);
            Lookup(Read(DeleteBlock(doc), map[]), "usagePing") == None
            <==> i < 0 || First(doc.content[i + 2..], ScalarNamed(LabelOf, "usagePing")) < 0
  {
    var after := DeleteBlock(doc);
    DeleteThenFind(doc.content, LabelOf, "usagePing");
    ReadKeepsSearch(after.content, Enter(after, map[]), "usagePing");
    hide ReadAll, First;
  }

  /** A disable of a lone block whose names nobody else takes removes the block and
      nothing else. */
  lemma DisableEffect(doc: Tree, key: string)
    requires doc.kind == Mapping && PairPlace(doc) >= 0 && RestKept(doc) && key != "usagePing"
    ensures Lookup(Read(DeleteBlock(doc), map[]), key) == Lookup(Read(doc, map[]), key)
  {
    var i, was := PairPlace(doc), ReadAll(doc.content, map[]);
    assert Enter(doc, map[]) == map[] == Enter(DeleteBlock(doc), map[]);
    ReadKeepsSearch(doc.content, map[], "usagePing");
    DeleteKeepsOther(was, LabelRead, "usagePing", key);
  }

  // ------------------------------------------------------------------ consent

  const ID := "installationId"

  /** The id is stored as a plain scalar under a plain key, so that no name in the
      document has a say in what is read. */
  predicate Settled(doc: Tree) {
    match FirstPair(BlockOf(doc).content, LabelOf, ID)
    case None => false
    case Some((k, v)) => k.kind == Scalar && v.kind == Scalar && ValidId(v.value)
  }

  const WATCHED := {"enabled", ID}

  /** Neither `enabled` nor the id is an alias of a node in an endpoint pair. */
  predicate Apart(ts: seq<Tree>) {
    forall j, m | 0 <= j < m < |ts| - 1 && j % 2 == 0 && m % 2 == 0 && ts[j].value == "endpoint" && ts[m].value in WATCHED ::
      !AliasOf(ts[m + 1], ts[j..j + 2], ts[j + 2..m + 1])
  }

  /** What the promise needs of a file: usagePing occurs once at most, find can see
      the key under which an enable stores the id, and, as long as the id is not
      settled, neither it nor `enabled` is an alias into the endpoint. All else may be
      anything: other keys, other names and aliases, a block that is shared or an
      alias. */
  predicate Storable(doc: Tree) {
    && Tidy(doc) && Lone(doc.content, "usagePing") && Visible(BlockOf(doc).content, LabelOf, ID)
    && (Settled(doc) || Apart(BlockOf(doc).content))
  }

  lemma {:induction false} SameKeys(a: seq<Tree>, b: seq<Tree>, hit: Tree -> bool)
    requires |a| == |b| && forall j | 0 <= j < |a| && j % 2 == 0 :: hit(a[j]) == hit(b[j])
    ensures First(a, hit) == First(b, hit)
  {
    if |a| >= 2 {
      SameKeys(a[2..], b[2..], hit);
    }
  }

  /** A write does not touch the keys of the document. */
  lemma WriteKeepsKeys(doc: Tree, field: string, value: string)
    requires Tidy(doc) && KeyPlace(doc) >= 0
    ensures var after := WriteField(doc, field, value);
            && |after.content| == |doc.content|
            && forall j | 0 <= j < |doc.content| && j % 2 == 0 :: LabelOf(after.content[j]) == LabelOf(doc.content[j])
  {
    EditKeepsHead(BlockOf(doc), field, value);
    var b := EditBlock(BlockOf(doc), field, value);
    hide EditBlock;
    if BlockPath(doc).Some? {
      var p := BlockPath(doc).value;
      assert ExchangeIn(doc.content, p, b)[p[0]] == Exchange(doc.content[p[0]], p[1..], b);
      assert AtIn(doc.content, p) == At(doc.content[p[0]], p[1..]);
    }
  }

  lemma WriteKeepsLone(doc: Tree, field: string, value: string)
    requires Tidy(doc) && Lone(doc.content, "usagePing")
    ensures Lone(WriteField(doc, field, value).content, "usagePing")
  {
    if KeyPlace(doc) >= 0 {
      WriteKeepsKeys(doc, field, value);
      hide WriteField;
      SameKeysLone(doc.content, WriteField(doc, field, value).content, "usagePing");
    } else {
      var b := EditBlock(BlockOf(doc), field, value);
      assert WriteField(doc, field, value).content == doc.content + [KEY, b];
      hide EditBlock, WriteField;
      AppendLone(doc.content, "usagePing", KEY, b);
    }
  }

  lemma SameKeysLone(a: seq<Tree>, b: seq<Tree>, key: string)
    requires |a| == |b| && forall j | 0 <= j < |a| && j % 2 == 0 :: LabelOf(b[j]) == LabelOf(a[j])
    requires Lone(a, key)
    ensures Lone(b, key)
  {
    var hit := Named(LabelOf, key);
    SameKeys(a, b, hit);
    var i := First(a, hit);
    if i >= 0 {
      SameKeys(a[i + 2..], b[i + 2..], hit);
      assert LabelOf(b[i]) == LabelOf(a[i]);
    }
  }

  lemma AppendLone(ts: seq<Tree>, key: string, k: Tree, v: Tree)
    requires |ts| % 2 == 0 && Lone(ts, key) && First(ts, ScalarNamed(LabelOf, key)) < 0
    requires LabelOf(k) == Label(Scalar, key)
    ensures Lone(ts + [k, v], key)
  {
    var hit := Named(LabelOf, key);
    if First(ts, hit) >= 0 {
      ScalarNameFirst(ts, LabelOf, key);
    }
    FirstOfConcat(ts, [k, v], hit);
    assert (ts + [k, v])[|ts| + 2..] == [];
  }

  /** The pair of a key after an edit. */
  lemma PairAfterEdit(ts: seq<Tree>, field: string, value: string, key: string)
    requires |ts| % 2 == 0 && (value != "" || key != field)
    ensures FirstPair(EditList(ts, field, value), LabelOf, key) ==
            if key != field then FirstPair(ts, LabelOf, key)
            else Some((if FirstPair(ts, LabelOf, key).Some? then FirstPair(ts, LabelOf, key).value.0 else ScalarTree("!!str", field),
                       FieldTree(field, value)))
  {
    hide FirstPair, Upsert, Delete;
    if value == "" {
      DeletePair(ts, LabelOf, field, key);
    } else {
      UpsertPair(ts, LabelOf, field, ScalarTree("!!str", field), FieldTree(field, value), key);
    }
  }

  /** A write makes its own key and other keys neither more nor less visible. */
  lemma EditKeepsVisible(ts: seq<Tree>, field: string, value: string, key: string)
    requires |ts| % 2 == 0 && (value != "" || key != field)
    ensures Visible(EditList(ts, field, value), LabelOf, key) <==> Visible(ts, LabelOf, key)
  {
    PairAfterEdit(ts, field, value, key);
    EvenList(ts, field, value);
    hide FirstPair, EditList, Visible;
    VisiblePair(ts, LabelOf, key);
    VisiblePair(EditList(ts, field, value), LabelOf, key);
  }

  /** A plain field is read as it is spelled, whatever names there are. */
  lemma PlainReads(doc: Tree, field: string)
    requires doc.kind == Mapping && FirstPair(BlockOf(doc).content, LabelOf, field).Some?
    requires var (k, v) := FirstPair(BlockOf(doc).content, LabelOf, field).value; k.kind == Scalar && v.kind == Scalar
    ensures ReadField(doc, field) == FirstPair(BlockOf(doc).content, LabelOf, field).value.1.value
  {
    var ts, e := BlockOf(doc).content, InnerScope(doc);
    var j := First(ts, Named(LabelOf, field));
    SeenInScope(doc);
    FieldsAreSeen(doc, field);
    ScalarNameFirst(ts, LabelOf, field);
    ReadKeepsSearch(ts, e, field);
    ReadAt(ts, j + 1, e);
    hide First, ReadAll, ReadField, Seen;
  }

  lemma SettledReads(doc: Tree)
    requires doc.kind == Mapping && Settled(doc)
    ensures ValidId(ReadField(doc, ID)) && Consent(doc)
  {
    hide ReadField, FirstPair, ValidId, Truthy;
    PlainReads(doc, ID);
  }

  /** Storing a valid id under a visible key settles it. */
  lemma IdSettles(doc: Tree, id: string)
    requires Tidy(doc) && Visible(BlockOf(doc).content, LabelOf, ID) && ValidId(id)
    ensures Settled(WriteField(doc, ID, id))
  {
    var ts := BlockOf(doc).content;
    WriteIsSeen(doc, ID, id);
    PairAfterEdit(ts, ID, id, ID);
    VisiblePair(ts, LabelOf, ID);
    hide FirstPair, EditList, Visible, WriteField, Seen, EditRead, Kept;
  }

  lemma SettledStays(doc: Tree, field: string, value: string)
    requires Tidy(doc) && Settled(doc) && field != ID
    ensures Settled(WriteField(doc, field, value))
  {
    WriteIsSeen(doc, field, value);
    PairAfterEdit(BlockOf(doc).content, field, value, ID);
    hide FirstPair, EditList, WriteField, Seen, EditRead, Kept, ValidId;
  }

  /** Setting the endpoint keeps them apart. */
  lemma ApartStays(ts: seq<Tree>, value: string)
    requires Apart(ts) && |ts| % 2 == 0
    ensures Apart(EditList(ts, "endpoint", value))
  {
    var after := EditList(ts, "endpoint", value);
    forall j, m | 0 <= j < m < |after| - 1 && j % 2 == 0 && m % 2 == 0 && after[j].value == "endpoint" && after[m].value in WATCHED
      ensures !AliasOf(after[m + 1], after[j..j + 2], after[j + 2..m + 1])
    {
      hide *;
      PairStaysApart(ts, value, j, m);
    }
  }

  lemma PairStaysApart(ts: seq<Tree>, value: string, j: nat, m: nat)
    requires Apart(ts) && |ts| % 2 == 0
    requires var after := EditList(ts, "endpoint", value);
             && j < m < |after| - 1 && j % 2 == 0 && m % 2 == 0
             && after[j].value == "endpoint" && after[m].value in WATCHED
    ensures var after := EditList(ts, "endpoint", value);
            !AliasOf(after[m + 1], after[j..j + 2], after[j + 2..m + 1])
  {
    hide *;
    EditShape(ts, "endpoint", value);
    var i := First(ts, Named(LabelOf, "endpoint"));
    if i < 0 {
      if j + 1 < |ts| {
        NoEndpoint(ts, j);
      }
    } else if value == "" {
      DroppedStaysApart(ts, i, j, m);
    } else {
      PlainField("endpoint", value);
      ReplacedStaysApart(ts, i, FieldTree("endpoint", value), j, m);
    }
  }

  lemma DroppedStaysApart(ts: seq<Tree>, i: nat, j: nat, m: nat)
    requires Apart(ts) && First(ts, Named(LabelOf, "endpoint")) == i && i % 2 == 0 && i + 1 < |ts|
    requires var after := ts[..i] + ts[i + 2..];
             && j < m < |after| - 1 && j % 2 == 0 && m % 2 == 0
             && after[j].value == "endpoint" && after[m].value in WATCHED
    ensures var after := ts[..i] + ts[i + 2..]; !AliasOf(after[m + 1], after[j..j + 2], after[j + 2..m + 1])
  {
    hide *;
    if j < i {
      NotBefore(ts, "endpoint", i, j);
    } else {
      ShiftedPair(ts, i, j, m);
      PairIsApart(ts, j + 2, m + 2);
    }
  }

  lemma ReplacedStaysApart(ts: seq<Tree>, i: nat, v: Tree, j: nat, m: nat)
    requires Apart(ts) && First(ts, Named(LabelOf, "endpoint")) == i && i % 2 == 0 && i + 1 < |ts|
    requires v == ScalarTree(v.tag, v.value) && j < m < |ts| - 1 && j % 2 == 0 && m % 2 == 0
    requires ts[i + 1 := v][j].value == "endpoint" && ts[i + 1 := v][m].value in WATCHED
    ensures var after := ts[i + 1 := v]; !AliasOf(after[m + 1], after[j..j + 2], after[j + 2..m + 1])
  {
    hide *;
    if j < i {
      NotBefore(ts, "endpoint", i, j);
    } else {
      ReplacedPair(ts, i, v, j, m);
      PairIsApart(ts, j, m);
    }
  }

  lemma PairIsApart(ts: seq<Tree>, j: nat, m: nat)
    requires Apart(ts) && j < m < |ts| - 1 && j % 2 == 0 && m % 2 == 0 && ts[j].value == "endpoint" && ts[m].value in WATCHED
    ensures !AliasOf(ts[m + 1], ts[j..j + 2], ts[j + 2..m + 1])
  {
    hide AliasOf;
  }

  lemma NoEndpoint(ts: seq<Tree>, j: nat)
    requires First(ts, Named(LabelOf, "endpoint")) < 0 && j % 2 == 0 && j + 1 < |ts|
    ensures ts[j].value != "endpoint"
  {
    hide First;
    NoHitBefore(ts, Named(LabelOf, "endpoint"), j);
    HitsAreTests(ts[j], "endpoint");
  }

  lemma NotBefore(ts: seq<Tree>, field: string, j: nat, m: nat)
    requires First(ts, Named(LabelOf, field)) == j && m % 2 == 0 && m < j < |ts| - 1
    ensures ts[m].value != field
  {
    hide First;
    NoHitBefore(ts, Named(LabelOf, field), m);
    HitsAreTests(ts[m], field);
  }

  lemma ShiftedPair(ts: seq<Tree>, i: nat, j: nat, m: nat)
    requires i <= j < m && m + 3 < |ts|
    ensures var after := ts[..i] + ts[i + 2..];
            && after[j] == ts[j + 2] && after[m] == ts[m + 2] && after[m + 1] == ts[m + 3]
            && after[j..j + 2] == ts[j + 2..j + 4] && after[j + 2..m + 1] == ts[j + 4..m + 3]
  {
    var after := ts[..i] + ts[i + 2..];
    assert forall n | i <= n < |after| :: after[n] == ts[n + 2];
  }

  lemma ReplacedPair(ts: seq<Tree>, i: nat, v: Tree, j: nat, m: nat)
    requires i <= j < m < |ts| - 1 && i % 2 == 0 && j % 2 == 0 && m % 2 == 0 && v == ScalarTree(v.tag, v.value)
    ensures var after := ts[i + 1 := v];
            && after[j] == ts[j] && after[m] == ts[m]
            && (AliasOf(after[m + 1], after[j..j + 2], after[j + 2..m + 1]) ==> AliasOf(ts[m + 1], ts[j..j + 2], ts[j + 2..m + 1]))
  {
    var after := ts[i + 1 := v];
    assert after[j + 2..m + 1] == ts[j + 2..m + 1] && after[m + 1] == ts[m + 1];
    ScalarReads(v.tag, v.value, map[]);
    hide Anchors, AnchorsAll;
    if j == i {
      assert after[j..j + 2] == [ts[j], v] && ts[j..j + 2] == [ts[j], ts[j + 1]];
      NamesOfTwo(ts[j], v);
      NamesOfTwo(ts[j], ts[j + 1]);
    } else {
      assert after[j..j + 2] == ts[j..j + 2];
    }
  }

  /** While they are apart, setting the endpoint does not change what they read as. */
  lemma ApartReads(doc: Tree, endpoint: string, field: string)
    requires Tidy(doc) && Apart(BlockOf(doc).content) && field in WATCHED
    ensures Later(doc, "endpoint", endpoint, field) == ReadField(doc, field)
  {
    hide *;
    TidyIsEven(doc);
    SeenInScope(doc);
    FieldsAreSeen(doc, field);
    FieldInSeen(doc, field);
    ApartLater(BlockOf(doc).content, endpoint, field, InnerScope(doc));
    LaterIsThat(doc, endpoint, field);
  }

  lemma LaterIsThat(doc: Tree, endpoint: string, field: string)
    ensures Later(doc, "endpoint", endpoint, field) == LaterIn(BlockOf(doc).content, "endpoint", endpoint, field, InnerScope(doc))
  {
    hide LaterIn, BlockOf, InnerScope;
  }

  lemma ApartLater(ts: seq<Tree>, endpoint: string, field: string, e: Scope)
    requires Apart(ts) && field in WATCHED && |ts| % 2 == 0
    ensures LaterIn(ts, "endpoint", endpoint, field, e) == FieldInList(ReadAll(ts, e), field)
  {
    hide *;
    NotWatched(field);
    FieldAtPlace(ts, field, e);
    LaterMeans(ts, "endpoint", endpoint, field, e);
    var j, m := First(ts, Named(LabelOf, "endpoint")), First(ts, ScalarNamed(LabelOf, field));
    OtherPlace(ts, "endpoint", endpoint, field);
    if 0 <= j < m {
      FirstIsApart(ts, endpoint, field);
    } else if m >= 0 {
      AliasBehind(ts, "endpoint", endpoint, field, e);
    }
  }

  lemma NotWatched(field: string)
    requires field in WATCHED
    ensures field != "endpoint"
  {
  }

  lemma FirstIsApart(ts: seq<Tree>, endpoint: string, field: string)
    requires Apart(ts) && field in WATCHED && |ts| % 2 == 0
    requires 0 <= First(ts, Named(LabelOf, "endpoint")) < First(ts, ScalarNamed(LabelOf, field))
    ensures var j, m := First(ts, Named(LabelOf, "endpoint")), First(ts, ScalarNamed(LabelOf, field));
            var k := if endpoint == "" then j else j + 1;
            !AliasOf(ts[m + 1], ts[k..j + 2], ts[j + 2..m + 1])
  {
    hide *;
    var j, m := First(ts, Named(LabelOf, "endpoint")), First(ts, ScalarNamed(LabelOf, field));
    FirstFacts(ts, "endpoint");
    NamedPlace(ts, field);
    WatchedIsApart(ts, endpoint, field, j, m);
  }

  lemma WatchedIsApart(ts: seq<Tree>, endpoint: string, field: string, j: nat, m: nat)
    requires Apart(ts) && field in WATCHED && j < m < |ts| - 1 && j % 2 == 0 && m % 2 == 0
    requires ts[j].value == "endpoint" && ts[m].value == field
    ensures var k := if endpoint == "" then j else j + 1; !AliasOf(ts[m + 1], ts[k..j + 2], ts[j + 2..m + 1])
  {
    hide *;
    PairIsApart(ts, j, m);
    PartIsApart(ts, j, if endpoint == "" then j else j + 1, m);
  }

  lemma FirstFacts(ts: seq<Tree>, field: string)
    ensures var j := First(ts, Named(LabelOf, field)); j >= 0 ==> j % 2 == 0 && j + 1 < |ts| && ts[j].value == field
  {
    var j := First(ts, Named(LabelOf, field));
    if j >= 0 {
      HitsAreTests(ts[j], field);
    }
    hide First;
  }

  lemma NamedPlace(ts: seq<Tree>, field: string)
    requires First(ts, ScalarNamed(LabelOf, field)) >= 0
    ensures var m := First(ts, ScalarNamed(LabelOf, field)); m % 2 == 0 && m + 1 < |ts| && ts[m].value == field
  {
    HitsAreTests(ts[First(ts, ScalarNamed(LabelOf, field))], field);
    hide First;
  }

  lemma PartIsApart(ts: seq<Tree>, j: nat, k: nat, m: nat)
    requires j <= k <= j + 2 <= m < |ts| - 1 && !AliasOf(ts[m + 1], ts[j..j + 2], ts[j + 2..m + 1])
    ensures !AliasOf(ts[m + 1], ts[k..j + 2], ts[j + 2..m + 1])
  {
    hide AnchorsAll;
    NamesOfSlice(ts, j, k, j + 2);
  }

  /** A write of any field keeps what the promise needs of the document around the
      block and of the id key. */
  lemma WriteKeepsShape(doc: Tree, field: string, value: string)
    requires Tidy(doc) && Lone(doc.content, "usagePing") && Visible(BlockOf(doc).content, LabelOf, ID)
    requires value != "" || field != ID
    ensures var after := WriteField(doc, field, value);
            Tidy(after) && Lone(after.content, "usagePing") && Visible(BlockOf(after).content, LabelOf, ID)
  {
    TidyIsEven(doc);
    WriteIsSeen(doc, field, value);
    EditKeepsVisible(BlockOf(doc).content, field, value, ID);
    hide Tidy, Lone, Visible, WriteField, EditList, Seen, EditRead, Kept;
    WriteKeepsLone(doc, field, value);
  }

  lemma TidyIsEven(doc: Tree)
    requires Tidy(doc)
    ensures |BlockOf(doc).content| % 2 == 0 && doc.kind == Mapping
  {
  }

  lemma DisableKeepsStorable(doc: Tree)
    requires Storable(doc)
    ensures Storable(DeleteBlock(doc)) && Lookup(Read(DeleteBlock(doc), map[]), "usagePing") == None
  {
    assert doc.kind == Mapping && |doc.content| % 2 == 0 && Lone(doc.content, "usagePing");
    hide First, Lookup, Storable, Delete, Lone;
    DisableClearsIff(doc);
    LoneDeleted(doc.content, "usagePing");
    EvenDelete(doc.content, "usagePing");
    WithoutKey(DeleteBlock(doc));
  }

  lemma WithoutKey(doc: Tree)
    requires doc.kind == Mapping && |doc.content| % 2 == 0 && First(doc.content, Named(LabelOf, "usagePing")) == -1
    ensures Storable(doc)
  {
    NoNameNoScalar(doc.content, LabelOf, "usagePing");
    assert BlockOf(doc) == EMPTY_BLOCK;
    NoPairs(Named(LabelOf, ID));
  }

  lemma LoneDeleted(ts: seq<Tree>, key: string)
    requires Lone(ts, key)
    ensures First(Delete(ts, LabelOf, key), Named(LabelOf, key)) == -1
    ensures var i := First(ts, Named(LabelOf, key));
            i < 0 || First(ts[i + 2..], ScalarNamed(LabelOf, key)) < 0
  {
    var i, hit := First(ts, Named(LabelOf, key)), Named(LabelOf, key);
    if i >= 0 {
      hide First;
      NoNameNoScalar(ts[i + 2..], LabelOf, key);
      NoneBeforeFirst(ts, hit);
      FirstOfConcat(ts[..i], ts[i + 2..], hit);
    }
  }

  /** The id that an enable stores. */
  function IdFor(doc: Tree, random: seq<Byte>): string {
    var known := ReadField(doc, ID);
    if ValidId(known) then known else Hex(random)
  }

  lemma IdForIsValid(doc: Tree, random: seq<Byte>)
    requires |random| == 16
    ensures ValidId(IdFor(doc, random)) && IdFor(doc, random) != ""
  {
    hide ReadField;
  }

  lemma EnableWrites(doc: Tree, random: seq<Byte>)
    ensures var first := WriteField(doc, ID, IdFor(doc, random));
            Writes(doc, Enable(random)) == [first, WriteField(first, "enabled", "true")]
    ensures "enabled" != ID && "endpoint" != ID && "endpoint" != "enabled"
  {
    hide ReadField, WriteField, ValidId, Hex;
  }

  /** An enable settles the id with its first write. */
  lemma EnableSettles(doc: Tree, random: seq<Byte>)
    requires Tidy(doc) && Visible(BlockOf(doc).content, LabelOf, ID) && |random| == 16
    ensures var writes := Writes(doc, Enable(random));
            && |writes| == 2 && writes[0].kind == Mapping && writes[1].kind == Mapping
            && Settled(writes[0]) && Settled(writes[1])
  {
    hide *;
    var id := IdFor(doc, random);
    var first := WriteField(doc, ID, id);
    EnableWrites(doc, random);
    IdForIsValid(doc, random);
    IdSettles(doc, id);
    WriteIsSeen(doc, ID, id);
    SettledStays(first, "enabled", "true");
    WriteIsSeen(first, "enabled", "true");
    TidyIsEven(first);
    TidyIsEven(WriteField(first, "enabled", "true"));
  }

  /** Every file content that a command produces keeps the promise if the file
      kept it before; an enable or disable establishes it from any storable
      content. */
  lemma CommandKeepsConsent(doc: Tree, c: Command, n: nat)
    requires Storable(doc) && Minted(c) && n < |Writes(doc, c)|
    requires c.SetEndpoint? ==> Consent(doc)
    ensures Storable(Writes(doc, c)[n]) && Consent(Writes(doc, c)[n])
  {
    hide *;
    match c
    case Enable(random) => EnableKeepsConsent(doc, random, n);
    case Disable => DisableKeepsConsent(doc, n);
    case SetEndpoint(endpoint) => EndpointKeepsConsent(doc, endpoint, n);
  }

  lemma EnableKeepsConsent(doc: Tree, random: seq<Byte>, n: nat)
    requires Storable(doc) && Minted(Enable(random)) && n < |Writes(doc, Enable(random))|
    ensures Storable(Writes(doc, Enable(random))[n]) && Consent(Writes(doc, Enable(random))[n])
  {
    hide *;
    MintedBytes(random);
    var id := IdFor(doc, random);
    var first := WriteField(doc, ID, id);
    var second := WriteField(first, "enabled", "true");
    EnableWrites(doc, random);
    StorableMeans(doc);
    IdForIsValid(doc, random);
    EnableSettles(doc, random);
    WriteKeepsShape(doc, ID, id);
    WriteKeepsShape(first, "enabled", "true");
    StorableMeans(first);
    StorableMeans(second);
    SettledReads(first);
    SettledReads(second);
  }

  lemma MintedBytes(random: seq<Byte>)
    requires Minted(Enable(random))
    ensures |random| == 16
  {
  }

  lemma StorableMeans(doc: Tree)
    ensures Storable(doc) <==>
              && Tidy(doc) && Lone(doc.content, "usagePing") && Visible(BlockOf(doc).content, LabelOf, ID)
              && (Settled(doc) || Apart(BlockOf(doc).content))
  {
  }

  lemma DisableKeepsConsent(doc: Tree, n: nat)
    requires Storable(doc) && n < |Writes(doc, Disable)|
    ensures Storable(Writes(doc, Disable)[n]) && Consent(Writes(doc, Disable)[n])
  {
    hide Storable, DeleteBlock, Lookup, Truthy, ValidId, Read;
    DisableKeepsStorable(doc);
    Untruthful();
  }

  lemma EndpointKeepsConsent(doc: Tree, endpoint: string, n: nat)
    requires Storable(doc) && Consent(doc) && n < |Writes(doc, SetEndpoint(endpoint))|
    ensures Storable(Writes(doc, SetEndpoint(endpoint))[n]) && Consent(Writes(doc, SetEndpoint(endpoint))[n])
  {
    hide *;
    var after, ts := WriteField(doc, "endpoint", endpoint), BlockOf(doc).content;
    EndpointWrites(doc, endpoint);
    EditedContent(BlockOf(doc), "endpoint", endpoint);
    StorableMeans(doc);
    StorableMeans(after);
    WriteKeepsShape(doc, "endpoint", endpoint);
    if Settled(doc) {
      SettledStays(doc, "endpoint", endpoint);
      TidyIsEven(after);
      SettledReads(after);
    } else {
      TidyIsEven(doc);
      ApartStays(ts, endpoint);
      WriteStaysTidy(doc, "endpoint", endpoint);
      WatchedFields();
      ApartReads(doc, endpoint, "enabled");
      ApartReads(doc, endpoint, ID);
      ConsentMeans(doc);
      EndpointConsentIff(doc, endpoint);
    }
  }

  lemma EndpointWrites(doc: Tree, endpoint: string)
    ensures Writes(doc, SetEndpoint(endpoint)) == [WriteField(doc, "endpoint", endpoint)]
    ensures "enabled" != ID && "endpoint" != ID && "endpoint" != "enabled"
  {
    hide WriteField;
  }

  lemma WatchedFields()
    ensures "enabled" in WATCHED && ID in WATCHED
  {
  }

  /** Setting the endpoint leaves a file that keeps the promise exactly when it is
      kept by what `enabled` and the id will then read as: what they read as now, or,
      for an alias into the endpoint, what the name stood for before it. */
  lemma EndpointConsentIff(doc: Tree, endpoint: string)
    requires Tidy(doc)
    ensures Consent(WriteField(doc, "endpoint", endpoint)) <==>
              !Truthy(Later(doc, "endpoint", endpoint, "enabled")) || ValidId(Later(doc, "endpoint", endpoint, ID))
  {
    hide *;
    EndpointWrites(doc, endpoint);
    FieldAfterWrite(doc, "endpoint", endpoint, "enabled");
    FieldAfterWrite(doc, "endpoint", endpoint, ID);
    ConsentMeans(WriteField(doc, "endpoint", endpoint));
  }

  lemma ConsentMeans(doc: Tree)
    ensures Consent(doc) <==> !Truthy(ReadField(doc, "enabled")) || ValidId(ReadField(doc, ID))
  {
  }

  lemma Untruthful()
    ensures !Truthy("")
  {
  }

  lemma Truthful()
    ensures Truthy("true")
  {
  }

  /** Without any assumption about keys or names: what an enable leaves after each of
      its two writes keeps the promise if the key of the id can be seen, and otherwise
      exactly when it is kept by what the two fields will read as; the first write
      cannot change a hidden id, the second sets `enabled` if its key can be seen. */
  lemma EnableConsentIff(doc: Tree, random: seq<Byte>)
    requires Tidy(doc) && |random| == 16
    ensures var ts, id, writes := BlockOf(doc).content, IdFor(doc, random), Writes(doc, Enable(random));
            var first := writes[0];
            var seen := Visible(ts, LabelOf, ID);
            var said := if Visible(ts, LabelOf, "enabled") then "true" else Later(first, "enabled", "true", "enabled");
            && (Consent(first) <==> seen || !Truthy(Later(doc, ID, id, "enabled")) || ValidId(Later(doc, ID, id, ID)))
            && (Consent(writes[1]) <==> seen || !Truthy(said) || ValidId(Later(first, "enabled", "true", ID)))
  {
    hide *;
    var id := IdFor(doc, random);
    var first := WriteField(doc, ID, id);
    var second := WriteField(first, "enabled", "true");
    EnableWrites(doc, random);
    IdForIsValid(doc, random);
    if Visible(BlockOf(doc).content, LabelOf, ID) {
      EnableSettles(doc, random);
      SettledReads(first);
      SettledReads(second);
    } else {
      WriteStaysTidy(doc, ID, id);
      FieldAfterWrite(doc, ID, id, "enabled");
      FieldAfterWrite(doc, ID, id, ID);
      ConsentMeans(first);
      WrittenOther(doc, ID, id, "enabled");
      FieldAfterWrite(first, "enabled", "true", ID);
      if Visible(BlockOf(doc).content, LabelOf, "enabled") {
        WrittenField(first, "enabled", "true");
      } else {
        FieldAfterWrite(first, "enabled", "true", "enabled");
      }
      ConsentMeans(second);
    }
  }

  /** A command of which only the first `done` writes happen: a crash or an I/O
      error ended it. */
  datatype Step = Step(command: Command, done: nat)

  function AfterStep(doc: Tree, s: Step): Tree {
    var writes := Writes(doc, s.command);
    if s.done == 0 then doc
    else if s.done < |writes| then writes[s.done - 1]
    else writes[|writes| - 1]
  }

  function AfterSteps(doc: Tree, steps: seq<Step>): Tree
    decreases |steps|
  {
    if steps == [] then doc else AfterSteps(AfterStep(doc, steps[0]), steps[1..])
  }

  /** The consent invariant: over any sequence of set commands, each cut short
      anywhere between its atomic writes, the file never says "enabled" without
      a valid installation id. */
  lemma {:induction false} ConsentAlways(doc: Tree, steps: seq<Step>)
    requires Storable(doc) && Consent(doc)
    requires forall i | 0 <= i < |steps| :: Minted(steps[i].command)
    ensures Storable(AfterSteps(doc, steps)) && Consent(AfterSteps(doc, steps))
    decreases |steps|
  {
    hide Storable, Consent, Writes;
    if steps != [] {
      var s := steps[0];
      var n := |Writes(doc, s.command)|;
      if s.done > 0 && n > 0 {
        CommandKeepsConsent(doc, s.command, if s.done < n then s.done - 1 else n - 1);
      }
      WritesSomething(doc, s.command);
      ConsentAlways(AfterStep(doc, s), steps[1..]);
    }
  }

  lemma WritesSomething(doc: Tree, c: Command)
    ensures |Writes(doc, c)| > 0
  {
  }

  /** Enabling keeps an id that is already valid and mints one otherwise, whatever
      names the block holds; the endpoint stays where the writes keep it. */
  lemma EnableKeepsId(doc: Tree, random: seq<Byte>)
    requires Tidy(doc) && |random| == 16
    requires Visible(BlockOf(doc).content, LabelOf, ID) && Visible(BlockOf(doc).content, LabelOf, "enabled")
    ensures var after := Writes(doc, Enable(random))[1];
            && ReadField(after, "enabled") == "true" && ReadField(after, ID) == IdFor(doc, random)
            && (Kept(doc, ID, IdFor(doc, random)) && Kept(WriteField(doc, ID, IdFor(doc, random)), "enabled", "true") ==>
                  ReadField(after, "endpoint") == ReadField(doc, "endpoint"))
  {
    hide *;
    var id := IdFor(doc, random);
    var first := WriteField(doc, ID, id);
    var second := WriteField(first, "enabled", "true");
    EnableWrites(doc, random);
    IdForIsValid(doc, random);
    WrittenField(doc, ID, id);
    WrittenOther(doc, ID, id, "enabled");
    WrittenField(first, "enabled", "true");
    WrittenPair(first, "enabled", "true", ID);
    PlainReads(second, ID);
    if Kept(doc, ID, id) && Kept(first, "enabled", "true") {
      WriteEffect(doc, ID, id);
      WriteEffect(first, "enabled", "true");
    }
  }

  /** A written field under a visible key is read back, whatever the names are. */
  lemma WrittenField(doc: Tree, field: string, value: string)
    requires Tidy(doc) && value != "" && Visible(BlockOf(doc).content, LabelOf, field)
    ensures var after := WriteField(doc, field, value);
            && Tidy(after) && after.kind == Mapping && ReadField(after, field) == value
            && FirstPair(BlockOf(after).content, LabelOf, field).Some?
            && var (k, v) := FirstPair(BlockOf(after).content, LabelOf, field).value;
               k.kind == Scalar && v.kind == Scalar && v.value == value
  {
    var ts, after := BlockOf(doc).content, WriteField(doc, field, value);
    assert FieldTree(field, value).kind == Scalar && FieldTree(field, value).value == value;
    assert ScalarTree("!!str", field).kind == Scalar;
    hide *;
    TidyIsEven(doc);
    WriteIsSeen(doc, field, value);
    TidyIsEven(after);
    EditedContent(BlockOf(doc), field, value);
    PairAfterEdit(ts, field, value, field);
    VisibleKeyIsScalar(ts, field);
    PlainReads(after, field);
  }

  /** The pair of another key is not touched. */
  lemma WrittenPair(doc: Tree, field: string, value: string, other: string)
    requires Tidy(doc) && other != field
    ensures FirstPair(BlockOf(WriteField(doc, field, value)).content, LabelOf, other) ==
            FirstPair(BlockOf(doc).content, LabelOf, other)
  {
    hide *;
    TidyIsEven(doc);
    WriteIsSeen(doc, field, value);
    EditedContent(BlockOf(doc), field, value);
    PairAfterEdit(BlockOf(doc).content, field, value, other);
  }

  lemma WrittenOther(doc: Tree, field: string, value: string, other: string)
    requires Tidy(doc) && other != field
    ensures Visible(BlockOf(WriteField(doc, field, value)).content, LabelOf, other) <==>
            Visible(BlockOf(doc).content, LabelOf, other)
  {
    hide *;
    TidyIsEven(doc);
    WriteIsSeen(doc, field, value);
    EditedContent(BlockOf(doc), field, value);
    EditKeepsVisible(BlockOf(doc).content, field, value, other);
  }

  lemma VisibleKeyIsScalar(ts: seq<Tree>, key: string)
    requires |ts| % 2 == 0 && Visible(ts, LabelOf, key)
    ensures FirstPair(ts, LabelOf, key).Some? ==> FirstPair(ts, LabelOf, key).value.0.kind == Scalar
  {
    VisiblePair(ts, LabelOf, key);
  }

  /** Removing a lone field leaves nothing to read, whatever the names are. */
  lemma ClearedField(doc: Tree, field: string)
    requires Tidy(doc) && Lone(BlockOf(doc).content, field)
    ensures ReadField(WriteField(doc, field, ""), field) == ""
  {
    hide *;
    var ts, after := BlockOf(doc).content, WriteField(doc, field, "");
    WriteStaysTidy(doc, field, "");
    TidyIsEven(after);
    EditedContent(BlockOf(doc), field, "");
    SeenInScope(after);
    FieldsAreSeen(after, field);
    FieldInSeen(after, field);
    LoneDeleted(ts, field);
    EmptyEdit(ts, field);
    NoNameNoScalar(EditList(ts, field, ""), LabelOf, field);
    FieldAtPlace(EditList(ts, field, ""), field, InnerScope(after));
  }

  lemma EmptyEdit(ts: seq<Tree>, field: string)
    ensures EditList(ts, field, "") == Delete(ts, LabelOf, field)
  {
    hide Delete;
  }

  /** A disable of a lone block leaves no usagePing key. */
  lemma LoneDisable(doc: Tree)
    requires doc.kind == Mapping && Lone(doc.content, "usagePing")
    ensures Lookup(Read(DeleteBlock(doc), map[]), "usagePing") == None
  {
    DisableClearsIff(doc);
    LoneDeleted(doc.content, "usagePing");
    hide First, Lookup, Lone, Read;
  }

  // -------------------------------------------------------------- installation id

  function HexValue(c: char): nat
    requires LowerHex(c)
  {
    if c <= '9' then (c - '0') as nat else (c - 'a') as nat + 10
  }

  /** The text spells the bytes, two digits each. */
  lemma {:induction false} HexSpells(bytes: seq<Byte>, i: nat)
    requires i < |bytes|
    ensures HexValue(Hex(bytes)[2 * i]) * 16 + HexValue(Hex(bytes)[2 * i + 1]) == bytes[i]
  {
    if i > 0 {
      HexSpells(bytes[1..], i - 1);
    }
  }

  lemma DigitOfHex(c: char)
    requires LowerHex(c)
    ensures HexValue(c) < 16 && HexDigit(HexValue(c)) == c
  {
  }

  /** Every even number of lower-case hex digits is the text of some bytes. */
  lemma {:induction false} HexReads(s: string) returns (bytes: seq<Byte>)
    requires |s| % 2 == 0 && forall i | 0 <= i < |s| :: LowerHex(s[i])
    ensures Hex(bytes) == s
  {
    if s == "" {
      bytes := [];
    } else {
      DigitOfHex(s[0]);
      DigitOfHex(s[1]);
      var b: Byte := 16 * HexValue(s[0]) + HexValue(s[1]);
      assert b / 16 == HexValue(s[0]) && b % 16 == HexValue(s[1]);
      hide HexDigit, HexValue;
      var rest := HexReads(s[2..]);
      bytes := [b] + rest;
      assert bytes[1..] == rest && s == [s[0], s[1]] + s[2..];
    }
  }

  /** An id is valid exactly if it may have been minted. */
  lemma ValidIffMinted(id: string)
    ensures ValidId(id) <==> exists bytes :: |bytes| == 16 && Hex(bytes) == id
  {
    hide Hex;
    if ValidId(id) {
      var bytes := HexReads(id);
      assert |bytes| == 16;
    }
  }

  /** validUsagePingID. */
  method ValidUsagePingID(id: string) returns (valid: bool)
    ensures valid <==> ValidId(id)
  {
    if |id| != 32 {
      return false;
    }
    var n := 0;
    while n < |id|
      invariant 0 <= n <= |id| && forall i | 0 <= i < n :: LowerHex(id[i])
    {
      var c := id[n];
      if (c < '0' || c > '9') && (c < 'a' || c > 'f') {
        return false;
      }
      n := n + 1;
    }
    valid := true;
  }
}
