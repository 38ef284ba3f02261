/** Documents on which the usage-ping commands do not do what one would expect:
    shared blocks, second blocks, hidden keys and named fields. */
module UsagePingCases {
  import opened Decimal
  import opened MappingNode
  import opened YamlText
  import opened UsagePing
  import opened Base64

  function Document(k: Tree, v: Tree, l: Tree, w: Tree): Tree {
    Tree(Mapping, "!!map", "", "", [k, v, l, w])
  }

  function Ref(name: string): Tree {
    Tree(Alias, "", name, "", [])
  }

  /** Searching and reading a list of two pairs. */
  lemma TwoPairs(k: Tree, v: Tree, l: Tree, w: Tree, s: Scope)
    ensures forall hit: Tree -> bool ::
              First([k, v, l, w], hit) == if hit(k) then 0 else if hit(l) then 2 else -1
    ensures ReadAll([k, v, l, w], s) ==
            ReadAll([k, v], s) + ReadAll([l, w], AfterAll([k, v], s))
  {
    var ts := [k, v, l, w];
    forall hit: Tree -> bool ensures First(ts, hit) == if hit(k) then 0 else if hit(l) then 2 else -1 {
      assert ts[2..] == [l, w] && [l, w][2..] == [];
    }
    ReadConcat([k, v], [l, w], s);
    assert [k, v] + [l, w] == ts;
  }

  /** `usagePing: &u {...}` followed by `other: *u`. */
  function Shared(b: Tree): Tree {
    Document(KEY, b, ScalarTree("!!str", "other"), Ref("u"))
  }

  lemma SharedPlace(b: Tree)
    requires b.kind == Mapping
    ensures KeyPlace(Shared(b)) == 0 && BlockPath(Shared(b)) == Some([1]) && BlockOf(Shared(b)) == b
    ensures First(Shared(b).content, ScalarNamed(LabelOf, "other")) == 2
  {
    TwoPairs(KEY, b, ScalarTree("!!str", "other"), Ref("u"), map[]);
    hide First;
    HitsAreTests(KEY, "usagePing");
    HitsAreTests(KEY, "other");
    HitsAreTests(ScalarTree("!!str", "other"), "other");
    OneStep(Shared(b).content, 1, b);
  }

  lemma SharedReads(b: Tree)
    requires b.kind == Mapping && b.anchor == "u" && AnchorsAll(b.content) == {}
    ensures Lookup(Read(Shared(b), map[]), "other") == Some(Meaning(Alias, "", "u", [Read(b, map[])]))
  {
    var other := ScalarTree("!!str", "other");
    SharedPlace(b);
    TwoPairs(KEY, b, other, Ref("u"), map[]);
    ScalarScope("!!str", "usagePing", map[]);
    AfterNameless(b, map[]);
    var s: Scope := map["u" := Read(b, map[])];
    ScalarScope("!!str", "other", s);
    assert Read(Ref("u"), s) == Meaning(Alias, "", "u", [Read(b, map[])]);
    ReadDocument(Shared(b));
    ReadKeepsSearch(Shared(b).content, map[], "other");
    hide First, Read, ReadAll, After, AfterAll;
    ReadTwo(KEY, b, map[]);
    ReadTwo(other, Ref("u"), s);
  }

  /** A block that another key shares: a write changes that key too, and after a
      disable the file does not load any more. */
  lemma SharedBlockExample(b: Tree, field: string, value: string)
    requires b.kind == Mapping && b.anchor == "u" && AnchorsAll(b.content) == {}
    ensures Lookup(Read(Shared(b), map[]), "other") == Some(Meaning(Alias, "", "u", [Read(b, map[])]))
    ensures Lookup(Read(WriteField(Shared(b), field, value), map[]), "other") ==
            Some(Meaning(Alias, "", "u", [Read(EditBlock(b, field, value), map[])]))
    ensures !Loads(DeleteBlock(Shared(b)))
  {
    hide Read, EditBlock, EditList, Lookup, WriteField, DeleteBlock, AnchorsAll;
    SharedReads(b);
    SharedWrite(b, field, value);
    EditNames(b.content, field, value);
    EditedContent(b, field, value);
    SharedReads(EditBlock(b, field, value));
    DanglingExample(b);
  }

  lemma SharedWrite(b: Tree, field: string, value: string)
    requires b.kind == Mapping
    ensures var c := EditBlock(b, field, value);
            WriteField(Shared(b), field, value) == Shared(c) && c.kind == Mapping && c.anchor == b.anchor
  {
    var c := EditBlock(b, field, value);
    EditKeepsHead(b, field, value);
    hide EditBlock;
    SharedPlace(b);
    OneStep(Shared(b).content, 1, c);
    assert Shared(b).content[1 := c] == Shared(c).content;
  }

  lemma DanglingExample(b: Tree)
    ensures !Loads(DeleteBlock(Shared(b)))
  {
    var other, after := ScalarTree("!!str", "other"), DeleteBlock(Shared(b));
    TwoPairs(KEY, b, other, Ref("u"), map[]);
    hide First;
    HitsAreTests(KEY, "usagePing");
    assert after.content == [other, Ref("u")];
    ReadDocument(after);
    ReadTwo(other, Ref("u"), map[]);
    ScalarScope("!!str", "other", map[]);
    assert Read(Ref("u"), map[]) == Meaning(Alias, "", "u", []);
    hide Read, ReadAll;
    var m := Read(after, map[]);
    assert m.content[1] == Meaning(Alias, "", "u", []);
    assert !Known(m.content[1]);
  }

  lemma WriteToBare(field: string, value: string)
    requires value != ""
    ensures WriteField(EMPTY_BLOCK, field, value) == EMPTY_BLOCK.(content := [KEY, EditBlock(EMPTY_BLOCK, field, value)])
    ensures ReadField(WriteField(EMPTY_BLOCK, field, value), field) == value
    ensures forall other | other != field :: ReadField(WriteField(EMPTY_BLOCK, field, value), other) == ""
  {
    NoPairs(ScalarNamed(LabelOf, "usagePing"));
    NoPairs(Named(LabelOf, field));
    assert AnchorsAll([]) == {};
    assert Tidy(EMPTY_BLOCK) && Visible(BlockOf(EMPTY_BLOCK).content, LabelOf, field);
    BlockIsSeen(EMPTY_BLOCK);
    NothingKept(field, value, InnerScope(EMPTY_BLOCK));
    assert Kept(EMPTY_BLOCK, field, value);
    hide First, EditBlock, Tidy, Visible, Seen, Kept;
    WriteEffect(EMPTY_BLOCK, field, value);
    forall other ensures ReadField(EMPTY_BLOCK, other) == "" {
      NothingSeen(EMPTY_BLOCK, other);
    }
  }

  lemma FirstOfTwoBlocks(a: Tree, b: Tree)
    requires a.kind == Mapping
    ensures var doc := Document(KEY, a, KEY, b);
            DeleteBlock(doc) == EMPTY_BLOCK.(content := [KEY, b]) && BlockPath(doc) == Some([1]) && AtIn(doc.content, [1]) == a
  {
    var doc := Document(KEY, a, KEY, b);
    TwoPairs(KEY, a, KEY, b, map[]);
    HitsAreTests(KEY, "usagePing");
    hide First;
    assert DeleteBlock(doc).content == [KEY, b];
    OneStep(doc.content, 1, b);
  }

  /** A file with two blocks: a disable removes the first, and what the second one
      says becomes readable, without any id. */
  lemma SecondBlockExample()
    ensures var doc := Document(KEY, EMPTY_BLOCK, KEY, EditBlock(EMPTY_BLOCK, "enabled", "true"));
            Consent(doc) && Lookup(Read(DeleteBlock(doc), map[]), "usagePing").Some? && !Consent(DeleteBlock(doc))
  {
    hide EditBlock, WriteField, Truthy, ValidId, KeyPlace, BlockPath, BlockOf, DeleteBlock, Read, Seen, ReadField, Lookup;
    var b := EditBlock(EMPTY_BLOCK, "enabled", "true");
    var doc := Document(KEY, EMPTY_BLOCK, KEY, b);
    FirstOfTwoBlocks(EMPTY_BLOCK, b);
    WriteToBare("enabled", "true");
    BlockIsSeen(doc);
    EmptyReads(ScopeIn(doc.content, [1], map[]));
    NothingSeen(doc, "enabled");
    ReadMeansFound(WriteField(EMPTY_BLOCK, "enabled", "true"), "enabled");
    Truthful();
    Untruthful();
    IdsAreLong();
  }

  lemma EmptyReads(s: Scope)
    ensures Read(EMPTY_BLOCK, s) == EMPTY_READ
  {
  }

  lemma ReadMeansFound(doc: Tree, field: string)
    requires ReadField(doc, field) != ""
    ensures Lookup(Read(doc, map[]), "usagePing").Some?
  {
  }

  lemma IdsAreLong()
    ensures !ValidId("")
  {
  }

  lemma NothingSeen(doc: Tree, field: string)
    requires Seen(doc) == EMPTY_READ
    ensures ReadField(doc, field) == ""
  {
    FieldsAreSeen(doc, field);
  }

  /** An enable that cannot see where it stored the id: the block's only key is an
      alias whose name is "installationId". */
  lemma HiddenIdExample(random: seq<Byte>)
    requires |random| == 16
    ensures var block := EMPTY_BLOCK.(content := [Ref("installationId"), ScalarTree("!!str", "x")]);
            var named := ScalarTree("!!str", "z").(anchor := "installationId");
            !Consent(Writes(Document(ScalarTree("!!str", "a"), named, KEY, block), Enable(random))[1])
  {
    var block := EMPTY_BLOCK.(content := [Ref("installationId"), ScalarTree("!!str", "x")]);
    var named := ScalarTree("!!str", "z").(anchor := "installationId");
    var doc := Document(ScalarTree("!!str", "a"), named, KEY, block);
    SecondPairIsBlock(ScalarTree("!!str", "a"), named, block);
    HiddenId(block);
    assert Tidy(doc);
    hide *;
    SeenInScope(doc);
    FieldsAreSeen(doc, "installationId");
    HiddenIdReads(block, BlockScope(doc));
    var id := IdFor(doc, random);
    IdForIsValid(doc, random);
    NothingLater(doc, id);
    EnableConsentIff(doc, random);
    IdsAreLong();
    Truthful();
  }

  /** There is no id that find could see, before or after. */
  lemma NothingLater(doc: Tree, id: string)
    requires Tidy(doc) && BlockOf(doc).content == [Ref("installationId"), ScalarTree("!!str", "x")] && id != ""
    ensures Later(WriteField(doc, "installationId", id), "enabled", "true", "installationId") == ""
  {
    HitsAreTests(Ref("installationId"), "installationId");
    WriteStaysTidy(doc, "installationId", id);
    var first := WriteField(doc, "installationId", id);
    EditedContent(BlockOf(doc), "installationId", id);
    EditShape(BlockOf(doc).content, "installationId", id);
    HiddenId(BlockOf(doc));
    assert BlockOf(first).content == [Ref("installationId"), FieldTree("installationId", id)];
    assert First(BlockOf(first).content, ScalarNamed(LabelOf, "installationId")) == -1;
    hide First, WriteField;
    LaterMeans(BlockOf(first).content, "enabled", "true", "installationId", InnerScope(first));
  }

  lemma SecondPairIsBlock(k: Tree, v: Tree, b: Tree)
    requires b.kind == Mapping && k.value != "usagePing"
    ensures BlockPath(Document(k, v, KEY, b)) == Some([3]) && BlockOf(Document(k, v, KEY, b)) == b
    ensures KeyPlace(Document(k, v, KEY, b)) == 2
  {
    TwoPairs(k, v, KEY, b, map[]);
    HitsAreTests(k, "usagePing");
    HitsAreTests(KEY, "usagePing");
    hide First;
    OneStep(Document(k, v, KEY, b).content, 3, b);
  }

  lemma HiddenId(block: Tree)
    requires block.content == [Ref("installationId"), ScalarTree("!!str", "x")]
    ensures AnchorsAll(block.content) == {}
    ensures !Visible(block.content, LabelOf, "installationId") && Visible(block.content, LabelOf, "enabled")
    ensures First(block.content, ScalarNamed(LabelOf, "installationId")) == -1
  {
    HitsAreTests(Ref("installationId"), "installationId");
    HitsAreTests(Ref("installationId"), "enabled");
    NamelessIff(block.content);
    assert AnchorsAll([]) == {};
  }

  lemma HiddenIdReads(block: Tree, s: Scope)
    requires block.kind == Mapping && First(block.content, ScalarNamed(LabelOf, "installationId")) == -1
    ensures FieldIn(Read(block, s), "installationId") == ""
  {
    ReadKeepsSearch(block.content, Enter(block, s), "installationId");
    hide First;
  }

  /** `foo: &x true` and `usagePing: {endpoint: v, enabled: *x}`. */
  function Rebound(v: Tree): Tree {
    Document(ScalarTree("!!str", "foo"), ScalarTree("!!bool", "true").(anchor := "x"), KEY,
             EMPTY_BLOCK.(content := ReboundFields(v)))
  }

  function ReboundFields(v: Tree): seq<Tree> {
    [ScalarTree("!!str", "endpoint"), v, ScalarTree("!!str", "enabled"), Ref("x")]
  }

  lemma ReboundSearch(v: Tree)
    ensures First(ReboundFields(v), ScalarNamed(LabelOf, "enabled")) == 2
    ensures First(ReboundFields(v), ScalarNamed(LabelOf, "installationId")) == -1
    ensures First(ReboundFields(v), Named(LabelOf, "endpoint")) == 0
  {
    var endpoint, enabled := ScalarTree("!!str", "endpoint"), ScalarTree("!!str", "enabled");
    TwoPairs(endpoint, v, enabled, Ref("x"), map[]);
    hide First;
    HitsAreTests(endpoint, "endpoint");
    HitsAreTests(endpoint, "enabled");
    HitsAreTests(enabled, "enabled");
    HitsAreTests(endpoint, "installationId");
    HitsAreTests(enabled, "installationId");
  }

  lemma ReboundAlias(v: Tree, s: Scope)
    requires v.kind == Scalar && v.content == [] && "x" in s && s["x"] == Meaning(Scalar, "!!bool", "true", [])
    ensures Target(ReadAll(ReboundFields(v), s)[3]) ==
            if v.anchor == "x" then Meaning(Scalar, v.tag, v.value, []) else Meaning(Scalar, "!!bool", "true", [])
  {
    var endpoint, enabled, x := ScalarTree("!!str", "endpoint"), ScalarTree("!!str", "enabled"), Ref("x");
    assert AnchorsAll([]) == {} && ReadAll([], Enter(v, s)) == [];
    assert Read(v, s) == Meaning(Scalar, v.tag, v.value, []);
    AfterNameless(v, s);
    var t := After(v, s);
    assert Read(x, t) == Meaning(Alias, "", "x", [t["x"]]);
    hide First, Read, ReadAll, After, AfterAll;
    TwoPairs(endpoint, v, enabled, x, s);
    ScalarScope("!!str", "endpoint", s);
    ScalarScope("!!str", "enabled", t);
    ReadTwo(endpoint, v, s);
    ReadTwo(enabled, x, t);
  }

  lemma ReboundBlock(v: Tree, s: Scope)
    requires v.kind == Scalar && v.content == [] && "x" in s && s["x"] == Meaning(Scalar, "!!bool", "true", [])
    ensures var b := Rebound(v).content[3];
            && FieldIn(Read(b, s), "enabled") == (if v.anchor == "x" then v.value else "true")
            && FieldIn(Read(b, s), "installationId") == ""
  {
    var b := Rebound(v).content[3];
    assert b.content == ReboundFields(v);
    assert Read(b, s).kind == Mapping && Read(b, s).content == ReadAll(b.content, s);
    hide First, Read, ReadAll;
    ReboundSearch(v);
    ReboundAlias(v, s);
    ReadKeepsSearch(b.content, s, "enabled");
    ReadKeepsSearch(b.content, s, "installationId");
  }

  lemma ReboundReads(v: Tree)
    requires v.kind == Scalar && v.content == []
    ensures ReadField(Rebound(v), "enabled") == (if v.anchor == "x" then v.value else "true")
    ensures ReadField(Rebound(v), "installationId") == ""
  {
    var foo, named := ScalarTree("!!str", "foo"), ScalarTree("!!bool", "true").(anchor := "x");
    var doc := Rebound(v);
    SecondPairIsBlock(foo, named, doc.content[3]);
    BlockIsSeen(doc);
    OneStep(doc.content, 3, v);
    FieldsAreSeen(doc, "enabled");
    FieldsAreSeen(doc, "installationId");
    var s := AfterAll(doc.content[..3], map[]);
    assert doc.content[..3] == [foo, named] + [KEY];
    assert AnchorsAll([]) == {} && ReadAll([], Enter(named, map[])) == [];
    ScalarScope("!!str", "foo", map[]);
    AfterNameless(named, map[]);
    assert Read(named, map[]) == Meaning(Scalar, "!!bool", "true", []);
    ScalarScope("!!str", "usagePing", After(named, map[]));
    hide First, Read, ReadAll, After, AfterAll, Seen, BlockPath, KeyPlace, ReadField, FieldIn;
    ReadTwo(foo, named, map[]);
    ReadSnoc([foo, named], KEY, map[]);
    ReboundBlock(v, s);
  }

  /** A named node inside the block: setting the endpoint removes the node that
      `enabled` was an alias of, the alias goes to an earlier node of that name,
      and the file comes to say "enabled" without any id. */
  lemma NamedFieldExample(endpoint: string)
    requires endpoint != ""
    ensures var doc := Rebound(ScalarTree("!!str", "no").(anchor := "x"));
            Consent(doc) && !Consent(Writes(doc, SetEndpoint(endpoint))[0])
  {
    var v, w := ScalarTree("!!str", "no").(anchor := "x"), FieldTree("endpoint", endpoint);
    hide ReadField, WriteField, ValidId, Truthy, Rebound;
    SetReboundEndpoint(v, endpoint);
    ReboundReads(v);
    ReboundReads(w);
    IdsAreLong();
    Truthful();
    NoMeansNo();
  }

  lemma NoMeansNo()
    ensures !Truthy("no")
  {
  }

  lemma SetReboundEndpoint(v: Tree, endpoint: string)
    requires endpoint != ""
    ensures WriteField(Rebound(v), "endpoint", endpoint) == Rebound(FieldTree("endpoint", endpoint))
  {
    var w, doc, foo, named := FieldTree("endpoint", endpoint), Rebound(v), ScalarTree("!!str", "foo"), ScalarTree("!!bool", "true").(anchor := "x");
    SecondPairIsBlock(foo, named, doc.content[3]);
    ReboundSearch(v);
    hide First;
    var b := EditBlock(doc.content[3], "endpoint", endpoint);
    assert b == Rebound(w).content[3] by {
      assert ReboundFields(v)[1 := w] == ReboundFields(w);
    }
    OneStep(doc.content, 3, b);
    assert doc.content[3 := b] == Rebound(w).content;
  }

  /** `usagePing: {endpoint: v}` followed by `other: *e`. */
  function NamedEndpoint(v: Tree): Tree {
    Document(KEY, EMPTY_BLOCK.(content := [ScalarTree("!!str", "endpoint"), v]), ScalarTree("!!str", "other"), Ref("e"))
  }

  lemma PlainScalar(v: Tree, s: Scope)
    requires v.kind == Scalar && v.content == []
    ensures Read(v, s) == Meaning(Scalar, v.tag, v.value, []) && Known(Read(v, s))
    ensures After(v, s) == if v.anchor == "" then s else s[v.anchor := Read(v, s)]
  {
    assert AnchorsAll([]) == {} && ReadAll([], Enter(v, s)) == [];
    AfterNameless(v, s);
  }

  /** The block with an endpoint, and the scope behind it. */
  lemma EndpointBlock(v: Tree)
    requires v.kind == Scalar && v.content == []
    ensures var b := NamedEndpoint(v).content[1];
            After(b, map[]) == After(v, map[]) && Known(Read(b, map[]))
  {
    var b, k := NamedEndpoint(v).content[1], ScalarTree("!!str", "endpoint");
    PlainBlock(b);
    hide Read, ReadAll, After, AfterAll;
    PlainScalar(k, map[]);
    PlainScalar(v, map[]);
    ReadTwo(k, v, map[]);
    var m := Read(b, map[]);
    assert m.content == [Read(k, map[]), Read(v, map[])];
  }

  lemma PlainBlock(b: Tree)
    requires b.kind == Mapping && b.anchor == ""
    ensures After(b, map[]) == AfterAll(b.content, map[])
    ensures Read(b, map[]).kind == Mapping && Read(b, map[]).content == ReadAll(b.content, map[])
  {
  }

  /** The file loads exactly as long as the endpoint has the name. */
  lemma NamedEndpointLoads(v: Tree)
    requires v.kind == Scalar && v.content == []
    ensures Loads(NamedEndpoint(v)) <==> v.anchor == "e"
  {
    var doc, other := NamedEndpoint(v), ScalarTree("!!str", "other");
    var b, s := doc.content[1], After(v, map[]);
    assert Read(Ref("e"), s) == Meaning(Alias, "", "e", if "e" in s then [s["e"]] else []);
    hide Read, ReadAll, After, AfterAll;
    PlainScalar(v, map[]);
    PlainScalar(KEY, map[]);
    PlainScalar(other, s);
    EndpointBlock(v);
    ReadDocument(doc);
    TwoPairs(KEY, b, other, Ref("e"), map[]);
    ReadTwo(KEY, b, map[]);
    ReadTwo(other, Ref("e"), s);
    var m := Read(doc, map[]);
    assert m.content == [Read(KEY, map[]), Read(b, map[]), Read(other, s), Read(Ref("e"), s)];
    LastDecides(m);
  }

  lemma LastDecides(m: Meaning)
    requires m.kind == Mapping && |m.content| == 4 && forall i | 0 <= i < 3 :: Known(m.content[i])
    ensures Known(m) <==> Known(m.content[3])
  {
  }

  lemma SetNamedEndpoint(v: Tree, endpoint: string)
    requires endpoint != ""
    ensures WriteField(NamedEndpoint(v), "endpoint", endpoint) == NamedEndpoint(FieldTree("endpoint", endpoint))
  {
    var doc, w, k := NamedEndpoint(v), FieldTree("endpoint", endpoint), ScalarTree("!!str", "endpoint");
    var b := doc.content[1];
    TwoPairs(KEY, b, ScalarTree("!!str", "other"), Ref("e"), map[]);
    HitsAreTests(KEY, "usagePing");
    HitsAreTests(k, "endpoint");
    assert First([k, v], Named(LabelOf, "endpoint")) == 0;
    hide First;
    var c := EditBlock(b, "endpoint", endpoint);
    assert c == NamedEndpoint(w).content[1] by {
      assert [k, v][1 := w] == [k, w];
    }
    OneStep(doc.content, 1, c);
    assert BlockPath(doc) == Some([1]) && BlockOf(doc) == b;
    assert doc.content[1 := c] == NamedEndpoint(w).content;
  }

  /** A named endpoint that another key is an alias of: the block has no name, it is
      given in place, and yet setting the endpoint leaves a file that does not load. */
  lemma NamedEndpointExample(old_endpoint: string, endpoint: string)
    requires endpoint != ""
    ensures var doc := NamedEndpoint(ScalarTree("!!str", old_endpoint).(anchor := "e"));
            Loads(doc) && !Loads(WriteField(doc, "endpoint", endpoint))
  {
    var v, w := ScalarTree("!!str", old_endpoint).(anchor := "e"), FieldTree("endpoint", endpoint);
    hide Loads, WriteField;
    SetNamedEndpoint(v, endpoint);
    NamedEndpointLoads(v);
    NamedEndpointLoads(w);
  }
}
