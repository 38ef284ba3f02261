/** applyUsagePingSet: a `usagePing.*` set command on daemon.yaml, with an I/O answer
    for every access to the file. */
module UsagePingFile {
  import opened Decimal
  import opened MappingNode
  import opened YamlText
  import opened UsagePing
  import opened Base64

  const ENABLED_KEY := "usagePing.enabled"
  const ENDPOINT_KEY := "usagePing.endpoint"

  /** unicode.IsSpace. */
  predicate Space(c: char) {
    || '\t' <= c <= '\r' || c in {' ', '\U{85}', '\U{A0}', '\U{1680}', '\U{2028}', '\U{2029}'}
    || '\U{2000}' <= c <= '\U{200A}' || c in {'\U{202F}', '\U{205F}', '\U{3000}'}
  }

  predicate Spaces(s: string) {
    forall i | 0 <= i < |s| :: Space(s[i])
  }

  /** strings.TrimSpace. */
  function TrimSpace(s: string): string {
    if s == "" then ""
    else if Space(s[0]) then TrimSpace(s[1..])
    else if Space(s[|s| - 1]) then TrimSpace(s[..|s| - 1])
    else s
  }

  /** `text` is `s` without the spaces around it. */
  ghost predicate Trimmed(s: string, text: string) {
    && (text != "" ==> !Space(text[0]) && !Space(text[|text| - 1]))
    && exists before, after | before + text + after == s :: Spaces(before) && Spaces(after)
  }

  lemma {:induction false} Surroundings(s: string) returns (before: string, after: string)
    ensures before + TrimSpace(s) + after == s && Spaces(before) && Spaces(after)
    ensures TrimSpace(s) != "" ==> !Space(TrimSpace(s)[0]) && !Space(TrimSpace(s)[|TrimSpace(s)| - 1])
  {
    hide *;
    TrimStep(s);
    before, after := "", "";
    NoSpaces();
    if s == "" || !(Space(s[0]) || Space(s[|s| - 1])) {
      assert "" + s + "" == s;
    } else if Space(s[0]) {
      before, after := Surroundings(s[1..]);
      SpacesAround(before, s[0]);
      assert s == [s[0]] + s[1..];
      assert [s[0]] + (before + TrimSpace(s) + after) == [s[0]] + before + TrimSpace(s) + after;
      before := [s[0]] + before;
    } else {
      var last := s[|s| - 1];
      before, after := Surroundings(s[..|s| - 1]);
      SpacesAround(after, last);
      assert s == s[..|s| - 1] + [last];
      assert before + TrimSpace(s) + after + [last] == before + TrimSpace(s) + (after + [last]);
      after := after + [last];
    }
  }

  lemma NoSpaces()
    ensures Spaces("")
  {
  }

  lemma SpacesAround(s: string, c: char)
    requires Spaces(s) && Space(c)
    ensures Spaces([c] + s) && Spaces(s + [c])
  {
    hide Space;
  }

  lemma TrimStep(s: string)
    ensures TrimSpace(s) == if s == "" then ""
                            else if Space(s[0]) then TrimSpace(s[1..])
                            else if Space(s[|s| - 1]) then TrimSpace(s[..|s| - 1])
                            else s
  {
    hide Space;
  }

  lemma TrimSpaceTrims(s: string)
    ensures Trimmed(s, TrimSpace(s))
  {
    hide Space, TrimSpace;
    var before, after := Surroundings(s);
  }

  /** The endpoint as it will be stored: empty, or an https address. */
  predicate Secure(endpoint: string) {
    endpoint == "" || "https://" <= endpoint
  }

  /** The commands that are not refused. */
  predicate Accepted(key: string, value: string) {
    || (key == ENABLED_KEY && Atoi(value) in {Some(0), Some(1)})
    || (key == ENDPOINT_KEY && Secure(TrimSpace(value)))
  }

  /** The file loads, before the command and between the writes of an enable. */
  predicate Smooth(doc: Tree, c: Command) {
    doc.kind == Mapping && Loads(doc) && (c.Enable? ==> Loads(Writes(doc, c)[0]))
  }

  /** What a write finds in place of the block and sets aside: a value that is not
      a mapping, its alias followed. */
  function Aside(doc: Tree): Option<Meaning> {
    match Lookup(Read(doc, map[]), "usagePing")
    case Some(v) => if Target(v).kind != Mapping then Some(Target(v)) else None
    case None => None
  }

  function Newest(last: Option<Meaning>, before: Option<Meaning>): Option<Meaning> {
    if last.Some? then last else before
  }

  /** daemon.yaml and the backup beside it; `works` is false where an access fails. */
  class ConfigFile {
    var doc: Tree
    var backup: Option<Meaning>
    const works: nat -> bool
    var clock: nat
    ghost var history: seq<Tree>

    constructor (doc: Tree, backup: Option<Meaning>, works: nat -> bool)
      ensures this.doc == doc && this.backup == backup && this.works == works && history == []
    {
      this.doc, this.backup, this.works, this.clock, this.history := doc, backup, works, 0, [];
    }

    ghost predicate AllWork() {
      forall n: nat :: works(n)
    }

    method Access() returns (ok: bool)
      modifies this`clock
      ensures ok == works(old(clock))
    {
      ok := works(clock);
      clock := clock + 1;
    }

    /** Reading and parsing: the file must be a mapping whose aliases all find
        their node. */
    method Load() returns (ok: bool)
      modifies this`clock
      ensures ok <==> works(old(clock)) && doc.kind == Mapping && Loads(doc)
    {
      ok := Access();
      ok := ok && doc.kind == Mapping && Loads(doc);
    }

    /** storeUsagePingDoc: temporary file and rename, so that readers see the old
        content or the new one. */
    method Store(next: Tree) returns (ok: bool)
      modifies this`doc, this`clock, this`history
      ensures ok <==> works(old(clock))
      ensures ok ==> doc == next && history == old(history) + [next]
      ensures !ok ==> doc == old(doc) && history == old(history)
    {
      ok := Access();
      if ok {
        doc := next;
        history := history + [next];
      }
    }

    /** writeUsagePingField: load, set a non-mapping block aside, edit, store. It
        fails only if the file does not load or an access fails. No block that is not
        a mapping is replaced before it is in the backup. */
    method WriteUsagePingField(field: string, value: string) returns (ok: bool)
      modifies this
      ensures ok ==> backup == Newest(Aside(old(doc)), old(backup))
      ensures backup in {old(backup), Newest(Aside(old(doc)), old(backup))}
      ensures ok ==> doc == WriteField(old(doc), field, value) && history == old(history) + [doc]
      ensures !ok ==> doc == old(doc) && history == old(history)
      ensures ok ==> old(doc).kind == Mapping && Loads(old(doc))
      ensures AllWork() && old(doc).kind == Mapping && Loads(old(doc)) ==> ok
    {
      hide Loads, WriteField, Aside;
      ok := Load();
      if !ok {
        return;
      }
      var aside := Aside(doc);
      if aside.Some? {
        ok := Access();
        if !ok {
          return;
        }
        backup := aside;
      }
      ok := Store(WriteField(doc, field, value));
    }

    /** The file went through a prefix of these writes, through all on success. */
    ghost predicate WentThrough(before: Tree, past: seq<Tree>, writes: seq<Tree>, ok: bool)
      reads this
    {
      && past <= history && history[|past|..] <= writes
      && (ok ==> history == past + writes)
      && doc == (if |history| == |past| then before else history[|history| - 1])
    }

    method EnableCount(random: seq<Byte>) returns (ok: bool)
      modifies this
      ensures WentThrough(old(doc), old(history), Writes(old(doc), Enable(random)), ok)
      ensures ok ==> old(doc).kind == Mapping
      ensures AllWork() && Smooth(old(doc), Enable(random)) ==> ok
      ensures Tidy(old(doc)) && |history| > |old(history)| ==> backup == Newest(Aside(old(doc)), old(backup))
    {
      hide ReadField, ValidId, Hex, Loads, WriteField, Aside, Tidy;
      ok := Load();
      if !ok {
        return;
      }
      var id := ReadField(doc, "installationId");
      var valid := ValidUsagePingID(id);
      if !valid {
        ok := Access();
        if !ok {
          return;
        }
        id := Hex(random);
      }
      WriteKeepsKind(doc, "installationId", id);
      if Tidy(doc) {
        NothingAsideAfterWrite(doc, "installationId", id);
      }
      ok := WriteUsagePingField("installationId", id);
      if ok {
        ok := WriteUsagePingField("enabled", "true");
      }
    }

    method DisableCount() returns (ok: bool)
      modifies this`doc, this`clock, this`history
      ensures WentThrough(old(doc), old(history), Writes(old(doc), Disable), ok)
      ensures ok ==> old(doc).kind == Mapping
      ensures AllWork() && Smooth(old(doc), Disable) ==> ok
    {
      hide Loads, DeleteBlock;
      ok := Load();
      if !ok {
        return;
      }
      ok := Store(DeleteBlock(doc));
    }

    /** The `usagePing.enabled` case. */
    method ApplyEnabled(value: string, random: seq<Byte>) returns (ok: bool)
      requires |random| == 16
      modifies this
      ensures Atoi(value) !in {Some(0), Some(1)} ==> !ok && doc == old(doc) && history == old(history)
      ensures Atoi(value) == Some(1) ==> WentThrough(old(doc), old(history), Writes(old(doc), Enable(random)), ok)
      ensures Atoi(value) == Some(0) ==> WentThrough(old(doc), old(history), Writes(old(doc), Disable), ok)
      ensures ok && Atoi(value) == Some(1) && Tidy(old(doc))
              && Visible(BlockOf(old(doc)).content, LabelOf, ID) && Visible(BlockOf(old(doc)).content, LabelOf, "enabled") ==>
                ReadField(doc, "enabled") == "true" && ValidId(ReadField(doc, ID))
      ensures ok && Atoi(value) == Some(0) && Lone(old(doc).content, "usagePing") ==>
                Lookup(Read(doc, map[]), "usagePing") == None
      ensures AllWork() && Atoi(value) == Some(1) && Smooth(old(doc), Enable(random)) ==> ok
      ensures AllWork() && Atoi(value) == Some(0) && Smooth(old(doc), Disable) ==> ok
      ensures Atoi(value) == Some(1) && Tidy(old(doc)) && |history| > |old(history)| ==>
                backup == Newest(Aside(old(doc)), old(backup))
      ensures Storable(old(doc)) && Consent(old(doc)) ==> Storable(doc) && Consent(doc)
    {
      hide Aside, Atoi, Tidy, Visible, Lone, Storable, Consent, ReadField, ValidId, Loads, Lookup, Read, BlockOf, Hex, WriteField, DeleteBlock;
      ghost var before := doc;
      var n := Atoi(value);
      if n == Some(1) {
        ok := EnableCount(random);
        EnableCommand(before, random);
        if Storable(before) && Consent(before) {
          PrefixKeepsConsent(before, Enable(random), history[|old(history)|..]);
        }
      } else if n == Some(0) {
        ok := DisableCount();
        if ok && Lone(before.content, "usagePing") {
          LoneDisable(before);
        }
        if Storable(before) && Consent(before) {
          PrefixKeepsConsent(before, Disable, history[|old(history)|..]);
        }
      } else {
        ok := false;
      }
    }

    /** The `usagePing.endpoint` case. */
    method ApplyEndpoint(endpoint: string) returns (ok: bool)
      modifies this
      ensures !Secure(endpoint) ==> !ok && doc == old(doc) && history == old(history)
      ensures Secure(endpoint) ==> WentThrough(old(doc), old(history), Writes(old(doc), SetEndpoint(endpoint)), ok)
      ensures ok && Tidy(old(doc)) && Lone(BlockOf(old(doc)).content, "endpoint") ==> ReadField(doc, "endpoint") == endpoint
      ensures AllWork() && Secure(endpoint) && Smooth(old(doc), SetEndpoint(endpoint)) ==> ok
      ensures |history| > |old(history)| ==> backup == Newest(Aside(old(doc)), old(backup))
      ensures Storable(old(doc)) && Consent(old(doc)) ==> Storable(doc) && Consent(doc)
    {
      hide Aside, Tidy, Lone, Storable, Consent, ReadField, Loads, BlockOf, WriteField;
      ghost var before := doc;
      if endpoint != "" && !("https://" <= endpoint) {
        return false;
      }
      ok := WriteUsagePingField("endpoint", endpoint);
      if ok && Tidy(before) && Lone(BlockOf(before).content, "endpoint") {
        EndpointReads(before, endpoint);
      }
      if Storable(before) && Consent(before) {
        PrefixKeepsConsent(before, SetEndpoint(endpoint), history[|old(history)|..]);
      }
    }

    /** applyUsagePingSet. It refuses every other key, every other value of `enabled`
        and every endpoint that is neither empty nor https. Whatever fails and wherever
        it stops, the file went through a prefix of the writes of the command asked
        for, and a file that kept the consent promise keeps it. On success the file
        reads as asked. If the file loads and nothing fails, it does succeed. A value
        of usagePing that is not a mapping is in the backup once it is replaced. */
    method ApplyUsagePingSet(key: string, value: string, random: seq<Byte>) returns (ok: bool)
      requires |random| == 16
      modifies this
      ensures !Accepted(key, value) ==> !ok && doc == old(doc) && history == old(history)
      ensures key == ENABLED_KEY && Atoi(value) == Some(1) ==>
                WentThrough(old(doc), old(history), Writes(old(doc), Enable(random)), ok)
      ensures key == ENABLED_KEY && Atoi(value) == Some(0) ==>
                WentThrough(old(doc), old(history), Writes(old(doc), Disable), ok)
      ensures key == ENDPOINT_KEY && Secure(TrimSpace(value)) ==>
                WentThrough(old(doc), old(history), Writes(old(doc), SetEndpoint(TrimSpace(value))), ok)
      ensures ok && key == ENABLED_KEY && Atoi(value) == Some(1) && Tidy(old(doc))
              && Visible(BlockOf(old(doc)).content, LabelOf, ID) && Visible(BlockOf(old(doc)).content, LabelOf, "enabled") ==>
                ReadField(doc, "enabled") == "true" && ValidId(ReadField(doc, ID))
      ensures ok && key == ENABLED_KEY && Atoi(value) == Some(0) && Lone(old(doc).content, "usagePing") ==>
                Lookup(Read(doc, map[]), "usagePing") == None
      ensures ok && key == ENDPOINT_KEY && Tidy(old(doc)) && Lone(BlockOf(old(doc)).content, "endpoint") ==>
                Trimmed(value, ReadField(doc, "endpoint"))
      ensures AllWork() && key == ENABLED_KEY && Atoi(value) == Some(1) && Smooth(old(doc), Enable(random)) ==> ok
      ensures AllWork() && key == ENABLED_KEY && Atoi(value) == Some(0) && Smooth(old(doc), Disable) ==> ok
      ensures AllWork() && key == ENDPOINT_KEY && Secure(TrimSpace(value)) && Smooth(old(doc), SetEndpoint(TrimSpace(value))) ==> ok
      ensures |history| > |old(history)| && Tidy(old(doc)) && !(key == ENABLED_KEY && Atoi(value) == Some(0)) ==>
                backup == Newest(Aside(old(doc)), old(backup))
      ensures Storable(old(doc)) && Consent(old(doc)) ==> Storable(doc) && Consent(doc)
    {
      hide *;
      KeysDiffer();
      AcceptedMeans(key, value);
      if key == ENABLED_KEY {
        ok := ApplyEnabled(value, random);
      } else if key == ENDPOINT_KEY {
        TrimSpaceTrims(value);
        ok := ApplyEndpoint(TrimSpace(value));
      } else {
        ok := false;
      }
    }
  }

  lemma KeysDiffer()
    ensures ENABLED_KEY != ENDPOINT_KEY
  {
  }

  lemma AcceptedMeans(key: string, value: string)
    ensures Accepted(key, value) <==>
              || (key == ENABLED_KEY && Atoi(value) in {Some(0), Some(1)})
              || (key == ENDPOINT_KEY && Secure(TrimSpace(value)))
  {
    hide Atoi, TrimSpace, Secure;
  }

  lemma WriteKeepsKind(doc: Tree, field: string, value: string)
    ensures WriteField(doc, field, value).kind == doc.kind
  {
  }

  /** What is set aside is the value that no way leads through to a block. */
  lemma AsideIff(doc: Tree)
    requires doc.kind == Mapping
    ensures Aside(doc).Some? <==> KeyPlace(doc) >= 0 && BlockPath(doc).None?
  {
    ReadValue(doc);
    hide Lookup, KeyPlace, AfterAll, LastIn, ReadAll;
    var ts, i := doc.content, KeyPlace(doc);
    if i >= 0 && ts[i + 1].kind == Alias {
      var pre, v := ts[..i + 1], ts[i + 1];
      AliasReads(pre, v);
      if v.value != "" && LastIn(pre, v.value).Some? {
        PathInFront(ts, i + 1, LastIn(pre, v.value).value, map[]);
      }
    }
  }

  /** Once written, the block is a mapping. */
  lemma NothingAsideAfterWrite(doc: Tree, field: string, value: string)
    requires Tidy(doc)
    ensures Aside(WriteField(doc, field, value)) == None
  {
    hide *;
    var p := BlockAfterWrite(doc, field, value);
    AsideIff(WriteField(doc, field, value));
  }

  /** After a completed enable the file reads as enabled with a valid id. */
  lemma EnableCommand(doc: Tree, random: seq<Byte>)
    requires |random| == 16
    ensures |Writes(doc, Enable(random))| == 2
    ensures Tidy(doc) && Visible(BlockOf(doc).content, LabelOf, ID) && Visible(BlockOf(doc).content, LabelOf, "enabled") ==>
              var after := Writes(doc, Enable(random))[1];
              ReadField(after, "enabled") == "true" && ValidId(ReadField(after, ID))
  {
    hide *;
    EnableWrites(doc, random);
    IdForIsValid(doc, random);
    if Tidy(doc) && Visible(BlockOf(doc).content, LabelOf, ID) && Visible(BlockOf(doc).content, LabelOf, "enabled") {
      EnableKeepsId(doc, random);
    }
  }

  /** After the endpoint is set the file reads as that endpoint. */
  lemma EndpointReads(doc: Tree, endpoint: string)
    requires Tidy(doc) && Lone(BlockOf(doc).content, "endpoint")
    ensures ReadField(WriteField(doc, "endpoint", endpoint), "endpoint") == endpoint
  {
    hide *;
    if endpoint == "" {
      ClearedField(doc, "endpoint");
    } else {
      TidyIsEven(doc);
      LoneIsVisible(BlockOf(doc).content, "endpoint");
      WrittenField(doc, "endpoint", endpoint);
    }
  }

  lemma LoneIsVisible(ts: seq<Tree>, key: string)
    requires Lone(ts, key) && |ts| % 2 == 0
    ensures Visible(ts, LabelOf, key)
  {
    hide First;
  }

  /** A file that went through some first writes of a command. */
  lemma PrefixKeepsConsent(doc: Tree, c: Command, done: seq<Tree>)
    requires Storable(doc) && Consent(doc) && Minted(c) && done <= Writes(doc, c)
    ensures done != [] ==> Storable(done[|done| - 1]) && Consent(done[|done| - 1])
  {
    hide Storable, Consent, Writes;
    if done != [] {
      CommandKeepsConsent(doc, c, |done| - 1);
    }
  }
}
