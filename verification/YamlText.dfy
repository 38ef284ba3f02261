/** A YAML document as its file spells it, with anchors and aliases, and what a
    reader makes of it. An alias refers to the latest node before it that carries
    its name, so that removing or changing a node may change what is read far
    from it. */
module YamlText {
  import opened Decimal
  import opened MappingNode

  /** A node as spelled: an alias is a leaf whose value is the name it refers to. */
  datatype Tree = Tree(kind: Kind, tag: string, value: string, anchor: string, content: seq<Tree>)

  /** A node as read: an alias holds the node that it stands for, or nothing when
      no node of that name was completed before it. */
  datatype Meaning = Meaning(kind: Kind, tag: string, value: string, content: seq<Meaning>)

  /** The named nodes before some point of the document. */
  type Scope = map<string, Meaning>

  function LabelOf(t: Tree): Label {
    Label(t.kind, t.value)
  }

  function LabelRead(m: Meaning): Label {
    Label(m.kind, m.value)
  }

  /** The tests that the searches apply. */
  lemma HitsAreTests(t: Tree, key: string)
    ensures Named(LabelOf, key)(t) <==> t.value == key
    ensures ScalarNamed(LabelOf, key)(t) <==> t.kind == Scalar && t.value == key
  {
    var lab: Tree -> Label := LabelOf;
    assert lab(t) == LabelOf(t);
    assert Named(lab, key)(t) == (lab(t).value == key);
  }

  // ------------------------------------------------------------------ reading

  /** Inside a named node its own name is not available. */
  function Enter(t: Tree, s: Scope): Scope {
    if t.anchor == "" then s else s - {t.anchor}
  }

  function Read(t: Tree, s: Scope): Meaning
    decreases t, 1
  {
    if t.kind == Alias then Meaning(Alias, t.tag, t.value, if t.value in s then [s[t.value]] else [])
    else Meaning(t.kind, t.tag, t.value, ReadAll(t.content, Enter(t, s)))
  }

  function ReadAll(ts: seq<Tree>, s: Scope): (r: seq<Meaning>)
    ensures |r| == |ts|
    decreases ts, 0
  {
    if ts == [] then []
    else
      var front := ts[..|ts| - 1];
      ReadAll(front, s) + [Read(ts[|ts| - 1], AfterAll(front, s))]
  }

  /** The scope behind a node: a name goes to the node that began last. */
  function After(t: Tree, s: Scope): Scope
    decreases t, 2
  {
    if t.kind == Alias then s
    else
      var inner := AfterAll(t.content, Enter(t, s));
      if t.anchor == "" || t.anchor in inner then inner else inner[t.anchor := Read(t, s)]
  }

  function AfterAll(ts: seq<Tree>, s: Scope): Scope
    decreases ts, 0
  {
    if ts == [] then s else After(ts[|ts| - 1], AfterAll(ts[..|ts| - 1], s))
  }

  /** The names that a node gives. */
  function Anchors(t: Tree): set<string>
    decreases t, 1
  {
    if t.kind == Alias then {} else AnchorsAll(t.content) + if t.anchor == "" then {} else {t.anchor}
  }

  function AnchorsAll(ts: seq<Tree>): set<string>
    decreases ts, 0
  {
    if ts == [] then {} else AnchorsAll(ts[..|ts| - 1]) + Anchors(ts[|ts| - 1])
  }

  /** The names that a node takes from the scope before it. */
  function Free(t: Tree): set<string>
    decreases t, 1
  {
    if t.kind == Alias then {t.value}
    else FreeAll(t.content) - if t.anchor == "" then {} else {t.anchor}
  }

  function FreeAll(ts: seq<Tree>): set<string>
    decreases ts, 0
  {
    if ts == [] then {}
    else FreeAll(ts[..|ts| - 1]) + (Free(ts[|ts| - 1]) - AnchorsAll(ts[..|ts| - 1]))
  }

  /** Two scopes agree on a name. */
  predicate Same(a: Scope, b: Scope, name: string) {
    (name in a <==> name in b) && (name in a ==> a[name] == b[name])
  }

  predicate Agree(a: Scope, b: Scope, names: set<string>) {
    forall n | n in names :: Same(a, b, n)
  }

  /** A document that loads: every alias found its node. */
  predicate Known(m: Meaning) {
    (m.kind == Alias ==> m.content != []) && forall i | 0 <= i < |m.content| :: Known(m.content[i])
  }

  predicate Loads(doc: Tree) {
    Known(Read(doc, map[]))
  }

  // ------------------------------------------------------------- scope lemmas

  /** A node binds exactly the names it gives and leaves the others alone. */
  lemma {:induction false} AfterScope(t: Tree, s: Scope)
    ensures forall n | n in Anchors(t) :: n in After(t, s)
    ensures forall n | n !in Anchors(t) :: Same(After(t, s), s, n)
    decreases t, 1
  {
    if t.kind != Alias {
      AfterAllScope(t.content, Enter(t, s));
    }
  }

  lemma {:induction false} AfterAllScope(ts: seq<Tree>, s: Scope)
    ensures forall n | n in AnchorsAll(ts) :: n in AfterAll(ts, s)
    ensures forall n | n !in AnchorsAll(ts) :: Same(AfterAll(ts, s), s, n)
    decreases ts, 0
  {
    if ts != [] {
      AfterAllScope(ts[..|ts| - 1], s);
      AfterScope(ts[|ts| - 1], AfterAll(ts[..|ts| - 1], s));
    }
  }

  lemma {:induction false} NoEmptyName(ts: seq<Tree>)
    ensures "" !in AnchorsAll(ts)
    decreases ts
  {
    if ts != [] {
      NoEmptyName(ts[..|ts| - 1]);
      NoEmptyName(ts[|ts| - 1].content);
    }
  }

  /** Scopes that agree on what a node takes give it the same meaning. */
  lemma {:induction false} AgreeRead(t: Tree, a: Scope, b: Scope)
    requires Agree(a, b, Free(t))
    ensures Read(t, a) == Read(t, b) && Agree(After(t, a), After(t, b), Anchors(t))
    decreases t, 1
  {
    if t.kind != Alias {
      assert forall n | n in FreeAll(t.content) :: n in Free(t) || n == t.anchor;
      AgreeReadAll(t.content, Enter(t, a), Enter(t, b));
      AfterAllScope(t.content, Enter(t, a));
      AfterAllScope(t.content, Enter(t, b));
    }
  }

  lemma {:induction false} AgreeReadAll(ts: seq<Tree>, a: Scope, b: Scope)
    requires Agree(a, b, FreeAll(ts))
    ensures ReadAll(ts, a) == ReadAll(ts, b) && Agree(AfterAll(ts, a), AfterAll(ts, b), AnchorsAll(ts))
    decreases ts, 0
  {
    if ts != [] {
      var front, last := ts[..|ts| - 1], ts[|ts| - 1];
      AgreeReadAll(front, a, b);
      AfterAllScope(front, a);
      AfterAllScope(front, b);
      assert forall n | n in Free(last) :: n in AnchorsAll(front) || n in FreeAll(ts);
      AgreeRead(last, AfterAll(front, a), AfterAll(front, b));
      AfterScope(last, AfterAll(front, a));
      AfterScope(last, AfterAll(front, b));
    }
  }

  /** And only those: a difference in what it takes shows in its meaning. */
  lemma {:induction false} ReadTellsScope(t: Tree, a: Scope, b: Scope)
    requires Read(t, a) == Read(t, b)
    ensures Agree(a, b, Free(t))
    decreases t, 1
  {
    if t.kind != Alias {
      ReadAllTellsScope(t.content, Enter(t, a), Enter(t, b));
      assert forall n | n in Free(t) :: Same(Enter(t, a), Enter(t, b), n);
    }
  }

  lemma {:induction false} ReadAllTellsScope(ts: seq<Tree>, a: Scope, b: Scope)
    requires ReadAll(ts, a) == ReadAll(ts, b)
    ensures Agree(a, b, FreeAll(ts))
    decreases ts, 0
  {
    if ts != [] {
      var front, last := ts[..|ts| - 1], ts[|ts| - 1];
      assert ReadAll(front, a) == ReadAll(ts, a)[..|front|] == ReadAll(ts, b)[..|front|] == ReadAll(front, b);
      assert Read(last, AfterAll(front, a)) == ReadAll(ts, a)[|front|];
      assert Read(last, AfterAll(front, b)) == ReadAll(ts, b)[|front|];
      ReadAllTellsScope(front, a, b);
      ReadTellsScope(last, AfterAll(front, a), AfterAll(front, b));
      AfterAllScope(front, a);
      AfterAllScope(front, b);
    }
  }

  /** Nodes are read the same in two scopes exactly when the scopes agree on every
      name that the nodes take from them. */
  lemma SameReadingIff(ts: seq<Tree>, a: Scope, b: Scope)
    ensures ReadAll(ts, a) == ReadAll(ts, b) <==> Agree(a, b, FreeAll(ts))
  {
    if ReadAll(ts, a) == ReadAll(ts, b) {
      ReadAllTellsScope(ts, a, b);
    }
    if Agree(a, b, FreeAll(ts)) {
      AgreeReadAll(ts, a, b);
    }
  }

  lemma ReadSnoc(ts: seq<Tree>, t: Tree, s: Scope)
    ensures ReadAll(ts + [t], s) == ReadAll(ts, s) + [Read(t, AfterAll(ts, s))]
    ensures AfterAll(ts + [t], s) == After(t, AfterAll(ts, s))
  {
    assert (ts + [t])[..|ts|] == ts;
  }

  lemma {:induction false} ReadConcat(a: seq<Tree>, b: seq<Tree>, s: Scope)
    ensures ReadAll(a + b, s) == ReadAll(a, s) + ReadAll(b, AfterAll(a, s))
    ensures AfterAll(a + b, s) == AfterAll(b, AfterAll(a, s))
    decreases |b|
  {
    if b == [] {
      assert a + b == a;
    } else {
      var c := b[..|b| - 1];
      ReadConcat(a, c, s);
      hide *;
      assert a + b == a + c + [b[|b| - 1]] && b == c + [b[|b| - 1]];
      ReadSnoc(a + c, b[|b| - 1], s);
      ReadSnoc(c, b[|b| - 1], AfterAll(a, s));
    }
  }

  lemma ReadOne(t: Tree, s: Scope)
    ensures ReadAll([t], s) == [Read(t, s)] && AfterAll([t], s) == After(t, s)
    ensures AnchorsAll([t]) == Anchors(t)
  {
    var ts := [t];
    assert ts[..0] == [];
  }

  lemma ReadAt(ts: seq<Tree>, j: nat, s: Scope)
    requires j < |ts|
    ensures ReadAll(ts, s)[j] == Read(ts[j], AfterAll(ts[..j], s))
  {
    var pre, t, post := ts[..j], ts[j], ts[j + 1..];
    assert ts == pre + [t] + post;
    ReadConcat(pre + [t], post, s);
    ReadConcat(pre, [t], s);
    ReadOne(t, s);
  }

  /** Exchanging part of a list: what comes before it is read as before, and what
      comes behind it exactly when both parts leave the same nodes under every
      name that is taken there. */
  lemma SpliceIff(pre: seq<Tree>, mid: seq<Tree>, other: seq<Tree>, post: seq<Tree>, s: Scope)
    ensures ReadAll(pre + mid + post, s) == ReadAll(pre, s) + ReadAll(mid, AfterAll(pre, s))
                                            + ReadAll(post, AfterAll(mid, AfterAll(pre, s)))
    ensures ReadAll(post, AfterAll(mid, AfterAll(pre, s))) == ReadAll(post, AfterAll(other, AfterAll(pre, s)))
            <==> Agree(AfterAll(mid, AfterAll(pre, s)), AfterAll(other, AfterAll(pre, s)), FreeAll(post))
  {
    ReadConcat(pre + mid, post, s);
    ReadConcat(pre, mid, s);
    SameReadingIff(post, AfterAll(mid, AfterAll(pre, s)), AfterAll(other, AfterAll(pre, s)));
  }

  /** Nodes without names leave the scope as it is. */
  lemma NamelessScope(ts: seq<Tree>, s: Scope)
    requires AnchorsAll(ts) == {}
    ensures AfterAll(ts, s) == s
  {
    AfterAllScope(ts, s);
    var after := AfterAll(ts, s);
    assert forall n | n in after :: Same(after, s, n);
    assert forall n | n in s :: Same(after, s, n);
  }

  // -------------------------------------------------------------------- paths

  /** The way to a node: the index of a child at every step, never through an
      alias, which has no children. */
  type Path = seq<nat>

  predicate HasPath(t: Tree, p: Path)
    decreases |p|
  {
    p == [] || (t.kind != Alias && PathIn(t.content, p))
  }

  predicate PathIn(ts: seq<Tree>, p: Path)
    decreases |p|, 0
  {
    p != [] && p[0] < |ts| && HasPath(ts[p[0]], p[1..])
  }

  function At(t: Tree, p: Path): Tree
    requires HasPath(t, p)
    decreases |p|
  {
    if p == [] then t else AtIn(t.content, p)
  }

  function AtIn(ts: seq<Tree>, p: Path): Tree
    requires PathIn(ts, p)
    decreases |p|, 0
  {
    At(ts[p[0]], p[1..])
  }

  function Exchange(t: Tree, p: Path, u: Tree): Tree
    requires HasPath(t, p)
    decreases |p|
  {
    if p == [] then u else t.(content := ExchangeIn(t.content, p, u))
  }

  function ExchangeIn(ts: seq<Tree>, p: Path, u: Tree): (r: seq<Tree>)
    requires PathIn(ts, p)
    ensures |r| == |ts|
    decreases |p|, 0
  {
    ts[p[0] := Exchange(ts[p[0]], p[1..], u)]
  }

  /** The scope in which the node at a path is read. */
  function ScopeAt(t: Tree, p: Path, s: Scope): Scope
    requires HasPath(t, p)
    decreases |p|
  {
    if p == [] then s else ScopeIn(t.content, p, Enter(t, s))
  }

  function ScopeIn(ts: seq<Tree>, p: Path, s: Scope): Scope
    requires PathIn(ts, p)
    decreases |p|, 0
  {
    ScopeAt(ts[p[0]], p[1..], AfterAll(ts[..p[0]], s))
  }

  /** The way to the node of that name that begins last. */
  function Last(t: Tree, name: string): (r: Option<Path>)
    ensures r.Some? ==> HasPath(t, r.value)
    decreases t, 1
  {
    if t.kind == Alias then None
    else if LastIn(t.content, name).Some? then LastIn(t.content, name)
    else if t.anchor == name then Some([]) else None
  }

  function LastIn(ts: seq<Tree>, name: string): (r: Option<Path>)
    ensures r.Some? ==> PathIn(ts, r.value)
    decreases ts, 0
  {
    if ts == [] then None
    else
      var n := |ts| - 1;
      match Last(ts[n], name)
      case Some(p) => assert ([n] + p)[1..] == p; Some([n] + p)
      case None => LastIn(ts[..n], name)
  }

  /** The search for a name is what reading does: it finds a node exactly when one
      gives the name, and the scope holds the meaning of that node. */
  lemma {:induction false} LastIsBound(t: Tree, name: string, s: Scope)
    requires name != ""
    ensures Last(t, name).Some? <==> name in Anchors(t)
    ensures Last(t, name).Some? ==>
              var p := Last(t, name).value;
              && At(t, p).anchor == name && At(t, p).kind != Alias && name !in AnchorsAll(At(t, p).content)
              && name in After(t, s) && After(t, s)[name] == Read(At(t, p), ScopeAt(t, p, s))
    decreases t, 1
  {
    if t.kind != Alias {
      LastInIsBound(t.content, name, Enter(t, s));
      AfterAllScope(t.content, Enter(t, s));
    }
  }

  lemma {:induction false} LastInIsBound(ts: seq<Tree>, name: string, s: Scope)
    requires name != ""
    ensures LastIn(ts, name).Some? <==> name in AnchorsAll(ts)
    ensures LastIn(ts, name).Some? ==>
              var p := LastIn(ts, name).value;
              && AtIn(ts, p).anchor == name && AtIn(ts, p).kind != Alias && name !in AnchorsAll(AtIn(ts, p).content)
              && name in AfterAll(ts, s) && AfterAll(ts, s)[name] == Read(AtIn(ts, p), ScopeIn(ts, p, s))
    decreases ts, 0
  {
    if ts != [] {
      var n := |ts| - 1;
      var front, last := ts[..n], ts[n];
      LastIsBound(last, name, AfterAll(front, s));
      LastInIsBound(front, name, s);
      AfterScope(last, AfterAll(front, s));
      if Last(last, name).Some? {
        var p := Last(last, name).value;
        assert ([n] + p)[1..] == p;
      } else if LastIn(front, name).Some? {
        PathInFront(ts, n, LastIn(front, name).value, s);
      }
    }
  }

  /** A path into the first nodes of a list. */
  lemma PathInFront(ts: seq<Tree>, n: nat, p: Path, s: Scope)
    requires n <= |ts| && PathIn(ts[..n], p)
    ensures PathIn(ts, p) && AtIn(ts, p) == AtIn(ts[..n], p) && ScopeIn(ts, p, s) == ScopeIn(ts[..n], p, s)
    ensures forall u :: ExchangeIn(ts, p, u)[..n] == ExchangeIn(ts[..n], p, u)
    ensures forall u, j | n <= j < |ts| :: ExchangeIn(ts, p, u)[j] == ts[j]
  {
    assert ts[..n][..p[0]] == ts[..p[0]];
  }

  // ------------------------------------------------------ exchanging one node

  lemma {:induction false} ExchangeFacts(t: Tree, p: Path, u: Tree, s: Scope)
    requires HasPath(t, p)
    ensures HasPath(Exchange(t, p, u), p) && At(Exchange(t, p, u), p) == u
    ensures ScopeAt(Exchange(t, p, u), p, s) == ScopeAt(t, p, s)
    ensures p != [] ==> Exchange(t, p, u) == t.(content := ExchangeIn(t.content, p, u))
    decreases |p|
  {
    if p != [] {
      ExchangeInFacts(t.content, p, u, Enter(t, s));
    }
  }

  lemma {:induction false} ExchangeInFacts(ts: seq<Tree>, p: Path, u: Tree, s: Scope)
    requires PathIn(ts, p)
    ensures PathIn(ExchangeIn(ts, p, u), p) && AtIn(ExchangeIn(ts, p, u), p) == u
    ensures ScopeIn(ExchangeIn(ts, p, u), p, s) == ScopeIn(ts, p, s)
    decreases |p|, 0
  {
    assert ExchangeIn(ts, p, u)[..p[0]] == ts[..p[0]];
    ExchangeFacts(ts[p[0]], p[1..], u, AfterAll(ts[..p[0]], s));
  }

  /** One step further down. */
  lemma {:induction false} AtSnoc(t: Tree, p: Path, i: nat, u: Tree)
    requires HasPath(t, p) && At(t, p).kind != Alias && i < |At(t, p).content|
    ensures HasPath(t, p + [i]) && At(t, p + [i]) == At(t, p).content[i]
    ensures Exchange(t, p + [i], u) == Exchange(t, p, At(t, p).(content := At(t, p).content[i := u]))
    decreases |p|
  {
    var q := p + [i];
    if p == [] {
      assert At(t, p) == t && q[0] == i;
      var tail := q[1..];
      assert tail == [];
      assert At(t.content[i], tail) == t.content[i] && Exchange(t.content[i], tail, u) == u;
      assert HasPath(t, q) && q != [];
      assert At(t, q) == AtIn(t.content, q);
    } else {
      assert q[0] == p[0] && q[1..] == p[1..] + [i];
      AtSnoc(t.content[p[0]], p[1..], i, u);
      assert PathIn(t.content, q) && At(t, q) == AtIn(t.content, q);
    }
  }

  /** A node that keeps its name is found where it was. */
  lemma {:induction false} ExchangeKeepsLast(t: Tree, name: string, u: Tree)
    requires name != "" && Last(t, name).Some?
    requires u.anchor == name && u.kind != Alias && name !in AnchorsAll(u.content)
    ensures Last(Exchange(t, Last(t, name).value, u), name) == Last(t, name)
    decreases t, 1
  {
    LastInIsBound(u.content, name, map[]);
    if LastIn(t.content, name).Some? {
      ExchangeKeepsLastIn(t.content, name, u);
    }
  }

  lemma {:induction false} ExchangeKeepsLastIn(ts: seq<Tree>, name: string, u: Tree)
    requires name != "" && LastIn(ts, name).Some?
    requires u.anchor == name && u.kind != Alias && name !in AnchorsAll(u.content)
    ensures LastIn(ExchangeIn(ts, LastIn(ts, name).value, u), name) == LastIn(ts, name)
    decreases ts, 0
  {
    var n, p := |ts| - 1, LastIn(ts, name).value;
    var after := ExchangeIn(ts, p, u);
    if Last(ts[n], name).Some? {
      assert p[1..] == Last(ts[n], name).value;
      ExchangeKeepsLast(ts[n], name, u);
    } else {
      PathInFront(ts, n, p, map[]);
      ExchangeKeepsLastIn(ts[..n], name, u);
      assert after[..n] == ExchangeIn(ts[..n], p, u) && after[n] == ts[n];
    }
  }

  /** The names that are given again behind the node at a path, inside `t`. */
  function GivenBehind(t: Tree, p: Path): set<string>
    requires HasPath(t, p)
    decreases |p|
  {
    if p == [] then {} else GivenBehindIn(t.content, p)
  }

  function GivenBehindIn(ts: seq<Tree>, p: Path): set<string>
    requires PathIn(ts, p)
    decreases |p|, 0
  {
    GivenBehind(ts[p[0]], p[1..]) + AnchorsAll(ts[p[0] + 1..])
  }

  /** The names that nodes behind the one at a path, inside `t`, take from it or
      from before it. */
  function TakenBehind(t: Tree, p: Path): set<string>
    requires HasPath(t, p)
    decreases |p|
  {
    if p == [] then {} else TakenBehindIn(t.content, p)
  }

  function TakenBehindIn(ts: seq<Tree>, p: Path): set<string>
    requires PathIn(ts, p)
    decreases |p|, 0
  {
    TakenBehind(ts[p[0]], p[1..]) + (FreeAll(ts[p[0] + 1..]) - GivenBehind(ts[p[0]], p[1..]))
  }

  /** Behind some nodes two scopes agree on a name that the nodes do not give
      exactly when they agreed on it before. */
  lemma SameBehind(ts: seq<Tree>, a: Scope, b: Scope, n: string)
    requires n !in AnchorsAll(ts)
    ensures Same(AfterAll(ts, a), AfterAll(ts, b), n) <==> Same(a, b, n)
  {
    AfterAllScope(ts, a);
    AfterAllScope(ts, b);
    assert Same(AfterAll(ts, a), a, n) && Same(AfterAll(ts, b), b, n);
  }

  /** Exchanging a node, anywhere, for one that is read the same and leaves the same
      nodes under every name taken behind it changes nothing around it. */
  lemma {:induction false} ExchangeUnnoticed(t: Tree, p: Path, u: Tree, s: Scope)
    requires HasPath(t, p)
    requires Read(u, ScopeAt(t, p, s)) == Read(At(t, p), ScopeAt(t, p, s))
    requires Agree(After(u, ScopeAt(t, p, s)), After(At(t, p), ScopeAt(t, p, s)), TakenBehind(t, p))
    ensures Read(Exchange(t, p, u), s) == Read(t, s)
    ensures forall n | n in GivenBehind(t, p) || Same(After(u, ScopeAt(t, p, s)), After(At(t, p), ScopeAt(t, p, s)), n) ::
              Same(After(Exchange(t, p, u), s), After(t, s), n)
    decreases |p|
  {
    if p != [] {
      ExchangeInUnnoticed(t.content, p, u, Enter(t, s));
      var v, e := Exchange(t, p, u), Enter(t, s);
      assert v.content == ExchangeIn(t.content, p, u) && v.kind == t.kind != Alias && v.anchor == t.anchor;
      assert Read(v, s) == Read(t, s) && Enter(v, s) == e;
      var x, y := AfterAll(v.content, e), AfterAll(t.content, e);
      hide *;
      forall n | Same(x, y, n) ensures Same(After(v, s), After(t, s), n) {
        SameAfter(v, t, s, n);
      }
    }
  }

  lemma SameAfter(v: Tree, t: Tree, s: Scope, n: string)
    requires v.kind != Alias && t.kind != Alias && v.anchor == t.anchor && Read(v, s) == Read(t, s)
    requires Same(AfterAll(v.content, Enter(v, s)), AfterAll(t.content, Enter(t, s)), n)
    ensures Same(After(v, s), After(t, s), n)
  {
    hide Read, AfterAll;
  }

  lemma {:induction false} ExchangeInUnnoticed(ts: seq<Tree>, p: Path, u: Tree, s: Scope)
    requires PathIn(ts, p)
    requires Read(u, ScopeIn(ts, p, s)) == Read(AtIn(ts, p), ScopeIn(ts, p, s))
    requires Agree(After(u, ScopeIn(ts, p, s)), After(AtIn(ts, p), ScopeIn(ts, p, s)), TakenBehindIn(ts, p))
    ensures ReadAll(ExchangeIn(ts, p, u), s) == ReadAll(ts, s)
    ensures forall n | n in GivenBehindIn(ts, p) || Same(After(u, ScopeIn(ts, p, s)), After(AtIn(ts, p), ScopeIn(ts, p, s)), n) ::
              Same(AfterAll(ExchangeIn(ts, p, u), s), AfterAll(ts, s), n)
    decreases |p|, 0
  {
    var k, q := p[0], p[1..];
    var c, d, post, e := ts[k], Exchange(ts[k], q, u), ts[k + 1..], AfterAll(ts[..k], s);
    ExchangeUnnoticed(c, q, u, e);
    var a, b := After(d, e), After(c, e);
    ReadAround(ts, k, c, s);
    ReadAround(ts, k, d, s);
    assert ts[k := c] == ts;
    hide Read, ReadAll, After, AfterAll, FreeAll, AnchorsAll;
    assert Agree(a, b, FreeAll(post)) by {
      assert forall n | n in FreeAll(post) :: n in GivenBehind(c, q) || n in TakenBehindIn(ts, p);
    }
    AgreeReadAll(post, a, b);
    forall n | n in GivenBehindIn(ts, p) || Same(After(u, ScopeIn(ts, p, s)), After(AtIn(ts, p), ScopeIn(ts, p, s)), n)
      ensures Same(AfterAll(post, a), AfterAll(post, b), n)
    {
      if n !in AnchorsAll(post) {
        SameBehind(post, a, b, n);
      }
    }
  }

  lemma ReadAround(ts: seq<Tree>, k: nat, t: Tree, s: Scope)
    requires k < |ts|
    ensures var e := AfterAll(ts[..k], s);
            && ReadAll(ts[k := t], s) == ReadAll(ts[..k], s) + [Read(t, e)] + ReadAll(ts[k + 1..], After(t, e))
            && AfterAll(ts[k := t], s) == AfterAll(ts[k + 1..], After(t, e))
  {
    hide *;
    assert ts[k := t] == ts[..k] + [t] + ts[k + 1..];
    ReadConcat(ts[..k] + [t], ts[k + 1..], s);
    ReadSnoc(ts[..k], t, s);
  }

  // The meaning of a node is larger than those of the nodes inside it.

  function Size(m: Meaning): nat
    decreases m, 1
  {
    1 + SizeAll(m.content)
  }

  function SizeAll(ms: seq<Meaning>): nat
    decreases ms, 0
  {
    if ms == [] then 0 else SizeAll(ms[..|ms| - 1]) + Size(ms[|ms| - 1])
  }

  lemma {:induction false} SizeOfPart(ms: seq<Meaning>, i: nat)
    requires i < |ms|
    ensures Size(ms[i]) <= SizeAll(ms)
  {
    if i < |ms| - 1 {
      SizeOfPart(ms[..|ms| - 1], i);
    }
  }

  lemma {:induction false} InsideIsSmaller(ts: seq<Tree>, p: Path, s: Scope)
    requires PathIn(ts, p)
    ensures Size(Read(AtIn(ts, p), ScopeIn(ts, p, s))) <= SizeAll(ReadAll(ts, s))
    decreases |p|
  {
    var k, q := p[0], p[1..];
    var c, e := ts[k], AfterAll(ts[..k], s);
    ReadAt(ts, k, s);
    SizeOfPart(ReadAll(ts, s), k);
    hide ReadAll, AfterAll, SizeAll;
    if q != [] {
      InsideIsSmaller(c.content, q, Enter(c, e));
    }
  }

  /** The name of a node is bound to another meaning inside it than behind it. */
  lemma NamedInside(t: Tree, s: Scope)
    requires t.kind != Alias && t.anchor != ""
    ensures var inner := AfterAll(t.content, Enter(t, s));
            t.anchor in inner ==> inner[t.anchor] != Read(t, s)
  {
    var e := Enter(t, s);
    LastInIsBound(t.content, t.anchor, e);
    AfterAllScope(t.content, e);
    hide AfterAll, ReadAll, AnchorsAll;
    if t.anchor in AfterAll(t.content, e) {
      assert t.anchor !in e;
      assert Same(AfterAll(t.content, e), e, t.anchor) ==> t.anchor in e;
      InsideIsSmaller(t.content, LastIn(t.content, t.anchor).value, e);
    }
  }

  /** And only those: an exchange that is not noticed around it is one of these. */
  lemma {:induction false} ExchangeNoticed(t: Tree, p: Path, u: Tree, s: Scope)
    requires HasPath(t, p) && Read(Exchange(t, p, u), s) == Read(t, s)
    ensures Read(u, ScopeAt(t, p, s)) == Read(At(t, p), ScopeAt(t, p, s))
    ensures Agree(After(u, ScopeAt(t, p, s)), After(At(t, p), ScopeAt(t, p, s)), TakenBehind(t, p))
    ensures forall n | n !in GivenBehind(t, p) && Same(After(Exchange(t, p, u), s), After(t, s), n) ::
              Same(After(u, ScopeAt(t, p, s)), After(At(t, p), ScopeAt(t, p, s)), n)
    decreases |p|
  {
    if p != [] {
      ExchangeInNoticed(t.content, p, u, Enter(t, s));
      var v, e := Exchange(t, p, u), Enter(t, s);
      var x, y := AfterAll(v.content, e), AfterAll(t.content, e);
      if t.anchor != "" {
        NamedInside(t, s);
        NamedInside(v, s);
      }
      hide Read, ReadAll, AfterAll;
      forall n | Same(After(v, s), After(t, s), n) ensures Same(x, y, n) {
        if n == t.anchor {
          assert Same(After(v, s), After(t, s), t.anchor);
        }
      }
    }
  }

  lemma {:induction false} ExchangeInNoticed(ts: seq<Tree>, p: Path, u: Tree, s: Scope)
    requires PathIn(ts, p) && ReadAll(ExchangeIn(ts, p, u), s) == ReadAll(ts, s)
    ensures Read(u, ScopeIn(ts, p, s)) == Read(AtIn(ts, p), ScopeIn(ts, p, s))
    ensures Agree(After(u, ScopeIn(ts, p, s)), After(AtIn(ts, p), ScopeIn(ts, p, s)), TakenBehindIn(ts, p))
    ensures forall n | n !in GivenBehindIn(ts, p) && Same(AfterAll(ExchangeIn(ts, p, u), s), AfterAll(ts, s), n) ::
              Same(After(u, ScopeIn(ts, p, s)), After(AtIn(ts, p), ScopeIn(ts, p, s)), n)
    decreases |p|, 0
  {
    var k, q := p[0], p[1..];
    var c, d, post, e := ts[k], Exchange(ts[k], q, u), ts[k + 1..], AfterAll(ts[..k], s);
    var a, b := After(d, e), After(c, e);
    ReadAround(ts, k, c, s);
    ReadAround(ts, k, d, s);
    assert ts[k := c] == ts;
    hide Read, ReadAll, After, AfterAll, FreeAll, AnchorsAll;
    SamePieces(ReadAll(ts[..k], s), Read(c, e), Read(d, e), ReadAll(post, b), ReadAll(post, a));
    ExchangeNoticed(c, q, u, e);
    ReadAllTellsScope(post, a, b);
    forall n | n !in GivenBehindIn(ts, p) && Same(AfterAll(post, a), AfterAll(post, b), n) ensures Same(a, b, n) {
      SameBehind(post, a, b, n);
    }
  }

  lemma SamePieces<T>(pre: seq<T>, x: T, y: T, c: seq<T>, d: seq<T>)
    requires pre + [y] + d == pre + [x] + c
    ensures x == y && c == d
  {
    var a, b := pre + [x] + c, pre + [y] + d;
    assert a[|pre|] == x && b[|pre|] == y;
    assert a[|pre| + 1..] == c && b[|pre| + 1..] == d;
  }

  /** Exchanging a node anywhere in a list of nodes is noticed nowhere if and only
      if the new node is read like the old one and leaves the same nodes under every
      name that is taken behind it. */
  lemma ExchangeIff(ts: seq<Tree>, p: Path, u: Tree, s: Scope)
    requires PathIn(ts, p)
    ensures ReadAll(ExchangeIn(ts, p, u), s) == ReadAll(ts, s) <==>
              && Read(u, ScopeIn(ts, p, s)) == Read(AtIn(ts, p), ScopeIn(ts, p, s))
              && Agree(After(u, ScopeIn(ts, p, s)), After(AtIn(ts, p), ScopeIn(ts, p, s)), TakenBehindIn(ts, p))
  {
    hide *;
    if ReadAll(ExchangeIn(ts, p, u), s) == ReadAll(ts, s) {
      ExchangeInNoticed(ts, p, u, s);
    } else if Read(u, ScopeIn(ts, p, s)) == Read(AtIn(ts, p), ScopeIn(ts, p, s))
              && Agree(After(u, ScopeIn(ts, p, s)), After(AtIn(ts, p), ScopeIn(ts, p, s)), TakenBehindIn(ts, p)) {
      ExchangeInUnnoticed(ts, p, u, s);
    }
  }

  /** The scope behind a node whose children have no names. */
  lemma AfterNameless(t: Tree, s: Scope)
    requires t.kind != Alias && AnchorsAll(t.content) == {}
    ensures After(t, s) == if t.anchor == "" then s else s[t.anchor := Read(t, s)]
  {
    NamelessScope(t.content, Enter(t, s));
  }

  // --------------------------------------------------------- names and labels

  lemma {:induction false} NamelessIff(ts: seq<Tree>)
    ensures AnchorsAll(ts) == {} <==> forall j | 0 <= j < |ts| :: Anchors(ts[j]) == {}
  {
    if ts != [] {
      NamelessIff(ts[..|ts| - 1]);
    }
  }

  lemma {:induction false} NamesOfConcat(a: seq<Tree>, b: seq<Tree>)
    ensures AnchorsAll(a + b) == AnchorsAll(a) + AnchorsAll(b)
    decreases |b|
  {
    if b == [] {
      assert a + b == a;
    } else {
      var c := b[..|b| - 1];
      NamesOfConcat(a, c);
      assert (a + b)[..|a + b| - 1] == a + c;
    }
  }

  lemma {:induction false} SameSearch(ts: seq<Tree>, ms: seq<Meaning>, key: string)
    requires |ts| == |ms| && forall j | 0 <= j < |ts| :: LabelOf(ts[j]) == LabelRead(ms[j])
    ensures First(ts, Named(LabelOf, key)) == First(ms, Named(LabelRead, key))
    ensures First(ts, ScalarNamed(LabelOf, key)) == First(ms, ScalarNamed(LabelRead, key))
  {
    if |ts| >= 2 {
      SameSearch(ts[2..], ms[2..], key);
      assert LabelOf(ts[0]) == LabelRead(ms[0]);
    }
  }

  /** Reading keeps the kind and text of every node, so that a key is found in the
      same place before and after. */
  lemma ReadKeepsSearch(ts: seq<Tree>, s: Scope, key: string)
    ensures First(ts, Named(LabelOf, key)) == First(ReadAll(ts, s), Named(LabelRead, key))
    ensures First(ts, ScalarNamed(LabelOf, key)) == First(ReadAll(ts, s), ScalarNamed(LabelRead, key))
  {
    forall j | 0 <= j < |ts| ensures LabelOf(ts[j]) == LabelRead(ReadAll(ts, s)[j]) {
      ReadAt(ts, j, s);
    }
    SameSearch(ts, ReadAll(ts, s), key);
  }

  // ------------------------------------------------- what an alias stands for

  /** The node of that name that a reader of the node at `p` finds, as a path from
      the root: `t` is the node at `base`, `outer` what is found before it. */
  function Binder(t: Tree, base: Path, p: Path, name: string, outer: Option<Path>): Option<Path>
    requires HasPath(t, p)
    decreases |p|
  {
    if p == [] then outer else BinderIn(t.content, base, p, name, if t.anchor == name then None else outer)
  }

  function BinderIn(ts: seq<Tree>, base: Path, p: Path, name: string, outer: Option<Path>): Option<Path>
    requires PathIn(ts, p)
    decreases |p|, 0
  {
    var here := match LastIn(ts[..p[0]], name) case Some(q) => Some(base + q) case None => outer;
    Binder(ts[p[0]], base + [p[0]], p[1..], name, here)
  }

  /** The last node of that name before the one at `p` that does not contain it. */
  function BinderAt(doc: Tree, p: Path, name: string): Option<Path>
    requires HasPath(doc, p)
  {
    Binder(doc, [], p, name, None)
  }

  lemma {:induction false} PathConcat(t: Tree, p: Path, q: Path, s: Scope)
    requires HasPath(t, p) && HasPath(At(t, p), q)
    ensures HasPath(t, p + q) && At(t, p + q) == At(At(t, p), q)
    ensures ScopeAt(t, p + q, s) == ScopeAt(At(t, p), q, ScopeAt(t, p, s))
    decreases |p|
  {
    if p == [] {
      assert p + q == q;
    } else {
      var k := p[0];
      assert At(t, p) == AtIn(t.content, p) == At(t.content[k], p[1..]);
      PathConcat(t.content[k], p[1..], q, AfterAll(t.content[..k], Enter(t, s)));
      assert (p + q)[0] == k && (p + q)[1..] == p[1..] + q;
    }
  }

  lemma ChildPath(t: Tree, p: Path, i: nat, s: Scope)
    requires HasPath(t, p) && At(t, p).kind != Alias && i < |At(t, p).content|
    ensures HasPath(t, p + [i]) && At(t, p + [i]) == At(t, p).content[i]
    ensures ScopeAt(t, p + [i], s) == AfterAll(At(t, p).content[..i], Enter(At(t, p), ScopeAt(t, p, s)))
  {
    var c, q := At(t, p), [i];
    assert q[1..] == [];
    assert HasPath(c.content[i], q[1..]) && PathIn(c.content, q) && HasPath(c, q);
    assert At(c, q) == AtIn(c.content, q) == c.content[i];
    var e := ScopeAt(t, p, s);
    assert ScopeAt(c, q, e) == ScopeIn(c.content, q, Enter(c, e)) == AfterAll(c.content[..i], Enter(c, e));
    PathConcat(t, p, q, s);
  }

  /** The scope holds for a name the meaning of the node at a path, or nothing. */
  predicate Bound(doc: Tree, s: Scope, name: string, found: Option<Path>) {
    && (found.Some? <==> name in s)
    && (found.Some? ==>
          HasPath(doc, found.value) && s[name] == Read(At(doc, found.value), ScopeAt(doc, found.value, map[])))
  }

  lemma {:induction false} BinderIsBound(doc: Tree, base: Path, p: Path, name: string, outer: Option<Path>)
    requires name != "" && HasPath(doc, base) && HasPath(At(doc, base), p)
    requires Bound(doc, ScopeAt(doc, base, map[]), name, outer)
    ensures HasPath(doc, base + p)
    ensures Bound(doc, ScopeAt(doc, base + p, map[]), name, Binder(At(doc, base), base, p, name, outer))
    decreases |p|
  {
    var t, s := At(doc, base), ScopeAt(doc, base, map[]);
    if p == [] {
      assert base + p == base;
    } else {
      var k, e := p[0], Enter(t, s);
      var here := match LastIn(t.content[..k], name) case Some(q) => Some(base + q)
                                                     case None => if t.anchor == name then None else outer;
      ListIsBound(doc, base, k, name, outer);
      ChildPath(doc, base, k, map[]);
      assert base + [k] + p[1..] == base + p;
      BinderIsBound(doc, base + [k], p[1..], name, here);
    }
  }

  lemma ListIsBound(doc: Tree, base: Path, k: nat, name: string, outer: Option<Path>)
    requires name != "" && HasPath(doc, base) && At(doc, base).kind != Alias && k < |At(doc, base).content|
    requires Bound(doc, ScopeAt(doc, base, map[]), name, outer)
    ensures var t := At(doc, base);
            var here := match LastIn(t.content[..k], name) case Some(q) => Some(base + q)
                                                           case None => if t.anchor == name then None else outer;
            Bound(doc, AfterAll(t.content[..k], Enter(t, ScopeAt(doc, base, map[]))), name, here)
  {
    var t, s := At(doc, base), ScopeAt(doc, base, map[]);
    var pre, e := t.content[..k], Enter(t, s);
    LastInIsBound(pre, name, e);
    AfterAllScope(pre, e);
    hide AfterAll, AnchorsAll, Read, LastIn;
    if LastIn(pre, name).Some? {
      var q := LastIn(pre, name).value;
      PathInFront(t.content, k, q, e);
      assert HasPath(t, q) && At(t, q) == AtIn(pre, q) && ScopeAt(t, q, s) == ScopeIn(pre, q, e);
      PathConcat(doc, base, q, map[]);
    } else {
      assert Same(AfterAll(pre, e), e, name);
    }
  }

  /** An alias is read as the node that the search finds, exactly when it finds one. */
  lemma AliasStandsFor(doc: Tree, p: Path, name: string)
    requires name != "" && HasPath(doc, p)
    ensures Bound(doc, ScopeAt(doc, p, map[]), name, BinderAt(doc, p, name))
  {
    assert At(doc, []) == doc && [] + p == p;
    BinderIsBound(doc, [], p, name, None);
  }

  // ------------------------------------------------------- documents that load

  /** A document that loads has a node for each of its aliases. */
  lemma {:induction false} KnownIsResolved(t: Tree, p: Path, s: Scope)
    requires HasPath(t, p) && At(t, p).kind == Alias && Known(Read(t, s))
    ensures At(t, p).value in ScopeAt(t, p, s)
    decreases |p|
  {
    if p != [] {
      var k, e := p[0], Enter(t, s);
      ReadAt(t.content, k, e);
      assert Known(Read(t, s).content[k]);
      hide Known, ReadAll, AfterAll;
      KnownIsResolved(t.content[k], p[1..], AfterAll(t.content[..k], e));
    }
  }

  predicate AllKnown(s: Scope) {
    forall name | name in s :: Known(s[name])
  }

  ghost predicate Resolved(t: Tree, s: Scope) {
    forall p | HasPath(t, p) && At(t, p).kind == Alias :: At(t, p).value in ScopeAt(t, p, s)
  }

  ghost predicate ResolvedIn(ts: seq<Tree>, s: Scope) {
    forall p | PathIn(ts, p) && AtIn(ts, p).kind == Alias :: AtIn(ts, p).value in ScopeIn(ts, p, s)
  }

  lemma {:induction false} ResolvedIsKnown(t: Tree, s: Scope)
    requires Resolved(t, s) && AllKnown(s)
    ensures Known(Read(t, s)) && AllKnown(After(t, s))
    decreases t, 1
  {
    if t.kind == Alias {
      var p: Path := [];
      assert HasPath(t, p) && At(t, p) == t && ScopeAt(t, p, s) == s;
    } else {
      var e := Enter(t, s);
      forall p | PathIn(t.content, p) && AtIn(t.content, p).kind == Alias
        ensures AtIn(t.content, p).value in ScopeIn(t.content, p, e)
      {
        assert HasPath(t, p) && At(t, p) == AtIn(t.content, p) && ScopeAt(t, p, s) == ScopeIn(t.content, p, e);
      }
      ListIsKnown(t.content, e);
      hide ReadAll, AfterAll;
    }
  }

  lemma {:induction false} ListIsKnown(ts: seq<Tree>, s: Scope)
    requires ResolvedIn(ts, s) && AllKnown(s)
    ensures AllKnown(AfterAll(ts, s)) && forall i | 0 <= i < |ts| :: Known(ReadAll(ts, s)[i])
    decreases ts, 0
  {
    if ts != [] {
      var n := |ts| - 1;
      var front, last := ts[..n], ts[n];
      FrontIsResolved(ts, s);
      ListIsKnown(front, s);
      ResolvedIsKnown(last, AfterAll(front, s));
      hide Known, Read, After, Resolved, ResolvedIn;
    }
  }

  lemma FrontIsResolved(ts: seq<Tree>, s: Scope)
    requires ts != [] && ResolvedIn(ts, s)
    ensures var n := |ts| - 1; ResolvedIn(ts[..n], s) && Resolved(ts[n], AfterAll(ts[..n], s))
  {
    hide AfterAll;
    var n := |ts| - 1;
    forall p | PathIn(ts[..n], p) && AtIn(ts[..n], p).kind == Alias
      ensures AtIn(ts[..n], p).value in ScopeIn(ts[..n], p, s)
    {
      PathInFront(ts, n, p, s);
    }
    forall q | HasPath(ts[n], q) && At(ts[n], q).kind == Alias
      ensures At(ts[n], q).value in ScopeAt(ts[n], q, AfterAll(ts[..n], s))
    {
      var p := [n] + q;
      assert p[1..] == q;
      assert PathIn(ts, p) && AtIn(ts, p) == At(ts[n], q);
    }
  }

  lemma {:induction false} NoEmptyScope(t: Tree, p: Path, s: Scope)
    requires HasPath(t, p) && "" !in s
    ensures "" !in ScopeAt(t, p, s)
    decreases |p|
  {
    if p != [] {
      var pre, e := t.content[..p[0]], Enter(t, s);
      NoEmptyName(pre);
      AfterAllScope(pre, e);
      hide AfterAll, AnchorsAll;
      NoEmptyScope(t.content[p[0]], p[1..], AfterAll(pre, e));
    }
  }

  lemma LoadsIfResolved(doc: Tree)
    ensures Loads(doc) <==> Resolved(doc, map[])
  {
    hide ScopeAt, At, HasPath, Known, Read;
    if Loads(doc) {
      forall p | HasPath(doc, p) && At(doc, p).kind == Alias
        ensures At(doc, p).value in ScopeAt(doc, p, map[])
      {
        KnownIsResolved(doc, p, map[]);
      }
    }
    if Resolved(doc, map[]) {
      ResolvedIsKnown(doc, map[]);
    }
  }

  /** The alias at `p` has a node of its name before it that does not contain it. */
  predicate Finds(doc: Tree, p: Path)
    requires HasPath(doc, p)
  {
    At(doc, p).value != "" && BinderAt(doc, p, At(doc, p).value).Some?
  }

  lemma FindsIff(doc: Tree, p: Path)
    requires HasPath(doc, p) && At(doc, p).kind == Alias
    ensures Finds(doc, p) <==> At(doc, p).value in ScopeAt(doc, p, map[])
  {
    NoEmptyScope(doc, p, map[]);
    if At(doc, p).value != "" {
      AliasStandsFor(doc, p, At(doc, p).value);
    }
  }

  /** A document loads if and only if every alias in it finds its node. */
  lemma LoadsIff(doc: Tree)
    ensures Loads(doc) <==> forall p | HasPath(doc, p) && At(doc, p).kind == Alias :: Finds(doc, p)
  {
    hide ScopeAt, At, HasPath, Finds, Loads;
    LoadsIfResolved(doc);
    forall p | HasPath(doc, p) && At(doc, p).kind == Alias
      ensures Finds(doc, p) <==> At(doc, p).value in ScopeAt(doc, p, map[])
    {
      FindsIff(doc, p);
    }
  }
}
