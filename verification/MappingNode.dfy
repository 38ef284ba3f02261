/** The alternating key/value list of a YAML mapping node and the three edits of
    usage_ping_yaml.go: find, upsert and delete. The lists are generic, because
    the same edits are applied to nodes in memory and to parsed documents. */
module MappingNode {
  import opened Decimal

  datatype Kind = Sequence | Mapping | Scalar | Alias

  /** What the edits look at in a node. */
  datatype Label = Label(kind: Kind, value: string)

  /** Where the first pair is whose key satisfies `hit`, or -1. A key without a
      value at the end of the list is not a pair. */
  function First<N>(content: seq<N>, hit: N -> bool): (i: int)
    ensures i == -1 || (0 <= i && i % 2 == 0 && i + 1 < |content| && hit(content[i]))
  {
    if |content| < 2 then -1
    else if hit(content[0]) then 0
    else
      var i := First(content[2..], hit);
      if i < 0 then -1 else i + 2
  }

  function Named<N>(lab: N -> Label, key: string): N -> bool {
    n => lab(n).value == key
  }

  function ScalarNamed<N>(lab: N -> Label, key: string): N -> bool {
    n => lab(n) == Label(Scalar, key)
  }

  /** findMappingValue looks for a scalar key ... */
  function Find<N>(content: seq<N>, lab: N -> Label, key: string): Option<N> {
    var i := First(content, ScalarNamed(lab, key));
    if i < 0 then None else Some(content[i + 1])
  }

  /** ... but upsert and delete accept a key of any kind. */
  function Upsert<N>(content: seq<N>, lab: N -> Label, key: string, keyNode: N, value: N): seq<N> {
    var i := First(content, Named(lab, key));
    if i < 0 then content + [keyNode, value] else content[i + 1 := value]
  }

  function Delete<N>(content: seq<N>, lab: N -> Label, key: string): seq<N> {
    var i := First(content, Named(lab, key));
    if i < 0 then content else content[..i] + content[i + 2..]
  }

  // ------------------------------------------------------------ concatenation

  lemma {:induction false} FirstOfConcat<N>(pre: seq<N>, post: seq<N>, hit: N -> bool)
    requires |pre| % 2 == 0
    ensures First(pre + post, hit) ==
            if First(pre, hit) >= 0 then First(pre, hit)
            else if First(post, hit) >= 0 then |pre| + First(post, hit) else -1
  {
    if |pre| == 0 {
      assert pre + post == post;
    } else {
      assert (pre + post)[2..] == pre[2..] + post;
      FirstOfConcat(pre[2..], post, hit);
    }
  }

  /** Nothing before the first hit is a hit. */
  lemma {:induction false} NoneBeforeFirst<N>(content: seq<N>, hit: N -> bool)
    requires First(content, hit) >= 0
    ensures First(content[..First(content, hit)], hit) == -1
  {
    if !hit(content[0]) {
      NoneBeforeFirst(content[2..], hit);
      var i := First(content[2..], hit);
      assert content[..i + 2][2..] == content[2..][..i];
    }
  }

  lemma {:induction false} NoNameNoScalar<N>(content: seq<N>, lab: N -> Label, key: string)
    requires First(content, Named(lab, key)) == -1
    ensures First(content, ScalarNamed(lab, key)) == -1
  {
    if |content| >= 2 {
      NoNameNoScalar(content[2..], lab, key);
    }
  }

  lemma {:induction false} ScalarNameFirst<N>(content: seq<N>, lab: N -> Label, key: string)
    requires First(content, Named(lab, key)) >= 0 && lab(content[First(content, Named(lab, key))]).kind == Scalar
    ensures First(content, ScalarNamed(lab, key)) == First(content, Named(lab, key))
  {
    if lab(content[0]).value != key {
      ScalarNameFirst(content[2..], lab, key);
    }
  }

  lemma NoPairs<N>(hit: N -> bool)
    ensures First([], hit) == -1
  {
  }

  /** The pair that upsert and delete act on. */
  function FirstPair<N>(content: seq<N>, lab: N -> Label, key: string): Option<(N, N)> {
    var i := First(content, Named(lab, key));
    if i < 0 then None else Some((content[i], content[i + 1]))
  }

  lemma VisiblePair<N>(content: seq<N>, lab: N -> Label, key: string)
    requires |content| % 2 == 0
    ensures Visible(content, lab, key) <==>
              FirstPair(content, lab, key).None? || lab(FirstPair(content, lab, key).value.0).kind == Scalar
  {
  }

  lemma UpsertPair<N>(content: seq<N>, lab: N -> Label, key: string, keyNode: N, value: N, other: string)
    requires lab(keyNode) == Label(Scalar, key) && |content| % 2 == 0
    ensures FirstPair(Upsert(content, lab, key, keyNode, value), lab, other) ==
            if other != key then FirstPair(content, lab, other)
            else Some((if FirstPair(content, lab, key).Some? then FirstPair(content, lab, key).value.0 else keyNode, value))
  {
    var i, hit := First(content, Named(lab, key)), Named(lab, other);
    if i >= 0 {
      assert lab(content[i]).value == key;
      var j := First(content, hit);
      assert j >= 0 && other != key ==> j != i by {
        assert j >= 0 ==> lab(content[j]).value == other;
      }
      hide First;
      FirstOfUpdate(content, hit, i + 1, value);
    } else {
      hide First;
      FirstOfConcat(content, [keyNode, value], hit);
      FirstOfPair(keyNode, value, [], hit);
      NoPairs(hit);
      assert [keyNode, value] + [] == [keyNode, value];
    }
  }

  lemma DeletePair<N>(content: seq<N>, lab: N -> Label, key: string, other: string)
    requires |content| % 2 == 0 && other != key
    ensures FirstPair(Delete(content, lab, key), lab, other) == FirstPair(content, lab, other)
  {
    var i := First(content, Named(lab, key));
    if i >= 0 {
      var pre, k, v, post := content[..i], content[i], content[i + 1], content[i + 2..];
      assert lab(k).value == key;
      assert content == pre + ([k, v] + post);
      hide First, FirstPair;
      PairAround(pre, k, v, post, lab, other);
    }
  }

  lemma PairAround<N>(pre: seq<N>, k: N, v: N, post: seq<N>, lab: N -> Label, key: string)
    requires |pre| % 2 == 0 && lab(k).value != key
    ensures FirstPair(pre + post, lab, key) == FirstPair(pre + ([k, v] + post), lab, key)
  {
    var hit := Named(lab, key);
    hide First;
    FirstOfConcat(pre, post, hit);
    FirstOfConcat(pre, [k, v] + post, hit);
    FirstOfPair(k, v, post, hit);
    var a := First(pre + post, hit);
    if a >= |pre| {
      assert (pre + post)[a] == post[a - |pre|] == (pre + ([k, v] + post))[a + 2];
      assert (pre + post)[a + 1] == post[a + 1 - |pre|] == (pre + ([k, v] + post))[a + 3];
    }
  }

  /** Nothing before the first hit, and nothing at all without one. */
  lemma {:induction false} NoHitBefore<N>(content: seq<N>, hit: N -> bool, j: nat)
    requires j % 2 == 0 && j + 1 < |content| && (First(content, hit) < 0 || j < First(content, hit))
    ensures !hit(content[j])
  {
    if j > 0 {
      NoHitBefore(content[2..], hit, j - 2);
    }
  }

  /** The list around the pair that upsert and delete act on. */
  lemma SplitAtName<N>(content: seq<N>, lab: N -> Label, key: string)
    requires First(content, Named(lab, key)) >= 0
    ensures var i := First(content, Named(lab, key));
            && content == content[..i] + [content[i], content[i + 1]] + content[i + 2..]
            && First(content[..i], Named(lab, key)) == -1 && First(content[..i], ScalarNamed(lab, key)) == -1
  {
    var i := First(content, Named(lab, key));
    NoneBeforeFirst(content, Named(lab, key));
    NoNameNoScalar(content[..i], lab, key);
  }

  lemma UpdateAround<N>(content: seq<N>, i: nat, value: N)
    requires i + 1 < |content|
    ensures content[i + 1 := value] == content[..i] + [content[i], value] + content[i + 2..]
  {
  }

  lemma FirstOfPair<N>(k: N, v: N, post: seq<N>, hit: N -> bool)
    ensures First([k, v] + post, hit) ==
            if hit(k) then 0 else if First(post, hit) >= 0 then First(post, hit) + 2 else -1
  {
    assert ([k, v] + post)[2..] == post;
  }

  /** A value in the list plays no part in the search for a key. */
  lemma {:induction false} FirstOfUpdate<N>(content: seq<N>, hit: N -> bool, j: nat, value: N)
    requires j < |content| && j % 2 == 1
    ensures First(content[j := value], hit) == First(content, hit)
  {
    if j > 1 {
      assert content[j := value][2..] == content[2..][j - 2 := value];
      FirstOfUpdate(content[2..], hit, j - 2, value);
    } else {
      assert content[j := value][2..] == content[2..];
    }
  }

  /** Find on `pre + [k, v] + post`. */
  lemma FindAround<N>(pre: seq<N>, k: N, v: N, post: seq<N>, lab: N -> Label, key: string)
    requires |pre| % 2 == 0
    ensures Find(pre + [k, v] + post, lab, key) ==
            if Find(pre, lab, key).Some? then Find(pre, lab, key)
            else if lab(k) == Label(Scalar, key) then Some(v)
            else Find(post, lab, key)
  {
    var hit := ScalarNamed(lab, key);
    assert pre + [k, v] + post == pre + ([k, v] + post);
    FirstOfConcat(pre, [k, v] + post, hit);
    FirstOfPair(k, v, post, hit);
  }

  /** Find on `pre + [k, v]`. */
  lemma FindAppended<N>(pre: seq<N>, k: N, v: N, lab: N -> Label, key: string)
    requires |pre| % 2 == 0
    ensures Find(pre + [k, v], lab, key) ==
            if Find(pre, lab, key).Some? then Find(pre, lab, key)
            else if lab(k) == Label(Scalar, key) then Some(v)
            else None
  {
    FirstOfConcat(pre, [k, v], ScalarNamed(lab, key));
  }

  lemma FindOfConcat<N>(pre: seq<N>, post: seq<N>, lab: N -> Label, key: string)
    requires |pre| % 2 == 0
    ensures Find(pre + post, lab, key) ==
            if Find(pre, lab, key).Some? then Find(pre, lab, key) else Find(post, lab, key)
  {
    FirstOfConcat(pre, post, ScalarNamed(lab, key));
  }

  lemma FoundIsThere<N>(content: seq<N>, lab: N -> Label, key: string)
    requires Find(content, lab, key).Some?
    ensures Find(content, lab, key).value in content
  {
  }

  // ------------------------------------------------- exact laws, any content

  /** The key under which an upsert stores its value is one that find can see. */
  predicate Visible<N>(content: seq<N>, lab: N -> Label, key: string) {
    var i := First(content, Named(lab, key));
    if i < 0 then |content| % 2 == 0 else lab(content[i]).kind == Scalar
  }

  /** An append makes `name`, dangling at the end of the list, a key whose value
      is the appended key. */
  predicate Misaligns<N>(content: seq<N>, lab: N -> Label, key: string, name: string) {
    && First(content, Named(lab, key)) < 0 && |content| % 2 == 1
    && lab(content[|content| - 1]) == Label(Scalar, name) && Find(content, lab, name) == None
  }

  /** What find returns for the upserted key, on any list. */
  lemma FindAfterUpsert<N>(content: seq<N>, lab: N -> Label, key: string, keyNode: N, value: N)
    requires lab(keyNode) == Label(Scalar, key)
    ensures Find(Upsert(content, lab, key, keyNode, value), lab, key) ==
            if Visible(content, lab, key) then Some(value)
            else if Misaligns(content, lab, key, key) then Some(keyNode)
            else Find(content, lab, key)
  {
    hide Find, First;
    var i := First(content, Named(lab, key));
    if i >= 0 {
      SplitAtName(content, lab, key);
      var pre, k, v, post := content[..i], content[i], content[i + 1], content[i + 2..];
      UpdateAround(content, i, value);
      FindAround(pre, k, value, post, lab, key);
      FindAround(pre, k, v, post, lab, key);
      FindNone(pre, lab, key);
    } else {
      NoNameNoScalar(content, lab, key);
      FindNone(content, lab, key);
      FindAfterAppend(content, lab, key, keyNode, value);
    }
  }

  lemma FindNone<N>(content: seq<N>, lab: N -> Label, key: string)
    requires First(content, ScalarNamed(lab, key)) == -1
    ensures Find(content, lab, key) == None
  {
  }

  /** What find returns for any name after an append. */
  lemma FindAfterAppend<N>(content: seq<N>, lab: N -> Label, name: string, keyNode: N, value: N)
    ensures Find(content + [keyNode, value], lab, name) ==
            if Find(content, lab, name).Some? then Find(content, lab, name)
            else if |content| % 2 == 0 then (if lab(keyNode) == Label(Scalar, name) then Some(value) else None)
            else if lab(content[|content| - 1]) == Label(Scalar, name) then Some(keyNode)
            else None
  {
    hide First, Find;
    if |content| % 2 == 0 {
      FindAppended(content, keyNode, value, lab, name);
    } else {
      var pre, dangling := content[..|content| - 1], content[|content| - 1];
      assert content == pre + [dangling];
      FindOfConcat(pre, [dangling], lab, name);
      FindInOne(dangling, lab, name);
      FindAround(pre, dangling, keyNode, [value], lab, name);
      FindInOne(value, lab, name);
      assert content + [keyNode, value] == pre + [dangling, keyNode] + [value];
    }
  }

  lemma FindInOne<N>(n: N, lab: N -> Label, key: string)
    ensures Find([n], lab, key) == None
  {
  }

  /** Upsert then find returns the new node exactly when the stored key is
      visible: not a non-scalar node of the same text, and not misaligned by a
      dangling key. */
  lemma UpsertThenFind<N>(content: seq<N>, lab: N -> Label, key: string, keyNode: N, value: N)
    requires lab(keyNode) == Label(Scalar, key)
    requires value !in content && value != keyNode
    ensures Find(Upsert(content, lab, key, keyNode, value), lab, key) == Some(value) <==> Visible(content, lab, key)
  {
    FindAfterUpsert(content, lab, key, keyNode, value);
    hide First;
    if Find(content, lab, key).Some? {
      FoundIsThere(content, lab, key);
    }
  }

  /** A key of another kind hides the upserted value from find, at any list of
      one pair. */
  lemma HiddenKeyExample<N>(k: N, v: N, lab: N -> Label, keyNode: N, value: N)
    requires lab(k).kind != Scalar && lab(keyNode) == Label(Scalar, lab(k).value)
    ensures Upsert([k, v], lab, lab(k).value, keyNode, value) == [k, value]
    ensures Find([k, value], lab, lab(k).value) == None
  {
  }

  /** Delete then find returns nothing exactly when no second scalar key of that
      name follows the pair that was removed. */
  lemma DeleteThenFind<N>(content: seq<N>, lab: N -> Label, key: string)
    ensures var i := First(content, Named(lab, key));
            Find(Delete(content, lab, key), lab, key) == None
            <==> i < 0 || First(content[i + 2..], ScalarNamed(lab, key)) < 0
  {
    var i := First(content, Named(lab, key));
    if i >= 0 {
      SplitAtName(content, lab, key);
      FindOfConcat(content[..i], content[i + 2..], lab, key);
    } else {
      NoNameNoScalar(content, lab, key);
    }
  }

  lemma DeleteKeepsOther<N>(content: seq<N>, lab: N -> Label, key: string, other: string)
    requires other != key
    ensures Find(Delete(content, lab, key), lab, other) == Find(content, lab, other)
  {
    var i := First(content, Named(lab, key));
    if i >= 0 {
      SplitAtName(content, lab, key);
      hide Find, First;
      var pre, k, v, post := content[..i], content[i], content[i + 1], content[i + 2..];
      assert lab(k).value == key;
      FindAround(pre, k, v, post, lab, other);
      FindOfConcat(pre, post, lab, other);
    }
  }

  lemma ReplaceKeepsOther<N>(pre: seq<N>, k: N, v: N, value: N, post: seq<N>, lab: N -> Label, other: string)
    requires |pre| % 2 == 0 && lab(k).value != other
    ensures Find(pre + [k, v] + post, lab, other) == Find(pre + [k, value] + post, lab, other)
  {
    hide Find, First;
    FindAround(pre, k, v, post, lab, other);
    FindAround(pre, k, value, post, lab, other);
  }

  /** Every other key keeps its node, on any list, exactly unless it dangled at
      the end of a list that the upsert appended to. */
  lemma UpsertKeepsOther<N>(content: seq<N>, lab: N -> Label, key: string, keyNode: N, value: N, other: string)
    requires lab(keyNode) == Label(Scalar, key) && other != key
    ensures Find(Upsert(content, lab, key, keyNode, value), lab, other) == Find(content, lab, other)
            <==> !Misaligns(content, lab, key, other)
  {
    hide Find, First;
    var i := First(content, Named(lab, key));
    if i >= 0 {
      SplitAtName(content, lab, key);
      var pre, k, post := content[..i], content[i], content[i + 2..];
      UpdateAround(content, i, value);
      ReplaceKeepsOther(pre, k, content[i + 1], value, post, lab, other);
    } else {
      FindAfterAppend(content, lab, other, keyNode, value);
    }
  }

  // --------------------------------------------- refinement of a finite map

  /** What a YAML parser produces for a mapping without duplicate keys: pairs,
      scalar keys, no key twice. */
  predicate Regular<N>(content: seq<N>, lab: N -> Label) {
    content == [] ||
    (&& 2 <= |content| && lab(content[0]).kind == Scalar
     && First(content[2..], Named(lab, lab(content[0]).value)) == -1
     && Regular(content[2..], lab))
  }

  /** The finite map that the list stands for. */
  function View<N>(content: seq<N>, lab: N -> Label): map<string, N> {
    if |content| < 2 then map[] else View(content[2..], lab)[lab(content[0]).value := content[1]]
  }

  function KeyOrder<N>(content: seq<N>, lab: N -> Label): seq<string> {
    if |content| < 2 then [] else [lab(content[0]).value] + KeyOrder(content[2..], lab)
  }

  function Without(keys: seq<string>, key: string): seq<string> {
    if keys == [] then [] else (if keys[0] == key then [] else [keys[0]]) + Without(keys[1..], key)
  }

  lemma {:induction false} NamedIffInView<N>(content: seq<N>, lab: N -> Label, key: string)
    ensures First(content, Named(lab, key)) >= 0 <==> key in View(content, lab)
    ensures key in View(content, lab) <==> key in KeyOrder(content, lab)
  {
    if |content| >= 2 {
      NamedIffInView(content[2..], lab, key);
    }
  }

  lemma {:induction false} FindIsView<N>(content: seq<N>, lab: N -> Label, key: string)
    requires Regular(content, lab)
    ensures Find(content, lab, key) == if key in View(content, lab) then Some(View(content, lab)[key]) else None
  {
    if content != [] {
      FindIsView(content[2..], lab, key);
    }
  }

  lemma UpsertStep<N>(content: seq<N>, lab: N -> Label, key: string, keyNode: N, value: N)
    requires 2 <= |content|
    ensures Upsert(content, lab, key, keyNode, value) ==
            if lab(content[0]).value == key then [content[0], value] + content[2..]
            else [content[0], content[1]] + Upsert(content[2..], lab, key, keyNode, value)
  {
  }

  lemma DeleteStep<N>(content: seq<N>, lab: N -> Label, key: string)
    requires 2 <= |content|
    ensures Delete(content, lab, key) ==
            if lab(content[0]).value == key then content[2..]
            else [content[0], content[1]] + Delete(content[2..], lab, key)
  {
  }

  /** Prepending a pair. */
  lemma PairInFront<N>(k: N, v: N, rest: seq<N>, lab: N -> Label)
    ensures var c := [k, v] + rest;
            && View(c, lab) == View(rest, lab)[lab(k).value := v]
            && KeyOrder(c, lab) == [lab(k).value] + KeyOrder(rest, lab)
            && (Regular(c, lab) <==>
                lab(k).kind == Scalar && lab(k).value !in View(rest, lab) && Regular(rest, lab))
  {
    NamedIffInView(rest, lab, lab(k).value);
    assert ([k, v] + rest)[2..] == rest;
  }

  lemma MapUpdates<N>(m: map<string, N>, k: string, v: N, key: string, value: N)
    ensures k == key ==> m[k := v][key := value] == m[key := value]
    ensures k != key ==> m[k := v][key := value] == m[key := value][k := v]
    ensures k != key && k !in m ==> k !in m[key := value]
  {
  }

  lemma OnePair<N>(keyNode: N, value: N, lab: N -> Label, key: string)
    requires lab(keyNode) == Label(Scalar, key)
    ensures Upsert([], lab, key, keyNode, value) == [keyNode, value]
    ensures Regular([keyNode, value], lab) && View([keyNode, value], lab) == map[key := value] && View([], lab) == map[]
  {
    var none: seq<N> := [];
    PairInFront(keyNode, value, none, lab);
    assert [keyNode, value] + none == [keyNode, value];
  }

  lemma {:induction false} UpsertRefines<N>(content: seq<N>, lab: N -> Label, key: string, keyNode: N, value: N)
    requires Regular(content, lab) && lab(keyNode) == Label(Scalar, key)
    ensures var after := Upsert(content, lab, key, keyNode, value);
            Regular(after, lab) && View(after, lab) == View(content, lab)[key := value]
  {
    if content == [] {
      OnePair(keyNode, value, lab, key);
    } else {
      var k, v, rest := content[0], content[1], content[2..];
      hide *;
      assert content == [k, v] + rest;
      PairInFront(k, v, rest, lab);
      UpsertStep(content, lab, key, keyNode, value);
      MapUpdates(View(rest, lab), lab(k).value, v, key, value);
      if lab(k).value == key {
        PairInFront(k, value, rest, lab);
      } else {
        UpsertRefines(rest, lab, key, keyNode, value);
        PairInFront(k, v, Upsert(rest, lab, key, keyNode, value), lab);
      }
    }
  }

  /** The keys stay in their order; a new key comes last. */
  lemma {:induction false} UpsertKeepsOrder<N>(content: seq<N>, lab: N -> Label, key: string, keyNode: N, value: N)
    requires Regular(content, lab) && lab(keyNode) == Label(Scalar, key)
    ensures KeyOrder(Upsert(content, lab, key, keyNode, value), lab) ==
            KeyOrder(content, lab) + if key in KeyOrder(content, lab) then [] else [key]
  {
    if content == [] {
      assert Upsert(content, lab, key, keyNode, value) == [keyNode, value];
      assert [keyNode, value][2..] == [];
    } else {
      var k, v, rest := content[0], content[1], content[2..];
      hide First, Regular, View, KeyOrder, Upsert;
      assert content == [k, v] + rest;
      PairInFront(k, v, rest, lab);
      UpsertStep(content, lab, key, keyNode, value);
      if lab(k).value == key {
        PairInFront(k, value, rest, lab);
      } else {
        UpsertKeepsOrder(rest, lab, key, keyNode, value);
        PairInFront(k, v, Upsert(rest, lab, key, keyNode, value), lab);
      }
    }
  }

  lemma {:induction false} DeleteRefines<N>(content: seq<N>, lab: N -> Label, key: string)
    requires Regular(content, lab)
    ensures Regular(Delete(content, lab, key), lab)
    ensures View(Delete(content, lab, key), lab) == View(content, lab) - {key}
  {
    if content != [] {
      var k, v, rest := content[0], content[1], content[2..];
      hide First, Regular, View, KeyOrder, Delete;
      assert content == [k, v] + rest;
      PairInFront(k, v, rest, lab);
      DeleteStep(content, lab, key);
      MapWithout(View(rest, lab), lab(k).value, v, key);
      if lab(k).value != key {
        DeleteRefines(rest, lab, key);
        PairInFront(k, v, Delete(rest, lab, key), lab);
      }
    }
  }

  lemma MapWithout<N>(m: map<string, N>, k: string, v: N, key: string)
    requires k !in m
    ensures m[k := v] - {key} == if k == key then m else (m - {key})[k := v]
    ensures k !in m - {key}
  {
  }

  lemma {:induction false} DeleteKeepsOrder<N>(content: seq<N>, lab: N -> Label, key: string)
    requires Regular(content, lab)
    ensures KeyOrder(Delete(content, lab, key), lab) == Without(KeyOrder(content, lab), key)
  {
    if content != [] {
      var k, v, rest := content[0], content[1], content[2..];
      hide First, Regular, View, KeyOrder, Delete, Without;
      assert content == [k, v] + rest;
      PairInFront(k, v, rest, lab);
      DeleteStep(content, lab, key);
      WithoutStep(lab(k).value, KeyOrder(rest, lab), key);
      if lab(k).value == key {
        NamedIffInView(rest, lab, key);
        WithoutAbsent(KeyOrder(rest, lab), key);
      } else {
        DeleteKeepsOrder(rest, lab, key);
        PairInFront(k, v, Delete(rest, lab, key), lab);
      }
    }
  }

  lemma WithoutStep(first: string, rest: seq<string>, key: string)
    ensures Without([first] + rest, key) == (if first == key then [] else [first]) + Without(rest, key)
  {
    assert ([first] + rest)[1..] == rest;
  }

  lemma {:induction false} WithoutAbsent(keys: seq<string>, key: string)
    requires key !in keys
    ensures Without(keys, key) == keys
  {
    if keys != [] {
      WithoutAbsent(keys[1..], key);
    }
  }

  datatype Edit<N> = Put(key: string, keyNode: N, value: N) | Drop(key: string)

  function Apply<N>(content: seq<N>, lab: N -> Label, edits: seq<Edit<N>>): seq<N> {
    if edits == [] then content
    else
      var before := Apply(content, lab, edits[..|edits| - 1]);
      match edits[|edits| - 1]
      case Put(key, keyNode, value) => Upsert(before, lab, key, keyNode, value)
      case Drop(key) => Delete(before, lab, key)
  }

  function ApplyToMap<N>(m: map<string, N>, edits: seq<Edit<N>>): map<string, N> {
    if edits == [] then m
    else
      var before := ApplyToMap(m, edits[..|edits| - 1]);
      match edits[|edits| - 1]
      case Put(key, _, value) => before[key := value]
      case Drop(key) => before - {key}
  }

  /** Any sequence of edits on a regular node is the same sequence on a finite
      map: the node stays regular and find agrees with lookup for every key. */
  lemma {:induction false} EditsRefineMap<N>(content: seq<N>, lab: N -> Label, edits: seq<Edit<N>>)
    requires Regular(content, lab)
    requires forall i | 0 <= i < |edits| && edits[i].Put? :: lab(edits[i].keyNode) == Label(Scalar, edits[i].key)
    ensures var after, m := Apply(content, lab, edits), ApplyToMap(View(content, lab), edits);
            && Regular(after, lab) && View(after, lab) == m
            && forall key :: Find(after, lab, key) == if key in m then Some(m[key]) else None
  {
    hide Regular, View, Upsert, Delete, Find;
    if edits != [] {
      var front, e := edits[..|edits| - 1], edits[|edits| - 1];
      EditsRefineMap(content, lab, front);
      var before := Apply(content, lab, front);
      match e
      case Put(key, keyNode, value) => UpsertRefines(before, lab, key, keyNode, value);
      case Drop(key) => DeleteRefines(before, lab, key);
    }
    var after := Apply(content, lab, edits);
    forall key: string
      ensures Find(after, lab, key) ==
              if key in View(after, lab) then Some(View(after, lab)[key]) else None
    {
      FindIsView(after, lab, key);
    }
  }
}
