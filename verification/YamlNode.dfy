/** yaml.Node in memory, edited in place. */
module YamlNode {
  import opened Decimal
  import opened MappingNode

  class Node {
    const kind: Kind
    const tag: string
    const value: string
    const anchor: string
    const alias: Node?
    var content: seq<Node>

    constructor (kind: Kind, tag: string, value: string)
      ensures this.kind == kind && this.tag == tag && this.value == value
      ensures anchor == "" && alias == null && content == []
    {
      this.kind, this.tag, this.value, this.anchor := kind, tag, value, "";
      this.alias, this.content := null, [];
    }
  }

  function LabelOf(n: Node): Label {
    Label(n.kind, n.value)
  }

  /** One iteration of the search loops, which step over a pair at a time. */
  lemma SearchStep(content: seq<Node>, hit: Node -> bool, i: nat)
    requires i + 1 < |content| && !hit(content[i])
    requires First(content, hit) == Shifted(First(content[i..], hit), i)
    ensures First(content, hit) == Shifted(First(content[i + 2..], hit), i + 2)
  {
    assert content[i..][2..] == content[i + 2..];
  }

  lemma HitsAreTests(n: Node, key: string)
    ensures Named<Node>(LabelOf, key)(n) <==> n.value == key
    ensures ScalarNamed<Node>(LabelOf, key)(n) <==> n.kind == Scalar && n.value == key
  {
    var lab: Node -> Label := LabelOf;
    assert lab(n) == LabelOf(n);
    assert Named<Node>(lab, key)(n) == (lab(n).value == key);
  }

  function Shifted(found: int, offset: nat): int {
    if found < 0 then -1 else offset + found
  }

  /** findMappingValue: the value of the first scalar key, aliases followed. */
  method FindMappingValue(mapping: Node?, key: string) returns (r: Node?)
    ensures mapping == null || mapping.kind != Mapping ==> r == null
    ensures mapping != null && mapping.kind == Mapping ==>
              match Find<Node>(mapping.content, LabelOf, key)
              case None => r == null
              case Some(v) => r == if v.kind == Alias && v.alias != null then v.alias else v
  {
    if mapping == null || mapping.kind != Mapping {
      return null;
    }
    ghost var hit := ScalarNamed<Node>(LabelOf, key);
    var i := 0;
    while i + 1 < |mapping.content|
      invariant 0 <= i <= |mapping.content|
      invariant First(mapping.content, hit) == Shifted(First(mapping.content[i..], hit), i)
    {
      var k := mapping.content[i];
      HitsAreTests(k, key);
      if k.kind == Scalar && k.value == key {
        var v := mapping.content[i + 1];
        return if v.kind == Alias && v.alias != null then v.alias else v;
      }
      SearchStep(mapping.content, hit, i);
      i := i + 2;
    }
    r := null;
  }

  ghost predicate NewKey(n: Node, key: string)
    reads n
  {
    n.kind == Scalar && n.tag == "!!str" && n.value == key && n.anchor == "" && n.content == []
  }

  /** upsertUsagePingKey: replaces the value of the first key with that text, or
      appends a pair with a new scalar key. No other node changes. */
  method UpsertUsagePingKey(mapping: Node?, key: string, value: Node) returns (ghost keyNode: Node)
    modifies if mapping == null then {} else {mapping}
    ensures keyNode == value || (NewKey(keyNode, key) && fresh(keyNode))
    ensures mapping != null && mapping.kind == Mapping && First<Node>(old(mapping.content), Named<Node>(LabelOf, key)) < 0 ==>
              fresh(keyNode) && NewKey(keyNode, key)
    ensures mapping != null ==>
              mapping.content == if mapping.kind == Mapping
                                 then Upsert<Node>(old(mapping.content), LabelOf, key, keyNode, value)
                                 else old(mapping.content)
  {
    keyNode := value;
    if mapping == null || mapping.kind != Mapping {
      return;
    }
    ghost var hit := Named<Node>(LabelOf, key);
    var i := 0;
    while i + 1 < |mapping.content|
      invariant 0 <= i <= |mapping.content|
      invariant mapping.content == old(mapping.content)
      invariant First(mapping.content, hit) == Shifted(First(mapping.content[i..], hit), i)
    {
      HitsAreTests(mapping.content[i], key);
      if mapping.content[i].value == key {
        mapping.content := mapping.content[i + 1 := value];
        return;
      }
      SearchStep(mapping.content, hit, i);
      i := i + 2;
    }
    var newKey := new Node(Scalar, "!!str", key);
    keyNode := newKey;
    mapping.content := mapping.content + [newKey, value];
  }

  /** deleteUsagePingKey: splices out the first pair whose key has that text. */
  method DeleteUsagePingKey(mapping: Node?, key: string)
    modifies if mapping == null then {} else {mapping}
    ensures mapping != null ==>
              mapping.content == if mapping.kind == Mapping
                                 then Delete<Node>(old(mapping.content), LabelOf, key)
                                 else old(mapping.content)
  {
    if mapping == null || mapping.kind != Mapping {
      return;
    }
    ghost var hit := Named<Node>(LabelOf, key);
    var i := 0;
    while i + 1 < |mapping.content|
      invariant 0 <= i <= |mapping.content|
      invariant mapping.content == old(mapping.content)
      invariant First(mapping.content, hit) == Shifted(First(mapping.content[i..], hit), i)
    {
      HitsAreTests(mapping.content[i], key);
      if mapping.content[i].value == key {
        mapping.content := mapping.content[..i] + mapping.content[i + 2..];
        return;
      }
      SearchStep(mapping.content, hit, i);
      i := i + 2;
    }
  }
}
