/** A loaded daemon.yaml edited in memory: readUsagePingField,
    writeUsagePingField and deleteUsagePingBlock on linked nodes. `view` says how
    every node is spelled; each edit in place is shown to do to the document's
    text what the functions of UsagePing say, also when the block is reached
    through an alias. */
module YamlEdit {
  import opened Decimal
  import opened MappingNode
  import opened YamlNode
  import opened YamlText
  import UsagePing

  // ------------------------------------------------------- nodes and meanings

  type Sense = map<Node, Meaning>

  ghost predicate Means(nodes: seq<Node>, ms: seq<Meaning>, sense: Sense) {
    |nodes| == |ms| && forall i | 0 <= i < |nodes| :: nodes[i] in sense && sense[nodes[i]] == ms[i]
  }

  /** A node as read: the parser has pointed every alias to the node it stands for. */
  ghost predicate Reads(n: Node, sense: Sense)
    reads n
  {
    && n in sense && sense[n].kind == n.kind && sense[n].tag == n.tag && sense[n].value == n.value
    && (n.kind == Alias ==> n.alias != null && n.alias in sense && sense[n].content == [sense[n.alias]])
    && (n.kind != Alias ==> Means(n.content, sense[n].content, sense))
  }

  ghost predicate Sensible(sense: Sense)
    reads sense.Keys
  {
    forall n | n in sense :: Reads(n, sense)
  }

  lemma {:induction false} MeaningSearch(nodes: seq<Node>, ms: seq<Meaning>, key: string)
    requires |nodes| == |ms| && forall i | 0 <= i < |nodes| :: YamlNode.LabelOf(nodes[i]) == LabelRead(ms[i])
    ensures First<Node>(nodes, ScalarNamed<Node>(YamlNode.LabelOf, key)) == First(ms, ScalarNamed(LabelRead, key))
  {
    if |nodes| >= 2 {
      MeaningSearch(nodes[2..], ms[2..], key);
      YamlNode.HitsAreTests(nodes[0], key);
      assert YamlNode.LabelOf(nodes[0]) == LabelRead(ms[0]);
    }
  }

  /** The node that findMappingValue returns for a found value. */
  ghost function Followed(v: Node): Node {
    if v.kind == Alias && v.alias != null then v.alias else v
  }

  lemma FollowedReads(v: Node, sense: Sense)
    requires Sensible(sense) && v in sense
    ensures Followed(v) in sense && sense[Followed(v)] == UsagePing.Target(sense[v])
    ensures sense[Followed(v)].kind == Followed(v).kind && sense[Followed(v)].value == Followed(v).value
  {
    assert Reads(v, sense);
    assert Reads(Followed(v), sense);
  }

  /** findMappingValue returns the node for what Lookup finds. */
  lemma FoundReads(mapping: Node, key: string, sense: Sense)
    requires Sensible(sense) && mapping in sense && mapping.kind == Mapping
    ensures match Find<Node>(mapping.content, YamlNode.LabelOf, key)
            case None => UsagePing.Lookup(sense[mapping], key) == None
            case Some(v) => v in sense && UsagePing.Lookup(sense[mapping], key) == Some(sense[v])
  {
    assert Reads(mapping, sense);
    var nodes, ms := mapping.content, sense[mapping].content;
    forall i | 0 <= i < |nodes| ensures YamlNode.LabelOf(nodes[i]) == LabelRead(ms[i]) {
      assert Reads(nodes[i], sense);
    }
    MeaningSearch(nodes, ms, key);
    hide First;
  }

  /** One step of readUsagePingField. */
  method Follow(mapping: Node, key: string, ghost sense: Sense) returns (r: Node?)
    requires Sensible(sense) && mapping in sense
    ensures r == null <==> UsagePing.Lookup(sense[mapping], key) == None
    ensures r != null ==>
              r in sense && sense[r] == UsagePing.Target(UsagePing.Lookup(sense[mapping], key).value)
              && sense[r].kind == r.kind && sense[r].value == r.value
  {
    assert Reads(mapping, sense);
    if mapping.kind == Mapping {
      FoundReads(mapping, key, sense);
    }
    hide First, Find, Sensible;
    r := FindMappingValue(mapping, key);
    if r != null {
      FollowedReads(Find<Node>(mapping.content, YamlNode.LabelOf, key).value, sense);
    }
  }

  /** readUsagePingField on nodes with these meanings. */
  method ReadSensibly(doc: Node, field: string, ghost sense: Sense) returns (r: string)
    requires Sensible(sense) && doc in sense
    ensures r == UsagePing.FieldOf(sense[doc], field)
  {
    hide Sensible, UsagePing.Target;
    var block := Follow(doc, "usagePing", sense);
    if block == null {
      return "";
    }
    if block.kind != Mapping {
      assert UsagePing.Lookup(sense[block], field) == None;
      return "";
    }
    var value := Follow(block, field, sense);
    if value == null || value.kind != Scalar {
      return "";
    }
    r := value.value;
  }

  // ---------------------------------------------------------- nodes and texts

  type View = map<Node, Tree>

  ghost function With(view: View, n: Node, t: Tree): View {
    view[n := t]
  }

  ghost predicate Lists(nodes: seq<Node>, trees: seq<Tree>, view: View) {
    |nodes| == |trees| && forall i | 0 <= i < |nodes| :: nodes[i] in view && view[nodes[i]] == trees[i]
  }

  /** The node alone, without its list, is spelled like this. */
  ghost predicate Spells(n: Node, t: Tree) {
    t.kind == n.kind && t.tag == n.tag && t.value == n.value && t.anchor == n.anchor
  }

  ghost predicate Stands(n: Node, view: View)
    reads n
  {
    n in view && Spells(n, view[n]) && Lists(n.content, view[n].content, view)
  }

  ghost predicate Consistent(view: View)
    reads view.Keys
  {
    forall n | n in view :: Stands(n, view)
  }

  ghost predicate AllBut(view: View, c: Node)
    reads view.Keys - {c}
  {
    forall n | n in view && n != c :: Stands(n, view)
  }

  /** Nothing in the view has `n` in its list, except perhaps `parent` at `j`. */
  ghost predicate OnlyAt(n: Node, parent: Node, j: int, view: View)
    reads view.Keys
  {
    forall m | m in view ::
      forall i | 0 <= i < |m.content| && m.content[i] == n :: m == parent && i == j
  }

  /** The way from one node to another, through lists of which each node on the way
      is in one only: the parser builds a tree. */
  ghost predicate Chain(older nodes: seq<Node>, p: Path, view: View)
    reads view.Keys
  {
    && |nodes| == |p| + 1 && (forall k | 0 <= k < |nodes| :: nodes[k] in view)
    && (forall j, k | 0 <= j < k < |nodes| :: nodes[j] != nodes[k])
    && forall k | 0 <= k < |p| :: Link(nodes[k], p[k], nodes[k + 1], view)
  }

  ghost predicate Link(m: Node, i: nat, c: Node, view: View)
    reads view.Keys, m
  {
    m.kind != Alias && i < |m.content| && m.content[i] == c && OnlyAt(c, m, i, view)
  }

  /** The root of a loaded document: a mapping that is in no list. */
  ghost predicate Loaded(doc: Node, view: View)
    reads view.Keys
  {
    Consistent(view) && doc in view && doc.kind == Mapping && OnlyAt(doc, doc, -1, view)
  }

  ghost predicate Leads(doc: Node, p: Path, n: Node, view: View)
    reads view.Keys
  {
    exists nodes: seq<Node> :: Chain(nodes, p, view) && nodes[0] == doc && nodes[|p|] == n
  }

  /** What the parser promises of the usagePing value: it is in one list only, and
      an alias points to the last node of its name before it. */
  ghost predicate Linked(doc: Node, view: View)
    reads view.Keys, doc, doc.content
  {
    var i := First<Node>(doc.content, ScalarNamed<Node>(YamlNode.LabelOf, "usagePing"));
    doc in view &&
    (i >= 0 ==>
       var v := doc.content[i + 1];
       && i + 1 < |view[doc].content|
       && (v.kind == Mapping ==> Leads(doc, [i + 1], v, view))
       && (v.kind == Alias ==>
             var found := LastIn(view[doc].content[..i + 1], v.value);
             v.alias != null && v.value != "" && found.Some? && Leads(doc, found.value, v.alias, view)))
  }

  // -------------------------------------------------- changes and the document

  /** Changing a node in place and what it stands for: the nodes on the way to the
      document change accordingly, no other node does. */
  lemma {:induction false} ChangeShows(nodes: seq<Node>, p: Path, t: Tree, view: View) returns (after: View)
    requires Chain(nodes, p, view) && AllBut(view, nodes[|p|])
    requires Spells(nodes[|p|], t) && Lists(nodes[|p|].content, t.content, view)
    requires OnlyAt(nodes[0], nodes[0], -1, view) && nodes[|p|] !in nodes[|p|].content
    ensures Consistent(after) && nodes[0] in after
    ensures HasPath(view[nodes[0]], p) && after[nodes[0]] == Exchange(view[nodes[0]], p, t)
    decreases |p|
  {
    var c := nodes[|p|];
    after := With(view, c, t);
    if p == [] {
      RootChanged(c, t, view);
    } else {
      var k := |p| - 1;
      var m, i := nodes[k], p[k];
      assert Link(m, i, c, view);
      ParentChanges(m, i, c, t, view);
      assert Stands(m, view);
      var u := view[m].(content := view[m].content[i := t]);
      ChainFront(nodes, p, view, after);
      after := ChangeShows(nodes[..k + 1], p[..k], u, after);
      ChainAt(nodes[..k + 1], p[..k], view);
      AtSnoc(view[nodes[0]], p[..k], i, t);
      assert p == p[..k] + [i];
    }
  }

  /** All of the way but its end, and after a change at the end. */
  lemma ChainFront(nodes: seq<Node>, p: Path, view: View, after: View)
    requires Chain(nodes, p, view) && p != [] && after.Keys == view.Keys
    requires OnlyAt(nodes[0], nodes[0], -1, view)
    ensures Chain(nodes[..|p|], p[..|p| - 1], after) && Chain(nodes[..|p|], p[..|p| - 1], view)
    ensures OnlyAt(nodes[0], nodes[0], -1, after)
    ensures nodes[|p| - 1] !in nodes[|p| - 1].content && nodes[0] != nodes[|p|]
  {
    var k := |p| - 1;
    assert Link(nodes[k], p[k], nodes[k + 1], view);
    if k > 0 {
      assert Link(nodes[k - 1], p[k - 1], nodes[k], view);
    }
    forall j | 0 <= j < k ensures Link(nodes[..|p|][j], p[..k][j], nodes[..|p|][j + 1], after) {
      assert Link(nodes[j], p[j], nodes[j + 1], view);
    }
    forall j | 0 <= j < k ensures Link(nodes[..|p|][j], p[..k][j], nodes[..|p|][j + 1], view) {
      assert Link(nodes[j], p[j], nodes[j + 1], view);
    }
  }

  /** The node at the end of the way is spelled as the text has it there. */
  lemma {:induction false} ChainAt(nodes: seq<Node>, p: Path, view: View)
    requires Chain(nodes, p, view) && forall k | 0 <= k < |p| :: Stands(nodes[k], view)
    ensures HasPath(view[nodes[0]], p) && At(view[nodes[0]], p) == view[nodes[|p|]]
    decreases |p|
  {
    if p != [] {
      var k := |p| - 1;
      assert Link(nodes[k], p[k], nodes[k + 1], view);
      forall j | 0 <= j < k ensures Link(nodes[..|p|][j], p[..k][j], nodes[..|p|][j + 1], view) {
        assert Link(nodes[j], p[j], nodes[j + 1], view);
      }
      ChainAt(nodes[..|p|], p[..k], view);
      assert Stands(nodes[k], view);
      AtSnoc(view[nodes[0]], p[..k], p[k], view[nodes[0]]);
      assert p == p[..k] + [p[k]];
    }
  }

  lemma RootChanged(c: Node, t: Tree, view: View)
    requires c in view && AllBut(view, c) && Spells(c, t) && Lists(c.content, t.content, view)
    requires OnlyAt(c, c, -1, view)
    ensures Consistent(With(view, c, t))
  {
    var after := With(view, c, t);
    forall n | n in after ensures Stands(n, after) {
      assert n != c ==> Stands(n, view);
    }
  }

  /** Once the child stands for its new text, only its parent does not. */
  lemma ParentChanges(m: Node, i: nat, c: Node, t: Tree, view: View)
    requires m in view && c in view && Link(m, i, c, view) && AllBut(view, c)
    requires Spells(c, t) && Lists(c.content, t.content, view) && c !in c.content
    ensures var after := With(view, c, t);
            && AllBut(after, m) && i < |view[m].content|
            && Lists(m.content, view[m].content[i := t], after)
  {
    var after := With(view, c, t);
    assert Stands(m, view);
    forall n | n in after && n != m ensures Stands(n, after) {
      assert n != c ==> Stands(n, view);
      assert forall k | 0 <= k < |n.content| :: n.content[k] != c;
    }
  }

  // ------------------------------------------------- searching nodes and texts

  ghost predicate SameLabels(nodes: seq<Node>, trees: seq<Tree>) {
    |nodes| == |trees| && forall i | 0 <= i < |nodes| :: YamlNode.LabelOf(nodes[i]) == YamlText.LabelOf(trees[i])
  }

  lemma {:induction false} NodeSearch(nodes: seq<Node>, trees: seq<Tree>, key: string)
    requires SameLabels(nodes, trees)
    ensures First<Node>(nodes, Named<Node>(YamlNode.LabelOf, key)) == First(trees, Named(YamlText.LabelOf, key))
    ensures First<Node>(nodes, ScalarNamed<Node>(YamlNode.LabelOf, key)) == First(trees, ScalarNamed(YamlText.LabelOf, key))
  {
    if |nodes| >= 2 {
      NodeSearch(nodes[2..], trees[2..], key);
      YamlNode.HitsAreTests(nodes[0], key);
      YamlText.HitsAreTests(trees[0], key);
      assert YamlNode.LabelOf(nodes[0]) == YamlText.LabelOf(trees[0]);
    }
  }

  lemma ChildrenLookAlike(n: Node, view: View)
    requires Consistent(view) && n in view
    ensures SameLabels(n.content, view[n].content) && Lists(n.content, view[n].content, view)
  {
    assert Stands(n, view);
    forall i | 0 <= i < |n.content| ensures YamlNode.LabelOf(n.content[i]) == YamlText.LabelOf(view[n].content[i]) {
      assert Stands(n.content[i], view);
    }
  }

  lemma SameUpsert(block: Tree, nodes: seq<Node>, view: View, field: string, value: string, keyNode: Node, scalar: Node)
    requires value != "" && SameLabels(nodes, block.content) && Lists(nodes, block.content, view)
    requires scalar in view && view[scalar] == UsagePing.FieldTree(field, value)
    requires First<Node>(nodes, Named<Node>(YamlNode.LabelOf, field)) < 0 ==>
               keyNode in view && view[keyNode] == UsagePing.ScalarTree("!!str", field)
    ensures var after := Upsert<Node>(nodes, YamlNode.LabelOf, field, keyNode, scalar);
            && Lists(after, UsagePing.EditBlock(block, field, value).content, view)
            && (forall i | 0 <= i < |after| :: after[i] in nodes || after[i] == keyNode || after[i] == scalar)
  {
    NodeSearch(nodes, block.content, field);
    hide First;
  }

  lemma SameDelete(block: Tree, nodes: seq<Node>, view: View, key: string)
    requires SameLabels(nodes, block.content) && Lists(nodes, block.content, view)
    ensures var after := Delete<Node>(nodes, YamlNode.LabelOf, key);
            && Lists(after, Delete(block.content, YamlText.LabelOf, key), view)
            && (forall i | 0 <= i < |after| :: after[i] in nodes)
  {
    NodeSearch(nodes, block.content, key);
    var i := First<Node>(nodes, Named<Node>(YamlNode.LabelOf, key));
    hide First, Lists;
    if i >= 0 {
      ListsWithout(nodes, block.content, view, i);
    } else {
      assert forall j | 0 <= j < |nodes| :: nodes[j] in nodes;
    }
  }

  lemma ListsWithout(nodes: seq<Node>, trees: seq<Tree>, view: View, i: nat)
    requires Lists(nodes, trees, view) && i + 1 < |nodes|
    ensures Lists(nodes[..i] + nodes[i + 2..], trees[..i] + trees[i + 2..], view)
    ensures var after := nodes[..i] + nodes[i + 2..]; forall j | 0 <= j < |after| :: after[j] in nodes
  {
    var after := nodes[..i] + nodes[i + 2..];
    assert forall j | 0 <= j < |after| :: after[j] == nodes[if j < i then j else j + 2];
  }

  // ------------------------------------------------------- editing the block

  ghost predicate Extends(known: View, view: View) {
    forall n | n in view :: n in known && known[n] == view[n]
  }

  /** `known` adds nodes without children to the view. */
  ghost predicate AddsLeaves(known: View, view: View)
    reads known.Keys - view.Keys
  {
    Extends(known, view) && forall n | n in known && n !in view :: n.content == [] && Stands(n, known)
  }

  /** The block's list now stands for that of `edited`. */
  twostate predicate Edited(block: Node, edited: Tree, view: View, new known: View)
    reads block, known.Keys
  {
    && Lists(block.content, edited.content, known)
    && AddsLeaves(known, view) && (forall n | n in known && n !in view :: fresh(n))
    && (forall i | 0 <= i < |block.content| :: block.content[i] in old(block.content) || fresh(block.content[i]))
  }

  method PutField(block: Node, field: string, value: string, ghost view: View) returns (ghost known: View)
    requires block in view && block.kind == Mapping && value != ""
    requires SameLabels(block.content, view[block].content) && Lists(block.content, view[block].content, view)
    modifies block
    ensures Edited(block, UsagePing.EditBlock(view[block], field, value), view, known)
  {
    hide First, Upsert, UsagePing.EditBlock, SameLabels, Lists, Stands;
    ghost var nodes := block.content;
    var tag := if field == "enabled" then "!!bool" else "!!str";
    var scalar := new Node(Scalar, tag, value);
    ghost var keyNode := UpsertUsagePingKey(block, field, scalar);
    known := With(With(view, keyNode, UsagePing.ScalarTree("!!str", field)), scalar, UsagePing.FieldTree(field, value));
    hide AddsLeaves, Extends;
    LeavesAdded(view, keyNode, UsagePing.ScalarTree("!!str", field), scalar, UsagePing.FieldTree(field, value));
    Widened(nodes, view[block].content, view, known);
    SameUpsert(view[block], nodes, known, field, value, keyNode, scalar);
  }

  lemma LeavesAdded(view: View, k: Node, s: Tree, v: Node, t: Tree)
    requires k !in view && v !in view && (k == v || IsLeaf(k, s)) && IsLeaf(v, t)
    ensures AddsLeaves(With(With(view, k, s), v, t), view) && Extends(With(With(view, k, s), v, t), view)
  {
    var known := With(With(view, k, s), v, t);
    LeafStands(v, known);
    if k != v {
      LeafStands(k, known);
    }
  }

  lemma Widened(nodes: seq<Node>, trees: seq<Tree>, view: View, known: View)
    requires Lists(nodes, trees, view) && Extends(known, view)
    ensures Lists(nodes, trees, known)
  {
  }

  lemma LeafStands(n: Node, view: View)
    requires n.content == [] && n in view && view[n] == Tree(n.kind, n.tag, n.value, n.anchor, [])
    ensures Stands(n, view)
  {
  }

  method DropField(block: Node, field: string, ghost view: View)
    requires block in view && block.kind == Mapping
    requires SameLabels(block.content, view[block].content) && Lists(block.content, view[block].content, view)
    modifies block
    ensures Edited(block, UsagePing.EditBlock(view[block], field, ""), view, view)
  {
    hide First, Delete;
    ghost var nodes := block.content;
    DeleteUsagePingKey(block, field);
    SameDelete(view[block], nodes, view, field);
  }

  // ----------------------------------------------------- finding the block

  /** The document holds the block at the end of a way. */
  ghost predicate Holds(doc: Node, block: Node, p: Path, view: View)
    reads view.Keys
  {
    Loaded(doc, view) && block in view && block.kind == Mapping && Leads(doc, p, block, view)
  }

  lemma LoadedFacts(doc: Node, view: View)
    requires Loaded(doc, view)
    ensures doc in view && doc.kind == Mapping && Spells(doc, view[doc])
    ensures doc !in doc.content && Lists(doc.content, view[doc].content, view)
    ensures forall i | 0 <= i < |doc.content| :: doc.content[i] in view
    ensures First<Node>(doc.content, ScalarNamed<Node>(YamlNode.LabelOf, "usagePing")) == UsagePing.KeyPlace(view[doc])
  {
    assert Stands(doc, view);
    ChildrenLookAlike(doc, view);
    NodeSearch(doc.content, view[doc].content, "usagePing");
  }

  /** All nodes but the document stand for their texts and have neither the
      document nor the block in their lists. */
  ghost predicate OthersStand(doc: Node, block: Node, known: View)
    reads known.Keys - {doc}
  {
    forall n | n in known && n != doc :: Stands(n, known) && doc !in n.content && block !in n.content
  }

  lemma OthersAlreadyStand(doc: Node, block: Node, view: View, known: View)
    requires Loaded(doc, view) && AddsLeaves(known, view) && (block == doc || block !in view)
    ensures OthersStand(doc, block, known)
  {
    forall n | n in view && n != doc ensures Stands(n, known) && doc !in n.content && block !in n.content {
      assert Stands(n, view);
    }
  }

  lemma DocumentStands(doc: Node, tree: Tree, known: View)
    requires doc in known && doc.kind == Mapping && Spells(doc, tree) && OthersStand(doc, doc, known)
    requires doc !in doc.content && Lists(doc.content, tree.content, known)
    ensures Loaded(doc, With(known, doc, tree))
  {
    var after := With(known, doc, tree);
    forall n | n in after ensures Stands(n, after) {
      assert n != doc ==> Stands(n, known);
      assert forall i | 0 <= i < |n.content| :: n.content[i] != doc;
    }
  }

  lemma DocumentHolds(doc: Node, block: Node, j: nat, tree: Tree, known: View)
    requires doc in known && doc.kind == Mapping && Spells(doc, tree) && OthersStand(doc, block, known)
    requires doc !in doc.content && Lists(doc.content, tree.content, known)
    requires block in known && block.kind == Mapping && j < |doc.content| && doc.content[j] == block
    requires forall i | 0 <= i < |doc.content| && i != j :: doc.content[i] != block
    ensures Holds(doc, block, [j], With(known, doc, tree))
  {
    DocumentStands(doc, tree, known);
    var after, nodes := With(known, doc, tree), [doc, block];
    assert Link(doc, j, block, after);
    assert Chain(nodes, [j], after);
  }

  /** Gives the document a new list that holds a new block at place `j`. */
  method SetContent(doc: Node, content: seq<Node>, ghost block: Node, ghost j: nat, ghost tree: Tree,
                    ghost view: View, ghost known: View)
    requires Loaded(doc, view) && AddsLeaves(known, view) && block in known && block !in view
    requires block.kind == Mapping && Spells(doc, tree)
    requires doc !in content && Lists(content, tree.content, known)
    requires j < |content| && content[j] == block && forall i | 0 <= i < |content| && i != j :: content[i] != block
    modifies doc
    ensures Holds(doc, block, [j], With(known, doc, tree))
  {
    hide Holds, Stands, Lists, OthersStand, Consistent, OnlyAt;
    OthersAlreadyStand(doc, block, view, known);
    doc.content := content;
    DocumentHolds(doc, block, j, tree, known);
  }

  lemma AppendedView(nodes: seq<Node>, trees: seq<Tree>, view: View, key: Node, block: Node, known: View)
    requires Lists(nodes, trees, view) && key !in view && block !in view && key != block
    requires known.Keys == view.Keys + {key, block} && Extends(known, view)
    requires IsLeaf(key, known[key]) && IsLeaf(block, known[block])
    ensures AddsLeaves(known, view)
    ensures Lists(nodes + [key, block], trees + [known[key], known[block]], known)
    ensures forall i | 0 <= i < |nodes| :: (nodes + [key, block])[i] != block
  {
    LeafStands(key, known);
    LeafStands(block, known);
  }

  ghost predicate IsLeaf(n: Node, t: Tree)
    reads n
  {
    n.content == [] && t == Tree(n.kind, n.tag, n.value, n.anchor, [])
  }

  /** writeUsagePingField without a block: an empty one is appended. */
  method AppendBlock(doc: Node, ghost view: View) returns (block: Node, ghost after: View)
    requires Loaded(doc, view) && UsagePing.KeyPlace(view[doc]) < 0
    modifies doc
    ensures fresh(block)
    ensures Holds(doc, block, UsagePing.Place(view[doc]), after)
    ensures after[block] == UsagePing.BlockOf(view[doc]) && after[doc] == UsagePing.Placed(view[doc])
  {
    LoadedFacts(doc, view);
    assert UsagePing.BlockPath(view[doc]) == None;
    assert UsagePing.Placed(view[doc]).content == view[doc].content + [UsagePing.KEY, UsagePing.EMPTY_BLOCK];
    hide Loaded, Holds, Lists, UsagePing.Placed, UsagePing.BlockPath, UsagePing.KeyPlace, AddsLeaves, First;
    block := new Node(Mapping, "!!map", "");
    var key := new Node(Scalar, "!!str", "usagePing");
    ghost var tree := view[doc].(content := view[doc].content + [UsagePing.KEY, UsagePing.EMPTY_BLOCK]);
    ghost var known := With(With(view, key, UsagePing.KEY), block, UsagePing.EMPTY_BLOCK);
    AppendedView(doc.content, view[doc].content, view, key, block, known);
    SetContent(doc, doc.content + [key, block], block, |doc.content| + 1, tree, view, known);
    after := With(known, doc, tree);
  }

  /** Where the usagePing key is: the loop of writeUsagePingField. */
  method FindUsagePingKey(doc: Node) returns (i: int)
    ensures i == First<Node>(doc.content, ScalarNamed<Node>(YamlNode.LabelOf, "usagePing"))
  {
    ghost var hit := ScalarNamed<Node>(YamlNode.LabelOf, "usagePing");
    i := 0;
    while i + 1 < |doc.content|
      invariant 0 <= i <= |doc.content|
      invariant First(doc.content, hit) == Shifted(First(doc.content[i..], hit), i)
    {
      YamlNode.HitsAreTests(doc.content[i], "usagePing");
      if doc.content[i].kind == Scalar && doc.content[i].value == "usagePing" {
        return;
      }
      SearchStep(doc.content, hit, i);
      i := i + 2;
    }
    i := -1;
  }

  lemma UpdatedView(nodes: seq<Node>, trees: seq<Tree>, view: View, j: nat, block: Node, known: View)
    requires Lists(nodes, trees, view) && block !in view && j < |nodes|
    requires known.Keys == view.Keys + {block} && Extends(known, view) && IsLeaf(block, known[block])
    ensures AddsLeaves(known, view) && Lists(nodes[j := block], trees[j := known[block]], known)
    ensures forall i | 0 <= i < |nodes| && i != j :: nodes[i] != block
  {
    LeafStands(block, known);
  }

  /** writeUsagePingField over a value that is not a mapping: an empty block takes
      its place. */
  method ReplaceBlock(doc: Node, ghost view: View) returns (block: Node, ghost after: View)
    requires Loaded(doc, view) && UsagePing.KeyPlace(view[doc]) >= 0 && UsagePing.BlockPath(view[doc]) == None
    modifies doc
    ensures fresh(block)
    ensures Holds(doc, block, UsagePing.Place(view[doc]), after)
    ensures after[block] == UsagePing.BlockOf(view[doc]) && after[doc] == UsagePing.Placed(view[doc])
  {
    LoadedFacts(doc, view);
    assert |doc.content| == |view[doc].content|;
    assert UsagePing.Placed(view[doc]).content ==
           view[doc].content[UsagePing.KeyPlace(view[doc]) + 1 := UsagePing.EMPTY_BLOCK];
    hide Loaded, Holds, Lists, UsagePing.Placed, UsagePing.BlockPath, UsagePing.KeyPlace, AddsLeaves, First;
    var i := FindUsagePingKey(doc);
    block := new Node(Mapping, "!!map", "");
    ghost var tree := view[doc].(content := view[doc].content[i + 1 := UsagePing.EMPTY_BLOCK]);
    ghost var known := With(view, block, UsagePing.EMPTY_BLOCK);
    UpdatedView(doc.content, view[doc].content, view, i + 1, block, known);
    SetContent(doc, doc.content[i + 1 := block], block, i + 1, tree, view, known);
    after := With(known, doc, tree);
  }

  lemma ChainEndsAt(doc: Node, p: Path, n: Node, view: View)
    requires Consistent(view) && Leads(doc, p, n, view)
    ensures doc in view && n in view && HasPath(view[doc], p) && At(view[doc], p) == view[n]
  {
    var nodes :| Chain(nodes, p, view) && nodes[0] == doc && nodes[|p|] == n;
    ChainAt(nodes, p, view);
  }

  /** What the search for the block finds. */
  lemma BlockFound(doc: Node, view: View)
    requires Loaded(doc, view) && Linked(doc, view)
    ensures var i, text := UsagePing.KeyPlace(view[doc]), view[doc];
            match Find<Node>(doc.content, YamlNode.LabelOf, "usagePing")
            case None => i < 0
            case Some(v) =>
              && i >= 0
              && (Followed(v).kind != Mapping ==> UsagePing.BlockPath(text) == None)
              && (Followed(v).kind == Mapping ==>
                    && UsagePing.BlockPath(text).Some? && UsagePing.Placed(text) == text
                    && Followed(v) in view && view[Followed(v)] == UsagePing.BlockOf(text)
                    && Leads(doc, UsagePing.Place(text), Followed(v), view))
  {
    LoadedFacts(doc, view);
    var i, ts := UsagePing.KeyPlace(view[doc]), view[doc].content;
    hide First, UsagePing.KeyPlace;
    if i >= 0 {
      var v := doc.content[i + 1];
      assert Stands(v, view);
      assert view[v] == ts[i + 1];
      if v.kind == Alias {
        AliasFound(doc, i, v, view);
      } else if v.kind == Mapping {
        ChainEndsAt(doc, [i + 1], v, view);
      }
    }
  }

  lemma AliasFound(doc: Node, i: nat, v: Node, view: View)
    requires Loaded(doc, view) && i + 1 < |view[doc].content| == |doc.content|
    requires v.kind == Alias && v.alias != null && v.value != ""
    requires var found := LastIn(view[doc].content[..i + 1], v.value);
             found.Some? && Leads(doc, found.value, v.alias, view)
    ensures var p := LastIn(view[doc].content[..i + 1], v.value).value;
            && PathIn(view[doc].content, p) && v.alias in view && AtIn(view[doc].content, p) == view[v.alias]
            && view[v.alias].kind == v.alias.kind
  {
    var p := LastIn(view[doc].content[..i + 1], v.value).value;
    PathInFront(view[doc].content, i + 1, p, map[]);
    ChainEndsAt(doc, p, v.alias, view);
    assert Stands(v.alias, view);
  }

  /** writeUsagePingField up to the edit: the block it will write to. */
  method EnsureBlock(doc: Node, ghost view: View) returns (block: Node, ghost after: View)
    requires Loaded(doc, view) && Linked(doc, view)
    modifies doc
    ensures Holds(doc, block, UsagePing.Place(view[doc]), after)
    ensures block in view || fresh(block)
    ensures after[block] == UsagePing.BlockOf(view[doc]) && after[doc] == UsagePing.Placed(view[doc])
  {
    assert doc in view && doc.kind == Mapping;
    BlockFound(doc, view);
    hide First, Find, Linked, UsagePing.KeyPlace, UsagePing.BlockPath, UsagePing.BlockOf, UsagePing.Placed, Leads, Consistent, OnlyAt;
    var found := FindMappingValue(doc, "usagePing");
    if found == null {
      block, after := AppendBlock(doc, view);
    } else if found.kind != Mapping {
      block, after := ReplaceBlock(doc, view);
    } else {
      block, after := found, view;
    }
  }

  // ---------------------------------------------------------- the whole edits

  /** All that is known of the nodes other than the block: they stand for their
      texts, and the nodes on the way are in no other lists than those of the way. */
  ghost predicate Around(nodes: seq<Node>, p: Path, block: Node, view: View)
    reads view.Keys - {block}
  {
    && |nodes| == |p| + 1 && nodes[|p|] == block
    && (forall k | 0 <= k < |nodes| :: nodes[k] in view)
    && (forall j, k | 0 <= j < k < |nodes| :: nodes[j] != nodes[k])
    && (forall k | 0 <= k < |p| ::
          nodes[k].kind != Alias && p[k] < |nodes[k].content| && nodes[k].content[p[k]] == nodes[k + 1])
    && AllBut(view, block)
    && forall n | n in view && n != block :: Apart(n, nodes, p)
  }

  ghost predicate Apart(n: Node, nodes: seq<Node>, p: Path)
    requires |nodes| == |p| + 1
    reads n
  {
    forall i, k | 0 <= i < |n.content| && 0 <= k < |nodes| && n.content[i] == nodes[k] ::
      k > 0 && n == nodes[k - 1] && i == p[k - 1]
  }

  lemma HoldsAround(doc: Node, block: Node, p: Path, view: View) returns (nodes: seq<Node>)
    requires Holds(doc, block, p, view)
    ensures Around(nodes, p, block, view) && nodes[0] == doc
    ensures forall k | 0 <= k < |nodes| :: nodes[k] !in block.content
    ensures SameLabels(block.content, view[block].content) && Lists(block.content, view[block].content, view)
    ensures Spells(block, view[block]) && HasPath(view[doc], p)
  {
    nodes :| Chain(nodes, p, view) && nodes[0] == doc && nodes[|p|] == block;
    ChildrenLookAlike(block, view);
    ChainAt(nodes, p, view);
    assert Stands(block, view);
    forall k | 0 <= k < |p|
      ensures nodes[k].kind != Alias && p[k] < |nodes[k].content| && nodes[k].content[p[k]] == nodes[k + 1]
    {
      assert Link(nodes[k], p[k], nodes[k + 1], view);
    }
    forall n | n in view ensures Apart(n, nodes, p) {
      forall i, k | 0 <= i < |n.content| && 0 <= k < |nodes| && n.content[i] == nodes[k]
        ensures k > 0 && n == nodes[k - 1] && i == p[k - 1]
      {
        if k > 0 {
          assert Link(nodes[k - 1], p[k - 1], nodes[k], view);
        }
      }
    }
    assert Apart(block, nodes, p);
  }

  /** After the edit the way to the block is what it was. */
  lemma AroundLater(nodes: seq<Node>, p: Path, block: Node, view: View, known: View)
    requires Around(nodes, p, block, view) && AddsLeaves(known, view)
    requires forall k | 0 <= k < |nodes| :: nodes[k] !in block.content
    ensures Chain(nodes, p, known) && AllBut(known, block) && OnlyAt(nodes[0], nodes[0], -1, known)
    ensures known[nodes[0]] == view[nodes[0]]
  {
    forall n | n in known && n != block ensures Stands(n, known) {
      assert n in view ==> Stands(n, view);
    }
    forall n | n in known ensures Apart(n, nodes, p) {
    }
    forall k | 0 <= k < |p| ensures Link(nodes[k], p[k], nodes[k + 1], known) {
      forall m | m in known ensures forall i | 0 <= i < |m.content| && m.content[i] == nodes[k + 1] :: m == nodes[k] && i == p[k] {
        assert Apart(m, nodes, p);
      }
    }
    forall m | m in known ensures forall i | 0 <= i < |m.content| :: m.content[i] != nodes[0] {
      assert Apart(m, nodes, p);
    }
  }

  /** The tail of writeUsagePingField. */
  method EditBlock(block: Node, field: string, value: string, ghost view: View, ghost nodes: seq<Node>, ghost p: Path)
    returns (ghost known: View)
    requires Around(nodes, p, block, view) && block.kind == Mapping && Spells(block, view[block])
    requires forall k | 0 <= k < |nodes| :: nodes[k] !in block.content
    requires SameLabels(block.content, view[block].content) && Lists(block.content, view[block].content, view)
    modifies block
    ensures Chain(nodes, p, known) && AllBut(known, block) && OnlyAt(nodes[0], nodes[0], -1, known)
    ensures var edited := UsagePing.EditBlock(view[block], field, value);
            Spells(block, edited) && Lists(block.content, edited.content, known)
    ensures block !in block.content && nodes[0] in known && known[nodes[0]] == view[nodes[0]]
  {
    assert nodes[|p|] == block && nodes[0] in view && forall k | 0 <= k < |nodes| :: nodes[k] in view;
    hide Around, Stands, Lists, SameLabels, AddsLeaves, Chain, AllBut, OnlyAt;
    UsagePing.EditKeepsHead(view[block], field, value);
    known := view;
    if value == "" {
      DropField(block, field, view);
    } else {
      known := PutField(block, field, value, view);
    }
    hide UsagePing.EditBlock;
    AroundLater(nodes, p, block, view, known);
  }

  // ------------------------------------------------------ the loaded document

  /** Where every node is in the document. */
  type Where = map<Node, Path>

  /** What the parser promises of a node: it is spelled as the text has it in its
      place, its children are in the places below, and an alias points to the last
      node of its name before it. */
  ghost predicate InPlace(n: Node, doc: Node, view: View, where: Where)
    requires doc in view && n in view && n in where
    reads n
  {
    && HasPath(view[doc], where[n]) && At(view[doc], where[n]) == view[n]
    && (n.kind != Alias ==>
          forall i | 0 <= i < |n.content| :: n.content[i] in where && where[n.content[i]] == where[n] + [i])
    && (n.kind == Alias ==>
          && n.content == [] && n.value != "" && n.alias != null && n.alias in where
          && BinderAt(view[doc], where[n], n.value) == Some(where[n.alias]))
  }

  /** A document as the parser builds it: one node for every place. */
  ghost predicate Parsed(doc: Node, view: View, where: Where)
    reads view.Keys
  {
    && Consistent(view) && doc in view && doc.kind == Mapping && where.Keys == view.Keys && where[doc] == []
    && (forall n, m | n in where && m in where && where[n] == where[m] :: n == m)
    && forall n | n in view :: InPlace(n, doc, view, where)
  }

  /** What every node means: its text, read in the scope of its place. */
  ghost function SenseOf(doc: Node, view: View, where: Where): Sense
    requires doc in view && where.Keys == view.Keys && forall n | n in view :: HasPath(view[doc], where[n])
  {
    map n | n in view :: Read(view[n], ScopeAt(view[doc], where[n], map[]))
  }

  lemma AliasMakesSense(n: Node, doc: Node, view: View, where: Where)
    requires Parsed(doc, view, where) && n in view && n.kind == Alias
    ensures forall m | m in view :: HasPath(view[doc], where[m])
    ensures Reads(n, SenseOf(doc, view, where))
  {
    assert forall m | m in view :: InPlace(m, doc, view, where);
    assert Stands(n, view);
    AliasStandsFor(view[doc], where[n], n.value);
    hide BinderAt;
  }

  lemma ParentMakesSense(n: Node, doc: Node, view: View, where: Where)
    requires Parsed(doc, view, where) && n in view && n.kind != Alias
    ensures forall m | m in view :: HasPath(view[doc], where[m])
    ensures Reads(n, SenseOf(doc, view, where))
  {
    assert forall m | m in view :: InPlace(m, doc, view, where);
    assert Stands(n, view);
    var sense, t, s := SenseOf(doc, view, where), view[n], ScopeAt(view[doc], where[n], map[]);
    hide BinderAt, ReadAll, AfterAll;
    forall i | 0 <= i < |n.content|
      ensures n.content[i] in sense && sense[n.content[i]] == ReadAll(t.content, Enter(t, s))[i]
    {
      ChildPath(view[doc], where[n], i, map[]);
      ReadAt(t.content, i, Enter(t, s));
    }
  }

  /** The pointers that the parser sets give every node the meaning of its text. */
  lemma ParsedIsSensible(doc: Node, view: View, where: Where)
    requires Parsed(doc, view, where)
    ensures forall m | m in view :: HasPath(view[doc], where[m])
    ensures Sensible(SenseOf(doc, view, where)) && SenseOf(doc, view, where)[doc] == Read(view[doc], map[])
  {
    assert forall m | m in view :: InPlace(m, doc, view, where);
    var sense := SenseOf(doc, view, where);
    forall n | n in sense ensures Reads(n, sense) {
      if n.kind == Alias {
        AliasMakesSense(n, doc, view, where);
      } else {
        ParentMakesSense(n, doc, view, where);
      }
    }
  }

  lemma PlacesAreUnique(m: Node, i: nat, doc: Node, view: View, where: Where)
    requires Parsed(doc, view, where) && m in view && i < |m.content|
    ensures m.kind != Alias && OnlyAt(m.content[i], m, i, view) && m.content[i] in where
    ensures where[m.content[i]] == where[m] + [i]
  {
    assert InPlace(m, doc, view, where);
    var c := m.content[i];
    forall n | n in view ensures forall k | 0 <= k < |n.content| && n.content[k] == c :: n == m && k == i {
      assert InPlace(n, doc, view, where);
      forall k | 0 <= k < |n.content| && n.content[k] == c ensures n == m && k == i {
        assert where[n] + [k] == where[m] + [i];
        assert (where[n] + [k])[..|where[n]|] == where[n] && (where[m] + [i])[..|where[m]|] == where[m];
        assert (where[n] + [k])[|where[n]|] == k;
      }
    }
  }

  lemma ParsedIsLoaded(doc: Node, view: View, where: Where)
    requires Parsed(doc, view, where)
    ensures Loaded(doc, view)
  {
    forall m | m in view ensures forall i | 0 <= i < |m.content| :: m.content[i] != doc {
      assert InPlace(m, doc, view, where);
    }
  }

  /** Every place of the text has its node, and the way there is a chain. */
  lemma {:induction false} ChainToPlace(doc: Node, p: Path, view: View, where: Where) returns (nodes: seq<Node>)
    requires Parsed(doc, view, where) && HasPath(view[doc], p)
    ensures Chain(nodes, p, view) && nodes[0] == doc && where[nodes[|p|]] == p
    ensures forall k | 0 <= k < |nodes| :: |where[nodes[k]]| == k
    decreases |p|
  {
    if p == [] {
      nodes := [doc];
    } else {
      var k := |p| - 1;
      var q, i := p[..k], p[k];
      assert p == q + [i];
      PrefixPath(view[doc], q, i);
      var front := ChainToPlace(doc, q, view, where);
      var m := front[k];
      assert InPlace(m, doc, view, where) && Stands(m, view);
      PlacesAreUnique(m, i, doc, view, where);
      nodes := front + [m.content[i]];
      hide Parsed, InPlace;
      ExtendChain(front, q, i, view, where);
    }
  }

  lemma ExtendChain(front: seq<Node>, q: Path, i: nat, view: View, where: Where)
    requires Chain(front, q, view) && where.Keys == view.Keys
    requires i < |front[|q|].content| && Link(front[|q|], i, front[|q|].content[i], view)
    requires var c := front[|q|].content[i]; c in where && |where[c]| == |q| + 1
    requires forall k | 0 <= k < |front| :: |where[front[k]]| == k
    ensures Chain(front + [front[|q|].content[i]], q + [i], view)
  {
    var c := front[|q|].content[i];
    var nodes, p := front + [c], q + [i];
    hide OnlyAt;
    forall j | 0 <= j < |p| ensures Link(nodes[j], p[j], nodes[j + 1], view) {
      if j < |q| {
        assert Link(front[j], q[j], front[j + 1], view);
      }
    }
  }

  lemma {:induction false} PrefixPath(t: Tree, p: Path, i: nat)
    requires HasPath(t, p + [i])
    ensures HasPath(t, p) && At(t, p).kind != Alias && i < |At(t, p).content|
    decreases |p|
  {
    var q := p + [i];
    if p != [] {
      assert q[0] == p[0] && q[1..] == p[1..] + [i];
      PrefixPath(t.content[p[0]], p[1..], i);
    }
  }

  lemma NodeIsReached(doc: Node, n: Node, view: View, where: Where)
    requires Parsed(doc, view, where) && n in view
    ensures Leads(doc, where[n], n, view)
  {
    assert InPlace(n, doc, view, where);
    var nodes := ChainToPlace(doc, where[n], view, where);
  }

  lemma ParsedIsLinked(doc: Node, view: View, where: Where)
    requires Parsed(doc, view, where)
    ensures Linked(doc, view)
  {
    var i := First<Node>(doc.content, ScalarNamed<Node>(YamlNode.LabelOf, "usagePing"));
    assert Stands(doc, view) && InPlace(doc, doc, view, where);
    hide First;
    if i >= 0 {
      var v := doc.content[i + 1];
      assert InPlace(v, doc, view, where) && where[v] == [i + 1];
      if v.kind == Mapping {
        NodeIsReached(doc, v, view, where);
      } else if v.kind == Alias {
        NodeIsReached(doc, v.alias, view, where);
        TopBinder(view[doc], i + 1, v.value);
      }
    }
  }

  lemma TopBinder(doc: Tree, j: nat, name: string)
    requires HasPath(doc, [j])
    ensures j < |doc.content| && BinderAt(doc, [j], name) == LastIn(doc.content[..j], name)
  {
    var p := [j];
    assert p[1..] == [];
    var found := LastIn(doc.content[..j], name);
    var base: Path := [];
    var here := match found case Some(q) => Some(base + q) case None => None;
    assert found.Some? ==> base + found.value == found.value;
    assert here == found;
    assert BinderAt(doc, p, name) == BinderIn(doc.content, base, p, name, None);
    assert BinderIn(doc.content, base, p, name, None) == Binder(doc.content[j], base + [j], p[1..], name, here);
  }

  // ---------------------------------------------------------- the operations

  /** readUsagePingField in memory reads what the text says. */
  method ReadUsagePingField(doc: Node, field: string, ghost view: View, ghost where: Where) returns (r: string)
    requires Parsed(doc, view, where)
    ensures r == UsagePing.ReadField(view[doc], field)
  {
    ParsedIsSensible(doc, view, where);
    hide Parsed, Sensible, SenseOf;
    r := ReadSensibly(doc, field, SenseOf(doc, view, where));
  }

  /** writeUsagePingField in memory: whether the block is missing, not a mapping,
      given in place or through an alias, the edit in place does to the text of the
      document exactly what WriteField says. */
  method WriteUsagePingField(doc: Node, field: string, value: string, ghost view: View, ghost where: Where)
    returns (ghost after: View)
    requires Parsed(doc, view, where)
    modifies view.Keys
    ensures Consistent(after) && doc in after
    ensures after[doc] == UsagePing.WriteField(view[doc], field, value)
  {
    ParsedIsLoaded(doc, view, where);
    ParsedIsLinked(doc, view, where);
    hide Parsed;
    assert doc in view && doc.kind == Mapping && view[doc].kind == Mapping by {
      LoadedFacts(doc, view);
    }
    hide Loaded, Linked, Consistent, Holds, Around, Stands, Lists, SameLabels, AddsLeaves, Chain, AllBut, OnlyAt;
    hide UsagePing.Placed, UsagePing.Place, UsagePing.BlockOf, UsagePing.WriteField, UsagePing.EditBlock;
    var block, placed := EnsureBlock(doc, view);
    ghost var p := UsagePing.Place(view[doc]);
    ghost var nodes := HoldsAround(doc, block, p, placed);
    ghost var known := EditBlock(block, field, value, placed, nodes, p);
    ghost var edited := UsagePing.EditBlock(placed[block], field, value);
    after := ChangeShows(nodes, p, edited, known);
    UsagePing.WriteIsExchange(view[doc], field, value);
  }

  /** deleteUsagePingBlock in memory. */
  method DeleteUsagePingBlock(doc: Node, ghost view: View, ghost where: Where) returns (ghost after: View)
    requires Parsed(doc, view, where)
    modifies doc
    ensures Consistent(after) && doc in after
    ensures after[doc] == UsagePing.DeleteBlock(view[doc])
  {
    ParsedIsLoaded(doc, view, where);
    hide Parsed;
    LoadedFacts(doc, view);
    ChildrenLookAlike(doc, view);
    SameDelete(view[doc], doc.content, view, "usagePing");
    OthersAlreadyStand(doc, doc, view, view);
    hide Consistent, OnlyAt, OthersStand, SameLabels, Delete, First;
    DeleteUsagePingKey(doc, "usagePing");
    DocumentStands(doc, UsagePing.DeleteBlock(view[doc]), view);
    after := With(view, doc, UsagePing.DeleteBlock(view[doc]));
  }
}
