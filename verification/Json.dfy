/** Parsed JSON with its source order and duplicates, and the Go `any` values
    that encoding/json makes of it. */
module Json {

  /** `plain` marks a number literal made of digits only. */
  datatype Json =
    | JNull
    | JBool(b: bool)
    | JNum(number: real, plain: bool)
    | JStr(s: string)
    | JArr(items: seq<Json>)
    | JObj(fields: seq<Field>)

  datatype Field = Field(name: string, value: Json)

  datatype Value =
    | VNull
    | VBool(b: bool)
    | VNum(number: real)
    | VStr(s: string)
    | VArr(items: seq<Value>)
    | VObj(members: map<string, Value>)

  function ToValue(j: Json): Value
    decreases j, 1
  {
    match j
    case JNull => VNull
    case JBool(b) => VBool(b)
    case JNum(n, _) => VNum(n)
    case JStr(s) => VStr(s)
    case JArr(items) => VArr(ToValues(items))
    case JObj(fields) => VObj(ToMembers(fields))
  }

  function ToValues(items: seq<Json>): (vs: seq<Value>)
    ensures |vs| == |items|
    decreases items, 0
  {
    if items == [] then [] else [ToValue(items[0])] + ToValues(items[1..])
  }

  /** Members in source order, a later duplicate replacing an earlier one. */
  function ToMembers(fields: seq<Field>): map<string, Value>
    decreases fields, 0
  {
    if fields == [] then map[]
    else
      var last := fields[|fields| - 1];
      ToMembers(fields[..|fields| - 1])[last.name := ToValue(last.value)]
  }

  function Names(fields: seq<Field>): set<string> {
    set i | 0 <= i < |fields| :: fields[i].name
  }

  /** Exactly the names that occur become members, each with its last value. */
  lemma {:induction false} LastMemberWins(fields: seq<Field>)
    ensures ToMembers(fields).Keys == Names(fields)
    ensures forall i | 0 <= i < |fields| && (forall j | i < j < |fields| :: fields[j].name != fields[i].name) ::
              ToMembers(fields)[fields[i].name] == ToValue(fields[i].value)
  {
    if fields != [] {
      var front, last := fields[..|fields| - 1], fields[|fields| - 1];
      LastMemberWins(front);
      assert ToMembers(fields) == ToMembers(front)[last.name := ToValue(last.value)];
      assert fields == front + [last];
      hide *;
      NamesBehind(front, last);
      forall i | 0 <= i < |fields| && (forall j | i < j < |fields| :: fields[j].name != fields[i].name)
        ensures ToMembers(fields)[fields[i].name] == ToValue(fields[i].value)
      {
        if i < |front| {
          LastBefore(front, last, i);
        }
      }
    }
  }

  lemma LastBefore(front: seq<Field>, last: Field, i: nat)
    requires i < |front|
    requires forall j | i < j < |front| + 1 :: (front + [last])[j].name != front[i].name
    ensures last.name != front[i].name && forall j | i < j < |front| :: front[j].name != front[i].name
  {
    assert (front + [last])[|front|] == last;
    assert forall j | i < j < |front| :: (front + [last])[j] == front[j];
  }

  lemma NamesBehind(front: seq<Field>, last: Field)
    ensures Names(front + [last]) == Names(front) + {last.name}
  {
    var fields := front + [last];
    assert fields[|front|] == last;
    assert forall i | 0 <= i < |front| :: fields[i] == front[i];
  }

  predicate DistinctNames(fields: seq<Field>) {
    forall i, j | 0 <= i < j < |fields| :: fields[i].name != fields[j].name
  }

  /** `j` is a text of `v`: arrays item by item, objects member by member in any
      order and without duplicates. */
  ghost predicate Prints(v: Value, j: Json)
    decreases j, 1
  {
    match (v, j)
    case (VNull, JNull) => true
    case (VBool(a), JBool(b)) => a == b
    case (VNum(a), JNum(b, _)) => a == b
    case (VStr(a), JStr(b)) => a == b
    case (VArr(vs), JArr(js)) => PrintsAll(vs, js)
    case (VObj(m), JObj(fields)) => PrintsMembers(m, fields)
    case _ => false
  }

  ghost predicate PrintsAll(vs: seq<Value>, js: seq<Json>)
    decreases js, 0
  {
    |vs| == |js| && forall i | 0 <= i < |js| :: Prints(vs[i], js[i])
  }

  ghost predicate PrintsMembers(m: map<string, Value>, fields: seq<Field>)
    decreases fields, 0
  {
    && DistinctNames(fields) && Names(fields) == m.Keys
    && forall i | 0 <= i < |fields| :: fields[i].name in m && Prints(m[fields[i].name], fields[i].value)
  }

  /** Whatever the printed member order, a printed value reads back as itself. */
  lemma {:induction false} PrintedReadsBack(v: Value, j: Json)
    requires Prints(v, j)
    ensures ToValue(j) == v
    decreases j, 1
  {
    match j
    case JArr(items) => PrintedItemsReadBack(v.items, items);
    case JObj(fields) => PrintedMembersReadBack(v.members, fields);
    case _ =>
  }

  lemma {:induction false} PrintedItemsReadBack(vs: seq<Value>, js: seq<Json>)
    requires PrintsAll(vs, js)
    ensures ToValues(js) == vs
    decreases js, 0
  {
    if js != [] {
      PrintedReadsBack(vs[0], js[0]);
      PrintedItemsReadBack(vs[1..], js[1..]);
    }
  }

  lemma {:induction false} PrintedMembersReadBack(m: map<string, Value>, fields: seq<Field>)
    requires PrintsMembers(m, fields)
    ensures ToMembers(fields) == m
    decreases fields, 0
  {
    if fields != [] {
      var front, last := fields[..|fields| - 1], fields[|fields| - 1];
      PrintedFront(m, fields);
      hide Prints, PrintsMembers, ToValue;
      PrintedMembersReadBack(m - {last.name}, front);
      PrintedReadsBack(m[last.name], last.value);
      assert m == (m - {last.name})[last.name := m[last.name]];
    }
  }

  lemma PrintedFront(m: map<string, Value>, fields: seq<Field>)
    requires PrintsMembers(m, fields) && fields != []
    ensures var front, last := fields[..|fields| - 1], fields[|fields| - 1];
            && last.name in m && Prints(m[last.name], last.value) && PrintsMembers(m - {last.name}, front)
  {
    hide Prints;
    var front, last := fields[..|fields| - 1], fields[|fields| - 1];
    assert fields == front + [last];
    assert Names(fields) == Names(front) + {last.name};
    assert last.name !in Names(front);
    assert forall i | 0 <= i < |front| :: front[i] == fields[i] && front[i].name != last.name;
  }

  /** Every value has a text. */
  lemma {:induction false} EveryValueIsPrinted(v: Value)
    ensures exists j :: Prints(v, j)
    decreases v, 1, 0
  {
    match v
    case VNull => assert Prints(v, JNull);
    case VBool(b) => assert Prints(v, JBool(b));
    case VNum(n) => assert Prints(v, JNum(n, false));
    case VStr(s) => assert Prints(v, JStr(s));
    case VArr(items) =>
      EveryItemIsPrinted(v, items);
      var js :| PrintsAll(items, js);
      assert Prints(v, JArr(js));
    case VObj(members) =>
      EveryMemberIsPrinted(v, members);
      var fields :| PrintsMembers(members, fields);
      assert Prints(v, JObj(fields));
  }

  lemma {:induction false} EveryItemIsPrinted(v: Value, items: seq<Value>)
    requires v.VArr? && forall i | 0 <= i < |items| :: items[i] in v.items
    ensures exists js :: PrintsAll(items, js)
    decreases v, 0, |items|
  {
    if items == [] {
      assert PrintsAll(items, []);
    } else {
      EveryValueIsPrinted(items[0]);
      EveryItemIsPrinted(v, items[1..]);
      hide Prints;
      var j :| Prints(items[0], j);
      var js :| PrintsAll(items[1..], js);
      assert PrintsAll(items, [j] + js);
    }
  }

  lemma {:induction false} EveryMemberIsPrinted(v: Value, m: map<string, Value>)
    requires v.VObj? && m.Keys <= v.members.Keys && forall k | k in m :: m[k] == v.members[k]
    ensures exists fields :: PrintsMembers(m, fields)
    decreases v, 0, |m|
  {
    if m == map[] {
      assert PrintsMembers(m, []);
    } else {
      var k :| k in m;
      var rest := m - {k};
      FewerMembers(m, k);
      EveryValueIsPrinted(v.members[k]);
      EveryMemberIsPrinted(v, rest);
      hide *;
      var j :| Prints(m[k], j);
      var fields :| PrintsMembers(rest, fields);
      OneMoreMember(m, k, j, fields);
    }
  }

  lemma FewerMembers(m: map<string, Value>, k: string)
    requires k in m
    ensures |m - {k}| < |m|
  {
    assert m == (m - {k})[k := m[k]];
  }

  lemma OneMoreMember(m: map<string, Value>, k: string, j: Json, fields: seq<Field>)
    requires k in m && Prints(m[k], j) && PrintsMembers(m - {k}, fields)
    ensures PrintsMembers(m, fields + [Field(k, j)])
  {
    hide Prints;
    NamesBehind(fields, Field(k, j));
    assert forall i | 0 <= i < |fields| :: fields[i].name in Names(fields);
  }
}
