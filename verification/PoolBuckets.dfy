/** writePoolStatsSection: pool members aggregated per repository and toolchain,
    printed as rows in key order. */
module PoolBuckets {

  datatype Status = Ready | Acquired | Warming | Invalid | Other

  datatype Key = Key(repo: string, toolchain: string)

  datatype Member = Member(key: Key, status: Status, diskMb: int)

  datatype Stats = Stats(total: nat, ready: nat, acquired: nat, warming: nat, invalid: nat, diskMb: int)

  const NONE := Stats(0, 0, 0, 0, 0, 0)

  function Add(s: Stats, m: Member): Stats {
    var counted := s.(total := s.total + 1, diskMb := s.diskMb + m.diskMb);
    match m.status
    case Ready => counted.(ready := s.ready + 1)
    case Acquired => counted.(acquired := s.acquired + 1)
    case Warming => counted.(warming := s.warming + 1)
    case Invalid => counted.(invalid := s.invalid + 1)
    case Other => counted
  }

  /** The statistics of the members with one key, without any map. */
  function StatsOf(members: seq<Member>, k: Key): Stats {
    if members == [] then NONE
    else
      var s, m := StatsOf(members[..|members| - 1], k), members[|members| - 1];
      if m.key == k then Add(s, m) else s
  }

  function KeysOf(members: seq<Member>): set<Key> {
    set i | 0 <= i < |members| :: members[i].key
  }

  /** The bucket map: exactly the keys that occur, each with its statistics. */
  method Aggregate(members: seq<Member>) returns (buckets: map<Key, Stats>)
    ensures buckets.Keys == KeysOf(members)
    ensures forall k | k in buckets :: buckets[k] == StatsOf(members, k)
  {
    hide Add, KeysOf, StatsOf;
    buckets := map[];
    Empty();
    assert members[..0] == [];
    var n := 0;
    while n < |members|
      invariant 0 <= n <= |members|
      invariant buckets.Keys == KeysOf(members[..n])
      invariant forall k: Key :: StatsOf(members[..n], k) == if k in buckets then buckets[k] else NONE
    {
      var m := members[n];
      var before := if m.key in buckets then buckets[m.key] else NONE;
      AppendMember(members[..n], m);
      assert members[..n + 1] == members[..n] + [m];
      buckets := buckets[m.key := Add(before, m)];
      n := n + 1;
    }
    assert members[..n] == members;
  }

  lemma Empty()
    ensures KeysOf([]) == {} && forall k: Key :: StatsOf([], k) == NONE
  {
  }

  lemma AppendMember(members: seq<Member>, m: Member)
    ensures KeysOf(members + [m]) == KeysOf(members) + {m.key}
    ensures forall k: Key ::
              StatsOf(members + [m], k) == if k == m.key then Add(StatsOf(members, k), m) else StatsOf(members, k)
  {
    hide Add;
    var all := members + [m];
    assert all[..|members|] == members;
    assert all[|members|] == m;
    assert forall i | 0 <= i < |members| :: all[i] == members[i];
    assert forall k | k in KeysOf(members) :: k in KeysOf(all) by {
      forall k | k in KeysOf(members) ensures k in KeysOf(all) {
        var i :| 0 <= i < |members| && members[i].key == k;
        assert all[i].key == k;
      }
    }
  }

  // -------------------------------------------------------------- conservation

  function SumTotal(members: seq<Member>, keys: seq<Key>): nat {
    if keys == [] then 0 else StatsOf(members, keys[0]).total + SumTotal(members, keys[1..])
  }

  function SumDisk(members: seq<Member>, keys: seq<Key>): int {
    if keys == [] then 0 else StatsOf(members, keys[0]).diskMb + SumDisk(members, keys[1..])
  }

  function Disk(members: seq<Member>): int {
    if members == [] then 0 else Disk(members[..|members| - 1]) + members[|members| - 1].diskMb
  }

  predicate Distinct(keys: seq<Key>) {
    forall i, j | 0 <= i < j < |keys| :: keys[i] != keys[j]
  }

  /** One more member is counted in exactly one row. */
  lemma {:induction false} OneMore(members: seq<Member>, m: Member, keys: seq<Key>)
    requires Distinct(keys)
    ensures SumTotal(members + [m], keys) == SumTotal(members, keys) + (if m.key in keys then 1 else 0)
    ensures SumDisk(members + [m], keys) == SumDisk(members, keys) + (if m.key in keys then m.diskMb else 0)
  {
    if keys != [] {
      assert (members + [m])[..|members|] == members;
      OneMore(members, m, keys[1..]);
      assert keys == [keys[0]] + keys[1..];
      assert m.key == keys[0] ==> m.key !in keys[1..];
    }
  }

  lemma {:induction false} NothingYet(keys: seq<Key>)
    ensures SumTotal([], keys) == 0 && SumDisk([], keys) == 0
  {
    if keys != [] {
      NothingYet(keys[1..]);
    }
  }

  /** The rows account for every member and every megabyte, once. */
  lemma {:induction false} RowsConserve(members: seq<Member>, keys: seq<Key>)
    requires Distinct(keys) && forall i | 0 <= i < |members| :: members[i].key in keys
    ensures SumTotal(members, keys) == |members| && SumDisk(members, keys) == Disk(members)
  {
    if members == [] {
      NothingYet(keys);
    } else {
      var front, m := members[..|members| - 1], members[|members| - 1];
      RowsConserve(front, keys);
      OneMore(front, m, keys);
      assert members == front + [m];
    }
  }

  // --------------------------------------------------------------------- order

  /** Go's string order. */
  predicate Before(a: string, b: string) {
    b != "" && (a == "" || a[0] < b[0] || (a[0] == b[0] && Before(a[1..], b[1..])))
  }

  predicate KeyBefore(a: Key, b: Key) {
    if a.repo != b.repo then Before(a.repo, b.repo) else Before(a.toolchain, b.toolchain)
  }

  lemma {:induction false} BeforeIsStrict(a: string, b: string)
    ensures !(Before(a, b) && Before(b, a))
    ensures a != b ==> Before(a, b) || Before(b, a)
  {
    if a != "" && b != "" && a[0] == b[0] {
      BeforeIsStrict(a[1..], b[1..]);
      assert a == [a[0]] + a[1..] && b == [b[0]] + b[1..];
    }
  }

  lemma {:induction false} BeforeIsTransitive(a: string, b: string, c: string)
    requires Before(a, b) && Before(b, c)
    ensures Before(a, c)
  {
    if a != "" && a[0] == b[0] == c[0] {
      BeforeIsTransitive(a[1..], b[1..], c[1..]);
    }
  }

  /** What sort.Slice leaves behind: neighbours are not out of order. */
  predicate Sorted(keys: seq<Key>) {
    forall i | 0 <= i < |keys| - 1 :: !KeyBefore(keys[i + 1], keys[i])
  }

  lemma KeyBeforeIsTransitive(a: Key, b: Key, c: Key)
    requires KeyBefore(a, b) && KeyBefore(b, c)
    ensures KeyBefore(a, c)
  {
    BeforeIsStrict(a.repo, b.repo);
    if a.repo == b.repo == c.repo {
      BeforeIsTransitive(a.toolchain, b.toolchain, c.toolchain);
    } else if a.repo != b.repo && b.repo != c.repo {
      BeforeIsTransitive(a.repo, b.repo, c.repo);
      BeforeIsStrict(b.repo, c.repo);
    }
  }

  lemma KeyBeforeIsStrict(a: Key, b: Key)
    ensures !(KeyBefore(a, b) && KeyBefore(b, a))
    ensures a != b ==> KeyBefore(a, b) || KeyBefore(b, a)
  {
    BeforeIsStrict(a.repo, b.repo);
    BeforeIsStrict(a.toolchain, b.toolchain);
  }

  /** In a sorted list of distinct keys the first one comes before all others. */
  lemma {:induction false} FirstIsLeast(keys: seq<Key>, i: nat)
    requires Distinct(keys) && Sorted(keys) && 0 < i < |keys|
    ensures KeyBefore(keys[0], keys[i])
  {
    KeyBeforeIsStrict(keys[i - 1], keys[i]);
    assert !KeyBefore(keys[i - 1 + 1], keys[i - 1]);
    if i > 1 {
      FirstIsLeast(keys, i - 1);
      KeyBeforeIsTransitive(keys[0], keys[i - 1], keys[i]);
    }
  }

  /** The printed row order does not depend on the order in which the map was
      iterated: two sorted lists of the same keys are the same list. */
  lemma {:induction false} RowOrderIsDetermined(a: seq<Key>, b: seq<Key>)
    requires Distinct(a) && Distinct(b) && Sorted(a) && Sorted(b)
    requires forall k: Key :: k in a <==> k in b
    ensures a == b
    decreases |a|
  {
    assert (a != [] ==> a[0] in b) && (b != [] ==> b[0] in a);
    if a != [] {
      SameFirst(a, b);
      assert a == [a[0]] + a[1..] && b == [b[0]] + b[1..];
      assert a[0] !in a[1..] && b[0] !in b[1..];
      forall k: Key ensures k in a[1..] <==> k in b[1..] {
        assert k in a <==> k == a[0] || k in a[1..];
        assert k in b <==> k == b[0] || k in b[1..];
      }
      RowOrderIsDetermined(a[1..], b[1..]);
      assert a == [a[0]] + a[1..] && b == [b[0]] + b[1..];
    }
  }

  lemma SameFirst(a: seq<Key>, b: seq<Key>)
    requires Distinct(a) && Distinct(b) && Sorted(a) && Sorted(b) && a != [] && b != []
    requires a[0] in b && b[0] in a
    ensures a[0] == b[0]
  {
    var i :| 0 <= i < |b| && b[i] == a[0];
    var j :| 0 <= j < |a| && a[j] == b[0];
    if i > 0 && j > 0 {
      FirstIsLeast(b, i);
      FirstIsLeast(a, j);
      KeyBeforeIsStrict(a[0], b[0]);
    }
  }

  /** The members of a row, or of one of its columns, in order. */
  function Matching(members: seq<Member>, k: Key, statuses: set<Status>): seq<Member> {
    if members == [] then []
    else
      var front, m := Matching(members[..|members| - 1], k, statuses), members[|members| - 1];
      if m.key == k && m.status in statuses then front + [m] else front
  }

  const ANY := {Ready, Acquired, Warming, Invalid, Other}

  /** Every column of a row counts the members of that key with that status. */
  lemma {:induction false} ColumnsCount(members: seq<Member>, k: Key)
    ensures var s := StatsOf(members, k);
            && s.total == |Matching(members, k, ANY)| && s.ready == |Matching(members, k, {Ready})|
            && s.acquired == |Matching(members, k, {Acquired})| && s.warming == |Matching(members, k, {Warming})|
            && s.invalid == |Matching(members, k, {Invalid})| && s.diskMb == Disk(Matching(members, k, ANY))
  {
    if members != [] {
      var front, m := members[..|members| - 1], members[|members| - 1];
      ColumnsCount(front, k);
      assert m.status.Ready? || m.status.Acquired? || m.status.Warming? || m.status.Invalid? || m.status.Other?;
      var row := Matching(front, k, ANY);
      assert (row + [m])[..|row|] == row;
    }
  }
}
