/** publish of action/run.py: the drift-check comment on a pull request is
    created once and updated in place from then on. */
module CommentUpsert {
  const MARKER := "<!-- donmai-native-drift-check -->"
  const BOT := "github-actions[bot]"
  const PAGE := 100
  const PAGES := 10
  const REACH := 1000

  /** The `user` and `body` members of a comment as the API may return them. */
  datatype User = NoUser | NullUser | Login(login: string)
  datatype Body = NoBody | NullBody | Text(text: string)
  datatype Comment = Comment(id: int, user: User, body: Body)

  /** Comparing the author or the body of this comment raises an exception. */
  predicate Raises(c: Comment) {
    c.user == NullUser || (c.user == Login(BOT) && c.body == NullBody)
  }

  predicate Ours(c: Comment) {
    c.user == Login(BOT) && c.body.Text? && MARKER <= c.body.text
  }

  /** The search ends at this comment, one way or the other. */
  predicate Stops(c: Comment) {
    Raises(c) || Ours(c)
  }

  /** The test of one comment as Python evaluates it: a missing member has a default,
      a null one has no methods, and the body is looked at for the bot only. */
  method Examine(c: Comment) returns (raises: bool, ours: bool)
    ensures raises <==> Raises(c)
    ensures !raises ==> (ours <==> Ours(c))
  {
    match c.user
    case NoUser => return false, false;
    case NullUser => return true, false;
    case Login(login) =>
      if login != BOT {
        return false, false;
      }
      match c.body {
        case NoBody => return false, MARKER <= "";
        case NullBody => return true, false;
        case Text(text) => return false, MARKER <= text;
      }
  }

  /** The first comment at which the search ends, or -1. */
  function FirstStop(thread: seq<Comment>): (i: int)
    ensures -1 <= i < |thread|
    ensures i >= 0 ==> Stops(thread[i])
    ensures forall k | 0 <= k < (if i < 0 then |thread| else i) :: !Stops(thread[k])
  {
    if thread == [] then -1
    else if Stops(thread[0]) then 0
    else
      var i := FirstStop(thread[1..]);
      assert forall k | 0 < k < |thread| :: thread[k] == thread[1..][k - 1];
      if i < 0 then -1 else i + 1
  }

  datatype Outcome = Updated | Posted | Disabled | Unavailable | Refused | Raised

  function Reachable(thread: seq<Comment>): seq<Comment> {
    if |thread| <= REACH then thread else thread[..REACH]
  }

  /** What a run with a working API does to the whole comment list. */
  function Upserted(thread: seq<Comment>, text: string, newId: int): (Outcome, seq<Comment>) {
    var i := FirstStop(Reachable(thread));
    if i >= 0 then
      if Raises(thread[i]) then (Raised, thread)
      else if thread[i].id <= 0 then (Refused, thread)
      else (Updated, thread[i := thread[i].(body := Text(text))])
    else if |thread| < REACH then (Posted, thread + [Comment(newId, Login(BOT), Text(text))])
    else (Refused, thread)
  }

  /** What a call comes back with. A reply that is not Fine says nothing about
      whether the request took effect: it may have been lost, too long or not JSON
      after GitHub had done what was asked. */
  datatype Answer = Fine | Status(code: int) | Broken

  datatype Mode = Never | Auto | Required

  /** The pull request's comments; what the API answers to the n-th call, and
      whether a write takes effect although its answer is not Fine. */
  class Action {
    var thread: seq<Comment>
    var calls: nat
    const api: nat -> Answer
    const applied: nat -> bool

    constructor (thread: seq<Comment>, api: nat -> Answer, applied: nat -> bool)
      ensures this.thread == thread && this.api == api && this.applied == applied && calls == 0
    {
      this.thread, this.api, this.applied, this.calls := thread, api, applied, 0;
    }

    method Call() returns (ok: bool, failure: Answer)
      modifies this`calls
      ensures calls == old(calls) + 1
      ensures failure == api(old(calls)) && (ok <==> failure == Fine)
    {
      failure := api(calls);
      ok := failure == Fine;
      calls := calls + 1;
    }

    /** A PATCH or POST that would turn the comments into `next`. */
    method Write(next: seq<Comment>) returns (ok: bool, failure: Answer)
      modifies this
      ensures calls == old(calls) + 1
      ensures failure == api(old(calls)) && (ok <==> failure == Fine)
      ensures thread == if ok || applied(old(calls)) then next else old(thread)
    {
      var effect := applied(calls);
      ok, failure := Call();
      if ok || effect {
        thread := next;
      }
    }

    /** The except clause: missing permission is forgiven in auto mode. */
    function Failure(failure: Answer, mode: Mode): (o: Outcome)
      ensures o in {Unavailable, Refused}
    {
      match failure
      case Status(code) => if code in {403, 404} && mode == Auto then Unavailable else Refused
      case _ => Refused
    }

    /** The search in one page: the first comment that stops it, or the page's end. */
    method Scan(first: nat, last: nat) returns (k: nat)
      requires first <= last <= |thread|
      ensures first <= k <= last && (k < last ==> Stops(thread[k]))
      ensures forall j | first <= j < k :: !Stops(thread[j])
    {
      k := first;
      while k < last
        invariant first <= k <= last && forall j | first <= j < k :: !Stops(thread[j])
      {
        var raises, ours := Examine(thread[k]);
        if raises || ours {
          return;
        }
        k := k + 1;
      }
    }

    /** The calls since the given one were answered as asked, but for the last. */
    ghost predicate OnlyLastFails(since: nat)
      reads this
    {
      since < calls && forall n: nat | since <= n < calls - 1 :: api(n) == Fine
    }

    /** publish. With a working API it does to the list exactly what Upserted
        says; whatever the API answers, it does that or nothing, and reports
        success only if it did it. It stops at the first call that fails, which
        decides what it reports. */
    method Publish(text: string, mode: Mode, newId: int) returns (outcome: Outcome)
      modifies this
      ensures mode == Never ==> outcome == Disabled && thread == old(thread) && calls == old(calls)
      ensures mode != Never ==> OnlyLastFails(old(calls))
      ensures mode != Never && api(calls - 1) == Fine ==> (outcome, thread) == Upserted(old(thread), text, newId)
      ensures outcome in {Updated, Posted} ==> (outcome, thread) == Upserted(old(thread), text, newId)
      ensures thread == old(thread) || thread == Upserted(old(thread), text, newId).1
      ensures mode != Never && api(calls - 1) != Fine ==>
                outcome == if mode == Auto && api(calls - 1) in {Status(403), Status(404)} then Unavailable else Refused
    {
      hide Stops, Raises, Ours, FirstStop, Reachable, Upserted;
      if mode == Never {
        return Disabled;
      }
      var page := 1;
      while page <= PAGES
        invariant 1 <= page <= PAGES + 1 && thread == old(thread) && calls == old(calls) + page - 1
        invariant forall n: nat | old(calls) <= n < calls :: api(n) == Fine
        invariant (page - 1) * PAGE <= |thread|
        invariant forall k | 0 <= k < (page - 1) * PAGE :: !Stops(thread[k])
      {
        var ok, failure := Call();
        if !ok {
          return Failure(failure, mode);
        }
        var first := (page - 1) * PAGE;
        var last := if first + PAGE <= |thread| then first + PAGE else |thread|;
        var k := Scan(first, last);
        if k < last {
          outcome := Settle(k, text, mode, newId);
          return;
        }
        if last - first < PAGE {
          outcome := Post(text, mode, newId);
          return;
        }
        page := page + 1;
      }
      NothingInReach(thread, text, newId);
      outcome := Refused;
    }

    /** The comment at which the search stopped raises, is unusable or is updated. */
    method Settle(k: nat, text: string, mode: Mode, newId: int) returns (outcome: Outcome)
      requires k < |thread| && k < REACH && Stops(thread[k]) && calls > 0 && api(calls - 1) == Fine
      requires forall j | 0 <= j < k :: !Stops(thread[j])
      modifies this
      ensures old(calls) <= calls <= old(calls) + 1
      ensures api(calls - 1) == Fine ==> (outcome, thread) == Upserted(old(thread), text, newId)
      ensures api(calls - 1) != Fine ==> outcome == Failure(api(calls - 1), mode)
      ensures thread == old(thread) || thread == Upserted(old(thread), text, newId).1
    {
      StopsHere(thread, k);
      var c := thread[k];
      var raises, _ := Examine(c);
      if raises {
        return Raised;
      }
      if c.id <= 0 {
        return Refused;
      }
      var ok, failure := Write(thread[k := c.(body := Text(text))]);
      outcome := if ok then Updated else Failure(failure, mode);
    }

    /** The pages ended before the search stopped. */
    method Post(text: string, mode: Mode, newId: int) returns (outcome: Outcome)
      requires |thread| < REACH && forall j | 0 <= j < |thread| :: !Stops(thread[j])
      modifies this
      ensures calls == old(calls) + 1
      ensures api(calls - 1) == Fine ==> (outcome, thread) == Upserted(old(thread), text, newId)
      ensures api(calls - 1) != Fine ==> outcome == Failure(api(calls - 1), mode)
      ensures thread == old(thread) || thread == Upserted(old(thread), text, newId).1
    {
      StopsNowhere(thread);
      var ok, failure := Write(thread + [Comment(newId, Login(BOT), Text(text))]);
      outcome := if ok then Posted else Failure(failure, mode);
    }
  }

  lemma NothingInReach(thread: seq<Comment>, text: string, newId: int)
    requires |thread| >= REACH && forall j | 0 <= j < REACH :: !Stops(thread[j])
    ensures Upserted(thread, text, newId) == (Refused, thread)
  {
    StopsNowhere(thread);
  }

  lemma StopsHere(thread: seq<Comment>, k: nat)
    requires k < |thread| && k < REACH && Stops(thread[k])
    requires forall j | 0 <= j < k :: !Stops(thread[j])
    ensures FirstStop(Reachable(thread)) == k
  {
    var i := FirstStop(Reachable(thread));
    assert Reachable(thread)[k] == thread[k];
    assert i >= 0 ==> Reachable(thread)[i] == thread[i];
  }

  lemma StopsNowhere(thread: seq<Comment>)
    requires forall j | 0 <= j < |thread| && j < REACH :: !Stops(thread[j])
    ensures FirstStop(Reachable(thread)) == -1
  {
    assert forall j | 0 <= j < |Reachable(thread)| :: Reachable(thread)[j] == thread[j];
  }

  // ---------------------------------------------------------- one run, exactly

  /** Below the reach of the search a run writes exactly when no comment raises
      before ours is found and ours has a usable id: it then updates the first
      marker comment of the bot, or posts if there is none. */
  lemma WritesIffNothingRaises(thread: seq<Comment>, text: string, newId: int)
    requires |thread| < REACH
    ensures var i := FirstStop(thread);
            Upserted(thread, text, newId).0 in {Updated, Posted}
            <==> i < 0 || (!Raises(thread[i]) && thread[i].id > 0)
  {
  }

  /** A comment without an author stops every run before it can write. */
  lemma NullUserExample(text: string, newId: int)
    ensures Upserted([Comment(7, NullUser, Text("hello"))], text, newId) ==
            (Raised, [Comment(7, NullUser, Text("hello"))])
  {
    StopsHere([Comment(7, NullUser, Text("hello"))], 0);
  }

  // ------------------------------------------------------------------ summary

  function Lines(lines: seq<string>): string {
    if lines == [] then "" else lines[0] + "\n" + Lines(lines[1..])
  }

  /** summary: the marker, then whatever the assessment has to say. */
  function Summary(details: seq<string>): string {
    Lines([MARKER] + details)
  }

  /** Every summary is a text that later runs recognise. */
  lemma SummaryIsMarked(details: seq<string>)
    ensures MARKER <= Summary(details)
  {
    var lines := [MARKER] + details;
    assert Lines(lines) == MARKER + ("\n" + Lines(lines[1..]));
  }

  // ---------------------------------------------------------------- many runs

  function OurCount(thread: seq<Comment>): nat {
    if thread == [] then 0
    else OurCount(thread[..|thread| - 1]) + (if Ours(thread[|thread| - 1]) then 1 else 0)
  }

  /** A run whose write took effect or not, whatever it reported; between the runs
      other people append comments. */
  datatype Step = Run(text: string, newId: int, effect: bool) | Append(comment: Comment)

  function After(thread: seq<Comment>, step: Step): seq<Comment> {
    match step
    case Run(text, newId, effect) => if effect then Upserted(thread, text, newId).1 else thread
    case Append(c) => thread + [c]
  }

  function AfterAll(thread: seq<Comment>, steps: seq<Step>): seq<Comment>
    decreases |steps|
  {
    if steps == [] then thread else AfterAll(After(thread, steps[0]), steps[1..])
  }

  /** Every run publishes a summary, and nobody else writes as the bot. */
  predicate Usual(step: Step) {
    match step
    case Run(text, newId, _) => MARKER <= text && newId > 0
    case Append(c) => !Ours(c)
  }

  lemma OurCountAppend(thread: seq<Comment>, c: Comment)
    ensures OurCount(thread + [c]) == OurCount(thread) + (if Ours(c) then 1 else 0)
  {
    assert (thread + [c])[..|thread|] == thread;
  }

  lemma {:induction false} OurCountUpdate(thread: seq<Comment>, i: nat, c: Comment)
    requires i < |thread| && Ours(thread[i]) && Ours(c)
    ensures OurCount(thread[i := c]) == OurCount(thread)
  {
    var n := |thread| - 1;
    if i < n {
      assert thread[i := c][..n] == thread[..n][i := c];
      OurCountUpdate(thread[..n], i, c);
    } else {
      assert thread[i := c][..n] == thread[..n];
    }
  }

  lemma {:induction false} NoneCounted(thread: seq<Comment>)
    requires forall k | 0 <= k < |thread| :: !Ours(thread[k])
    ensures OurCount(thread) == 0
  {
    if thread != [] {
      NoneCounted(thread[..|thread| - 1]);
    }
  }

  /** One step changes the number of our comments only by the very first post. */
  lemma StepKeepsOne(thread: seq<Comment>, step: Step)
    requires Usual(step)
    ensures OurCount(After(thread, step)) == OurCount(thread)
            || (OurCount(thread) == 0 && OurCount(After(thread, step)) == 1)
  {
    match step
    case Append(c) => OurCountAppend(thread, c);
    case Run(text, newId, _) =>
      var i := FirstStop(Reachable(thread));
      match Upserted(thread, text, newId).0 {
        case Updated => OurCountUpdate(thread, i, thread[i].(body := Text(text)));
        case Posted =>
          NoneCounted(thread);
          OurCountAppend(thread, Comment(newId, Login(BOT), Text(text)));
        case _ =>
      }
  }

  /** Any number of runs, failed ones and ones that fail after their write among
      them, with anything appended in between, adds at most one marker comment, and
      none to a thread that already has one. */
  lemma {:induction false} AtMostOneIsAdded(thread: seq<Comment>, steps: seq<Step>)
    requires forall i | 0 <= i < |steps| :: Usual(steps[i])
    ensures OurCount(AfterAll(thread, steps)) == OurCount(thread)
            || (OurCount(thread) == 0 && OurCount(AfterAll(thread, steps)) == 1)
    decreases |steps|
  {
    if steps != [] {
      StepKeepsOne(thread, steps[0]);
      AtMostOneIsAdded(After(thread, steps[0]), steps[1..]);
    }
  }

  /** The search ends at our own comment, within reach and with a usable id. */
  predicate FoundAt(thread: seq<Comment>, i: nat) {
    i < |thread| && FirstStop(Reachable(thread)) == i && Ours(thread[i]) && !Raises(thread[i]) && thread[i].id > 0
  }

  /** A posted comment is found by the next run ... */
  lemma PostedIsFound(thread: seq<Comment>, text: string, newId: int)
    requires Upserted(thread, text, newId).0 == Posted && MARKER <= text && newId > 0
    ensures FoundAt(Upserted(thread, text, newId).1, |thread|)
    ensures Upserted(thread, text, newId).1 == thread + [Comment(newId, Login(BOT), Text(text))]
  {
    var after := Upserted(thread, text, newId).1;
    assert forall k | 0 <= k < |thread| :: after[k] == thread[k];
    StopsHere(after, |thread|);
  }

  lemma StepKeepsFound(thread: seq<Comment>, i: nat, step: Step)
    requires Usual(step) && FoundAt(thread, i)
    ensures FoundAt(After(thread, step), i) && |thread| <= |After(thread, step)|
    ensures step.Run? ==> Upserted(thread, step.text, step.newId).0 == Updated
    ensures step.Run? && step.effect ==> After(thread, step)[i].body == Text(step.text)
  {
    var after := After(thread, step);
    assert forall k | 0 <= k < i :: after[k] == thread[k] && !Stops(Reachable(thread)[k]);
    assert forall k | 0 <= k < i :: Reachable(thread)[k] == thread[k];
    StopsHere(after, i);
  }

  /** ... and by all later ones, however long the thread grows: they all update
      that comment. */
  lemma {:induction false} FoundForever(thread: seq<Comment>, i: nat, steps: seq<Step>)
    requires FoundAt(thread, i) && forall k | 0 <= k < |steps| :: Usual(steps[k])
    ensures FoundAt(AfterAll(thread, steps), i)
    ensures forall text, newId: int :: Upserted(AfterAll(thread, steps), text, newId).0 == Updated
    decreases |steps|
  {
    if steps != [] {
      StepKeepsFound(thread, i, steps[0]);
      FoundForever(After(thread, steps[0]), i, steps[1..]);
    }
  }
}
