/** `session stream`: tailing a session's activity log by polling with a cursor
    while the coordinator keeps appending to it. */
module SessionStream {
  import opened Decimal

  datatype Event = Event(id: string, content: string)

  /** What the cursor member of a reply holds. */
  datatype CursorChoice = Absent | Blank | Named

  datatype Reply = Reply(activities: seq<Event>, cursor: Option<string>, terminal: bool)

  /** The coordinator as the n-th poll meets it: the log at that moment, whether
      the session is terminal, how many events a page may hold and whether the
      reply carries a cursor. */
  datatype Server = Server(logs: nat -> seq<Event>, terminal: nat -> bool, page: nat -> nat, choice: nat -> CursorChoice)

  predicate Identified(log: seq<Event>) {
    && (forall i | 0 <= i < |log| :: log[i].id != "")
    && (forall i, j | 0 <= i < j < |log| :: log[i].id != log[j].id)
  }

  /** The log only grows, and its events have distinct, non-empty ids. */
  ghost predicate Honest(s: Server) {
    && (forall n: nat :: Identified(s.logs(n)))
    && (forall m: nat, n: nat | m <= n :: s.logs(m) <= s.logs(n))
  }

  /** The position right after the named event; 0 for an unknown name. */
  function PositionAfter(log: seq<Event>, id: string): (p: nat)
    ensures p <= |log|
  {
    if log == [] then 0
    else if log[|log| - 1].id == id then |log|
    else PositionAfter(log[..|log| - 1], id)
  }

  function Position(log: seq<Event>, after: Option<string>): (p: nat)
    ensures p <= |log|
  {
    match after
    case None => 0
    case Some(id) => PositionAfter(log, id)
  }

  function PageEnd(s: Server, n: nat, after: Option<string>): (q: nat)
    ensures Position(s.logs(n), after) <= q <= |s.logs(n)|
  {
    var p, limit := Position(s.logs(n), after), |s.logs(n)|;
    if p + s.page(n) <= limit then p + s.page(n) else limit
  }

  /** GetActivities: a contiguous page after the cursor; a cursor in the reply
      names the last event up to the end of that page. */
  function Answer(s: Server, n: nat, after: Option<string>): Reply {
    var log, p, q := s.logs(n), Position(s.logs(n), after), PageEnd(s, n, after);
    var cursor :=
      match s.choice(n)
      case Absent => None
      case Blank => Some("")
      case Named => if q == 0 then None else Some(log[q - 1].id);
    Reply(log[p..q], cursor, s.terminal(n))
  }

  /** advanceCursor. */
  function AdvanceCursor(current: string, resp: Reply): string {
    if resp.cursor.Some? && resp.cursor.value != "" then resp.cursor.value
    else if |resp.activities| > 0 then resp.activities[|resp.activities| - 1].id
    else current
  }

  function CursorArg(cursor: string): Option<string> {
    if cursor != "" then Some(cursor) else None
  }

  datatype Client = Client(cursor: string, printed: seq<Event>, finished: bool)

  /** The first poll: no cursor, and nothing printed with --follow-only. */
  function FirstPoll(s: Server, followOnly: bool): Client {
    var resp := Answer(s, 0, None);
    Client(AdvanceCursor("", resp), if followOnly then [] else resp.activities,
           resp.terminal && resp.activities == [])
  }

  /** One round of the loop. */
  function Poll(s: Server, n: nat, c: Client): Client {
    var resp := Answer(s, n, CursorArg(c.cursor));
    Client(AdvanceCursor(c.cursor, resp), c.printed + resp.activities, resp.terminal && resp.activities == [])
  }

  /** The client after poll number n, if it has not finished before. */
  function ClientAt(s: Server, followOnly: bool, n: nat): Client {
    if n == 0 then FirstPoll(s, followOnly)
    else
      var c := ClientAt(s, followOnly, n - 1);
      if c.finished then c else Poll(s, n, c)
  }

  /** Where printing starts. */
  function Origin(s: Server, followOnly: bool): nat {
    if followOnly then PageEnd(s, 0, None) else 0
  }

  // ------------------------------------------------------------- exactly once

  lemma {:induction false} PositionAfterNamed(log: seq<Event>, k: nat)
    requires Identified(log) && k < |log|
    ensures PositionAfter(log, log[k].id) == k + 1
  {
    if k + 1 < |log| {
      PositionAfterNamed(log[..|log| - 1], k);
    }
  }

  /** The next request resumes exactly at position `next` of the log. */
  predicate Resumes(log: seq<Event>, cursor: string, next: nat) {
    && next <= |log|
    && (cursor == "" ==> next == 0)
    && (cursor != "" ==> 0 < next && log[next - 1].id == cursor)
  }

  lemma ResumesThere(log: seq<Event>, cursor: string, next: nat)
    requires Identified(log) && Resumes(log, cursor, next)
    ensures Position(log, CursorArg(cursor)) == next
  {
    if cursor != "" {
      PositionAfterNamed(log, next - 1);
    }
  }

  lemma CursorMovesToPageEnd(s: Server, n: nat, cursor: string, next: nat)
    requires Honest(s) && Resumes(s.logs(n), cursor, next)
    ensures var after := CursorArg(cursor);
            && next <= PageEnd(s, n, after)
            && Answer(s, n, after).activities == s.logs(n)[next..PageEnd(s, n, after)]
            && Resumes(s.logs(n), AdvanceCursor(cursor, Answer(s, n, after)), PageEnd(s, n, after))
  {
    assert Identified(s.logs(n));
    ResumesThere(s.logs(n), cursor, next);
    var q := PageEnd(s, n, CursorArg(cursor));
    var page := s.logs(n)[next..q];
    assert |page| > 0 ==> page[|page| - 1] == s.logs(n)[q - 1];
  }

  /** After any number of polls, what was printed is the contiguous segment of
      the log from the origin up to the point where the next request resumes:
      nothing skipped, nothing printed twice. */
  lemma {:induction false} PrintedIsSegment(s: Server, followOnly: bool, n: nat) returns (next: nat)
    requires Honest(s)
    ensures var c, log := ClientAt(s, followOnly, n), s.logs(n);
            && Origin(s, followOnly) <= next && Resumes(log, c.cursor, next)
            && c.printed == log[Origin(s, followOnly)..next]
            && Position(log, CursorArg(c.cursor)) == next
  {
    if n == 0 {
      next := FirstSegment(s, followOnly);
    } else {
      hide *;
      var before := PrintedIsSegment(s, followOnly, n - 1);
      ClientStep(s, followOnly, n);
      next := NextSegment(s, followOnly, n, before);
    }
    hide *;
    HonestAt(s, n);
    ResumesThere(s.logs(n), ClientAt(s, followOnly, n).cursor, next);
  }

  lemma HonestAt(s: Server, n: nat)
    requires Honest(s)
    ensures Identified(s.logs(n)) && (n > 0 ==> s.logs(n - 1) <= s.logs(n))
  {
  }

  lemma FirstSegment(s: Server, followOnly: bool) returns (next: nat)
    requires Honest(s)
    ensures var c, log := ClientAt(s, followOnly, 0), s.logs(0);
            && Origin(s, followOnly) <= next && Resumes(log, c.cursor, next)
            && next <= |log| && c.printed == log[Origin(s, followOnly)..next]
  {
    hide Answer, AdvanceCursor, Resumes, PageEnd, Position;
    StartsAtZero(s);
    CursorMovesToPageEnd(s, 0, "", 0);
    next := PageEnd(s, 0, None);
    FirstPageBounds(s);
  }

  lemma NextSegment(s: Server, followOnly: bool, n: nat, before: nat) returns (next: nat)
    requires Honest(s) && n > 0
    requires var c, log := ClientAt(s, followOnly, n - 1), s.logs(n - 1);
             && Origin(s, followOnly) <= before && Resumes(log, c.cursor, before)
             && before <= |log| && c.printed == log[Origin(s, followOnly)..before]
    ensures var c, log := ClientAt(s, followOnly, n), s.logs(n);
            && Origin(s, followOnly) <= next && Resumes(log, c.cursor, next)
            && next <= |log| && c.printed == log[Origin(s, followOnly)..next]
  {
    var c, o := ClientAt(s, followOnly, n - 1), Origin(s, followOnly);
    hide *;
    ClientStep(s, followOnly, n);
    HonestAt(s, n);
    ResumesLater(s.logs(n - 1), s.logs(n), c.cursor, before);
    if c.finished {
      next := before;
      SameSegment(s.logs(n - 1), s.logs(n), o, before, before);
    } else {
      CursorMovesToPageEnd(s, n, c.cursor, before);
      next := PageEnd(s, n, CursorArg(c.cursor));
      PageBounds(s, n, c.cursor, before);
      SameSegment(s.logs(n - 1), s.logs(n), o, before, next);
      PollPrints(s, n, c);
    }
  }

  lemma PollPrints(s: Server, n: nat, c: Client)
    ensures var resp := Answer(s, n, CursorArg(c.cursor));
            Poll(s, n, c).printed == c.printed + resp.activities && Poll(s, n, c).cursor == AdvanceCursor(c.cursor, resp)
  {
  }

  /** A segment of a log that has grown, and the page behind it. */
  lemma SameSegment(log: seq<Event>, grown: seq<Event>, o: nat, before: nat, next: nat)
    requires log <= grown && o <= before <= |log| && before <= next <= |grown|
    ensures log[o..before] + grown[before..next] == grown[o..next]
    ensures log[o..before] == grown[o..before]
  {
    assert log[o..before] == grown[o..before];
  }

  lemma StartsAtZero(s: Server)
    ensures Resumes(s.logs(0), "", 0) && CursorArg("") == None
  {
  }

  lemma FirstPageBounds(s: Server)
    ensures PageEnd(s, 0, None) <= |s.logs(0)|
  {
  }

  lemma PageBounds(s: Server, n: nat, cursor: string, next: nat)
    requires Honest(s) && Resumes(s.logs(n), cursor, next)
    ensures next <= PageEnd(s, n, CursorArg(cursor)) <= |s.logs(n)|
  {
    assert Identified(s.logs(n));
    ResumesThere(s.logs(n), cursor, next);
  }

  lemma ResumesLater(old_log: seq<Event>, new_log: seq<Event>, cursor: string, next: nat)
    requires old_log <= new_log && Resumes(old_log, cursor, next)
    ensures Resumes(new_log, cursor, next) && next <= |old_log|
  {
  }

  // ----------------------------------------------------- flush and termination

  /** A terminal session stays terminal and logs nothing more, and a page is not
      empty while events are left. */
  ghost predicate Orderly(s: Server) {
    && Honest(s)
    && (forall n: nat :: s.page(n) > 0)
    && (forall k: nat, n: nat | k <= n && s.terminal(k) :: s.terminal(n) && s.logs(n) == s.logs(k))
  }

  lemma OrderlyAt(s: Server, k: nat, n: nat)
    requires Orderly(s) && k <= n
    ensures Honest(s) && s.page(n) > 0 && s.logs(k) <= s.logs(n)
    ensures s.terminal(k) ==> s.terminal(n) && s.logs(n) == s.logs(k)
  {
  }

  lemma ClientStep(s: Server, followOnly: bool, n: nat)
    requires n > 0
    ensures var c := ClientAt(s, followOnly, n - 1);
            ClientAt(s, followOnly, n) == if c.finished then c else Poll(s, n, c)
  {
  }

  /** A stream that has finished by itself left no event unprinted, not even one
      that a later poll could have seen. */
  lemma {:induction false} FinishedIsFlushed(s: Server, followOnly: bool, n: nat)
    requires Orderly(s) && ClientAt(s, followOnly, n).finished
    ensures s.terminal(n) && Origin(s, followOnly) <= |s.logs(n)|
    ensures ClientAt(s, followOnly, n).printed == s.logs(n)[Origin(s, followOnly)..]
  {
    if n == 0 {
      OrderlyAt(s, 0, 0);
      assert s.logs(0) == [];
    } else {
      hide *;
      ClientStep(s, followOnly, n);
      if ClientAt(s, followOnly, n - 1).finished {
        FinishedIsFlushed(s, followOnly, n - 1);
        OrderlyAt(s, n - 1, n);
      } else {
        LastPollWasEmpty(s, followOnly, n);
      }
    }
  }

  lemma LastPollWasEmpty(s: Server, followOnly: bool, n: nat)
    requires Orderly(s) && n > 0
    requires ClientAt(s, followOnly, n).finished && !ClientAt(s, followOnly, n - 1).finished
    ensures s.terminal(n) && Origin(s, followOnly) <= |s.logs(n)|
    ensures ClientAt(s, followOnly, n).printed == s.logs(n)[Origin(s, followOnly)..]
  {
    hide *;
    var c := ClientAt(s, followOnly, n - 1);
    OrderlyAt(s, n - 1, n);
    ClientStep(s, followOnly, n);
    var before := PrintedIsSegment(s, followOnly, n - 1);
    ResumesLater(s.logs(n - 1), s.logs(n), c.cursor, before);
    PollMoves(s, n, c, before);
    assert s.logs(n - 1)[Origin(s, followOnly)..before] == s.logs(n)[Origin(s, followOnly)..];
  }

  /** A poll that finishes found the end of the log; any other poll of a terminal
      session moves the cursor on. */
  lemma PollMoves(s: Server, n: nat, c: Client, before: nat)
    requires Honest(s) && Resumes(s.logs(n), c.cursor, before) && s.page(n) > 0
    ensures var d := Poll(s, n, c);
            && (d.finished ==> s.terminal(n) && before == |s.logs(n)| && d.printed == c.printed)
            && (s.terminal(n) && !d.finished ==> before < Position(s.logs(n), CursorArg(d.cursor)))
  {
    CursorMovesToPageEnd(s, n, c.cursor, before);
    hide Resumes, AdvanceCursor;
    var d, q := Poll(s, n, c), PageEnd(s, n, CursorArg(c.cursor));
    if Answer(s, n, CursorArg(c.cursor)).activities == [] {
      EmptyPageMeansEnd(s, n, c.cursor, before);
    }
    assert Identified(s.logs(n));
    ResumesThere(s.logs(n), d.cursor, q);
  }

  /** Each further poll of a terminal session either finishes the stream or moves
      it on by at least one event. */
  lemma {:induction false} PollsDrain(s: Server, followOnly: bool, k: nat, j: nat)
    requires Orderly(s) && s.terminal(k)
    ensures ClientAt(s, followOnly, k + j).finished
            || j <= Position(s.logs(k), CursorArg(ClientAt(s, followOnly, k + j).cursor))
  {
    hide *;
    if j > 0 {
      var n := k + j;
      var c := ClientAt(s, followOnly, n - 1);
      OrderlyAt(s, k, n - 1);
      OrderlyAt(s, k, n);
      ClientStep(s, followOnly, n);
      PollsDrain(s, followOnly, k, j - 1);
      var before := PrintedIsSegment(s, followOnly, n - 1);
      if !c.finished {
        PollMoves(s, n, c, before);
      }
    }
  }

  /** Once the session is terminal the loop returns after at most one poll per
      event of the log and one more, with everything printed. */
  lemma TerminalStreamFinishes(s: Server, followOnly: bool, k: nat)
    requires Orderly(s) && s.terminal(k)
    ensures var n := k + |s.logs(k)| + 1;
            && ClientAt(s, followOnly, n).finished && Origin(s, followOnly) <= |s.logs(n)|
            && ClientAt(s, followOnly, n).printed == s.logs(n)[Origin(s, followOnly)..]
  {
    hide *;
    PollsDrain(s, followOnly, k, |s.logs(k)| + 1);
    FinishedIsFlushed(s, followOnly, k + |s.logs(k)| + 1);
  }

  // ----------------------------------------------------------------- the loop

  datatype Outcome = Finished | Cancelled | Failed | Unwritable

  /** writeActivities: the writer takes `room` events before it fails, or all. */
  method WriteActivities(printed: seq<Event>, events: seq<Event>, room: Option<nat>) returns (after: seq<Event>, ok: bool)
    ensures ok <==> room.None? || |events| <= room.value
    ensures after == printed + if ok then events else events[..room.value]
  {
    after := printed;
    var k := 0;
    while k < |events|
      invariant 0 <= k <= |events| && after == printed + events[..k]
      invariant room.Some? ==> k <= room.value
    {
      if room == Some(k) {
        return after, false;
      }
      after := after + [events[k]];
      k := k + 1;
    }
    assert events[..k] == events;
    ok := true;
  }

  /** What was printed before poll number n, and the page that it prints. */
  function Before(s: Server, followOnly: bool, n: nat): seq<Event> {
    if n == 0 then [] else ClientAt(s, followOnly, n - 1).printed
  }

  function Page(s: Server, followOnly: bool, n: nat): seq<Event> {
    if n > 0 then Answer(s, n, CursorArg(ClientAt(s, followOnly, n - 1).cursor)).activities
    else if followOnly then [] else Answer(s, 0, None).activities
  }

  /** The writer fails inside the page of poll number n. */
  predicate Breaks(s: Server, followOnly: bool, room: nat -> Option<nat>, n: nat) {
    room(n).Some? && room(n).value < |Page(s, followOnly, n)|
  }

  /** Poll number n was answered, its page written, and the stream goes on. */
  predicate GoesOn(s: Server, followOnly: bool, fails: nat -> bool, room: nat -> Option<nat>, n: nat) {
    !fails(n) && !Breaks(s, followOnly, room, n) && !ClientAt(s, followOnly, n).finished
  }

  /** How a stream ends, exactly: after `answered` polls, all but the last of which
      went on, with an outcome that has its cause, and the output of these polls. */
  ghost predicate Ends(s: Server, followOnly: bool, polls: nat, fails: nat -> bool, room: nat -> Option<nat>,
                       outcome: Outcome, printed: seq<Event>, answered: nat) {
    && (forall n: nat | n + 1 < answered :: GoesOn(s, followOnly, fails, room, n))
    && match outcome
       case Failed =>
         && answered <= polls && fails(answered) && printed == Before(s, followOnly, answered)
         && (answered > 0 ==> GoesOn(s, followOnly, fails, room, answered - 1))
       case Cancelled =>
         && answered == polls + 1 && printed == Before(s, followOnly, answered)
         && GoesOn(s, followOnly, fails, room, answered - 1)
       case Finished =>
         && 0 < answered <= polls + 1 && !fails(answered - 1) && !Breaks(s, followOnly, room, answered - 1)
         && ClientAt(s, followOnly, answered - 1).finished && printed == Before(s, followOnly, answered)
       case Unwritable =>
         && 0 < answered <= polls + 1 && !fails(answered - 1) && Breaks(s, followOnly, room, answered - 1)
         && printed == Before(s, followOnly, answered - 1) + Page(s, followOnly, answered - 1)[..room(answered - 1).value]
  }

  /** The polling loop: `polls` is how many polls the context allows after the
      first, `fails` says which requests come back with an error, `room` where the
      writer fails. */
  method Tail(s: Server, followOnly: bool, polls: nat, fails: nat -> bool, room: nat -> Option<nat>)
    returns (outcome: Outcome, printed: seq<Event>, answered: nat)
    ensures Ends(s, followOnly, polls, fails, room, outcome, printed, answered)
  {
    hide Answer, AdvanceCursor, CursorArg;
    printed, answered := [], 0;
    if fails(0) {
      return Failed, [], 0;
    }
    var resp := Answer(s, 0, None);
    answered := 1;
    var ok := true;
    if !followOnly {
      printed, ok := WriteActivities(printed, resp.activities, room(0));
      if !ok {
        return Unwritable, printed, answered;
      }
    }
    var cursor := AdvanceCursor("", resp);
    if resp.terminal && resp.activities == [] {
      return Finished, printed, answered;
    }
    var n := 0;
    while n < polls
      invariant 0 <= n <= polls && answered == n + 1
      invariant ClientAt(s, followOnly, n) == Client(cursor, printed, false)
      invariant forall k: nat | k <= n :: GoesOn(s, followOnly, fails, room, k)
    {
      if fails(n + 1) {
        return Failed, printed, answered;
      }
      resp := Answer(s, n + 1, CursorArg(cursor));
      n, answered := n + 1, answered + 1;
      printed, ok := WriteActivities(printed, resp.activities, room(n));
      if !ok {
        return Unwritable, printed, answered;
      }
      cursor := AdvanceCursor(cursor, resp);
      if resp.terminal && resp.activities == [] {
        return Finished, printed, answered;
      }
    }
    outcome := Cancelled;
  }

  /** Any part of the output from its start is a segment of the log. */
  lemma PrefixIsSegment(s: Server, followOnly: bool, n: nat, printed: seq<Event>)
    requires Honest(s) && printed <= ClientAt(s, followOnly, n).printed
    ensures var o := Origin(s, followOnly);
            o + |printed| <= |s.logs(n)| && printed == s.logs(n)[o..o + |printed|]
  {
    hide *;
    var next := PrintedIsSegment(s, followOnly, n);
    SegmentBounds(s, followOnly, n, next);
    var o, log := Origin(s, followOnly), s.logs(n);
    assert log[o..next][..|printed|] == log[o..o + |printed|];
  }

  lemma SegmentBounds(s: Server, followOnly: bool, n: nat, next: nat)
    requires Resumes(s.logs(n), ClientAt(s, followOnly, n).cursor, next)
    ensures next <= |s.logs(n)|
  {
  }

  /** What a stream printed is part of what the polls would print. */
  lemma EndsWithPrefix(s: Server, followOnly: bool, polls: nat, fails: nat -> bool, room: nat -> Option<nat>,
                       outcome: Outcome, printed: seq<Event>, answered: nat)
    requires Ends(s, followOnly, polls, fails, room, outcome, printed, answered) && answered > 0
    ensures printed <= ClientAt(s, followOnly, answered - 1).printed
  {
    hide Answer, AdvanceCursor, CursorArg;
    if outcome == Unwritable && answered > 1 {
      assert GoesOn(s, followOnly, fails, room, answered - 2);
    }
  }

  lemma EndsForCause(s: Server, followOnly: bool, polls: nat, fails: nat -> bool, room: nat -> Option<nat>,
                     outcome: Outcome, printed: seq<Event>, answered: nat)
    requires Ends(s, followOnly, polls, fails, room, outcome, printed, answered)
    ensures outcome == Failed ==> fails(answered)
    ensures outcome == Cancelled ==> !ClientAt(s, followOnly, polls).finished
    ensures outcome == Unwritable ==> answered > 0 && room(answered - 1) != None
    ensures outcome == Finished ==>
              && answered > 0 && ClientAt(s, followOnly, answered - 1).finished
              && printed == ClientAt(s, followOnly, answered - 1).printed
  {
    hide ClientAt, Page;
  }

  lemma {:induction false} FinishedStays(s: Server, followOnly: bool, n: nat, m: nat)
    requires n <= m && ClientAt(s, followOnly, n).finished
    ensures ClientAt(s, followOnly, m).finished
    decreases m
  {
    if n < m {
      hide *;
      FinishedStays(s, followOnly, n, m - 1);
      ClientStep(s, followOnly, m);
    }
  }

  /** With requests answered, a writer that never fails and enough polls, the stream
      of a terminal session ends by itself. */
  lemma TerminalStreamEnds(s: Server, followOnly: bool, polls: nat, fails: nat -> bool, room: nat -> Option<nat>,
                           outcome: Outcome, printed: seq<Event>, answered: nat, k: nat)
    requires Ends(s, followOnly, polls, fails, room, outcome, printed, answered)
    requires Orderly(s) && s.terminal(k) && k + |s.logs(k)| + 1 <= polls
    requires forall n: nat :: !fails(n) && room(n) == None
    ensures outcome == Finished
  {
    hide *;
    EndsForCause(s, followOnly, polls, fails, room, outcome, printed, answered);
    TerminalStreamFinishes(s, followOnly, k);
    FinishedStays(s, followOnly, k + |s.logs(k)| + 1, polls);
  }

  /** The command: whatever fails and whenever it ends, what was printed is one
      contiguous segment of the log from the origin on; every outcome has its cause;
      it ends by itself only when the stream has finished, and then nothing was left
      out; and for a terminal session it does end by itself if nothing fails. */
  method StreamSession(s: Server, followOnly: bool, polls: nat, fails: nat -> bool, room: nat -> Option<nat>)
    returns (outcome: Outcome, printed: seq<Event>, answered: nat)
    ensures Ends(s, followOnly, polls, fails, room, outcome, printed, answered)
    ensures Honest(s) && answered > 0 ==>
              var o, log := Origin(s, followOnly), s.logs(answered - 1);
              o + |printed| <= |log| && printed == log[o..o + |printed|]
    ensures Orderly(s) && outcome == Finished ==>
              var o, log := Origin(s, followOnly), s.logs(answered - 1);
              o <= |log| && printed == log[o..]
    ensures Orderly(s) && (forall n: nat :: !fails(n) && room(n) == None) ==>
              forall k: nat | s.terminal(k) && k + |s.logs(k)| + 1 <= polls :: outcome == Finished
  {
    hide *;
    outcome, printed, answered := Tail(s, followOnly, polls, fails, room);
    EndsForCause(s, followOnly, polls, fails, room, outcome, printed, answered);
    if Honest(s) && answered > 0 {
      EndsWithPrefix(s, followOnly, polls, fails, room, outcome, printed, answered);
      PrefixIsSegment(s, followOnly, answered - 1, printed);
    }
    if Orderly(s) && outcome == Finished {
      FinishedIsFlushed(s, followOnly, answered - 1);
    }
    if Orderly(s) && forall n: nat :: !fails(n) && room(n) == None {
      forall k: nat | s.terminal(k) && k + |s.logs(k)| + 1 <= polls ensures outcome == Finished {
        TerminalStreamEnds(s, followOnly, polls, fails, room, outcome, printed, answered, k);
      }
    }
  }

  lemma EmptyPageMeansEnd(s: Server, n: nat, cursor: string, next: nat)
    requires Honest(s) && Resumes(s.logs(n), cursor, next) && s.page(n) > 0
    requires Answer(s, n, CursorArg(cursor)).activities == []
    ensures next == |s.logs(n)| == PageEnd(s, n, CursorArg(cursor))
  {
    assert Identified(s.logs(n));
    ResumesThere(s.logs(n), cursor, next);
  }
}
