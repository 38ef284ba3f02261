/** What a run of the GitHub token probe does, as a sequence of events, and the
    protocol that such a sequence follows. */
module ProbeTrace {
  import opened Decimal
  import opened ProcessGroup
  import opened PsTable

  datatype Signal = Term | Kill

  /** The ready branch that Go's select takes in the stop loop. */
  datatype Choice = Grace | Deadline | Tick

  /** What the probe did, each with the world at that moment, and `at` the moment
      where the answer of the system matters. */
  datatype Event =
    | Started(world: World, group: nat)
    | Inspected(world: World, state: GroupState)
    | Blind(world: World, at: nat)
    | Signalled(world: World, target: nat, signal: Signal, failed: bool, at: nat)
    | Took(world: World, branch: Choice, at: nat)
    | Paused(world: World)
    | Reaped(world: World)

  /** The answers of the system: which ps and kill calls fail, which branch select
      takes, and the failures of getpgid and Wait. */
  datatype Faults = Faults(psFails: nat -> bool, killFails: nat -> bool, choice: nat -> Choice,
                           getpgidFails: bool, waitDelayExpires: bool)

  function Signals(trace: seq<Event>): seq<Signal> {
    if trace == [] then []
    else
      var front, e := Signals(trace[..|trace| - 1]), trace[|trace| - 1];
      if e.Signalled? then front + [e.signal] else front
  }

  lemma {:induction false} SignalsOfConcat(a: seq<Event>, b: seq<Event>)
    ensures Signals(a + b) == Signals(a) + Signals(b)
    decreases |b|
  {
    if b == [] {
      assert a + b == a;
    } else {
      var c := b[..|b| - 1];
      SignalsOfConcat(a, c);
      assert (a + b)[..|a + b| - 1] == a + c;
    }
  }

  /** A step the probe may take between Start and Wait: it looks, truthfully, or
      signals its own group while the leader still holds the id, or waits. A look is
      blind and a signal fails only when the system makes it so. */
  predicate Proper(e: Event, group: nat, faults: Faults) {
    match e
    case Inspected(w, s) => Owned(w, group) && s == Truth(w, group)
    case Blind(w, at) => Owned(w, group) && faults.psFails(at)
    case Signalled(w, target, _, failed, at) => target == group && Owned(w, group) && failed == faults.killFails(at)
    case Took(w, _, _) => Owned(w, group)
    case Paused(w) => Owned(w, group)
    case _ => false
  }

  predicate AllProper(trace: seq<Event>, group: nat, faults: Faults) {
    forall i | 0 <= i < |trace| :: Proper(trace[i], group, faults)
  }

  /** What a look tells: nothing reliable, a group without live members, or one
      with some. */
  datatype Sight = Lost | Idle | Busy

  predicate Look(e: Event) {
    e.Inspected? || e.Blind?
  }

  function SightOf(e: Event): Sight {
    if !e.Inspected? || !e.state.anchored then Lost else if e.state.writersRunning then Busy else Idle
  }

  /** Every inspection worked and found the leader unreaped in its group. */
  predicate Clear(trace: seq<Event>) {
    forall i | 0 <= i < |trace| :: Look(trace[i]) ==> SightOf(trace[i]) != Lost
  }

  predicate EndsQuiet(trace: seq<Event>) {
    trace != [] && SightOf(trace[|trace| - 1]) == Idle
  }

  /** The signals of a run: at most one TERM, then at most one KILL. */
  predicate Escalation(s: seq<Signal>) {
    s == [] || s == [Term] || s == [Term, Kill]
  }

  // -------------------------------------------------------- the stop protocol

  datatype Reason = Quiescent | LostSight | SendRefused | OutOfTime

  /** Where stopLocalGitHubGroup is; `left` ticks remain before the deadline. */
  datatype StopPhase =
    | First(left: nat)
    | Signalling(signal: Signal, left: nat)
    | Rechecking(signal: Signal, left: nat)
    | Looking(killed: bool, left: nat)
    | Waiting(killed: bool, left: nat)
    | Stopped(reason: Reason)

  /** The phase after a look: lost, idle and busy each lead somewhere. */
  function AfterLook(e: Event, idle: StopPhase, busy: StopPhase): Option<StopPhase> {
    if !Look(e) then None
    else
      match SightOf(e)
      case Lost => Some(Stopped(LostSight))
      case Idle => Some(idle)
      case Busy => Some(busy)
  }

  function StopNext(ph: StopPhase, e: Event, faults: Faults): Option<StopPhase> {
    match ph
    case First(left) => AfterLook(e, Stopped(Quiescent), Signalling(Term, left))
    case Signalling(signal, left) =>
      if !e.Signalled? || e.signal != signal then None
      else if e.failed then Some(Rechecking(signal, left))
      else Some(Looking(signal == Kill, left))
    case Rechecking(signal, left) => AfterLook(e, Looking(signal == Kill, left), Stopped(SendRefused))
    case Looking(killed, left) => AfterLook(e, Stopped(Quiescent), Waiting(killed, left))
    case Waiting(killed, left) =>
      if !e.Took? || e.branch != (if left == 0 then Deadline else faults.choice(e.at)) then None
      else if e.branch == Deadline then Some(Stopped(OutOfTime))
      else if e.branch == Grace && !killed then Some(Signalling(Kill, left - 1))
      else Some(Looking(killed, left - 1))
    case Stopped(_) => None
  }

  function StopAfter(trace: seq<Event>, rounds: nat, faults: Faults): Option<StopPhase> {
    if trace == [] then Some(First(rounds))
    else
      match StopAfter(trace[..|trace| - 1], rounds, faults)
      case Some(ph) => StopNext(ph, trace[|trace| - 1], faults)
      case None => None
  }

  predicate GraceTaken(trace: seq<Event>) {
    exists i | 0 <= i < |trace| :: trace[i].Took? && trace[i].branch == Grace
  }

  /** A branch of select is taken only right after a look that showed writers. */
  predicate WaitsAreDue(trace: seq<Event>) {
    forall i | 0 <= i < |trace| && trace[i].Took? :: i > 0 && SightOf(trace[i - 1]) == Busy
  }

  predicate LastIs(trace: seq<Event>, sight: Sight) {
    trace != [] && Look(trace[|trace| - 1]) && SightOf(trace[|trace| - 1]) == sight
  }

  /** The last look still showed writers, right after a signal that failed. */
  predicate EndsRefused(trace: seq<Event>) {
    LastIs(trace, Busy) && |trace| >= 2 && trace[|trace| - 2].Signalled? && trace[|trace| - 2].failed
  }

  /** The deadline came after a look that still showed writers. */
  predicate EndsLate(trace: seq<Event>) {
    && |trace| >= 2 && trace[|trace| - 1].Took? && trace[|trace| - 1].branch == Deadline
    && SightOf(trace[|trace| - 2]) == Busy
  }

  function SignalsUpTo(killed: bool): seq<Signal> {
    if killed then [Term, Kill] else [Term]
  }

  /** What is known in every phase. */
  ghost predicate StopFacts(ph: StopPhase, trace: seq<Event>) {
    && WaitsAreDue(trace)
    && (trace != [] ==> Look(trace[0]))
    && (trace != [] && SightOf(trace[0]) != Busy ==> |trace| == 1 && ph.Stopped?)
    && (|trace| >= 2 ==> trace[1].Signalled? && trace[1].signal == Term)
    && match ph
       case First(_) => trace == []
       case Signalling(signal, _) =>
         && trace != [] && Clear(trace) && Signals(trace) == (if signal == Kill then [Term] else [])
         && (GraceTaken(trace) <==> signal == Kill) && (signal == Term ==> |trace| == 1 && LastIs(trace, Busy))
         && (signal == Kill ==> |trace| >= 2)
       case Rechecking(signal, _) =>
         && |trace| >= 2 && Clear(trace) && Signals(trace) == SignalsUpTo(signal == Kill)
         && (GraceTaken(trace) <==> signal == Kill)
         && trace[|trace| - 1].Signalled? && trace[|trace| - 1].failed
       case Looking(killed, _) =>
         |trace| >= 2 && Clear(trace) && Signals(trace) == SignalsUpTo(killed) && (GraceTaken(trace) <==> killed)
       case Waiting(killed, _) =>
         && |trace| >= 2 && Clear(trace) && Signals(trace) == SignalsUpTo(killed) && (GraceTaken(trace) <==> killed)
         && LastIs(trace, Busy)
       case Stopped(reason) =>
         && trace != [] && Escalation(Signals(trace)) && (GraceTaken(trace) <==> Kill in Signals(trace))
         && (SightOf(trace[0]) == Busy ==> Signals(trace) != [])
         && match reason
            case Quiescent => Clear(trace) && LastIs(trace, Idle)
            case LostSight => !Clear(trace) && LastIs(trace, Lost)
            case SendRefused => Clear(trace) && EndsRefused(trace)
            case OutOfTime => Clear(trace) && EndsLate(trace)
  }

  /** How the facts about a trace extend by one event. */
  lemma Extend(front: seq<Event>, e: Event)
    ensures var trace := front + [e];
            && (Clear(trace) <==> Clear(front) && (Look(e) ==> SightOf(e) != Lost))
            && Signals(trace) == Signals(front) + (if e.Signalled? then [e.signal] else [])
            && (GraceTaken(trace) <==> GraceTaken(front) || (e.Took? && e.branch == Grace))
            && (WaitsAreDue(front) && (e.Took? ==> front != [] && SightOf(front[|front| - 1]) == Busy) ==> WaitsAreDue(trace))
            && trace[|front|] == e && trace[..|front|] == front
  {
    var trace := front + [e];
    assert trace[..|front|] == front && trace[|front|] == e;
    assert forall i | 0 <= i < |front| :: trace[i] == front[i];
  }

  lemma StopStep(front: seq<Event>, e: Event, ph: StopPhase, faults: Faults)
    requires StopFacts(ph, front) && StopNext(ph, e, faults).Some?
    ensures StopFacts(StopNext(ph, e, faults).value, front + [e])
  {
    Extend(front, e);
    NothingYet();
    hide Clear, Signals, GraceTaken, WaitsAreDue;
    assert (front + [e])[0] == if front == [] then e else front[0];
    assert |front| >= 2 ==> (front + [e])[1] == front[1];
  }

  lemma NothingYet()
    ensures Clear([]) && Signals([]) == [] && !GraceTaken([]) && WaitsAreDue([])
  {
  }

  /** The stop protocol's laws, for every sequence that follows it. */
  lemma {:induction false} StopLaws(trace: seq<Event>, rounds: nat, faults: Faults)
    requires StopAfter(trace, rounds, faults).Some?
    ensures StopFacts(StopAfter(trace, rounds, faults).value, trace)
  {
    if trace != [] {
      var front, e := trace[..|trace| - 1], trace[|trace| - 1];
      StopLaws(front, rounds, faults);
      assert trace == front + [e];
      hide StopFacts, StopNext;
      StopStep(front, e, StopAfter(front, rounds, faults).value, faults);
    }
  }

  // ------------------------------------------------------ the watch protocol

  /** Where the observe loop is; `left` ticks remain before the context is done. */
  datatype WatchPhase = Peeking(left: nat) | Pausing(left: nat) | Over | Gone

  function WatchNext(ph: WatchPhase, e: Event): Option<WatchPhase> {
    match ph
    case Peeking(left) =>
      if !Look(e) then None
      else if SightOf(e) == Lost then Some(Gone)
      else if e.state.leaderRunning then Some(Pausing(left))
      else Some(Over)
    case Pausing(left) => if !e.Paused? then None else if left == 0 then Some(Over) else Some(Peeking(left - 1))
    case _ => None
  }

  function WatchAfter(trace: seq<Event>, rounds: nat): Option<WatchPhase> {
    if trace == [] then Some(Peeking(rounds))
    else
      match WatchAfter(trace[..|trace| - 1], rounds)
      case Some(ph) => WatchNext(ph, trace[|trace| - 1])
      case None => None
  }

  function Pauses(trace: seq<Event>): nat {
    if trace == [] then 0 else Pauses(trace[..|trace| - 1]) + if trace[|trace| - 1].Paused? then 1 else 0
  }

  /** The last event is a look that found the leader in place but not running. */
  predicate LeaderEnded(trace: seq<Event>) {
    trace != [] && trace[|trace| - 1].Inspected? && trace[|trace| - 1].state.anchored && !trace[|trace| - 1].state.leaderRunning
  }

  predicate WatchFacts(ph: WatchPhase, trace: seq<Event>, rounds: nat) {
    && Signals(trace) == []
    && match ph
       case Peeking(left) => Clear(trace) && Pauses(trace) + left == rounds
       case Pausing(left) => Clear(trace) && Pauses(trace) + left == rounds
       case Over => Clear(trace) && (LeaderEnded(trace) || Pauses(trace) == rounds + 1)
       case Gone => !Clear(trace) && LastIs(trace, Lost)
  }

  /** Observation sends no signal; it ends when the leader has ended, when its ticks
      are used up, or with a lost look. */
  lemma {:induction false} WatchLaws(trace: seq<Event>, rounds: nat)
    requires WatchAfter(trace, rounds).Some?
    ensures WatchFacts(WatchAfter(trace, rounds).value, trace, rounds)
  {
    if trace != [] {
      var front, e := trace[..|trace| - 1], trace[|trace| - 1];
      WatchLaws(front, rounds);
      assert trace == front + [e];
      Extend(front, e);
      hide Clear, Signals;
    }
  }

  // ------------------------------------------------------------- a whole run

  /** Observation, then the stop of the group: `split` is where the one ends. */
  predicate Follows(inside: seq<Event>, split: nat, watchRounds: nat, stopRounds: nat, faults: Faults) {
    && split <= |inside|
    && WatchAfter(inside[..split], watchRounds) in {Some(Over), Some(Gone)}
    && if faults.getpgidFails then inside[split..] == []
       else StopAfter(inside[split..], stopRounds, faults).Some? && StopAfter(inside[split..], stopRounds, faults).value.Stopped?
  }

  /** Both parts ended well. */
  predicate Succeeded(inside: seq<Event>, split: nat, watchRounds: nat, stopRounds: nat, faults: Faults)
    requires split <= |inside|
  {
    && !faults.getpgidFails && WatchAfter(inside[..split], watchRounds) == Some(Over)
    && StopAfter(inside[split..], stopRounds, faults) == Some(Stopped(Quiescent))
  }

  /** What the probe did to the group between Start and Wait: only looks at it and
      signals to it, TERM at most once and before KILL, KILL at most once. */
  predicate Attended(inside: seq<Event>, group: nat, faults: Faults) {
    AllProper(inside, group, faults) && Escalation(Signals(inside))
  }

  /** The evidence for quiescence: no look failed or lost the anchor, and the
      last step was a look that found no live member. */
  predicate Proven(inside: seq<Event>) {
    Clear(inside) && EndsQuiet(inside)
  }

  lemma ConcatClear(a: seq<Event>, b: seq<Event>)
    ensures Clear(a + b) <==> Clear(a) && Clear(b)
  {
    var all := a + b;
    assert forall i | 0 <= i < |a| :: all[i] == a[i];
    assert forall i | 0 <= i < |b| :: all[|a| + i] == b[i];
    assert forall i | |a| <= i < |all| :: all[i] == b[i - |a|];
  }

  /** A run that follows the protocol signals in order; it succeeds exactly on the
      evidence for quiescence. */
  lemma FollowsIsAttended(inside: seq<Event>, split: nat, watchRounds: nat, stopRounds: nat, faults: Faults)
    requires Follows(inside, split, watchRounds, stopRounds, faults)
    ensures Escalation(Signals(inside))
    ensures Succeeded(inside, split, watchRounds, stopRounds, faults) <==> !faults.getpgidFails && Proven(inside)
  {
    var watch, stop := inside[..split], inside[split..];
    assert inside == watch + stop;
    WatchLaws(watch, watchRounds);
    SignalsOfConcat(watch, stop);
    ConcatClear(watch, stop);
    if !faults.getpgidFails {
      StopLaws(stop, stopRounds, faults);
      assert stop != [] ==> inside[|inside| - 1] == stop[|stop| - 1];
    }
    hide Clear, Signals, StopAfter, WatchAfter, WaitsAreDue, GraceTaken;
  }

  /** A stop that finds writers at its first look does signal, and gives up only for
      a reason: a lost look, a refused signal, or the deadline. KILL is sent exactly
      when a grace branch was taken, and that only while writers were seen. */
  lemma StopIsResolute(stop: seq<Event>, rounds: nat, faults: Faults)
    requires StopAfter(stop, rounds, faults).Some? && StopAfter(stop, rounds, faults).value.Stopped?
    ensures stop != [] && Look(stop[0])
    ensures SightOf(stop[0]) == Busy ==> |stop| >= 2 && stop[1].Signalled? && stop[1].signal == Term
    ensures SightOf(stop[0]) != Busy ==> |stop| == 1
    ensures Kill in Signals(stop) <==> GraceTaken(stop)
    ensures WaitsAreDue(stop)
    ensures var reason := StopAfter(stop, rounds, faults).value.reason;
            && (reason == Quiescent <==> Clear(stop) && EndsQuiet(stop))
            && (reason == LostSight <==> !Clear(stop))
            && (reason == SendRefused ==> EndsRefused(stop))
            && (reason == OutOfTime ==> EndsLate(stop))
  {
    StopLaws(stop, rounds, faults);
    hide Clear, Signals, StopAfter, WaitsAreDue, GraceTaken;
  }
}
