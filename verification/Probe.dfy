/** runOwnedGitHubTokenProbe: start a child in its own group, watch it while it
    stays unreaped, stop its group, then Wait once. Every system call is one
    atomic step; before each of them the other processes do whatever `env` says,
    so a property proved for all `env` holds on every interleaving. */
module Probe {
  import opened Decimal
  import opened ProcessGroup
  import opened PsTable
  import opened ProbeTrace

  /** Once quiet, quiet until Wait on every continuation. */
  ghost predicate NoneCanAppear(w: World, group: nat) {
    forall actions: seq<Action> :: Quiet(Steps(w, group, actions), group)
  }

  /** A whole run with a child: Start first, Wait last and once, the group
      attended in between. */
  predicate Disciplined(run: seq<Event>, group: nat, faults: Faults) {
    && 2 <= |run| && run[0].Started? && run[0].group == group && run[|run| - 1].Reaped?
    && Attended(run[1..|run| - 1], group, faults)
  }

  /** No live member at the last look, none in any continuation of that world,
      and none when Wait reaped the leader. */
  ghost predicate SafelyQuiet(run: seq<Event>, group: nat) {
    && 3 <= |run| && run[|run| - 2].Inspected?
    && NoneCanAppear(run[|run| - 2].world, group)
    && Quiet(run[|run| - 2].world, group) && Quiet(run[|run| - 1].world, group)
  }

  class Run {
    const env: nat -> seq<Action>
    const faults: Faults
    var world: World
    var clock: nat
    ghost var trace: seq<Event>

    constructor (world: World, env: nat -> seq<Action>, faults: Faults)
      ensures this.world == world && this.env == env && this.faults == faults && clock == 0 && trace == []
    {
      this.world, this.env, this.faults, clock, trace := world, env, faults, 0, [];
    }

    /** The trace since it had length `mark`. */
    ghost function Since(mark: nat): seq<Event>
      requires mark <= |trace|
      reads this`trace
    {
      trace[mark..]
    }

    /** Between Start and Wait, with nothing but proper steps since `mark`. */
    ghost predicate Here(mark: nat, group: nat)
      reads this
    {
      mark <= |trace| && Owned(world, group) && AllProper(Since(mark), group, faults)
    }

    /** Where the stop is, counting from `mark`. */
    ghost function StopAt(mark: nat, rounds: nat): Option<StopPhase>
      requires mark <= |trace|
      reads this`trace
    {
      StopAfter(Since(mark), rounds, faults)
    }

    ghost function WatchAt(mark: nat, rounds: nat): Option<WatchPhase>
      requires mark <= |trace|
      reads this`trace
    {
      WatchAfter(Since(mark), rounds)
    }

    /** The other processes run for a while. */
    method Interleave(group: nat)
      requires Owned(world, group)
      modifies this`world, this`clock
      ensures Owned(world, group)
      ensures exists actions: seq<Action> :: world == Steps(old(world), group, actions)
      ensures world.self == old(world).self && world.selfGroup == old(world).selfGroup
    {
      StepsKeepOwned(world, group, env(clock));
      world := Steps(world, group, env(clock));
      clock := clock + 1;
    }

    /** inspectLocalGitHubGroup against the live system: blind exactly when ps
        fails, and otherwise the truth. */
    method Inspect(group: nat) returns (r: Inspection)
      requires Owned(world, group)
      modifies this
      ensures Owned(world, group) && world.selfGroup == old(world).selfGroup
      ensures trace == old(trace) + [if r.Ok? then Inspected(world, r.state) else Blind(world, clock)]
      ensures r.Ok? ==> r.state == Truth(world, group)
      ensures r.Unreadable? <==> faults.psFails(clock)
    {
      Interleave(group);
      if faults.psFails(clock) {
        trace := trace + [Blind(world, clock)];
        return Unreadable;
      }
      var lines := ReadTable(world);
      r := InspectLocalGitHubGroup(lines, group, world.self);
      trace := trace + [Inspected(world, r.state)];
    }

    /** The `inspect` closure; `ok` is false where it returns an error. */
    method Writers(group: nat, ghost mark: nat, ghost rounds: nat, ghost ph: StopPhase) returns (ok: bool, running: bool)
      requires Here(mark, group) && StopAt(mark, rounds) == Some(ph)
      modifies this
      ensures Here(mark, group) && world.selfGroup == old(world).selfGroup && old(trace) < trace
      ensures var e := trace[|trace| - 1];
              && Look(e) && e.world == world && StopAt(mark, rounds) == StopNext(ph, e, faults)
              && (ok <==> SightOf(e) != Lost) && (ok ==> (running <==> SightOf(e) == Busy))
    {
      ghost var seen := Since(mark);
      var r := Inspect(group);
      ghost var e := trace[|trace| - 1];
      hide Owned, Truth;
      assert Since(mark) == seen + [e];
      OneMoreStep(seen, e, group, rounds, faults);
      if r.Unreadable? || !r.state.anchored {
        return false, false;
      }
      ok, running := true, r.state.writersRunning;
    }

    /** The `send` closure: a failed kill is forgiven only if a fresh look shows
        no writer left. */
    method Send(group: nat, signal: Signal, ghost mark: nat, ghost rounds: nat, ghost left: nat) returns (ok: bool)
      requires Here(mark, group) && StopAt(mark, rounds) == Some(Signalling(signal, left))
      modifies this
      ensures Here(mark, group) && world.selfGroup == old(world).selfGroup && old(trace) < trace
      ensures ok ==> StopAt(mark, rounds) == Some(Looking(signal == Kill, left))
      ensures !ok ==> StopAt(mark, rounds) in {Some(Stopped(LostSight)), Some(Stopped(SendRefused))}
    {
      hide Owned, StopAfter;
      ghost var seen := Since(mark);
      Interleave(group);
      var failed := faults.killFails(clock);
      ghost var e := Signalled(world, group, signal, failed, clock);
      trace := trace + [e];
      assert Since(mark) == seen + [e];
      OneMoreStep(seen, e, group, rounds, faults);
      ok := true;
      if failed {
        var inspected, running := Writers(group, mark, rounds, Rechecking(signal, left));
        ok := inspected && !running;
      }
    }

    /** stopLocalGitHubGroup. The loop takes at most `rounds` branches of select
        before the deadline is the branch taken. */
    method Stop(group: nat, rounds: nat, ghost mark: nat) returns (ok: bool)
      requires Here(mark, group) && mark == |trace|
      modifies this
      ensures old(trace) <= trace && Here(mark, group)
      ensures faults.getpgidFails ==> !ok && trace == old(trace) && world == old(world)
      ensures !faults.getpgidFails ==> StopAt(mark, rounds).Some? && StopAt(mark, rounds).value.Stopped?
      ensures !faults.getpgidFails ==> (ok <==> StopAt(mark, rounds) == Some(Stopped(Quiescent)))
      ensures !faults.getpgidFails ==>
                var stop := Since(mark);
                && stop != [] && Look(stop[0])
                && (SightOf(stop[0]) == Busy ==> |stop| >= 2 && stop[1].Signalled? && stop[1].signal == Term)
                && (Kill in Signals(stop) <==> GraceTaken(stop)) && WaitsAreDue(stop)
                && (ok <==> Clear(stop) && EndsQuiet(stop))
                && (!ok ==> !Clear(stop) || EndsRefused(stop) || EndsLate(stop))
      ensures ok ==> trace[|trace| - 1].world == world
    {
      hide StopAfter, AllProper, Clear, Signals, GraceTaken, WaitsAreDue;
      if faults.getpgidFails || group <= 1 || group == world.selfGroup {
        return false;
      }
      hide Owned;
      assert StopAt(mark, rounds) == Some(First(rounds)) by {
        NoStepYet(group, rounds, faults);
        assert Since(mark) == [];
      }
      var inspected, running := Writers(group, mark, rounds, First(rounds));
      ok := inspected && !running;
      if inspected && running {
        ok := Send(group, Term, mark, rounds, rounds);
        if ok {
          ok := StopLoop(group, rounds, mark);
        }
      }
      StopIsResolute(Since(mark), rounds, faults);
    }

    /** The loop after TERM: look, then wait for grace, deadline or tick. */
    method StopLoop(group: nat, rounds: nat, ghost mark: nat) returns (ok: bool)
      requires Here(mark, group) && StopAt(mark, rounds) == Some(Looking(false, rounds))
      modifies this
      ensures old(trace) < trace && Here(mark, group)
      ensures StopAt(mark, rounds).Some? && StopAt(mark, rounds).value.Stopped?
      ensures ok <==> StopAt(mark, rounds) == Some(Stopped(Quiescent))
      ensures ok ==> trace[|trace| - 1].world == world
      ensures Kill in Signals(Since(mark)) <==> GraceTaken(Since(mark))
    {
      hide Owned, StopAfter, AllProper, Signals, GraceTaken;
      var killed := false;
      var left := rounds;
      while true
        invariant old(trace) <= trace && Here(mark, group)
        invariant StopAt(mark, rounds) == Some(Looking(killed, left))
        decreases left
      {
        var inspected, running := Writers(group, mark, rounds, Looking(killed, left));
        if !inspected || !running {
          StopIsResolute(Since(mark), rounds, faults);
          return inspected;
        }
        var branch := Select(group, mark, rounds, killed, left);
        if branch == Deadline {
          StopIsResolute(Since(mark), rounds, faults);
          return false;
        }
        if branch == Grace && !killed {
          var sent := Send(group, Kill, mark, rounds, left - 1);
          if !sent {
            StopIsResolute(Since(mark), rounds, faults);
            return false;
          }
          killed := true;
        }
        left := left - 1;
      }
    }

    /** The select statement. */
    method Select(group: nat, ghost mark: nat, ghost rounds: nat, ghost killed: bool, left: nat) returns (branch: Choice)
      requires Here(mark, group) && StopAt(mark, rounds) == Some(Waiting(killed, left))
      modifies this`trace
      ensures Here(mark, group) && old(trace) < trace
      ensures branch == if left == 0 then Deadline else faults.choice(clock)
      ensures StopAt(mark, rounds) == StopNext(Waiting(killed, left), Took(world, branch, clock), faults)
    {
      hide StopAfter;
      ghost var seen := Since(mark);
      branch := if left == 0 then Deadline else faults.choice(clock);
      ghost var e := Took(world, branch, clock);
      trace := trace + [e];
      assert Since(mark) == seen + [e];
      OneMoreStep(seen, e, group, rounds, faults);
    }

    /** The observe loop: at most `rounds` ticks before the context is done. It goes
        on exactly while the leader runs and ticks are left. */
    method Observe(group: nat, rounds: nat, ghost mark: nat) returns (ok: bool)
      requires Here(mark, group) && mark == |trace|
      modifies this
      ensures old(trace) <= trace && Here(mark, group) && world.selfGroup == old(world).selfGroup
      ensures WatchAt(mark, rounds) == Some(if ok then Over else Gone)
      ensures Signals(Since(mark)) == [] && (ok <==> Clear(Since(mark)))
      ensures ok ==> LeaderEnded(Since(mark)) || Pauses(Since(mark)) == rounds + 1
    {
      hide Owned, WatchAfter, Clear, Signals, Pauses;
      assert WatchAt(mark, rounds) == Some(Peeking(rounds)) by {
        NoPeekYet(rounds);
        assert Since(mark) == [];
      }
      var left := rounds;
      var going := true;
      ok := true;
      while going
        invariant old(trace) <= trace && Here(mark, group) && world.selfGroup == old(world).selfGroup
        invariant WatchAt(mark, rounds) == Some(if going then Peeking(left) else if ok then Over else Gone)
        invariant going ==> ok
        decreases going, left
      {
        ghost var seen := Since(mark);
        var r := Inspect(group);
        ghost var e := trace[|trace| - 1];
        assert Since(mark) == seen + [e];
        OneMorePeek(seen, e, group, rounds, faults);
        if r.Unreadable? || !r.state.anchored {
          going, ok := false, false;
        } else if !r.state.leaderRunning {
          going := false;
        } else {
          seen := Since(mark);
          trace := trace + [Paused(world)];
          assert Since(mark) == seen + [Paused(world)];
          OneMorePeek(seen, Paused(world), group, rounds, faults);
          going := left > 0;
          left := if left > 0 then left - 1 else 0;
        }
      }
      WatchLaws(Since(mark), rounds);
    }

    /** command.Wait: returns once the leader has exited, and reaps it. */
    method Wait(group: nat)
      requires Owned(world, group)
      modifies this
      ensures old(trace) < trace && |trace| == |old(trace)| + 1 && trace[|trace| - 1].Reaped?
      ensures Owned(trace[|trace| - 1].world, group) && !Runs(trace[|trace| - 1].world, group)
      ensures group !in world.procs
      ensures Quiet(old(world), group) ==> Quiet(trace[|trace| - 1].world, group)
    {
      ghost var before := world;
      Interleave(group);
      if Quiet(before, group) {
        ghost var actions: seq<Action> :| world == Steps(before, group, actions);
        StepsKeepQuiet(before, group, actions);
      }
      StepKeepsOwned(world, group, Exit(group));
      world := Step(world, group, Exit(group));
      trace := trace + [Reaped(world)];
      world := world.(procs := world.procs - {group});
    }

    /** The part between Start and Wait: observe, then always stop. */
    method ObserveAndStop(group: nat, observeRounds: nat, stopRounds: nat) returns (ok: bool, ghost split: nat)
      requires Owned(world, group)
      modifies this
      ensures old(trace) <= trace && Owned(world, group)
      ensures var inside := Since(|old(trace)|);
              && Attended(inside, group, faults) && Follows(inside, split, observeRounds, stopRounds, faults)
              && (ok <==> Succeeded(inside, split, observeRounds, stopRounds, faults))
              && (ok <==> !faults.getpgidFails && Proven(inside))
      ensures ok ==> trace[|trace| - 1].world == world
    {
      hide Owned, AllProper, Clear, EndsQuiet, Escalation, Signals, StopAfter, WatchAfter, Proven;
      ghost var mark := |trace|;
      assert Here(mark, group) by {
        NoStepYet(group, stopRounds, faults);
        assert Since(mark) == [];
      }
      var observed := Observe(group, observeRounds, mark);
      ghost var watch, middle := Since(mark), |trace|;
      split := |watch|;
      assert Here(middle, group) by {
        NoStepYet(group, stopRounds, faults);
        assert Since(middle) == [];
      }
      var stopped := Stop(group, stopRounds, middle);
      ok := observed && stopped;
      ghost var inside := Since(mark);
      assert inside[..split] == watch && inside[split..] == Since(middle);
      assert inside == watch + Since(middle);
      ConcatProper(watch, Since(middle), group, faults);
      FollowsIsAttended(inside, split, observeRounds, stopRounds, faults);
    }

    /** Everything after Start: observe, stop, and Wait once. */
    method AttendAndWait(child: nat, observeRounds: nat, stopRounds: nat)
      returns (proven: bool, ghost inside: seq<Event>, ghost split: nat, ghost reap: Event)
      requires Owned(world, child)
      modifies this
      ensures trace == old(trace) + inside + [reap]
      ensures reap.Reaped? && Attended(inside, child, faults) && child !in world.procs
      ensures Follows(inside, split, observeRounds, stopRounds, faults)
      ensures proven <==> Succeeded(inside, split, observeRounds, stopRounds, faults)
      ensures proven <==> !faults.getpgidFails && Proven(inside)
      ensures proven ==> Quiet(reap.world, child)
    {
      hide Owned, AllProper, Clear, Quiet, Attended, Proven, Follows, Succeeded;
      ghost var mark := |trace|;
      proven, split := ObserveAndStop(child, observeRounds, stopRounds);
      inside := Since(mark);
      assert trace == old(trace) + inside;
      if proven {
        ProvenIsQuiet(inside, child, faults);
      }
      Wait(child);
      reap := trace[|trace| - 1];
      assert trace == trace[..|trace| - 1] + [reap];
    }

    /** runOwnedGitHubTokenProbe. `child` is the id that the kernel would give
        to the child. Whatever the environment does, a child is started unless ps or
        Start fails; a run that started one is disciplined and follows the protocol,
        and afterwards the child is reaped. */
    method RunOwnedGitHubTokenProbe(child: nat, startFails: bool, observeRounds: nat, stopRounds: nat)
      returns (quiescent: bool, started: bool, ghost split: nat)
      requires Sound(world) && FreshId(world, child)
      modifies this
      ensures old(trace) <= trace
      ensures started <==> !faults.psFails(old(clock)) && !startFails
      ensures !started ==> quiescent && trace == old(trace) && world == old(world)
      ensures started ==> Disciplined(Since(|old(trace)|), child, faults) && child !in world.procs
      ensures started ==> Follows(Inside(|old(trace)|), split, observeRounds, stopRounds, faults)
      ensures started ==>
                (quiescent <==> (!faults.waitDelayExpires
                                 && Succeeded(Inside(|old(trace)|), split, observeRounds, stopRounds, faults)))
      ensures started ==> (quiescent <==> !faults.getpgidFails && !faults.waitDelayExpires && Proven(Inside(|old(trace)|)))
      ensures started && quiescent ==> SafelyQuiet(Since(|old(trace)|), child)
    {
      split := 0;
      if faults.psFails(clock) || startFails {
        return true, false, 0;
      }
      started := true;
      SpawnIsOwned(world, child);
      world := Spawn(world, child);
      hide Owned, Quiet, Attended, Proven, Disciplined, SafelyQuiet, Spawn, FreshId, Sound, Follows, Succeeded;
      ghost var start := Started(world, child);
      trace := trace + [start];
      var proven, inside, middle, reap := AttendAndWait(child, observeRounds, stopRounds);
      split := middle;
      quiescent := proven && !faults.waitDelayExpires;
      RunParts(old(trace), start, inside, reap);
      RunIsDisciplined(start, inside, reap, child, faults, quiescent);
    }

    /** A finished run without its Start and its Wait. */
    ghost function Inside(mark: nat): seq<Event>
      requires mark + 2 <= |trace|
      reads this`trace
    {
      trace[mark + 1..|trace| - 1]
    }
  }

  lemma OneMoreStep(seen: seq<Event>, e: Event, group: nat, rounds: nat, faults: Faults)
    requires AllProper(seen, group, faults) && Proper(e, group, faults) && StopAfter(seen, rounds, faults).Some?
    ensures AllProper(seen + [e], group, faults)
    ensures StopAfter(seen + [e], rounds, faults) == StopNext(StopAfter(seen, rounds, faults).value, e, faults)
  {
    assert (seen + [e])[..|seen|] == seen && (seen + [e])[|seen|] == e;
    hide Proper;
  }

  lemma OneMorePeek(seen: seq<Event>, e: Event, group: nat, rounds: nat, faults: Faults)
    requires AllProper(seen, group, faults) && Proper(e, group, faults) && WatchAfter(seen, rounds).Some?
    ensures AllProper(seen + [e], group, faults)
    ensures WatchAfter(seen + [e], rounds) == WatchNext(WatchAfter(seen, rounds).value, e)
  {
    assert (seen + [e])[..|seen|] == seen && (seen + [e])[|seen|] == e;
    hide Proper;
  }

  lemma NoStepYet(group: nat, rounds: nat, faults: Faults)
    ensures AllProper([], group, faults) && StopAfter([], rounds, faults) == Some(First(rounds))
  {
  }

  lemma NoPeekYet(rounds: nat)
    ensures WatchAfter([], rounds) == Some(Peeking(rounds))
  {
  }

  lemma ConcatProper(a: seq<Event>, b: seq<Event>, group: nat, faults: Faults)
    requires AllProper(a, group, faults) && AllProper(b, group, faults)
    ensures AllProper(a + b, group, faults)
  {
    hide Proper;
    var all := a + b;
    assert forall i | 0 <= i < |all| :: all[i] == if i < |a| then a[i] else b[i - |a|];
  }

  lemma RunParts(before: seq<Event>, start: Event, inside: seq<Event>, reap: Event)
    ensures var all := before + [start] + inside + [reap];
            && before <= all && |all| == |before| + |inside| + 2
            && all[|before|..] == [start] + inside + [reap] && all[|before| + 1..|all| - 1] == inside
  {
  }

  lemma ProvenIsQuiet(inside: seq<Event>, group: nat, faults: Faults)
    requires Proven(inside) && Attended(inside, group, faults)
    ensures inside != [] && inside[|inside| - 1].Inspected? && Quiet(inside[|inside| - 1].world, group)
  {
    assert Proper(inside[|inside| - 1], group, faults);
  }

  lemma RunIsDisciplined(start: Event, inside: seq<Event>, reap: Event, group: nat, faults: Faults, quiescent: bool)
    requires start.Started? && start.group == group && reap.Reaped?
    requires Attended(inside, group, faults)
    requires quiescent ==> Proven(inside) && Quiet(reap.world, group)
    ensures Disciplined([start] + inside + [reap], group, faults)
    ensures quiescent ==> SafelyQuiet([start] + inside + [reap], group)
  {
    var run := [start] + inside + [reap];
    assert run[1..|run| - 1] == inside;
    if quiescent {
      ProvenIsQuiet(inside, group, faults);
      assert run[|run| - 2] == inside[|inside| - 1];
      QuietForever(inside[|inside| - 1].world, group);
    }
  }

  lemma QuietForever(w: World, group: nat)
    requires Quiet(w, group)
    ensures NoneCanAppear(w, group)
  {
    forall actions: seq<Action> ensures Quiet(Steps(w, group, actions), group) {
      StepsKeepQuiet(w, group, actions);
    }
  }
}
