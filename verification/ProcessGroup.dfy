/** The operating system as the GitHub token probe meets it: a process table
    that every other process keeps changing while the probe runs. */
module ProcessGroup {
  import Decimal

  datatype Process = Process(ppid: nat, pgid: nat, live: bool)

  /** `self` is the daemon, `family` the probe's child and the descendants of
      that child that still occupy a process id. */
  datatype World = World(self: nat, selfGroup: nat, procs: map<nat, Process>, family: set<nat>)

  /** One step of any process other than the probe. */
  datatype Action =
    | Fork(parent: nat, child: nat)
    | Exit(pid: nat)
    | Reap(pid: nat)
    | Move(pid: nat, pgid: nat)

  /** The kernel never hands out an id that a process or a group still uses. */
  predicate FreshId(w: World, pid: nat) {
    1 < pid <= Decimal.MAX_INT && pid !in w.procs && forall q | q in w.procs :: w.procs[q].pgid != pid
  }

  predicate Runs(w: World, pid: nat) {
    pid in w.procs && w.procs[pid].live
  }

  /** What the environment may do while `leader` is the probe's unreaped child:
      the daemon itself stays, only the daemon reaps its child, and a process
      enters the child's group only by being forked inside it. */
  predicate Enabled(w: World, leader: nat, a: Action) {
    match a
    case Fork(parent, child) => Runs(w, parent) && FreshId(w, child)
    case Exit(pid) => Runs(w, pid) && pid != w.self
    case Reap(pid) => pid in w.procs && !w.procs[pid].live && pid != leader
    case Move(pid, pgid) => Runs(w, pid) && pid != w.self && pgid != leader && pgid <= Decimal.MAX_INT
  }

  /** A dead process keeps its slot as a zombie; its children go to init. */
  function AfterExit(procs: map<nat, Process>, pid: nat): map<nat, Process> {
    map q | q in procs ::
      if q == pid then procs[q].(live := false)
      else if procs[q].ppid == pid then procs[q].(ppid := 1)
      else procs[q]
  }

  function Step(w: World, leader: nat, a: Action): World {
    if !Enabled(w, leader, a) then w
    else match a
      case Fork(parent, child) =>
        w.(procs := w.procs[child := Process(parent, w.procs[parent].pgid, true)],
           family := if parent in w.family then w.family + {child} else w.family)
      case Exit(pid) => w.(procs := AfterExit(w.procs, pid))
      case Reap(pid) => w.(procs := w.procs - {pid}, family := w.family - {pid})
      case Move(pid, pgid) => w.(procs := w.procs[pid := w.procs[pid].(pgid := pgid)])
  }

  function Steps(w: World, leader: nat, actions: seq<Action>): World
    decreases |actions|
  {
    if actions == [] then w else Steps(Step(w, leader, actions[0]), leader, actions[1..])
  }

  /** exec.Cmd.Start with Setpgid: the child leads a new group of its own. */
  function Spawn(w: World, child: nat): World
    requires FreshId(w, child)
  {
    w.(procs := w.procs[child := Process(w.self, child, true)], family := {child})
  }

  /** The child has not been reaped, so neither its process id nor its group id
      can have been given to anything else. */
  predicate Unreaped(w: World, leader: nat) {
    leader in w.procs && w.procs[leader].ppid == w.self
  }

  predicate Quiet(w: World, group: nat) {
    forall q | q in w.procs && w.procs[q].pgid == group :: !w.procs[q].live
  }

  /** Everything a signal to the group can reach descends from the child. */
  predicate OnlyFamily(w: World, group: nat) {
    forall q | q in w.procs && w.procs[q].pgid == group :: q in w.family
  }

  /** Every id is one that a process table can print. */
  predicate IdsFit(w: World) {
    forall q | q in w.procs ::
      q <= Decimal.MAX_INT && w.procs[q].ppid <= Decimal.MAX_INT && w.procs[q].pgid <= Decimal.MAX_INT
  }

  /** The facts that hold from Start until Wait, whatever the others do. */
  predicate Owned(w: World, leader: nat) {
    && 1 < leader && leader != w.self && leader != w.selfGroup
    && Runs(w, w.self)
    && Unreaped(w, leader) && leader in w.family && OnlyFamily(w, leader)
    && IdsFit(w)
  }

  /** The daemon is running, in the group it believes to be in. */
  predicate Sound(w: World) {
    Runs(w, w.self) && w.procs[w.self].pgid == w.selfGroup && IdsFit(w)
  }

  lemma SpawnIsOwned(w: World, child: nat)
    requires Sound(w) && FreshId(w, child)
    ensures Owned(Spawn(w, child), child)
  {
    var v := Spawn(w, child);
    assert v.procs[w.self] == w.procs[w.self];
  }

  lemma StepKeepsOwned(w: World, leader: nat, a: Action)
    requires Owned(w, leader)
    ensures Owned(Step(w, leader, a), leader)
    ensures Step(w, leader, a).self == w.self && Step(w, leader, a).selfGroup == w.selfGroup
  {
  }

  /** A group without a live member stays without one: only a live member could
      fork a new one. */
  lemma StepKeepsQuiet(w: World, leader: nat, a: Action)
    requires Quiet(w, leader)
    ensures Quiet(Step(w, leader, a), leader)
  {
  }

  lemma {:induction false} StepsKeepOwned(w: World, leader: nat, actions: seq<Action>)
    requires Owned(w, leader)
    ensures Owned(Steps(w, leader, actions), leader)
    ensures Steps(w, leader, actions).self == w.self
    ensures Steps(w, leader, actions).selfGroup == w.selfGroup
    decreases |actions|
  {
    if actions != [] {
      StepKeepsOwned(w, leader, actions[0]);
      StepsKeepOwned(Step(w, leader, actions[0]), leader, actions[1..]);
    }
  }

  /** No interleaving of the other processes revives a quiet group. */
  lemma {:induction false} StepsKeepQuiet(w: World, leader: nat, actions: seq<Action>)
    requires Quiet(w, leader)
    ensures Quiet(Steps(w, leader, actions), leader)
    decreases |actions|
  {
    if actions != [] {
      StepKeepsQuiet(w, leader, actions[0]);
      StepsKeepQuiet(Step(w, leader, actions[0]), leader, actions[1..]);
    }
  }
}
