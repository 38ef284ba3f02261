/** runWorktreeCleanup: removing orphaned agent worktrees below a directory. */
module WorktreeCleanup {

  datatype Entry = Entry(name: string, isDir: bool)

  datatype Lease = Retained | Free | LeaseError
  datatype GitMeta = GitDirectory | GitFile | GitMissing | GitError

  /** The flags, and what the lease store, git and the file system answer. */
  datatype Site = Site(dryRun: bool, force: bool, hasLeaseStore: bool, known: set<string>,
                       lease: string -> Lease, branchExists: string -> bool, gitMeta: string -> GitMeta,
                       gitRemove: string -> bool, rmRf: string -> bool)

  const RESERVED := {".patches", ".terminal-leases", ".terminal-quarantine", ".terminal-receivers", "__merge-worker__"}

  datatype Outcome = Ignored | LeaseFailed | Leased | InUse | WouldRemove | Unsafe | RemoveFailed | Removed

  predicate Scanned(e: Entry) {
    e.isDir && e.name !in RESERVED
  }

  predicate HeldByLease(site: Site, name: string) {
    site.hasLeaseStore && site.lease(name) != Free
  }

  predicate Orphaned(site: Site, name: string) {
    site.force || name !in site.known || !site.branchExists(name)
  }

  /** The directory holds a main working tree, or that could not be ruled out. */
  predicate Protected(site: Site, name: string) {
    site.gitMeta(name) == GitDirectory || site.gitMeta(name) == GitError
  }

  /** The one outcome of an entry. */
  function OutcomeOf(site: Site, e: Entry): Outcome {
    if !Scanned(e) then Ignored
    else if HeldByLease(site, e.name) then (if site.lease(e.name) == LeaseError then LeaseFailed else Leased)
    else if !Orphaned(site, e.name) then InUse
    else if site.dryRun then WouldRemove
    else if Protected(site, e.name) then Unsafe
    else if site.gitRemove(e.name) || site.rmRf(e.name) then Removed
    else RemoveFailed
  }

  function Count(site: Site, entries: seq<Entry>, kinds: set<Outcome>): nat {
    if entries == [] then 0
    else
      Count(site, entries[..|entries| - 1], kinds)
      + if OutcomeOf(site, entries[|entries| - 1]) in kinds then 1 else 0
  }

  /** The names of the entries with one of these outcomes, in listing order. */
  function Select(site: Site, entries: seq<Entry>, kinds: set<Outcome>): (names: seq<string>)
    ensures |names| == Count(site, entries, kinds)
  {
    if entries == [] then []
    else
      Select(site, entries[..|entries| - 1], kinds)
      + if OutcomeOf(site, entries[|entries| - 1]) in kinds then [entries[|entries| - 1].name] else []
  }

  datatype Report = Report(scanned: nat, orphaned: nat, skipped: nat, cleaned: nat, errors: seq<string>)

  const FOUND := {LeaseFailed, Leased, InUse, WouldRemove, Unsafe, RemoveFailed, Removed}
  const ORPHANED := {WouldRemove, Unsafe, RemoveFailed, Removed}
  const SKIPPED := {LeaseFailed, Leased, Unsafe}
  const REPORTED := {LeaseFailed, Unsafe, RemoveFailed}
  const ATTEMPTED := {RemoveFailed, Removed}

  /** The counters after the listing are the counts of the outcomes, the errors
      name the entries they belong to, and `removals` are the directories for
      which a removal command was issued. */
  predicate Tally(site: Site, entries: seq<Entry>, r: Report, removals: seq<string>) {
    && r.scanned == Count(site, entries, FOUND)
    && r.orphaned == Count(site, entries, ORPHANED)
    && r.skipped == Count(site, entries, SKIPPED)
    && r.cleaned == Count(site, entries, {Removed})
    && r.errors == Select(site, entries, REPORTED)
    && removals == Select(site, entries, ATTEMPTED)
  }

  /** What an outcome adds to the report. */
  function Bump(r: Report, e: Entry, o: Outcome): Report {
    Report(r.scanned + (if o in FOUND then 1 else 0),
           r.orphaned + (if o in ORPHANED then 1 else 0),
           r.skipped + (if o in SKIPPED then 1 else 0),
           r.cleaned + (if o == Removed then 1 else 0),
           r.errors + (if o in REPORTED then [e.name] else []))
  }

  /** The body of the loop. */
  method Visit(site: Site, entry: Entry, before: Report) returns (r: Report, attempted: bool)
    ensures r == Bump(before, entry, OutcomeOf(site, entry))
    ensures attempted <==> OutcomeOf(site, entry) in ATTEMPTED
  {
    r, attempted := before, false;
    assert r.errors + [] == r.errors;
    if !entry.isDir {
      return;
    }
    if entry.name in RESERVED {
      return;
    }
    r := r.(scanned := r.scanned + 1);
    if site.hasLeaseStore {
      var retained := site.lease(entry.name);
      if retained == LeaseError {
        r := r.(errors := r.errors + [entry.name], skipped := r.skipped + 1);
        return;
      }
      if retained == Retained {
        r := r.(skipped := r.skipped + 1);
        return;
      }
    }
    var orphaned := site.force || entry.name !in site.known || !site.branchExists(entry.name);
    if !orphaned {
      return;
    }
    r := r.(orphaned := r.orphaned + 1);
    if site.dryRun {
      return;
    }
    var meta := site.gitMeta(entry.name);
    if meta == GitDirectory || meta == GitError {
      r := r.(errors := r.errors + [entry.name], skipped := r.skipped + 1);
      return;
    }
    attempted := true;
    var removed := site.gitRemove(entry.name);
    if !removed {
      removed := site.rmRf(entry.name);
    }
    if removed {
      r := r.(cleaned := r.cleaned + 1);
    } else {
      r := r.(errors := r.errors + [entry.name]);
    }
  }

  method RunWorktreeCleanup(site: Site, entries: seq<Entry>) returns (r: Report, removals: seq<string>)
    ensures Tally(site, entries, r, removals)
    ensures !site.dryRun ==> r.orphaned == r.cleaned + Count(site, entries, {Unsafe}) + Count(site, entries, {RemoveFailed})
    ensures site.dryRun ==> removals == [] && r.cleaned == 0
    ensures forall i | 0 <= i < |removals| :: MayRemove(site, removals[i])
  {
    r, removals := Report(0, 0, 0, 0, []), [];
    var n := 0;
    while n < |entries|
      invariant 0 <= n <= |entries|
      invariant Tally(site, entries[..n], r, removals)
    {
      TallyStep(site, entries[..n], entries[n], r, removals);
      assert entries[..n + 1] == entries[..n] + [entries[n]];
      var attempted;
      r, attempted := Visit(site, entries[n], r);
      if attempted {
        removals := removals + [entries[n].name];
      }
      n := n + 1;
    }
    assert entries[..n] == entries;
    Accounting(site, entries);
    RemovalsAreSafe(site, entries);
  }

  lemma CountStep(site: Site, entries: seq<Entry>, e: Entry, kinds: set<Outcome>)
    ensures Count(site, entries + [e], kinds) ==
            Count(site, entries, kinds) + (if OutcomeOf(site, e) in kinds then 1 else 0)
    ensures Select(site, entries + [e], kinds) ==
            Select(site, entries, kinds) + (if OutcomeOf(site, e) in kinds then [e.name] else [])
  {
    assert (entries + [e])[..|entries|] == entries;
  }

  lemma TallyStep(site: Site, entries: seq<Entry>, e: Entry, r: Report, removals: seq<string>)
    requires Tally(site, entries, r, removals)
    ensures Tally(site, entries + [e], Bump(r, e, OutcomeOf(site, e)),
                  if OutcomeOf(site, e) in ATTEMPTED then removals + [e.name] else removals)
  {
    hide OutcomeOf, Count, Select;
    CountStep(site, entries, e, FOUND);
    CountStep(site, entries, e, ORPHANED);
    CountStep(site, entries, e, SKIPPED);
    CountStep(site, entries, e, {Removed});
    CountStep(site, entries, e, REPORTED);
    CountStep(site, entries, e, ATTEMPTED);
  }

  /** What must hold of a directory before a removal command names it, even with
      force. */
  predicate MayRemove(site: Site, name: string) {
    && !site.dryRun && name !in RESERVED && !HeldByLease(site, name)
    && Orphaned(site, name) && !Protected(site, name)
  }

  /** Every scanned entry has one outcome: leased, in use or orphaned; and every
      orphan of a real run was removed, kept for safety, or reported as failed. */
  lemma {:induction false} Accounting(site: Site, entries: seq<Entry>)
    ensures Count(site, entries, FOUND) ==
            Count(site, entries, {LeaseFailed, Leased}) + Count(site, entries, {InUse}) + Count(site, entries, ORPHANED)
    ensures Count(site, entries, ORPHANED) ==
            Count(site, entries, {WouldRemove}) + Count(site, entries, {Removed}) + Count(site, entries, {Unsafe})
            + Count(site, entries, {RemoveFailed})
    ensures !site.dryRun ==> Count(site, entries, {WouldRemove}) == 0
    ensures site.dryRun ==> Count(site, entries, ATTEMPTED) == 0 && Count(site, entries, {Removed}) == 0
  {
    if entries != [] {
      Accounting(site, entries[..|entries| - 1]);
    }
  }

  lemma {:induction false} RemovalsAreSafe(site: Site, entries: seq<Entry>)
    ensures forall i | 0 <= i < |Select(site, entries, ATTEMPTED)| ::
              MayRemove(site, Select(site, entries, ATTEMPTED)[i])
  {
    if entries != [] {
      RemovalsAreSafe(site, entries[..|entries| - 1]);
    }
  }

  /** A free, unprotected orphan is removed exactly when a real run can remove it:
      one of the two commands works. */
  lemma RemovedIff(site: Site, e: Entry)
    ensures OutcomeOf(site, e) == Removed <==>
              Scanned(e) && MayRemove(site, e.name) && (site.gitRemove(e.name) || site.rmRf(e.name))
    ensures OutcomeOf(site, e) == RemoveFailed <==>
              Scanned(e) && MayRemove(site, e.name) && !site.gitRemove(e.name) && !site.rmRf(e.name)
    ensures OutcomeOf(site, e) == WouldRemove <==>
              Scanned(e) && site.dryRun && !HeldByLease(site, e.name) && Orphaned(site, e.name)
  {
  }
}
