/** agentRunCredentialCache: the worker id and token that a session's callbacks
    use, refreshed by any number of goroutines. */
module CredentialCache {

  /** What fetchSessionDetail came back with; `valid` is the verdict of
      validateLocalAgentDetail on it. */
  datatype Fetch = Failed | Fetched(sessionId: string, workerId: string, authToken: string, valid: bool)

  datatype Credentials = Credentials(workerId: string, authToken: string, ok: bool)

  function Newer(known: string, fetched: string): string {
    if fetched != "" then fetched else known
  }

  /** The last non-empty answer among the fetches, in lock order. */
  function Last(known: string, answers: seq<string>): string {
    if answers == [] then known
    else Newer(Last(known, answers[..|answers| - 1]), answers[|answers| - 1])
  }

  function WorkerIds(fetches: seq<Fetch>): seq<string> {
    seq(|fetches|, i requires 0 <= i < |fetches| => if fetches[i].Fetched? then fetches[i].workerId else "")
  }

  function Tokens(fetches: seq<Fetch>): seq<string> {
    seq(|fetches|, i requires 0 <= i < |fetches| => if fetches[i].Fetched? then fetches[i].authToken else "")
  }

  /** `applied` are the fetches whose locked section has run. A fetch happens
      outside the lock, so concurrent calls may be applied in any order. */
  class Cache {
    const localRuntime: bool
    const sessionId: string
    const daemonToken: string
    const initialWorker: string
    const initialToken: string
    var workerId: string
    var authToken: string
    ghost var applied: seq<Fetch>

    /** The local runtime seeds the token with the attempt bearer. */
    constructor (localRuntime: bool, sessionId: string, daemonToken: string, workerId: string, authToken: string)
      ensures Valid() && applied == [] && this.localRuntime == localRuntime
      ensures this.sessionId == sessionId && this.daemonToken == daemonToken
      ensures initialWorker == workerId && initialToken == if localRuntime then daemonToken else authToken
    {
      this.localRuntime, this.sessionId, this.daemonToken := localRuntime, sessionId, daemonToken;
      this.initialWorker, this.workerId := workerId, workerId;
      var token := if localRuntime then daemonToken else authToken;
      this.initialToken, this.authToken := token, token;
      this.applied := [];
    }

    /** After any interleaving: remotely, each credential is the last non-empty
        answer; locally, neither ever changes. */
    ghost predicate Valid()
      reads this
    {
      && (localRuntime ==> initialToken == daemonToken && workerId == initialWorker && authToken == initialToken)
      && (!localRuntime ==>
            && workerId == Last(initialWorker, WorkerIds(applied))
            && authToken == Last(initialToken, Tokens(applied)))
    }

    /** The locked section of `current`. A known credential never becomes empty
        again, and a local session always gets its own worker and token. */
    method Current(detail: Fetch) returns (r: Credentials)
      requires Valid()
      modifies this`workerId, this`authToken, this`applied
      ensures Valid() && applied == old(applied) + [detail]
      ensures old(workerId) != "" ==> workerId != ""
      ensures old(authToken) != "" ==> authToken != ""
      ensures r.workerId == workerId && r.authToken == authToken
      ensures localRuntime ==> r.workerId == initialWorker && r.authToken == daemonToken
      ensures localRuntime ==>
                (r.ok <==> detail.Fetched? && detail.valid && detail.sessionId == sessionId && detail.workerId == initialWorker)
      ensures !localRuntime ==> (r.ok <==> detail.Fetched?)
    {
      AppendAnswers(applied, detail);
      applied := applied + [detail];
      if localRuntime {
        if detail.Failed? || !detail.valid || detail.sessionId != sessionId || detail.workerId != workerId {
          return Credentials(workerId, authToken, false);
        }
        return Credentials(workerId, daemonToken, true);
      }
      if detail.Fetched? {
        if detail.workerId != "" {
          workerId := detail.workerId;
        }
        if detail.authToken != "" {
          authToken := detail.authToken;
        }
      }
      r := Credentials(workerId, authToken, detail.Fetched?);
    }
  }

  lemma AppendAnswers(applied: seq<Fetch>, detail: Fetch)
    ensures WorkerIds(applied + [detail])[..|applied|] == WorkerIds(applied)
    ensures Tokens(applied + [detail])[..|applied|] == Tokens(applied)
  {
  }

  /** Over any sequence of answers the credential is some non-empty answer or the
      initial one, and once known it stays known. */
  lemma {:induction false} LastIsNewestKnown(known: string, answers: seq<string>)
    ensures var last := Last(known, answers);
            && (known != "" ==> last != "")
            && ((forall i | 0 <= i < |answers| :: answers[i] == "") ==> last == known)
            && (forall i | 0 <= i < |answers| && answers[i] != "" && (forall j | i < j < |answers| :: answers[j] == "") ::
                  last == answers[i])
  {
    if answers != [] {
      var front, newest := answers[..|answers| - 1], answers[|answers| - 1];
      LastIsNewestKnown(known, front);
      if newest == "" {
        assert Last(known, answers) == Last(known, front);
        assert forall i | 0 <= i < |front| :: front[i] == answers[i];
      }
    }
  }
}
