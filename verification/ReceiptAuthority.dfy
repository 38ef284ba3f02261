/** detailToQueuedWork: when a session detail carries a receipted operational
    payload, the payload and not the detail decides what work is done. */
module ReceiptAuthority {
  import opened Decimal

  // -------------------------------------------------------------------- records

  /** What decides which commits the workarea holds, and the agent card: a payload
      must repeat it, or the detail is refused. */
  datatype Intent = Intent(baseRef: string, repositoryDeclaration: Option<string>, workareaMode: string,
                           parentWorkareaId: string, repositoryFilter: string, cacheSeedId: string,
                           pullRequest: string, continuePullRequest: string, delivery: string,
                           agentCardId: string, agentCardName: string)

  /** The fields of prompt.QueuedWork that the intent does not hold. */
  datatype Prompt = Prompt(sessionId: string, sessionName: string, issueId: string, issueIdentifier: string,
                           linearSessionId: string, providerSessionId: string, projectName: string,
                           organizationId: string, repository: string, ref: string, workType: string,
                           workTypeRole: string, fields: string, promptContext: string, body: string, title: string,
                           mentionContext: string, parentContext: string, stagePrompt: string, stageId: string,
                           stageLifecycle: string, stageSourceEventId: string, systemPromptOverride: string,
                           kits: string, disallowedTools: string, allowedTools: string, mcpServers: string,
                           skills: string, memoryBlock: string, mode: string, initialPrompt: string,
                           recordingEnabled: Option<bool>, interviewDefinition: string, traceparent: string,
                           tracestate: string, sessionStorageId: string, sessionPublicId: string,
                           trackerSessionId: string)

  datatype Receipts = Receipts(admission: string, claim: string, effectiveCell: string,
                               executionRuntimeBinding: string, hostAdaptation: string)

  datatype Credentials = Credentials(workerId: string, authToken: string, platformUrl: string,
                                     mcpAuthToken: string, mcpAuthTokenExpiresAt: string)

  /** The fields of a work item that no detail carries. */
  datatype Runtime = Runtime(env: string, permissionProfile: string, executionSecurity: Option<string>,
                             retainRecording: bool, codeIntel: Option<string>, toolLifecycleProfileId: string,
                             runtimeTransport: string)

  const NO_RUNTIME := Runtime("", "", None, false, None, "", "")

  /** The fields of a detail that no work item carries. */
  datatype Hosting = Hosting(resumeKey: Option<string>, credentialRequirements: string, harness: string,
                             servingHost: string, credentialPoolId: string, controlTokenPath: string)

  datatype StageBudget = StageBudget(maxDurationSeconds: int, maxTokens: int, maxSubAgents: Option<int>)

  /** daemon.SessionDetail. */
  datatype Detail = Detail(
    operationalPayload: string, intent: Intent, prompt: Prompt, receipts: Receipts, credentials: Credentials,
    coAuthorName: string, coAuthorEmail: string, capabilities: string, deferFailureTransition: bool,
    branch: string, terminalWorkareaLease: string, seatBudget: Option<string>,
    hosting: Hosting, projectId: string, repositoryId: string,
    stageBudget: Option<StageBudget>, interviewBudget: Option<string>,
    modelProfile: Option<string>, resolvedProfile: Option<string>)

  /** runner.QueuedWork. */
  datatype Work = Work(
    operationalPayload: string, intent: Intent, prompt: Prompt, receipts: Receipts, credentials: Credentials,
    coAuthorName: string, coAuthorEmail: string, capabilities: string, deferFailureTransition: bool,
    branch: string, terminalWorkareaLease: string, seatBudget: Option<string>,
    runtime: Runtime, stageBudget: Option<StageBudget>, interviewBudget: Option<string>,
    resolvedProfile: Option<string>)

  /** What the payload says about the project it belongs to. */
  datatype Identity = Identity(projectId: string, repositoryId: string, projectName: string, repository: string,
                               requiresRepository: bool)

  /** Decoders and validators of other packages, as arbitrary functions; `profile`
      folds the two optional profiles of a detail into one. */
  datatype Env = Env(
    decode: string -> Option<Work>,
    identity: string -> Option<Identity>,
    baseRefOk: string -> bool,
    securityOk: string -> bool,
    coAuthor: (string, string, string) -> (string, string),
    profile: (Option<string>, Option<string>) -> Option<string>)

  const UNLIMITED := -1

  function WithRepository(w: Work, repository: string): Work {
    w.(prompt := w.prompt.(repository := repository))
  }

  // ------------------------------------------------------------------ the code

  /** The work item of a detail without a payload. */
  function FromMirror(env: Env, d: Detail): Work {
    var (name, email) := env.coAuthor(d.prompt.sessionId, d.coAuthorName, d.coAuthorEmail);
    Work(d.operationalPayload, d.intent, d.prompt, d.receipts, d.credentials, name, email, d.capabilities,
         d.deferFailureTransition, d.branch, d.terminalWorkareaLease, d.seatBudget,
         NO_RUNTIME, None, None, None)
  }

  /** The three cases in which a resolved repository may fill an empty one. */
  predicate Authorised(d: Detail, admitted: Work, id: Identity) {
    if id.projectId == "" && id.repositoryId == "" && !id.requiresRepository then
      id.projectName != "" && id.projectName == admitted.prompt.projectName && id.projectName == d.prompt.projectName
    else if id.projectId != "" && id.repositoryId != "" then
      id.projectId == d.projectId && id.repositoryId == d.repositoryId
    else if id.projectId != "" && id.repositoryId == "" && id.requiresRepository then
      id.projectId == d.projectId && d.repositoryId == ""
    else false
  }

  /** applyResolvedRepositoryCompatibility; None is a denial. */
  function Resolve(env: Env, d: Detail, admitted: Work): Option<Work> {
    if d.prompt.repository == admitted.prompt.repository then Some(admitted)
    else if admitted.prompt.repository != "" || d.prompt.repository == ""
            || admitted.intent.repositoryDeclaration.Some? then None
    else
      match env.identity(d.operationalPayload)
      case None => None
      case Some(id) =>
        if id.repository == admitted.prompt.repository && Authorised(d, admitted, id)
        then Some(WithRepository(admitted, d.prompt.repository)) else None
  }

  /** What the detail restores on an admitted work item. */
  function Restore(env: Env, d: Detail, w: Work): Work {
    var (name, email) := env.coAuthor(d.prompt.sessionId, d.coAuthorName, d.coAuthorEmail);
    w.(operationalPayload := d.operationalPayload, receipts := d.receipts, credentials := d.credentials,
       coAuthorName := name, coAuthorEmail := email, capabilities := d.capabilities,
       deferFailureTransition := d.deferFailureTransition)
  }

  /** The work item before the reconcilers; None is an error. */
  function Admit(env: Env, d: Detail): Option<Work> {
    if d.operationalPayload == "" then Some(FromMirror(env, d))
    else if !env.baseRefOk(d.operationalPayload) || !env.securityOk(d.operationalPayload) then None
    else
      var admitted :- env.decode(d.operationalPayload);
      if d.intent != admitted.intent then None
      else
        var resolved :- Resolve(env, d, admitted);
        Some(Restore(env, d, resolved))
  }

  predicate Malformed(b: Option<StageBudget>) {
    b.Some? && b.value.maxDurationSeconds < UNLIMITED
  }

  /** ReconcileStageBudget: the sibling is adopted without a payload and must equal
      the payload's own budget with one. */
  function ReconcileStageBudget(w: Work, sibling: Option<StageBudget>): Option<Work> {
    if Malformed(sibling) || Malformed(w.stageBudget) then None
    else if w.operationalPayload == "" then Some(w.(stageBudget := sibling))
    else if w.stageBudget != sibling then None
    else Some(w)
  }

  /** ReconcileResolvedProfile: a profile of the detail replaces the work item's. */
  function ReconcileResolvedProfile(env: Env, w: Work, model: Option<string>, resolved: Option<string>): Option<Work> {
    if model.None? && resolved.None? then Some(w)
    else
      var profile :- env.profile(model, resolved);
      Some(w.(resolvedProfile := Some(profile)))
  }

  function Reconcile(env: Env, d: Detail, work: Work): Option<Work> {
    var staged :- ReconcileStageBudget(work, d.stageBudget);
    var budgeted := if d.interviewBudget.Some? then staged.(interviewBudget := d.interviewBudget) else staged;
    ReconcileResolvedProfile(env, budgeted, d.modelProfile, d.resolvedProfile)
  }

  function DetailToQueuedWork(env: Env, d: Detail): Option<Work> {
    var work :- Admit(env, d);
    Reconcile(env, d, work)
  }

  // ------------------------------------------------------------------- authority

  /** The details agree on the payload and on every field that is restored or
      reconciled; all other fields may differ. */
  predicate SameReceipt(d: Detail, e: Detail) {
    && d.operationalPayload == e.operationalPayload && d.receipts == e.receipts && d.credentials == e.credentials
    && d.prompt.sessionId == e.prompt.sessionId
    && d.coAuthorName == e.coAuthorName && d.coAuthorEmail == e.coAuthorEmail
    && d.capabilities == e.capabilities && d.deferFailureTransition == e.deferFailureTransition
    && d.stageBudget == e.stageBudget && d.interviewBudget == e.interviewBudget
    && d.modelProfile == e.modelProfile && d.resolvedProfile == e.resolvedProfile
  }

  /** The payload leaves the repository open: it names none and declares none. */
  predicate Open(env: Env, payload: string) {
    && env.decode(payload).Some? && env.decode(payload).value.prompt.repository == ""
    && env.decode(payload).value.intent.repositoryDeclaration == None
  }

  /** The payload's identity authorises the repository of this detail. */
  predicate Entitled(env: Env, d: Detail) {
    && env.decode(d.operationalPayload).Some? && env.identity(d.operationalPayload).Some?
    && Authorised(d, env.decode(d.operationalPayload).value, env.identity(d.operationalPayload).value)
  }

  function MapRepository(w: Option<Work>, repository: string): Option<Work> {
    match w
    case Some(x) => Some(WithRepository(x, repository))
    case None => None
  }

  /** Reconciliation neither looks at the repository nor changes it. */
  lemma ReconcileKeepsRepository(env: Env, d: Detail, w: Work, repository: string)
    ensures Reconcile(env, d, WithRepository(w, repository)) == MapRepository(Reconcile(env, d, w), repository)
    ensures Reconcile(env, d, w).Some? ==> Reconcile(env, d, w).value.prompt == w.prompt
  {
    BudgetKeepsRepository(w, d.stageBudget, repository);
    hide ReconcileStageBudget;
    var staged := ReconcileStageBudget(w, d.stageBudget);
    if staged.Some? {
      var budgeted := if d.interviewBudget.Some? then staged.value.(interviewBudget := d.interviewBudget) else staged.value;
      ProfileKeepsRepository(env, budgeted, d.modelProfile, d.resolvedProfile, repository);
      hide ReconcileResolvedProfile;
    }
  }

  lemma BudgetKeepsRepository(w: Work, sibling: Option<StageBudget>, repository: string)
    ensures ReconcileStageBudget(WithRepository(w, repository), sibling) == MapRepository(ReconcileStageBudget(w, sibling), repository)
    ensures ReconcileStageBudget(w, sibling).Some? ==> ReconcileStageBudget(w, sibling).value.prompt == w.prompt
  {
  }

  lemma ProfileKeepsRepository(env: Env, w: Work, model: Option<string>, resolved: Option<string>, repository: string)
    ensures ReconcileResolvedProfile(env, WithRepository(w, repository), model, resolved) ==
            MapRepository(ReconcileResolvedProfile(env, w, model, resolved), repository)
    ensures var r := ReconcileResolvedProfile(env, w, model, resolved); r.Some? ==> r.value.prompt == w.prompt
  {
  }

  lemma ReconcileAlike(env: Env, d: Detail, e: Detail, w: Work)
    requires SameReceipt(d, e)
    ensures Reconcile(env, d, w) == Reconcile(env, e, w)
  {
  }

  /** The work before the reconcilers, for two details with the same receipt. */
  lemma AdmittedAlike(env: Env, d: Detail, e: Detail)
    requires d.operationalPayload != "" && SameReceipt(d, e)
    requires Admit(env, d).Some? && Admit(env, e).Some?
    ensures WithRepository(Admit(env, d).value, e.prompt.repository) == Admit(env, e).value
    ensures Admit(env, d).value.prompt.repository == d.prompt.repository
    ensures d.prompt.repository != e.prompt.repository ==>
              && Open(env, d.operationalPayload)
              && (d.prompt.repository != "" ==> Entitled(env, d)) && (e.prompt.repository != "" ==> Entitled(env, e))
  {
    var admitted := env.decode(d.operationalPayload).value;
    ResolvedRepository(env, d, admitted);
    ResolvedRepository(env, e, admitted);
  }

  lemma ResolvedRepository(env: Env, d: Detail, admitted: Work)
    requires Resolve(env, d, admitted).Some?
    ensures Resolve(env, d, admitted) == Some(WithRepository(admitted, d.prompt.repository))
  {
    assert WithRepository(admitted, admitted.prompt.repository) == admitted;
  }

  /** Receipt authority: two accepted details with the same payload and the same
      restored fields give the same work item, whatever all their other fields say,
      except for the repository. The repositories differ only where the payload
      names and declares none, and then one of the identity cases authorises each
      repository that was filled in. */
  lemma PayloadDecides(env: Env, d: Detail, e: Detail)
    requires d.operationalPayload != "" && SameReceipt(d, e)
    requires DetailToQueuedWork(env, d).Some? && DetailToQueuedWork(env, e).Some?
    ensures WithRepository(DetailToQueuedWork(env, d).value, e.prompt.repository) == DetailToQueuedWork(env, e).value
    ensures DetailToQueuedWork(env, d).value.prompt.repository == d.prompt.repository
    ensures d.prompt.repository != e.prompt.repository ==>
              && Open(env, d.operationalPayload)
              && (d.prompt.repository != "" ==> Entitled(env, d)) && (e.prompt.repository != "" ==> Entitled(env, e))
  {
    hide SameReceipt, Admit, Reconcile, WithRepository, Open, Entitled;
    AdmittedAlike(env, d, e);
    ReconcileKeepsRepository(env, d, Admit(env, d).value, e.prompt.repository);
    ReconcileAlike(env, d, e, Admit(env, e).value);
  }

  /** The fields of a detail that decide whether a receipted detail is accepted. */
  predicate SameClaim(d: Detail, e: Detail) {
    && d.intent == e.intent && d.prompt.repository == e.prompt.repository && d.prompt.projectName == e.prompt.projectName
    && d.projectId == e.projectId && d.repositoryId == e.repositoryId
  }

  /** With a payload nothing else of the detail matters: not for acceptance and not
      for the result. Everything that is neither in the receipt nor in the claim, the
      whole compatibility mirror, may be changed at will. */
  lemma MirrorIsIgnored(env: Env, d: Detail, e: Detail)
    requires d.operationalPayload != "" && SameReceipt(d, e) && SameClaim(d, e)
    ensures DetailToQueuedWork(env, d) == DetailToQueuedWork(env, e)
  {
    AdmitAlike(env, d, e);
    hide Admit, Reconcile, SameReceipt;
    if Admit(env, d).Some? {
      ReconcileAlike(env, d, e, Admit(env, d).value);
    }
  }

  lemma AdmitAlike(env: Env, d: Detail, e: Detail)
    requires d.operationalPayload != "" && SameReceipt(d, e) && SameClaim(d, e)
    ensures Admit(env, d) == Admit(env, e)
  {
  }

  predicate Restored(env: Env, d: Detail, w: Work) {
    && w.operationalPayload == d.operationalPayload && w.receipts == d.receipts && w.credentials == d.credentials
    && w.capabilities == d.capabilities && w.deferFailureTransition == d.deferFailureTransition
    && (w.coAuthorName, w.coAuthorEmail) == env.coAuthor(d.prompt.sessionId, d.coAuthorName, d.coAuthorEmail)
    && w.intent == d.intent
  }

  lemma AdmittedDetail(env: Env, d: Detail)
    requires Admit(env, d).Some?
    ensures Restored(env, d, Admit(env, d).value)
  {
  }

  lemma ReconcileKeepsRestored(env: Env, d: Detail, w: Work)
    requires Restored(env, d, w) && Reconcile(env, d, w).Some?
    ensures Restored(env, d, Reconcile(env, d, w).value)
  {
  }

  /** Whatever a payload says, the credentials, receipts, capabilities and the failure
      policy of accepted work are those of the detail, and the co-author pair is the
      validated one of the detail. */
  lemma DetailIsRestored(env: Env, d: Detail)
    requires DetailToQueuedWork(env, d).Some?
    ensures Restored(env, d, DetailToQueuedWork(env, d).value)
  {
    AdmittedDetail(env, d);
    hide Admit, Restored;
    ReconcileKeepsRestored(env, d, Admit(env, d).value);
  }

  /** With a payload the stage budget is the payload's, which the detail must repeat;
      without one it is the detail's. */
  lemma BudgetIsAgreed(env: Env, d: Detail)
    requires DetailToQueuedWork(env, d).Some?
    ensures DetailToQueuedWork(env, d).value.stageBudget == d.stageBudget && !Malformed(d.stageBudget)
    ensures d.operationalPayload != "" ==> env.decode(d.operationalPayload).value.stageBudget == d.stageBudget
  {
    var work := Admit(env, d).value;
    assert d.operationalPayload != "" ==> work.stageBudget == env.decode(d.operationalPayload).value.stageBudget;
  }

  /** Without a payload every field of the work item is the detail's. */
  lemma MirrorIsTaken(env: Env, d: Detail)
    requires d.operationalPayload == "" && DetailToQueuedWork(env, d).Some?
    ensures var w := DetailToQueuedWork(env, d).value;
            && w.prompt == d.prompt && w.branch == d.branch && w.terminalWorkareaLease == d.terminalWorkareaLease
            && w.seatBudget == d.seatBudget && w.runtime == NO_RUNTIME && w.interviewBudget == d.interviewBudget
  {
  }

  // ------------------------------------------------------------------ acceptance

  /** The detail belongs to the project of the payload's identity: it repeats the
      identity's project and repository ids, an open repository id included, or, where
      the identity has no ids at all, everybody agrees on the project's name. */
  predicate SameProject(d: Detail, admitted: Work, id: Identity) {
    if id.projectId != "" then
      (d.projectId, d.repositoryId) == (id.projectId, id.repositoryId) && (id.repositoryId != "" || id.requiresRepository)
    else
      && id.repositoryId == "" && !id.requiresRepository && id.projectName != ""
      && {admitted.prompt.projectName, d.prompt.projectName} == {id.projectName}
  }

  lemma AuthorisedIff(d: Detail, admitted: Work, id: Identity)
    ensures Authorised(d, admitted, id) <==> SameProject(d, admitted, id)
  {
  }

  /** The repository of the detail is the payload's, or fills in the one that the
      payload, its declaration and its identity all leave open. */
  ghost predicate RepositoryOk(env: Env, d: Detail, admitted: Work) {
    d.prompt.repository == admitted.prompt.repository
    || (admitted.prompt.repository == "" && admitted.intent.repositoryDeclaration == None
        && exists id :: env.identity(d.operationalPayload) == Some(id) && id.repository == "" && SameProject(d, admitted, id))
  }

  lemma ResolvedIff(env: Env, d: Detail, admitted: Work)
    ensures Resolve(env, d, admitted).Some? <==> RepositoryOk(env, d, admitted)
  {
    var identity := env.identity(d.operationalPayload);
    if identity.Some? {
      AuthorisedIff(d, admitted, identity.value);
    }
  }

  /** Both validators accept the payload, and it decodes to work with the detail's
      workarea intent, repository and stage budget. */
  ghost predicate PayloadOk(env: Env, d: Detail) {
    && env.baseRefOk(d.operationalPayload) && env.securityOk(d.operationalPayload)
    && exists w :: env.decode(d.operationalPayload) == Some(w) && w.intent == d.intent && RepositoryOk(env, d, w)
                   && w.stageBudget == d.stageBudget
  }

  predicate BudgetOk(budget: Option<StageBudget>) {
    budget.Some? ==> budget.value.maxDurationSeconds >= -1
  }

  predicate ProfileOk(env: Env, d: Detail) {
    d.modelProfile.Some? || d.resolvedProfile.Some? ==> env.profile(d.modelProfile, d.resolvedProfile).Some?
  }

  /** Exactly these details become work. */
  lemma AcceptedIff(env: Env, d: Detail)
    ensures DetailToQueuedWork(env, d).Some? <==>
              (d.operationalPayload != "" ==> PayloadOk(env, d)) && BudgetOk(d.stageBudget) && ProfileOk(env, d)
  {
    if d.operationalPayload != "" && env.decode(d.operationalPayload).Some? {
      ResolvedIff(env, d, env.decode(d.operationalPayload).value);
    }
    hide RepositoryOk;
  }

  /** `w` has what `p` says about the work itself. */
  predicate SameWork(w: Work, p: Work, repository: string) {
    && w.prompt == p.prompt.(repository := repository) && w.branch == p.branch
    && w.terminalWorkareaLease == p.terminalWorkareaLease && w.seatBudget == p.seatBudget && w.runtime == p.runtime
  }

  lemma AdmittedPayload(env: Env, d: Detail)
    requires d.operationalPayload != "" && Admit(env, d).Some?
    ensures env.decode(d.operationalPayload).Some?
    ensures var w, p := Admit(env, d).value, env.decode(d.operationalPayload).value;
            && SameWork(w, p, d.prompt.repository)
            && w.interviewBudget == p.interviewBudget && w.resolvedProfile == p.resolvedProfile
  {
    ResolvedRepository(env, d, env.decode(d.operationalPayload).value);
    hide Resolve;
  }

  lemma ReconcileKeepsWork(env: Env, d: Detail, w: Work, p: Work, repository: string)
    requires SameWork(w, p, repository) && Reconcile(env, d, w).Some?
    ensures var r := Reconcile(env, d, w).value;
            && SameWork(r, p, repository)
            && r.interviewBudget == (if d.interviewBudget.Some? then d.interviewBudget else w.interviewBudget)
            && (d.modelProfile == d.resolvedProfile == None ==> r.resolvedProfile == w.resolvedProfile)
  {
  }

  /** With a payload all that the detail does not restore is the payload's, the
      repository apart, which the detail may have filled in. */
  lemma PayloadIsTaken(env: Env, d: Detail)
    requires d.operationalPayload != "" && DetailToQueuedWork(env, d).Some?
    ensures env.decode(d.operationalPayload).Some?
    ensures var w, p := DetailToQueuedWork(env, d).value, env.decode(d.operationalPayload).value;
            && SameWork(w, p, d.prompt.repository)
            && w.interviewBudget == (if d.interviewBudget.Some? then d.interviewBudget else p.interviewBudget)
            && (d.modelProfile == d.resolvedProfile == None ==> w.resolvedProfile == p.resolvedProfile)
  {
    AdmittedPayload(env, d);
    hide Admit, SameWork, Reconcile;
    ReconcileKeepsWork(env, d, Admit(env, d).value, env.decode(d.operationalPayload).value, d.prompt.repository);
  }

  /** A profile of the detail decides, whatever the payload says. */
  lemma ProfileIsTaken(env: Env, d: Detail)
    requires DetailToQueuedWork(env, d).Some?
    ensures d.modelProfile.Some? || d.resolvedProfile.Some? ==>
              DetailToQueuedWork(env, d).value.resolvedProfile == env.profile(d.modelProfile, d.resolvedProfile)
    ensures d.modelProfile == d.resolvedProfile == None && d.operationalPayload == "" ==>
              DetailToQueuedWork(env, d).value.resolvedProfile == None
  {
  }
}
