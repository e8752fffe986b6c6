/** What the steps of a GitRepo's pipeline may do, as relations, and what a run of the whole list
    comes to by the laws of step lists. */
module GitRepoSteps {
  import opened Wrappers
  import opened Pipeline
  import opened GitRepoEvents

  datatype StepName = CopyOriginal | DeletionCheck | GitSpecific | TenantLabel | CommonSteps
                    | HandleDeletion | DeletionProtection | HandleFinalizer | UpdateObject

  const REPO_STEPS := [CopyOriginal, DeletionCheck, GitSpecific, TenantLabel, CommonSteps]
  const COMMON_STEPS := [HandleDeletion, DeletionProtection, HandleFinalizer, UpdateObject]

  /** What a run works on: the object in memory, the copy made at the start, the deletion flag and
      what has happened, this run's part beginning at start; read is the object as the API server
      last gave it, and stored the object it holds; env is the rest of the world. calm says that
      nothing fails and nobody interferes. */
  datatype Snap = Snap(
    inst: Object, orig: Object, deleted: bool, log: Log, start: nat, read: Object, stored: Option<Object>, env: Env,
    calm: bool)

  /** What the object in memory says is what the API server gave in this run. */
  ghost predicate Begun(s: Snap) {
    Grounded(s.log, s.start, s.inst)
  }

  ghost predicate NoObjectWrite(a: Snap, b: Snap) {
    forall k :: |a.log| <= k < |b.log| ==> !b.log[k].ObjectWritten?
  }

  /** Nobody else has written the object since the run began, so that it can be written. */
  predicate InSync(s: Snap) {
    && s.calm && s.stored.Some? && s.stored.value.rv == s.inst.rv
    && s.stored.value.meta == s.orig.meta && s.stored.value.spec == s.orig.spec
    && s.inst.meta.deleting == s.orig.meta.deleting && s.inst.spec.tenant == s.orig.spec.tenant
  }

  /** A project that exists was somebody else's, and the run said so. */
  ghost predicate RefusedSince(log: Log, from: nat) {
    exists k :: from <= k < |log| && log[k].RefusedForeign?
  }

  lemma RefusedStays(log: Log, log': Log, from: nat)
    requires log <= log' && RefusedSince(log, from)
    ensures RefusedSince(log', from)
  {
    var k :| from <= k < |log| && log[k].RefusedForeign?;
    assert log'[k] == log[k];
  }

  /** The stored object is o, status and version aside, or has gone with its last finalizer. */
  predicate Landed(o: Object, stored: Option<Object>) {
    if stored.None? then o.meta.deleting && o.meta.finalizers == {}
    else stored.value.meta == o.meta && stored.value.spec == o.spec
  }

  /** The git steps leave storing and reading the object to others, remove a project only for an
      object being deleted, and work on one only for a live object. */
  predicate Fits(deleted: bool, e: Event) {
    !e.ObjectWritten? && !e.ObjectServed? && (e.Touched? ==> (e.call.RemoveRepo? <==> deleted))
  }

  ghost predicate Fitting(deleted: bool, log: Log, from: nat) {
    forall k :: from <= k < |log| ==> Fits(deleted, log[k])
  }

  /** From a to b the run moved on without storing the object or touching its identity. */
  ghost predicate Along(a: Snap, b: Snap) {
    && a.log <= b.log && Fitting(a.deleted, b.log, |a.log|) && b.start == a.start
    && b.deleted == a.deleted && b.orig == a.orig && a.inst.meta == b.inst.meta && a.read.meta == b.read.meta
    && (InSync(a) ==> InSync(b) && b.env.config == a.env.config)
  }

  lemma AlongTransitive(a: Snap, b: Snap, c: Snap)
    requires Along(a, b) && Along(b, c)
    ensures Along(a, c)
  {
    forall k | |a.log| <= k < |c.log| ensures Fits(a.deleted, c.log[k]) {
      assert k < |b.log| ==> c.log[k] == b.log[k];
    }
  }

  /** Removing the project of an object that is being deleted. */
  lemma RemovedAlong(a: Snap, b: Snap, url: string, rest: Log)
    requires a.deleted && b == a.(log := b.log, env := b.env) && b.env.config == a.env.config
    requires b.log == a.log + [Touched(RemoveRepo, url)] + rest
    requires rest == [] || (|rest| == 1 && rest[0].Removed?)
    ensures Along(a, b)
    ensures forall k :: |a.log| <= k < |b.log| ==> !b.log[k].CreateCalled?
  {
    assert forall k :: |a.log| <= k < |b.log| ==> b.log[k] in [Touched(RemoveRepo, url)] + rest;
  }

  const APPLY_CALLS := [EnsureToken, EnsureVariables, CommitFiles, UpdateRepo]

  /** The calls that apply the spec to the project, the first n of them. */
  function Applied(url: string, n: nat): Log
    requires n <= |APPLY_CALLS|
  {
    seq(n, i requires 0 <= i < n => Touched(APPLY_CALLS[i], url))
  }

  predicate AppliedAt(log: Log, i: nat, url: string) {
    && i + 4 <= |log|
    && log[i] == Touched(EnsureToken, url) && log[i + 1] == Touched(EnsureVariables, url)
    && log[i + 2] == Touched(CommitFiles, url) && log[i + 3] == Touched(UpdateRepo, url)
  }

  /** The spec was applied in full to the project that the client of this run is for. */
  ghost predicate SpecApplied(log: Log, start: nat, from: nat, url: string) {
    ClientAt(log, start, url) && exists i :: from <= i && AppliedAt(log, i, url)
  }

  lemma SpecAppliedStays(log: Log, log': Log, start: nat, from: nat, url: string)
    requires log <= log' && SpecApplied(log, start, from, url)
    ensures SpecApplied(log', start, from, url)
  {
    GrowingKeeps(log, log', start);
    var i :| from <= i && AppliedAt(log, i, url);
    assert AppliedAt(log', i, url);
  }

  /** Why a run without an error need do no more: a deleting object may go, and a live one has
      its spec applied or is not to be managed. */
  ghost predicate Finished(deleted: bool, log: Log, start: nat, from: nat) {
    if deleted then ExcusedSince(log, start, from)
    else UnmanagedSince(log, start, from) || exists url :: SpecApplied(log, start, from, url)
  }

  lemma FinishedStays(deleted: bool, log: Log, log': Log, start: nat, from: nat, from': nat)
    requires log <= log' && from' <= from && Finished(deleted, log, start, from)
    ensures Finished(deleted, log', start, from')
  {
    FoundStays(log, log', start, from);
    if url :| SpecApplied(log, start, from, url) {
      SpecAppliedStays(log, log', start, from, url);
      assert SpecApplied(log', start, from', url);
    }
  }

  // ---- The undisturbed git steps ----

  ghost predicate CreatedSince(log: Log, from: nat, url: string) {
    exists k :: from <= k < |log| && log[k] == CreateCalled(url)
  }

  predicate MayTouch(o: Object, url: string, remote: Projects) {
    url !in remote || o.status.url == url || o.spec.template.Adopts()
  }

  /** The status once the spec is applied to the project at url. */
  function Done(status: Status, url: string): Status {
    status.(url := url, phase := Some(Created))
  }

  /** What becomes of the project at url: left alone if it is somebody else's, and otherwise
      there for a live object, disposed of for one being deleted. One that is absent is
      created first even then. */
  ghost predicate CalmProject(a: Snap, b: Snap, r: Result, url: string, policy: DeletionPolicy) {
    var may := MayTouch(a.inst, url, a.env.remote);
    && (r.err.None? <==> may || a.deleted) && OnlyAt(url, a.env.remote, b.env.remote)
    && (CreatedSince(b.log, |a.log|, url) <==> url !in a.env.remote)
    && (!may ==> b.env == a.env && (a.deleted || RefusedSince(b.log, |a.log|)))
    && (may && a.deleted ==> Disposed(policy, url, b.env.remote))
    && (may && a.deleted && url in a.env.remote ==> DisposedOf(policy, url, a.env.remote, b.env.remote))
    && (may && !a.deleted ==> url in b.env.remote && b.inst.status == Done(a.inst.status, url))
    && (may && !a.deleted ==>
          if url in a.env.remote then b.inst.(status := a.inst.status) == a.inst && b.stored == a.stored
          else a.stored.Some? && b.inst.spec == Overlaid(a.inst.spec, a.stored.value.spec)
               && b.stored.Some? && b.stored.value.status.url == url)
  }

  /** The project is there, found or created, and if created then with the claim stored first. */
  ghost predicate CalmEnsured(a: Snap, b: Snap, url: string) {
    && OnlyAt(url, a.env.remote, b.env.remote) && url in b.env.remote
    && (CreatedSince(b.log, |a.log|, url) <==> url !in a.env.remote)
    && if url in a.env.remote then b.inst == a.inst && b.stored == a.stored && b.env == a.env
       else
         && a.stored.Some? && b.inst.spec == Overlaid(a.inst.spec, a.stored.value.spec)
         && b.inst.status == a.inst.status.(url := url, phase := Some(Creating))
         && b.stored.Some? && b.stored.value.status == b.inst.status
  }

  lemma CreatedEarlier(log: Log, log': Log, from: nat, url: string)
    requires log <= log' && from <= |log|
    requires forall k :: |log| <= k < |log'| ==> !log'[k].CreateCalled?
    ensures CreatedSince(log, from, url) <==> CreatedSince(log', from, url)
  {
    assert forall k :: 0 <= k < |log| ==> log'[k] == log[k];
  }

  lemma CreatedLater(log: Log, log': Log, from: nat, url: string)
    requires log <= log' && from <= |log|
    requires forall k :: from <= k < |log| ==> !log[k].CreateCalled?
    ensures CreatedSince(log', |log|, url) <==> CreatedSince(log', from, url)
  {
    assert forall k :: 0 <= k < |log| ==> log'[k] == log[k];
  }

  /** A project ensured and then worked on. */
  lemma EnsuredAndApplied(a: Snap, mid: Snap, b: Snap, r: Result, url: string, policy: DeletionPolicy)
    requires CalmEnsured(a, mid, url) && MayTouch(a.inst, url, a.env.remote) && !a.deleted
    requires a.log <= mid.log <= b.log && r.err.None?
    requires forall k :: |mid.log| <= k < |b.log| ==> !b.log[k].CreateCalled?
    requires b.env.remote.Keys == mid.env.remote.Keys && OnlyAt(url, mid.env.remote, b.env.remote)
    requires b.inst == mid.inst.(status := Done(mid.inst.status, url)) && b.stored == mid.stored
    ensures CalmProject(a, b, r, url, policy)
  {
    CreatedEarlier(mid.log, b.log, |a.log|, url);
  }

  lemma EnsuredAndRemoved(a: Snap, mid: Snap, b: Snap, r: Result, url: string, policy: DeletionPolicy)
    requires CalmEnsured(a, mid, url) && MayTouch(a.inst, url, a.env.remote) && a.deleted
    requires a.log <= mid.log <= b.log && r.err.None?
    requires forall k :: |mid.log| <= k < |b.log| ==> !b.log[k].CreateCalled?
    requires DisposedOf(policy, url, mid.env.remote, b.env.remote)
    ensures CalmProject(a, b, r, url, policy)
  {
    CreatedEarlier(mid.log, b.log, |a.log|, url);
  }

  /** From the project's point of view: what the steps do once there is a client. */
  ghost predicate ProjectRel(a: Snap, b: Snap, r: Result, url: string, policy: DeletionPolicy) {
    && Along(a, b) && !r.abort && !r.requeue
    && (r.err.None? ==>
          if a.deleted then ExcusedSince(b.log, a.start, |a.log|)
          else b.inst.status.phase == Some(Created) && b.inst.status.url == url
               && SpecApplied(b.log, a.start, |a.log|, url))
    && (InSync(a) ==> CalmProject(a, b, r, url, policy))
  }

  /** The object with the template in force. */
  function Prepared(o: Object, env: Env): Object {
    o.(spec := o.spec.(template := InForce(o.spec.template, env.config)))
  }

  /** The object the steps work with once there is a client. */
  function WithClient(o: Object, env: Env): Object {
    Prepared(o, env).(status := o.status.(hostKeys := env.config.endpoint.hostKeys))
  }

  /** The template fetched, and the client made unless the project is not to be managed. */
  ghost predicate CalmPrepared(a: Snap, b: Snap, url: string, policy: DeletionPolicy) {
    var o := WithClient(a.inst, a.env);
    && b.stored == a.stored && b.env == a.env
    && (forall k :: |a.log| <= k < |b.log| ==> !b.log[k].CreateCalled?)
    && if o.spec.template.IsUnmanaged() then url == "" && b.inst == Prepared(a.inst, a.env)
       else url == a.env.Url() && b.inst == o && policy == o.spec.template.Policy()
  }

  ghost predicate CalmGit(a: Snap, b: Snap, r: Result) {
    var o := WithClient(a.inst, a.env);
    if o.spec.template.IsUnmanaged() then
      && r.err.None? && b.inst == Prepared(a.inst, a.env) && b.stored == a.stored && b.env == a.env
      && !CreatedSince(b.log, |a.log|, a.env.Url())
    else
      CalmProject(a.(inst := o), b, r, a.env.Url(), o.spec.template.Policy())
  }

  ghost predicate GitRel(a: Snap, b: Snap, r: Result) {
    && Along(a, b) && !r.abort && !r.requeue
    && (r.err.None? ==> Finished(a.deleted, b.log, a.start, |a.log|))
    && (InSync(a) ==> CalmGit(a, b, r))
  }

  /** The git steps are their preparation and then the project's steps. */
  lemma PreparedAndDone(a: Snap, mid: Snap, b: Snap, r: Result, url: string, policy: DeletionPolicy)
    requires Along(a, mid) && mid.log <= b.log && url != ""
    requires InSync(a) ==> CalmPrepared(a, mid, url, policy)
    requires ProjectRel(mid, b, r, url, policy)
    ensures GitRel(a, b, r)
  {
    AlongTransitive(a, mid, b);
    if r.err.None? {
      assert a.deleted || SpecApplied(b.log, a.start, |mid.log|, url);
      FinishedStays(a.deleted, b.log, b.log, a.start, |mid.log|, |a.log|);
    }
    if InSync(a) {
      CreatedLater(mid.log, b.log, |a.log|, url);
      assert CalmProject(mid, b, r, url, policy);
    }
  }

  function WithProtection(annotations: map<string, string>, protect: bool): map<string, string> {
    if protect && PROTECT_ANNOTATION !in annotations then annotations[PROTECT_ANNOTATION := "true"] else annotations
  }

  predicate Deletable(o: Object) {
    RepoFinalizer in o.meta.finalizers && !Protected(o.meta.annotations)
  }

  ghost predicate StoredOnce(a: Snap, b: Snap) {
    && |b.log| == |a.log| + 1 && b.log[..|a.log|] == a.log
    && var e := b.log[|a.log|];
    && e.ObjectWritten? && e.written == a.inst && e.before.meta == a.read.meta
  }

  /** The object in memory differs from the stored one, status and version aside. */
  predicate ObjectChanged(s: Snap) {
    s.stored.Some? && (s.inst.meta != s.stored.value.meta || s.inst.spec != s.stored.value.spec)
  }

  /** The status that the API server ends up with: the one in memory exactly if that differs
      from the one at the start and the object is not stored. */
  function EndStatus(s: Snap): Status
    requires s.stored.Some?
  {
    if s.inst.status != s.orig.status && !ObjectChanged(s) then s.inst.status else s.stored.value.status
  }

  /** The object, and its status as far as it gets there, are stored; if there is nothing to
      store, nothing is written. */
  predicate CalmUpdate(a: Snap, b: Snap, r: Result)
    requires InSync(a)
  {
    && Landed(a.inst, b.stored)
    && (b.stored.Some? ==> r.err.None? && b.stored.value.status == EndStatus(a))
    && (!ObjectChanged(a) && a.inst.status == a.orig.status ==> b.stored == a.stored)
  }

  /** The object is stored at most once, as it is in memory; if it is, its status is not. */
  ghost predicate UpdateRel(a: Snap, b: Snap, r: Result) {
    && b.(log := a.log, stored := a.stored, env := a.env) == a
    && (a.calm ==> b.env == a.env)
    && (b.log == a.log || StoredOnce(a, b) || b.log == a.log + [StatusWritten(a.inst.status)])
    && (r.abort ==> r.err.None? && !r.requeue) && (r.err.Some? ==> !r.requeue)
    && (r.abort || r.err.Some? || r.requeue)
    && (InSync(a) ==> CalmUpdate(a, b, r))
  }

  function Held(o: Object): Object {
    o.(meta := o.meta.(finalizers := o.meta.finalizers + {RepoFinalizer}))
  }

  function Released(o: Object): Object {
    o.(meta := o.meta.(finalizers := o.meta.finalizers - {RepoFinalizer}))
  }

  function Marked(o: Object, protect: bool): Object {
    o.(meta := o.meta.(annotations := WithProtection(o.meta.annotations, protect)))
  }

  /** The object as the common steps store it. */
  function Outgoing(o: Object, deleted: bool, protect: bool): Object {
    if deleted then Released(o) else Held(Marked(o, protect))
  }

  ghost predicate CommonRel(protect: bool, a: Snap, b: Snap, r: Result) {
    && a.log <= b.log && !r.abort && !r.requeue
    && (a.deleted && !Deletable(a.inst) ==> r.err.Some? && b == a)
    && (a.calm ==> b.env == a.env) && b.start == a.start
    && (InSync(a) && (a.deleted ==> Deletable(a.inst)) ==>
          CalmUpdate(a.(inst := Outgoing(a.inst, a.deleted, protect)), b, r))
    && forall k :: |a.log| <= k < |b.log| ==>
         && (b.log[k].ObjectWritten? || b.log[k].StatusWritten?)
         && (b.log[k].ObjectWritten? ==>
               b.log[k].written == Outgoing(a.inst, a.deleted, protect) && b.log[k].before.meta == a.read.meta)
         && (a.deleted ==> Deletable(a.inst))
  }

  function Labelled(o: Object): Object {
    o.(meta := o.meta.(labels := o.meta.labels[TENANT_LABEL := o.spec.tenant]))
  }

  ghost predicate StepRel(step: StepName, protect: bool, a: Snap, b: Snap, r: Result) {
    match step
    case CopyOriginal => b == a.(orig := a.inst) && r == PROCEED
    case DeletionCheck => b == a.(deleted := a.deleted || a.inst.meta.deleting) && r == PROCEED
    case GitSpecific => GitRel(a, b, r)
    case TenantLabel => b == a.(inst := Labelled(a.inst)) && r == PROCEED
    case CommonSteps => CommonRel(protect, a, b, r)
    case HandleDeletion => b == a && !r.abort && (r.err.Some? <==> a.deleted && !Deletable(a.inst)) && !r.requeue
    case DeletionProtection => b == (if a.deleted then a else a.(inst := Marked(a.inst, protect))) && r == PROCEED
    case HandleFinalizer => b == a.(inst := if a.deleted then Released(a.inst) else Held(a.inst)) && r == PROCEED
    case UpdateObject => UpdateRel(a, b, r)
  }

  /** The git steps are preceded by none but steps that leave the object as it was read. */
  predicate GitEarly(steps: seq<StepName>) {
    forall i, j :: 0 <= i < j < |steps| && steps[j] == GitSpecific ==> steps[i] in {CopyOriginal, DeletionCheck}
  }

  predicate GitAhead(steps: seq<StepName>, i: nat) {
    exists j :: i <= j < |steps| && steps[j] == GitSpecific
  }

  /** As long as the git steps are to come, what they rest on stays. */
  lemma BegunStill(steps: seq<StepName>, i: nat, protect: bool, a: Snap, b: Snap, r: Result)
    requires GitEarly(steps) && i < |steps| && StepRel(steps[i], protect, a, b, r)
    requires GitAhead(steps, i) ==> Begun(a)
    ensures GitAhead(steps, i + 1) ==> Begun(b)
  {
    if j :| i + 1 <= j < |steps| && steps[j] == GitSpecific {
      assert steps[i] in {CopyOriginal, DeletionCheck};
    }
  }

  // ---- Runs of a list ----

  /** What a run recorded, as a list of steps: the k-th leads to the next snapshot with its answer. */
  ghost function Replay(trace: seq<Snap>, answers: seq<Result>, n: nat): seq<Step<Snap>> {
    seq(n, k requires 0 <= k < n => Step("", (s: Snap) =>
      if k < |answers| && k + 1 < |trace| then (trace[k + 1], answers[k]) else (s, PROCEED)))
  }

  /** A run of a list: each step that ran did what it does, and where the run stopped and what
      it answered is what running the list means. */
  ghost predicate Ran(steps: seq<StepName>, protect: bool, trace: seq<Snap>, answers: seq<Result>, r: Result) {
    && |answers| <= |steps| && |trace| == |answers| + 1
    && (forall k :: 0 <= k < |answers| ==> StepRel(steps[k], protect, trace[k], trace[k + 1], answers[k]))
    && var e := Run(Replay(trace, answers, |steps|), trace[0]);
    && e.ran == |answers| && e.state == trace[|answers|]
    && r.abort == e.result.abort && r.requeue == e.result.requeue && (r.err.Some? <==> e.result.err.Some?)
  }

  /** Where a recorded run stops. */
  lemma {:induction false} ReplayFrom(trace: seq<Snap>, answers: seq<Result>, n: nat, k: nat)
    requires k <= |answers| <= n && |trace| == |answers| + 1
    requires forall i :: 0 <= i < |answers| - 1 ==> !answers[i].Stops()
    requires |answers| < n ==> k < |answers| && answers[|answers| - 1].Stops()
    ensures var e := Run(Replay(trace, answers, n)[k..], trace[k]);
      && e.ran == |answers| - k && e.state == trace[|answers|]
      && e.result == if answers != [] && k < |answers| && answers[|answers| - 1].Stops()
                     then Stopped("", answers[|answers| - 1]) else PROCEED
    decreases |answers| - k
  {
    var xs := Replay(trace, answers, n);
    if k < |answers| {
      assert xs[k..][0] == xs[k] && xs[k..][1..] == xs[k + 1..];
      assert xs[k].run(trace[k]) == (trace[k + 1], answers[k]);
      if !answers[k].Stops() {
        ReplayFrom(trace, answers, n, k + 1);
      }
    }
  }

  /** r is the answer of a list whose steps answered like this. */
  predicate AnswersTo(answers: seq<Result>, r: Result) {
    if answers != [] && answers[|answers| - 1].Stops() then
      var last := answers[|answers| - 1];
      !r.abort && (r.err.Some? <==> last.err.Some?) && r.requeue == (last.err.None? && last.requeue)
    else r == PROCEED
  }

  /** A trace whose answers let the list go on until the last one is a run of the list. */
  lemma Recorded(steps: seq<StepName>, protect: bool, trace: seq<Snap>, answers: seq<Result>, r: Result)
    requires |answers| <= |steps| && |trace| == |answers| + 1
    requires forall k :: 0 <= k < |answers| ==> StepRel(steps[k], protect, trace[k], trace[k + 1], answers[k])
    requires forall i :: 0 <= i < |answers| - 1 ==> !answers[i].Stops()
    requires |answers| < |steps| ==> answers != [] && answers[|answers| - 1].Stops()
    requires AnswersTo(answers, r)
    ensures Ran(steps, protect, trace, answers, r)
  {
    ReplayFrom(trace, answers, |steps|, 0);
    assert Replay(trace, answers, |steps|)[0..] == Replay(trace, answers, |steps|);
  }

  /** By the law of lists: no step before the last one that ran has stopped the list, that one has
      if steps are left, and the answer has an error exactly if that one has. */
  lemma RanAnswers(steps: seq<StepName>, protect: bool, trace: seq<Snap>, answers: seq<Result>, r: Result)
    requires Ran(steps, protect, trace, answers, r)
    ensures !r.abort
    ensures forall k :: 0 <= k < |answers| - 1 ==> !answers[k].Stops()
    ensures steps != [] ==> answers != []
    ensures answers != [] ==>
      var last := answers[|answers| - 1];
      && (|answers| < |steps| ==> last.Stops())
      && (r.err.Some? <==> last.err.Some?) && (r.requeue ==> last.abort && last.requeue)
  {
    var xs := Replay(trace, answers, |steps|);
    AnswerOfList(xs, trace[0]);
    forall k | 0 <= k < |answers| ensures StepAnswer(xs, trace[0], k) == (trace[k + 1], answers[k]) {}
  }

  lemma GoesOut(protect: bool, a: Snap, b: Snap, c: Snap, rp: Result, rf: Result)
    requires StepRel(DeletionProtection, protect, a, b, rp) && StepRel(HandleFinalizer, protect, b, c, rf)
    ensures c == a.(inst := Outgoing(a.inst, a.deleted, protect))
  {
  }

  /** The common steps up to the update, which gets the object as it is to be stored. */
  lemma CommonBegins(protect: bool, trace: seq<Snap>, answers: seq<Result>, r: Result)
    requires Ran(COMMON_STEPS, protect, trace, answers, r)
    ensures !r.abort && !r.requeue
    ensures var a := trace[0];
      if a.deleted && !Deletable(a.inst) then |answers| == 1 && trace[1] == a && r.err.Some?
      else
        && |answers| == 4
        && UpdateRel(a.(inst := Outgoing(a.inst, a.deleted, protect)), trace[4], answers[3])
        && (r.err.Some? <==> answers[3].err.Some?)
  {
    RanAnswers(COMMON_STEPS, protect, trace, answers, r);
    assert StepRel(HandleDeletion, protect, trace[0], trace[1], answers[0]);
    if !answers[0].Stops() {
      assert |answers| > 1;
      assert StepRel(DeletionProtection, protect, trace[1], trace[2], answers[1]);
      assert |answers| > 2;
      assert StepRel(HandleFinalizer, protect, trace[2], trace[3], answers[2]);
      GoesOut(protect, trace[1], trace[2], trace[3], answers[1], answers[2]);
      assert |answers| > 3;
      assert StepRel(UpdateObject, protect, trace[3], trace[4], answers[3]);
    }
  }

  /** Only an object that is being deleted, is not protected and still had the finalizer is
      ever stored without it. */
  lemma CommonRan(protect: bool, trace: seq<Snap>, answers: seq<Result>, r: Result)
    requires Ran(COMMON_STEPS, protect, trace, answers, r)
    ensures CommonRel(protect, trace[0], trace[|trace| - 1], r)
  {
    CommonBegins(protect, trace, answers, r);
  }

  /** A part of the status that an undisturbed run of a live object has changed is stored by
      the end of the run exactly as the sequel says. */
  lemma StatusStoredIff<T>(protect: bool, a: Snap, b: Snap, r: Result, part: Status -> T)
    requires CommonRel(protect, a, b, r) && InSync(a) && !a.deleted && !a.inst.meta.deleting
    requires part(a.inst.status) != part(a.orig.status)
    ensures b.stored.Some?
    ensures part(b.stored.value.status) == part(a.inst.status) <==>
      Sequel(part(a.stored.value.status) == part(a.inst.status), r.err.Some?,
             ObjectChanged(a.(inst := Outgoing(a.inst, false, protect)))).StoresStatus()
  {
  }

  /** The first three steps: the copy, the deletion flag, and the git steps. */
  lemma RepoBegins(protect: bool, trace: seq<Snap>, answers: seq<Result>, r: Result)
    requires Ran(REPO_STEPS, protect, trace, answers, r) && !trace[0].deleted
    ensures |answers| == 3 || |answers| == 5
    ensures trace[2] == trace[0].(orig := trace[0].inst, deleted := trace[0].inst.meta.deleting)
    ensures GitRel(trace[2], trace[3], answers[2])
    ensures |answers| == 3 ==> answers[2].Stops() && (r.err.Some? <==> answers[2].err.Some?)
    ensures |answers| == 5 ==>
      && !answers[2].Stops() && trace[4] == trace[3].(inst := Labelled(trace[3].inst))
      && CommonRel(protect, trace[4], trace[5], answers[4]) && (r.err.Some? <==> answers[4].err.Some?)
    ensures !r.requeue
  {
    RanAnswers(REPO_STEPS, protect, trace, answers, r);
    assert StepRel(CopyOriginal, protect, trace[0], trace[1], answers[0]);
    assert |answers| > 1;
    assert StepRel(DeletionCheck, protect, trace[1], trace[2], answers[1]);
    assert |answers| > 2;
    assert StepRel(GitSpecific, protect, trace[2], trace[3], answers[2]);
    if |answers| > 3 {
      assert StepRel(TenantLabel, protect, trace[3], trace[4], answers[3]);
      assert |answers| > 4;
      assert StepRel(CommonSteps, protect, trace[4], trace[5], answers[4]);
    }
  }

  predicate JustRead(s: Snap) {
    s.start == |s.log| - 1 && s.log[s.start] == ObjectServed(s.inst)
  }

  /** A run that began with reading the object does by right what it does, does not store it at
      all if it is being deleted and protected, and is finished unless it errs. */
  lemma RepoRan(protect: bool, trace: seq<Snap>, answers: seq<Result>, r: Result)
    requires Ran(REPO_STEPS, protect, trace, answers, r) && !trace[0].deleted && trace[0].read == trace[0].inst
    requires JustRead(trace[0])
    ensures trace[0].log <= trace[|trace| - 1].log && trace[|trace| - 1].start == trace[0].start && !r.requeue
    ensures var a, b := trace[0], trace[|trace| - 1];
            forall k :: |a.log| <= k < |b.log| ==> !b.log[k].ObjectServed? && DoneOk(b.log, a.start, k)
    ensures trace[0].inst.meta.deleting && Protected(trace[0].inst.meta.annotations) ==>
              NoObjectWrite(trace[0], trace[|trace| - 1])
    ensures r.err.None? ==>
              Finished(trace[0].inst.meta.deleting, trace[|trace| - 1].log, trace[0].start, trace[0].start)
  {
    RepoBegins(protect, trace, answers, r);
    var a, b := trace[0], trace[|trace| - 1];
    if |answers| == 5 {
      if r.err.None? {
        FinishedStays(a.inst.meta.deleting, trace[3].log, b.log, a.start, |a.log|, a.start);
      }
      forall k | |a.log| <= k < |b.log|
        ensures !b.log[k].ObjectServed? && DoneOk(b.log, a.start, k)
        ensures b.log[k].ObjectWritten? ==> !(a.inst.meta.deleting && Protected(a.inst.meta.annotations))
      {
        DoneAfterGit(protect, a, trace[2], trace[3], trace[4], b, answers[2], answers[4], k);
      }
    }
  }

  lemma DoneAfterGit(protect: bool, a: Snap, git: Snap, g: Snap, c: Snap, b: Snap, rg: Result, rc: Result, k: nat)
    requires git == a.(orig := a.inst, deleted := a.inst.meta.deleting) && GitRel(git, g, rg) && !rg.Stops()
    requires c == g.(inst := Labelled(g.inst)) && CommonRel(protect, c, b, rc)
    requires a.read == a.inst && a.start < |a.log| && a.log[a.start] == ObjectServed(a.inst)
    requires |a.log| <= k < |b.log|
    ensures !b.log[k].ObjectServed? && DoneOk(b.log, a.start, k)
    ensures b.log[k].ObjectWritten? ==> !(a.inst.meta.deleting && Protected(a.inst.meta.annotations))
  {
    assert b.log[a.start] == a.log[a.start];
    if k < |c.log| {
      assert b.log[k] == c.log[k] && Fits(c.deleted, c.log[k]);
    } else if c.deleted {
      var j :| |a.log| <= j < |c.log| && Excuse(c.log, a.start, j);
      assert b.log[..j] == c.log[..j] && b.log[j] == c.log[j];
      assert Excuse(b.log, a.start, j);
    }
  }

  // ---- The undisturbed run ----

  /** The object as the next undisturbed run of a live object stores it. */
  function Next(protect: bool, o: Object, env: Env): Object {
    Outgoing(Labelled(Prepared(o, env)), false, protect)
  }

  /** How many undisturbed runs away a live object is from having everything stored. The first
      creates the project, the next stores the object, which costs it its status, and the last
      stores that. */
  function Distance(protect: bool, o: Object, env: Env): nat {
    var (url, shaped) := (env.Url(), Next(protect, o, env) == o);
    if Prepared(o, env).spec.template.IsUnmanaged() then (if shaped then 0 else 1)
    else if url !in env.remote then 3
    else if !shaped then 2
    else if o.status != Done(WithClient(o, env).status, url) then 1
    else 0
  }

  /** A live object that no undisturbed run refuses. */
  predicate Admissible(o: Object, env: Env) {
    && !o.meta.deleting
    && (Prepared(o, env).spec.template.IsUnmanaged() || MayTouch(Prepared(o, env), env.Url(), env.remote))
  }

  /** The undisturbed run takes a step towards everything being stored, and then does nothing. */
  ghost predicate Advances(protect: bool, o: Object, env: Env, o': Object, env': Env) {
    && Admissible(o', env')
    && (if Distance(protect, o, env) == 0 then o' == o && Distance(protect, o', env') == 0
        else Distance(protect, o', env') < Distance(protect, o, env))
  }

  /** What a run nobody disturbs and in which nothing fails comes to: a deleting object that
      may go loses the finalizer, a live one has it, with its label and, if wanted, its
      protection. A live one can only be refused because the project is somebody else's. */
  ghost predicate CalmOutcome(protect: bool, o: Object, env: Env, stored: Option<Object>, env': Env, r: Result) {
    && env'.config == env.config
    && if o.meta.deleting then
         if Deletable(o) then Completed(protect, o, stored) && (stored.Some? ==> r.err.None?)
         else r.err.Some? && stored.Some? && stored.value.meta == o.meta
       else
         && (r.err.None? <==> Admissible(o, env))
         && (r.err.None? && Shapes(o, env) ==> stored.Some? && stored.value.spec == Prepared(o, env).spec)
         && (r.err.None? ==> Completed(protect, o, stored) && Advances(protect, o, env, stored.value, env'))
         && (r.err.Some? ==> env' == env)
  }

  /** The template in force is stored at once unless the run has a project to create. */
  predicate Shapes(o: Object, env: Env) {
    Prepared(o, env).spec.template.IsUnmanaged() || env.Url() in env.remote
  }

  predicate Completed(protect: bool, o: Object, stored: Option<Object>) {
    if stored.None? then o.meta.deleting && o.meta.finalizers == {RepoFinalizer}
    else
      var m := stored.value.meta;
      && m.deleting == o.meta.deleting && stored.value.spec.tenant == o.spec.tenant
      && m.labels == o.meta.labels[TENANT_LABEL := o.spec.tenant]
      && m.finalizers ==
           (if o.meta.deleting then o.meta.finalizers - {RepoFinalizer} else o.meta.finalizers + {RepoFinalizer})
      && m.annotations ==
           if !o.meta.deleting && protect && PROTECT_ANNOTATION !in o.meta.annotations
           then o.meta.annotations[PROTECT_ANNOTATION := "true"] else o.meta.annotations
  }

  /** What becomes of the project in an undisturbed run. Only that of a live object is refused. */
  ghost predicate CalmFate(o: Object, env: Env, env': Env, log: Log, from: nat) {
    var (p, url) := (Prepared(o, env), env.Url());
    if p.spec.template.IsUnmanaged() || !MayTouch(p, url, env.remote) then
      && env' == env && !CreatedSince(log, from, url)
      && (p.spec.template.IsUnmanaged() || o.meta.deleting || RefusedSince(log, from))
    else
      && (CreatedSince(log, from, url) <==> url !in env.remote) && OnlyAt(url, env.remote, env'.remote)
      && (!o.meta.deleting ==> url in env'.remote)
      && (o.meta.deleting ==> Disposed(p.spec.template.Policy(), url, env'.remote))
      && (o.meta.deleting && url in env.remote ==> DisposedOf(p.spec.template.Policy(), url, env.remote, env'.remote))
  }

  // ---- The same by the fields of object and templates alone ----

  /** The cluster's template if it has one, else the tenant's, else the object's own. */
  function Effective(o: Object, env: Env): Template {
    if env.config.clusterTemplate.Some? then env.config.clusterTemplate.value
    else if env.config.tenantTemplate.Some? then env.config.tenantTemplate.value
    else o.spec.template
  }

  /** What becomes of the project: nothing if it is not to be managed or is somebody else's. For a
      live object it is there; for one being deleted it goes if that is asked for, is archived
      if that is, and is otherwise as it was. */
  ghost predicate PlainFate(o: Object, env: Env, left: Projects) {
    var (t, url, had) := (Effective(o, env), env.config.endpoint.url, env.remote);
    var mine := o.status.url == url || t.creation == Some(Adopt);
    if t.repoType == Some(Unmanaged) || (url in had && !mine) then left == had
    else
      && (forall u :: u != url ==> (u in left <==> u in had) && (u in left ==> left[u] == had[u]))
      && (!o.meta.deleting ==> url in left)
      && (o.meta.deleting ==>
            match t.deletion
            case Some(Delete) => url !in left
            case Some(Archive) =>
              url in left && left[url].archived && (url in had ==> left[url] == had[url].(archived := true))
            case _ => url in left && (url in had ==> left[url] == had[url]))
  }

  /** Whether a live object is refused, and how it is stored; when the finalizer of a deleting
      one goes, which an annotation prevents unless it is one of six words for false. */
  ghost predicate PlainOutcome(protect: bool, o: Object, env: Env, stored: Option<Object>, r: Result) {
    var (t, url) := (Effective(o, env), env.config.endpoint.url);
    var free := "syn.tools/protected-delete" in o.meta.annotations ==>
      o.meta.annotations["syn.tools/protected-delete"] in ["0", "f", "F", "FALSE", "false", "False"];
    if !o.meta.deleting then
      && (r.err.None? <==>
            || t.repoType == Some(Unmanaged) || url !in env.remote
            || o.status.url == url || t.creation == Some(Adopt))
      && (r.err.None? ==>
            && stored.Some? && !stored.value.meta.deleting
            && stored.value.meta.finalizers == o.meta.finalizers + {RepoFinalizer}
            && stored.value.meta.labels == o.meta.labels["syn.tools/tenant" := o.spec.tenant]
            && stored.value.meta.annotations ==
                 (if protect && "syn.tools/protected-delete" !in o.meta.annotations
                  then o.meta.annotations["syn.tools/protected-delete" := "true"] else o.meta.annotations)
            && stored.value.spec.tenant == o.spec.tenant
            && (t.repoType == Some(Unmanaged) || url in env.remote ==> stored.value.spec.template == t))
    else if RepoFinalizer in o.meta.finalizers && free then
      if stored.None? then o.meta.finalizers == {RepoFinalizer}
      else r.err.None? && stored.value.meta.finalizers == o.meta.finalizers - {RepoFinalizer}
    else
      r.err.Some? && stored.Some? && stored.value.meta == o.meta
  }

  lemma InPlainTerms(protect: bool, o: Object, env: Env, stored: Option<Object>, env': Env, r: Result, log: Log,
                     from: nat)
    requires CalmOutcome(protect, o, env, stored, env', r) && CalmFate(o, env, env', log, from)
    ensures PlainOutcome(protect, o, env, stored, r) && PlainFate(o, env, env'.remote)
  {
    assert Prepared(o, env).spec.template == Effective(o, env);
  }

  /** Nothing is left to store exactly if the object has the template in force, label, finalizer
      and, if wanted, protection, and its status names the project that is there as created. */
  lemma NothingLeftIff(protect: bool, o: Object, env: Env)
    ensures Distance(protect, o, env) == 0 <==>
      var (t, url) := (Effective(o, env), env.config.endpoint.url);
      && o.spec.template == t && RepoFinalizer in o.meta.finalizers
      && "syn.tools/tenant" in o.meta.labels && o.meta.labels["syn.tools/tenant"] == o.spec.tenant
      && (protect ==> "syn.tools/protected-delete" in o.meta.annotations)
      && (t.repoType != Some(Unmanaged) ==>
            && url in env.remote
            && o.status.url == url && o.status.phase == Some(Created)
            && o.status.hostKeys == env.config.endpoint.hostKeys)
  {
    var (next, t) := (Next(protect, o, env), Effective(o, env));
    assert Prepared(o, env).spec.template == t;
    assert next.meta.finalizers == o.meta.finalizers <==> RepoFinalizer in o.meta.finalizers;
    assert next.meta.labels == o.meta.labels <==>
      TENANT_LABEL in o.meta.labels && o.meta.labels[TENANT_LABEL] == o.spec.tenant by {
      if next.meta.labels == o.meta.labels {
        assert TENANT_LABEL in next.meta.labels;
      }
    }
    assert next.meta.annotations == o.meta.annotations <==>
      (protect ==> PROTECT_ANNOTATION in o.meta.annotations) by {
      assert protect ==> PROTECT_ANNOTATION in next.meta.annotations;
    }
  }

  /** A project that is absent is created even for an object being deleted, and is still there
      afterwards unless the policy is to delete it. */
  lemma DeletionCreates(o: Object, env: Env, env': Env, log: Log, from: nat)
    requires o.meta.deleting && CalmFate(o, env, env', log, from)
    requires Effective(o, env).repoType != Some(Unmanaged) && env.Url() !in env.remote
    ensures CreatedSince(log, from, env.Url())
    ensures env.Url() in env'.remote <==> Effective(o, env).deletion != Some(Delete)
  {
    assert Prepared(o, env).spec.template == Effective(o, env);
  }

  lemma CalmProjectFate(a: Snap, g: Snap, r: Result)
    requires InSync(a) && CalmGit(a, g, r) && Along(a, g) && a.deleted == a.inst.meta.deleting
    requires a.start == |a.log| - 1 && !a.log[a.start].CreateCalled?
    ensures CalmFate(a.inst, a.env, g.env, g.log, a.start)
  {
    CreatedLater(a.log, g.log, a.start, a.env.Url());
  }

  lemma FateStays(protect: bool, o: Object, env: Env, c: Snap, b: Snap, r: Result, from: nat)
    requires CalmFate(o, env, c.env, c.log, from) && CommonRel(protect, c, b, r) && c.calm && from <= |c.log|
    ensures CalmFate(o, env, b.env, b.log, from)
  {
    assert forall k :: 0 <= k < |c.log| ==> b.log[k] == c.log[k];
    if RefusedSince(c.log, from) {
      RefusedStays(c.log, b.log, from);
    }
  }

  /** A live object after the git steps, the label and the common steps. */
  ghost predicate LiveRun(protect: bool, a: Snap, g: Snap, b: Snap, rc: Result) {
    && InSync(a) && a.orig == a.inst && !a.deleted && !a.inst.meta.deleting && a.stored == Some(a.inst)
    && Along(a, g)
    && InSync(g.(inst := Outgoing(Labelled(g.inst), false, protect)))
    && CalmUpdate(g.(inst := Outgoing(Labelled(g.inst), false, protect)), b, rc) && b.env == g.env
  }

  lemma UnmanagedAdvances(protect: bool, a: Snap, g: Snap, rg: Result, b: Snap, rc: Result)
    requires LiveRun(protect, a, g, b, rc) && CalmGit(a, g, rg)
    requires Prepared(a.inst, a.env).spec.template.IsUnmanaged()
    ensures Admissible(a.inst, a.env) && Advances(protect, a.inst, a.env, b.stored.value, b.env)
    ensures b.stored.value.spec == Prepared(a.inst, a.env).spec
  {
  }

  lemma PresentAdvances(protect: bool, a: Snap, g: Snap, rg: Result, b: Snap, rc: Result)
    requires LiveRun(protect, a, g, b, rc) && CalmGit(a, g, rg) && rg.err.None?
    requires !Prepared(a.inst, a.env).spec.template.IsUnmanaged() && a.env.Url() in a.env.remote
    ensures Admissible(a.inst, a.env) && Advances(protect, a.inst, a.env, b.stored.value, b.env)
    ensures b.stored.value.spec == Prepared(a.inst, a.env).spec
  {
  }

  lemma AbsentAdvances(protect: bool, a: Snap, g: Snap, rg: Result, b: Snap, rc: Result)
    requires LiveRun(protect, a, g, b, rc) && CalmGit(a, g, rg) && rg.err.None?
    requires !Prepared(a.inst, a.env).spec.template.IsUnmanaged() && a.env.Url() !in a.env.remote
    ensures Admissible(a.inst, a.env) && Advances(protect, a.inst, a.env, b.stored.value, b.env)
  {
  }

  lemma LiveAdvances(protect: bool, a: Snap, g: Snap, rg: Result, b: Snap, rc: Result)
    requires InSync(a) && a.orig == a.inst && !a.deleted && !a.inst.meta.deleting && a.stored == Some(a.inst)
    requires Along(a, g) && CalmGit(a, g, rg) && rg.err.None?
    requires CommonRel(protect, g.(inst := Labelled(g.inst)), b, rc)
    ensures rc.err.None? && Completed(protect, a.inst, b.stored) && b.stored.Some?
    ensures Shapes(a.inst, a.env) ==> b.stored.value.spec == Prepared(a.inst, a.env).spec
    ensures Admissible(a.inst, a.env) && Advances(protect, a.inst, a.env, b.stored.value, b.env)
  {
    assert InSync(g.(inst := Labelled(g.inst)));
    assert LiveRun(protect, a, g, b, rc);
    if Prepared(a.inst, a.env).spec.template.IsUnmanaged() {
      UnmanagedAdvances(protect, a, g, rg, b, rc);
    } else if a.env.Url() in a.env.remote {
      PresentAdvances(protect, a, g, rg, b, rc);
    } else {
      AbsentAdvances(protect, a, g, rg, b, rc);
    }
  }

  /** The same for an object being deleted, which meets no error in its git steps. */
  lemma DeletingReleased(protect: bool, a: Snap, g: Snap, rg: Result, b: Snap, rc: Result)
    requires InSync(a) && a.orig == a.inst && a.deleted && a.inst.meta.deleting && a.stored == Some(a.inst)
    requires Along(a, g) && CalmGit(a, g, rg)
    requires CommonRel(protect, g.(inst := Labelled(g.inst)), b, rc)
    ensures rg.err.None? && CalmOutcome(protect, a.inst, a.env, b.stored, b.env, rc)
  {
    var c := g.(inst := Labelled(g.inst));
    assert InSync(c) && c.inst.meta.labels == a.inst.meta.labels[TENANT_LABEL := a.inst.spec.tenant];
    assert Deletable(c.inst) <==> Deletable(a.inst);
    if Deletable(c.inst) {
      var out := Outgoing(c.inst, true, protect);
      assert Landed(out, b.stored) && out.meta.finalizers == a.inst.meta.finalizers - {RepoFinalizer};
    }
  }

  lemma CalmRan(protect: bool, trace: seq<Snap>, answers: seq<Result>, r: Result)
    requires Ran(REPO_STEPS, protect, trace, answers, r) && !trace[0].deleted
    requires trace[0].calm && trace[0].stored == Some(trace[0].inst) && JustRead(trace[0])
    ensures var a, b := trace[0], trace[|trace| - 1];
      && CalmOutcome(protect, a.inst, a.env, b.stored, b.env, r)
      && CalmFate(a.inst, a.env, b.env, b.log, a.start)
  {
    RepoBegins(protect, trace, answers, r);
    assert InSync(trace[2]);
    CalmProjectFate(trace[2], trace[3], answers[2]);
    if |answers| == 5 {
      assert InSync(trace[4]);
      FateStays(protect, trace[0].inst, trace[0].env, trace[4], trace[5], answers[4], trace[0].start);
      if !trace[0].inst.meta.deleting {
        LiveAdvances(protect, trace[2], trace[3], answers[2], trace[5], answers[4]);
      } else {
        DeletingReleased(protect, trace[2], trace[3], answers[2], trace[5], answers[4]);
      }
    }
  }
}
