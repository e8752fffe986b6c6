/** A GitRepo and its project: the objects, what happens to them in order, and what it takes for
    each event to be rightful. Events carry what was seen at the time, as evidence. */
module GitRepoEvents {
  import opened Wrappers

  datatype RepoType = Auto | Unmanaged

  datatype CreationPolicy = CreateOnly | Adopt

  datatype DeletionPolicy = Archive | Delete | Retain

  /** The part of a spec that the templates of tenant and cluster replace; fields may be unset. */
  datatype Template = Template(
    repoType: Option<RepoType>, creation: Option<CreationPolicy>, deletion: Option<DeletionPolicy>) {
    predicate IsUnmanaged() {
      repoType == Some(Unmanaged)
    }

    predicate Adopts() {
      creation == Some(Adopt)
    }

    function Policy(): DeletionPolicy {
      deletion.GetOr(Retain)
    }
  }

  datatype Spec = Spec(template: Template, tenant: string)

  datatype Phase = Creating | Created | Failed

  /** The finalizer cluster.lieutenant.syn.tools, and all others. */
  datatype Finalizer = RepoFinalizer | OtherFinalizer(name: string)

  datatype Status = Status(url: string, phase: Option<Phase>, hostKeys: string)

  /** The parts of an object that carry its identity and its deletion. */
  datatype Meta = Meta(
    deleting: bool, finalizers: set<Finalizer>, annotations: map<string, string>, labels: map<string, string>)

  datatype Object = Object(rv: nat, meta: Meta, spec: Spec, status: Status)

  datatype Project = Project(archived: bool, content: nat)

  type Projects = map<string, Project>

  /** Where the client of a GitRepo finds its project, and the server's host keys. */
  datatype Endpoint = Endpoint(url: string, hostKeys: string)

  /** What others have settled for a GitRepo: the templates it may have, and its endpoint. */
  datatype Config = Config(tenantTemplate: Option<Template>, clusterTemplate: Option<Template>, endpoint: Endpoint) {
    function TemplateOf(cluster: bool): Option<Template> {
      if cluster then clusterTemplate else tenantTemplate
    }
  }

  /** What a run meets besides its object. */
  datatype Env = Env(remote: Projects, config: Config) {
    function Url(): string {
      config.endpoint.url
    }
  }

  const TENANT_LABEL := "syn.tools/tenant"
  const PROTECT_ANNOTATION := "syn.tools/protected-delete"

  /** What strconv.ParseBool makes of a string. */
  function ParseBool(s: string): Option<bool> {
    if s in ["1", "t", "T", "TRUE", "true", "True"] then Some(true)
    else if s in ["0", "f", "F", "FALSE", "false", "False"] then Some(false)
    else None
  }

  /** A protection annotation counts unless it parses to false. */
  predicate Protected(annotations: map<string, string>) {
    PROTECT_ANNOTATION in annotations && ParseBool(annotations[PROTECT_ANNOTATION]) != Some(false)
  }

  /** The template in force: the cluster's before the tenant's before the object's own. */
  function InForce(own: Template, config: Config): Template {
    config.clusterTemplate.GetOr(config.tenantTemplate.GetOr(own))
  }

  function SetOr<T>(a: Option<T>, b: Option<T>): Option<T> {
    if a.Some? then a else b
  }

  /** The spec in memory after the answer to a status update has been read into it: the stored
      spec, but for fields it leaves unset. */
  function Overlaid(memory: Spec, stored: Spec): Spec {
    var (m, s) := (memory.template, stored.template);
    Spec(Template(SetOr(s.repoType, m.repoType), SetOr(s.creation, m.creation), SetOr(s.deletion, m.deletion)),
         if stored.tenant != "" then stored.tenant else memory.tenant)
  }

  // ---- What happens, in order ----

  datatype Call = EnsureToken | EnsureVariables | CommitFiles | UpdateRepo | RemoveRepo

  datatype Event =
    // what the servers answered
    | ObjectServed(o: Object)
    | ObjectAbsent
    | TemplateServed(t: Template)
    | ClientServed(url: string, policy: DeletionPolicy)
    | SawAbsent(url: string, projects: Projects)
    | StatusWritten(status: Status)
    | ObjectWritten(before: Object, written: Object)
    | Removed(url: string, policy: DeletionPolicy, had: Projects, left: Projects)
    // what was asked of the git server
    | CreateCalled(url: string)
    | Touched(call: Call, url: string)
    // what was decided, and about which object
    | PassedAdopt(url: string, o: Object)
    | SkippedUnmanaged(o: Object)
    | SkippedNotOwned(url: string, o: Object)
    | RefusedForeign(url: string, o: Object)

  type Log = seq<Event>

  ghost predicate OnlyAt(url: string, before: Projects, after: Projects) {
    forall u :: u != url ==> (u in after <==> u in before) && (u in after ==> after[u] == before[u])
  }

  /** The project at url, and no other, was dealt with as the policy says. */
  ghost predicate DisposedOf(policy: DeletionPolicy, url: string, had: Projects, left: Projects) {
    && OnlyAt(url, had, left)
    && match policy
       case Delete => url in had && url !in left
       case Archive => url in had && url in left && left[url] == had[url].(archived := true)
       case Retain => left == had
  }

  /** The project at url as its deletion policy leaves it. */
  predicate Disposed(policy: DeletionPolicy, url: string, remote: Projects) {
    match policy
    case Delete => url !in remote
    case Archive => url in remote && remote[url].archived
    case Retain => url in remote
  }

  // ---- Evidence ----

  predicate Serves(e: Event, t: Template) {
    (e.ObjectServed? && e.o.spec.template == t) || (e.TemplateServed? && e.t == t)
  }

  /** The API server has given this template since the start-th event. */
  ghost predicate Traced(log: Log, start: nat, t: Template) {
    exists k :: start <= k < |log| && Serves(log[k], t)
  }

  ghost predicate ClientFor(log: Log, start: nat, url: string, policy: DeletionPolicy) {
    exists k :: start <= k < |log| && log[k] == ClientServed(url, policy)
  }

  ghost predicate ClientAt(log: Log, start: nat, url: string) {
    exists policy :: ClientFor(log, start, url, policy)
  }

  /** The API server has given an object with this URL in its status since the start-th event. */
  ghost predicate UrlServed(log: Log, start: nat, url: string) {
    exists k :: start <= k < |log| && log[k].ObjectServed? && log[k].o.status.url == url
  }

  ghost predicate PolicyTraced(log: Log, start: nat, policy: DeletionPolicy) {
    exists t :: Traced(log, start, t) && t.Policy() == policy
  }

  /** The template and the URL a decision rests on are those the API server gave. */
  ghost predicate Grounded(log: Log, start: nat, o: Object) {
    Traced(log, start, o.spec.template) && UrlServed(log, start, o.status.url)
  }

  /** What the event says is true by itself and by what came before it, from start on. */
  ghost predicate Evident(log: Log, start: nat, e: Event) {
    match e
    case SawAbsent(url, projects) => url !in projects
    case ClientServed(_, policy) => PolicyTraced(log, start, policy)
    case Removed(url, policy, had, left) => ClientFor(log, start, url, policy) && DisposedOf(policy, url, had, left)
    case PassedAdopt(url, o) =>
      Grounded(log, start, o) && ClientAt(log, start, url) && o.status.url != url && o.spec.template.Adopts()
    case SkippedUnmanaged(o) => Traced(log, start, o.spec.template) && o.spec.template.IsUnmanaged()
    case SkippedNotOwned(url, o) =>
      Grounded(log, start, o) && ClientAt(log, start, url) && o.status.url != url && !o.spec.template.Adopts()
    case RefusedForeign(url, o) =>
      Grounded(log, start, o) && ClientAt(log, start, url) && o.status.url != url && !o.spec.template.Adopts()
    case _ => true
  }

  lemma {:induction false} GrowingKeeps(log: Log, log': Log, start: nat)
    requires log <= log'
    ensures forall t :: Traced(log, start, t) ==> Traced(log', start, t)
    ensures forall url :: UrlServed(log, start, url) ==> UrlServed(log', start, url)
    ensures forall url, policy :: ClientFor(log, start, url, policy) ==> ClientFor(log', start, url, policy)
  {
    assert forall k :: 0 <= k < |log| ==> log'[k] == log[k];
  }

  /** Evidence since some event is evidence since the first. */
  lemma EvidentFromZero(log: Log, start: nat, e: Event)
    requires Evident(log, start, e)
    ensures Evident(log, 0, e)
  {
    forall t | Traced(log, start, t) ensures Traced(log, 0, t) {
      var k :| start <= k < |log| && Serves(log[k], t);
    }
    forall url | UrlServed(log, start, url) ensures UrlServed(log, 0, url) {
      var k :| start <= k < |log| && log[k].ObjectServed? && log[k].o.status.url == url;
    }
    forall url, policy | ClientFor(log, start, url, policy) ensures ClientFor(log, 0, url, policy) {
      var k :| start <= k < |log| && log[k] == ClientServed(url, policy);
    }
  }

  // ---- The right to a project ----

  predicate Grants(e: Event, url: string) {
    (e.SawAbsent? && e.url == url) || (e.PassedAdopt? && e.url == url)
  }

  /** This GitRepo may lay hands on the project at url: it had it in its status to begin
      with, has seen it absent, or was allowed to adopt it. */
  ghost predicate Claimed(log: Log, init: string, url: string) {
    url == init || exists k :: 0 <= k < |log| && Grants(log[k], url)
  }

  /** A call on a project needs the claim, and creating one needs it stored right before. */
  ghost predicate Rightful(log: Log, init: string, e: Event) {
    match e
    case Touched(_, url) => Claimed(log, init, url)
    case CreateCalled(url) =>
      && Claimed(log, init, url)
      && |log| > 1 && log[|log| - 1].StatusWritten? && log[|log| - 1].status.url == url
      && log[|log| - 2].SawAbsent? && log[|log| - 2].url == url
    case _ => true
  }

  ghost predicate EventOk(log: Log, init: string, e: Event) {
    Evident(log, 0, e) && Rightful(log, init, e)
  }

  /** Every call was made by right of what had happened before it, and every decision rested on
      what the servers had answered. */
  ghost predicate Lawful(log: Log, init: string) {
    forall k {:trigger EventOkAt(log, init, k)} :: 0 <= k < |log| ==> EventOkAt(log, init, k)
  }

  ghost predicate EventOkAt(log: Log, init: string, k: nat)
    requires k < |log|
  {
    EventOk(log[..k], init, log[k])
  }

  lemma LawfulStep(log: Log, init: string, e: Event)
    requires Lawful(log, init) && EventOk(log, init, e)
    ensures Lawful(log + [e], init)
  {
    var log' := log + [e];
    forall k | 0 <= k < |log'| ensures EventOkAt(log', init, k) {
      assert log'[..k] == if k < |log| then log[..k] else log;
      assert k < |log| ==> EventOkAt(log, init, k);
    }
  }

  lemma ClaimedStays(log: Log, log': Log, init: string)
    requires log <= log'
    ensures forall url :: Claimed(log, init, url) ==> Claimed(log', init, url)
  {
    assert forall k :: 0 <= k < |log| ==> log'[k] == log[k];
  }

  predicate JustSeenAbsent(log: Log, url: string) {
    log != [] && log[|log| - 1].SawAbsent? && log[|log| - 1].url == url
  }

  /** Having seen a project absent is a claim on it, and once that is stored the project may be
      created. */
  lemma AbsentGrants(log: Log, init: string, url: string, status: Status)
    requires JustSeenAbsent(log, url) && status.url == url
    ensures Claimed(log, init, url) && Claimed(log + [StatusWritten(status)], init, url)
    ensures EventOk(log + [StatusWritten(status)], init, CreateCalled(url))
  {
    assert Grants(log[|log| - 1], url);
    ClaimedStays(log, log + [StatusWritten(status)], init);
  }

  /** A finished git step explains why a deleting object may go. */
  ghost predicate Excuse(log: Log, start: nat, k: nat)
    requires k < |log|
  {
    var e := log[k];
    (e.SkippedUnmanaged? || e.SkippedNotOwned? || e.Removed?) && Evident(log[..k], start, e)
  }

  ghost predicate ExcusedSince(log: Log, start: nat, from: nat) {
    exists k :: from <= k < |log| && Excuse(log, start, k)
  }

  /** The run that began with the start-th event found that the project is not to be managed. */
  ghost predicate UnmanagedSince(log: Log, start: nat, from: nat) {
    exists k :: from <= k < |log| && log[k].SkippedUnmanaged? && Evident(log[..k], start, log[k])
  }

  lemma FoundStays(log: Log, log': Log, start: nat, from: nat)
    requires log <= log'
    ensures ExcusedSince(log, start, from) ==> ExcusedSince(log', start, from)
    ensures UnmanagedSince(log, start, from) ==> UnmanagedSince(log', start, from)
  {
    assert forall k :: 0 <= k < |log| ==> log'[..k] == log[..k] && log'[k] == log[k];
    if ExcusedSince(log, start, from) {
      var k :| from <= k < |log| && Excuse(log, start, k);
      assert Excuse(log', start, k);
    }
    if UnmanagedSince(log, start, from) {
      var k :| from <= k < |log| && log[k].SkippedUnmanaged? && Evident(log[..k], start, log[k]);
      assert log'[k].SkippedUnmanaged? && Evident(log'[..k], start, log'[k]);
    }
  }

  /** How the object may be written: without the finalizer only if it is being deleted, is not
      protected, and the same run, which began with reading it, had an excuse. */
  ghost predicate ObjectWriteOk(log: Log, start: nat, k: nat)
    requires start <= k < |log| && log[k].ObjectWritten?
  {
    var before, after := log[k].before, log[k].written;
    && log[start].ObjectServed? && log[start].o.meta == before.meta
    && (before.meta.deleting ==> !Protected(before.meta.annotations))
    && (RepoFinalizer !in after.meta.finalizers ==>
          before.meta.deleting && exists j :: start <= j < k && Excuse(log, start, j))
  }

  /** A project is removed only for an object being deleted, and worked on only for a live one. */
  predicate TouchOk(log: Log, start: nat, k: nat)
    requires start <= k < |log| && log[k].Touched?
  {
    log[start].ObjectServed? && (log[k].call.RemoveRepo? <==> log[start].o.meta.deleting)
  }

  ghost predicate DoneOk(log: Log, start: nat, k: nat)
    requires start <= k < |log|
  {
    && (log[k].ObjectWritten? ==> ObjectWriteOk(log, start, k))
    && (log[k].Touched? ==> TouchOk(log, start, k))
  }

  /** The object was read last by the start-th event. */
  predicate LastRead(log: Log, start: nat, k: nat)
    requires k < |log|
  {
    start <= k && log[start].ObjectServed? && forall i :: start < i <= k ==> !log[i].ObjectServed?
  }

  /** The k-th event was done by right of the object read last before it. */
  ghost predicate ByRight(log: Log, k: nat)
    requires k < |log|
  {
    log[k].ObjectWritten? || log[k].Touched? ==> exists start :: LastRead(log, start, k) && DoneOk(log, start, k)
  }

  lemma DoneOkStays(log: Log, log': Log, start: nat, k: nat)
    requires log <= log' && start <= k < |log| && DoneOk(log, start, k)
    ensures DoneOk(log', start, k)
  {
    if log[k].ObjectWritten? && RepoFinalizer !in log[k].written.meta.finalizers {
      var j :| start <= j < k && Excuse(log, start, j);
      assert log'[..j] == log[..j] && log'[j] == log[j];
      assert Excuse(log', start, j);
    }
  }
}
