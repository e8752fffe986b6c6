/** The GitRepo controller: which projects it may touch, and when it lets its object go. */
module GitRepos {
  import opened Wrappers
  import opened Pipeline
  import opened GitRepoEvents
  import opened GitRepoSteps

  datatype ReadReply = Exists | NotFound | ReadFailed

  datatype WriteReply = Stored | Conflict | WriteFailed

  /** Others may edit and delete the object and make a new one, but its status is written
      by this controller alone. */
  predicate OthersMay(rev: nat, before: Option<Object>, after: Option<Object>) {
    after.Some? && after != before ==>
      && after.value.rv > rev
      && (after.value.status.url == "" || (before.Some? && after.value.status == before.value.status))
  }

  class GitRepoReconciler {
    const protect: bool
    const init: string
    /** Whether calls may fail and others may interfere. */
    const faulty: bool
    // the API server: the object, the version of the latest write, and what others have settled
    var stored: Option<Object>
    var rev: nat
    var config: Config
    // the git server
    var remote: Projects
    // the run under way
    var inst: Object
    var orig: Object
    var deleted: bool
    ghost var log: Log
    ghost var start: nat
    ghost var read: Object

    constructor (protect: bool, faulty: bool, initial: Object, env: Env)
      requires env.Url() != ""
      ensures Inv() && init == initial.status.url && log == []
      ensures this.protect == protect && this.faulty == faulty && stored == Some(initial)
      ensures Surroundings() == env
    {
      this.protect, this.faulty, this.init := protect, faulty, initial.status.url;
      remote, config := env.remote, env.config;
      stored, rev, inst, orig, deleted := Some(initial), initial.rv, initial, initial, false;
      log, start, read := [], 0, initial;
    }

    ghost predicate UrlOk(url: string)
      reads this
    {
      url == "" || Claimed(log, init, url)
    }

    ghost predicate Inv()
      reads this
    {
      && Lawful(log, init) && start <= |log| && config.endpoint.url != ""
      && UrlOk(inst.status.url) && (stored.Some? ==> UrlOk(stored.value.status.url))
      && (stored.Some? && stored.value.rv == inst.rv ==> stored.value.meta == read.meta)
      && inst.rv <= rev && (stored.Some? ==> stored.value.rv <= rev)
    }

    /** The version in memory is no longer the stored one. */
    ghost predicate Stale()
      reads this
    {
      inst.rv < rev && (stored.Some? ==> inst.rv < stored.value.rv)
    }

    ghost function Surroundings(): Env
      reads this
    {
      Env(remote, config)
    }

    ghost function Snapshot(): Snap
      reads this
    {
      Snap(inst, orig, deleted, log, start, read, stored, Surroundings(), !faulty)
    }

    /** Anybody may change the projects, the templates, the endpoint and the object between two calls. */
    method Interfere()
      requires Inv()
      modifies this`stored, this`rev, this`remote, this`config
      ensures Inv() && (old(Stale()) ==> Stale()) && Along(old(Snapshot()), Snapshot())
      ensures !faulty ==> stored == old(stored) && rev == old(rev) && Surroundings() == old(Surroundings())
    {
      if !faulty {
        return;
      }
      var others: Projects := *;
      remote := others;
      var settled: Config := *;
      config := if settled.endpoint.url == "" then settled.(endpoint := Endpoint("?", "")) else settled;
      assert OthersMay(rev, stored, stored);
      var next: Option<Object> :| OthersMay(rev, stored, next);
      assert OthersMay(rev, stored, next);
      stored := next;
      rev := if next.Some? && next.value.rv > rev then next.value.rv else rev;
    }

    /** What an event says is so at this moment. */
    ghost predicate True(e: Event)
      reads this
    {
      match e
      case ObjectServed(o) => stored == Some(o)
      case ObjectAbsent => stored.None?
      case TemplateServed(t) => config.tenantTemplate == Some(t) || config.clusterTemplate == Some(t)
      case SawAbsent(_, projects) => projects == remote
      case StatusWritten(status) => stored.Some? && stored.value.status == status
      case Removed(_, _, _, left) => left == remote
      case PassedAdopt(_, o) => o == inst
      case SkippedUnmanaged(o) => o == inst
      case SkippedNotOwned(_, o) => o == inst
      case RefusedForeign(_, o) => o == inst
      case _ => true
    }

    ghost method Happened(e: Event)
      requires Inv() && EventOk(log, init, e) && True(e)
      modifies this`log
      ensures Inv() && log == old(log) + [e]
    {
      LawfulStep(log, init, e);
      ClaimedStays(log, log + [e], init);
      log := log + [e];
    }

    /** A decision that rests on what this run was served. */
    ghost method Decided(e: Event)
      requires Inv() && Evident(log, start, e) && Rightful(log, init, e) && True(e)
      modifies this`log
      ensures Inv() && log == old(log) + [e]
    {
      EvidentFromZero(log, start, e);
      Happened(e);
    }

    // ---- The API server ----

    method GetObject() returns (r: Reply<Option<Object>>)
      requires Inv()
      modifies this`log
      ensures Inv() && (r.Served? ==> r.value == stored)
      ensures log == old(log) +
        if r.Refused? then [] else if r.value.Some? then [ObjectServed(r.value.value)] else [ObjectAbsent]
      ensures !faulty ==> r.Served?
    {
      var ok := CallSucceeds(faulty);
      r := if ok then Reply.Served(stored) else Refused;
      if ok {
        Happened(if stored.Some? then ObjectServed(stored.value) else ObjectAbsent);
      }
    }

    /** The template of the tenant or of the cluster of the object's name, if there is any. */
    method GetTemplate(ofCluster: bool) returns (r: Reply<Option<Template>>)
      requires Inv()
      modifies this`log
      ensures Inv() && (r.Served? ==> r.value == config.TemplateOf(ofCluster))
      ensures log == old(log) + if r.Served? && r.value.Some? then [TemplateServed(r.value.value)] else []
      ensures !faulty ==> r.Served?
    {
      var ok := CallSucceeds(faulty);
      var t := config.TemplateOf(ofCluster);
      r := if ok then Reply.Served(t) else Refused;
      if ok && t.Some? {
        Happened(TemplateServed(t.value));
      }
    }

    /** Stores the status of the object in memory, if nobody has written it since it was read. */
    method PutStatus() returns (reply: WriteReply)
      requires Inv()
      modifies this`stored, this`rev, this`log
      ensures Inv()
      ensures log == old(log) || log == old(log) + [StatusWritten(inst.status)]
      ensures old(Stale()) ==> log == old(log) && !reply.Stored?
      ensures reply.Stored? ==>
                && log == old(log) + [StatusWritten(inst.status)]
                && old(stored).Some? && old(stored).value.rv == inst.rv
                && stored == Some(old(stored).value.(rv := rev, status := inst.status))
                && stored.value.meta == read.meta
      ensures !faulty && old(stored).Some? && old(stored).value.rv == inst.rv ==> reply.Stored?
      ensures !faulty && !reply.Stored? ==> stored == old(stored)
      ensures !faulty && reply.WriteFailed? ==> stored.None?
    {
      var reached := CallSucceeds(faulty);
      var answered := CallSucceeds(faulty);
      if !reached || stored.None? {
        return WriteFailed;
      }
      if stored.value.rv != inst.rv {
        return Conflict;
      }
      rev := rev + 1;
      stored := Some(stored.value.(rv := rev, status := inst.status));
      Happened(StatusWritten(inst.status));
      reply := if answered then Stored else WriteFailed;
    }

    /** The same for the object itself: the answer is read into it, and brings its version up to
        date, but also its spec back to what is stored. */
    method UpdateStatus() returns (reply: WriteReply)
      requires Inv()
      modifies this
      ensures Inv() && Along(old(Snapshot()), Snapshot()) && Surroundings() == old(Surroundings())
      ensures log == old(log) || log == old(log) + [StatusWritten(inst.status)]
      ensures inst == old(inst).(rv := inst.rv, spec := inst.spec)
      ensures reply.Stored? ==>
        old(stored).Some? && stored == Some(old(stored).value.(rv := inst.rv, status := inst.status))
      ensures if reply.Stored? then stored.Some? && inst.spec == Overlaid(old(inst.spec), stored.value.spec)
              else inst == old(inst)
      // field by field, what is stored wins unless it is unset
      ensures reply.Stored? ==>
        var (had, have, got) := (old(inst.spec), stored.value.spec, inst.spec);
        && got.template.repoType == (if have.template.repoType != None then have else had).template.repoType
        && got.template.creation == (if have.template.creation != None then have else had).template.creation
        && got.template.deletion == (if have.template.deletion != None then have else had).template.deletion
        && got.tenant == (if have.tenant != "" then have else had).tenant
      ensures reply.Stored? ==> log == old(log) + [StatusWritten(inst.status)]
      ensures InSync(old(Snapshot())) ==> reply.Stored?
    {
      reply := PutStatus();
      if reply.Stored? {
        inst, read := inst.(rv := stored.value.rv, spec := Overlaid(inst.spec, stored.value.spec)), stored.value;
      }
    }

    /** Stores everything but the status of a copy of the object, whose version in memory
        therefore stays behind when the store changes. */
    method UpdateStored() returns (reply: WriteReply)
      requires Inv()
      modifies this`stored, this`rev, this`log
      ensures Inv()
      ensures log == old(log) || (StoredOnce(old(Snapshot()), Snapshot()) && Stale())
      ensures InSync(old(Snapshot())) ==>
        && reply.Stored? && Landed(inst, stored)
        && (if ObjectChanged(old(Snapshot())) then Stale() else stored == old(stored))
        && (stored.Some? ==> stored.value.status == old(stored).value.status)
    {
      var reached := CallSucceeds(faulty);
      var answered := CallSucceeds(faulty);
      if !reached || stored.None? {
        return WriteFailed;
      }
      if stored.value.rv != inst.rv {
        return Conflict;
      }
      var current := stored.value;
      var meta := inst.meta.(deleting := current.meta.deleting);
      if current != inst.(meta := meta, status := current.status) {
        rev := rev + 1;
        stored := Some(inst.(meta := meta, rv := rev, status := current.status));
        if meta.deleting && meta.finalizers == {} {
          stored := None;
        }
        Happened(ObjectWritten(current, inst));
      }
      return if answered then Stored else WriteFailed;
    }

    // ---- The git server ----

    /** A project that is absent is seen to be so. */
    method Read(url: string) returns (r: ReadReply)
      requires Inv()
      modifies this`log
      ensures Inv() && (r.Exists? ==> url in remote) && (r.NotFound? ==> url !in remote)
      ensures log == old(log) + if r.NotFound? then [SawAbsent(url, remote)] else []
      ensures !faulty ==> !r.ReadFailed?
    {
      var reached := CallSucceeds(faulty);
      r := if !reached then ReadFailed else if url in remote then Exists else NotFound;
      if r.NotFound? {
        Happened(SawAbsent(url, remote));
      }
    }

    /** Creating can fail with the project already there. */
    method Create(url: string) returns (ok: bool)
      requires Inv() && EventOk(log, init, CreateCalled(url))
      modifies this`remote, this`log
      ensures Inv() && log == old(log) + [CreateCalled(url)]
      ensures url in old(remote) ==> !ok && remote == old(remote)
      ensures ok ==> url in remote
      ensures OnlyAt(url, old(remote), remote)
      ensures !faulty && url !in old(remote) ==> ok
    {
      Happened(CreateCalled(url));
      var content: nat := *;
      var reached := CallSucceeds(faulty);
      var keysSet := CallSucceeds(faulty);
      if !reached || url in remote {
        return false;
      }
      remote := remote[url := Project(false, content)];
      return keysSet;
    }

    /** A call that changes the project at url, and no other, even when it fails. */
    method Touch(call: Call, url: string) returns (ok: bool)
      requires Inv() && Claimed(log, init, url)
      modifies this`remote, this`log
      ensures Inv() && log == old(log) + [Touched(call, url)]
      ensures remote.Keys == old(remote).Keys && OnlyAt(url, old(remote), remote)
      ensures !faulty ==> ok
    {
      Happened(Touched(call, url));
      var content: nat := *;
      ok := CallSucceeds(faulty);
      if url in remote {
        remote := remote[url := remote[url].(content := content)];
      }
    }

    /** Removes the project as the client's deletion policy says. A failed removal may have been
        carried out. */
    method Remove(url: string, policy: DeletionPolicy) returns (ok: bool)
      requires Inv() && Claimed(log, init, url) && ClientFor(log, start, url, policy)
      modifies this`remote, this`log
      ensures Inv() && OnlyAt(url, old(remote), remote)
      ensures log == old(log) + [Touched(RemoveRepo, url)]
                     + if ok then [Removed(url, policy, old(remote), remote)] else []
      ensures ok ==> DisposedOf(policy, url, old(remote), remote)
      ensures ok ==> Excuse(log, start, |log| - 1)
      ensures !faulty && url in old(remote) ==> ok
    {
      CallRemove(url);
      ok := Dispose(url, policy);
      if ok {
        ConfirmRemoval(url, policy, old(remote));
      }
    }

    ghost method CallRemove(url: string)
      requires Inv() && Claimed(log, init, url)
      modifies this`log
      ensures Inv() && log == old(log) + [Touched(RemoveRepo, url)]
      ensures forall policy :: old(ClientFor(log, start, url, policy)) ==> ClientFor(log, start, url, policy)
    {
      ghost var was := log;
      Happened(Touched(RemoveRepo, url));
      GrowingKeeps(was, log, start);
    }

    ghost method ConfirmRemoval(url: string, policy: DeletionPolicy, had: Projects)
      requires Inv() && ClientFor(log, start, url, policy) && DisposedOf(policy, url, had, remote)
      modifies this`log
      ensures Inv() && log == old(log) + [Removed(url, policy, had, remote)]
      ensures Excuse(log, start, |old(log)|)
    {
      ghost var was := log;
      Decided(Removed(url, policy, had, remote));
      assert log[..|was|] == was;
    }

    method Dispose(url: string, policy: DeletionPolicy) returns (ok: bool)
      requires Inv()
      modifies this`remote
      ensures Inv() && OnlyAt(url, old(remote), remote)
      ensures ok ==> DisposedOf(policy, url, old(remote), remote)
      ensures !faulty && url in old(remote) ==> ok
    {
      var reached := CallSucceeds(faulty);
      var answered := CallSucceeds(faulty);
      ok := policy.Retain? || (reached && answered && url in remote);
      if reached && url in remote {
        match policy {
          case Retain =>
          case Delete => remote := remote - {url};
          case Archive => remote := remote[url := remote[url].(archived := true)];
        }
      }
    }

    // ---- The git steps ----

    /** Stores the failed phase and all else in the status; whatever comes of that, the error
        stands. */
    method HandleRepoError(err: string) returns (r: Result)
      requires Inv()
      modifies this
      ensures Inv() && Along(old(Snapshot()), Snapshot()) && Surroundings() == old(Surroundings())
      ensures r.err.Some? && !r.abort && !r.requeue
      ensures InSync(old(Snapshot())) ==> stored.Some? && stored.value.status == inst.status
      ensures inst == old(inst).(rv := inst.rv, spec := inst.spec, status := old(inst.status).(phase := Some(Failed)))
      ensures log == old(log) || log == old(log) + [StatusWritten(inst.status)]
    {
      inst := inst.(status := inst.status.(phase := Some(Failed)));
      var reply := UpdateStatus();
      r := Result(false, Some(if reply.Stored? then err else "set status: " + err), false);
    }

    /** Everything from the template to the keys. A project that exists is left alone unless
        this GitRepo claimed it or may adopt it. */
    method GitSteps() returns (r: Result)
      requires Inv() && Begun(Snapshot())
      modifies this
      ensures Inv() && GitRel(old(Snapshot()), Snapshot(), r)
    {
      var url, policy;
      url, policy, r := Prepare();
      if url != "" {
        ghost var mid := Snapshot();
        r := ProjectSteps(url, policy);
        PreparedAndDone(old(Snapshot()), mid, Snapshot(), r, url, policy);
      }
    }

    /** What becomes of the project at url. Left alone, the steps err exactly when a live
        object finds a project that is neither its own nor to be adopted. */
    method ProjectSteps(url: string, policy: DeletionPolicy) returns (r: Result)
      requires Inv() && url != "" && Begun(Snapshot()) && ClientFor(log, start, url, policy)
      modifies this
      ensures Inv() && ProjectRel(old(Snapshot()), Snapshot(), r, url, policy)
    {
      var proceed;
      proceed, r := EnsureProject(url);
      if proceed {
        GrowingKeeps(old(log), log, start);
        if deleted {
          r := RemoveProject(url, policy, old(Snapshot()));
        } else {
          r := ApplyToProject(url, policy, old(Snapshot()));
        }
      }
    }

    /** What EnsureProject has found out by the time it lets the steps go on. */
    ghost predicate Ensured(a: Snap, url: string)
      reads this
    {
      && Inv() && url != "" && Along(a, Snapshot()) && Claimed(log, init, url)
      && (InSync(a) ==> MayTouch(a.inst, url, a.env.remote) && CalmEnsured(a, Snapshot(), url))
    }

    method RemoveProject(url: string, policy: DeletionPolicy, ghost a: Snap) returns (r: Result)
      requires Ensured(a, url) && ClientFor(log, start, url, policy) && deleted
      modifies this`stored, this`rev, this`remote, this`log, this`config
      ensures Inv() && ProjectRel(a, Snapshot(), r, url, policy)
    {
      ghost var mid := Snapshot();
      r := RemoveStep(url, policy);
      AlongTransitive(a, mid, Snapshot());
      if InSync(a) {
        EnsuredAndRemoved(a, mid, Snapshot(), r, url, policy);
      }
    }

    method ApplyToProject(url: string, ghost policy: DeletionPolicy, ghost a: Snap) returns (r: Result)
      requires Ensured(a, url) && ClientFor(log, start, url, policy) && !deleted
      modifies this
      ensures Inv() && ProjectRel(a, Snapshot(), r, url, policy)
    {
      ghost var mid := Snapshot();
      r := ApplySpec(url);
      AlongTransitive(a, mid, Snapshot());
      GrowingKeeps(mid.log, log, start);
      if InSync(a) {
        EnsuredAndApplied(a, mid, Snapshot(), r, url, policy);
      }
    }

    /** The template, the generated keys and the client. No URL means the git steps end here. */
    method Prepare() returns (url: string, policy: DeletionPolicy, r: Result)
      requires Inv() && Begun(Snapshot())
      modifies this
      ensures Inv() && Along(old(Snapshot()), Snapshot())
      ensures url == "" && r.err.None? ==>
        ExcusedSince(log, start, |old(log)|) && UnmanagedSince(log, start, |old(log)|)
      ensures url != "" ==> r == PROCEED && Begun(Snapshot()) && ClientFor(log, start, url, policy)
      ensures !r.abort && !r.requeue
      ensures !faulty ==> r.err.None? && CalmPrepared(old(Snapshot()), Snapshot(), url, policy)
    {
      url, policy, r := "", Retain, PROCEED;
      var fetched := FetchTemplate();
      if !fetched {
        r := Result(false, Some("template"), false);
      } else {
        ghost var mid := Snapshot();
        url, policy, r := ClientIfManaged();
        AlongTransitive(old(Snapshot()), mid, Snapshot());
      }
    }

    method ClientIfManaged() returns (url: string, policy: DeletionPolicy, r: Result)
      requires Inv() && Begun(Snapshot())
      modifies this
      ensures Inv() && Along(old(Snapshot()), Snapshot())
      ensures url == "" && r.err.None? ==>
        ExcusedSince(log, start, |old(log)|) && UnmanagedSince(log, start, |old(log)|)
      ensures url != "" ==> r == PROCEED && Begun(Snapshot()) && ClientFor(log, start, url, policy)
      ensures !r.abort && !r.requeue
      ensures !faulty ==>
        && stored == old(stored) && Surroundings() == old(Surroundings()) && NoneCreated(|old(log)|) && r.err.None?
        && if inst.spec.template.IsUnmanaged() then url == "" && inst == old(inst)
           else
             && url == config.endpoint.url && policy == old(inst).spec.template.Policy()
             && inst == old(inst).(status := old(inst.status).(hostKeys := config.endpoint.hostKeys))
    {
      if inst.spec.template.IsUnmanaged() {
        url, policy, r := "", Retain, PROCEED;
        SkipUnmanaged();
      } else {
        url, policy, r := EnsureClient();
      }
    }

    ghost method SkipUnmanaged()
      requires Inv() && Begun(Snapshot()) && inst.spec.template.IsUnmanaged()
      modifies this`log
      ensures Inv() && log == old(log) + [SkippedUnmanaged(inst)]
      ensures ExcusedSince(log, start, |old(log)|) && UnmanagedSince(log, start, |old(log)|)
    {
      ghost var was := log;
      Decided(SkippedUnmanaged(inst));
      assert log[..|was|] == was && Excuse(log, start, |was|);
    }

    ghost predicate NoneCreated(from: nat)
      reads this
    {
      forall k :: from <= k < |log| ==> !log[k].CreateCalled?
    }

    /** The templates of the tenant and of the cluster of the same name replace the spec's. */
    method FetchTemplate() returns (ok: bool)
      requires Inv() && Begun(Snapshot())
      modifies this`inst, this`log, this`stored, this`rev, this`remote, this`config
      ensures Inv() && Along(old(Snapshot()), Snapshot()) && Begun(Snapshot())
      ensures inst == old(inst).(spec := old(inst.spec).(template := inst.spec.template))
      ensures NoneCreated(|old(log)|)
      ensures !faulty ==> ok && stored == old(stored) && Surroundings() == old(Surroundings())
      ensures !faulty ==> inst == Prepared(old(inst), Surroundings())
    {
      ok := ApplyTemplate(false);
      if ok {
        ghost var mid := Snapshot();
        ok := ApplyTemplate(true);
        AlongTransitive(old(Snapshot()), mid, Snapshot());
      }
    }

    method ApplyTemplate(ofCluster: bool) returns (ok: bool)
      requires Inv() && Begun(Snapshot())
      modifies this`inst, this`log, this`stored, this`rev, this`remote, this`config
      ensures Inv() && Along(old(Snapshot()), Snapshot()) && Begun(Snapshot())
      ensures inst == old(inst).(spec := old(inst.spec).(template := inst.spec.template))
      ensures NoneCreated(|old(log)|)
      ensures !faulty ==> ok && stored == old(stored) && Surroundings() == old(Surroundings())
      ensures !faulty ==>
        inst.spec.template == config.TemplateOf(ofCluster).GetOr(old(inst.spec.template))
    {
      Interfere();
      ghost var was := log;
      var t := GetTemplate(ofCluster);
      GrowingKeeps(was, log, start);
      ok := t.Served?;
      if ok && t.value.Some? {
        assert Serves(log[|was|], t.value.value);
        inst := inst.(spec := inst.spec.(template := t.value.value));
      }
    }

    /** The generated deploy keys, and then the client. */
    method EnsureClient() returns (url: string, policy: DeletionPolicy, r: Result)
      requires Inv() && Begun(Snapshot())
      modifies this
      ensures Inv() && Along(old(Snapshot()), Snapshot())
      ensures url != "" ==> r == PROCEED && Begun(Snapshot()) && ClientFor(log, start, url, policy)
      ensures url == "" ==> r.err.Some? && !r.abort && !r.requeue
      ensures !faulty ==> stored == old(stored) && Surroundings() == old(Surroundings()) && NoneCreated(|old(log)|)
      ensures !faulty ==>
        && url == config.endpoint.url && policy == old(inst).spec.template.Policy()
        && inst == old(inst).(status := old(inst.status).(hostKeys := config.endpoint.hostKeys))
    {
      var keysEnsured := CallSucceeds(faulty);
      if keysEnsured {
        Interfere();
        ghost var mid := Snapshot();
        url, policy := GetGitClient();
        AlongTransitive(old(Snapshot()), mid, Snapshot());
        r := if url == "" then Result(false, Some("client"), false) else PROCEED;
      } else {
        r := HandleRepoError("deploy keys");
        url, policy := "", Retain;
      }
    }

    /** The URL of the project the client is for, or none if there is no client. The client keeps
        the deletion policy of this moment. */
    method GetGitClient() returns (url: string, policy: DeletionPolicy)
      requires Inv() && Begun(Snapshot())
      modifies this`inst, this`log
      ensures Inv() && Along(old(Snapshot()), Snapshot()) && Begun(Snapshot())
      ensures inst == old(inst).(status := old(inst.status).(hostKeys := inst.status.hostKeys))
      ensures url != "" ==> ClientFor(log, start, url, policy) && url == config.endpoint.url
      ensures policy == inst.spec.template.Policy()
      ensures NoneCreated(|old(log)|)
      ensures !faulty ==> url != "" && inst.status.hostKeys == config.endpoint.hostKeys
    {
      policy := inst.spec.template.Policy();
      var reached := CallSucceeds(faulty);
      if !reached {
        return "", policy;
      }
      url := config.endpoint.url;
      ServeClient(url, policy);
      inst := inst.(status := inst.status.(hostKeys := config.endpoint.hostKeys));
    }

    ghost method ServeClient(url: string, policy: DeletionPolicy)
      requires Inv() && Begun(Snapshot()) && policy == inst.spec.template.Policy()
      modifies this`log
      ensures Inv() && Begun(Snapshot()) && log == old(log) + [ClientServed(url, policy)]
      ensures ClientFor(log, start, url, policy)
    {
      ghost var was := log;
      Decided(ClientServed(url, policy));
      GrowingKeeps(was, log, start);
      assert log[|was|] == ClientServed(url, policy);
    }

    method RemoveStep(url: string, policy: DeletionPolicy) returns (r: Result)
      requires Inv() && Claimed(log, init, url) && ClientFor(log, start, url, policy) && deleted
      modifies this`stored, this`rev, this`remote, this`log, this`config
      ensures Inv() && Along(old(Snapshot()), Snapshot())
      ensures r.err.None? ==> ExcusedSince(log, start, |old(log)|)
      ensures !r.abort && !r.requeue
      ensures !faulty ==> NoneCreated(|old(log)|) && OnlyAt(url, old(remote), remote)
      ensures !faulty && url in old(remote) ==> r.err.None? && DisposedOf(policy, url, old(remote), remote)
    {
      Interfere();
      ghost var mid := Snapshot();
      var removed := Remove(url, policy);
      RemovedAlong(mid, Snapshot(), url, if removed then [Removed(url, policy, mid.env.remote, remote)] else []);
      AlongTransitive(old(Snapshot()), mid, Snapshot());
      r := if removed then PROCEED else Result(false, Some("remove"), false);
    }

    /** Claims the project's URL, stores the claim, and only then creates the project. */
    method CreateProject(url: string) returns (ok: bool, r: Result)
      requires Inv() && url != "" && JustSeenAbsent(log, url)
      modifies this
      ensures Inv() && Along(old(Snapshot()), Snapshot())
      ensures if ok then r == PROCEED && inst.status.url == url && Claimed(log, init, url)
              else r.err.Some? && !r.abort && !r.requeue
      ensures InSync(old(Snapshot())) && url !in old(remote) ==> ok && CalmEnsured(old(Snapshot()), Snapshot(), url)
    {
      ok := StoreClaim(url);
      if !ok {
        return false, Result(false, Some("set status"), false);
      }
      Interfere();
      ghost var claimed := |log|;
      ok, r := CreateClaimed(url);
      assert ok ==> log[claimed] == CreateCalled(url);
    }

    method StoreClaim(url: string) returns (ok: bool)
      requires Inv() && url != "" && JustSeenAbsent(log, url)
      modifies this
      ensures Inv() && Along(old(Snapshot()), Snapshot()) && inst.status.url == url
      ensures Claimed(log, init, url) && (ok ==> EventOk(log, init, CreateCalled(url)))
      ensures !faulty ==> Surroundings() == old(Surroundings())
      ensures InSync(old(Snapshot())) ==>
        && ok && log == old(log) + [StatusWritten(inst.status)]
        && inst.status == old(inst.status).(url := url, phase := Some(Creating))
        && inst.spec == Overlaid(old(inst.spec), old(stored).value.spec)
        && stored.Some? && stored.value.status == inst.status
    {
      AbsentGrants(log, init, url, inst.status.(url := url, phase := Some(Creating)));
      inst := inst.(status := inst.status.(url := url, phase := Some(Creating)));
      Interfere();
      ghost var mid := Snapshot();
      var reply := UpdateStatus();
      AlongTransitive(old(Snapshot()), mid, Snapshot());
      ok := reply.Stored?;
    }

    /** A failed creation gives the claim up again. */
    method CreateClaimed(url: string) returns (ok: bool, r: Result)
      requires Inv() && EventOk(log, init, CreateCalled(url)) && inst.status.url == url
      modifies this
      ensures Inv() && Along(old(Snapshot()), Snapshot())
      ensures if ok then r == PROCEED && inst.status.url == url && Claimed(log, init, url)
              else r.err.Some? && !r.abort && !r.requeue && inst.status.url == ""
      ensures ok ==> inst == old(inst) && stored == old(stored) && log == old(log) + [CreateCalled(url)]
      ensures !faulty && url !in old(remote) ==> ok && url in remote && OnlyAt(url, old(remote), remote)
    {
      ghost var was := log;
      var created := Create(url);
      ClaimedStays(was, log, init);
      if created {
        return true, PROCEED;
      }
      ghost var mid := Snapshot();
      r := GiveUpClaim();
      AlongTransitive(old(Snapshot()), mid, Snapshot());
      ok := false;
    }

    method GiveUpClaim() returns (r: Result)
      requires Inv()
      modifies this
      ensures Inv() && Along(old(Snapshot()), Snapshot()) && Surroundings() == old(Surroundings())
      ensures r.err.Some? && !r.abort && !r.requeue && inst.status.url == ""
    {
      inst := inst.(status := inst.status.(url := ""));
      ghost var mid := Snapshot();
      r := HandleRepoError("create");
      AlongTransitive(old(Snapshot()), mid, Snapshot());
    }

    /** Makes sure the project exists and is this GitRepo's to touch. Without an error the
        answer tells the git steps to end here: the object is being deleted and never had a
        right to the project. */
    method EnsureProject(url: string) returns (proceed: bool, r: Result)
      requires Inv() && url != "" && Begun(Snapshot()) && ClientAt(log, start, url)
      modifies this
      ensures Inv() && Along(old(Snapshot()), Snapshot())
      ensures proceed ==> Claimed(log, init, url)
      ensures !proceed && r.err.None? ==> deleted && ExcusedSince(log, start, |old(log)|)
      ensures !r.abort && !r.requeue
      ensures InSync(old(Snapshot())) ==>
                && (proceed <==> MayTouch(old(inst), url, old(remote)))
                && (proceed ==> CalmEnsured(old(Snapshot()), Snapshot(), url))
                && (!proceed ==> Surroundings() == old(Surroundings()) && NoneCreated(|old(log)|))
                && (r.err.Some? ==> !deleted && RefusedSince(log, |old(log)|))
    {
      proceed, r := FindOrCreate(url);
      if proceed {
        ghost var mid := Snapshot();
        proceed, r := Admit(url);
        AlongTransitive(old(Snapshot()), mid, Snapshot());
      }
    }

    /** The project at url is there, found or created. */
    method FindOrCreate(url: string) returns (ok: bool, r: Result)
      requires Inv() && url != ""
      modifies this
      ensures Inv() && Along(old(Snapshot()), Snapshot())
      ensures if ok then r == PROCEED else r.err.Some? && !r.abort && !r.requeue
      ensures ok ==> (inst.status.url == url && Claimed(log, init, url)) || (inst == old(inst) && log == old(log))
      ensures InSync(old(Snapshot())) ==>
                && ok && CalmEnsured(old(Snapshot()), Snapshot(), url)
                && (if url in old(remote) then log == old(log) else inst.status.url == url)
    {
      Interfere();
      var found := Read(url);
      if found.ReadFailed? {
        return false, Result(false, Some("read"), false);
      }
      ok, r := true, PROCEED;
      if found.NotFound? {
        ghost var mid := Snapshot();
        ok, r := CreateProject(url);
        AlongTransitive(old(Snapshot()), mid, Snapshot());
      }
    }

    /** The project is this GitRepo's, or may be adopted. */
    method Admit(url: string) returns (proceed: bool, r: Result)
      requires Inv() && url != ""
      requires inst.status.url == url || (Begun(Snapshot()) && ClientAt(log, start, url))
      modifies this
      ensures Inv() && Along(old(Snapshot()), Snapshot()) && Surroundings() == old(Surroundings())
      ensures NoneCreated(|old(log)|) && (proceed ==> inst == old(inst) && stored == old(stored))
      ensures proceed <==> old(inst.status.url) == url || old(inst).spec.template.Adopts()
      ensures proceed ==> Claimed(log, init, url) && r == PROCEED
      ensures !proceed && r.err.None? ==> deleted && ExcusedSince(log, start, |old(log)|)
      ensures !proceed && r.err.Some? ==> !deleted && RefusedSince(log, |old(log)|)
      ensures !r.abort && !r.requeue
    {
      proceed, r := inst.status.url == url || inst.spec.template.Adopts(), PROCEED;
      if !proceed {
        r := TurnAway(url);
      } else if inst.status.url != url {
        ghost var was := log;
        Decided(PassedAdopt(url, inst));
        assert Grants(log[|was|], url);
      }
    }

    /** The project is somebody else's: an error, unless the object is being deleted. */
    method TurnAway(url: string) returns (r: Result)
      requires Inv() && Begun(Snapshot()) && ClientAt(log, start, url)
      requires inst.status.url != url && !inst.spec.template.Adopts()
      modifies this
      ensures Inv() && Along(old(Snapshot()), Snapshot()) && Surroundings() == old(Surroundings())
      ensures NoneCreated(|old(log)|)
      ensures r.err.None? ==> r == PROCEED && deleted && ExcusedSince(log, start, |old(log)|)
      ensures r.err.Some? ==> !r.abort && !r.requeue && !deleted && RefusedSince(log, |old(log)|)
    {
      ghost var was := log;
      if deleted {
        Decided(SkippedNotOwned(url, inst));
        assert log[..|was|] == was && Excuse(log, start, |was|);
        r := PROCEED;
      } else {
        r := Refuse(url);
      }
    }

    method Refuse(url: string) returns (r: Result)
      requires Inv() && Begun(Snapshot()) && ClientAt(log, start, url)
      requires inst.status.url != url && !inst.spec.template.Adopts() && !deleted
      modifies this
      ensures Inv() && Along(old(Snapshot()), Snapshot()) && Surroundings() == old(Surroundings())
      ensures NoneCreated(|old(log)|)
      ensures r.err.Some? && !r.abort && !r.requeue && !deleted && RefusedSince(log, |old(log)|)
    {
      LogRefusal(url);
      ghost var mid := Snapshot();
      r := HandleRepoError("adopt");
      RefusedStays(mid.log, log, |old(log)|);
      AlongTransitive(old(Snapshot()), mid, Snapshot());
    }

    ghost method LogRefusal(url: string)
      requires Inv() && Begun(Snapshot()) && ClientAt(log, start, url)
      requires inst.status.url != url && !inst.spec.template.Adopts()
      modifies this`log
      ensures Inv() && log == old(log) + [RefusedForeign(url, inst)] && RefusedSince(log, |old(log)|)
    {
      ghost var was := log;
      Decided(RefusedForeign(url, inst));
      assert log[|was|].RefusedForeign?;
    }

    /** Token, variables, files and keys, each of which may fail. */
    method ApplySpec(url: string) returns (r: Result)
      requires Inv() && Claimed(log, init, url) && url != "" && !deleted
      modifies this
      ensures Inv() && Along(old(Snapshot()), Snapshot())
      ensures r.err.None? ==>
                && inst == old(inst).(status := Done(old(inst.status), url))
                && AppliedAt(log, |old(log)|, url)
      ensures !r.abort && !r.requeue
      ensures !faulty ==>
                && r.err.None? && stored == old(stored) && NoneCreated(|old(log)|)
                && remote.Keys == old(remote).Keys && OnlyAt(url, old(remote), remote)
    {
      var ok := Apply(url);
      ghost var mid := Snapshot();
      ClaimedStays(old(log), log, init);
      if ok {
        inst := inst.(status := inst.status.(phase := Some(Created), url := url));
        r := PROCEED;
      } else {
        r := HandleRepoError("apply");
        AlongTransitive(old(Snapshot()), mid, Snapshot());
      }
    }

    method Apply(url: string) returns (ok: bool)
      requires Inv() && Claimed(log, init, url) && !deleted
      modifies this`stored, this`rev, this`remote, this`log, this`config
      ensures Inv() && Along(old(Snapshot()), Snapshot())
      ensures ok ==> log == old(log) + Applied(url, |APPLY_CALLS|)
      ensures !faulty ==> ok && stored == old(stored)
      ensures !faulty ==> remote.Keys == old(remote).Keys && OnlyAt(url, old(remote), remote)
    {
      for i := 0 to |APPLY_CALLS|
        invariant Inv() && Along(old(Snapshot()), Snapshot()) && Claimed(log, init, url)
        invariant log == old(log) + Applied(url, i)
        invariant !faulty ==> stored == old(stored)
        invariant !faulty ==> remote.Keys == old(remote).Keys && OnlyAt(url, old(remote), remote)
      {
        ghost var mid := Snapshot();
        ok := ApplyCall(APPLY_CALLS[i], url);
        AlongTransitive(old(Snapshot()), mid, Snapshot());
        assert Applied(url, i + 1) == Applied(url, i) + [Touched(APPLY_CALLS[i], url)];
        if !ok {
          return;
        }
      }
      ok := true;
    }

    method ApplyCall(call: Call, url: string) returns (ok: bool)
      requires Inv() && Claimed(log, init, url) && !deleted && !call.RemoveRepo?
      modifies this`stored, this`rev, this`remote, this`log, this`config
      ensures Inv() && Along(old(Snapshot()), Snapshot()) && Claimed(log, init, url)
      ensures log == old(log) + [Touched(call, url)]
      ensures !faulty ==> ok && stored == old(stored)
      ensures !faulty ==> remote.Keys == old(remote).Keys && OnlyAt(url, old(remote), remote)
    {
      Interfere();
      ghost var was := log;
      ok := Touch(call, url);
      ClaimedStays(was, log, init);
    }

    // ---- The pipeline ----

    method RunStep(step: StepName) returns (r: Result)
      requires Inv() && (step == GitSpecific ==> Begun(Snapshot()))
      modifies this
      ensures Inv() && StepRel(step, protect, old(Snapshot()), Snapshot(), r)
      decreases if step == CommonSteps then 2 else 0
    {
      r := PROCEED;
      match step {
        case CopyOriginal =>
          orig := inst;
        case DeletionCheck =>
          if inst.meta.deleting {
            deleted := true;
          }
        case GitSpecific =>
          r := GitSteps();
        case TenantLabel =>
          inst := inst.(meta := inst.meta.(labels := inst.meta.labels[TENANT_LABEL := inst.spec.tenant]));
        case CommonSteps =>
          r := Common();
        case HandleDeletion =>
          if deleted {
            var isProtected := PROTECT_ANNOTATION in inst.meta.annotations
              && ParseBool(inst.meta.annotations[PROTECT_ANNOTATION]).GetOr(true);
            if !(RepoFinalizer in inst.meta.finalizers && !isProtected) {
              r := Result(false, Some("finalizer"), false);
            }
          }
        case DeletionProtection =>
          if !deleted && protect && PROTECT_ANNOTATION !in inst.meta.annotations {
            inst := inst.(meta := inst.meta.(annotations := inst.meta.annotations[PROTECT_ANNOTATION := "true"]));
          }
        case HandleFinalizer =>
          if !deleted {
            inst := inst.(meta := inst.meta.(finalizers := inst.meta.finalizers + {RepoFinalizer}));
          } else {
            inst := inst.(meta := inst.meta.(finalizers := inst.meta.finalizers - {RepoFinalizer}));
          }
        case UpdateObject =>
          r := Update();
      }
    }

    /** Stores the object if it differs from the copy made at the start, then its status if
        that differs. After the first write the version in memory is out of date, so that
        the second is refused. */
    method Update() returns (r: Result)
      requires Inv()
      modifies this`stored, this`rev, this`remote, this`log, this`config
      ensures Inv() && UpdateRel(old(Snapshot()), Snapshot(), r)
    {
      if inst.(status := orig.status) != orig {
        Interfere();
        var reply := UpdateStored();
        if !reply.Stored? {
          return Unwritten(reply);
        }
      }
      r := UpdateStatusIfChanged();
    }

    function Unwritten(reply: WriteReply): Result {
      if reply.Conflict? then Result(false, None, true) else Result(false, Some("update"), false)
    }

    method UpdateStatusIfChanged() returns (r: Result)
      requires Inv()
      modifies this`stored, this`rev, this`remote, this`log, this`config
      ensures Inv() && Snapshot() == old(Snapshot()).(log := log, stored := stored, env := Surroundings())
      ensures !faulty ==> Surroundings() == old(Surroundings())
      ensures log == old(log) || log == old(log) + [StatusWritten(inst.status)]
      ensures old(Stale()) ==> log == old(log)
      ensures (r.abort ==> r.err.None? && !r.requeue) && (r.err.Some? ==> !r.requeue)
      ensures r.abort || r.err.Some? || r.requeue
      ensures !faulty ==> (forall o :: Landed(o, old(stored)) ==> Landed(o, stored)) && (stored.Some? ==> r.err.None?)
      ensures !faulty && old(stored).Some? && stored.Some? ==>
        stored.value.status ==
          if inst.status != orig.status && old(stored).value.rv == inst.rv then inst.status
          else old(stored).value.status
      ensures inst.status == orig.status || (!faulty && old(Stale())) ==> stored == old(stored)
    {
      if inst.status != orig.status {
        Interfere();
        var reply := PutStatus();
        if !reply.Stored? {
          return Unwritten(reply);
        }
      }
      return Result(true, None, false);
    }

    method Common() returns (r: Result)
      requires Inv()
      modifies this
      ensures Inv() && CommonRel(protect, old(Snapshot()), Snapshot(), r)
      decreases 1, 1
    {
      ghost var trace, answers;
      r, trace, answers := RunPipeline(COMMON_STEPS);
      CommonRan(protect, trace, answers, r);
    }

    method RunPipeline(steps: seq<StepName>) returns (r: Result, ghost trace: seq<Snap>, ghost answers: seq<Result>)
      requires Inv() && GitEarly(steps) && (GitSpecific in steps ==> Begun(Snapshot()))
      modifies this
      ensures Inv() && Ran(steps, protect, trace, answers, r)
      ensures trace[0] == old(Snapshot()) && trace[|trace| - 1] == Snapshot()
      decreases if CommonSteps in steps then 3 else 1, 0
    {
      trace, answers := [Snapshot()], [];
      for i := 0 to |steps|
        invariant Inv() && |answers| == i && |trace| == i + 1
        invariant trace[0] == old(Snapshot()) && trace[i] == Snapshot()
        invariant forall k :: 0 <= k < i ==> StepRel(steps[k], protect, trace[k], trace[k + 1], answers[k])
        invariant forall k :: 0 <= k < i ==> !answers[k].Stops()
        invariant GitAhead(steps, i) ==> Begun(Snapshot())
      {
        r := RunStep(steps[i]);
        trace, answers := trace + [Snapshot()], answers + [r];
        BegunStill(steps, i, protect, trace[i], Snapshot(), r);
        if r.Stops() {
          r := if r.err.None? then Result(false, None, r.requeue)
               else Result(false, Some("step failed: " + r.err.value), false);
          Recorded(steps, protect, trace, answers, r);
          return;
        }
      }
      r := PROCEED;
      Recorded(steps, protect, trace, answers, r);
    }

    /** One run. Whatever fails and whoever interferes, every call on a project is made by
        right and every decision rests on what the servers answered (Inv), a project is removed
        only for an object being deleted and worked on only for a live one, the object is stored
        without its finalizer only with an excuse from this run, and a protected object that is
        being deleted is not stored at all. Without an error there was nothing to do or it has
        been done. */
    method Reconcile() returns (r: Result)
      requires Inv()
      modifies this
      ensures Inv() && old(log) <= log && !r.requeue
      ensures forall k :: |old(log)| < k < |log| ==> !log[k].ObjectServed? && DoneOk(log, |old(log)|, k)
      ensures |log| > |old(log)| ==> log[|old(log)|].ObjectServed? || log[|old(log)|].ObjectAbsent?
      ensures r.err.None? ==>
        && |log| > |old(log)|
        && (log[|old(log)|].ObjectServed? ==>
              Finished(log[|old(log)|].o.meta.deleting, log, |old(log)|, |old(log)|))
      ensures !faulty && old(stored).Some? ==>
        && |log| > |old(log)| && log[|old(log)|] == ObjectServed(old(stored).value)
        && CalmOutcome(protect, old(stored).value, old(Surroundings()), stored, Surroundings(), r)
        && CalmFate(old(stored).value, old(Surroundings()), Surroundings(), log, |old(log)|)
        && PlainOutcome(protect, old(stored).value, old(Surroundings()), stored, r)
        && PlainFate(old(stored).value, old(Surroundings()), remote)
    {
      Interfere();
      var got := Begin();
      if got.Refused? || got.value.None? {
        return if got.Refused? then Result(false, Some("get"), false) else PROCEED;
      }
      r := RunRepoSteps();
    }

    /** The steps of a run that has just read the object. */
    method RunRepoSteps() returns (r: Result)
      requires Inv() && Begun(Snapshot()) && JustRead(Snapshot()) && !deleted && read == inst && stored == Some(inst)
      modifies this
      ensures Inv() && old(log) <= log && start == old(start) && !r.requeue
      ensures forall k :: start < k < |log| ==> !log[k].ObjectServed? && DoneOk(log, start, k)
      ensures r.err.None? ==> Finished(old(inst).meta.deleting, log, start, start)
      ensures !faulty ==>
        && CalmOutcome(protect, old(inst), old(Surroundings()), stored, Surroundings(), r)
        && CalmFate(old(inst), old(Surroundings()), Surroundings(), log, start)
        && PlainOutcome(protect, old(inst), old(Surroundings()), stored, r)
        && PlainFate(old(inst), old(Surroundings()), remote)
    {
      ghost var trace, answers;
      r, trace, answers := RunPipeline(REPO_STEPS);
      RepoRan(protect, trace, answers, r);
      if !faulty {
        CalmRan(protect, trace, answers, r);
        InPlainTerms(protect, trace[0].inst, trace[0].env, stored, Surroundings(), r, log, start);
      }
    }

    /** Reads the object and makes a context for it. */
    method Begin() returns (got: Reply<Option<Object>>)
      requires Inv()
      modifies this`inst, this`orig, this`deleted, this`read, this`start, this`log
      ensures Inv() && start == |old(log)| && (!faulty ==> got.Served?)
      ensures got.Served? && got.value.Some? ==>
        && log == old(log) + [ObjectServed(inst)] && stored == Some(inst)
        && !deleted && read == inst && Begun(Snapshot())
      ensures got.Served? ==> got.value == stored
      ensures got.Refused? ==> log == old(log)
      ensures got.Served? && got.value.None? ==> log == old(log) + [ObjectAbsent]
    {
      start := |log|;
      got := GetObject();
      if got.Served? && got.value.Some? {
        inst, orig, deleted, read := got.value.value, got.value.value, false, got.value.value;
        assert Serves(log[start], inst.spec.template) && log[start].o.status.url == inst.status.url;
      }
    }

    /** Any number of runs: the log stays lawful, and whatever they do is done by right of the
        object read last. Undisturbed, a live object has everything stored after three runs,
        and then nothing is written any more. */
    method Operate(runs: nat)
      requires Inv()
      modifies this
      ensures Inv() && Lawful(log, init) && old(log) <= log
      ensures forall k :: |old(log)| <= k < |log| ==> ByRight(log, k)
      ensures !faulty && old(stored).Some? && Admissible(old(stored).value, old(Surroundings())) ==>
        && stored.Some? && Admissible(stored.value, Surroundings())
        && Distance(protect, stored.value, Surroundings()) <=
             Without(Distance(protect, old(stored).value, old(Surroundings())), runs)
        && (Distance(protect, old(stored).value, old(Surroundings())) == 0 ==> stored == old(stored))
    {
      for i := 0 to runs
        invariant Inv() && old(log) <= log
        invariant forall k :: |old(log)| <= k < |log| ==> ByRight(log, k)
        invariant !faulty && old(stored).Some? && Admissible(old(stored).value, old(Surroundings())) ==>
          && stored.Some? && Admissible(stored.value, Surroundings())
          && Distance(protect, stored.value, Surroundings()) <=
               Without(Distance(protect, old(stored).value, old(Surroundings())), i)
          && (Distance(protect, old(stored).value, old(Surroundings())) == 0 ==> stored == old(stored))
      {
        ghost var was := log;
        var r := Reconcile();
        forall k | |old(log)| <= k < |log| ensures ByRight(log, k) {
          StillByRight(was, log, k);
        }
      }
    }
  }

  /** A GitRepo that is deleted before its project was ever made: an undisturbed run makes the
      project after all, and leaves it. */
  method DeletedTooEarly(url: string) returns (c: GitRepoReconciler)
    requires url != ""
    ensures fresh(c) && !c.faulty && c.log != [] && c.log[0].ObjectServed? && c.log[0].o.meta.deleting
    ensures CreatedSince(c.log, 0, url) && url in c.remote
    ensures c.stored.Some? ==> RepoFinalizer !in c.stored.value.meta.finalizers
  {
    var meta := Meta(true, {RepoFinalizer}, map[], map[]);
    var o := Object(1, meta, Spec(Template(None, None, None), "t"), Status("", None, ""));
    var env := Env(map[], Config(None, None, Endpoint(url, "")));
    c := new GitRepoReconciler(false, false, o, env);
    var r := c.Reconcile();
    DeletionCreates(o, env, c.Surroundings(), c.log, 0);
  }

  function Without(n: nat, k: nat): nat {
    if n <= k then 0 else n - k
  }

  lemma StillByRight(was: Log, log: Log, k: nat)
    requires was <= log && k < |log|
    requires k < |was| ==> ByRight(was, k)
    requires k >= |was| ==> log[|was|].ObjectServed? || log[|was|].ObjectAbsent?
    requires forall i :: |was| < i < |log| ==> !log[i].ObjectServed? && DoneOk(log, |was|, i)
    ensures ByRight(log, k)
  {
    if log[k].ObjectWritten? || log[k].Touched? {
      if k < |was| {
        assert was[k] == log[k];
        var start :| LastRead(was, start, k) && DoneOk(was, start, k);
        DoneOkStays(was, log, start, k);
        assert LastRead(log, start, k);
      } else {
        assert LastRead(log, |was|, k);
      }
    }
  }
}
