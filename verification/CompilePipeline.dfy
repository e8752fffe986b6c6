/** The compile pipeline controller: finalizers first, then the tenant's variables, then its
    status, and only then the release of deleted clusters. */
module CompilePipeline {
  import opened Wrappers
  import opened EnvVars
  import opened Strings
  import opened ClusterStore
  import opened CompileVars

  // ---- What one run knows while others keep writing ----

  /** The listed copies are as old as this store, and a copy whose version is still current
      is the stored object. */
  ghost predicate Tracks(s: State, cs: seq<Cluster>) {
    forall c :: c in cs ==>
      && ClusterOk(s, c.name, c) && c.tenant == s.tn
      && (Current(s, c) ==> s.clusters[c.name] == c)
      && (c.name in s.clusters && s.clusters[c.name].uid == c.uid ==> s.clusters[c.name].tenant == s.tn)
      && (c.deleting && PipelineFinalizer !in c.finalizers ==> Released(s, c))
  }

  /** The listed object is still there, under the pipeline finalizer. */
  ghost predicate HeldAs(s: State, c: Cluster) {
    Held(s, c.name) && s.clusters[c.name].uid == c.uid && s.clusters[c.name].unmanaged == c.unmanaged
  }

  ghost predicate Guarded(s: State, cs: seq<Cluster>) {
    forall c :: c in cs && !c.deleting && PipelineFinalizer in c.finalizers ==> HeldAs(s, c)
  }

  ghost predicate GuardedUpTo(s: State, cs: seq<Cluster>, n: nat)
    requires n <= |cs|
  {
    forall i :: 0 <= i < n && !cs[i].deleting ==> HeldAs(s, cs[i])
  }

  /** The object is gone, or free of the pipeline finalizer. */
  ghost predicate Released(s: State, c: Cluster) {
    c.name in s.clusters && s.clusters[c.name].uid == c.uid ==> PipelineFinalizer !in s.clusters[c.name].finalizers
  }

  /** Every cluster these variables name is in the listing, under the pipeline finalizer. */
  ghost predicate Covers(cs: seq<Cluster>, vars: seq<EnvVar>) {
    forall n :: ValidName(n) && Has(vars, AccessVar(n)) ==> exists c :: c in cs && c.name == n && !c.unmanaged
  }

  /** These variables name none but clusters that were not being deleted when listed. */
  ghost predicate NamesOnlyLive(cs: seq<Cluster>, vars: seq<EnvVar>) {
    && (forall n :: n in Listed(vars) ==> exists c :: c in cs && c.name == n && !c.deleting)
    && (forall n :: ValidName(n) && Has(vars, AccessVar(n)) ==>
      exists c :: c in cs && c.name == n && !c.deleting && !c.unmanaged)
  }

  lemma TakeOneMore<T>(xs: seq<T>, i: nat)
    requires i < |xs|
    ensures xs[..i + 1] == xs[..i] + [xs[i]]
  {
  }

  lemma TakeNoneAndAll<T>(xs: seq<T>)
    ensures xs[..0] == [] && xs[..|xs|] == xs
  {
  }

  lemma InterferenceKeepsHeldAs(s: State, s': State, c: Cluster)
    requires WellFormed(s) && Interference(s, s') && HeldAs(s, c)
    ensures HeldAs(s', c)
  {
  }

  lemma InterferenceKeepsTracks(s: State, s': State, cs: seq<Cluster>)
    requires WellFormed(s) && Interference(s, s') && Tracks(s, cs)
    ensures Tracks(s', cs)
  {
  }

  lemma InterferenceKeepsGuards(s: State, s': State, cs: seq<Cluster>, n: nat)
    requires WellFormed(s) && Interference(s, s') && Guarded(s, cs) && n <= |cs| && GuardedUpTo(s, cs, n)
    ensures Guarded(s', cs) && GuardedUpTo(s', cs, n)
  {
  }

  lemma InterferenceKeepsReleased(s: State, s': State, cs: seq<Cluster>, c: Cluster)
    requires WellFormed(s) && Interference(s, s') && Tracks(s, cs) && c in cs && Released(s, c)
    ensures Released(s', c)
  {
  }

  /** A write to a listed cluster that keeps its identity. */
  ghost predicate Rewrite(c: Cluster, c': Cluster) {
    c'.name == c.name && c'.uid == c.uid && c'.rv == c.rv && c'.tenant == c.tenant && c'.unmanaged == c.unmanaged &&
    c'.deleting == c.deleting
  }

  lemma RewriteKeepsWellFormed(s: State, cs: seq<Cluster>, c: Cluster, c': Cluster)
    requires WellFormed(s) && Tracks(s, cs) && DistinctNames(cs) && c in cs && Rewrite(c, c') && Current(s, c)
    requires c.deleting && PipelineFinalizer !in c.finalizers ==> PipelineFinalizer !in c'.finalizers
    ensures Tracks(PutCluster(s, c'), cs) && WellFormed(PutCluster(s, c'))
  {
  }

  lemma RewriteKeepsHeldAs(s: State, c: Cluster, c': Cluster, d: Cluster)
    requires Rewrite(c, c') && c.tenant == s.tn && HeldAs(s, d) && Current(s, c) && s.clusters[c.name] == c
    requires d.name == c.name ==> PipelineFinalizer in c'.finalizers
    ensures HeldAs(PutCluster(s, c'), d)
  {
  }

  lemma RewriteKeepsProtects(s: State, c: Cluster, c': Cluster, vars: seq<EnvVar>)
    requires Rewrite(c, c') && c.tenant == s.tn && Protects(s, vars) && Current(s, c) && s.clusters[c.name] == c
    requires PipelineFinalizer in c'.finalizers || !Names(vars, c.name)
    ensures Protects(PutCluster(s, c'), vars)
  {
  }

  /** The variables computed from a listing name none but live clusters, however the tenant
      was before. */
  lemma WantedNamesOnlyLive(enabled: bool, tenant: string, url: string, before: seq<EnvVar>,
                            after: seq<EnvVar>, cs: seq<Cluster>)
    requires DistinctNames(cs) && Covers(cs, before) && forall c :: c in cs ==> ValidName(c.name)
    requires Reached(GoalOf(enabled, tenant, url, cs), before, after, cs)
    ensures NamesOnlyLive(cs, after)
    ensures enabled ==> Listed(after) == LiveNames(cs)
    ensures !enabled ==> Listed(after) == []
  {
    var g := GoalOf(enabled, tenant, url, cs);
    LiveNamesMembers(cs);
    assert Lookup(after, CLUSTERS) == Want(g, CLUSTERS, before, cs);
    if enabled {
      forall n | n in LiveNames(cs) ensures ValidName(n) {
        var c :| c in cs && c.name == n && c.enabled && !c.deleting;
      }
      LookupListed(after, LiveNames(cs), Lookup(after, CLUSTERS).value);
    }
    forall n | ValidName(n) && Has(after, AccessVar(n))
      ensures exists c :: c in cs && c.name == n && !c.deleting && !c.unmanaged
    {
      WantedAccessIsLive(g, before, cs, n);
    }
  }

  lemma WantedAccessIsLive(g: Goal, before: seq<EnvVar>, cs: seq<Cluster>, n: string)
    requires DistinctNames(cs) && Covers(cs, before) && ValidName(n) && Want(g, AccessVar(n), before, cs).Some?
    ensures exists c :: c in cs && c.name == n && !c.deleting && !c.unmanaged
  {
    AccessVarInverse(n);
    if Has(before, AccessVar(n)) {
      var c :| c in cs && c.name == n && !c.unmanaged;
      FindMember(cs, c);
    }
    var r := Find(cs, n);
    assert r.Some? && !r.value.unmanaged;
  }

  function WithFinalizer(c: Cluster): Cluster {
    c.(finalizers := c.finalizers + {PipelineFinalizer})
  }

  function WithoutFinalizer(c: Cluster): Cluster {
    c.(finalizers := c.finalizers - {PipelineFinalizer})
  }

  lemma AddingIsSafe(s: State, cs: seq<Cluster>, c: Cluster)
    requires WellFormed(s) && Safe(s) && Tracks(s, cs) && DistinctNames(cs) && c in cs && !c.deleting && Current(s, c)
    ensures var s' := PutCluster(s, WithFinalizer(c));
            && WellFormed(s') && Safe(s') && Tracks(s', cs) && HeldAs(s', c)
            && forall d :: HeldAs(s, d) ==> HeldAs(s', d)
  {
    RewriteKeepsWellFormed(s, cs, c, WithFinalizer(c));
    if s.tenant.Some? {
      RewriteKeepsProtects(s, c, WithFinalizer(c), s.tenant.value.vars);
    }
    forall d | HeldAs(s, d) ensures HeldAs(PutCluster(s, WithFinalizer(c)), d) {
      RewriteKeepsHeldAs(s, c, WithFinalizer(c), d);
    }
  }

  /** Once the stored variables are the wanted ones, a deleting cluster is named by none. */
  lemma ReleasingIsSafe(s: State, cs: seq<Cluster>, vars: seq<EnvVar>, c: Cluster)
    requires WellFormed(s) && Safe(s) && Tracks(s, cs) && DistinctNames(cs) && c in cs && c.deleting && Current(s, c)
    requires StoredAmong(s, vars) && NamesOnlyLive(cs, vars)
    ensures var s' := PutCluster(s, WithoutFinalizer(c));
            && WellFormed(s') && Safe(s') && Tracks(s', cs) && StoredAmong(s', vars) && Released(s', c)
            && forall d :: d in cs && d.name != c.name && Released(s, d) ==> Released(s', d)
  {
    RewriteKeepsWellFormed(s, cs, c, WithoutFinalizer(c));
    if s.tenant.Some? {
      var stored := s.tenant.value.vars;
      assert !Names(vars, c.name);
      AmongNames(stored, vars, c.name);
      RewriteKeepsProtects(s, c, WithoutFinalizer(c), stored);
    }
  }

  lemma AmongNames(a: seq<EnvVar>, b: seq<EnvVar>, n: string)
    requires ManagedAmong(a, b)
    ensures Names(a, n) ==> Names(b, n)
  {
    assert ManagedVar(CLUSTERS);
    if ValidName(n) && Has(a, AccessVar(n)) {
      AccessVarInverse(n);
      assert ManagedVar(AccessVar(n));
    }
  }

  // ---- The run nobody disturbs ----

  /** What becomes of a listed cluster: added and released say which loops have reached it. */
  ghost predicate Evolved(s: State, c: Cluster, added: bool, released: bool) {
    var finalizers :=
      if c.deleting then (if released then c.finalizers - {PipelineFinalizer} else c.finalizers)
      else if added then c.finalizers + {PipelineFinalizer} else c.finalizers;
    if c.deleting && finalizers == {} then c.name !in s.clusters
    else
      && c.name in s.clusters
      && s.clusters[c.name] == c.(rv := s.clusters[c.name].rv, finalizers := finalizers)
      && (finalizers == c.finalizers ==> s.clusters[c.name] == c)
  }

  ghost predicate Stage(s0: State, s: State, cs: seq<Cluster>, added: nat, released: nat) {
    && s.tn == s0.tn
    && (forall i :: 0 <= i < |cs| ==> Evolved(s, cs[i], i < added, i < released))
    && (forall n :: n in s.clusters ==> n in s0.clusters)
    && (forall n :: n in s0.clusters && (forall c :: c in cs ==>
      c.name != n) ==> n in s.clusters && s.clusters[n] == s0.clusters[n])
  }

  /** The state one undisturbed run leaves: nothing is left to do. */
  ghost predicate SettledFor(s: State, url: string, cs: seq<Cluster>)
    requires s.tenant.Some?
  {
    var t := s.tenant.value;
    && Reached(GoalOf(t.enabled, t.name, url, cs), t.vars, t.vars, cs)
    && t.status == (if t.enabled then LiveNames(cs) else [])
    && forall c :: c in cs ==> (c.deleting <==> PipelineFinalizer !in c.finalizers)
  }

  ghost predicate Settled(s: State, url: string) {
    s.tenant.Some? ==> forall cs :: Listing(s, cs) ==> SettledFor(s, url, cs)
  }

  lemma StageCurrent(s0: State, s: State, cs: seq<Cluster>, i: nat, added: nat, released: nat)
    requires i < |cs| && Stage(s0, s, cs, added, released) && (cs[i].deleting ==> cs[i].finalizers != {})
    requires if cs[i].deleting then released <= i else added <= i
    ensures Current(s, cs[i]) && s.clusters[cs[i].name] == cs[i]
  {
  }

  lemma StageSkips(s0: State, s: State, cs: seq<Cluster>, i: nat)
    requires i < |cs|
    ensures Stage(s0, s, cs, i, 0) && (cs[i].deleting || PipelineFinalizer in cs[i].finalizers) ==>
      Stage(s0, s, cs, i + 1, 0)
    ensures Stage(s0, s, cs, |cs|, i) && (!cs[i].deleting || PipelineFinalizer !in cs[i].finalizers) ==>
      Stage(s0, s, cs, |cs|, i + 1)
  {
    var c := cs[i];
    assert PipelineFinalizer in c.finalizers ==> c.finalizers + {PipelineFinalizer} == c.finalizers;
    assert PipelineFinalizer !in c.finalizers ==> c.finalizers - {PipelineFinalizer} == c.finalizers;
    if Stage(s0, s, cs, i, 0) && (c.deleting || PipelineFinalizer in c.finalizers) {
      forall j | 0 <= j < |cs| ensures Evolved(s, cs[j], j < i + 1, j < 0) {
        assert Evolved(s, cs[j], j < i, j < 0);
      }
    }
    if Stage(s0, s, cs, |cs|, i) && (!c.deleting || PipelineFinalizer !in c.finalizers) {
      forall j | 0 <= j < |cs| ensures Evolved(s, cs[j], j < |cs|, j < i + 1) {
        assert Evolved(s, cs[j], j < |cs|, j < i);
      }
    }
  }

  lemma StageAdds(s0: State, s: State, cs: seq<Cluster>, i: nat)
    requires DistinctNames(cs) && i < |cs| && Stage(s0, s, cs, i, 0) && !cs[i].deleting
    requires PipelineFinalizer !in cs[i].finalizers
    ensures Stage(s0, PutCluster(s, WithFinalizer(cs[i])), cs, i + 1, 0)
  {
    var s' := PutCluster(s, WithFinalizer(cs[i]));
    forall j | 0 <= j < |cs| ensures Evolved(s', cs[j], j < i + 1, j < 0) {
      assert Evolved(s, cs[j], j < i, j < 0);
      assert j != i ==> cs[j].name != cs[i].name;
    }
  }

  lemma StageReleases(s0: State, s: State, cs: seq<Cluster>, i: nat)
    requires DistinctNames(cs) && i < |cs| && Stage(s0, s, cs, |cs|, i) && cs[i].deleting
    requires PipelineFinalizer in cs[i].finalizers
    ensures Stage(s0, PutCluster(s, WithoutFinalizer(cs[i])), cs, |cs|, i + 1)
  {
    StageCurrent(s0, s, cs, i, |cs|, i);
    var s' := PutCluster(s, WithoutFinalizer(cs[i]));
    forall j | 0 <= j < |cs| ensures Evolved(s', cs[j], j < |cs|, j < i + 1) {
      assert Evolved(s, cs[j], j < |cs|, j < i);
      assert j != i ==> cs[j].name != cs[i].name;
    }
  }

  lemma StageKeepsTenantWrites(s0: State, s: State, s': State, cs: seq<Cluster>, added: nat, released: nat)
    requires Stage(s0, s, cs, added, released) && s'.clusters == s.clusters && s'.tn == s.tn
    ensures Stage(s0, s', cs, added, released)
  {
  }

  /** In the k-th state the tenant had these variables and this status. */
  predicate ShownAt(history: seq<State>, k: nat, vars: seq<EnvVar>, status: seq<string>) {
    && k < |history| && history[k].tenant.Some?
    && history[k].tenant.value.vars == vars && history[k].tenant.value.status == status
  }

  /** In the k-th state the stored variables listed these names, and so did the status. */
  predicate ReflectedAt(history: seq<State>, k: nat, names: seq<string>) {
    && k < |history| && history[k].tenant.Some?
    && Listed(history[k].tenant.value.vars) == names == history[k].tenant.value.status
  }

  /** What is listed at the end is what was listed at the start, less deleted clusters. */
  lemma ListedAgain(s0: State, s: State, cs: seq<Cluster>, ds: seq<Cluster>, d: Cluster) returns (c: Cluster)
    requires Listing(s0, cs) && Stage(s0, s, cs, |cs|, |cs|) && Listing(s, ds) && d in ds
    ensures c in cs && Evolved(s, c, true, true) && d == c.(rv := d.rv, finalizers := d.finalizers)
    ensures d.deleting <==> PipelineFinalizer !in d.finalizers
  {
    assert d.name in s0.clusters;
    assert (forall c :: c in cs ==> c.name != d.name) ==> s0.clusters[d.name] == d;
    assert (forall c :: c in cs ==> c.name != d.name) ==> d in cs;
    c :| c in cs && c.name == d.name;
    var i :| 0 <= i < |cs| && cs[i] == c;
    assert Evolved(s, cs[i], i < |cs|, i < |cs|);
  }

  lemma ListedStill(s0: State, s: State, cs: seq<Cluster>, ds: seq<Cluster>, c: Cluster)
    requires Listing(s0, cs) && Stage(s0, s, cs, |cs|, |cs|) && Listing(s, ds) && c in cs && !c.deleting
    ensures exists d :: d in ds && d == c.(rv := d.rv, finalizers := d.finalizers)
  {
  }

  lemma SameLiveNames(s0: State, s: State, cs: seq<Cluster>, ds: seq<Cluster>)
    requires Listing(s0, cs) && Stage(s0, s, cs, |cs|, |cs|) && Listing(s, ds)
    ensures LiveNames(cs) == LiveNames(ds)
  {
    forall n ensures IsLive(cs, n) <==> IsLive(ds, n) {
      if IsLive(cs, n) {
        var c :| c in cs && c.name == n && c.enabled && !c.deleting;
        ListedStill(s0, s, cs, ds, c);
      }
      if IsLive(ds, n) {
        var d :| d in ds && d.name == n && d.enabled && !d.deleting;
        var c := ListedAgain(s0, s, cs, ds, d);
      }
    }
    LiveNamesIgnoreOrder(cs, ds);
  }

  lemma SettlesAccess(s0: State, s: State, g: Goal, before: seq<EnvVar>, after: seq<EnvVar>, cs: seq<Cluster>,
                      ds: seq<Cluster>, n: string)
    requires Listing(s0, cs) && Stage(s0, s, cs, |cs|, |cs|) && Listing(s, ds)
    requires ValidName(n) && Lookup(after, AccessVar(n)) == Want(g, AccessVar(n), before, cs)
    ensures Lookup(after, AccessVar(n)) == Want(g, AccessVar(n), after, ds)
  {
    AccessVarInverse(n);
    if Find(ds, n).Some? {
      var c := ListedAgain(s0, s, cs, ds, Find(ds, n).value);
      FindMember(cs, c);
    }
  }

  lemma SettlesVar(s0: State, s: State, g: Goal, before: seq<EnvVar>, after: seq<EnvVar>, cs: seq<Cluster>,
                   ds: seq<Cluster>, x: string)
    requires Listing(s0, cs) && Stage(s0, s, cs, |cs|, |cs|) && Listing(s, ds)
    requires Lookup(after, x) == Want(g, x, before, cs)
    ensures Lookup(after, x) == Want(g, x, after, ds)
  {
    var n := ClusterOfVar(x);
    if n.Some? {
      SettlesAccess(s0, s, g, before, after, cs, ds, n.value);
    }
  }

  lemma SettlesVars(s0: State, s: State, g: Goal, before: seq<EnvVar>, after: seq<EnvVar>, cs: seq<Cluster>,
                    ds: seq<Cluster>)
    requires Listing(s0, cs) && Stage(s0, s, cs, |cs|, |cs|) && Listing(s, ds)
    requires Reached(g, before, after, cs)
    ensures Reached(g, after, after, ds)
  {
    forall x ensures Lookup(after, x) == Want(g, x, after, ds) {
      SettlesVar(s0, s, g, before, after, cs, ds, x);
    }
  }

  lemma StartTracking(s: State, cs: seq<Cluster>, vars: seq<EnvVar>)
    requires WellFormed(s) && Listing(s, cs) && Protects(s, vars)
    ensures DistinctNames(cs) && Tracks(s, cs) && Guarded(s, cs) && Covers(cs, vars) && Stage(s, s, cs, 0, 0)
  {
  }

  lemma TenantWriteKeepsTracks(s: State, s': State, cs: seq<Cluster>)
    requires Tracks(s, cs) && s'.clusters == s.clusters && s'.tn == s.tn && s.rev <= s'.rev
    ensures Tracks(s', cs)
  {
  }

  lemma TenantIsSafe(s: State, t: Tenant, cs: seq<Cluster>)
    requires WellFormed(s) && Tracks(s, cs) && GuardedUpTo(s, cs, |cs|) && NamesOnlyLive(cs, t.vars)
    requires TenantCurrent(s, t) && t.name == s.tn && VarsOk(t.vars)
    ensures WellFormed(PutTenant(s, t)) && Safe(PutTenant(s, t))
  {
  }

  /** What an undisturbed run makes of a store, given the tenant and the listing it read. */
  ghost predicate Outcome(s0: State, s: State, url: string, t: Tenant, cs: seq<Cluster>) {
    && Listing(s0, cs) && Stage(s0, s, cs, |cs|, |cs|) && s.tenant.Some?
    && var t' := s.tenant.value;
    && t'.name == t.name && t'.enabled == t.enabled
    && Reached(GoalOf(t.enabled, t.name, url, cs), t.vars, t'.vars, cs)
    && UserVars(t'.vars) == UserVars(t.vars)
    && t'.status == if t.enabled then LiveNames(cs) else []
  }

  /** The outcome of an undisturbed run is settled. */
  lemma OutcomeSettles(s0: State, s: State, url: string, before: Tenant, cs: seq<Cluster>)
    requires Outcome(s0, s, url, before, cs)
    ensures Settled(s, url)
  {
    var t := s.tenant.value;
    forall ds | Listing(s, ds) ensures SettledFor(s, url, ds) {
      SameLiveNames(s0, s, cs, ds);
      SettlesVars(s0, s, GoalOf(t.enabled, t.name, url, cs), before.vars, t.vars, cs, ds);
      forall d: Cluster | d in ds ensures d.deleting <==> PipelineFinalizer !in d.finalizers {
        var c := ListedAgain(s0, s, cs, ds, d);
      }
    }
  }

  /** In a settled state the stored list and the status say the same: the sorted names,
      without duplicates, of the live clusters. */
  lemma SettledListsStatus(s: State, url: string, cs: seq<Cluster>)
    requires WellFormed(s) && Settled(s, url) && Listing(s, cs) && s.tenant.Some?
    ensures var t := s.tenant.value;
            && Listed(t.vars) == t.status
            && Sorted(t.status) && Distinct(t.status)
            && forall n :: n in t.status <==> t.enabled && IsLive(cs, n)
  {
    var t := s.tenant.value;
    assert SettledFor(s, url, cs);
    var g := GoalOf(t.enabled, t.name, url, cs);
    assert Lookup(t.vars, CLUSTERS) == Want(g, CLUSTERS, t.vars, cs);
    LiveNamesDistinct(cs);
    LiveNamesMembers(cs);
    forall n | n in LiveNames(cs) ensures ValidName(n) {
      var c :| c in cs && c.name == n && c.enabled && !c.deleting;
      assert ClusterOk(s, n, s.clusters[n]);
    }
    if t.enabled {
      LookupListed(t.vars, LiveNames(cs), Lookup(t.vars, CLUSTERS).value);
    }
  }

  lemma SettledFixed(s: State, url: string, cs: seq<Cluster>)
    requires s.tenant.Some? && SettledFor(s, url, cs)
    ensures var (t, vars) := (s.tenant.value, s.tenant.value.vars);
      if t.enabled then
        && Has(vars, API_URL) && Lookup(vars, API_URL).value.value == url
        && RefersTo(Lookup(vars, API_TOKEN), t.name, TOKEN_KEY) && Has(vars, CLUSTERS)
      else
        !Has(vars, API_URL) && !Has(vars, API_TOKEN) && !Has(vars, CLUSTERS)
  {
    var (t, vars) := (s.tenant.value, s.tenant.value.vars);
    var g := GoalOf(t.enabled, t.name, url, cs);
    assert Lookup(vars, API_URL) == Want(g, API_URL, vars, cs);
    assert Lookup(vars, API_TOKEN) == Want(g, API_TOKEN, vars, cs);
    assert Lookup(vars, CLUSTERS) == Want(g, CLUSTERS, vars, cs);
  }

  lemma SettledToken(s: State, url: string, cs: seq<Cluster>, c: Cluster)
    requires WellFormed(s) && s.tenant.Some? && SettledFor(s, url, cs) && Listing(s, cs) && c in cs && !c.unmanaged
    ensures var (t, vars) := (s.tenant.value, s.tenant.value.vars);
      && (Has(vars, AccessVar(c.name)) <==> t.enabled && c.enabled && !c.deleting && c.secretRef != "")
      && (Has(vars, AccessVar(c.name)) ==> RefersTo(Lookup(vars, AccessVar(c.name)), c.secretRef, TOKEN_KEY))
  {
    var (t, vars) := (s.tenant.value, s.tenant.value.vars);
    assert ClusterOk(s, c.name, s.clusters[c.name]);
    AccessVarInverse(c.name);
    FindMember(cs, c);
    var x := AccessVar(c.name);
    assert Lookup(vars, x) == Want(GoalOf(t.enabled, t.name, url, cs), x, vars, cs);
    assert Lookup(vars, x) == WantAccess(t.enabled, c, Lookup(vars, x));
  }

  /** What a settled state holds, by the fields of tenant and clusters alone: the three fixed
      variables exactly if the pipeline is enabled, and a token variable for exactly those managed
      clusters that are enabled too, are not being deleted and have a secret. */
  lemma SettledInPlainTerms(s: State, url: string, cs: seq<Cluster>)
    requires WellFormed(s) && Settled(s, url) && Listing(s, cs) && s.tenant.Some?
    ensures var (t, vars) := (s.tenant.value, s.tenant.value.vars);
      if t.enabled then
        && Has(vars, "COMMODORE_API_URL") && Lookup(vars, "COMMODORE_API_URL").value.value == url
        && RefersTo(Lookup(vars, "COMMODORE_API_TOKEN"), t.name, "token")
        && Has(vars, "CLUSTERS")
        && var list := Lookup(vars, "CLUSTERS").value.value;
        && if t.status == [] then list == "" else Split(list, ' ') == t.status
      else
        !Has(vars, "COMMODORE_API_URL") && !Has(vars, "COMMODORE_API_TOKEN") && !Has(vars, "CLUSTERS")
    ensures var (t, vars) := (s.tenant.value, s.tenant.value.vars);
      forall c :: c in cs && !c.unmanaged ==>
        && (Has(vars, AccessVar(c.name)) <==> t.enabled && c.enabled && !c.deleting && c.secretRef != "")
        && (Has(vars, AccessVar(c.name)) ==> RefersTo(Lookup(vars, AccessVar(c.name)), c.secretRef, "token"))
  {
    assert SettledFor(s, url, cs);
    SettledFixed(s, url, cs);
    SettledListsStatus(s, url, cs);
    forall c | c in cs && !c.unmanaged
      ensures var (t, vars) := (s.tenant.value, s.tenant.value.vars);
        && (Has(vars, AccessVar(c.name)) <==> t.enabled && c.enabled && !c.deleting && c.secretRef != "")
        && (Has(vars, AccessVar(c.name)) ==> RefersTo(Lookup(vars, AccessVar(c.name)), c.secretRef, "token"))
    {
      SettledToken(s, url, cs, c);
    }
  }

  lemma OtherNotWanted(g: Goal, vars: seq<EnvVar>, cs: seq<Cluster>, x: string)
    requires x != API_URL && x != API_TOKEN && x != CLUSTERS
    requires forall c :: c in cs && !c.unmanaged ==> x != AccessVar(c.name)
    ensures Want(g, x, vars, cs) == Lookup(vars, x)
  {
  }

  /** What an undisturbed run leaves alone: every variable but the three and those of managed
      clusters. */
  lemma OthersStay(s0: State, s: State, url: string, t: Tenant, cs: seq<Cluster>, x: string)
    requires Outcome(s0, s, url, t, cs)
    requires x !in ["COMMODORE_API_URL", "COMMODORE_API_TOKEN", "CLUSTERS"]
    requires forall c :: c in cs && !c.unmanaged ==> x != AccessVar(c.name)
    ensures Lookup(s.tenant.value.vars, x) == Lookup(t.vars, x)
  {
    var g := GoalOf(t.enabled, t.name, url, cs);
    OtherNotWanted(g, t.vars, cs, x);
    assert Lookup(s.tenant.value.vars, x) == Want(g, x, t.vars, cs);
  }

  // ---- The controller ----

  lemma SameVersion(history: seq<State>, rev: nat, i: nat, j: nat)
    requires Versioned(history, rev) && i < |history| && j < |history|
    requires history[i].tenant.Some? && history[j].tenant.Some?
    requires history[i].tenant.value.rv == history[j].tenant.value.rv
    ensures history[i].tenant == history[j].tenant
  {
    assert SameIfSameVersion(TenantAt(history, i), TenantAt(history, j));
  }

  /** When, among the states of the store, a run read the tenant, listed the clusters, and had
      variables and status agree. */
  datatype Run = Run(read: nat, listed: nat, reflected: nat)

  /** Every listed cluster that is being deleted has been let go. */
  ghost predicate AllReleased(s: State, cs: seq<Cluster>) {
    forall c :: c in cs && c.deleting ==> Released(s, c)
  }

  /** What a successful run has listed was so after it read the tenant, its deleting clusters are
      let go, and variables and status have agreed on the live ones. */
  ghost predicate Witnessed(history: seq<State>, st: State, run: Run, enabled: bool, listed: seq<Cluster>) {
    && run.read <= run.listed < |history| && Listing(history[run.listed], listed)
    && AllReleased(st, listed)
    && run.read <= run.reflected
    && ReflectedAt(history, run.reflected, if enabled then LiveNames(listed) else [])
  }

  lemma WitnessedBy(earlier: seq<State>, history: seq<State>, st: State, run: Run, enabled: bool, listed: seq<Cluster>)
    requires earlier <= history && earlier != [] && run.read <= run.listed == |earlier| - 1
    requires Listing(earlier[|earlier| - 1], listed)
    requires AllReleased(st, listed)
    requires run.read <= run.reflected
    requires ReflectedAt(history, run.reflected, if enabled then LiveNames(listed) else [])
    ensures Witnessed(history, st, run, enabled, listed)
  {
  }

  class TenantCompilePipelineReconciler {
    const api: Api
    const apiUrl: string

    constructor (api: Api, apiUrl: string)
      ensures this.api == api && this.apiUrl == apiUrl
    {
      this.api, this.apiUrl := api, apiUrl;
    }

    /** Puts a live listed cluster under the pipeline finalizer. */
    method AddFinalizer(c: Cluster, ghost cs: seq<Cluster>, ghost i: nat, ghost vars: seq<EnvVar>, ghost s0: State)
      returns (ok: bool)
      requires api.Inv() && Tracks(api.st, cs) && DistinctNames(cs) && i < |cs| && c == cs[i]
      requires Guarded(api.st, cs) && StoredAmong(api.st, vars) && (!api.faulty ==> Stage(s0, api.st, cs, i, 0))
      modifies api
      ensures api.Inv() && old(api.history) <= api.history
      ensures Tracks(api.st, cs) && Guarded(api.st, cs) && StoredAmong(api.st, vars)
      ensures forall d :: HeldAs(old(api.st), d) ==> HeldAs(api.st, d)
      ensures ok && !c.deleting ==> HeldAs(api.st, c)
      ensures !api.faulty && (c.deleting || PipelineFinalizer in c.finalizers) ==>
                ok && api.st == old(api.st) && api.writes == old(api.writes)
      ensures !api.faulty ==> ok && Stage(s0, api.st, cs, i + 1, 0) && api.st.tenant == old(api.st.tenant)
    {
      if !api.faulty {
        StageCurrent(s0, api.st, cs, i, i, 0);
        StageSkips(s0, api.st, cs, i);
      }
      if !c.deleting && PipelineFinalizer !in c.finalizers {
        InterfereGuarded(cs, vars);
        ok := PutUnderFinalizer(c, cs, vars);
        if !api.faulty {
          StageAdds(s0, old(api.st), cs, i);
        }
      } else {
        ok := true;
      }
    }

    method PutUnderFinalizer(c: Cluster, ghost cs: seq<Cluster>, ghost vars: seq<EnvVar>) returns (ok: bool)
      requires api.Inv() && Tracks(api.st, cs) && DistinctNames(cs) && c in cs && !c.deleting
      requires Guarded(api.st, cs) && StoredAmong(api.st, vars)
      modifies api
      ensures api.Inv() && old(api.history) <= api.history
      ensures Tracks(api.st, cs) && Guarded(api.st, cs) && StoredAmong(api.st, vars)
      ensures forall d :: HeldAs(old(api.st), d) ==> HeldAs(api.st, d)
      ensures ok ==> HeldAs(api.st, c)
      ensures !api.faulty && Current(old(api.st), c) ==> ok && api.st == PutCluster(old(api.st), WithFinalizer(c))
    {
      if Current(api.st, c) {
        AddingIsSafe(api.st, cs, c);
      }
      ok := api.UpdateCluster(WithFinalizer(c));
    }

    /** Others act; what this run knows of the listed clusters and the variables stays true. */
    method InterfereAround(ghost cs: seq<Cluster>, ghost vars: seq<EnvVar>)
      requires api.Inv() && Tracks(api.st, cs) && StoredAmong(api.st, vars)
      modifies api`st, api`history
      ensures api.Inv() && old(api.history) <= api.history && Interference(old(api.st), api.st)
      ensures Tracks(api.st, cs) && StoredAmong(api.st, vars)
      ensures forall d :: d in cs && Released(old(api.st), d) ==> Released(api.st, d)
      ensures !api.faulty ==> api.st == old(api.st)
    {
      ghost var start := api.st;
      api.Interfere();
      InterferenceKeepsTracks(start, api.st, cs);
      InterferenceKeepsAmong(start, api.st, vars);
      forall d | d in cs && Released(start, d) ensures Released(api.st, d) {
        InterferenceKeepsReleased(start, api.st, cs, d);
      }
    }

    /** The same while live clusters are put under the finalizer: those that hold it keep it. */
    method InterfereGuarded(ghost cs: seq<Cluster>, ghost vars: seq<EnvVar>)
      requires api.Inv() && Tracks(api.st, cs) && StoredAmong(api.st, vars) && Guarded(api.st, cs)
      modifies api`st, api`history
      ensures api.Inv() && old(api.history) <= api.history
      ensures Tracks(api.st, cs) && StoredAmong(api.st, vars) && Guarded(api.st, cs)
      ensures forall d :: HeldAs(old(api.st), d) ==> HeldAs(api.st, d)
      ensures !api.faulty ==> api.st == old(api.st)
    {
      ghost var start := api.st;
      InterfereAround(cs, vars);
      InterferenceKeepsGuards(start, api.st, cs, 0);
      forall d | HeldAs(start, d) ensures HeldAs(api.st, d) {
        InterferenceKeepsHeldAs(start, api.st, d);
      }
    }

    /** Takes the pipeline finalizer off a deleting listed cluster. */
    method RemoveFinalizer(c: Cluster, ghost cs: seq<Cluster>, ghost i: nat, ghost vars: seq<EnvVar>, ghost s0: State)
      returns (ok: bool)
      requires api.Inv() && Tracks(api.st, cs) && DistinctNames(cs) && i < |cs| && c == cs[i] && c.deleting
      requires StoredAmong(api.st, vars) && NamesOnlyLive(cs, vars) && (!api.faulty ==> Stage(s0, api.st, cs, |cs|, i))
      modifies api
      ensures api.Inv() && old(api.history) <= api.history
      ensures Tracks(api.st, cs) && StoredAmong(api.st, vars)
      ensures ok ==> Released(api.st, c)
      ensures forall d :: d in cs && d.name != c.name && Released(old(api.st), d) ==> Released(api.st, d)
      ensures !api.faulty && PipelineFinalizer !in c.finalizers ==>
                ok && api.st == old(api.st) && api.writes == old(api.writes)
      ensures !api.faulty ==> ok && Stage(s0, api.st, cs, |cs|, i + 1) && api.st.tenant == old(api.st.tenant)
    {
      if !api.faulty {
        StageCurrent(s0, api.st, cs, i, |cs|, i);
        StageSkips(s0, api.st, cs, i);
      }
      if PipelineFinalizer in c.finalizers {
        InterfereAround(cs, vars);
        if Current(api.st, c) {
          ReleasingIsSafe(api.st, cs, vars, c);
        }
        if !api.faulty {
          StageReleases(s0, api.st, cs, i);
        }
        ok := api.UpdateCluster(WithoutFinalizer(c));
      } else {
        ok := true;
      }
    }

    method EnabledClusters(clusters: seq<Cluster>) returns (enabled: seq<Cluster>)
      ensures enabled == EnabledOnly(clusters)
    {
      enabled := [];
      for i := 0 to |clusters|
        invariant enabled == EnabledOnly(clusters[..i])
      {
        assert clusters[..i + 1][..i] == clusters[..i];
        if clusters[i].enabled {
          enabled := enabled + [clusters[i]];
        }
      }
      assert clusters[..|clusters|] == clusters;
    }

    method HandleToken(tenant: TenantObject, c: Cluster, alreadyChanged: bool,
                       ghost before: seq<EnvVar>, ghost g: Goal, ghost done: seq<Cluster>)
      returns (changed: bool)
      requires ValidName(c.name) && DistinctNames(done + [c]) && g.enabled == tenant.enabled
      requires VarsOk(tenant.vars) && Reached(g, before, tenant.vars, done)
      requires alreadyChanged <==> !SameVars(tenant.vars, before)
      requires !alreadyChanged ==> tenant.vars == before
      modifies tenant`vars
      ensures VarsOk(tenant.vars) && Reached(g, before, tenant.vars, done + [c])
      ensures changed <==> !SameVars(tenant.vars, before)
      ensures !changed ==> tenant.vars == before
      ensures UserVars(tenant.vars) == UserVars(old(tenant.vars))
    {
      changed := alreadyChanged;
      if c.unmanaged {
        ReachedOneMore(g, before, tenant.vars, tenant.vars, done, c);
        return;
      }
      ghost var mid, x := tenant.vars, AccessVar(c.name);
      var ch := EnsureClusterCiVariable(tenant, c);
      changed := ch || changed;
      ReachedOneMore(g, before, mid, tenant.vars, done, c);
      SameAfterEdit(before, mid, tenant.vars, x, Lookup(tenant.vars, x));
    }

    /** How far the first loop has come: i clusters have been given the finalizer, and their
        variables are as wanted. */
    ghost predicate Handled(tenant: TenantObject, clusters: seq<Cluster>, i: nat, changed: bool,
                            s0: State, before: seq<EnvVar>, g: Goal)
      requires i <= |clusters|
      reads api, tenant
    {
      && api.Inv() && Tracks(api.st, clusters) && Guarded(api.st, clusters) && StoredAmong(api.st, before)
      && GuardedUpTo(api.st, clusters, i) && (!api.faulty ==> Stage(s0, api.st, clusters, i, 0))
      && VarsOk(tenant.vars) && Reached(g, before, tenant.vars, clusters[..i]) && g.enabled == tenant.enabled
      && (changed <==> !SameVars(tenant.vars, before)) && (!changed ==> tenant.vars == before)
    }

    predicate AllHeld(clusters: seq<Cluster>) {
      forall c :: c in clusters && !c.deleting ==> PipelineFinalizer in c.finalizers
    }

    /** The first loop: a finalizer on every live cluster, a token variable for every managed one. */
    method HandleClusters(tenant: TenantObject, clusters: seq<Cluster>, alreadyChanged: bool,
                          ghost s0: State, ghost before: seq<EnvVar>, ghost g: Goal)
      returns (ok: bool, changed: bool)
      requires DistinctNames(clusters) && Handled(tenant, clusters, 0, alreadyChanged, s0, before, g)
      modifies api, tenant`vars
      ensures api.Inv() && old(api.history) <= api.history
      ensures Tracks(api.st, clusters) && StoredAmong(api.st, before)
      ensures ok ==> Handled(tenant, clusters, |clusters|, changed, s0, before, g)
      ensures UserVars(tenant.vars) == UserVars(old(tenant.vars))
      ensures !api.faulty ==> ok && api.st.tenant == old(api.st.tenant)
      ensures !api.faulty && AllHeld(clusters) ==> api.st == old(api.st) && api.writes == old(api.writes)
    {
      ok, changed := true, alreadyChanged;
      for i := 0 to |clusters|
        invariant ok && Handled(tenant, clusters, i, changed, s0, before, g)
        invariant old(api.history) <= api.history && UserVars(tenant.vars) == UserVars(old(tenant.vars))
        invariant !api.faulty ==> api.st.tenant == old(api.st.tenant)
        invariant !api.faulty && AllHeld(clusters) ==> api.st == old(api.st) && api.writes == old(api.writes)
      {
        ok, changed := HandleCluster(tenant, clusters, i, changed, s0, before, g);
        if !ok {
          return;
        }
      }
    }

    method HandleCluster(tenant: TenantObject, clusters: seq<Cluster>, i: nat, alreadyChanged: bool,
                         ghost s0: State, ghost before: seq<EnvVar>, ghost g: Goal)
      returns (ok: bool, changed: bool)
      requires i < |clusters| && DistinctNames(clusters)
      requires Handled(tenant, clusters, i, alreadyChanged, s0, before, g)
      modifies api, tenant`vars
      ensures api.Inv() && old(api.history) <= api.history
      ensures Tracks(api.st, clusters) && StoredAmong(api.st, before)
      ensures ok ==> Handled(tenant, clusters, i + 1, changed, s0, before, g)
      ensures UserVars(tenant.vars) == UserVars(old(tenant.vars))
      ensures !api.faulty ==> ok && api.st.tenant == old(api.st.tenant)
      ensures !api.faulty && AllHeld(clusters) ==> api.st == old(api.st) && api.writes == old(api.writes)
    {
      changed := alreadyChanged;
      var c := clusters[i];
      ok := AddFinalizer(c, clusters, i, before, s0);
      if ok {
        TakeOneMore(clusters, i);
        changed := HandleToken(tenant, c, changed, before, g, clusters[..i]);
      }
    }

    /** The last loop: every deleting cluster is let go. */
    method ReleaseClusters(clusters: seq<Cluster>, ghost s0: State, ghost vars: seq<EnvVar>) returns (ok: bool)
      requires api.Inv() && Tracks(api.st, clusters) && DistinctNames(clusters)
      requires StoredAmong(api.st, vars) && NamesOnlyLive(clusters, vars)
      requires !api.faulty ==> Stage(s0, api.st, clusters, |clusters|, 0)
      modifies api
      ensures api.Inv() && old(api.history) <= api.history
      ensures ok ==> AllReleased(api.st, clusters)
      ensures !api.faulty ==>
        ok && Stage(s0, api.st, clusters, |clusters|, |clusters|) && api.st.tenant == old(api.st.tenant)
      ensures !api.faulty && (forall c :: c in clusters && c.deleting ==> PipelineFinalizer !in c.finalizers) ==>
                api.st == old(api.st) && api.writes == old(api.writes)
    {
      for i := 0 to |clusters|
        invariant api.Inv() && old(api.history) <= api.history
        invariant Tracks(api.st, clusters) && StoredAmong(api.st, vars)
        invariant forall j :: 0 <= j < i && clusters[j].deleting ==> Released(api.st, clusters[j])
        invariant !api.faulty ==> Stage(s0, api.st, clusters, |clusters|, i) && api.st.tenant == old(api.st.tenant)
        invariant !api.faulty && (forall c :: c in clusters && c.deleting ==> PipelineFinalizer !in c.finalizers) ==>
                    api.st == old(api.st) && api.writes == old(api.writes)
      {
        var c := clusters[i];
        if !api.faulty {
          StageSkips(s0, api.st, clusters, i);
        }
        if !c.deleting {
          continue;
        }
        ok := RemoveFinalizer(c, clusters, i, vars, s0);
        if !ok {
          return;
        }
      }
      ok := true;
    }

    /** Stores the variables, unless they are what was read. */
    method StoreVars(tenant: TenantObject, clusters: seq<Cluster>, changed: bool, ghost before: seq<EnvVar>,
                     ghost k: nat)
      returns (ok: bool, ghost at: nat)
      requires ReadAt(api.history, k, tenant.Value().(vars := before))
      requires api.Inv() && Tracks(api.st, clusters) && GuardedUpTo(api.st, clusters, |clusters|)
      requires StoredAmong(api.st, before) && NamesOnlyLive(clusters, tenant.vars)
      requires tenant.name == api.tn && VarsOk(tenant.vars) && (!changed ==> tenant.vars == before)
      requires !api.faulty ==> api.st.tenant.Some? && api.st.tenant.value.(vars := tenant.vars) == tenant.Value()
                               && api.st.tenant.value.vars == before
      modifies api, tenant
      ensures api.Inv() && old(api.history) <= api.history && tenant.vars == old(tenant.vars)
      ensures ok ==> Tracks(api.st, clusters) && StoredAmong(api.st, tenant.vars)
      ensures ok ==> at >= k && ReadAt(api.history, at, tenant.Value())
      ensures !api.faulty ==> ok && api.st.tenant == Some(tenant.Value()) && tenant.status == old(tenant.status)
      ensures !api.faulty ==> api.st.clusters == old(api.st.clusters) && api.st.tn == old(api.st.tn)
      ensures !api.faulty && !changed ==> api.st == old(api.st) && api.writes == old(api.writes)
    {
      if !changed {
        return true, k;
      }
      ghost var start := api.st;
      api.Interfere();
      InterferenceKeepsTracks(start, api.st, clusters);
      forall i | 0 <= i < |clusters| && !clusters[i].deleting ensures HeldAs(api.st, clusters[i]) {
        InterferenceKeepsHeldAs(start, api.st, clusters[i]);
      }
      if TenantCurrent(api.st, tenant.Value()) {
        TenantIsSafe(api.st, tenant.Value(), clusters);
      }
      ghost var mid := api.st;
      var r := api.UpdateTenant(tenant.Value());
      TenantWriteKeepsTracks(mid, api.st, clusters);
      if r.Refused? {
        return false, k;
      }
      tenant.Refresh(r.value);
      return true, |api.history| - 1;
    }

    method ComputeStatus(tenant: TenantObject, enabled: seq<Cluster>,
                         ghost clusters: seq<Cluster>) returns (changed: bool)
      requires enabled == EnabledOnly(clusters)
      modifies tenant`status
      ensures tenant.status == if tenant.enabled then LiveNames(clusters) else []
      ensures changed <==> tenant.status != old(tenant.status)
    {
      var cs := if tenant.enabled then enabled else [];
      changed := EnsureStatus(tenant, cs);
    }

    method StoreStatus(tenant: TenantObject, changed: bool, ghost clusters: seq<Cluster>, ghost k: nat,
                       ghost read: Tenant)
      returns (ok: bool, ghost at: nat)
      requires ReadAt(api.history, k, read) && tenant.Value() == read.(status := tenant.status)
      requires !changed ==> tenant.Value() == read
      requires api.Inv() && Tracks(api.st, clusters) && StoredAmong(api.st, tenant.vars)
      requires !api.faulty ==> api.st.tenant.Some? && api.st.tenant.value.(status := tenant.status) == tenant.Value()
      requires !api.faulty && !changed ==> api.st.tenant.value.status == tenant.status
      modifies api
      ensures api.Inv() && old(api.history) <= api.history
      ensures ok ==> Tracks(api.st, clusters) && StoredAmong(api.st, tenant.vars)
      ensures ok ==> at >= k && ShownAt(api.history, at, tenant.vars, tenant.status)
      ensures !api.faulty ==>
        ok && api.st.clusters == old(api.st.clusters) && api.st.tn == old(api.st.tn) && api.st.tenant.Some?
                              && api.st.tenant.value.(rv := tenant.rv) == tenant.Value()
      ensures !api.faulty && !changed ==> api.st == old(api.st) && api.writes == old(api.writes)
    {
      if !changed {
        return true, k;
      }
      ghost var start := api.st;
      api.Interfere();
      InterferenceKeepsTracks(start, api.st, clusters);
      InterferenceKeepsAmong(start, api.st, tenant.vars);
      ghost var mid, last := api.st, |api.history| - 1;
      ok := api.UpdateTenantStatus(tenant.Value());
      TenantWriteKeepsTracks(mid, api.st, clusters);
      at := |api.history| - 1;
      if ok {
        SameVersion(api.history, api.st.rev, k, last);
      }
    }

    method StoreTenant(tenant: TenantObject, clusters: seq<Cluster>, enabled: seq<Cluster>, changed: bool,
                       ghost s0: State, ghost before: seq<EnvVar>, ghost k: nat)
      returns (ok: bool, ghost at: nat)
      requires ReadAt(api.history, k, tenant.Value().(vars := before))
      requires api.Inv() && Tracks(api.st, clusters) && GuardedUpTo(api.st, clusters, |clusters|)
      requires StoredAmong(api.st, before) && NamesOnlyLive(clusters, tenant.vars) && enabled == EnabledOnly(clusters)
      requires tenant.name == api.tn && VarsOk(tenant.vars) && (!changed ==> tenant.vars == before)
      requires !api.faulty ==> api.st.tenant.Some? && api.st.tenant.value.(vars := tenant.vars) == tenant.Value()
                               && api.st.tenant.value.vars == before && Stage(s0, api.st, clusters, |clusters|, 0)
      modifies api, tenant
      ensures api.Inv() && old(api.history) <= api.history && tenant.vars == old(tenant.vars)
      ensures ok ==> Tracks(api.st, clusters) && StoredAmong(api.st, tenant.vars)
      ensures ok ==>
        at >= k && ShownAt(api.history, at, tenant.vars, if tenant.enabled then LiveNames(clusters) else [])
      ensures !api.faulty ==> ok && Stage(s0, api.st, clusters, |clusters|, 0) && api.st.tenant.Some?
      ensures !api.faulty ==>
                && api.st.tenant.value.(rv := tenant.rv, status := tenant.status) == tenant.Value()
                && api.st.tenant.value.status == if tenant.enabled then LiveNames(clusters) else []
      ensures !api.faulty && !changed && old(tenant.status) == (if tenant.enabled then LiveNames(clusters) else [])
              ==> api.st == old(api.st) && api.writes == old(api.writes)
    {
      ghost var s1 := api.st;
      ok, at := StoreVars(tenant, clusters, changed, before, k);
      if !ok {
        return;
      }
      ghost var read := tenant.Value();
      var statusChanged := ComputeStatus(tenant, enabled, clusters);
      ok, at := StoreStatus(tenant, statusChanged, clusters, at, read);
      if !api.faulty {
        StageKeepsTenantWrites(s0, s1, api.st, clusters, |clusters|, 0);
      }
    }

    method EnsureVars(tenant: TenantObject, clusters: seq<Cluster>, enabled: seq<Cluster>) returns (changed: bool)
      requires VarsOk(tenant.vars) && enabled == EnabledOnly(clusters)
      modifies tenant`vars
      ensures VarsOk(tenant.vars) && UserVars(tenant.vars) == UserVars(old(tenant.vars))
      ensures Reached(GoalOf(tenant.enabled, tenant.name, apiUrl, clusters), old(tenant.vars), tenant.vars, [])
      ensures changed <==> !SameVars(tenant.vars, old(tenant.vars))
      ensures !changed ==> tenant.vars == old(tenant.vars)
    {
      if !tenant.enabled {
        changed := EnsureCiVariablesAbsent(tenant);
      } else {
        var live := FilterDeletedClusters(enabled);
        changed := EnsureCiVariables(tenant, apiUrl, live, clusters);
      }
    }

    /** Computes the variables and puts every live cluster under the finalizer. */
    method Guard(tenant: TenantObject, clusters: seq<Cluster>, enabled: seq<Cluster>, ghost s0: State)
      returns (ok: bool, changed: bool)
      requires api.Inv() && Tracks(api.st, clusters) && DistinctNames(clusters) && Guarded(api.st, clusters)
      requires Covers(clusters, tenant.vars) && StoredAmong(api.st, tenant.vars)
      requires VarsOk(tenant.vars) && enabled == EnabledOnly(clusters)
      requires !api.faulty ==> Stage(s0, api.st, clusters, 0, 0)
      modifies api, tenant`vars
      ensures api.Inv() && old(api.history) <= api.history
      ensures Tracks(api.st, clusters) && StoredAmong(api.st, old(tenant.vars))
      ensures ok ==>
        GuardedUpTo(api.st, clusters, |clusters|) && NamesOnlyLive(clusters, tenant.vars) && VarsOk(tenant.vars)
      ensures ok ==>
        Reached(GoalOf(tenant.enabled, tenant.name, apiUrl, clusters), old(tenant.vars), tenant.vars, clusters)
      ensures ok ==> Listed(tenant.vars) == if tenant.enabled then LiveNames(clusters) else []
      ensures ok ==> (changed <==> !SameVars(tenant.vars, old(tenant.vars)))
      ensures ok && !changed ==> tenant.vars == old(tenant.vars)
      ensures UserVars(tenant.vars) == UserVars(old(tenant.vars))
      ensures !api.faulty ==> ok && Stage(s0, api.st, clusters, |clusters|, 0) && api.st.tenant == old(api.st.tenant)
      ensures !api.faulty && AllHeld(clusters) ==>
        api.st == old(api.st) && api.writes == old(api.writes)
    {
      ghost var vars, g := tenant.vars, GoalOf(tenant.enabled, tenant.name, apiUrl, clusters);
      changed := EnsureVars(tenant, clusters, enabled);
      TakeNoneAndAll(clusters);
      ok, changed := HandleClusters(tenant, clusters, changed, s0, vars, g);
      if ok {
        WantedNamesOnlyLive(tenant.enabled, tenant.name, apiUrl, vars, tenant.vars, clusters);
      }
    }

    /** Everything a run writes, in order: finalizers, variables, status, releases. */
    method Act(tenant: TenantObject, clusters: seq<Cluster>, ghost k: nat) returns (ok: bool, ghost at: nat)
      requires ReadAt(api.history, k, tenant.Value())
      requires api.Inv() && Tracks(api.st, clusters) && DistinctNames(clusters) && Guarded(api.st, clusters)
      requires Covers(clusters, tenant.vars) && StoredAmong(api.st, tenant.vars)
      requires VarsOk(tenant.vars) && tenant.name == api.tn
      requires !api.faulty ==>
        api.st.tenant == Some(tenant.Value()) && Listing(api.st, clusters) && Stage(api.st, api.st, clusters, 0, 0)
      modifies api, tenant
      ensures api.Inv() && old(api.history) <= api.history
      ensures ok ==> AllReleased(api.st, clusters)
      ensures ok ==> at >= k && ReflectedAt(api.history, at, if tenant.enabled then LiveNames(clusters) else [])
      ensures !api.faulty ==> ok && Outcome(old(api.st), api.st, apiUrl, old(tenant.Value()), clusters)
      ensures !api.faulty && SettledFor(old(api.st), apiUrl, clusters) ==>
        api.st == old(api.st) && api.writes == old(api.writes)
    {
      ghost var s0, vars := api.st, tenant.vars;
      at := k;
      var enabled := EnabledClusters(clusters);
      var changed;
      ok, changed := Guard(tenant, clusters, enabled, s0);
      if !ok {
        return;
      }
      ok, at := StoreTenant(tenant, clusters, enabled, changed, s0, vars, k);
      if !ok {
        return;
      }
      ok := ReleaseClusters(clusters, s0, tenant.vars);
    }

    /** The same with what was listed just now. */
    method ActOn(tenant: TenantObject, clusters: seq<Cluster>, ghost k: nat) returns (ok: bool, ghost run: Run)
      requires ReadAt(api.history, k, tenant.Value())
      requires api.Inv() && Tracks(api.st, clusters) && DistinctNames(clusters) && Guarded(api.st, clusters)
      requires Covers(clusters, tenant.vars) && StoredAmong(api.st, tenant.vars)
      requires VarsOk(tenant.vars) && tenant.name == api.tn && Listing(api.st, clusters)
      requires !api.faulty ==> api.st.tenant == Some(tenant.Value()) && Stage(api.st, api.st, clusters, 0, 0)
      modifies api, tenant
      ensures api.Inv() && old(api.history) <= api.history && run.read == k
      ensures ok ==> Witnessed(api.history, api.st, run, tenant.enabled, clusters)
      ensures !api.faulty ==>
        ok && Outcome(old(api.st), api.st, apiUrl, old(tenant.Value()), clusters)
      ensures !api.faulty && old(SettledFor(api.st, apiUrl, clusters)) ==>
        api.st == old(api.st) && api.writes == old(api.writes)
    {
      ghost var earlier := api.history;
      assert Listing(earlier[|earlier| - 1], clusters);
      ghost var at;
      ok, at := Act(tenant, clusters, k);
      run := Run(k, |earlier| - 1, at);
      if ok {
        WitnessedBy(earlier, api.history, api.st, run, tenant.enabled, clusters);
      }
    }

    /** One run. It may stop after any write, as every call may be refused, and others may
        write before any call; every state the store goes through is safe all the same. A run
        that succeeds has listed the clusters as they were at some time during it, has let the
        deleting ones go, and has had variables and status agree on the live ones. Left
        alone, it settles the store, and does nothing to a store that is settled. */
    method Reconcile()
      returns (ok: bool, ghost before: Option<Tenant>, ghost listed: seq<Cluster>, ghost run: Run)
      requires api.Inv()
      modifies api
      ensures api.Inv() && old(api.history) <= api.history
      ensures ok ==> |old(api.history)| - 1 <= run.read < |api.history| && api.history[run.read].tenant == before
      ensures ok && before.Some? ==> Witnessed(api.history, api.st, run, before.value.enabled, listed)
      ensures !api.faulty ==> ok && before == old(api.st.tenant) && Settled(api.st, apiUrl)
      ensures !api.faulty && before.Some? ==> Outcome(old(api.st), api.st, apiUrl, before.value, listed)
      ensures !api.faulty && old(Settled(api.st, apiUrl)) ==> api.st == old(api.st) && api.writes == old(api.writes)
    {
      before, listed, run := None, [], Run(0, 0, 0);
      api.Interfere();
      var got := api.GetTenant();
      if got.Refused? {
        return false, before, listed, run;
      }
      before, run := got.value, run.(read := |api.history| - 1);
      if got.value.None? {
        return true, before, listed, run;
      }
      ok, listed, run := ReconcileTenant(got.value.value);
    }

    /** Lists the clusters, some time after the tenant was read. */
    method ListTracked(ghost vars: seq<EnvVar>) returns (list: Reply<seq<Cluster>>)
      requires api.Inv() && Protects(api.st, vars) && StoredAmong(api.st, vars)
      modifies api`st, api`history
      ensures api.Inv() && old(api.history) <= api.history && StoredAmong(api.st, vars)
      ensures list.Served? ==>
        && Listing(api.st, list.value) && DistinctNames(list.value)
        && Tracks(api.st, list.value) && Guarded(api.st, list.value) && Covers(list.value, vars)
        && Stage(api.st, api.st, list.value, 0, 0)
      ensures !api.faulty ==> list.Served? && api.st == old(api.st)
    {
      ghost var start := api.st;
      api.Interfere();
      InterferenceKeepsAmong(start, api.st, vars);
      InterferenceKeepsProtects(start, api.st, vars);
      list := api.ListClusters();
      if list.Served? {
        StartTracking(api.st, list.value, vars);
      }
    }

    /** The rest of a run, with the tenant that was read. */
    method ReconcileTenant(read: Tenant) returns (ok: bool, ghost listed: seq<Cluster>, ghost run: Run)
      requires api.Inv() && api.st.tenant == Some(read)
      modifies api
      ensures api.Inv() && old(api.history) <= api.history
      ensures run.read == |old(api.history)| - 1
      ensures ok ==> Witnessed(api.history, api.st, run, read.enabled, listed)
      ensures !api.faulty ==> ok && Settled(api.st, apiUrl) && Outcome(old(api.st), api.st, apiUrl, read, listed)
      ensures !api.faulty && old(Settled(api.st, apiUrl)) ==> api.st == old(api.st) && api.writes == old(api.writes)
    {
      listed, run := [], Run(|api.history| - 1, 0, 0);
      var tenant := new TenantObject(read);
      ghost var start := api.st;
      var list := ListTracked(tenant.vars);
      if list.Refused? {
        return false, listed, run;
      }
      listed := list.value;
      ok, run := ActOn(tenant, list.value, run.read);
      if !api.faulty {
        OutcomeSettles(start, api.st, apiUrl, read, listed);
      }
    }

    /** Any number of runs, each of which may stop after any write, with others writing in
        between: the store is safe in every state it ever goes through. */
    method Operate(runs: nat)
      requires api.Inv()
      modifies api
      ensures api.Inv() && old(api.history) <= api.history
      ensures forall h :: h in api.history ==> Safe(h)
    {
      for i := 0 to runs
        invariant api.Inv() && old(api.history) <= api.history
      {
        var ok, before, listed, run := Reconcile();
        api.Interfere();
      }
    }
  }
}
