/** The CI variables and the status the compile pipeline wants on a tenant, and the edits
    that bring them about. */
module CompileVars {
  import opened Wrappers
  import opened Strings
  import opened EnvVars
  import opened ClusterStore

  // ---- Clusters of interest ----

  function Filter(p: Cluster -> bool, cs: seq<Cluster>): (r: seq<Cluster>)
    ensures forall c :: c in r <==> c in cs && p(c)
  {
    if cs == [] then []
    else
      var front, last := cs[..|cs| - 1], cs[|cs| - 1];
      assert cs == front + [last];
      Filter(p, front) + if p(last) then [last] else []
  }

  ghost predicate DistinctNames(cs: seq<Cluster>) {
    forall i, j :: 0 <= i < j < |cs| ==> cs[i].name != cs[j].name
  }

  lemma {:induction false} FilterKeepsDistinctNames(p: Cluster -> bool, cs: seq<Cluster>)
    requires DistinctNames(cs)
    ensures DistinctNames(Filter(p, cs))
  {
    if cs != [] {
      var front := cs[..|cs| - 1];
      FilterKeepsDistinctNames(p, front);
      forall c | c in Filter(p, front) ensures c.name != cs[|cs| - 1].name {
        assert c in front;
      }
    }
  }

  function NamesOf(cs: seq<Cluster>): (r: seq<string>)
    ensures |r| == |cs| && forall i :: 0 <= i < |r| ==> r[i] == cs[i].name
  {
    seq(|cs|, i requires 0 <= i < |cs| => cs[i].name)
  }

  function EnabledOnly(cs: seq<Cluster>): seq<Cluster> {
    Filter((c: Cluster) => c.enabled, cs)
  }

  function NotDeleting(cs: seq<Cluster>): seq<Cluster> {
    Filter((c: Cluster) => !c.deleting, cs)
  }

  /** The clusters the pipeline compiles, by name. */
  function LiveNames(cs: seq<Cluster>): seq<string> {
    Sort(NamesOf(NotDeleting(EnabledOnly(cs))))
  }

  ghost predicate IsLive(cs: seq<Cluster>, n: string) {
    exists c :: c in cs && c.name == n && c.enabled && !c.deleting
  }

  lemma LiveNamesSound(cs: seq<Cluster>, n: string)
    requires n in LiveNames(cs)
    ensures IsLive(cs, n)
  {
    var live := NotDeleting(EnabledOnly(cs));
    SameMembers(LiveNames(cs), NamesOf(live));
    var i :| 0 <= i < |live| && NamesOf(live)[i] == n;
    assert live[i] in live;
  }

  lemma LiveNamesComplete(cs: seq<Cluster>, n: string)
    requires IsLive(cs, n)
    ensures n in LiveNames(cs)
  {
    var live := NotDeleting(EnabledOnly(cs));
    SameMembers(LiveNames(cs), NamesOf(live));
    var c :| c in cs && c.name == n && c.enabled && !c.deleting;
    assert c in live;
    var i :| 0 <= i < |live| && live[i] == c;
    assert NamesOf(live)[i] == n;
  }

  lemma LiveNamesMembers(cs: seq<Cluster>)
    ensures forall n :: n in LiveNames(cs) <==> IsLive(cs, n)
  {
    forall n ensures n in LiveNames(cs) <==> IsLive(cs, n) {
      if n in LiveNames(cs) { LiveNamesSound(cs, n); }
      if IsLive(cs, n) { LiveNamesComplete(cs, n); }
    }
  }

  /** The listing is sorted, free of duplicates, and determined by the set of clusters. */
  lemma LiveNamesDistinct(cs: seq<Cluster>)
    requires DistinctNames(cs)
    ensures Sorted(LiveNames(cs)) && Distinct(LiveNames(cs))
  {
    FilterKeepsDistinctNames((c: Cluster) => c.enabled, cs);
    FilterKeepsDistinctNames((c: Cluster) => !c.deleting, EnabledOnly(cs));
    var names := NamesOf(NotDeleting(EnabledOnly(cs)));
    assert Distinct(names);
    DistinctMultiset(names);
    DistinctMultiset(LiveNames(cs));
  }

  lemma SortedSetsEqual(xs: seq<string>, ys: seq<string>)
    requires Sorted(xs) && Distinct(xs) && Sorted(ys) && Distinct(ys)
    requires forall x :: x in xs <==> x in ys
    ensures xs == ys
  {
    DistinctMultiset(xs);
    DistinctMultiset(ys);
    assert multiset(xs) == multiset(ys) by {
      forall x ensures multiset(xs)[x] == multiset(ys)[x] {
        assert x in multiset(xs) <==> x in xs;
        assert x in multiset(ys) <==> x in ys;
      }
    }
    SortedUnique(xs, ys);
  }

  lemma LiveNamesIgnoreOrder(cs: seq<Cluster>, ds: seq<Cluster>)
    requires DistinctNames(cs) && DistinctNames(ds)
    requires forall n :: IsLive(cs, n) <==> IsLive(ds, n)
    ensures LiveNames(cs) == LiveNames(ds)
  {
    LiveNamesDistinct(cs);
    LiveNamesDistinct(ds);
    LiveNamesMembers(cs);
    LiveNamesMembers(ds);
    SortedSetsEqual(LiveNames(cs), LiveNames(ds));
  }

  function Find(cs: seq<Cluster>, n: string): (r: Option<Cluster>)
    ensures r.Some? ==> r.value in cs && r.value.name == n
    ensures r.None? ==> forall c :: c in cs ==> c.name != n
  {
    if cs == [] then None
    else
      var front, last := cs[..|cs| - 1], cs[|cs| - 1];
      assert cs == front + [last];
      if last.name == n then Some(last) else Find(front, n)
  }

  lemma FindMember(cs: seq<Cluster>, c: Cluster)
    requires DistinctNames(cs) && c in cs
    ensures Find(cs, c.name) == Some(c)
  {
  }

  // ---- The variables wanted ----

  /** The variable is there and takes its value from this key of this secret. */
  predicate RefersTo(v: Option<EnvVar>, secret: string, key: string) {
    && v.Some? && v.value.valueFrom.Some? && v.value.valueFrom.value.secretKeyRef.Some?
    && v.value.valueFrom.value.secretKeyRef.value.name == secret
    && v.value.valueFrom.value.secretKeyRef.value.key == key
  }

  datatype Goal = Goal(enabled: bool, tenant: string, url: string, list: string)

  function GoalOf(enabled: bool, tenant: string, url: string, cs: seq<Cluster>): Goal {
    Goal(enabled, tenant, url, Join(LiveNames(cs), ' '))
  }

  predicate TokenUnwanted(enabled: bool, c: Cluster) {
    c.deleting || c.secretRef == "" || !enabled || !c.enabled
  }

  function WantAccess(enabled: bool, c: Cluster, current: Option<EnvVar>): (r: Option<EnvVar>)
    requires current.Some? ==> current.value.name == AccessVar(c.name)
  {
    if TokenUnwanted(enabled, c) then None
    else Some(WithSecret(AccessVar(c.name), c.secretRef, TOKEN_KEY, current))
  }

  /** The variable of name x that a reconcile over these clusters leaves behind. */
  function Want(g: Goal, x: string, vars: seq<EnvVar>, cs: seq<Cluster>): Option<EnvVar> {
    var current := Lookup(vars, x);
    if x == API_URL then (if g.enabled then Some(WithValue(x, g.url, current)) else None)
    else if x == CLUSTERS then (if g.enabled then Some(WithValue(x, g.list, current)) else None)
    else if x == API_TOKEN then (if g.enabled then Some(WithSecret(x, g.tenant, TOKEN_KEY, current)) else None)
    else match ClusterOfVar(x)
      case None => current
      case Some(n) =>
        match Find(cs, n)
        case None => current
        case Some(c) => if c.unmanaged then current else WantAccess(g.enabled, c, current)
  }

  ghost predicate Reached(g: Goal, before: seq<EnvVar>, after: seq<EnvVar>, cs: seq<Cluster>) {
    forall x :: Lookup(after, x) == Want(g, x, before, cs)
  }

  /** The variables that are not the controller's, in order. */
  function UserVars(vars: seq<EnvVar>): seq<EnvVar> {
    if vars == [] then []
    else (if ManagedVar(vars[0].name) then [] else [vars[0]]) + UserVars(vars[1..])
  }

  lemma {:induction false} UserVarsWithout(vars: seq<EnvVar>, x: string)
    requires ManagedVar(x)
    ensures UserVars(Without(vars, x)) == UserVars(vars)
  {
    if vars != [] {
      UserVarsWithout(vars[1..], x);
      if vars[0].name != x {
        assert Without(vars, x)[1..] == Without(vars[1..], x);
      }
    }
  }

  lemma EditKeepsUserVars(vars: seq<EnvVar>, vars': seq<EnvVar>, x: string, want: Option<EnvVar>)
    requires ManagedVar(x) && Edited(vars, vars', x, want)
    ensures UserVars(vars') == UserVars(vars)
  {
    UserVarsWithout(vars, x);
    UserVarsWithout(vars', x);
  }

  ghost predicate SameVars(a: seq<EnvVar>, b: seq<EnvVar>) {
    forall x :: Lookup(a, x) == Lookup(b, x)
  }

  lemma FindIgnoresOrder(cs: seq<Cluster>, ds: seq<Cluster>)
    requires DistinctNames(cs) && DistinctNames(ds)
    requires forall c :: c in cs <==> c in ds
    ensures forall n :: Find(cs, n) == Find(ds, n)
  {
  }

  /** Whatever the order the clusters were listed in, the same name-to-variable map results. */
  lemma OrderIndependent(enabled: bool, tenant: string, url: string, before: seq<EnvVar>,
                         cs: seq<Cluster>, ds: seq<Cluster>, after: seq<EnvVar>, after': seq<EnvVar>)
    requires DistinctNames(cs) && multiset(cs) == multiset(ds)
    requires Reached(GoalOf(enabled, tenant, url, cs), before, after, cs)
    requires Reached(GoalOf(enabled, tenant, url, ds), before, after', ds)
    ensures SameVars(after, after')
  {
    DistinctNamesMultiset(cs, ds);
    SameMembers(cs, ds);
    var g := GoalOf(enabled, tenant, url, cs);
    assert g == GoalOf(enabled, tenant, url, ds) by {
      assert forall n :: IsLive(cs, n) <==> IsLive(ds, n);
      LiveNamesIgnoreOrder(cs, ds);
    }
    FindIgnoresOrder(cs, ds);
    WantByFind(g, before, cs, ds);
  }

  lemma WantByFind(g: Goal, before: seq<EnvVar>, cs: seq<Cluster>, ds: seq<Cluster>)
    requires forall n :: Find(cs, n) == Find(ds, n)
    ensures forall x :: Want(g, x, before, cs) == Want(g, x, before, ds)
  {
  }

  lemma DistinctNamesMultiset(cs: seq<Cluster>, ds: seq<Cluster>)
    requires DistinctNames(cs) && multiset(cs) == multiset(ds)
    ensures DistinctNames(ds)
  {
    assert Distinct(cs);
    DistinctMultiset(cs);
    DistinctMultiset(ds);
    forall i, j | 0 <= i < j < |ds| ensures ds[i].name != ds[j].name {
      assert ds[i] in multiset(ds) && ds[j] in multiset(ds);
      assert ds[i] in cs && ds[j] in cs && ds[i] != ds[j];
    }
  }

  lemma {:induction false} LookupListed(vars: seq<EnvVar>, names: seq<string>, v: EnvVar)
    requires Lookup(vars, CLUSTERS) == Some(v) && v.value == Join(names, ' ')
    requires forall n :: n in names ==> ValidName(n)
    ensures Listed(vars) == names
  {
    JoinNonEmpty(names, ' ');
    if names != [] {
      forall n | n in names ensures ' ' !in n {
        assert ValidName(n);
      }
      SplitJoin(names, ' ');
    }
  }

  // ---- The tenant object in memory ----

  class TenantObject {
    const name: string
    const enabled: bool
    var rv: nat
    var vars: seq<EnvVar>
    var status: seq<string>

    constructor (t: Tenant)
      ensures Value() == t
    {
      name, enabled, rv, vars, status := t.name, t.enabled, t.rv, t.vars, t.status;
    }

    function Value(): Tenant
      reads this
    {
      Tenant(name, rv, enabled, vars, status)
    }

    /** Takes over what the server answered. */
    method Refresh(t: Tenant)
      requires t.name == name && t.enabled == enabled
      modifies this
      ensures Value() == t
    {
      rv, vars, status := t.rv, t.vars, t.status;
    }
  }

  method FilterDeletedClusters(clusters: seq<Cluster>) returns (filtered: seq<Cluster>)
    ensures filtered == NotDeleting(clusters)
  {
    filtered := [];
    for i := 0 to |clusters|
      invariant filtered == NotDeleting(clusters[..i])
    {
      assert clusters[..i + 1][..i] == clusters[..i];
      if !clusters[i].deleting {
        filtered := filtered + [clusters[i]];
      }
    }
    assert clusters[..|clusters|] == clusters;
  }

  method SortedClusterNames(clusters: seq<Cluster>) returns (names: seq<string>)
    ensures names == Sort(NamesOf(clusters))
  {
    names := [];
    for i := 0 to |clusters|
      invariant names == NamesOf(clusters)[..i]
    {
      names := names + [clusters[i].name];
    }
    assert names == NamesOf(clusters);
    names := Sort(names);
  }

  method EnsureStatus(t: TenantObject, clustersWithPipelineEnabled: seq<Cluster>) returns (changed: bool)
    modifies t`status
    ensures t.status == Sort(NamesOf(NotDeleting(clustersWithPipelineEnabled)))
    ensures changed <==> t.status != old(t.status)
  {
    var remaining := FilterDeletedClusters(clustersWithPipelineEnabled);
    var sc := SortedClusterNames(remaining);
    if t.status == sc {
      return false;
    }
    t.status := sc;
    return true;
  }

  /** What three edits of different variables come to. */
  lemma ThreeEdits(a: string, b: string, c: string, wa: Option<EnvVar>, wb: Option<EnvVar>, wc: Option<EnvVar>,
                   start: seq<EnvVar>, first: seq<EnvVar>, second: seq<EnvVar>, third: seq<EnvVar>)
    requires a != b && b != c && c != a
    requires Rebound(start, first, a, wa) && Rebound(first, second, b, wb) && Rebound(second, third, c, wc)
    ensures forall x :: Lookup(third, x) ==
                        if x == a then wa else if x == b then wb else if x == c then wc else Lookup(start, x)
  {
  }

  /** An edit of a variable so far untouched undoes no change made before it. */
  lemma SameAfterEdit(start: seq<EnvVar>, mid: seq<EnvVar>, end: seq<EnvVar>, name: string, want: Option<EnvVar>)
    requires Rebound(mid, end, name, want) && Lookup(mid, name) == Lookup(start, name)
    ensures SameVars(end, start) <==> SameVars(mid, start) && want == Lookup(mid, name)
  {
  }

  lemma ThreeEditsKeepVarsOk(start: seq<EnvVar>, first: seq<EnvVar>, second: seq<EnvVar>, third: seq<EnvVar>,
                             wa: Option<EnvVar>, wb: Option<EnvVar>, wc: Option<EnvVar>)
    requires VarsOk(start)
    requires Edited(start, first, API_URL, wa) && Edited(first, second, CLUSTERS, wb)
    requires Edited(second, third, API_TOKEN, wc)
    requires wc.Some? ==> wc.value.RefersToSecret()
    ensures VarsOk(first) && VarsOk(second) && VarsOk(third)
  {
    BaseVarsAreNotAccessVars();
    assert API_URL != API_TOKEN && CLUSTERS != API_TOKEN;
    EditKeepsVarsOk(start, first, API_URL, wa);
    EditKeepsVarsOk(first, second, CLUSTERS, wb);
    EditKeepsVarsOk(second, third, API_TOKEN, wc);
  }

  lemma ReachedBase(g: Goal, start: seq<EnvVar>, end: seq<EnvVar>)
    requires forall x :: Lookup(end, x) ==
                         if x == API_URL then (if g.enabled then Some(WithValue(x, g.url, Lookup(start, x))) else None)
                         else if x == CLUSTERS then
                           (if g.enabled then Some(WithValue(x, g.list, Lookup(start, x))) else None)
                         else if x == API_TOKEN then
                           (if g.enabled then Some(WithSecret(x, g.tenant, TOKEN_KEY, Lookup(start, x))) else None)
                         else Lookup(start, x)
    ensures Reached(g, start, end, [])
  {
  }

  method EnsureCiVariablesAbsent(t: TenantObject) returns (changed: bool)
    requires VarsOk(t.vars) && !t.enabled
    modifies t`vars
    ensures VarsOk(t.vars)
    ensures forall g: Goal :: !g.enabled ==> Reached(g, old(t.vars), t.vars, [])
    ensures UserVars(t.vars) == UserVars(old(t.vars))
    ensures changed <==> !SameVars(t.vars, old(t.vars))
    ensures !changed ==> t.vars == old(t.vars)
  {
    ghost var start := t.vars;
    assert ManagedVar(API_URL) && ManagedVar(API_TOKEN) && ManagedVar(CLUSTERS);
    var vars, ch;
    vars, changed := RemoveEnvVar(API_URL, t.vars);
    ghost var first := vars;
    vars, ch := RemoveEnvVar(API_TOKEN, vars);
    changed := ch || changed;
    ghost var second := vars;
    vars, ch := RemoveEnvVar(CLUSTERS, vars);
    changed := ch || changed;
    RemovalsKeepVarsOk(start, first, second, vars);
    ThreeEdits(API_URL, API_TOKEN, CLUSTERS, None, None, None, start, first, second, vars);
    SameAfterEdit(start, start, first, API_URL, None);
    SameAfterEdit(start, first, second, API_TOKEN, None);
    SameAfterEdit(start, second, vars, CLUSTERS, None);
    EditKeepsUserVars(start, first, API_URL, None);
    EditKeepsUserVars(first, second, API_TOKEN, None);
    EditKeepsUserVars(second, vars, CLUSTERS, None);
    forall g: Goal | !g.enabled ensures Reached(g, start, vars, []) {
      ReachedBase(g, start, vars);
    }
    if changed {
      t.vars := vars;
    }
  }

  lemma RemovalsKeepVarsOk(start: seq<EnvVar>, first: seq<EnvVar>, second: seq<EnvVar>, third: seq<EnvVar>)
    requires VarsOk(start)
    requires Edited(start, first, API_URL, None) && Edited(first, second, API_TOKEN, None)
    requires Edited(second, third, CLUSTERS, None)
    ensures VarsOk(first) && VarsOk(second) && VarsOk(third)
  {
  }

  method EnsureCiVariables(t: TenantObject, apiUrl: string, clusters: seq<Cluster>, ghost all: seq<Cluster>)
    returns (changed: bool)
    requires VarsOk(t.vars) && t.enabled && clusters == NotDeleting(EnabledOnly(all))
    modifies t`vars
    ensures VarsOk(t.vars)
    ensures Reached(GoalOf(true, t.name, apiUrl, all), old(t.vars), t.vars, [])
    ensures UserVars(t.vars) == UserVars(old(t.vars))
    ensures changed <==> !SameVars(t.vars, old(t.vars))
    ensures !changed ==> t.vars == old(t.vars)
  {
    ghost var start := t.vars;
    var names := SortedClusterNames(clusters);
    var clusterList := Join(names, ' ');
    var list, ch;
    list, changed := UpdateEnvVarValue(API_URL, apiUrl, t.vars);
    ghost var first := list;
    list, ch := UpdateEnvVarValue(CLUSTERS, clusterList, list);
    changed := changed || ch;
    ghost var second := list;
    TwoValuesKeepToken(start, first, second);
    list, ch := UpdateEnvVarValueFrom(API_TOKEN, t.name, TOKEN_KEY, list);
    changed := changed || ch;
    ghost var wa, wb, wc := Lookup(first, API_URL), Lookup(second, CLUSTERS), Lookup(list, API_TOKEN);
    ThreeEditsKeepVarsOk(start, first, second, list, wa, wb, wc);
    ThreeEdits(API_URL, CLUSTERS, API_TOKEN, wa, wb, wc, start, first, second, list);
    SameAfterEdit(start, start, first, API_URL, wa);
    SameAfterEdit(start, first, second, CLUSTERS, wb);
    SameAfterEdit(start, second, list, API_TOKEN, wc);
    ReachedBase(GoalOf(true, t.name, apiUrl, all), start, list);
    EditKeepsUserVars(start, first, API_URL, wa);
    EditKeepsUserVars(first, second, CLUSTERS, wb);
    EditKeepsUserVars(second, list, API_TOKEN, wc);
    if changed {
      t.vars := list;
    }
  }

  lemma TwoValuesKeepToken(start: seq<EnvVar>, first: seq<EnvVar>, second: seq<EnvVar>)
    requires VarsOk(start)
    requires Rebound(start, first, API_URL, Lookup(first, API_URL))
    requires Rebound(first, second, CLUSTERS, Lookup(second, CLUSTERS))
    ensures Has(second, API_TOKEN) ==> Lookup(second, API_TOKEN).value.RefersToSecret()
    ensures Lookup(second, API_TOKEN) == Lookup(start, API_TOKEN) && Lookup(first, CLUSTERS) == Lookup(start, CLUSTERS)
  {
    assert API_URL != API_TOKEN && CLUSTERS != API_TOKEN && API_URL != CLUSTERS;
    LookupIn(start, API_TOKEN);
  }

  method EnsureClusterCiVariable(t: TenantObject, c: Cluster) returns (changed: bool)
    requires VarsOk(t.vars) && ValidName(c.name)
    modifies t`vars
    ensures VarsOk(t.vars)
    ensures var x := AccessVar(c.name);
            && ClusterOfVar(x) == Some(c.name)
            && Edited(old(t.vars), t.vars, x, WantAccess(t.enabled, c, Lookup(old(t.vars), x)))
            && (Has(t.vars, x) <==> t.enabled && c.enabled && !c.deleting && c.secretRef != "")
            && (Has(t.vars, x) ==> RefersTo(Lookup(t.vars, x), c.secretRef, "token"))
            && (changed <==> Lookup(t.vars, x) != Lookup(old(t.vars), x))
            && UserVars(t.vars) == UserVars(old(t.vars))
    ensures !changed ==> t.vars == old(t.vars)
  {
    AccessVarInverse(c.name);
    var remove := c.deleting || c.secretRef == "" || !t.enabled || !c.enabled;
    var envVarName := ACCESS_TOKEN_PREFIX + Mangle(c.name);
    assert ManagedVar(envVarName);
    LookupIn(t.vars, envVarName);
    var list;
    if remove {
      list, changed := RemoveEnvVar(envVarName, t.vars);
    } else {
      list, changed := UpdateEnvVarValueFrom(envVarName, c.secretRef, TOKEN_KEY, t.vars);
    }
    EditKeepsVarsOk(t.vars, list, envVarName, Lookup(list, envVarName));
    EditKeepsUserVars(t.vars, list, envVarName, Lookup(list, envVarName));
    if changed {
      t.vars := list;
    }
  }

  lemma WantOneMore(g: Goal, before: seq<EnvVar>, cs: seq<Cluster>, c: Cluster, x: string)
    requires ValidName(c.name) && x != AccessVar(c.name)
    ensures Want(g, x, before, cs + [c]) == Want(g, x, before, cs)
  {
    assert (cs + [c])[..|cs|] == cs;
    var n := ClusterOfVar(x);
    assert n.Some? ==> Find(cs + [c], n.value) == Find(cs, n.value);
  }

  /** One more cluster handled. */
  lemma ReachedOneMore(g: Goal, before: seq<EnvVar>, mid: seq<EnvVar>, after: seq<EnvVar>, cs: seq<Cluster>, c: Cluster)
    requires ValidName(c.name) && DistinctNames(cs + [c])
    requires Reached(g, before, mid, cs)
    requires !c.unmanaged ==>
      Edited(mid, after, AccessVar(c.name), WantAccess(g.enabled, c, Lookup(mid, AccessVar(c.name))))
    requires c.unmanaged ==> after == mid
    ensures Reached(g, before, after, cs + [c])
    ensures Lookup(mid, AccessVar(c.name)) == Lookup(before, AccessVar(c.name))
  {
    AccessVarInverse(c.name);
    assert (cs + [c])[..|cs|] == cs;
    forall x ensures Lookup(after, x) == Want(g, x, before, cs + [c]) {
      if x != AccessVar(c.name) {
        WantOneMore(g, before, cs, c, x);
        assert Lookup(after, x) == Lookup(mid, x);
      } else {
        forall d | d in cs ensures d.name != c.name {
          var i :| 0 <= i < |cs| && cs[i] == d;
          assert (cs + [c])[i] == d && (cs + [c])[|cs|] == c;
        }
      }
    }
  }
}
