/** The part of the Kubernetes API the compile pipeline works on: one tenant, the clusters,
    and everybody else who edits them. */
module ClusterStore {
  import opened Wrappers
  import opened Strings
  import opened EnvVars

  const API_URL := "COMMODORE_API_URL"
  const API_TOKEN := "COMMODORE_API_TOKEN"
  const CLUSTERS := "CLUSTERS"
  const ACCESS_TOKEN_PREFIX := "ACCESS_TOKEN_"
  const TOKEN_KEY := "token"

  /** The finalizer cluster.lieutenant.syn.tools/pipelines, and all others. */
  datatype Finalizer = PipelineFinalizer | OtherFinalizer(name: string)

  datatype Cluster = Cluster(
    name: string, uid: nat, rv: nat, tenant: string,
    enabled: bool, unmanaged: bool, secretRef: string,
    deleting: bool, finalizers: set<Finalizer>)

  datatype Tenant = Tenant(name: string, rv: nat, enabled: bool, vars: seq<EnvVar>, status: seq<string>)

  /** tn is the name of the tenant under reconciliation; rev is the store's write counter. */
  datatype State = State(tn: string, tenant: Option<Tenant>, clusters: map<string, Cluster>, rev: nat)

  // ---- Names ----

  predicate ValidName(n: string) {
    n != "" && forall i :: 0 <= i < |n| ==> 'a' <= n[i] <= 'z' || '0' <= n[i] <= '9' || n[i] == '-' || n[i] == '.'
  }

  function Mangle(n: string): (r: string)
    ensures |r| == |n|
  {
    seq(|n|, i requires 0 <= i < |n| => if n[i] == '-' then '_' else n[i])
  }

  function Unmangle(n: string): (r: string)
    ensures |r| == |n|
  {
    seq(|n|, i requires 0 <= i < |n| => if n[i] == '_' then '-' else n[i])
  }

  function AccessVar(n: string): string {
    ACCESS_TOKEN_PREFIX + Mangle(n)
  }

  /** The cluster whose access token a variable of this name holds. */
  function ClusterOfVar(x: string): (r: Option<string>)
    ensures r.Some? ==> ValidName(r.value) && x == AccessVar(r.value)
  {
    if ACCESS_TOKEN_PREFIX <= x then
      var rest := x[|ACCESS_TOKEN_PREFIX|..];
      if ValidName(Unmangle(rest)) && Mangle(Unmangle(rest)) == rest then Some(Unmangle(rest)) else None
    else None
  }

  /** Different clusters have different access token variables, because Kubernetes names
      have no underscore. */
  lemma AccessVarInverse(n: string)
    requires ValidName(n)
    ensures ClusterOfVar(AccessVar(n)) == Some(n)
    ensures AccessVar(n) != API_URL && AccessVar(n) != API_TOKEN && AccessVar(n) != CLUSTERS
  {
    assert AccessVar(n)[|ACCESS_TOKEN_PREFIX|..] == Mangle(n);
    assert Unmangle(Mangle(n)) == n;
    assert AccessVar(n)[0] == 'A';
  }

  /** The prefix, and the name with every dash made an underscore. */
  lemma AccessVarSpelled(n: string)
    ensures "ACCESS_TOKEN_" <= AccessVar(n) && |AccessVar(n)| == 13 + |n|
    ensures forall i :: 0 <= i < |n| ==> AccessVar(n)[13 + i] == if n[i] == '-' then '_' else n[i]
  {
  }

  lemma BaseVarsAreNotAccessVars()
    ensures ClusterOfVar(API_URL) == ClusterOfVar(API_TOKEN) == ClusterOfVar(CLUSTERS) == None
  {
    assert API_URL[0] == API_TOKEN[0] == CLUSTERS[0] == 'C' && ACCESS_TOKEN_PREFIX[0] == 'A';
  }

  /** The names of variables the compile pipeline controller writes. */
  predicate ManagedVar(x: string) {
    x == API_URL || x == API_TOKEN || x == CLUSTERS || ClusterOfVar(x).Some?
  }

  predicate VarsOk(vars: seq<EnvVar>) {
    && (forall v | v in vars :: ManagedVar(v.name) ==> Once(vars, v.name))
    && (forall v | v in vars :: (v.name == API_TOKEN || ClusterOfVar(v.name).Some?) ==> v.RefersToSecret())
  }

  /** Writing a well-formed entry for one name keeps a list well-formed. */
  lemma EditKeepsVarsOk(vars: seq<EnvVar>, vars': seq<EnvVar>, x: string, want: Option<EnvVar>)
    requires VarsOk(vars) && Edited(vars, vars', x, want)
    requires want.Some? && (want.value.name == API_TOKEN || ClusterOfVar(want.value.name).Some?) ==>
      want.value.RefersToSecret()
    ensures VarsOk(vars')
  {
  }

  // ---- Safety ----

  /** What the stored CLUSTERS variable lists. */
  function Listed(vars: seq<EnvVar>): seq<string> {
    match Lookup(vars, CLUSTERS)
    case None => []
    case Some(v) => if v.value == "" then [] else Split(v.value, ' ')
  }

  ghost predicate Names(vars: seq<EnvVar>, n: string) {
    n in Listed(vars) || (ValidName(n) && Has(vars, AccessVar(n)))
  }

  predicate Held(s: State, n: string) {
    n in s.clusters && s.clusters[n].tenant == s.tn && PipelineFinalizer in s.clusters[n].finalizers
  }

  /** Every cluster these variables name exists and cannot disappear, as it holds the
      pipeline finalizer. */
  ghost predicate Protects(s: State, vars: seq<EnvVar>) {
    && (forall n :: n in Listed(vars) ==> Held(s, n))
    && (forall n :: ValidName(n) && Has(vars, AccessVar(n)) ==> Held(s, n) && !s.clusters[n].unmanaged)
  }

  ghost predicate Safe(s: State) {
    s.tenant.Some? ==> Protects(s, s.tenant.value.vars)
  }

  // ---- The store and its other writers ----

  predicate ClusterOk(s: State, n: string, c: Cluster) {
    && c.name == n && ValidName(n) && c.rv <= s.rev && c.uid <= s.rev
    && (c.deleting ==> c.finalizers != {})
  }

  predicate WellFormed(s: State) {
    && (forall n | n in s.clusters :: ClusterOk(s, n, s.clusters[n]))
    && (s.tenant.Some? ==> s.tenant.value.name == s.tn && s.tenant.value.rv <= s.rev && VarsOk(s.tenant.value.vars))
  }

  /** What others may do to one object that lives on: anything except moving it to another
      tenant, changing whether its repository is managed, undoing its deletion, or touching
      the pipeline finalizer of this tenant's clusters. */
  predicate ClusterEdit(tn: string, c: Cluster, c': Cluster) {
    && c'.tenant == c.tenant && c'.unmanaged == c.unmanaged && (c.deleting ==> c'.deleting)
    && (c.tenant == tn ==> (PipelineFinalizer in c'.finalizers <==> PipelineFinalizer in c.finalizers))
  }

  predicate ClusterFate(s: State, s': State, n: string)
    requires n in s'.clusters
  {
    var c' := s'.clusters[n];
    if n in s.clusters && s.clusters[n].uid == c'.uid
    then c' == s.clusters[n] || (c'.rv > s.rev && ClusterEdit(s.tn, s.clusters[n], c'))
    else c'.rv > s.rev && c'.uid > s.rev
  }

  /** Others may edit the tenant as they like, but never add or alter a managed variable. */
  predicate TenantFate(s: State, s': State) {
    s'.tenant.Some? && s'.tenant != s.tenant ==>
      var t' := s'.tenant.value;
      && t'.rv > s.rev
      && (forall v | v in t'.vars && ManagedVar(v.name) :: s.tenant.Some? && v in s.tenant.value.vars)
      && (t'.status == [] || (s.tenant.Some? && t'.status == s.tenant.value.status))
  }

  /** Any number of edits by anybody but this controller. An object with a finalizer is
      only marked as deleting, so a held cluster stays. */
  predicate Interference(s: State, s': State) {
    && s'.tn == s.tn && s.rev <= s'.rev && WellFormed(s')
    && (forall n | n in s.clusters :: Held(s, n) ==> n in s'.clusters && s'.clusters[n].uid == s.clusters[n].uid)
    && (forall n | n in s'.clusters :: ClusterFate(s, s', n))
    && TenantFate(s, s')
  }

  lemma InterferenceReflexive(s: State)
    requires WellFormed(s)
    ensures Interference(s, s)
  {
  }

  lemma InterferenceTransitive(a: State, b: State, c: State)
    requires WellFormed(a) && Interference(a, b) && Interference(b, c)
    ensures Interference(a, c)
  {
    forall n | n in a.clusters && Held(a, n) ensures n in c.clusters && c.clusters[n].uid == a.clusters[n].uid {
      assert ClusterFate(a, b, n);
      assert Held(b, n);
    }
    forall n | n in c.clusters ensures ClusterFate(a, c, n) {
      assert ClusterFate(b, c, n);
      if n in b.clusters {
        assert ClusterFate(a, b, n);
      }
    }
  }

  /** A managed variable others have left in place is the one that was there. */
  lemma InterferenceLookup(s: State, s': State, x: string)
    requires WellFormed(s) && Interference(s, s') && s'.tenant.Some? && ManagedVar(x) && Has(s'.tenant.value.vars, x)
    ensures s.tenant.Some? && Lookup(s'.tenant.value.vars, x) == Lookup(s.tenant.value.vars, x)
  {
    if s'.tenant != s.tenant {
      LookupIn(s'.tenant.value.vars, x);
      var v := Lookup(s'.tenant.value.vars, x).value;
      assert v in s.tenant.value.vars;
      var i :| 0 <= i < |s.tenant.value.vars| && s.tenant.value.vars[i] == v;
      LookupAt(s.tenant.value.vars, i);
    }
  }

  /** The managed variables of a are among those of b. */
  ghost predicate ManagedAmong(a: seq<EnvVar>, b: seq<EnvVar>) {
    forall x {:trigger ManagedVar(x)} :: ManagedVar(x) && Has(a, x) ==> Lookup(a, x) == Lookup(b, x)
  }

  ghost predicate StoredAmong(s: State, vars: seq<EnvVar>) {
    s.tenant.Some? ==> ManagedAmong(s.tenant.value.vars, vars)
  }

  lemma FewerVarsProtect(s: State, a: seq<EnvVar>, b: seq<EnvVar>)
    requires ManagedAmong(a, b) && Protects(s, b)
    ensures Protects(s, a)
  {
    assert ManagedVar(CLUSTERS);
    forall n | ValidName(n) && Has(a, AccessVar(n)) ensures Held(s, n) && !s.clusters[n].unmanaged {
      AccessVarInverse(n);
      assert ManagedVar(AccessVar(n)) && Has(b, AccessVar(n));
    }
  }

  lemma InterferenceKeepsHeld(s: State, s': State, n: string)
    requires WellFormed(s) && Interference(s, s') && Held(s, n)
    ensures Held(s', n)
    ensures s'.clusters[n].uid == s.clusters[n].uid && s'.clusters[n].unmanaged == s.clusters[n].unmanaged
  {
  }

  lemma InterferenceKeepsProtects(s: State, s': State, vars: seq<EnvVar>)
    requires WellFormed(s) && Interference(s, s') && Protects(s, vars)
    ensures Protects(s', vars)
  {
    forall n | Held(s, n)
      ensures Held(s', n) && s'.clusters[n].unmanaged == s.clusters[n].unmanaged
    {
      InterferenceKeepsHeld(s, s', n);
    }
  }

  lemma InterferenceKeepsAmong(s: State, s': State, vars: seq<EnvVar>)
    requires WellFormed(s) && Interference(s, s') && StoredAmong(s, vars)
    ensures StoredAmong(s', vars)
  {
    if s'.tenant.Some? {
      forall x | ManagedVar(x) && Has(s'.tenant.value.vars, x)
        ensures Lookup(s'.tenant.value.vars, x) == Lookup(vars, x)
      {
        InterferenceLookup(s, s', x);
      }
    }
  }

  /** No edit by others can make the stored variables name an unprotected cluster. */
  lemma InterferenceKeepsSafe(s: State, s': State)
    requires WellFormed(s) && Interference(s, s') && Safe(s)
    ensures Safe(s')
  {
    if s'.tenant.Some? {
      var none: seq<EnvVar> := [];
      var vars := if s.tenant.Some? then s.tenant.value.vars else none;
      InterferenceKeepsProtects(s, s', vars);
      InterferenceKeepsAmong(s, s', vars);
      FewerVarsProtect(s', s'.tenant.value.vars, vars);
    }
  }

  // ---- Writes ----

  predicate Current(s: State, c: Cluster) {
    c.name in s.clusters && s.clusters[c.name].rv == c.rv
  }

  predicate TenantCurrent(s: State, t: Tenant) {
    s.tenant.Some? && s.tenant.value.rv == t.rv
  }

  /** A deleting object goes away with its last finalizer. */
  function PutCluster(s: State, c: Cluster): State {
    if c.deleting && c.finalizers == {}
    then s.(clusters := s.clusters - {c.name}, rev := s.rev + 1)
    else s.(clusters := s.clusters[c.name := c.(rv := s.rev + 1)], rev := s.rev + 1)
  }

  /** An update of the object leaves the status subresource alone, and the other way round. */
  function PutTenant(s: State, t: Tenant): State
    requires s.tenant.Some?
  {
    s.(tenant := Some(t.(rv := s.rev + 1, status := s.tenant.value.status)), rev := s.rev + 1)
  }

  function PutTenantStatus(s: State, t: Tenant): State
    requires s.tenant.Some?
  {
    s.(tenant := Some(s.tenant.value.(rv := s.rev + 1, status := t.status)), rev := s.rev + 1)
  }

  /** Anybody may delete any cluster: with finalizers it is marked, without it goes at once. */
  lemma DeletingIsInterference(s: State, n: string)
    requires WellFormed(s) && n in s.clusters
    ensures Interference(s, PutCluster(s, s.clusters[n].(deleting := true)))
  {
    var s' := PutCluster(s, s.clusters[n].(deleting := true));
    assert ClusterOk(s, n, s.clusters[n]);
    forall m | m in s'.clusters ensures ClusterOk(s', m, s'.clusters[m]) && ClusterFate(s, s', m) {
      assert ClusterOk(s, m, s.clusters[m]);
    }
  }

  /** Anybody may create a cluster, under a name used before as well, with any finalizers. */
  lemma CreatingIsInterference(s: State, c: Cluster)
    requires WellFormed(s) && c.name !in s.clusters && ValidName(c.name) && !c.deleting
    ensures var c' := c.(rv := s.rev + 1, uid := s.rev + 1);
            Interference(s, s.(clusters := s.clusters[c.name := c'], rev := s.rev + 1))
  {
  }

  /** The answer to listing the tenant's clusters, in whatever order. */
  ghost predicate Listing(s: State, items: seq<Cluster>) {
    && (forall i, j :: 0 <= i < j < |items| ==> items[i].name != items[j].name)
    && (forall c :: c in items ==> c.name in s.clusters && s.clusters[c.name] == c && c.tenant == s.tn)
    && (forall n :: n in s.clusters && s.clusters[n].tenant == s.tn ==> s.clusters[n] in items)
  }

  // ---- What the store has gone through ----

  function TenantAt(history: seq<State>, i: nat): Option<Tenant>
    requires i < |history|
  {
    history[i].tenant
  }

  predicate SameIfSameVersion(a: Option<Tenant>, b: Option<Tenant>) {
    a.Some? && b.Some? && a.value.rv == b.value.rv ==> a == b
  }

  /** A version of the tenant stands for one content, in all states the store went through. */
  ghost predicate Versioned(history: seq<State>, rev: nat) {
    && (forall i {:trigger TenantAt(history, i)} ::
          0 <= i < |history| && TenantAt(history, i).Some? ==> TenantAt(history, i).value.rv <= rev)
    && (forall i, j {:trigger TenantAt(history, i), TenantAt(history, j)} ::
          0 <= i < |history| && 0 <= j < |history| ==> SameIfSameVersion(TenantAt(history, i), TenantAt(history, j)))
  }

  lemma VersionedStep(history: seq<State>, s: State)
    requires history != []
    requires var last := history[|history| - 1];
      && Versioned(history, last.rev) && last.rev <= s.rev
      && (s.tenant.Some? && s.tenant != last.tenant ==> last.rev < s.tenant.value.rv <= s.rev)
    ensures Versioned(history + [s], s.rev)
  {
    var history' := history + [s];
    assert TenantAt(history, |history| - 1) == history[|history| - 1].tenant;
    forall i | 0 <= i < |history'|
      ensures i < |history| ==> TenantAt(history', i) == TenantAt(history, i)
      ensures TenantAt(history', i).Some? ==> TenantAt(history', i).value.rv <= s.rev
      ensures SameIfSameVersion(TenantAt(history', i), s.tenant)
    {
      if i < |history| {
        assert SameIfSameVersion(TenantAt(history, i), TenantAt(history, |history| - 1));
      }
    }
  }

  /** The k-th state held this tenant. */
  predicate ReadAt(history: seq<State>, k: nat, t: Tenant) {
    k < |history| && history[k].tenant == Some(t)
  }

  /** The API server. With faulty set, others write between any two calls and any call may
      be refused, or served with its reply lost. */
  class Api {
    const faulty: bool
    const tn: string
    var st: State
    var writes: nat
    ghost var history: seq<State>

    ghost predicate Inv()
      reads this
    {
      && WellFormed(st) && Safe(st) && st.tn == tn
      && history != [] && history[|history| - 1] == st
      && (forall h :: h in history ==> Safe(h)) && Versioned(history, st.rev)
    }

    constructor (faulty: bool, st: State)
      requires WellFormed(st) && Safe(st)
      ensures Inv() && this.faulty == faulty && this.st == st && history == [st]
    {
      this.faulty, this.tn, this.st, this.writes, this.history := faulty, st.tn, st, 0, [st];
    }

    /** Others act, any number of times. */
    method Interfere()
      requires Inv()
      modifies this`st, this`history
      ensures Inv() && Interference(old(st), st)
      ensures old(history) <= history
      ensures !faulty ==> st == old(st)
    {
      InterferenceReflexive(st);
      if faulty {
        var edits: nat :| true;
        for i := 0 to edits
          invariant Inv() && Interference(old(st), st) && old(history) <= history
        {
          InterferenceReflexive(st);
          var next: State :| Interference(st, next);
          InterferenceTransitive(old(st), st, next);
          InterferenceKeepsSafe(st, next);
          VersionedStep(history, next);
          st := next;
          history := history + [st];
        }
      }
    }

    method GetTenant() returns (r: Reply<Option<Tenant>>)
      ensures r.Served? ==> r.value == st.tenant
      ensures !faulty ==> r.Served?
    {
      var refused: bool := *;
      r := if faulty && refused then Refused else Served(st.tenant);
    }

    method ListClusters() returns (r: Reply<seq<Cluster>>)
      requires Inv()
      ensures r.Served? ==> Listing(st, r.value)
      ensures !faulty ==> r.Served?
    {
      var refused: bool := *;
      if faulty && refused {
        return Refused;
      }
      var items: seq<Cluster>, names := [], set n | n in st.clusters && st.clusters[n].tenant == st.tn;
      while names != {}
        invariant names <= set n | n in st.clusters && st.clusters[n].tenant == st.tn
        invariant forall c: Cluster :: c in items ==>
          c.name !in names && c.name in st.clusters && st.clusters[c.name] == c && c.tenant == st.tn
        invariant forall i, j :: 0 <= i < j < |items| ==> items[i].name != items[j].name
        invariant forall n :: n in st.clusters && st.clusters[n].tenant == st.tn && n !in names ==>
          st.clusters[n] in items
        decreases names
      {
        var n: string :| n in names;
        items := items + [st.clusters[n]];
        names := names - {n};
      }
      return Served(items);
    }

    method UpdateCluster(c: Cluster) returns (ok: bool)
      requires Inv()
      requires Current(st, c) ==> WellFormed(PutCluster(st, c)) && Safe(PutCluster(st, c))
      modifies this
      ensures Inv()
      ensures old(history) <= history
      ensures st == old(st) || (Current(old(st), c) && st == PutCluster(old(st), c))
      ensures ok ==> Current(old(st), c) && st == PutCluster(old(st), c)
      ensures !faulty ==> ok == Current(old(st), c)
    {
      var refused: bool, lost: bool := *, *;
      if (faulty && refused) || !Current(st, c) {
        return false;
      }
      VersionedStep(history, PutCluster(st, c));
      st, writes := PutCluster(st, c), writes + 1;
      history := history + [st];
      ok := !(faulty && lost);
    }

    method UpdateTenant(t: Tenant) returns (r: Reply<Tenant>)
      requires Inv()
      requires TenantCurrent(st, t) ==> WellFormed(PutTenant(st, t)) && Safe(PutTenant(st, t))
      modifies this
      ensures Inv()
      ensures old(history) <= history
      ensures st == old(st) || (TenantCurrent(old(st), t) && st == PutTenant(old(st), t))
      ensures r.Served? ==> TenantCurrent(old(st), t) && st == PutTenant(old(st), t) && Some(r.value) == st.tenant
      ensures !faulty ==> r.Served? == TenantCurrent(old(st), t)
    {
      var refused: bool, lost: bool := *, *;
      if (faulty && refused) || !TenantCurrent(st, t) {
        return Refused;
      }
      VersionedStep(history, PutTenant(st, t));
      st, writes := PutTenant(st, t), writes + 1;
      history := history + [st];
      r := if faulty && lost then Refused else Served(st.tenant.value);
    }

    method UpdateTenantStatus(t: Tenant) returns (ok: bool)
      requires Inv()
      modifies this
      ensures Inv()
      ensures old(history) <= history
      ensures st == old(st) || (TenantCurrent(old(st), t) && st == PutTenantStatus(old(st), t))
      ensures ok ==> TenantCurrent(old(st), t) && st == PutTenantStatus(old(st), t)
      ensures !faulty ==> ok == TenantCurrent(old(st), t)
    {
      var refused: bool, lost: bool := *, *;
      if (faulty && refused) || !TenantCurrent(st, t) {
        return false;
      }
      assert Safe(PutTenantStatus(st, t)) && WellFormed(PutTenantStatus(st, t));
      VersionedStep(history, PutTenantStatus(st, t));
      st, writes := PutTenantStatus(st, t), writes + 1;
      history := history + [st];
      ok := !(faulty && lost);
    }
  }
}
