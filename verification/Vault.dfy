/** Secrets in Vault: writing a cluster's token, and removing everything below its path. */
module Vault {
  import opened Wrappers
  import Sorting
  import Strings
  import Tokens = ServiceAccountTokens

  datatype Policy = Archive | Delete | Retain

  /** A version's data; what is stored under other names than "token" is not the operator's. */
  datatype Version = Version(data: map<string, string>, deleted: bool)

  /** The versions of a secret by number; current is the latest. */
  datatype Secret = Secret(current: nat, versions: map<nat, Version>)

  /** Paths by their components. */
  type Path = seq<string>

  type Store = map<Path, Secret>

  // ---- Trees ----

  /** p is a leaf somewhere below the directory d. */
  predicate Under(p: Path, d: Path) {
    |p| > |d| && d <= p
  }

  ghost predicate NonEmpty(store: Store, d: Path) {
    exists p :: p in store && Under(p, d)
  }

  predicate ValidName(n: string) {
    n != "" && '/' !in n
  }

  predicate ValidSecret(s: Secret) {
    s.current in s.versions && forall v :: v in s.versions ==> v <= s.current
  }

  ghost predicate ValidStore(store: Store) {
    forall p :: p in store ==> ValidSecret(store[p]) && forall i :: 0 <= i < |p| ==> ValidName(p[i])
  }

  /** Directories are listed with a slash at the end. */
  predicate IsDirectory(entry: string) {
    entry != "" && entry[|entry| - 1] == '/'
  }

  function NameOf(entry: string): string {
    if IsDirectory(entry) then entry[..|entry| - 1] else entry
  }

  /** Joining drops the slash. */
  function Join(d: Path, entry: string): Path {
    d + [NameOf(entry)]
  }

  /** The leaves an entry of d stands for: itself, or everything below it. */
  predicate Covers(d: Path, entry: string, p: Path) {
    if IsDirectory(entry) then Under(p, Join(d, entry)) else p == Join(d, entry)
  }

  function EntryFor(d: Path, p: Path): (e: string)
    requires Under(p, d)
  {
    if |p| == |d| + 1 then p[|d|] else p[|d|] + "/"
  }

  /** Each leaf below d is covered by one entry of the listing, and no other. */
  lemma EntryForCovers(d: Path, p: Path, entry: string)
    requires Under(p, d) && ValidName(p[|d|])
    ensures Covers(d, EntryFor(d, p), p)
    ensures Covers(d, entry, p) && (IsDirectory(entry) || ValidName(entry)) ==> entry == EntryFor(d, p)
  {
  }

  /** What Vault lists for d: each entry once, in any order. */
  ghost predicate Listing(store: Store, d: Path, entries: seq<string>) {
    && Strings.Distinct(entries)
    && (forall e :: e in entries <==> exists p :: p in store && Under(p, d) && EntryFor(d, p) == e)
  }

  // ---- What removal does to one secret ----

  function SoftDeleted(s: Secret): Secret {
    s.(versions := map v | v in s.versions :: s.versions[v].(deleted := true))
  }

  /** after is before with the leaf p handled as the policy says. */
  ghost predicate Handled(policy: Policy, before: Store, after: Store, p: Path) {
    match policy
    case Delete => p !in after
    case Archive => p in before && p in after && after[p] == SoftDeleted(before[p])
    case Retain => false
  }

  ghost predicate Untouched(before: Store, after: Store, p: Path) {
    (p in after <==> p in before) && (p in after ==> after[p] == before[p])
  }

  method GetVersionList(s: Secret) returns (list: seq<nat>)
    ensures forall v :: v in list <==> v in s.versions
    ensures forall i, j :: 0 <= i < j < |list| ==> list[i] < list[j]
  {
    list := [];
    var rest := s.versions.Keys;
    while rest != {}
      invariant rest <= s.versions.Keys && Strings.Distinct(list)
      invariant forall v :: v in list <==> v in s.versions && v !in rest
      decreases rest
    {
      var v: nat :| v in rest;
      list, rest := list + [v], rest - {v};
    }
    ghost var unsorted := list;
    list := Sorting.SortBy((v: nat, w: nat) => v <= w, list);
    Strings.SameMembers(unsorted, list);
    Strings.DistinctMultiset(unsorted);
    Strings.DistinctMultiset(list);
  }

  // ---- Sweeping the entries of a directory ----

  /** From before to after, a removal below d handled the leaves of these entries and no others. */
  ghost predicate Swept(policy: Policy, before: Store, after: Store, d: Path, entries: seq<string>) {
    && (forall p :: p in after ==> p in before)
    && (forall p :: p in before && !Under(p, d) ==> Untouched(before, after, p))
    && (forall p :: p in before && Under(p, d) ==>
      if EntryFor(d, p) in entries then Handled(policy, before, after, p) else Untouched(before, after, p))
  }

  /** A removal below d that may have stopped half-way: each leaf is as before, or handled. */
  ghost predicate Partial(policy: Policy, before: Store, after: Store, d: Path) {
    && (forall p :: p in after ==> p in before)
    && (forall p :: p in before && !Under(p, d) ==> Untouched(before, after, p))
    && (forall p :: p in before && Under(p, d) ==>
      Handled(policy, before, after, p) || Untouched(before, after, p))
  }

  ghost predicate Removed(policy: Policy, before: Store, after: Store, d: Path) {
    && Partial(policy, before, after, d)
    && forall p :: p in before && Under(p, d) ==> Handled(policy, before, after, p)
  }

  /** What is below d is gone, or there with its data and every version deleted, as the policy
      says; all else is as it was. */
  lemma RemovedInPlainTerms(policy: Policy, before: Store, after: Store, d: Path)
    requires Removed(policy, before, after, d)
    ensures forall p: Path :: p in before && !(d <= p && |p| > |d|) ==> p in after && after[p] == before[p]
    ensures forall p: Path :: p in after ==> p in before
    ensures policy == Delete ==> forall p: Path :: p in after ==> !(d <= p && |p| > |d|)
    ensures policy == Archive ==> forall p: Path :: p in before && d <= p && |p| > |d| ==>
      && p in after && after[p].current == before[p].current && after[p].versions.Keys == before[p].versions.Keys
      && forall v :: v in before[p].versions ==> after[p].versions[v] == before[p].versions[v].(deleted := true)
    ensures policy == Retain ==> forall p: Path :: p in before ==> !(d <= p && |p| > |d|)
  {
    forall p: Path | p in before ensures Under(p, d) <==> d <= p && |p| > |d| {}
    forall p: Path | p in before && Under(p, d) ensures Handled(policy, before, after, p) {}
    forall p: Path | p in before && !Under(p, d) ensures Untouched(before, after, p) {}
  }

  /** The leaves of one entry of d handled, and nothing else changed. */
  ghost predicate EntryHandled(policy: Policy, before: Store, after: Store, d: Path, entry: string) {
    && (forall p :: p in after ==> p in before)
    && (forall p :: p in before ==>
      if Covers(d, entry, p) then Handled(policy, before, after, p) else Untouched(before, after, p))
  }

  lemma SweepOne(policy: Policy, before: Store, mid: Store, after: Store, d: Path, entries: seq<string>, entry: string)
    requires ValidStore(before) && Swept(policy, before, mid, d, entries)
    requires entry !in entries && (IsDirectory(entry) || ValidName(entry))
    requires EntryHandled(policy, mid, after, d, entry)
    ensures Swept(policy, before, after, d, entries + [entry])
  {
    forall p | p in before && Under(p, d)
      ensures if EntryFor(d, p) in entries + [entry] then Handled(policy, before, after, p) else Untouched(before, after, p)
    {
      assert ValidName(p[|d|]);
      EntryForCovers(d, p, entry);
    }
    forall p | p in before && !Under(p, d) ensures Untouched(before, after, p) {
      assert !Covers(d, entry, p);
    }
  }

  lemma SweepFailed(policy: Policy, before: Store, mid: Store, after: Store, d: Path, entries: seq<string>,
                    entry: string)
    requires ValidStore(before) && Swept(policy, before, mid, d, entries)
    requires entry !in entries && IsDirectory(entry)
    requires Partial(policy, mid, after, Join(d, entry))
    ensures Partial(policy, before, after, d)
  {
    forall p | p in before && Under(p, d)
      ensures Handled(policy, before, after, p) || Untouched(before, after, p)
    {
      assert ValidName(p[|d|]);
      EntryForCovers(d, p, entry);
    }
    forall p | p in before && !Under(p, d) ensures Untouched(before, after, p) {
      assert !Under(p, Join(d, entry));
    }
  }

  /** The next entry still stands for leaves: a subdirectory to come is not empty. */
  lemma NextEntry(policy: Policy, before: Store, mid: Store, d: Path, secrets: seq<string>, i: nat)
    requires ValidStore(before) && Listing(before, d, secrets) && i < |secrets|
    requires Swept(policy, before, mid, d, secrets[..i])
    ensures secrets[i] !in secrets[..i] && (IsDirectory(secrets[i]) || ValidName(secrets[i]))
    ensures if IsDirectory(secrets[i]) then NonEmpty(mid, Join(d, secrets[i])) else Join(d, secrets[i]) in mid
    ensures forall q :: Under(q, Join(d, secrets[i])) ==> Under(q, d)
    ensures secrets[..i + 1] == secrets[..i] + [secrets[i]]
  {
    assert secrets[i] in secrets;
    StandsForLeaf(policy, before, mid, d, secrets[..i], secrets[i]);
  }

  /** An entry that was not yet swept still stands for a leaf. */
  lemma StandsForLeaf(policy: Policy, before: Store, mid: Store, d: Path, swept: seq<string>, entry: string)
    requires ValidStore(before) && Swept(policy, before, mid, d, swept) && entry !in swept
    requires exists p :: p in before && Under(p, d) && EntryFor(d, p) == entry
    ensures IsDirectory(entry) || ValidName(entry)
    ensures if IsDirectory(entry) then NonEmpty(mid, Join(d, entry)) else Join(d, entry) in mid
  {
    var p :| p in before && Under(p, d) && EntryFor(d, p) == entry;
    assert ValidName(p[|d|]);
    EntryForCovers(d, p, entry);
    assert p in mid;
  }

  lemma DirectoryHandled(policy: Policy, before: Store, after: Store, d: Path, entry: string)
    requires IsDirectory(entry) && Removed(policy, before, after, Join(d, entry))
    ensures EntryHandled(policy, before, after, d, entry)
  {
  }

  lemma AllSwept(policy: Policy, before: Store, after: Store, d: Path, secrets: seq<string>)
    requires Listing(before, d, secrets) && Swept(policy, before, after, d, secrets)
    ensures Removed(policy, before, after, d)
  {
  }

  /** A finite store has a deepest leaf, which bounds the recursion. */
  lemma Deepest(store: Store) returns (depth: nat)
    ensures forall p :: p in store ==> |p| <= depth
    decreases |store|
  {
    depth := 0;
    if store != map[] {
      var p :| p in store;
      var rest := store - {p};
      assert rest.Keys == store.Keys - {p};
      var below := Deepest(rest);
      depth := if |p| > below then |p| else below;
      assert forall q :: q in store && q != p ==> q in rest;
    }
  }

  // ---- The client ----

  /** Soft-deleting the listed versions. */
  function MarkDeleted(s: Secret, list: seq<nat>): Secret {
    s.(versions := map v | v in s.versions :: if v in list then s.versions[v].(deleted := true) else s.versions[v])
  }

  /** Writing a new latest version. */
  function Written(s: Secret, data: map<string, string>): Secret {
    Secret(s.current + 1, s.versions[s.current + 1 := Version(data, false)])
  }

  const TOKEN := "token"

  /** What a read of the secret at p returns: nothing when there is none, or its latest version
      is soft-deleted. */
  function Latest(store: Store, p: Path): Option<map<string, string>>
    requires p in store ==> ValidSecret(store[p])
  {
    if p in store && !store[p].versions[store[p].current].deleted
    then Some(store[p].versions[store[p].current].data) else None
  }

  class BankVaultClient {
    var store: Store
    var deletionPolicy: Policy
    /** Whether calls into Vault may fail. */
    const faulty: bool

    constructor (store: Store, deletionPolicy: Policy, faulty: bool)
      ensures this.store == store && this.deletionPolicy == deletionPolicy && this.faulty == faulty
    {
      this.store, this.deletionPolicy, this.faulty := store, deletionPolicy, faulty;
    }

    /** Listing a directory without leaves gives no reply to read the keys from, hence the
        requirement. */
    method ListSecrets(d: Path) returns (reply: Reply<seq<string>>)
      requires NonEmpty(store, d)
      ensures !faulty ==> reply.Served?
      ensures reply.Served? ==> Listing(store, d, reply.value)
    {
      var ok := CallSucceeds(faulty);
      if !ok { return Refused; }
      var all := set p | p in store && Under(p, d) :: EntryFor(d, p);
      var rest, list := all, [];
      while rest != {}
        invariant rest <= all && Strings.Distinct(list)
        invariant forall e :: e in list <==> e in all && e !in rest
        decreases rest
      {
        var e: string :| e in rest;
        list, rest := list + [e], rest - {e};
      }
      return Reply.Served(list);
    }

    /** Like every write, it may have been carried out although it was not confirmed. */
    method DestroyToken(p: Path) returns (ok: bool)
      modifies `store
      ensures !faulty ==> ok
      ensures store == old(store) - {p} || (!ok && store == old(store))
    {
      ok := CallSucceeds(faulty);
      if ok {
        store := store - {p};
        ok := CallSucceeds(faulty);
      }
    }

    method DeleteToken(p: Path, list: seq<nat>) returns (ok: bool)
      requires p in store
      modifies `store
      ensures !faulty ==> ok
      ensures store == old(store)[p := MarkDeleted(old(store)[p], list)] || (!ok && store == old(store))
    {
      ok := CallSucceeds(faulty);
      if ok {
        store := store[p := MarkDeleted(store[p], list)];
        ok := CallSucceeds(faulty);
      }
    }

    /** One leaf of d: read it, list its versions and remove it as the policy says. */
    method RemoveLeaf(d: Path, entry: string) returns (ok: bool)
      requires ValidStore(store) && !IsDirectory(entry) && Join(d, entry) in store
      modifies `store
      ensures ValidStore(store)
      ensures EntryHandled(deletionPolicy, old(store), store, d, entry) || (!ok && store == old(store))
      ensures deletionPolicy.Retain? ==> !ok
      ensures !faulty && !deletionPolicy.Retain? ==> ok
    {
      var p := Join(d, entry);
      ok := CallSucceeds(faulty);
      if !ok { return false; }
      var list := GetVersionList(store[p]);
      match deletionPolicy {
        case Archive =>
          assert MarkDeleted(store[p], list) == SoftDeleted(store[p]);
          ok := DeleteToken(p, list);
        case Delete =>
          ok := DestroyToken(p);
        case Retain =>
          ok := false;
      }
    }

    /** Removes everything below d: all of it handled on success, each leaf handled or as before
        on failure, and nothing outside d changed. */
    method RemoveSecret(d: Path, ghost depth: nat) returns (ok: bool)
      requires ValidStore(store) && NonEmpty(store, d)
      requires forall p :: p in store && Under(p, d) ==> |p| <= |d| + depth
      modifies `store
      ensures ValidStore(store)
      ensures Partial(deletionPolicy, old(store), store, d)
      ensures ok ==> Removed(deletionPolicy, old(store), store, d)
      ensures deletionPolicy.Retain? ==> !ok && store == old(store)
      ensures !faulty && !deletionPolicy.Retain? ==> ok
      decreases depth
    {
      var reply := ListSecrets(d);
      if reply.Refused? { return false; }
      var secrets := reply.value;
      for i := 0 to |secrets|
        invariant ValidStore(store)
        invariant Swept(deletionPolicy, old(store), store, d, secrets[..i])
        invariant deletionPolicy.Retain? ==> i == 0 && store == old(store)
      {
        var entry := secrets[i];
        NextEntry(deletionPolicy, old(store), store, d, secrets, i);
        ghost var mid := store;
        if IsDirectory(entry) {
          ok := RemoveSecret(Join(d, entry), depth - 1);
          if !ok {
            SweepFailed(deletionPolicy, old(store), mid, store, d, secrets[..i], entry);
            return;
          }
          DirectoryHandled(deletionPolicy, mid, store, d, entry);
        } else {
          ok := RemoveLeaf(d, entry);
          if !ok {
            if store != mid {
              SweepOne(deletionPolicy, old(store), mid, store, d, secrets[..i], entry);
            }
            return;
          }
        }
        SweepOne(deletionPolicy, old(store), mid, store, d, secrets[..i], entry);
      }
      assert secrets[..|secrets|] == secrets;
      AllSwept(deletionPolicy, old(store), store, d, secrets);
      return true;
    }

    /** Writes the token unless the latest version already holds it; other data is kept. */
    method AddSecret(p: Path, token: string) returns (ok: bool)
      requires ValidStore(store) && forall i :: 0 <= i < |p| ==> ValidName(p[i])
      modifies `store
      ensures ValidStore(store)
      ensures forall q :: q != p ==> Untouched(old(store), store, q)
      ensures !faulty ==> ok
      ensures Added(old(store), store, p, token) || (!ok && store == old(store))
      // the latest version is readable, holds the token and what it held besides
      ensures ok ==>
        && p in store && store[p].current in store[p].versions && !store[p].versions[store[p].current].deleted
        && var data := store[p].versions[store[p].current].data;
        && "token" in data && data["token"] == token
        && (p in old(store) && !old(store)[p].versions[old(store)[p].current].deleted ==>
              data == old(store)[p].versions[old(store)[p].current].data["token" := token])
    {
      ok := CallSucceeds(faulty);
      if !ok { return; }
      var data := Latest(store, p);
      if p !in store {
        ok := Write(p, Secret(1, map[1 := Version(map[TOKEN := token], false)]));
      } else if data.None? || TOKEN !in data.value || data.value[TOKEN] != token {
        ok := Write(p, Written(store[p], data.GetOr(map[])[TOKEN := token]));
      } else {
        assert data.value[TOKEN := token] == data.value;
      }
    }

    method Write(p: Path, s: Secret) returns (ok: bool)
      modifies `store
      ensures !faulty ==> ok
      ensures store == old(store)[p := s] || (!ok && store == old(store))
    {
      ok := CallSucceeds(faulty);
      if ok {
        store := store[p := s];
        ok := CallSucceeds(faulty);
      }
    }
  }

  /** The latest version at p holds the token beside what it held, and older versions are kept;
      nothing is written if it did so before. */
  ghost predicate Added(before: Store, after: Store, p: Path, token: string)
    requires ValidStore(before) && ValidStore(after)
  {
    && Latest(after, p) == Some(Latest(before, p).GetOr(map[])[TOKEN := token])
    && (Latest(before, p) == Latest(after, p) ==> after == before)
    && (p in before ==> forall v :: v in before[p].versions ==>
      v in after[p].versions && after[p].versions[v] == before[p].versions[v])
  }

  /** The two Vault steps of a cluster reconcile, in their order. Writing the token first is what
      keeps the removal from listing an empty directory; it also means that without a token
      nothing is removed. */
  method ReconcileCluster(vault: BankVaultClient, secrets: array<Tokens.Secret>, tenant: string,
                          cluster: string, deleted: bool)
    returns (ok: bool)
    requires ValidStore(vault.store) && ValidName(tenant) && ValidName(cluster)
    modifies vault`store, secrets
    ensures ValidStore(vault.store)
    ensures forall q :: !Under(q, [tenant, cluster]) ==> Untouched(old(vault.store), vault.store, q)
    ensures ok && deleted && vault.deletionPolicy.Delete? ==> !NonEmpty(vault.store, [tenant, cluster])
    ensures ok && deleted && vault.deletionPolicy.Archive? ==>
      forall p :: p in vault.store && Under(p, [tenant, cluster]) ==> AllDeleted(vault.store[p])
    ensures ok && !deleted ==> exists s ::
      Tokens.Newest(old(secrets[..]), cluster, s) && Holds(vault.store, [tenant, cluster, "steward"], s.token)
    ensures deleted && vault.deletionPolicy.Retain? ==> !ok
    ensures (forall s :: s in old(secrets[..]) ==> !Tokens.Eligible(s, cluster)) ==>
      !ok && vault.store == old(vault.store)
    ensures !vault.faulty && !(deleted && vault.deletionPolicy.Retain?) ==>
      (ok <==> exists s :: s in old(secrets[..]) && Tokens.Eligible(s, cluster))
  {
    var d := [tenant, cluster];
    var p := d + ["steward"];
    assert p == [tenant, cluster, "steward"];
    var token := Tokens.GetServiceAccountToken(secrets, cluster, vault.faulty);
    if token.None? { return false; }
    ok := vault.AddSecret(p, token.value);
    if !ok || !deleted { return; }
    assert p in vault.store && Under(p, d);
    ghost var depth := Deepest(vault.store);
    ghost var mid := vault.store;
    ok := vault.RemoveSecret(d, depth);
    forall q | !Under(q, d) ensures Untouched(old(vault.store), vault.store, q) {
      assert Untouched(old(vault.store), mid, q);
      assert Untouched(mid, vault.store, q);
    }
  }

  /** The latest version at p is readable and holds this token. */
  ghost predicate Holds(store: Store, p: Path, token: string) {
    && p in store && store[p].current in store[p].versions && !store[p].versions[store[p].current].deleted
    && "token" in store[p].versions[store[p].current].data
    && store[p].versions[store[p].current].data["token"] == token
  }

  ghost predicate AllDeleted(s: Secret) {
    forall v :: v in s.versions ==> s.versions[v].deleted
  }
}
