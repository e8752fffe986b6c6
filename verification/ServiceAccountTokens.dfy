/** Choosing the newest token of a service account: sort in place, then scan. */
module ServiceAccountTokens {
  import opened Wrappers
  import Strings

  datatype SecretType = ServiceAccountToken | OtherType

  /** account is the annotation naming the service account, "" when missing. */
  datatype Secret = Secret(name: string, created: int, kind: SecretType, account: string, token: string)

  /** Older first, and by name among secrets of the same time. */
  predicate Less(a: Secret, b: Secret) {
    if a.created == b.created then Strings.Below(a.name, b.name) else a.created < b.created
  }

  /** Less is a strict weak order. */
  lemma LessWeakOrder(a: Secret, b: Secret, c: Secret)
    ensures !Less(a, a)
    ensures Less(a, b) && Less(b, c) ==> Less(a, c)
    ensures !Less(a, b) && !Less(b, c) ==> !Less(a, c)
    ensures !Less(a, b) && !Less(b, a) <==> a.created == b.created && a.name == b.name
  {
    Strings.BelowTotal(a.name, b.name);
    Strings.BelowTotal(b.name, c.name);
    Strings.BelowTotal(a.name, c.name);
    if Strings.Below(a.name, b.name) && Strings.Below(b.name, c.name) {
      Strings.BelowTransitive(a.name, b.name, c.name);
    }
    if Strings.Below(c.name, b.name) && Strings.Below(b.name, a.name) {
      Strings.BelowTransitive(c.name, b.name, a.name);
    }
  }

  predicate Eligible(s: Secret, account: string) {
    s.kind.ServiceAccountToken? && s.account == account && s.token != ""
  }

  predicate Descending(xs: seq<Secret>) {
    forall i, j :: 0 <= i < j < |xs| ==> !Less(xs[i], xs[j])
  }

  /** s is an eligible secret of xs, no eligible one was created later, and of those created at
      the same time none has a later name. */
  ghost predicate Newest(xs: seq<Secret>, account: string, s: Secret) {
    && s in xs && Eligible(s, account)
    && forall u :: u in xs && Eligible(u, account) ==>
         && u.created <= s.created
         && (u.created == s.created ==> u.name == s.name || Strings.Below(u.name, s.name))
  }

  /** Newest by the order that the secrets are sorted in. */
  lemma NewestIff(xs: seq<Secret>, account: string, s: Secret)
    ensures Newest(xs, account, s) <==>
      s in xs && Eligible(s, account) && forall u :: u in xs && Eligible(u, account) ==> !Less(s, u)
  {
    forall u ensures !Less(s, u) <==>
      u.created < s.created || (u.created == s.created && (u.name == s.name || Strings.Below(u.name, s.name)))
    {
      Strings.BelowTotal(s.name, u.name);
    }
  }

  /** When no two eligible secrets share time and name, one of them only is newest, so the choice
      does not depend on the order listed or on how the sort treats ties. */
  lemma NewestUnique(xs: seq<Secret>, account: string, s: Secret, t: Secret)
    requires Newest(xs, account, s) && Newest(xs, account, t)
    requires forall u, v :: u in xs && v in xs && Eligible(u, account) && Eligible(v, account) ==>
      u.created == v.created && u.name == v.name ==> u == v
    ensures s == t
  {
    Strings.BelowTotal(s.name, t.name);
  }

  method Swap(items: array<Secret>, i: nat, j: nat)
    requires i < items.Length && j < items.Length
    modifies items
    ensures items[..] == old(items[..][i := items[j]][j := items[i]])
    ensures multiset(items[..]) == multiset(old(items[..]))
  {
    items[i], items[j] := items[j], items[i];
  }

  /** Up to and including i the items descend, but for the one at j still on its way down. */
  predicate Sinking(xs: seq<Secret>, i: nat, j: nat)
    requires j <= i < |xs|
  {
    && (forall p, q :: 0 <= p < q <= i && q != j && p != j ==> !Less(xs[p], xs[q]))
    && (forall q :: j < q <= i ==> !Less(xs[j], xs[q]))
  }

  lemma SinkStep(xs: seq<Secret>, ys: seq<Secret>, i: nat, j: nat)
    requires 0 < j <= i < |xs| && Sinking(xs, i, j) && Less(xs[j - 1], xs[j])
    requires ys == xs[j := xs[j - 1]][j - 1 := xs[j]]
    ensures Sinking(ys, i, j - 1)
  {
    LessWeakOrder(xs[j - 1], xs[j], xs[j - 1]);
    forall q | j - 1 < q <= i ensures !Less(ys[j - 1], ys[q]) {
      if q == j { LessWeakOrder(xs[j], xs[j - 1], xs[j]); }
    }
    forall p, q | 0 <= p < q <= i && q != j - 1 && p != j - 1 ensures !Less(ys[p], ys[q]) {
    }
  }

  lemma Sunk(xs: seq<Secret>, i: nat, j: nat)
    requires j <= i < |xs| && Sinking(xs, i, j) && (j > 0 ==> !Less(xs[j - 1], xs[j]))
    ensures Descending(xs[..i + 1])
  {
    forall p | 0 <= p < j ensures !Less(xs[p], xs[j]) {
      if p < j - 1 { LessWeakOrder(xs[p], xs[j - 1], xs[j]); }
    }
  }

  /** The reverse sort, by swaps within the array. */
  method SortReverse(items: array<Secret>)
    modifies items
    ensures Descending(items[..]) && multiset(items[..]) == multiset(old(items[..]))
  {
    for i := 0 to items.Length
      invariant Descending(items[..i]) && multiset(items[..]) == multiset(old(items[..]))
    {
      var j := i;
      assert Sinking(items[..], i, i);
      while j > 0 && Less(items[j - 1], items[j])
        invariant 0 <= j <= i && Sinking(items[..], i, j)
        invariant multiset(items[..]) == multiset(old(items[..]))
      {
        ghost var was := items[..];
        Swap(items, j, j - 1);
        SinkStep(was, items[..], i, j);
        j := j - 1;
      }
      Sunk(items[..], i, j);
      assert items[..][..i + 1] == items[..i + 1];
    }
    assert items[..items.Length] == items[..];
  }

  /** Sorts the listed secrets and returns the first eligible one's token: that of a newest
      eligible secret, and none only when there is none. The listing may fail. */
  method GetServiceAccountToken(items: array<Secret>, account: string, faulty: bool) returns (token: Option<string>)
    modifies items
    ensures token.Some? ==> exists s :: Newest(old(items[..]), account, s) && s.token == token.value
    ensures token.Some? ==> token.value != "" && exists s ::
      s in old(items[..]) && s.kind == ServiceAccountToken && s.account == account && s.token == token.value
    ensures !faulty && token.None? ==> forall s ::
      s in old(items[..]) ==> s.kind != ServiceAccountToken || s.account != account || s.token == ""
    ensures !faulty && token.None? ==> forall s :: s in old(items[..]) ==> !Eligible(s, account)
    ensures (forall s :: s in old(items[..]) ==> !Eligible(s, account)) ==> token.None?
  {
    var failed: bool := *;
    if faulty && failed { return None; }
    SortReverse(items);
    Strings.SameMembers(items[..], old(items[..]));
    for i := 0 to items.Length
      invariant forall j :: 0 <= j < i ==> !Eligible(items[j], account)
    {
      if items[i].kind != ServiceAccountToken { continue; }
      if items[i].account == account {
        if items[i].token == "" { continue; }
        FirstIsNewest(items[..], old(items[..]), account, i);
        return Some(items[i].token);
      }
    }
    return None;
  }

  /** In any descending arrangement of the secrets, the first eligible one is newest. */
  lemma FirstIsNewest(sorted: seq<Secret>, xs: seq<Secret>, account: string, i: nat)
    requires Descending(sorted) && multiset(sorted) == multiset(xs)
    requires i < |sorted| && Eligible(sorted[i], account)
    requires forall j :: 0 <= j < i ==> !Eligible(sorted[j], account)
    ensures Newest(xs, account, sorted[i])
  {
    Strings.SameMembers(sorted, xs);
    forall u | u in xs && Eligible(u, account) ensures !Less(sorted[i], u) {
      var k :| 0 <= k < |sorted| && sorted[k] == u;
      if k == i { LessWeakOrder(u, u, u); }
    }
    NewestIff(xs, account, sorted[i]);
  }
}
