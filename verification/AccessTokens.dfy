/** Project access tokens: reusing a valid one, issuing a new one, and keeping it in a secret. */
module AccessTokens {
  import opened Wrappers
  import Sorting
  import Strings

  const DAY := 24 * 3600

  /** A token as the project lists it: without the secret string it was issued with. */
  datatype Token = Token(id: nat, expiresAt: Option<int>, active: bool, revoked: bool)

  /** What the reconciler is given: the string is empty when an existing token is reused. */
  datatype ProjectAccessToken = ProjectAccessToken(uid: string, token: string, expiresAt: int) {
    predicate Updated() {
      token != ""
    }
  }

  function Uid(t: Token): string {
    Strings.Itoa(t.id)
  }

  /** The cutoff lies ten days back. */
  predicate Usable(t: Token, now: int) {
    t.active && !t.revoked && t.expiresAt.Some? && t.expiresAt.value >= now - 10 * DAY
  }

  /** Usable although it has expired: the cutoff lies in the past, not in the future. */
  predicate LatelyExpired(t: Token, now: int) {
    Usable(t, now) && t.expiresAt.value < now
  }

  /** A token that expired yesterday, and is still listed as active, is reused. */
  lemma ExpiredYetUsable(id: nat, now: int)
    ensures LatelyExpired(Token(id, Some(now - DAY), true, false), now)
  {
  }

  predicate LaterFirst(a: Token, b: Token) {
    a.expiresAt.GetOr(0) >= b.expiresAt.GetOr(0)
  }

  /** t is a usable token of the page that none outlasts. */
  ghost predicate Longest(page: seq<Option<Token>>, now: int, t: Token) {
    && Some(t) in page && Usable(t, now)
    && forall u :: Some(u) in page && Usable(u, now) ==> LaterFirst(t, u)
  }

  /** The page holds a usable token the caller may keep: with its UID, or any when none is named. */
  ghost predicate Reusable(page: seq<Option<Token>>, now: int, uid: Option<string>) {
    exists t :: Some(t) in page && Usable(t, now) && (uid.Some? ==> Uid(t) == uid.value)
  }

  /** The token a call answers with when it reuses one. */
  ghost predicate Reuses(page: seq<Option<Token>>, now: int, uid: Option<string>, r: ProjectAccessToken) {
    exists t :: && Some(t) in page && Usable(t, now)
      && r == ProjectAccessToken(Uid(t), "", t.expiresAt.value)
      && (if uid.Some? then Uid(t) == uid.value else Longest(page, now, t))
  }

  /** Of an answer of EnsureProjectAccessToken: a token is reused exactly if one is listed that is
      active, not revoked, of the UID and not ten days past its expiry, and then it is such a
      one; a new one lives for thirty days. */
  lemma AnswerInPlainTerms(shown: seq<Option<Token>>, now: int, uid: Option<string>, r: ProjectAccessToken)
    requires r.Updated() <==> !Reusable(shown, now, uid)
    requires if r.Updated() then r.expiresAt == now + 30 * DAY else Reuses(shown, now, uid, r)
    ensures r.token == "" <==>
      exists t ::
        && Some(t) in shown && t.active && !t.revoked && t.expiresAt.Some? && t.expiresAt.value >= now - 864000
        && (uid.Some? ==> Strings.Itoa(t.id) == uid.value)
    ensures r.token == "" ==>
      exists t ::
        && Some(t) in shown && t.active && !t.revoked
        && t.expiresAt == Some(r.expiresAt) && r.expiresAt >= now - 864000
        && Strings.Itoa(t.id) == r.uid && (uid.Some? ==> r.uid == uid.value)
    // when none is named, it is one that no other such token outlasts
    ensures r.token == "" && uid.None? ==> forall t ::
      Some(t) in shown && t.active && !t.revoked && t.expiresAt.Some? && t.expiresAt.value >= now - 864000 ==>
        t.expiresAt.value <= r.expiresAt
    ensures r.token != "" ==> r.expiresAt == now + 2592000
  {
    if Reusable(shown, now, uid) {
      var t :| Some(t) in shown && Usable(t, now) && (uid.Some? ==> Uid(t) == uid.value);
    }
  }

  /** The listing shows tokens of the project, and all of them if it is complete. */
  ghost predicate IsPage(page: seq<Option<Token>>, tokens: map<nat, Token>, complete: bool) {
    && (forall t :: Some(t) in page ==> t.id in tokens && tokens[t.id] == t)
    && (complete ==> forall id :: id in tokens ==> Some(tokens[id]) in page)
  }

  /** The project has a usable token the caller may keep. */
  ghost predicate HasUsable(tokens: map<nat, Token>, now: int, uid: Option<string>) {
    exists id :: id in tokens && Usable(tokens[id], now) && (uid.Some? ==> Uid(tokens[id]) == uid.value)
  }

  lemma CompletePage(page: seq<Option<Token>>, tokens: map<nat, Token>, now: int, uid: Option<string>)
    requires IsPage(page, tokens, true)
    ensures Reusable(page, now, uid) <==> HasUsable(tokens, now, uid)
  {
    if HasUsable(tokens, now, uid) {
      var id :| id in tokens && Usable(tokens[id], now) && (uid.Some? ==> Uid(tokens[id]) == uid.value);
      assert Some(tokens[id]) in page;
    }
  }

  /** The project's token of this UID has not expired. */
  ghost predicate Unexpired(tokens: map<nat, Token>, uid: string, now: int) {
    exists id :: && id in tokens && Strings.Itoa(id) == uid
      && tokens[id].expiresAt.Some? && tokens[id].expiresAt.value >= now
  }

  /** The listing shows a token of this UID that is still usable, though expired. */
  ghost predicate ShowsExpired(page: seq<Option<Token>>, uid: string, now: int) {
    exists t :: Some(t) in page && Uid(t) == uid && LatelyExpired(t, now)
  }

  /** A reused token has expired exactly if the listing shows it so. */
  lemma ReusedUnexpiredIff(page: seq<Option<Token>>, tokens: map<nat, Token>, complete: bool, uid: string,
                           t: Token, now: int)
    requires IsPage(page, tokens, complete) && forall id :: id in tokens ==> tokens[id].id == id
    requires Some(t) in page && Uid(t) == uid && Usable(t, now)
    ensures Unexpired(tokens, uid, now) <==> !ShowsExpired(page, uid, now)
  {
    forall id | id in tokens && Strings.Itoa(id) == uid ensures tokens[id] == t {
      Strings.ItoaInjective(id, t.id);
    }
    assert tokens[t.id] == t;
    forall u | Some(u) in page && Uid(u) == uid ensures u == t {
      Strings.ItoaInjective(u.id, t.id);
    }
  }

  method UsableTokens(page: seq<Option<Token>>, now: int) returns (valid: seq<Token>)
    ensures forall t :: t in valid <==> Some(t) in page && Usable(t, now)
  {
    valid := [];
    for i := 0 to |page|
      invariant forall t :: t in valid <==> Some(t) in page[..i] && Usable(t, now)
    {
      if page[i].None? { continue; }
      var token := page[i].value;
      if !token.active { continue; }
      if token.revoked { continue; }
      if token.expiresAt.None? { continue; }
      if token.expiresAt.value < now + -10 * DAY { continue; }
      valid := valid + [token];
    }
  }

  method FindUid(valid: seq<Token>, uid: string) returns (found: Option<Token>)
    ensures found.Some? ==> found.value in valid && Uid(found.value) == uid
    ensures found.None? ==> forall t :: t in valid ==> Uid(t) != uid
  {
    for i := 0 to |valid|
      invariant forall t :: t in valid[..i] ==> Uid(t) != uid
    {
      if Uid(valid[i]) == uid { return Some(valid[i]); }
      assert valid[..i + 1] == valid[..i] + [valid[i]];
    }
    return None;
  }

  /** The project's tokens, and the string each was issued with by the operator. */
  class Project {
    var tokens: map<nat, Token>
    var next: nat
    /** What a listing answers with: one page, in any order and with empty entries. */
    var shown: seq<Option<Token>>
    ghost var issued: map<nat, string>
    /** Whether calls may fail. */
    const faulty: bool
    /** Whether one page holds the whole listing. */
    const complete: bool

    constructor (tokens: map<nat, Token>, next: nat, shown: seq<Option<Token>>, faulty: bool, complete: bool)
      requires forall id :: id in tokens ==> tokens[id].id == id < next
      requires IsPage(shown, tokens, complete)
      ensures Valid() && this.tokens == tokens && this.shown == shown && issued == map[]
      ensures this.faulty == faulty && this.complete == complete
    {
      this.tokens, this.next, this.shown, this.faulty, this.complete := tokens, next, shown, faulty, complete;
      issued := map[];
    }

    ghost predicate Valid()
      reads this
    {
      && (forall id :: id in tokens ==> tokens[id].id == id < next) && IsPage(shown, tokens, complete)
      && (forall id :: id in issued ==> id < next && issued[id] != "")
    }

    /** Others change the project's tokens; strings issued earlier are not reissued. */
    method Interfere()
      requires Valid()
      modifies this
      ensures Valid() && issued == old(issued)
    {
      var others: map<int, Token> := *;
      var gap: int := *;
      next := next + if gap < 0 then 0 else gap;
      tokens := map id: nat | id in others && id < next :: others[id].(id := id);
      shown := Page();
    }

    /** Some page of the tokens, or all of them. */
    method Page() returns (page: seq<Option<Token>>)
      requires forall id :: id in tokens ==> tokens[id].id == id
      ensures IsPage(page, tokens, complete)
    {
      page := [];
      var rest := tokens.Keys;
      while rest != {}
        invariant rest <= tokens.Keys && IsPage(page, tokens, false)
        invariant complete ==> forall id :: id in tokens && id !in rest ==> Some(tokens[id]) in page
        decreases rest
      {
        var id: nat :| id in rest;
        rest := rest - {id};
        var onPage: bool, gap: bool := *, *;
        if complete || onPage { page := page + [Some(tokens[id])]; }
        if gap { page := page + [None]; }
      }
    }

    method ListTokens() returns (r: Reply<seq<Option<Token>>>)
      ensures r.Served? ==> r.value == shown
      ensures !faulty ==> r.Served?
    {
      var ok := CallSucceeds(faulty);
      r := if ok then Reply.Served(shown) else Refused;
    }

    /** Issues a token with an id never used before, perhaps without the reply arriving. */
    method CreateToken(expiresAt: int) returns (r: Reply<(Token, string)>)
      requires Valid()
      modifies this
      ensures Valid()
      ensures !faulty ==> r.Served?
      ensures r.Refused? ==>
        (tokens == old(tokens) && issued == old(issued)) || Issued(old(tokens), old(issued), expiresAt)
      ensures r.Served? ==> var (t, s) := r.value;
        && t == Token(t.id, Some(expiresAt), true, false) && s != ""
        && t.id !in old(tokens) && t.id !in old(issued)
        && tokens == old(tokens)[t.id := t] && issued == old(issued)[t.id := s]
    {
      var ok := CallSucceeds(faulty);
      if !ok { return Refused; }
      var gap: int := *;
      gap := if gap < 0 then 0 else gap;
      var secret: string := *;
      secret := if secret == "" then "?" else secret;
      var t := Token(next + gap, Some(expiresAt), true, false);
      tokens, issued, next := tokens[t.id := t], issued[t.id := secret], t.id + 1;
      shown := Page();
      ok := CallSucceeds(faulty);
      r := if ok then Reply.Served((t, secret)) else Refused;
    }

    /** One more token has been issued. */
    ghost predicate Issued(tokens0: map<nat, Token>, issued0: map<nat, string>, expiresAt: int)
      reads this
    {
      exists id :: id in issued && id !in tokens0 && id !in issued0
        && tokens == tokens0[id := Token(id, Some(expiresAt), true, false)] && issued == issued0[id := issued[id]]
    }

    /** Reuses a usable token of the page when there is one to reuse, and issues one otherwise. */
    method EnsureProjectAccessToken(now: int, uid: Option<string>)
      returns (r: Reply<ProjectAccessToken>)
      requires Valid()
      modifies this
      ensures Valid()
      ensures !faulty ==> r.Served?
      ensures r.Served? && !r.value.Updated() ==> Reuses(old(shown), now, uid, r.value)
      ensures r.Served? ==> (r.value.Updated() <==> !Reusable(old(shown), now, uid))
      ensures r.Served? && r.value.Updated() ==> exists id: nat ::
        && id !in old(tokens) && id !in old(issued) && r.value.uid == Strings.Itoa(id)
        && r.value.expiresAt == now + 30 * DAY
        && tokens == old(tokens)[id := Token(id, Some(now + 30 * DAY), true, false)]
        && issued == old(issued)[id := r.value.token]
      ensures Reusable(old(shown), now, uid) ==> tokens == old(tokens) && issued == old(issued) && shown == old(shown)
      ensures r.Refused? ==>
        (tokens == old(tokens) && issued == old(issued)) || Issued(old(tokens), old(issued), now + 30 * DAY)
      // nothing is issued while the project has a token to reuse
      ensures complete && HasUsable(old(tokens), now, uid) ==> tokens == old(tokens) && issued == old(issued)
    {
      var at := ListTokens();
      if at.Refused? { return Refused; }
      ghost var page := shown;
      var valid := UsableTokens(at.value, now);
      ghost var unsorted := valid;
      valid := Sorting.SortBy(LaterFirst, valid);
      Strings.SameMembers(unsorted, valid);
      var found := Choose(valid, uid);
      if found.Some? {
        FirstIsLongest(page, now, valid);
        return Reply.Served(ProjectAccessToken(Uid(found.value), "", found.value.expiresAt.value));
      }
      assert !Reusable(page, now, uid) by {
        forall t | Some(t) in page && Usable(t, now) ensures t in valid {}
      }
      if complete {
        CompletePage(page, tokens, now, uid);
      }
      var created := CreateToken(now + 30 * DAY);
      if created.Refused? { return Refused; }
      var (t, s) := created.value;
      return Reply.Served(ProjectAccessToken(Uid(t), s, t.expiresAt.GetOr(0)));
    }
  }

  /** The first token, or the one with the UID asked for. */
  method Choose(valid: seq<Token>, uid: Option<string>) returns (found: Option<Token>)
    ensures found.Some? ==> found.value in valid
    ensures found.Some? ==> if uid.Some? then Uid(found.value) == uid.value else found.value == valid[0]
    ensures found.None? ==> forall t :: t in valid ==> uid.Some? && Uid(t) != uid.value
  {
    if uid.None? {
      return if |valid| > 0 then Some(valid[0]) else None;
    }
    found := FindUid(valid, uid.value);
  }

  lemma FirstIsLongest(page: seq<Option<Token>>, now: int, valid: seq<Token>)
    requires valid != [] && Sorting.SortedBy(LaterFirst, valid)
    requires forall t :: t in valid <==> Some(t) in page && Usable(t, now)
    ensures Longest(page, now, valid[0])
  {
  }

  /** The secret the reconciler keeps: annotations for UID and expiry, and the token. */
  datatype Secret = Secret(uid: Option<string>, expiresAt: Option<int>, token: Option<string>)

  /** UID and token of the secret are those of one issued token. */
  ghost predicate Matched(s: Secret, issued: map<nat, string>) {
    exists id :: id in issued && s.uid == Some(Strings.Itoa(id)) && s.token == Some(issued[id])
  }

  ghost predicate MatchedIfAny(secret: Option<Secret>, issued: map<nat, string>) {
    secret.Some? && secret.value.uid.Some? ==> Matched(secret.value, issued)
  }

  /** At most one more token was issued. */
  ghost predicate OneMore(issued0: map<nat, string>, issued: map<nat, string>) {
    issued == issued0 || exists id :: id in issued && id !in issued0 && issued == issued0[id := issued[id]]
  }

  /** Issuing another token does not part them. */
  lemma KeepsMatched(secret: Option<Secret>, issued0: map<nat, string>, issued: map<nat, string>)
    requires MatchedIfAny(secret, issued0) && OneMore(issued0, issued)
    ensures MatchedIfAny(secret, issued)
  {
    if secret.Some? && secret.value.uid.Some? {
      var (uid, token) := (secret.value.uid, secret.value.token);
      var own :| own in issued0 && uid == Some(Strings.Itoa(own)) && token == Some(issued0[own]);
      assert own in issued && issued[own] == issued0[own];
    }
  }

  class AccessTokenReconciler {
    const project: Project
    var secret: Option<Secret>
    /** Whether calls to the API server may fail. */
    const faulty: bool

    /** A secret that exists before the first run names no token yet. */
    constructor (project: Project, secret: Option<Secret>, faulty: bool)
      requires project.Valid() && (secret.Some? ==> secret.value.uid.None?)
      ensures Valid() && this.project == project && this.secret == secret && this.faulty == faulty
    {
      this.project, this.secret, this.faulty := project, secret, faulty;
    }

    /** Whatever UID the secret names, its token is the one issued with that UID. */
    ghost predicate Valid()
      reads this, project
    {
      project.Valid() && MatchedIfAny(secret, project.issued)
    }

    function CurrentUid(): string
      reads this
    {
      if secret.Some? then secret.value.uid.GetOr("") else ""
    }

    /** The listing shows the secret's token as usable, or, if complete, the project has it so. */
    ghost predicate StillUsable(now: int)
      reads this, project
    {
      || Reusable(project.shown, now, Some(CurrentUid()))
      || (project.complete && HasUsable(project.tokens, now, Some(CurrentUid())))
    }

    /** The secret holds a token issued in this run. */
    ghost predicate HoldsNew(issued0: map<nat, string>, expiresAt: int)
      reads this, project
    {
      exists id: nat :: id !in issued0 && id in project.issued
        && project.issued == issued0[id := project.issued[id]]
        && secret == Some(Secret(Some(Strings.Itoa(id)), Some(expiresAt), Some(project.issued[id])))
    }

    /** One run: while the project lists the secret's token as usable nothing is issued and the
        secret stays; otherwise a run that succeeds leaves a token issued in it. The token is
        unexpired after a run exactly if the listing did not show it as lately expired. */
    method EnsureAccessToken(now: int) returns (ok: bool)
      requires Valid()
      modifies `secret, project
      ensures Valid()
      ensures !faulty && !project.faulty ==> ok
      ensures ok ==> secret.Some? && secret.value.uid.Some?
      ensures secret == old(secret) || HoldsNew(old(project.issued), now + 30 * DAY)
      ensures old(StillUsable(now)) ==>
        secret == old(secret) && project.tokens == old(project.tokens) && project.issued == old(project.issued)
      ensures ok && !Reusable(old(project.shown), now, Some(old(CurrentUid()))) ==>
        HoldsNew(old(project.issued), now + 30 * DAY)
      ensures ok ==> (Unexpired(project.tokens, secret.value.uid.value, now) <==>
        !ShowsExpired(old(project.shown), old(CurrentUid()), now))
      ensures |project.issued| <= |old(project.issued)| + 1
    {
      ghost var page := project.shown;
      ok := CallSucceeds(faulty);
      if ok {
        var uid := CurrentUid();
        var r := project.EnsureProjectAccessToken(now, Some(uid));
        KeepsMatched(secret, old(project.issued), project.issued);
        ok := r.Served?;
        if ok && r.value.Updated() {
          ok := StoreToken(r.value, old(project.issued));
          NewUnexpired(project.tokens, now, r.value.uid);
        } else if ok {
          ghost var t :| Some(t) in page && Usable(t, now) && Uid(t) == uid;
          ReusedUnexpiredIff(page, project.tokens, project.complete, uid, t, now);
        }
      }
    }

    /** Writes UID, expiry and token of a newly issued token, perhaps without the reply arriving. */
    method StoreToken(pat: ProjectAccessToken, ghost issued0: map<nat, string>) returns (ok: bool)
      requires Valid()
      requires exists id: nat ::
        id !in issued0 && pat.uid == Strings.Itoa(id) && project.issued == issued0[id := pat.token]
      modifies `secret
      ensures Valid()
      ensures secret == old(secret) || secret == Some(Secret(Some(pat.uid), Some(pat.expiresAt), Some(pat.token)))
      ensures ok ==> secret == Some(Secret(Some(pat.uid), Some(pat.expiresAt), Some(pat.token)))
      ensures !faulty ==> ok
    {
      ghost var id: nat :| id !in issued0 && pat.uid == Strings.Itoa(id) && project.issued == issued0[id := pat.token];
      ok := CallSucceeds(faulty);
      if ok {
        secret := Some(Secret(Some(pat.uid), Some(pat.expiresAt), Some(pat.token)));
        assert id in project.issued;
        ok := CallSucceeds(faulty);
      }
    }

    /** Any number of runs, with tokens expiring, being revoked or created by others and the secret
        being deleted in between. A run issues a token only if the project had none usable for the
        secret, one at most, so that without such runs the secret never changes; and the secret's
        UID and token belong together throughout. */
    method Operate(runs: nat) returns (ghost misses: nat)
      requires Valid()
      modifies `secret, project
      ensures Valid()
      ensures |project.issued| <= |old(project.issued)| + runs
      ensures project.complete ==> |project.issued| <= |old(project.issued)| + misses
      ensures project.complete && !faulty && !project.faulty ==> |project.issued| == |old(project.issued)| + misses
      ensures project.complete && misses == 0 ==> secret == old(secret) && project.issued == old(project.issued)
    {
      misses := 0;
      for i := 0 to runs
        invariant Valid() && |project.issued| <= |old(project.issued)| + i
        invariant project.complete ==> |project.issued| <= |old(project.issued)| + misses
        invariant project.complete && !faulty && !project.faulty ==> |project.issued| == |old(project.issued)| + misses
        invariant project.complete && misses == 0 ==> secret == old(secret) && project.issued == old(project.issued)
      {
        project.Interfere();
        var lost: bool := *;
        if lost { secret := None; }
        var now: int := *;
        if !HasUsable(project.tokens, now, Some(CurrentUid())) {
          misses := misses + 1;
        }
        var ok := EnsureAccessToken(now);
      }
    }
  }

  /** A token just issued has not expired. */
  lemma NewUnexpired(tokens: map<nat, Token>, now: int, uid: string)
    requires exists id :: id in tokens && Strings.Itoa(id) == uid && tokens[id].expiresAt == Some(now + 30 * DAY)
    ensures Unexpired(tokens, uid, now)
  {
  }
}
