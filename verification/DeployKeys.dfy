/** Deploy keys of a GitLab project: two differences against one reading of the server, first
    the keys to delete, then the keys to add. */
module DeployKeys {
  import opened Wrappers
  import opened Strings

  datatype DeployKey = DeployKey(kind: string, key: string, writeAccess: bool)

  /** What a lookup of a missing key gives. */
  const NO_KEY := DeployKey("", "", false)

  datatype RemoteKey = RemoteKey(id: nat, title: string, text: string, canPush: bool)

  // ---- Comparing keys ----

  predicate IsSpace(c: char) {
    || c in ['\t', '\n', '\U{000B}', '\U{000C}', '\r', ' ', '\U{0085}', '\U{00A0}', '\U{1680}', '\U{2028}', '\U{2029}']
    || c in ['\U{202F}', '\U{205F}', '\U{3000}']
    || '\U{2000}' <= c <= '\U{200A}'
  }

  function TrimKey(k: DeployKey): DeployKey {
    k.(key := Trim(IsSpace, k.key))
  }

  /** A text with no white space at either end. */
  predicate Tidy(s: string) {
    s != "" ==> !IsSpace(s[0]) && !IsSpace(s[|s| - 1])
  }

  /** Of the ASCII characters these six are white space. */
  lemma AsciiSpace(c: char)
    requires c < '\U{007F}'
    ensures IsSpace(c) <==> c == ' ' || '\t' <= c <= '\r'
  {
  }

  /** Trimming takes the white space off both ends, and nothing else. */
  lemma TrimMeans(s: string) returns (m: nat, n: nat)
    ensures m <= n <= |s| && Trim(IsSpace, s) == s[m..n] && Tidy(s[m..n])
    ensures forall i :: 0 <= i < m || n <= i < |s| ==> IsSpace(s[i])
  {
    m, n := TrimTakes(IsSpace, s);
  }

  type Keys = map<string, DeployKey>

  function KeyAt(keys: Keys, title: string): DeployKey {
    if title in keys then keys[title] else NO_KEY
  }

  /** The titles of a whose key differs from the one b has, if any. */
  function DeltaTitles(a: Keys, b: Keys): set<string> {
    set t | t in a && TrimKey(KeyAt(b, t)) != TrimKey(a[t])
  }

  method CompareKeys(keySetA: Keys, keySetB: Keys) returns (delta: Keys)
    ensures delta == Delta(keySetA, keySetB)
  {
    delta := map[];
    var titles := keySetA.Keys;
    while titles != {}
      invariant titles <= keySetA.Keys
      invariant delta == map t | t in DeltaTitles(keySetA, keySetB) && t !in titles :: keySetA[t]
      decreases titles
    {
      var t: string :| t in titles;
      titles := titles - {t};
      if TrimKey(KeyAt(keySetB, t)) != TrimKey(keySetA[t]) {
        delta := delta[t := keySetA[t]];
      }
    }
  }

  // ---- Writing and reading a key ----

  function Print(k: DeployKey): string {
    k.kind + " " + k.key
  }

  /** The server keeps a key as one text, of which the first two words count. */
  predicate Readable(r: RemoteKey) {
    |Split(r.text, ' ')| >= 2
  }

  function Parse(r: RemoteKey): DeployKey
    requires Readable(r)
  {
    var words := Split(r.text, ' ');
    DeployKey(words[0], words[1], r.canPush)
  }

  lemma {:induction false} PrintedIsReadable(s: string, rest: string)
    ensures |Split(s + " " + rest, ' ')| >= 2
  {
    var text := s + " " + rest;
    if s == "" {
      assert text[0] == ' ' && text[1..] == rest;
    } else {
      assert text[1..] == s[1..] + " " + rest;
      PrintedIsReadable(s[1..], rest);
    }
  }

  function Stored(k: DeployKey, title: string, id: nat): (r: RemoteKey)
    ensures Readable(r)
  {
    PrintedIsReadable(k.kind, k.key);
    RemoteKey(id, title, Print(k), k.writeAccess)
  }

  /** The key comes back from the server as it was sent, up to surrounding white space. */
  predicate RoundTrips(k: DeployKey) {
    TrimKey(Parse(Stored(k, "", 0))) == TrimKey(k)
  }

  lemma {:induction false} SplitFirst(s: string)
    ensures ' ' !in Split(s, ' ')[0]
  {
    if s != "" && s[0] != ' ' {
      SplitFirst(s[1..]);
    }
  }

  /** It does exactly when its type has no space in it and its key none but trailing ones. */
  lemma RoundTripsWhen(k: DeployKey)
    ensures RoundTrips(k) <==>
            ' ' !in k.kind && Trim(IsSpace, Split(k.key, ' ')[0]) == Trim(IsSpace, k.key)
  {
    var words := Split(Print(k), ' ');
    PrintedIsReadable(k.kind, k.key);
    SplitFirst(Print(k));
    if ' ' !in k.kind {
      SplitAfterWord(k.kind, ' ', k.key);
    }
  }

  // ---- The server ----

  predicate UniqueTitles(remote: set<RemoteKey>) {
    forall r, s :: r in remote && s in remote && r.title == s.title ==> r == s
  }

  predicate AllReadable(remote: set<RemoteKey>) {
    forall r :: r in remote ==> Readable(r)
  }

  function Titles(remote: set<RemoteKey>): set<string> {
    set r | r in remote :: r.title
  }

  ghost function EntryOf(remote: set<RemoteKey>, title: string): (r: RemoteKey)
    requires title in Titles(remote)
    ensures r in remote && r.title == title
  {
    var r :| r in remote && r.title == title; r
  }

  /** The server's keys by title. */
  ghost function View(remote: set<RemoteKey>): (v: Keys)
    requires AllReadable(remote)
    ensures v.Keys == Titles(remote)
  {
    map t | t in Titles(remote) :: Parse(EntryOf(remote, t))
  }

  lemma ViewAt(remote: set<RemoteKey>, r: RemoteKey)
    requires AllReadable(remote) && UniqueTitles(remote) && r in remote
    ensures r.title in View(remote) && View(remote)[r.title] == Parse(r)
  {
  }

  /** What the server holds once deleteTitles are gone and the keys of added are there. */
  ghost predicate Replaced(before: set<RemoteKey>, after: set<RemoteKey>, deleteTitles: set<string>, added: Keys) {
    && (forall r :: r in before && r.title !in deleteTitles ==> r in after)
    && (forall r :: r in after ==>
          || (r in before && r.title !in deleteTitles)
          || (r.title in added && r == Stored(added[r.title], r.title, r.id)))
    && (forall t :: t in added ==> t in Titles(after))
  }

  /** Deleting by title and then adding one key per title replaces them. */
  lemma Replacing(before: set<RemoteKey>, kept: set<RemoteKey>, after: set<RemoteKey>, deleteTitles: set<string>,
                  added: Keys)
    requires forall r :: r in kept <==> r in before && r.title !in deleteTitles
    requires kept <= after
    requires forall r :: r in after && r !in kept ==> r.title in added && r == Stored(added[r.title], r.title, r.id)
    requires forall t :: t in added ==> exists r :: r in after && r !in kept && r.title == t
    ensures Replaced(before, after, deleteTitles, added)
  {
    forall t | t in added ensures t in Titles(after) {
      var r :| r in after && r !in kept && r.title == t;
    }
  }

  /** Titles stay unique if those added again were deleted. */
  lemma StillUnique(before: set<RemoteKey>, kept: set<RemoteKey>, after: set<RemoteKey>, deleteTitles: set<string>,
                    added: Keys)
    requires forall r :: r in kept <==> r in before && r.title !in deleteTitles
    requires forall r :: r in after && r !in kept ==> r.title in added
    requires forall r, s :: r in after - kept && s in after - kept && r.title == s.title ==> r == s
    requires UniqueTitles(before) && added.Keys * Titles(before) <= deleteTitles
    ensures UniqueTitles(after)
  {
    forall r, s | r in after && s in after && r.title == s.title ensures r == s {
      assert r in kept ==> r.title in Titles(before);
      assert s in kept ==> s.title in Titles(before);
    }
  }

  // ---- The same by the texts of the keys alone ----

  /** The server's key is this type and this text, perhaps with a comment behind. */
  ghost predicate Spells(r: RemoteKey, kind: string, key: string) {
    && ' ' !in kind && ' ' !in key
    && exists rest :: r.text == kind + " " + key + rest && (rest == "" || rest[0] == ' ')
  }

  lemma SpelledParses(r: RemoteKey, kind: string, key: string)
    requires Spells(r, kind, key) && Readable(r)
    ensures Parse(r) == DeployKey(kind, key, r.canPush)
  {
    var rest :| r.text == kind + " " + key + rest && (rest == "" || rest[0] == ' ');
    assert r.text == kind + [' '] + (key + rest);
    SplitAfterWord(kind, ' ', key + rest);
    if rest == "" {
      assert key + rest == key;
      SplitWord(key, ' ');
    } else {
      assert key + rest == key + [' '] + rest[1..];
      SplitAfterWord(key, ' ', rest[1..]);
    }
  }

  /** One key of this title was added, as it is wanted, and is the only one of the title. */
  ghost predicate RenewedAt(before: set<RemoteKey>, after: set<RemoteKey>, title: string, k: DeployKey) {
    exists q :: q in after && q !in before
      && q.title == title && q.text == k.kind + " " + k.key && q.canPush == k.writeAccess
      && forall r :: r in after && r.title == title ==> r == q
  }

  /** What an undisturbed update makes of a key the server has: one that is wanted stays exactly
      if type, text and access are as wanted, and one that is not wanted goes, unless it is blank. */
  ghost predicate PlainlyKept(before: set<RemoteKey>, after: set<RemoteKey>, keys: Keys) {
    forall r, kind, key {:trigger Spells(r, kind, key)} :: r in before && Spells(r, kind, key) && Tidy(key) ==>
      if r.title in keys then
        Tidy(keys[r.title].key) ==>
          if DeployKey(kind, key, r.canPush) == keys[r.title] then
            r in after && forall q :: q in after && q.title == r.title ==> q == r
          else r !in after && RenewedAt(before, after, r.title, keys[r.title])
      else
        kind != "" || key != "" || r.canPush ==> forall q :: q in after ==> q.title != r.title
  }

  /** And of one it has not: it is added, unless it is blank. */
  ghost predicate PlainlyAdded(before: set<RemoteKey>, after: set<RemoteKey>, keys: Keys) {
    forall t :: t in keys && (forall r :: r in before ==> r.title != t) && Tidy(keys[t].key) ==>
      keys[t] != DeployKey("", "", false) ==> RenewedAt(before, after, t, keys[t])
  }

  /** What an undisturbed update comes to in terms of its differences: exactly the keys that
      differ are replaced, and titles stay unique. */
  ghost predicate Updated(before: set<RemoteKey>, after: set<RemoteKey>, keys: Keys)
    requires AllReadable(before)
  {
    UpdatedBy(before, after, DeltaTitles(View(before), keys), Delta(keys, View(before)))
  }

  ghost predicate UpdatedBy(before: set<RemoteKey>, after: set<RemoteKey>, dropped: set<string>, delta: Keys) {
    && UniqueTitles(before) && UniqueTitles(after) && Replaced(before, after, dropped, delta)
    && (forall r :: r in after && r !in before ==> r.title in delta && r == Stored(delta[r.title], r.title, r.id))
    && (forall t :: t in delta ==> exists r :: r in after && r !in before && r.title == t)
  }

  lemma RenewedIfDiffers(before: set<RemoteKey>, after: set<RemoteKey>, keys: Keys, t: string)
    requires AllReadable(before) && Updated(before, after, keys)
    requires t in keys && TrimKey(KeyAt(View(before), t)) != TrimKey(keys[t])
    ensures RenewedAt(before, after, t, keys[t])
  {
    var delta := Delta(keys, View(before));
    assert t in delta;
    var q :| q in after && q !in before && q.title == t;
    assert q == Stored(delta[t], t, q.id);
  }

  lemma KeptInPlainTerms(before: set<RemoteKey>, after: set<RemoteKey>, keys: Keys, r: RemoteKey,
                         kind: string, key: string)
    requires AllReadable(before) && Updated(before, after, keys)
    requires r in before && Spells(r, kind, key) && Tidy(key)
    ensures r.title in keys && Tidy(keys[r.title].key) ==>
      if DeployKey(kind, key, r.canPush) == keys[r.title] then
        r in after && forall q :: q in after && q.title == r.title ==> q == r
      else r !in after && RenewedAt(before, after, r.title, keys[r.title])
    ensures r.title !in keys && (kind != "" || key != "" || r.canPush) ==> forall q :: q in after ==> q.title != r.title
  {
    SpelledParses(r, kind, key);
    ViewAt(before, r);
    TrimStays(IsSpace, key);
    assert TrimKey(View(before)[r.title]) == DeployKey(kind, key, r.canPush);
    if r.title in keys && Tidy(keys[r.title].key) {
      TrimStays(IsSpace, keys[r.title].key);
      assert TrimKey(keys[r.title]) == keys[r.title];
      if DeployKey(kind, key, r.canPush) != keys[r.title] {
        RenewedIfDiffers(before, after, keys, r.title);
      }
    }
  }

  lemma InPlainTerms(before: set<RemoteKey>, after: set<RemoteKey>, keys: Keys)
    requires AllReadable(before) && Updated(before, after, keys)
    ensures PlainlyKept(before, after, keys) && PlainlyAdded(before, after, keys)
  {
    forall r, kind, key | r in before && Spells(r, kind, key) && Tidy(key)
      ensures if r.title in keys then
        Tidy(keys[r.title].key) ==>
          if DeployKey(kind, key, r.canPush) == keys[r.title] then
            r in after && forall q :: q in after && q.title == r.title ==> q == r
          else r !in after && RenewedAt(before, after, r.title, keys[r.title])
      else
        kind != "" || key != "" || r.canPush ==> forall q :: q in after ==> q.title != r.title
    {
      KeptInPlainTerms(before, after, keys, r, kind, key);
    }
    forall t | t in keys && (forall r :: r in before ==> r.title != t) && Tidy(keys[t].key)
      ensures keys[t] != DeployKey("", "", false) ==> RenewedAt(before, after, t, keys[t])
    {
      TrimStays(IsSpace, keys[t].key);
      TrimStays(IsSpace, "");
      assert t !in View(before);
      if keys[t] != DeployKey("", "", false) {
        RenewedIfDiffers(before, after, keys, t);
      }
    }
  }

  class Gitlab {
    const faulty: bool
    const deployKeys: Keys
    var remote: set<RemoteKey>
    var nextId: nat
    var calls: nat

    ghost predicate Valid()
      reads this
    {
      && AllReadable(remote)
      && (forall r :: r in remote ==> r.id < nextId)
      && (forall r, s :: r in remote && s in remote && r.id == s.id ==> r == s)
    }

    constructor (faulty: bool, deployKeys: Keys)
      ensures Valid() && this.faulty == faulty && this.deployKeys == deployKeys && remote == {} && calls == 0
    {
      this.faulty, this.deployKeys, remote, nextId, calls := faulty, deployKeys, {}, 0, 0;
    }

    method ListProjectDeployKeys() returns (r: Reply<seq<RemoteKey>>)
      ensures r.Served? ==> forall k :: k in r.value <==> k in remote
      ensures !faulty ==> r.Served?
    {
      var refused: bool := *;
      if faulty && refused {
        return Refused;
      }
      var list: seq<RemoteKey>, rest := [], remote;
      while rest != {}
        invariant rest <= remote && forall k :: k in list <==> k in remote && k !in rest
        decreases rest
      {
        var k: RemoteKey :| k in rest;
        list, rest := list + [k], rest - {k};
      }
      return Served(list);
    }

    method DeleteDeployKey(id: nat) returns (ok: bool)
      requires Valid()
      modifies this`remote, this`calls
      ensures Valid() && calls == old(calls) + 1
      ensures remote == old(remote) || remote == set r | r in old(remote) && r.id != id
      ensures ok ==> remote == set r | r in old(remote) && r.id != id
      ensures !faulty ==> ok
    {
      calls := calls + 1;
      var refused: bool := *;
      if faulty && refused {
        return false;
      }
      remote := set r | r in remote && r.id != id;
      return true;
    }

    method AddDeployKey(title: string, k: DeployKey) returns (ok: bool)
      requires Valid()
      modifies this
      ensures Valid() && calls == old(calls) + 1 && nextId >= old(nextId)
      ensures remote == old(remote) || remote == old(remote) + {Stored(k, title, old(nextId))}
      ensures ok ==> remote == old(remote) + {Stored(k, title, old(nextId))}
      ensures !faulty ==> ok
    {
      calls := calls + 1;
      var refused: bool, lost: bool := *, *;
      if faulty && refused {
        return false;
      }
      remote := remote + {Stored(k, title, nextId)};
      nextId := nextId + 1;
      return !(faulty && lost);
    }

    // ---- The operator's side ----

    method GetDeployKeys() returns (r: Reply<Keys>)
      requires Valid()
      ensures r.Served? ==> r.value.Keys == Titles(remote)
      ensures r.Served? && UniqueTitles(remote) ==> r.value == View(remote)
      ensures !faulty ==> r.Served?
    {
      var list := ListProjectDeployKeys();
      if list.Refused? {
        return Refused;
      }
      var keys: Keys := map[];
      for i := 0 to |list.value|
        invariant forall t :: t in keys <==> exists j :: 0 <= j < i && list.value[j].title == t
        invariant UniqueTitles(remote) ==> forall j :: 0 <= j < i ==>
                    list.value[j].title in keys && keys[list.value[j].title] == Parse(list.value[j])
      {
        var k := list.value[i];
        assert k in remote;
        var words := Split(k.text, ' ');
        keys := keys[k.title := DeployKey(words[0], words[1], k.canPush)];
      }
      forall t ensures t in keys <==> t in Titles(remote) {
        if t in Titles(remote) {
          var k :| k in remote && k.title == t;
          assert k in list.value;
        }
      }
      if UniqueTitles(remote) {
        forall t | t in keys ensures keys[t] == View(remote)[t] {
          var k := EntryOf(remote, t);
          assert k in list.value;
          ViewAt(remote, k);
        }
      }
      return Served(keys);
    }

    /** Deletes by title. That a deletion fails is only logged. */
    method RemoveDeployKeys(deleteKeys: Keys) returns (ok: bool)
      requires Valid()
      modifies this`remote, this`calls
      ensures Valid() && remote <= old(remote)
      ensures forall r :: r in old(remote) && r.title !in deleteKeys ==> r in remote
      ensures !faulty ==> ok && forall r :: r in remote ==> r.title !in deleteKeys
    {
      var list := ListProjectDeployKeys();
      if list.Refused? {
        return false;
      }
      var existing := list.value;
      for i := 0 to |existing|
        invariant Valid() && remote <= old(remote)
        invariant forall r :: r in old(remote) && r.title !in deleteKeys ==> r in remote
        invariant !faulty ==> forall j :: 0 <= j < i && existing[j].title in deleteKeys ==> existing[j] !in remote
      {
        if existing[i].title in deleteKeys {
          var done := DeleteDeployKey(existing[i].id);
        }
      }
      ok := true;
    }

    /** A key of this title has been added under a new id. */
    ghost predicate Added(before: set<RemoteKey>, firstId: nat, title: string)
      reads this
    {
      exists r :: r in remote && r !in before && r.title == title && r.id >= firstId
    }

    method SetDeployKeys(localKeys: Keys) returns (ok: bool)
      requires Valid()
      modifies this
      ensures Valid() && old(remote) <= remote
      ensures forall r :: r in remote && r !in old(remote) ==>
                r.title in localKeys && r == Stored(localKeys[r.title], r.title, r.id)
      ensures ok ==> forall t :: t in localKeys ==> Added(old(remote), old(nextId), t)
      ensures forall r, s :: r in remote - old(remote) && s in remote - old(remote) && r.title == s.title ==> r == s
      ensures !faulty ==> ok
    {
      ok := true;
      var titles := localKeys.Keys;
      while titles != {}
        invariant Valid() && old(remote) <= remote && titles <= localKeys.Keys && old(nextId) <= nextId
        invariant forall r :: r in remote && r !in old(remote) ==>
                    && r.title in localKeys && r.title !in titles && r.id >= old(nextId)
                    && r == Stored(localKeys[r.title], r.title, r.id)
        invariant forall r, s :: r in remote - old(remote) && s in remote - old(remote) && r.title == s.title ==> r == s
        invariant ok ==> forall t :: t in localKeys && t !in titles ==> Added(old(remote), old(nextId), t)
        invariant !faulty ==> ok
        decreases titles
      {
        var t: string :| t in titles;
        titles := titles - {t};
        var done := AddDeployKey(t, localKeys[t]);
        if !done {
          ok := false;
        }
      }
    }

    /** The two differences applied, the deletions first. */
    method Replace(deleteKeys: Keys, deltaKeys: Keys) returns (ok: bool)
      requires Valid()
      modifies this
      ensures Valid()
      ensures forall r :: r in old(remote) && r.title !in deleteKeys ==> r in remote
      ensures forall r :: r in remote && r !in old(remote) ==>
        r.title in deltaKeys && r == Stored(deltaKeys[r.title], r.title, r.id)
      ensures ok ==> forall t :: t in deltaKeys ==> Added(old(remote), old(nextId), t)
      ensures !faulty ==> ok && Replaced(old(remote), remote, deleteKeys.Keys, deltaKeys)
      ensures !faulty && UniqueTitles(old(remote)) && deltaKeys.Keys * Titles(old(remote)) <= deleteKeys.Keys ==>
        UniqueTitles(remote)
      ensures deleteKeys == deltaKeys == map[] ==> remote == old(remote) && calls == old(calls)
    {
      if |deleteKeys| > 0 {
        ok := RemoveDeployKeys(deleteKeys);
        if !ok {
          return;
        }
      }
      ghost var kept := remote;
      if |deltaKeys| > 0 {
        ok := SetDeployKeys(deltaKeys);
        if !ok {
          return;
        }
      }
      if !faulty {
        Replacing(old(remote), kept, remote, deleteKeys.Keys, deltaKeys);
        if UniqueTitles(old(remote)) && deltaKeys.Keys * Titles(old(remote)) <= deleteKeys.Keys {
          StillUnique(old(remote), kept, remote, deleteKeys.Keys, deltaKeys);
        }
      }
      return true;
    }

    /** Whatever fails, a key that is as it should be stays, and nothing is added but keys
        that differed. If nothing fails the server holds exactly the replaced keys. */
    method UpdateDeployKeys() returns (ok: bool, changed: bool)
      requires Valid() && UniqueTitles(remote)
      modifies this
      ensures Valid()
      ensures var dropped := DeltaTitles(old(View(remote)), deployKeys);
              forall r :: r in old(remote) && r.title !in dropped ==> r in remote
      ensures var delta := Delta(deployKeys, old(View(remote)));
              forall r :: r in remote && r !in old(remote) ==>
                r.title in delta && r == Stored(delta[r.title], r.title, r.id)
      ensures ok ==> forall t :: t in Delta(deployKeys, old(View(remote))) ==> Added(old(remote), old(nextId), t)
      ensures !faulty ==>
                && ok && Updated(old(remote), remote, deployKeys)
                && (changed <==> Delta(deployKeys, old(View(remote))) != map[])
      ensures !faulty ==> PlainlyKept(old(remote), remote, deployKeys) && PlainlyAdded(old(remote), remote, deployKeys)
      ensures InStep(old(View(remote)), deployKeys) ==> remote == old(remote) && calls == old(calls)
    {
      changed := false;
      var listing := GetDeployKeys();
      if listing.Refused? {
        return false, false;
      }
      var remoteKeys := listing.value;
      ok, changed := UpdateFrom(remoteKeys);
      if !faulty {
        InPlainTerms(old(remote), remote, deployKeys);
      }
    }

    /** The two differences to what the server has, applied. */
    method UpdateFrom(remoteKeys: Keys) returns (ok: bool, changed: bool)
      requires Valid() && UniqueTitles(remote) && remoteKeys.Keys == Titles(remote)
      modifies this
      ensures Valid()
      ensures forall r :: r in old(remote) && r.title !in DeltaTitles(remoteKeys, deployKeys) ==> r in remote
      ensures var delta := Delta(deployKeys, remoteKeys);
              forall r :: r in remote && r !in old(remote) ==>
                r.title in delta && r == Stored(delta[r.title], r.title, r.id)
      ensures ok ==> forall t :: t in Delta(deployKeys, remoteKeys) ==> Added(old(remote), old(nextId), t)
      ensures !faulty ==>
                && ok && (changed <==> Delta(deployKeys, remoteKeys) != map[])
                && UpdatedBy(old(remote), remote, DeltaTitles(remoteKeys, deployKeys), Delta(deployKeys, remoteKeys))
      ensures InStep(remoteKeys, deployKeys) ==> remote == old(remote) && calls == old(calls)
    {
      var deleteKeys := CompareKeys(remoteKeys, deployKeys);
      var deltaKeys := CompareKeys(deployKeys, remoteKeys);
      ok := Replace(deleteKeys, deltaKeys);
      changed := ok && |deltaKeys| > 0;
    }
  }

  function Delta(a: Keys, b: Keys): Keys {
    map t | t in DeltaTitles(a, b) :: a[t]
  }

  /** Neither difference has anything in it. */
  ghost predicate InStep(remote: Keys, keys: Keys) {
    DeltaTitles(remote, keys) == {} && DeltaTitles(keys, remote) == {}
  }

  /** A key of nothing but white space and no rights is as good as none. */
  predicate Blank(k: DeployKey) {
    TrimKey(k) == NO_KEY
  }

  /** The state an update leaves, title by title: what was different has been replaced, what
      was equal is what it was, and blank keys are invisible to the comparison. */
  lemma UpdateOutcome(before: set<RemoteKey>, after: set<RemoteKey>, keys: Keys, t: string)
    requires AllReadable(before) && AllReadable(after) && UniqueTitles(before) && UniqueTitles(after)
    requires Replaced(before, after, DeltaTitles(View(before), keys), Delta(keys, View(before)))
    ensures t in Titles(after) <==>
            if t in keys then !(Blank(keys[t]) && t !in Titles(before))
            else t in Titles(before) && Blank(View(before)[t])
    ensures t in Titles(after) && t in DeltaTitles(keys, View(before)) ==>
      View(after)[t] == Parse(Stored(keys[t], t, 0))
    ensures t in Titles(after) && t !in DeltaTitles(keys, View(before)) ==>
      t in Titles(before) && View(after)[t] == View(before)[t]
  {
  }

  lemma ConvergesAt(before: set<RemoteKey>, after: set<RemoteKey>, keys: Keys, t: string)
    requires AllReadable(before) && AllReadable(after) && UniqueTitles(before) && UniqueTitles(after)
    requires Replaced(before, after, DeltaTitles(View(before), keys), Delta(keys, View(before)))
    ensures t !in DeltaTitles(View(after), keys) && t !in DeltaTitles(keys, View(after)) <==>
            (t in DeltaTitles(keys, View(before)) ==> RoundTrips(keys[t]))
  {
    UpdateOutcome(before, after, keys, t);
    if t in DeltaTitles(keys, View(before)) {
      assert TrimKey(View(after)[t]) == TrimKey(Parse(Stored(keys[t], "", 0)));
    }
  }

  /** After an update that nothing disturbed the server agrees with the desired keys, up to
      white space, exactly when every key added survives the trip; and then a second update
      does nothing. */
  lemma ConvergesIff(before: set<RemoteKey>, after: set<RemoteKey>, keys: Keys)
    requires AllReadable(before) && AllReadable(after) && UniqueTitles(before) && UniqueTitles(after)
    requires Replaced(before, after, DeltaTitles(View(before), keys), Delta(keys, View(before)))
    ensures InStep(View(after), keys) <==> forall t :: t in DeltaTitles(keys, View(before)) ==> RoundTrips(keys[t])
  {
    forall t ensures t !in DeltaTitles(View(after), keys) && t !in DeltaTitles(keys, View(after)) <==>
                     (t in DeltaTitles(keys, View(before)) ==> RoundTrips(keys[t]))
    {
      ConvergesAt(before, after, keys, t);
    }
  }

  /** A key whose type has a space in it comes back otherwise, however often it is added. */
  lemma SpacedTypeNeverConverges(title: string, k: DeployKey, id: nat)
    requires ' ' in k.kind && k.writeAccess
    ensures var keys, after := map[title := k], {Stored(k, title, id)};
      && Replaced({}, after, DeltaTitles(View({}), keys), Delta(keys, View({})))
      && !InStep(View(after), keys)
  {
    var keys, after := map[title := k], {Stored(k, title, id)};
    RoundTripsWhen(k);
    assert title in DeltaTitles(keys, View({}));
    assert Stored(k, title, id) in after;
    ConvergesIff({}, after, keys);
  }

  /** With no blank key on either side, being in step means the same titles with the same
      keys up to white space. */
  lemma InStepMeansEqual(remote: Keys, keys: Keys)
    requires forall t :: t in remote ==> !Blank(remote[t])
    requires forall t :: t in keys ==> !Blank(keys[t])
    ensures InStep(remote, keys) <==>
      remote.Keys == keys.Keys && forall t :: t in keys ==> TrimKey(remote[t]) == TrimKey(keys[t])
  {
    if InStep(remote, keys) {
      forall t ensures t in remote <==> t in keys {
        assert t !in DeltaTitles(remote, keys) && t !in DeltaTitles(keys, remote);
      }
      forall t | t in keys ensures TrimKey(remote[t]) == TrimKey(keys[t]) {
        assert t !in DeltaTitles(keys, remote);
      }
    }
  }

  /** What being in step overlooks: a blank desired key may be missing, and a blank key that
      is not desired may stay. */
  lemma BlankKeysAreInvisible()
    ensures InStep(map[], map["ci" := NO_KEY]) && InStep(map["ci" := NO_KEY], map[])
  {
  }
}
