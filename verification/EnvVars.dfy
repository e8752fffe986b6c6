/** Environment variable lists and the in-place edits the compile pipeline makes to them. */
module EnvVars {
  import opened Wrappers

  datatype KeySelector = KeySelector(name: string, key: string, optional: bool)

  datatype EnvVarSource = EnvVarSource(secretKeyRef: Option<KeySelector>)

  datatype GitlabOptions = GitlabOptions(description: string, prot: bool, masked: bool, raw: bool)

  datatype EnvVar = EnvVar(name: string, value: string, valueFrom: Option<EnvVarSource>, gitlab: GitlabOptions) {
    predicate RefersToSecret() {
      valueFrom.Some? && valueFrom.value.secretKeyRef.Some?
    }
  }

  /** The first variable of the given name. */
  function Lookup(list: seq<EnvVar>, name: string): (r: Option<EnvVar>)
    ensures r.Some? ==> r.value.name == name
  {
    if list == [] then None
    else if list[0].name == name then Some(list[0])
    else Lookup(list[1..], name)
  }

  predicate Has(list: seq<EnvVar>, name: string) {
    Lookup(list, name).Some?
  }

  lemma {:induction false} LookupIn(list: seq<EnvVar>, name: string)
    ensures Has(list, name) ==> Lookup(list, name).value in list
    ensures Has(list, name) <==> exists i :: 0 <= i < |list| && list[i].name == name
  {
    if list != [] && list[0].name != name {
      LookupIn(list[1..], name);
      assert forall i :: 0 < i < |list| ==> list[i] == list[1..][i - 1];
    }
  }

  /** No two entries carry this name. */
  predicate Once(list: seq<EnvVar>, name: string) {
    forall i, j :: 0 <= i < j < |list| ==> !(list[i].name == name && list[j].name == name)
  }

  lemma LookupAt(list: seq<EnvVar>, k: nat)
    requires k < |list| && forall j :: 0 <= j < k ==> list[j].name != list[k].name
    ensures Lookup(list, list[k].name) == Some(list[k])
  {
    if k > 0 {
      LookupAt(list[1..], k - 1);
    }
  }

  lemma {:induction false} LookupAppend(a: seq<EnvVar>, b: seq<EnvVar>, name: string)
    ensures Lookup(a + b, name) == if Has(a, name) then Lookup(a, name) else Lookup(b, name)
  {
    if a == [] {
      assert a + b == b;
    } else {
      assert (a + b)[1..] == a[1..] + b;
      LookupAppend(a[1..], b, name);
      assert Has(a, name) <==> a[0].name == name || Has(a[1..], name) by {
        assert a == [a[0]] + a[1..];
      }
    }
  }

  /** The entry written when a variable is set to a plain value. */
  function WithValue(name: string, value: string, current: Option<EnvVar>): (r: EnvVar)
    requires current.Some? ==> current.value.name == name
    ensures r.name == name && r.value == value
    ensures current.Some? ==> r == current.value.(value := value)
  {
    match current
    case None => EnvVar(name, value, None, GitlabOptions("", false, false, true))
    case Some(v) => v.(value := value)
  }

  /** The entry written when a variable is set to refer to a secret's key. */
  function WithSecret(name: string, secret: string, key: string, current: Option<EnvVar>): (r: EnvVar)
    requires current.Some? ==> current.value.name == name
    ensures r.name == name && r.RefersToSecret()
    ensures r.valueFrom.value.secretKeyRef.value.name == secret && r.valueFrom.value.secretKeyRef.value.key == key
    ensures current.Some? ==> r.value == current.value.value && r.gitlab == current.value.gitlab
  {
    var source := Some(EnvVarSource(Some(KeySelector(secret, key, false))));
    match current
    case None => EnvVar(name, "", source, GitlabOptions("", false, true, true))
    case Some(v) =>
      if v.RefersToSecret() && v.valueFrom.value.secretKeyRef.value.name == secret &&
         v.valueFrom.value.secretKeyRef.value.key == key
      then v
      else v.(valueFrom := source)
  }

  /** Only what this name stands for has changed. */
  ghost predicate Rebound(list: seq<EnvVar>, list': seq<EnvVar>, name: string, want: Option<EnvVar>) {
    && Lookup(list', name) == want
    && (forall x :: x != name ==> Lookup(list', x) == Lookup(list, x))
  }

  /** list' is list with the entry of this name replaced by want, or dropped, and every
      other entry where it was relative to the others. */
  ghost predicate Edited(list: seq<EnvVar>, list': seq<EnvVar>, name: string, want: Option<EnvVar>) {
    && Rebound(list, list', name, want)
    && (forall x :: Once(list, x) ==> Once(list', x))
    && (forall v :: v in list' ==> v in list || Some(v) == want)
    && Without(list', name) == Without(list, name)
  }

  /** The list without any entry of this name. */
  function Without(list: seq<EnvVar>, name: string): seq<EnvVar> {
    if list == [] then []
    else if list[0].name == name then Without(list[1..], name)
    else [list[0]] + Without(list[1..], name)
  }

  lemma {:induction false} WithoutAppend(a: seq<EnvVar>, b: seq<EnvVar>, name: string)
    ensures Without(a + b, name) == Without(a, name) + Without(b, name)
  {
    if a == [] {
      assert a + b == b;
    } else {
      assert (a + b)[1..] == a[1..] + b;
      WithoutAppend(a[1..], b, name);
    }
  }

  lemma EditedByAppend(list: seq<EnvVar>, v: EnvVar)
    requires !Has(list, v.name)
    ensures Edited(list, list + [v], v.name, Some(v))
  {
    forall x ensures Lookup(list + [v], x) == if x == v.name then Some(v) else Lookup(list, x) {
      LookupAppend(list, [v], x);
    }
    LookupIn(list, v.name);
    WithoutAppend(list, [v], v.name);
  }

  lemma EditedByUpdate(list: seq<EnvVar>, i: nat, v: EnvVar)
    requires i < |list| && list[i].name == v.name
    requires forall j :: 0 <= j < i ==> list[j].name != v.name
    ensures Edited(list, list[i := v], v.name, Some(v))
  {
    var a, b, list' := list[..i], list[i + 1..], list[i := v];
    assert list == a + ([list[i]] + b) && list' == a + ([v] + b);
    LookupIn(a, v.name);
    forall x ensures Lookup(list', x) == if x == v.name then Some(v) else Lookup(list, x) {
      LookupAppend(a, [v] + b, x);
      LookupAppend(a, [list[i]] + b, x);
    }
    forall x | Once(list, x) ensures Once(list', x) {
      assert forall j :: 0 <= j < |list| ==> list'[j].name == list[j].name;
    }
    assert Without(list', v.name) == Without(list, v.name) by {
      WithoutAppend(a, [v] + b, v.name);
      WithoutAppend(a, [list[i]] + b, v.name);
    }
  }

  function Dropped(list: seq<EnvVar>, i: nat): seq<EnvVar>
    requires i < |list|
  {
    list[..i] + list[i + 1..]
  }

  lemma DroppedAround(list: seq<EnvVar>, i: nat)
    requires i < |list|
    ensures list == list[..i] + ([list[i]] + list[i + 1..])
  {
  }

  lemma LookupOthers(list: seq<EnvVar>, i: nat, x: string)
    requires i < |list| && x != list[i].name
    ensures Lookup(Dropped(list, i), x) == Lookup(list, x)
  {
    var a, b := list[..i], list[i + 1..];
    DroppedAround(list, i);
    LookupAppend(a, b, x);
    LookupAppend(a, [list[i]] + b, x);
    LookupAppend([list[i]], b, x);
  }

  lemma LookupGone(list: seq<EnvVar>, i: nat)
    requires i < |list| && Once(list, list[i].name)
    ensures !Has(Dropped(list, i), list[i].name)
  {
    LookupIn(Dropped(list, i), list[i].name);
  }

  lemma OnceDropped(list: seq<EnvVar>, i: nat, x: string)
    requires i < |list| && Once(list, x)
    ensures Once(Dropped(list, i), x)
  {
    var rest := Dropped(list, i);
    forall j, k | 0 <= j < k < |rest| ensures !(rest[j].name == x && rest[k].name == x) {
      var j', k' := if j < i then j else j + 1, if k < i then k else k + 1;
      assert rest[j] == list[j'] && rest[k] == list[k'];
    }
  }

  lemma WithoutDropped(list: seq<EnvVar>, i: nat)
    requires i < |list|
    ensures Without(Dropped(list, i), list[i].name) == Without(list, list[i].name)
  {
    var a, b, name := list[..i], list[i + 1..], list[i].name;
    DroppedAround(list, i);
    WithoutAppend(a, b, name);
    WithoutAppend(a, [list[i]] + b, name);
    WithoutAppend([list[i]], b, name);
  }

  lemma EditedByDelete(list: seq<EnvVar>, i: nat)
    requires i < |list| && Once(list, list[i].name)
    ensures Edited(list, Dropped(list, i), list[i].name, None)
  {
    forall x | x != list[i].name ensures Lookup(Dropped(list, i), x) == Lookup(list, x) {
      LookupOthers(list, i, x);
    }
    LookupGone(list, i);
    forall x | Once(list, x) ensures Once(Dropped(list, i), x) {
      OnceDropped(list, i, x);
    }
    WithoutDropped(list, i);
  }

  /** Where the first entry of this name is, or -1. */
  function EnvVarIndex(name: string, list: seq<EnvVar>): (r: int)
    ensures -1 <= r < |list|
    ensures r < 0 <==> !Has(list, name)
    ensures r >= 0 ==> list[r].name == name && forall j :: 0 <= j < r ==> list[j].name != name
    ensures Lookup(list, name) == if r < 0 then None else Some(list[r])
  {
    if list == [] then -1
    else if list[0].name == name then 0
    else
      var r := EnvVarIndex(name, list[1..]);
      assert list == [list[0]] + list[1..];
      if r < 0 then -1 else r + 1
  }

  method UpdateEnvVarValue(name: string, value: string, envVars: seq<EnvVar>)
    returns (list: seq<EnvVar>, changed: bool)
    ensures Edited(envVars, list, name, Some(WithValue(name, value, Lookup(envVars, name))))
    // a new entry has neither description nor protection nor mask, and is taken raw
    ensures Lookup(list, name) ==
      if Has(envVars, name) then Some(Lookup(envVars, name).value.(value := value))
      else Some(EnvVar(name, value, None, GitlabOptions("", false, false, true)))
    ensures changed <==> Lookup(envVars, name) != Lookup(list, name)
    ensures !changed ==> list == envVars
  {
    list, changed := envVars, false;
    var index := EnvVarIndex(name, envVars);
    if index < 0 {
      changed := true;
      var v := EnvVar(name, value, None, GitlabOptions("", false, false, true));
      list := list + [v];
      EditedByAppend(envVars, v);
    } else if list[index].value != value {
      changed := true;
      list := list[index := list[index].(value := value)];
      EditedByUpdate(envVars, index, list[index]);
    }
  }

  method UpdateEnvVarValueFrom(name: string, secret: string, key: string, envVars: seq<EnvVar>)
    returns (list: seq<EnvVar>, changed: bool)
    requires Has(envVars, name) ==> Lookup(envVars, name).value.RefersToSecret()
    ensures Edited(envVars, list, name, Some(WithSecret(name, secret, key, Lookup(envVars, name))))
    // a new entry is masked; an old one keeps all but its reference, and that too if it is the same
    ensures !Has(envVars, name) ==>
      var source := Some(EnvVarSource(Some(KeySelector(secret, key, false))));
      Lookup(list, name) == Some(EnvVar(name, "", source, GitlabOptions("", false, true, true)))
    ensures Has(envVars, name) ==>
      var (had, has) := (Lookup(envVars, name).value, Lookup(list, name).value);
      && has.(valueFrom := had.valueFrom) == had && has.RefersToSecret()
      && has.valueFrom.value.secretKeyRef.value.name == secret && has.valueFrom.value.secretKeyRef.value.key == key
    ensures changed <==> Lookup(envVars, name) != Lookup(list, name)
    ensures !changed ==> list == envVars
  {
    list, changed := envVars, false;
    var index := EnvVarIndex(name, envVars);
    if index < 0 {
      changed := true;
      var v := EnvVar(name, "", Some(EnvVarSource(Some(KeySelector(secret, key, false)))),
                      GitlabOptions("", false, true, true));
      list := list + [v];
      EditedByAppend(envVars, v);
    } else {
      var ref := list[index].valueFrom.value.secretKeyRef.value;
      if ref.name != secret || ref.key != key {
        changed := true;
        list := list[index := list[index].(valueFrom := Some(EnvVarSource(Some(KeySelector(secret, key, false)))))];
        EditedByUpdate(envVars, index, list[index]);
      }
    }
  }

  /** Only the first match goes, so the name has to be unique for it to be gone. */
  method RemoveEnvVar(name: string, envVars: seq<EnvVar>) returns (list: seq<EnvVar>, changed: bool)
    ensures changed <==> Has(envVars, name)
    ensures !changed ==> list == envVars
    ensures |list| == |envVars| - if changed then 1 else 0
    ensures Once(envVars, name) ==> Edited(envVars, list, name, None)
  {
    var index := EnvVarIndex(name, envVars);
    if index >= 0 {
      if Once(envVars, name) {
        EditedByDelete(envVars, index);
      }
      return Dropped(envVars, index), true;
    }
    return envVars, false;
  }

  /** A name is gone after one removal exactly when it occurred at most once. */
  lemma RemovedIffOnce(envVars: seq<EnvVar>, name: string)
    ensures var i := EnvVarIndex(name, envVars);
            i >= 0 ==> (Has(Dropped(envVars, i), name) <==> !Once(envVars, name))
  {
    var i := EnvVarIndex(name, envVars);
    if i >= 0 {
      var rest := Dropped(envVars, i);
      if Once(envVars, name) {
        LookupGone(envVars, i);
      } else {
        var j, k :| 0 <= j < k < |envVars| && envVars[j].name == name && envVars[k].name == name;
        assert rest[k - 1] == envVars[k];
        LookupIn(rest, name);
      }
    }
  }
}
