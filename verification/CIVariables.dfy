/** CI variables of a GitLab project: bringing the managed ones to what the spec says, and
    remembering which names were applied so that dropped ones are removed. */
module CIVariables {
  import opened Wrappers
  import opened EnvVars
  import Pipeline

  datatype Local = Local(name: string, value: string, description: Option<string>,
                         prot: Option<bool>, masked: Option<bool>, raw: Option<bool>)

  datatype Remote = Remote(value: string, description: string, prot: bool, masked: bool, raw: bool)

  datatype CallReply = Done | NotFound | Failed

  predicate Agrees<T(==)>(have: T, want: Option<T>) {
    want.Some? ==> have == want.value
  }

  /** The remote variable says what the local one asks for, description aside. */
  predicate Matches(r: Remote, v: Local) {
    r.value == v.value && Agrees(r.prot, v.prot) && Agrees(r.masked, v.masked) && Agrees(r.raw, v.raw)
  }

  predicate VarNeedsUpdate(r: Remote, v: Local) {
    || r.value != v.value
    || (v.description.Some? && r.description != v.description.value)
    || (v.prot.Some? && r.prot != v.prot.value)
    || (v.masked.Some? && r.masked != v.masked.value)
    || (v.raw.Some? && r.raw != v.raw.value)
  }

  /** What the update call makes of a variable: it does not carry the description. */
  function Updated(r: Remote, v: Local): Remote {
    Remote(v.value, r.description, v.prot.GetOr(r.prot), v.masked.GetOr(r.masked), v.raw.GetOr(r.raw))
  }

  function Fresh(v: Local): Remote {
    Updated(Remote("", "", false, false, false), v)
  }

  /** An updated variable is as asked, and still counts as different exactly when its
      description does: the description is compared but never sent. */
  lemma UpdateConvergesUpToDescription(r: Remote, v: Local)
    ensures Matches(Updated(r, v), v) && Matches(Fresh(v), v)
    ensures VarNeedsUpdate(Updated(r, v), v) <==> !Agrees(r.description, v.description)
    ensures VarNeedsUpdate(Fresh(v), v) <==> !Agrees("", v.description)
    ensures !VarNeedsUpdate(r, v) <==> Matches(r, v) && Agrees(r.description, v.description)
  {
  }

  function NamesIn(vs: seq<Local>): set<string> {
    set v | v in vs :: v.name
  }

  // ---- The git server ----

  class Project {
    const faulty: bool
    // whether one page holds the whole listing
    const complete: bool
    var vars: map<string, Remote>
    var updates: nat

    constructor (faulty: bool, complete: bool, vars: map<string, Remote>)
      ensures this.faulty == faulty && this.complete == complete && this.vars == vars && updates == 0
    {
      this.faulty, this.complete, this.vars, updates := faulty, complete, vars, 0;
    }

    method RemoveVariable(key: string) returns (r: CallReply)
      modifies this`vars
      ensures vars == old(vars) || vars == old(vars) - {key}
      ensures !r.Failed? ==> vars == old(vars) - {key}
      ensures !faulty ==> !r.Failed?
    {
      var refused: bool, lost: bool := *, *;
      if faulty && refused {
        return Failed;
      }
      r := if faulty && lost then Failed else if key in vars then Done else NotFound;
      vars := vars - {key};
    }

    /** A page of the variables, or all of them. */
    method ListVariables() returns (r: Reply<map<string, Remote>>)
      ensures r.Served? ==> forall k :: k in r.value ==> k in vars && r.value[k] == vars[k]
      ensures r.Served? && complete ==> r.value == vars
      ensures !faulty ==> r.Served?
    {
      var refused: bool := *;
      if faulty && refused {
        return Refused;
      }
      var page: map<string, Remote> := vars;
      if !complete {
        var names := vars.Keys;
        page := map[];
        while names != {}
          invariant names <= vars.Keys
          invariant forall k :: k in page ==> k in vars && page[k] == vars[k]
          decreases names
        {
          var k: string :| k in names;
          names := names - {k};
          var onPage: bool := *;
          if onPage {
            page := page[k := vars[k]];
          }
        }
      }
      return Served(page);
    }

    method UpdateVariable(v: Local) returns (r: CallReply)
      modifies this
      ensures updates == old(updates) + 1
      ensures r.NotFound? ==> v.name !in vars && vars == old(vars)
      ensures r.Done? ==> v.name in old(vars) && vars == old(vars)[v.name := Updated(old(vars)[v.name], v)]
      ensures vars == old(vars) || (v.name in old(vars) && vars == old(vars)[v.name := Updated(old(vars)[v.name], v)])
      ensures !faulty ==> !r.Failed?
    {
      updates := updates + 1;
      var refused: bool, lost: bool := *, *;
      if faulty && refused {
        return Failed;
      }
      if v.name !in vars {
        return NotFound;
      }
      vars := vars[v.name := Updated(vars[v.name], v)];
      r := if faulty && lost then Failed else Done;
    }

    method CreateVariable(v: Local) returns (r: CallReply)
      modifies this`vars
      ensures r.Done? ==> vars == old(vars)[v.name := Fresh(v)]
      ensures vars == old(vars) || (v.name !in old(vars) && vars == old(vars)[v.name := Fresh(v)])
      ensures !faulty && v.name !in old(vars) ==> r.Done?
    {
      var refused: bool, lost: bool := *, *;
      if (faulty && refused) || v.name in vars {
        return Failed;
      }
      vars := vars[v.name := Fresh(v)];
      r := if faulty && lost then Failed else Done;
    }

    // ---- The operator's side ----

    method UpdateOrCreate(v: Local) returns (ok: bool)
      modifies this
      ensures ok ==> v.name in vars && Matches(vars[v.name], v)
      ensures forall k :: k != v.name ==> (k in vars <==> k in old(vars)) && (k in vars ==> vars[k] == old(vars)[k])
      ensures vars == old(vars) || (v.name in vars && Matches(vars[v.name], v))
      ensures !faulty ==> ok
    {
      var reply := UpdateVariable(v);
      if reply.Done? {
        return true;
      }
      if !reply.NotFound? {
        return false;
      }
      reply := CreateVariable(v);
      ok := reply.Done?;
    }

    /** Removes managed variables that are no longer wanted. */
    method RemoveDropped(dropped: set<string>) returns (ok: bool)
      modifies this`vars
      ensures vars.Keys <= old(vars).Keys && forall k :: k in vars ==> vars[k] == old(vars)[k]
      ensures forall k :: k !in dropped ==> (k in vars <==> k in old(vars))
      ensures ok ==> forall k :: k in dropped ==> k !in vars
      ensures !faulty ==> ok
    {
      ok := true;
      var toDelete := dropped;
      while toDelete != {}
        invariant toDelete <= dropped
        invariant vars.Keys <= old(vars).Keys && forall k :: k in vars ==> vars[k] == old(vars)[k]
        invariant forall k :: k !in dropped ==> (k in vars <==> k in old(vars))
        invariant ok ==> forall k :: k in dropped && k !in toDelete ==> k !in vars
        invariant !faulty ==> ok
        decreases toDelete
      {
        var k: string :| k in toDelete;
        toDelete := toDelete - {k};
        var reply := RemoveVariable(k);
        if reply.Failed? {
          ok := false;
        }
      }
    }

    /** Whatever fails, no variable outside managed changes and none is left at a value nobody
        asked for; if nothing fails, the managed ones are exactly the given ones, whichever
        page of the listing came back. A full listing spares every variable that is as asked. */
    method EnsureCIVariables(managedVariables: seq<string>, variables: seq<Local>) returns (ok: bool)
      modifies this
      ensures forall k :: k !in managedVariables ==> SameAt(k, old(vars), vars)
      ensures forall k :: k in vars ==>
        (k in old(vars) && vars[k] == old(vars)[k]) || WrittenFor(vars[k], variables, |variables|, k)
      ensures ok ==> Applied(managedVariables, variables, vars)
      ensures !faulty ==> ok
      ensures complete && UpToDate(managedVariables, variables, old(vars)) ==> updates == old(updates)
    {
      var managed := set k | k in managedVariables;
      var current := set v | v in variables :: v.name;
      assert forall k :: k in managed <==> k in managedVariables;
      ok := RemoveDropped(managed - current);
      ghost var atListing := vars;
      assert forall k :: k !in managedVariables ==> SameAt(k, old(vars), atListing);
      var listing := ListVariables();
      if listing.Refused? {
        return false;
      }
      var remoteByName := listing.value;
      for i := 0 to |variables|
        invariant forall k :: k !in managed * current ==> SameAt(k, atListing, vars)
        invariant forall k :: k in atListing ==> k in vars
        invariant forall k :: k in vars ==>
          (k in atListing && vars[k] == atListing[k]) || WrittenFor(vars[k], variables, i, k)
        invariant ok ==> forall j :: 0 <= j < i && variables[j].name in managed ==>
                    variables[j].name in vars && WrittenFor(vars[variables[j].name], variables, i, variables[j].name)
        invariant ok ==> forall k :: k in managed - current ==> k !in vars
        invariant !faulty ==> ok
        invariant complete && UpToDate(managedVariables, variables, old(vars)) ==> updates == old(updates)
      {
        var v := variables[i];
        if v.name !in managed {
          continue;
        }
        var changed := if v.name in remoteByName then VarNeedsUpdate(remoteByName[v.name], v) else true;
        if !changed {
          continue;
        }
        var done := UpdateOrCreate(v);
        if !done {
          ok := false;
        }
      }
      forall k | k !in managedVariables ensures SameAt(k, old(vars), vars) {
        assert k !in managed * current;
        assert SameAt(k, atListing, vars);
      }
    }
  }

  ghost predicate SameAt(k: string, before: map<string, Remote>, after: map<string, Remote>) {
    (k in after <==> k in before) && (k in after ==> after[k] == before[k])
  }

  /** One of the first n variables is of this name and is what r says. */
  ghost predicate WrittenFor(r: Remote, variables: seq<Local>, n: nat, name: string)
    requires n <= |variables|
  {
    exists j :: 0 <= j < n && variables[j].name == name && Matches(r, variables[j])
  }

  /** The state asked for: managed variables that are given are as given, the others gone. */
  ghost predicate Applied(managedVariables: seq<string>, variables: seq<Local>, vars: map<string, Remote>) {
    forall k :: k in managedVariables ==>
      if k in NamesIn(variables) then k in vars && WrittenFor(vars[k], variables, |variables|, k) else k !in vars
  }

  ghost predicate UpToDate(managedVariables: seq<string>, variables: seq<Local>, vars: map<string, Remote>) {
    forall v :: v in variables && v.name in managedVariables ==> v.name in vars && !VarNeedsUpdate(vars[v.name], v)
  }

  /** With unique names every managed variable is as its only entry says. */
  lemma UniqueNamesPinValues(managedVariables: seq<string>, variables: seq<Local>, vars: map<string, Remote>, v: Local)
    requires Applied(managedVariables, variables, vars) && v in variables && v.name in managedVariables
    requires forall i, j :: 0 <= i < j < |variables| ==> variables[i].name != variables[j].name
    ensures v.name in vars && Matches(vars[v.name], v)
  {
  }

  // ---- The memory of what was applied ----

  type Secrets = map<string, map<string, string>>

  datatype Resolved = Value(value: string) | Invalid

  /** The value of a variable, from its text or from a secret. */
  function ValueFromEnvVar(secrets: Secrets, v: EnvVar): Resolved {
    if v.value != "" then (if v.valueFrom.Some? then Invalid else Value(v.value))
    else if v.valueFrom.None? then Value("")
    else if v.valueFrom.value.secretKeyRef.None? then Invalid
    else
      var ref := v.valueFrom.value.secretKeyRef.value;
      if ref.name == "" || ref.key == "" then Invalid
      else if ref.name !in secrets || ref.key !in secrets[ref.name] then (if ref.optional then Value("") else Invalid)
      else Value(secrets[ref.name][ref.key])
  }

  function ToLocal(v: EnvVar, value: string): Local {
    Local(v.name, value, Some(v.gitlab.description), Some(v.gitlab.prot), Some(v.gitlab.masked), Some(v.gitlab.raw))
  }

  predicate AllValid(secrets: Secrets, spec: seq<EnvVar>) {
    forall i :: 0 <= i < |spec| ==> ValueFromEnvVar(secrets, spec[i]).Value?
  }

  /** The spec with its values filled in. */
  ghost predicate Filled(secrets: Secrets, spec: seq<EnvVar>, variables: seq<Local>) {
    && |variables| == |spec|
    && forall i :: 0 <= i < |spec| ==>
         var r := ValueFromEnvVar(secrets, spec[i]);
         r.Value? && variables[i] == ToLocal(spec[i], r.value)
  }

  /** The remote variable has the resolved value and the options of an entry of this name. */
  ghost predicate HasItsValue(r: Remote, secrets: Secrets, spec: seq<EnvVar>, name: string) {
    exists i :: 0 <= i < |spec| && spec[i].name == name &&
      ValueFromEnvVar(secrets, spec[i]).Value? && Matches(r, ToLocal(spec[i], ValueFromEnvVar(secrets, spec[i]).value))
  }

  /** With unique names, what the server holds for each entry of a spec, by the entry's fields. */
  ghost predicate PlainValues(spec: seq<EnvVar>, secrets: Secrets, vars: map<string, Remote>) {
    forall i :: 0 <= i < |spec| ==>
      var v := spec[i];
      v.name in vars && var r := vars[v.name];
      && r.prot == v.gitlab.prot && r.masked == v.gitlab.masked && r.raw == v.gitlab.raw
      && (v.value != "" ==> r.value == v.value)
      && (v.value == "" && v.valueFrom.None? ==> r.value == "")
      && (v.value == "" && v.RefersToSecret() ==>
            var ref := v.valueFrom.value.secretKeyRef.value;
            if ref.name in secrets && ref.key in secrets[ref.name] then r.value == secrets[ref.name][ref.key]
            else ref.optional && r.value == "")
  }

  /** Every entry has a value: its own text, or none at all, or a reference that is complete and
      either finds its key or need not; but not both text and a source. */
  ghost predicate PlainlyValid(spec: seq<EnvVar>, secrets: Secrets) {
    forall i :: 0 <= i < |spec| ==>
      var v := spec[i];
      || v.valueFrom.None?
      || (v.value == "" && v.RefersToSecret() &&
            var ref := v.valueFrom.value.secretKeyRef.value;
            && ref.name != "" && ref.key != ""
            && ((ref.name in secrets && ref.key in secrets[ref.name]) || ref.optional))
  }

  lemma ValidIff(spec: seq<EnvVar>, secrets: Secrets)
    ensures AllValid(secrets, spec) <==> PlainlyValid(spec, secrets)
  {
  }

  lemma ValuesInPlainTerms(spec: seq<EnvVar>, secrets: Secrets, vars: map<string, Remote>)
    requires forall i, j :: 0 <= i < j < |spec| ==> spec[i].name != spec[j].name
    requires forall v :: v in spec ==> v.name in vars && HasItsValue(vars[v.name], secrets, spec, v.name)
    ensures PlainValues(spec, secrets, vars)
  {
    forall i | 0 <= i < |spec|
      ensures spec[i].name in vars && ValueFromEnvVar(secrets, spec[i]).Value?
      ensures Matches(vars[spec[i].name], ToLocal(spec[i], ValueFromEnvVar(secrets, spec[i]).value))
    {
      assert spec[i] in spec;
    }
  }

  function SpecNames(spec: seq<EnvVar>): set<string> {
    set v | v in spec :: v.name
  }

  // ---- Which names are on record, and which on the server ----

  /** A run, and how the reconcile goes on once the variables are applied. */
  datatype Job = Job(spec: seq<EnvVar>, secrets: Secrets, sequel: Pipeline.Sequel) {
    predicate Succeeds() {
      AllValid(secrets, spec)
    }

    predicate Applies(name: string) {
      Succeeds() && name in SpecNames(spec)
    }
  }

  datatype Names = Names(record: set<string>, present: set<string>)

  /** What a run in which no call fails makes of the names. */
  function After(m: Names, job: Job): Names {
    if !job.Succeeds() then m
    else Names(if job.sequel.StoresStatus() then SpecNames(job.spec) else m.record,
               m.present - m.record + SpecNames(job.spec))
  }

  function AfterAll(m: Names, jobs: seq<Job>): Names
    decreases |jobs|
  {
    if jobs == [] then m else AfterAll(After(m, jobs[0]), jobs[1..])
  }

  lemma {:induction false} AfterConcatenation(m: Names, xs: seq<Job>, ys: seq<Job>)
    ensures AfterAll(m, xs + ys) == AfterAll(AfterAll(m, xs), ys)
    decreases |xs|
  {
    if xs == [] {
      assert xs + ys == ys;
    } else {
      assert (xs + ys)[0] == xs[0] && (xs + ys)[1..] == xs[1..] + ys;
      AfterConcatenation(After(m, xs[0]), xs[1..], ys);
    }
  }

  predicate NoneSucceeds(jobs: seq<Job>) {
    forall j :: j in jobs ==> !j.Succeeds()
  }

  /** A name nobody applies any more goes with the first run that succeeds if it is on record,
      and stays for good if it is not. */
  lemma {:induction false} NotAppliedIff(m: Names, jobs: seq<Job>, name: string)
    requires forall j :: j in jobs ==> !j.Applies(name)
    ensures name in AfterAll(m, jobs).present <==> name in m.present && (NoneSucceeds(jobs) || name !in m.record)
    decreases |jobs|
  {
    if jobs != [] {
      assert jobs[0] in jobs && forall j :: j in jobs <==> j == jobs[0] || j in jobs[1..];
      NotAppliedIff(After(m, jobs[0]), jobs[1..], name);
    }
  }

  /** When a name stays on the server after the run that applied it last: while no later run
      succeeds, and for good exactly if it was not on record before that run and that run did
      not store the record. */
  lemma DroppedNameStaysIff(m: Names, before: seq<Job>, job: Job, after: seq<Job>, name: string)
    requires job.Applies(name) && forall j :: j in after ==> !j.Applies(name)
    ensures name in AfterAll(m, before + [job] + after).present <==>
      NoneSucceeds(after) || (name !in AfterAll(m, before).record && !job.sequel.StoresStatus())
  {
    AfterConcatenation(m, before + [job], after);
    AfterConcatenation(m, before, [job]);
    assert [job][1..] == [];
    NotAppliedIff(After(AfterAll(m, before), job), after, name);
  }

  const StoresObject := Pipeline.Sequel(false, false, true)
  const NothingElse := Pipeline.Sequel(false, false, false)

  /** The first run of a new GitRepo applies a variable and stores the object, with finalizer and
      label, but not the record. The spec then drops the variable, and it is never removed. */
  lemma FirstRunLosesTrack(v: EnvVar, secrets: Secrets)
    requires AllValid(secrets, [v])
    ensures var first, second := Job([v], secrets, StoresObject), Job([], secrets, NothingElse);
      first.Succeeds() && second.Succeeds() && v.name in AfterAll(Names({}, {}), [first, second]).present
  {
    var first, second := Job([v], secrets, StoresObject), Job([], secrets, NothingElse);
    assert v in [v] && v.name in SpecNames([v]);
    assert [] + [first] + [second] == [first, second];
    DroppedNameStaysIff(Names({}, {}), [], first, [second], v.name);
  }

  /** The part of a GitRepo's reconcile that applies CI variables, over the life of the
      object. record is status.lastAppliedCIVariables. ever are all names ever handed to the
      git server, and loose those that a run may have created without being able to record
      them. */
  class Reconciler {
    const project: Project
    var record: seq<EnvVar>
    ghost var ever: set<string>
    ghost var loose: set<string>

    constructor (project: Project)
      ensures Inv() && this.project == project && record == [] && ever == {} && loose == {}
    {
      this.project, record, ever, loose := project, [], {}, {};
    }

    /** Whatever of ours is on the server is on record or loose. */
    ghost predicate Inv()
      reads this, project
    {
      && SpecNames(record) <= ever && loose <= ever
      && forall k :: k in ever && k in project.vars ==> k in SpecNames(record) || k in loose
    }

    ghost function Now(): Names
      reads this, project
    {
      Names(SpecNames(record), project.vars.Keys)
    }

    /** One run. The record is in the status, which is stored after the variables are applied,
        or not at all. */
    method Run(job: Job) returns (ok: bool, stored: bool)
      requires Inv()
      modifies this, project
      ensures Inv() && old(ever) <= ever <= old(ever) + SpecNames(job.spec) && loose <= old(loose) + SpecNames(job.spec)
      ensures forall k :: k !in ever ==> SameAt(k, old(project.vars), project.vars)
      ensures record == if stored then job.spec else old(record)
      // a stored run leaves nothing new loose, and nothing of ours that is not in the spec
      ensures stored ==> ok && job.sequel.StoresStatus() && loose <= old(loose)
      ensures stored ==> forall k :: k in ever && k !in SpecNames(job.spec) && k in project.vars ==> k in old(loose)
      // what the server then holds for the spec, and what it no longer holds
      ensures ok ==> PlainlyApplied(job.spec, job.secrets, old(record), project.vars)
      ensures !project.faulty ==> (ok <==> PlainlyValid(job.spec, job.secrets))
      ensures ok ==> HasValues(job) && project.vars.Keys == After(old(Now()), job).present
      // without faults the run fails only for want of a value, and all names are as computed
      ensures !project.faulty ==> (ok <==> job.Succeeds()) && (stored <==> ok && job.sequel.StoresStatus())
      ensures !project.faulty ==> Now() == After(old(Now()), job)
      ensures !job.Succeeds() ==> !ok && project.vars == old(project.vars)
    {
      ValidIff(job.spec, job.secrets);
      var sent;
      sent, ok := Apply(job);
      if !sent {
        return false, false;
      }
      if ok {
        InPlainTerms(job, old(Now()), record, project.vars);
      }
      ever := ever + SpecNames(job.spec);
      var kept := CallSucceeds(project.faulty);
      if !ok || !kept || !job.sequel.StoresStatus() {
        loose := (if ok then loose - SpecNames(record) else loose) + SpecNames(job.spec);
        return ok, false;
      }
      loose := loose - SpecNames(record) - SpecNames(job.spec);
      record := job.spec;
      return true, true;
    }

    /** Fills in the values and brings the variables to them, unless a value is missing. */
    method Apply(job: Job) returns (sent: bool, ok: bool)
      modifies project
      ensures forall k :: k !in SpecNames(job.spec) && k !in SpecNames(record) ==>
        SameAt(k, old(project.vars), project.vars)
      ensures forall k :: k in project.vars && k !in old(project.vars) ==> k in SpecNames(job.spec)
      ensures !sent ==> !ok && project.vars == old(project.vars)
      ensures ok ==> job.Succeeds() && HasValues(job) && project.vars.Keys == After(old(Now()), job).present
      ensures !project.faulty ==> (ok <==> job.Succeeds())
      ensures !job.Succeeds() ==> !sent
    {
      var spec, secrets := job.spec, job.secrets;
      var managed := Managed(spec);
      var variables;
      sent, variables := FillIn(spec, secrets);
      if !sent {
        return false, false;
      }
      FilledNames(secrets, spec, variables);
      ok := project.EnsureCIVariables(managed, variables);
      if ok {
        AppliedHasValues(managed, variables, project.vars, secrets, spec);
      }
    }

    /** The names in the spec and on record. */
    method Managed(spec: seq<EnvVar>) returns (managed: seq<string>)
      ensures forall k :: k in managed <==> k in SpecNames(spec) || k in SpecNames(record)
    {
      managed := [];
      for i := 0 to |spec|
        invariant |managed| == i && forall j :: 0 <= j < i ==> managed[j] == spec[j].name
      {
        managed := managed + [spec[i].name];
      }
      for i := 0 to |record|
        invariant |managed| == |spec| + i
        invariant forall j :: 0 <= j < |spec| ==> managed[j] == spec[j].name
        invariant forall j :: 0 <= j < i ==> managed[|spec| + j] == record[j].name
      {
        managed := managed + [record[i].name];
      }
      ManagedNames(managed, spec, record);
    }

    /** Every variable of the spec has its resolved value. */
    ghost predicate HasValues(job: Job)
      reads project
    {
      forall v :: v in job.spec ==>
        v.name in project.vars && HasItsValue(project.vars[v.name], job.secrets, job.spec, v.name)
    }

    /** Any sequence of runs with any edits of the spec and the secrets in between. Names never
        applied are as they were at the start. If every run stored the record, what was ever
        applied and has since been dropped is gone. Without faults it is known which runs do, and
        which names there are. */
    method Operate(jobs: seq<Job>) returns (allStored: bool)
      requires Inv()
      modifies this, project
      ensures Inv() && old(ever) <= ever
      ensures forall k :: k !in ever ==> SameAt(k, old(project.vars), project.vars)
      ensures allStored && old(loose) == {} && jobs != [] ==> Holds(jobs[|jobs| - 1])
      ensures !project.faulty ==> (allStored <==> forall j :: j in jobs ==> j.Succeeds() && j.sequel.StoresStatus())
      ensures !project.faulty ==> Now() == AfterAll(old(Now()), jobs)
    {
      allStored := true;
      for i := 0 to |jobs|
        invariant Inv() && old(ever) <= ever
        invariant forall k :: k !in ever ==> SameAt(k, old(project.vars), project.vars)
        invariant allStored ==> loose <= old(loose)
        invariant allStored && old(loose) == {} && i > 0 ==> Holds(jobs[i - 1])
        invariant !project.faulty ==>
          (allStored <==> forall j :: 0 <= j < i ==> jobs[j].Succeeds() && jobs[j].sequel.StoresStatus())
        invariant !project.faulty ==> AfterAll(Now(), jobs[i..]) == AfterAll(old(Now()), jobs)
      {
        assert jobs[i..][0] == jobs[i] && jobs[i..][1..] == jobs[i + 1..];
        var ok, stored := Run(jobs[i]);
        allStored := allStored && stored;
      }
    }

    /** The server holds this spec's variables, and no others of those ever applied. */
    ghost predicate Holds(job: Job)
      reads this, project
    {
      HasValues(job) && forall k :: k in ever && k !in SpecNames(job.spec) ==> k !in project.vars
    }

    method FillIn(spec: seq<EnvVar>, secrets: Secrets) returns (ok: bool, variables: seq<Local>)
      ensures ok ==> Filled(secrets, spec, variables)
      ensures !AllValid(secrets, spec) ==> !ok
      ensures !project.faulty && AllValid(secrets, spec) ==> ok
    {
      ok, variables := true, [];
      for i := 0 to |spec|
        invariant ok ==> Filled(secrets, spec[..i], variables)
        invariant ok ==> forall j :: 0 <= j < i ==> ValueFromEnvVar(secrets, spec[j]).Value?
        invariant !project.faulty && AllValid(secrets, spec) ==> ok
      {
        var readable := CallSucceeds(project.faulty);
        var r := ValueFromEnvVar(secrets, spec[i]);
        if !readable || r.Invalid? {
          ok := false;
          continue;
        }
        variables := variables + [ToLocal(spec[i], r.value)];
      }
      assert spec[..|spec|] == spec;
    }
  }

  /** What a successful run has done: with unique names the values of the spec are there, and of
      the recorded variables those that the spec no longer has are not. */
  ghost predicate PlainlyApplied(spec: seq<EnvVar>, secrets: Secrets, record: seq<EnvVar>, vars: map<string, Remote>) {
    && PlainlyValid(spec, secrets)
    && ((forall i, j :: 0 <= i < j < |spec| ==> spec[i].name != spec[j].name) ==> PlainValues(spec, secrets, vars))
    && (forall v :: v in record && v.name in vars ==> exists w :: w in spec && w.name == v.name)
  }

  lemma InPlainTerms(job: Job, before: Names, record: seq<EnvVar>, vars: map<string, Remote>)
    requires job.Succeeds() && before.record == SpecNames(record) && vars.Keys == After(before, job).present
    requires forall v :: v in job.spec ==>
      v.name in vars && HasItsValue(vars[v.name], job.secrets, job.spec, v.name)
    ensures PlainlyApplied(job.spec, job.secrets, record, vars)
  {
    ValidIff(job.spec, job.secrets);
    if forall i, j :: 0 <= i < j < |job.spec| ==> job.spec[i].name != job.spec[j].name {
      ValuesInPlainTerms(job.spec, job.secrets, vars);
    }
    forall v | v in record && v.name in vars ensures exists w :: w in job.spec && w.name == v.name {
      assert v.name in SpecNames(record) && v.name in SpecNames(job.spec);
    }
  }

  lemma ManagedNames(managed: seq<string>, spec: seq<EnvVar>, record: seq<EnvVar>)
    requires |managed| == |spec| + |record|
    requires forall j :: 0 <= j < |spec| ==> managed[j] == spec[j].name
    requires forall j :: 0 <= j < |record| ==> managed[|spec| + j] == record[j].name
    ensures forall k :: k in managed <==> k in SpecNames(spec) || k in SpecNames(record)
  {
    forall k | k in SpecNames(record) ensures k in managed {
      var j :| 0 <= j < |record| && record[j].name == k;
      assert managed[|spec| + j] == k;
    }
    forall k | k in SpecNames(spec) ensures k in managed {
      var j :| 0 <= j < |spec| && spec[j].name == k;
      assert managed[j] == k;
    }
    forall k | k in managed ensures k in SpecNames(spec) || k in SpecNames(record) {
      var j :| 0 <= j < |managed| && managed[j] == k;
      if j < |spec| {
        assert spec[j] in spec;
      } else {
        assert record[j - |spec|] in record;
      }
    }
  }

  lemma AppliedHasValues(managed: seq<string>, variables: seq<Local>, vars: map<string, Remote>,
                         secrets: Secrets, spec: seq<EnvVar>)
    requires Applied(managed, variables, vars) && Filled(secrets, spec, variables)
    requires forall v :: v in spec ==> v.name in managed
    ensures forall v :: v in spec ==> v.name in vars && HasItsValue(vars[v.name], secrets, spec, v.name)
  {
    FilledNames(secrets, spec, variables);
    forall v | v in spec ensures v.name in vars && HasItsValue(vars[v.name], secrets, spec, v.name) {
      assert v.name in NamesIn(variables);
      var i :| 0 <= i < |variables| && variables[i].name == v.name && Matches(vars[v.name], variables[i]);
      assert spec[i].name == v.name;
    }
  }

  lemma FilledNames(secrets: Secrets, spec: seq<EnvVar>, variables: seq<Local>)
    requires Filled(secrets, spec, variables)
    ensures NamesIn(variables) == SpecNames(spec)
  {
  }
}
