/** Generated deploy keys: one secret and one status entry for each key the spec asks for. */
module GeneratedKeys {
  import opened Wrappers
  import Pipeline
  import Strings

  datatype Template = Template(kind: string, writeAccess: bool)

  datatype KeyStatus = KeyStatus(kind: string, key: string, writeAccess: bool, secretRef: string)

  /** A secret by its public key, missing when the secret lacks that field. */
  datatype KeySecret = KeySecret(pubkey: Option<string>)

  const PREFIX := "generated-"
  const INFIX := "-deploy-key-"

  /** How the entries and secrets of a GitRepo's generated keys are named. */
  datatype Naming = Naming(prefix: string, stem: string) {
    function Entry(base: string): string {
      prefix + base
    }

    /** What the slice after the prefix gives back. */
    function Base(entry: string): string
      requires prefix <= entry
    {
      entry[|prefix|..]
    }

    function Secret(base: string): string {
      stem + base
    }

    lemma Apart(a: string, b: string)
      ensures Entry(a) == Entry(b) ==> a == b
      ensures Secret(a) == Secret(b) ==> a == b
      ensures prefix <= Entry(a) && Base(Entry(a)) == a
    {
      assert a == Entry(a)[|prefix|..] && b == Entry(b)[|prefix|..];
      assert a == Secret(a)[|stem|..] && b == Secret(b)[|stem|..];
    }
  }

  function KindOf(pubkey: string): string {
    Strings.Split(pubkey, ' ')[0]
  }

  function KeyOf(pubkey: string): string
    requires TwoParts(pubkey)
  {
    Strings.Split(pubkey, ' ')[1]
  }

  /** The type is what stands before the first space, the key what stands between that and the
      next one, if any. */
  lemma PartsSpelled(pubkey: string)
    requires TwoParts(pubkey)
    ensures exists rest :: FirstTwo(pubkey, KindOf(pubkey), KeyOf(pubkey), rest)
  {
    var parts := Strings.Split(pubkey, ' ');
    Strings.SplitPieces(pubkey, ' ');
    assert parts == [parts[0]] + parts[1..] && parts[1..] == [parts[1]] + parts[2..];
    var rest := if |parts| == 2 then "" else " " + Strings.Join(parts[2..], ' ');
    assert Strings.Join(parts[1..], ' ') == parts[1] + rest;
    assert FirstTwo(pubkey, KindOf(pubkey), KeyOf(pubkey), rest);
  }

  /** kind and key are the first two words of the text. */
  predicate FirstTwo(pubkey: string, kind: string, key: string, rest: string) {
    && pubkey == kind + " " + key + rest && (rest == "" || rest[0] == ' ')
    && ' ' !in kind && ' ' !in key
  }

  predicate TwoParts(pubkey: string) {
    |Strings.Split(pubkey, ' ')| >= 2
  }

  /** The entry of a wanted key, given the one before and its secret's public key: an entry with
      the same key stays as it is, whatever its access. */
  function Refreshed(nm: Naming, before: map<string, KeyStatus>, base: string, pubkey: string, t: Template): KeyStatus
    requires TwoParts(pubkey)
  {
    var n := nm.Entry(base);
    if n in before && before[n].key == KeyOf(pubkey) then before[n]
    else KeyStatus(KindOf(pubkey), KeyOf(pubkey), t.writeAccess, nm.Secret(base))
  }

  /** The status entries and the secrets of the namespace. */
  datatype State = State(status: map<string, KeyStatus>, secrets: map<string, KeySecret>)

  /** The secret of a key is absent, so that it can be generated, or holds a public key. */
  predicate HasKey(nm: Naming, s: State, base: string) {
    nm.Secret(base) in s.secrets ==> s.secrets[nm.Secret(base)].pubkey.Some?
  }

  /** The entry of a wanted key is what its secret's public key asks for. */
  predicate UpToDate(nm: Naming, before: State, after: State, base: string, t: Template) {
    var ref := nm.Secret(base);
    && nm.Entry(base) in after.status
    && ref in after.secrets && after.secrets[ref].pubkey.Some? && TwoParts(after.secrets[ref].pubkey.value)
    && after.status[nm.Entry(base)] == Refreshed(nm, before.status, base, after.secrets[ref].pubkey.value, t)
  }

  predicate Unchanged(before: State, after: State, n: string) {
    (n in after.status <==> n in before.status) && (n in after.status ==> after.status[n] == before.status[n])
  }

  /** No secret present before was touched. */
  predicate Grown(before: State, after: State) {
    forall s :: s in before.secrets ==> s in after.secrets && after.secrets[s] == before.secrets[s]
  }

  ghost predicate Explained(nm: Naming, spec: map<string, Template>, done: set<string>,
                            before: State, after: State, n: string)
    requires done <= spec.Keys
  {
    exists base :: base in done && n == nm.Entry(base) && UpToDate(nm, before, after, base, spec[base])
  }

  /** Nothing but the wanted keys in done was touched: their entries are up to date or as
      before, their secrets kept, or generated where there were none. */
  ghost predicate Attended(nm: Naming, spec: map<string, Template>, done: set<string>, before: State, after: State)
    requires done <= spec.Keys
  {
    && Grown(before, after)
    && (forall s :: s in after.secrets && s !in before.secrets ==>
      exists base :: base in done && s == nm.Secret(base))
    && (forall n :: Unchanged(before, after, n) || Explained(nm, spec, done, before, after, n))
  }

  /** A key still to be attended to is as it was. */
  lemma NotYetAttended(nm: Naming, spec: map<string, Template>, done: set<string>,
                       before: State, after: State, base: string)
    requires done <= spec.Keys && base !in done && Attended(nm, spec, done, before, after)
    ensures Unchanged(before, after, nm.Entry(base))
    ensures HasKey(nm, after, base) <==> HasKey(nm, before, base)
  {
    forall b | b in done
      ensures nm.Entry(b) != nm.Entry(base) && nm.Secret(b) != nm.Secret(base)
    {
      nm.Apart(b, base);
    }
  }

  lemma AttendedOneMore(nm: Naming, spec: map<string, Template>, done: set<string>, base: string,
                        before: State, mid: State, after: State)
    requires done <= spec.Keys && base in spec && base !in done && Attended(nm, spec, done, before, mid)
    requires Grown(mid, after)
    requires forall s :: s in after.secrets && s !in mid.secrets ==> s == nm.Secret(base)
    requires forall n :: n != nm.Entry(base) ==> Unchanged(mid, after, n)
    requires after.status == mid.status || UpToDate(nm, mid, after, base, spec[base])
    ensures Attended(nm, spec, done + {base}, before, after)
    ensures UpToDate(nm, mid, after, base, spec[base]) ==>
      UpToDate(nm, before, after, base, spec[base])
    ensures forall b :: b in done && UpToDate(nm, before, mid, b, spec[b]) ==>
      UpToDate(nm, before, after, b, spec[b])
  {
    NotYetAttended(nm, spec, done, before, mid, base);
    forall b | b in done ensures Unchanged(mid, after, nm.Entry(b)) {
      nm.Apart(b, base);
    }
    forall n | !Unchanged(before, after, n) ensures Explained(nm, spec, done + {base}, before, after, n) {
      if n == nm.Entry(base) {
        assert base in done + {base};
      } else {
        assert Unchanged(mid, after, n) && !Unchanged(before, mid, n);
        var b :| b in done && n == nm.Entry(b) && UpToDate(nm, before, mid, b, spec[b]);
        assert b in done + {base};
      }
    }
  }

  predicate WellNamed(nm: Naming, status: map<string, KeyStatus>) {
    forall n :: n in status ==> nm.prefix <= n && status[n].secretRef == nm.Secret(nm.Base(n))
  }

  predicate Wanted(nm: Naming, spec: map<string, Template>, entry: string)
    requires nm.prefix <= entry
  {
    nm.Base(entry) in spec
  }

  function Refs(status: map<string, KeyStatus>, entries: set<string>): set<string>
    requires entries <= status.Keys
  {
    set n | n in entries :: status[n].secretRef
  }

  /** The first loop deleted the secrets of the unwanted entries in gone and nothing else, and
      dropped those of them whose deletion was confirmed. */
  ghost predicate Cleaned(nm: Naming, spec: map<string, Template>, dropped: set<string>, gone: set<string>,
                          before: State, mid: State)
    requires forall n :: n in before.status ==> nm.prefix <= n
  {
    && dropped <= gone <= before.status.Keys && mid.status == before.status - dropped
    && mid.secrets == before.secrets - Refs(before.status, gone)
    && forall n :: n in gone ==> !Wanted(nm, spec, n) && before.status[n].secretRef in before.secrets
  }

  /** Different entries have different secrets. */
  lemma RefsApart(nm: Naming, status: map<string, KeyStatus>, entries: set<string>, n: string)
    requires WellNamed(nm, status) && entries <= status.Keys && n in status && n !in entries
    ensures status[n].secretRef !in Refs(status, entries)
  {
    forall m | m in entries ensures status[m].secretRef != status[n].secretRef {
      nm.Apart(nm.Base(m), nm.Base(n));
      assert m == nm.Entry(nm.Base(m)) && n == nm.Entry(nm.Base(n));
    }
  }

  /** An entry leaves only with its secret, a wanted one is as before or up to date, and a new
      one is wanted. */
  ghost predicate LawfulEntries(nm: Naming, spec: map<string, Template>, before: State, after: State)
    requires forall n :: n in before.status ==> nm.prefix <= n
  {
    && (forall n :: n in before.status && n !in after.status ==> LeftWithSecret(nm, spec, before, after, n))
    && (forall n :: n in before.status && !Wanted(nm, spec, n) ==> n !in after.status || Unchanged(before, after, n))
    && (forall base :: base in spec ==>
      Unchanged(before, after, nm.Entry(base)) || UpToDate(nm, before, after, base, spec[base]))
    && (forall n :: n in after.status && n !in before.status ==> exists base :: base in spec && n == nm.Entry(base))
  }

  /** A secret is kept, or deleted for an unwanted entry, or generated where there was none. */
  ghost predicate LawfulSecrets(nm: Naming, spec: map<string, Template>, before: State, after: State)
    requires forall n :: n in before.status ==> nm.prefix <= n
  {
    && (forall s :: s in before.secrets && s in after.secrets ==> after.secrets[s] == before.secrets[s])
    && (forall s :: s in before.secrets && s !in after.secrets ==> DeletedFor(nm, spec, before, s))
    && (forall s :: s in after.secrets && s !in before.secrets ==> exists base :: base in spec && s == nm.Secret(base))
  }

  ghost predicate DeletedFor(nm: Naming, spec: map<string, Template>, before: State, s: string)
    requires forall n :: n in before.status ==> nm.prefix <= n
  {
    exists n :: n in before.status && !Wanted(nm, spec, n) && before.status[n].secretRef == s
  }

  /** What every run keeps to, with errors or without. */
  ghost predicate Lawful(nm: Naming, spec: map<string, Template>, before: State, after: State)
    requires forall n :: n in before.status ==> nm.prefix <= n
  {
    LawfulEntries(nm, spec, before, after) && LawfulSecrets(nm, spec, before, after)
  }

  /** An unwanted entry, gone together with its secret. */
  ghost predicate LeftWithSecret(nm: Naming, spec: map<string, Template>, before: State, after: State, n: string)
    requires n in before.status && nm.prefix <= n
  {
    var ref := before.status[n].secretRef;
    !Wanted(nm, spec, n) && ref in before.secrets && ref !in after.secrets
  }

  ghost predicate AllUpToDate(nm: Naming, spec: map<string, Template>, before: State, after: State) {
    forall base :: base in spec ==> UpToDate(nm, before, after, base, spec[base])
  }

  /** The entries are those wanted, each as its secret's public key asks. */
  ghost predicate Settled(nm: Naming, spec: map<string, Template>, before: State, after: State) {
    && (forall n :: n in after.status ==> nm.prefix <= n && Wanted(nm, spec, n))
    && AllUpToDate(nm, spec, before, after)
  }

  /** The entries and secrets of the wanted keys, by names and texts: each entry has the key that
      its secret's public key spells; a new one, or one with another key, also its type, and
      the access asked for. */
  ghost predicate PlainlySettled(nm: Naming, spec: map<string, Template>, before: State, after: State) {
    && (forall n :: n in after.status ==> exists base :: base in spec && n == nm.prefix + base)
    && forall base :: base in spec ==>
         var (n, ref) := (nm.prefix + base, nm.stem + base);
         && n in after.status && ref in after.secrets && after.secrets[ref].pubkey.Some?
         && var changed := n !in before.status || before.status[n] != after.status[n];
         && Spells(after.secrets[ref].pubkey.value, after.status[n], changed)
         && (changed ==>
               after.status[n].writeAccess == spec[base].writeAccess && after.status[n].secretRef == ref)
  }

  ghost predicate Spells(pubkey: string, k: KeyStatus, changed: bool) {
    exists kind, rest :: FirstTwo(pubkey, kind, k.key, rest) && (changed ==> kind == k.kind)
  }

  lemma PartsSpell(pubkey: string, k: KeyStatus, changed: bool)
    requires TwoParts(pubkey) && k.key == KeyOf(pubkey) && (changed ==> k.kind == KindOf(pubkey))
    ensures Spells(pubkey, k, changed)
  {
    PartsSpelled(pubkey);
    var rest :| FirstTwo(pubkey, KindOf(pubkey), KeyOf(pubkey), rest);
  }

  lemma InPlainTerms(nm: Naming, spec: map<string, Template>, before: State, after: State)
    requires Settled(nm, spec, before, after)
    ensures PlainlySettled(nm, spec, before, after)
  {
    forall n | n in after.status ensures exists base :: base in spec && n == nm.prefix + base {
      assert n == nm.prefix + nm.Base(n);
    }
    forall base | base in spec
      ensures Spells(after.secrets[nm.Secret(base)].pubkey.value, after.status[nm.Entry(base)],
                     nm.Entry(base) !in before.status || before.status[nm.Entry(base)] != after.status[nm.Entry(base)])
    {
      assert UpToDate(nm, before, after, base, spec[base]);
      var n := nm.Entry(base);
      PartsSpell(after.secrets[nm.Secret(base)].pubkey.value, after.status[n],
                 n !in before.status || before.status[n] != after.status[n]);
    }
  }

  /** Every entry is wanted and already what a run would make of it. */
  ghost predicate AtRest(nm: Naming, spec: map<string, Template>, s: State) {
    Settled(nm, spec, s, s)
  }

  /** When a run without faults meets no error: the secret of an unwanted entry must still be
      there to be deleted, and that of a wanted key may lack no public key. */
  ghost predicate Serviceable(nm: Naming, spec: map<string, Template>, before: State)
    requires forall n :: n in before.status ==> nm.prefix <= n
  {
    && (forall n :: n in before.status && !Wanted(nm, spec, n) ==> before.status[n].secretRef in before.secrets)
    && (forall base :: base in spec ==> HasKey(nm, before, base))
  }

  /** Cleaning up touches neither the entry nor the secret of a wanted key. */
  lemma WantedKept(nm: Naming, spec: map<string, Template>, dropped: set<string>, gone: set<string>,
       before: State, mid: State)
    requires WellNamed(nm, before.status) && Cleaned(nm, spec, dropped, gone, before, mid)
    ensures forall base :: base in spec ==> Unchanged(before, mid, nm.Entry(base))
    ensures forall base :: base in spec ==> var ref := nm.Secret(base);
      && (ref in mid.secrets <==> ref in before.secrets)
      && (HasKey(nm, mid, base) <==> HasKey(nm, before, base))
  {
    forall base, n | base in spec && n in gone
      ensures nm.Entry(base) != n && before.status[n].secretRef != nm.Secret(base)
    {
      nm.Apart(base, base);
      nm.Apart(nm.Base(n), base);
    }
  }

  /** Attending to wanted keys explains no unwanted entry. */
  lemma UnwantedUnchanged(nm: Naming, spec: map<string, Template>, mid: State, after: State, n: string)
    requires Attended(nm, spec, spec.Keys, mid, after) && nm.prefix <= n && !Wanted(nm, spec, n)
    ensures Unchanged(mid, after, n)
  {
  }

  lemma LeavesLawfully(nm: Naming, spec: map<string, Template>, dropped: set<string>, gone: set<string>,
                       before: State, mid: State, after: State)
    requires WellNamed(nm, before.status) && Cleaned(nm, spec, dropped, gone, before, mid)
    requires Attended(nm, spec, spec.Keys, mid, after)
    ensures forall n :: n in before.status ==> (n in dropped <==> n !in after.status)
    ensures LawfulEntries(nm, spec, before, after)
  {
    AttendedFromBefore(nm, spec, dropped, gone, before, mid, after);
    forall n | n in before.status && !Wanted(nm, spec, n) ensures Unchanged(mid, after, n) {
      UnwantedUnchanged(nm, spec, mid, after, n);
    }
    forall n | n in dropped ensures before.status[n].secretRef !in after.secrets {
      var ref := before.status[n].secretRef;
      assert ref !in mid.secrets;
      if ref in after.secrets {
        var base :| base in spec && ref == nm.Secret(base);
        nm.Apart(base, nm.Base(n));
      }
    }
    forall n | n in after.status && n !in before.status ensures exists base :: base in spec && n == nm.Entry(base) {
      assert !Unchanged(mid, after, n);
      assert Explained(nm, spec, spec.Keys, mid, after, n);
    }
    forall n | n in before.status && n !in dropped ensures n in after.status {
      assert n in mid.status && (Unchanged(mid, after, n) || Explained(nm, spec, spec.Keys, mid, after, n));
    }
  }

  lemma SecretsLawful(nm: Naming, spec: map<string, Template>, dropped: set<string>, gone: set<string>,
                      before: State, mid: State, after: State)
    requires WellNamed(nm, before.status) && Cleaned(nm, spec, dropped, gone, before, mid)
    requires Attended(nm, spec, spec.Keys, mid, after)
    ensures LawfulSecrets(nm, spec, before, after)
  {
    forall s | s in before.secrets && s in after.secrets ensures s in mid.secrets {
      if s !in mid.secrets {
        var n :| n in gone && before.status[n].secretRef == s;
        var base :| base in spec && s == nm.Secret(base);
        nm.Apart(base, nm.Base(n));
      }
    }
    forall s | s in before.secrets && s !in after.secrets
      ensures DeletedFor(nm, spec, before, s)
    {
      assert s !in mid.secrets;
      var n :| n in gone && before.status[n].secretRef == s;
    }
  }

  lemma AttendedFromBefore(nm: Naming, spec: map<string, Template>, dropped: set<string>, gone: set<string>,
                           before: State, mid: State, after: State)
    requires WellNamed(nm, before.status) && Cleaned(nm, spec, dropped, gone, before, mid)
    requires Attended(nm, spec, spec.Keys, mid, after)
    ensures forall base :: base in spec && UpToDate(nm, mid, after, base, spec[base]) ==>
      UpToDate(nm, before, after, base, spec[base])
    ensures forall base :: base in spec ==>
      Unchanged(before, after, nm.Entry(base)) || UpToDate(nm, before, after, base, spec[base])
    ensures (forall n :: n in mid.status ==>
      Wanted(nm, spec, n)) ==> forall n :: n in after.status ==> nm.prefix <= n && Wanted(nm, spec, n)
  {
    WantedKept(nm, spec, dropped, gone, before, mid);
    forall base | base in spec
      ensures Unchanged(before, mid, nm.Entry(base))
      ensures nm.prefix <= nm.Entry(base) && Wanted(nm, spec, nm.Entry(base))
    {
      nm.Apart(base, base);
    }
    forall base | base in spec && !Unchanged(mid, after, nm.Entry(base))
      ensures UpToDate(nm, mid, after, base, spec[base])
    {
      assert Explained(nm, spec, spec.Keys, mid, after, nm.Entry(base));
      var b :| b in spec && nm.Entry(b) == nm.Entry(base) && UpToDate(nm, mid, after, b, spec[b]);
      nm.Apart(b, base);
    }
    forall n | n in after.status && (forall m :: m in mid.status ==>
      Wanted(nm, spec, m)) ensures nm.prefix <= n && Wanted(nm, spec, n) {
      if !Unchanged(mid, after, n) {
        assert Explained(nm, spec, spec.Keys, mid, after, n);
      }
    }
  }

  /** Cleaning up and then attending to the wanted keys is a lawful run. */
  lemma RunLawful(nm: Naming, spec: map<string, Template>, dropped: set<string>, gone: set<string>,
       before: State, mid: State,
                  after: State)
    requires WellNamed(nm, before.status) && Cleaned(nm, spec, dropped, gone, before, mid)
    requires Attended(nm, spec, spec.Keys, mid, after)
    ensures Lawful(nm, spec, before, after)
    ensures (forall n :: n in mid.status ==> Wanted(nm, spec, n)) && AllUpToDate(nm, spec, mid, after) ==>
      Settled(nm, spec, before, after)
  {
    LeavesLawfully(nm, spec, dropped, gone, before, mid, after);
    SecretsLawful(nm, spec, dropped, gone, before, mid, after);
    AttendedFromBefore(nm, spec, dropped, gone, before, mid, after);
  }

  /** Meeting no error in cleaning up nor in attending to the wanted keys, when no call fails. */
  lemma ServiceableIff(nm: Naming, spec: map<string, Template>, dropped: set<string>, gone: set<string>,
       before: State, mid: State)
    requires WellNamed(nm, before.status) && Cleaned(nm, spec, dropped, gone, before, mid)
    ensures (forall n :: n in mid.status && !Wanted(nm, spec, n) ==> mid.status[n].secretRef !in before.secrets) ==>
      (Serviceable(nm, spec, before) <==>
        (forall n :: n in mid.status ==> Wanted(nm, spec, n)) && forall base :: base in spec ==> HasKey(nm, mid, base))
  {
    WantedKept(nm, spec, dropped, gone, before, mid);
  }

  /** What a successful run leaves is at rest: refreshing an entry twice is refreshing it once. */
  lemma SettlesItself(nm: Naming, spec: map<string, Template>, before: State, settled: State)
    requires Settled(nm, spec, before, settled)
    ensures AtRest(nm, spec, settled)
  {
    forall base | base in spec ensures UpToDate(nm, settled, settled, base, spec[base]) {
      assert UpToDate(nm, before, settled, base, spec[base]);
    }
  }

  lemma SettledIsServiceable(nm: Naming, spec: map<string, Template>, before: State, settled: State)
    requires Settled(nm, spec, before, settled)
    ensures Serviceable(nm, spec, settled)
  {
  }

  lemma EntryStays(nm: Naming, spec: map<string, Template>, before: State, settled: State, after: State, base: string)
    requires base in spec && UpToDate(nm, before, settled, base, spec[base])
    requires Unchanged(settled, after, nm.Entry(base)) || UpToDate(nm, settled, after, base, spec[base])
    requires nm.Secret(base) in after.secrets ==> after.secrets[nm.Secret(base)] == settled.secrets[nm.Secret(base)]
    ensures Unchanged(settled, after, nm.Entry(base))
  {
  }

  lemma SameEntries(nm: Naming, spec: map<string, Template>, settled: State, after: State)
    requires forall n :: n in settled.status ==> nm.prefix <= n && Wanted(nm, spec, n)
    requires forall base :: base in spec ==>
      nm.Entry(base) in settled.status && Unchanged(settled, after, nm.Entry(base))
    requires forall n :: n in after.status && n !in settled.status ==>
      exists base :: base in spec && n == nm.Entry(base)
    ensures after.status == settled.status
  {
    forall n | n in settled.status ensures Unchanged(settled, after, n) {
      assert n == nm.Entry(nm.Base(n));
    }
  }

  lemma StatusStays(nm: Naming, spec: map<string, Template>, before: State, settled: State, after: State)
    requires Settled(nm, spec, before, settled)
    requires LawfulEntries(nm, spec, settled, after) && LawfulSecrets(nm, spec, settled, after)
    ensures after.status == settled.status
  {
    forall base | base in spec ensures nm.Entry(base) in settled.status && Unchanged(settled, after, nm.Entry(base)) {
      EntryStays(nm, spec, before, settled, after, base);
    }
    SameEntries(nm, spec, settled, after);
  }

  lemma SecretsStay(nm: Naming, spec: map<string, Template>, before: State, settled: State, after: State)
    requires Settled(nm, spec, before, settled) && LawfulSecrets(nm, spec, settled, after)
    requires after.status == settled.status
    ensures after.secrets == settled.secrets
  {
  }

  lemma NothingLeftToDo(nm: Naming, spec: map<string, Template>, before: State, settled: State, after: State)
    requires Settled(nm, spec, before, settled) && Lawful(nm, spec, settled, after)
    ensures after == settled
  {
    StatusStays(nm, spec, before, settled, after);
    SecretsStay(nm, spec, before, settled, after);
  }

  /** A change of a key's access reaches its entry exactly when the entry is new or its key
      changed: an entry whose key is still that of its secret keeps its old access. */
  lemma AccessTakenOverIff(nm: Naming, spec: map<string, Template>, before: State, after: State, base: string)
    requires Settled(nm, spec, before, after) && base in spec
    ensures after.status[nm.Entry(base)].writeAccess == spec[base].writeAccess <==>
      || nm.Entry(base) !in before.status
      || before.status[nm.Entry(base)].key != KeyOf(after.secrets[nm.Secret(base)].pubkey.value)
      || before.status[nm.Entry(base)].writeAccess == spec[base].writeAccess
  {
  }

  class GitRepo {
    const nm: Naming
    /** Whether calls to the API server may fail. */
    const faulty: bool
    var spec: map<string, Template>
    var status: map<string, KeyStatus>
    var secrets: map<string, KeySecret>

    constructor (name: string, spec: map<string, Template>, secrets: map<string, KeySecret>, faulty: bool)
      ensures Valid() && nm == Naming("generated-", name + "-deploy-key-") && this.faulty == faulty
      ensures this.spec == spec && this.secrets == secrets && status == map[]
    {
      nm, this.faulty, this.spec, this.secrets, status := Naming(PREFIX, name + INFIX), faulty, spec, secrets, map[];
    }

    ghost function Now(): State
      reads this
    {
      State(status, secrets)
    }

    /** Every entry carries the prefix the slice relies on, and refers to the secret of its name. */
    ghost predicate Valid()
      reads this
    {
      WellNamed(nm, status)
    }

    /** The public keys at hand have the two parts the code reads. */
    ghost predicate Readable()
      reads this
    {
      forall s :: s in secrets && secrets[s].pubkey.Some? ==> TwoParts(secrets[s].pubkey.value)
    }

    /** Deletes the secret of an unwanted entry. The deletion may have been carried out although
        it was not confirmed. */
    method DeleteSecret(n: string) returns (ok: bool, ghost gone: bool)
      requires n in status
      modifies `secrets
      ensures secrets == if gone then old(secrets) - {status[n].secretRef} else old(secrets)
      ensures gone ==> status[n].secretRef in old(secrets)
      ensures ok ==> gone
      ensures !faulty ==> ok == gone == (status[n].secretRef in old(secrets))
    {
      var ref := status[n].secretRef;
      gone := false;
      var got := CallSucceeds(faulty);
      if !got || ref !in secrets { return false, gone; }
      var deleted := CallSucceeds(faulty);
      if !deleted { return false, gone; }
      secrets, gone := secrets - {ref}, true;
      ok := CallSucceeds(faulty);
    }

    /** Deletes the secrets of the entries no longer wanted, and then those entries whose secret
        was deleted. An entry whose secret is already gone stays, and is an error. */
    method DropUnwanted() returns (ok: bool, ghost dropped: set<string>, ghost gone: set<string>)
      requires Valid()
      modifies `status, `secrets
      ensures Valid()
      ensures Cleaned(nm, spec, dropped, gone, old(Now()), Now())
      ensures ok <==> forall n :: n in status ==> Wanted(nm, spec, n)
      ensures !faulty ==> forall n :: n in status && !Wanted(nm, spec, n) ==> status[n].secretRef !in old(secrets)
    {
      ok, gone := true, {};
      var deletions: set<string> := {};
      var rest := status.Keys;
      while rest != {}
        invariant rest <= status.Keys && deletions <= gone <= status.Keys - rest
        invariant status == old(status) && secrets == old(secrets) - Refs(status, gone)
        invariant forall n :: n in gone ==> !Wanted(nm, spec, n) && status[n].secretRef in old(secrets)
        invariant ok <==> forall n :: n in status - deletions && n !in rest ==> Wanted(nm, spec, n)
        invariant !faulty ==> forall n :: n in status - deletions && n !in rest && !Wanted(nm, spec, n) ==>
          status[n].secretRef !in old(secrets)
        decreases rest
      {
        var n: string :| n in rest;
        rest := rest - {n};
        if Wanted(nm, spec, n) { continue; }
        RefsApart(nm, status, gone, n);
        var deleted, went := DeleteSecret(n);
        assert Refs(status, gone + {n}) == Refs(status, gone) + {status[n].secretRef};
        if went { gone := gone + {n}; }
        if deleted {
          deletions := deletions + {n};
        } else {
          ok := false;
        }
      }
      dropped := deletions;
      status := status - deletions;
    }

    /** A new key pair: the public key is the type, a space and the encoded key. */
    method GenerateKey(t: Template) returns (pubkey: string)
      ensures TwoParts(pubkey) && KindOf(pubkey) == (if t.kind == "ssh-rsa" then "ssh-rsa" else "ssh-ed25519")
    {
      var body: string := *;
      body := if ' ' in body then "" else body;
      var kind := if t.kind == "ssh-rsa" then "ssh-rsa" else "ssh-ed25519";
      pubkey := kind + [' '] + body;
      Strings.SplitAfterWord(kind, ' ', body);
      Strings.SplitWord(body, ' ');
    }

    /** Generates the secret of a key. It may be there although that was not confirmed. */
    method CreateSecret(ref: string, t: Template) returns (ok: bool)
      requires Readable() && ref !in secrets
      modifies `secrets
      ensures Readable() && Grown(old(Now()), Now())
      ensures forall s :: s in secrets && s !in old(secrets) ==> s == ref && secrets[s].pubkey.Some?
      ensures ok ==> ref in secrets
      ensures !faulty ==> ok
    {
      var pubkey := GenerateKey(t);
      var created := CallSucceeds(faulty);
      if !created { return false; }
      secrets := secrets[ref := KeySecret(Some(pubkey))];
      ok := CallSucceeds(faulty);
    }

    /** One wanted key: take its secret, generating it only when there is none, and bring the
        entry up to date. */
    method EnsureKey(base: string) returns (ok: bool)
      requires Valid() && Readable() && base in spec
      modifies `status, `secrets
      ensures Valid() && Readable() && Grown(old(Now()), Now())
      ensures forall s :: s in secrets && s !in old(secrets) ==> s == nm.Secret(base)
      ensures forall n :: n != nm.Entry(base) ==> Unchanged(old(Now()), Now(), n)
      ensures if ok then UpToDate(nm, old(Now()), Now(), base, spec[base]) else status == old(status)
      ensures !faulty ==> (ok <==> HasKey(nm, old(Now()), base))
    {
      var ref := nm.Secret(base);
      var reached := CallSucceeds(faulty);
      if !reached { return false; }
      if ref !in secrets {
        var created := CreateSecret(ref, spec[base]);
        if !created { return false; }
      }
      var secret := secrets[ref];
      if secret.pubkey.None? { return false; }
      var parts := Strings.Split(secret.pubkey.value, ' ');
      var n := nm.Entry(base);
      nm.Apart(base, base);
      if n !in status || status[n].key != parts[1] {
        status := status[n := KeyStatus(parts[0], parts[1], spec[base].writeAccess, ref)];
      }
      return true;
    }

    /** The second loop: every wanted key in turn. */
    method EnsureWanted() returns (ok: bool)
      requires Valid() && Readable()
      modifies `status, `secrets
      ensures Valid() && Readable()
      ensures Attended(nm, spec, spec.Keys, old(Now()), Now())
      ensures ok ==> AllUpToDate(nm, spec, old(Now()), Now())
      ensures !faulty ==> (ok <==> forall base :: base in spec ==> HasKey(nm, old(Now()), base))
    {
      ok := true;
      var rest := spec.Keys;
      ghost var done := {};
      while rest != {}
        invariant rest == spec.Keys - done && done <= spec.Keys && Valid() && Readable()
        invariant Attended(nm, spec, done, old(Now()), Now())
        invariant ok ==> forall base :: base in done ==>
          UpToDate(nm, old(Now()), Now(), base, spec[base])
        invariant !faulty ==> (ok <==> forall base :: base in done ==> HasKey(nm, old(Now()), base))
        decreases rest
      {
        var base: string :| base in rest;
        ghost var mid := Now();
        NotYetAttended(nm, spec, done, old(Now()), mid, base);
        var served := EnsureKey(base);
        AttendedOneMore(nm, spec, done, base, old(Now()), mid, Now());
        ok, rest, done := ok && served, rest - {base}, done + {base};
      }
      assert done == spec.Keys;
    }

    /** One run of the step. Without an error the entries are exactly the wanted ones, each with
        its secret's public key. */
    method EnsureGeneratedDeployKeys() returns (ok: bool)
      requires Valid() && Readable()
      modifies `status, `secrets
      ensures Valid() && Readable()
      ensures Lawful(nm, spec, old(Now()), Now())
      ensures ok ==> Settled(nm, spec, old(Now()), Now()) && AtRest(nm, spec, Now())
      ensures ok ==> PlainlySettled(nm, spec, old(Now()), Now())
      // once at rest, a run does nothing whatever fails, and errs only if a call fails
      ensures old(AtRest(nm, spec, Now())) ==> Now() == old(Now()) && (!faulty ==> ok)
      ensures !faulty ==> (ok <==> Serviceable(nm, spec, old(Now())))
    {
      ghost var before := Now();
      var cleaned, dropped, gone := DropUnwanted();
      ghost var mid := Now();
      var served := EnsureWanted();
      ok := cleaned && served;
      RunLawful(nm, spec, dropped, gone, before, mid, Now());
      ServiceableIff(nm, spec, dropped, gone, before, mid);
      if ok {
        SettlesItself(nm, spec, before, Now());
        InPlainTerms(nm, spec, before, Now());
      }
      if AtRest(nm, spec, before) {
        NothingLeftToDo(nm, spec, before, before, Now());
        SettledIsServiceable(nm, spec, before, before);
      }
    }
  }

  /** The secret of an entry that a successful run dropped is gone. */
  lemma DroppedSecretGone(nm: Naming, spec: map<string, Template>, before: State, after: State, n: string)
    requires WellNamed(nm, before.status) && LawfulEntries(nm, spec, before, after)
    requires forall m :: m in after.status ==> nm.prefix <= m && Wanted(nm, spec, m)
    requires n in before.status && !Wanted(nm, spec, n)
    ensures before.status[n].secretRef !in after.secrets
  {
    assert LeftWithSecret(nm, spec, before, after, n);
  }

  /** A run whose status is lost, though it succeeded, has the next one err exactly if an entry
      was dropped: its secret is gone, and the entry is back. */
  lemma LostStatusIff(nm: Naming, spec: map<string, Template>, before: State, after: State)
    requires WellNamed(nm, before.status) && LawfulEntries(nm, spec, before, after)
    requires Settled(nm, spec, before, after)
    ensures Serviceable(nm, spec, State(before.status, after.secrets)) <==>
      forall n :: n in before.status ==> Wanted(nm, spec, n)
  {
    SettledIsServiceable(nm, spec, before, after);
    forall base | base in spec ensures HasKey(nm, State(before.status, after.secrets), base) {
      assert HasKey(nm, after, base);
    }
    if n :| n in before.status && !Wanted(nm, spec, n) {
      DroppedSecretGone(nm, spec, before, after, n);
    }
  }

  /** The entry is unwanted, and its secret is gone already. */
  predicate StuckAt(nm: Naming, spec: map<string, Template>, s: State, n: string) {
    n in s.status && nm.prefix <= n && !Wanted(nm, spec, n) && s.status[n].secretRef !in s.secrets
  }

  ghost predicate Stuck(nm: Naming, spec: map<string, Template>, s: State) {
    exists n :: StuckAt(nm, spec, s, n)
  }

  /** No run gets rid of such an entry, nor succeeds, as long as the key is not wanted again. */
  lemma StuckStays(nm: Naming, spec: map<string, Template>, before: State, after: State)
    requires WellNamed(nm, before.status) && Lawful(nm, spec, before, after) && Stuck(nm, spec, before)
    ensures !Settled(nm, spec, before, after)
    ensures Stuck(nm, spec, after) && Stuck(nm, spec, State(before.status, after.secrets))
  {
    var n :| StuckAt(nm, spec, before, n);
    var ref := before.status[n].secretRef;
    assert n in after.status && Unchanged(before, after, n);
    if ref in after.secrets {
      var base :| base in spec && ref == nm.Secret(base);
      nm.Apart(nm.Base(n), base);
    }
    assert StuckAt(nm, spec, after, n) && StuckAt(nm, spec, State(before.status, after.secrets), n);
  }

  /** The only key is dropped, in a run that loses its status: its entry is back, its secret is
      gone, and no later run succeeds. */
  lemma DroppedKeyComesBack(nm: Naming, base: string, text: string)
    requires TwoParts(text)
    ensures var entry := KeyStatus(KindOf(text), KeyOf(text), false, nm.Secret(base));
      var before, after :=
        State(map[nm.Entry(base) := entry], map[nm.Secret(base) := KeySecret(Some(text))]), State(map[], map[]);
      && WellNamed(nm, before.status) && Serviceable(nm, map[], before)
      && Lawful(nm, map[], before, after) && Settled(nm, map[], before, after)
      && Stuck(nm, map[], State(before.status, after.secrets))
  {
    nm.Apart(base, base);
    var entry := KeyStatus(KindOf(text), KeyOf(text), false, nm.Secret(base));
    var before, after :=
      State(map[nm.Entry(base) := entry], map[nm.Secret(base) := KeySecret(Some(text))]), State(map[], map[]);
    assert LeftWithSecret(nm, map[], before, after, nm.Entry(base));
    assert StuckAt(nm, map[], State(before.status, after.secrets), nm.Entry(base));
  }

  /** The step over the life of the object. stored is the status on the API server. */
  class History {
    const repo: GitRepo
    var stored: map<string, KeyStatus>

    constructor (repo: GitRepo)
      requires repo.Valid() && repo.Readable()
      ensures Valid() && this.repo == repo && stored == repo.status
    {
      this.repo, stored := repo, repo.status;
    }

    ghost predicate Valid()
      reads this, repo
    {
      repo.Valid() && repo.Readable() && WellNamed(repo.nm, stored)
    }

    /** One reconcile. An error of this step stores the status at once. */
    method Reconcile(sequel: Pipeline.Sequel) returns (ok: bool)
      requires Valid()
      modifies this, repo`status, repo`secrets
      ensures Valid()
      ensures Lawful(repo.nm, repo.spec, State(old(stored), old(repo.secrets)), repo.Now())
      ensures stored == old(stored) || stored == repo.status
      ensures !repo.faulty ==> (ok <==> Serviceable(repo.nm, repo.spec, State(old(stored), old(repo.secrets))))
      ensures !repo.faulty ==> stored == if ok && !sequel.StoresStatus() then old(stored) else repo.status
      ensures AtRest(repo.nm, repo.spec, State(old(stored), old(repo.secrets))) ==>
        stored == old(stored) && repo.secrets == old(repo.secrets)
      // stuck for good, and whether the next run can succeed
      ensures Stuck(repo.nm, repo.spec, State(old(stored), old(repo.secrets))) ==>
        !ok && Stuck(repo.nm, repo.spec, State(stored, repo.secrets))
      ensures !repo.faulty && ok ==>
        (Serviceable(repo.nm, repo.spec, State(stored, repo.secrets)) <==>
          sequel.StoresStatus() || forall n :: n in old(stored) ==> Wanted(repo.nm, repo.spec, n))
    {
      repo.status := stored;
      ghost var before := repo.Now();
      ok := repo.EnsureGeneratedDeployKeys();
      if ok {
        LostStatusIff(repo.nm, repo.spec, before, repo.Now());
        SettledIsServiceable(repo.nm, repo.spec, before, repo.Now());
      }
      if Stuck(repo.nm, repo.spec, before) {
        StuckStays(repo.nm, repo.spec, before, repo.Now());
      }
      var written := CallSucceeds(repo.faulty);
      if written && (!ok || sequel.StoresStatus()) {
        stored := repo.status;
      }
    }
  }
}
