/** Cluster facts as Prometheus labels: keys are normalised, repeated keys numbered, and a metric
    is emitted only when the labels are pairwise distinct. */
module Labels {
  import opened Wrappers
  import Sorting
  import Strings

  // ---- Characters and names ----

  predicate IsLetter(c: char) {
    'a' <= c <= 'z' || 'A' <= c <= 'Z'
  }

  predicate MayStart(c: char) {
    IsLetter(c) || c == '_'
  }

  predicate MayFollow(c: char) {
    MayStart(c) || Strings.IsDigit(c)
  }

  /** The Prometheus data model for label names. */
  predicate LabelName(s: string) {
    s != "" && MayStart(s[0]) && forall i :: 0 < i < |s| ==> MayFollow(s[i])
  }

  const PROTECTED := ["cluster", "tenant"]

  /** A label name the operator may emit beside its own: well-formed, not reserved, not taken. */
  predicate Emittable(s: string) {
    LabelName(s) && !("__" <= s) && s !in PROTECTED
  }

  // ---- Numbering ----

  /** How often k occurs. */
  function Count(ks: seq<string>, k: string): nat {
    multiset(ks)[k]
  }

  function Numbered(k: string, n: nat): (r: string) {
    if n == 0 then k else k + "_" + Strings.Itoa(n)
  }

  /** Key and number can be read back from a numbered key: the number holds no underscore. */
  lemma NumberedInjective(k: string, m: nat, l: string, n: nat)
    requires m > 0 && n > 0 && Numbered(k, m) == Numbered(l, n)
    ensures k == l && m == n
  {
    var s := Numbered(k, m);
    assert s[|k|] == '_' && s[|l|] == '_';
    assert forall i :: |k| < i < |s| ==> s[i] == Strings.Itoa(m)[i - |k| - 1];
    assert forall i :: |l| < i < |s| ==> s[i] == Strings.Itoa(n)[i - |l| - 1];
    assert |k| == |l|;
    assert k == s[..|k|] == l;
    assert Strings.Itoa(m) == s[|k| + 1..] == Strings.Itoa(n);
    Strings.ItoaInjective(m, n);
  }

  /** The label of the i-th key: the key itself the first time, then with the number of its
      earlier occurrences. */
  function LabelAt(ks: seq<string>, i: nat): string
    requires i < |ks|
  {
    Numbered(ks[i], Count(ks[..i], ks[i]))
  }

  function Emitted(ks: seq<string>): (r: seq<string>)
    ensures |r| == |ks|
  {
    seq(|ks|, (i: nat) requires i < |ks| => LabelAt(ks, i))
  }

  lemma CountOneMore(ks: seq<string>, i: nat, k: string)
    requires i < |ks|
    ensures Count(ks[..i + 1], k) == Count(ks[..i], k) + if ks[i] == k then 1 else 0
  {
    assert ks[..i + 1] == ks[..i] + [ks[i]];
  }

  lemma {:induction false} CountGrows(ks: seq<string>, i: nat, j: nat, k: string)
    requires i <= j <= |ks|
    ensures Count(ks[..i], k) <= Count(ks[..j], k)
    ensures i < j && ks[i] == k ==> Count(ks[..i], k) < Count(ks[..j], k)
    decreases j
  {
    if i < j {
      CountGrows(ks, i, j - 1, k);
      CountOneMore(ks, j - 1, k);
    }
  }

  /** The n-th repetition of a key that occurs more than n times. */
  lemma {:induction false} Occurrence(ks: seq<string>, k: string, n: nat, upto: nat) returns (i: nat)
    requires upto <= |ks| && n < Count(ks[..upto], k)
    ensures i < upto && ks[i] == k && Count(ks[..i], k) == n
    decreases upto
  {
    CountOneMore(ks, upto - 1, k);
    if n < Count(ks[..upto - 1], k) {
      i := Occurrence(ks, k, n, upto - 1);
    } else {
      i := upto - 1;
    }
  }

  /** Some key is spelled like the numbered repetition of another. */
  ghost predicate Clash(ks: seq<string>) {
    exists i: nat, n: nat :: i < |ks| && 1 <= n < Count(ks, ks[i]) && Numbered(ks[i], n) in ks
  }

  lemma ClashRepeats(ks: seq<string>, i: nat, n: nat)
    requires i < |ks| && 1 <= n < Count(ks, ks[i]) && Numbered(ks[i], n) in ks
    ensures !Strings.Distinct(Emitted(ks))
  {
    var taken := Numbered(ks[i], n);
    assert ks[..|ks|] == ks;
    var a := Occurrence(ks, ks[i], n, |ks|);
    assert taken in multiset(ks);
    var b := Occurrence(ks, taken, 0, |ks|);
    assert ks[a] != ks[b] by { assert |taken| > |ks[i]|; }
    assert Emitted(ks)[a] == taken == Emitted(ks)[b];
  }

  /** Repetitions of one key have different numbers. */
  lemma SameKeySamePlace(ks: seq<string>, i: nat, j: nat)
    requires i < |ks| && j < |ks| && LabelAt(ks, i) == LabelAt(ks, j)
    ensures ks[i] == ks[j] ==> i == j
  {
    var m, n := Count(ks[..i], ks[i]), Count(ks[..j], ks[j]);
    if ks[i] == ks[j] {
      if m > 0 && n > 0 { NumberedInjective(ks[i], m, ks[j], n); }
      assert m == n;
      if i < j { CountGrows(ks, i, j, ks[i]); }
      if j < i { CountGrows(ks, j, i, ks[i]); }
    }
  }

  lemma RepeatClashes(ks: seq<string>, i: nat, j: nat)
    requires i < |ks| && j < |ks| && i != j && LabelAt(ks, i) == LabelAt(ks, j)
    ensures Clash(ks)
  {
    var m, n := Count(ks[..i], ks[i]), Count(ks[..j], ks[j]);
    CountGrows(ks, i, |ks|, ks[i]);
    CountGrows(ks, j, |ks|, ks[j]);
    assert ks[..|ks|] == ks;
    if m > 0 && n > 0 {
      NumberedInjective(ks[i], m, ks[j], n);
    }
    assert ks[i] != ks[j] by { SameKeySamePlace(ks, i, j); }
    if m == 0 {
      assert Numbered(ks[j], n) in ks;
    } else {
      assert Numbered(ks[i], m) in ks;
    }
  }

  /** The emitted labels are pairwise distinct exactly when no key clashes with a numbered one. */
  lemma DistinctIff(ks: seq<string>)
    ensures Strings.Distinct(Emitted(ks)) <==> !Clash(ks)
  {
    if Clash(ks) {
      var i: nat, n: nat :| i < |ks| && 1 <= n < Count(ks, ks[i]) && Numbered(ks[i], n) in ks;
      ClashRepeats(ks, i, n);
    }
    if !Strings.Distinct(Emitted(ks)) {
      var i, j :| 0 <= i < j < |Emitted(ks)| && Emitted(ks)[i] == Emitted(ks)[j];
      RepeatClashes(ks, i, j);
    }
  }

  lemma NumberedEmittable(k: string, n: nat)
    requires Emittable(k) && k != "_"
    ensures Emittable(Numbered(k, n))
  {
    if n > 0 {
      var s := Numbered(k, n);
      assert forall i :: |k| < i < |s| ==> s[i] == Strings.Itoa(n)[i - |k| - 1];
      assert forall i :: 0 <= i < |k| ==> s[i] == k[i];
      assert Strings.IsDigit(s[|s| - 1]);
      assert |k| == 1 ==> k == [s[0]];
      assert s[0] != '_' || s[1] != '_';
    }
  }

  // ---- Normalising ----

  /** Replaces every character a label may not hold at its place. */
  function Replace(key: string): (r: string)
    ensures |r| == |key|
    ensures forall i :: 0 <= i < |key| ==>
      r[i] == if MayFollow(key[i]) && (i == 0 ==> MayStart(key[i])) then key[i] else '_'
  {
    seq(|key|, i requires 0 <= i < |key| =>
      if MayFollow(key[i]) && (i == 0 ==> MayStart(key[i])) then key[i] else '_')
  }

  function NormalizeLabelKey(key: string, protected: seq<string>, prefix: string): string {
    if key == "" then "_empty"
    else
      var replaced := Replace(key);
      var prefixed := if replaced[0] == '_' then prefix + replaced else replaced;
      if prefixed in protected then "orig_" + prefixed else prefixed
  }

  const FACT := "fact_"

  function Normalize(key: string): string {
    NormalizeLabelKey(key, PROTECTED, FACT)
  }

  lemma ReplaceIsName(key: string)
    requires key != ""
    ensures LabelName(Replace(key))
    ensures LabelName(key) ==> Replace(key) == key
  {
  }

  lemma PrefixedName(prefix: string, s: string)
    requires LabelName(prefix) && |prefix| > 1 && prefix[0] != '_' && LabelName(s)
    ensures LabelName(prefix + s) && !("__" <= prefix + s)
  {
  }

  predicate Plain(c: char) {
    'a' <= c <= 'z' || 'A' <= c <= 'Z' || '0' <= c <= '9' || c == '_'
  }

  /** A key keeps its letters, digits and underscores, has underscores for all else and for a
      digit in front, and gets a prefix if it then starts with an underscore or is taken. */
  lemma NormalizeSpelled(key: string) returns (r: string)
    requires key != ""
    ensures |r| == |key|
    ensures forall i :: 0 <= i < |key| ==>
      r[i] == if Plain(key[i]) && (i > 0 || !('0' <= key[i] <= '9')) then key[i] else '_'
    ensures Normalize(key) ==
      if r[0] == '_' then "fact_" + r else if r == "cluster" || r == "tenant" then "orig_" + r else r
  {
    r := Replace(key);
    assert |"fact_" + r| > 5 && ("fact_" + r)[4] == '_' && "cluster"[4] == 't' && "tenant"[4] == 'n';
  }

  /** A key's first occurrence keeps it, and a later one has the number of earlier ones behind. */
  lemma EmittedSpelled(ks: seq<string>, i: nat)
    requires i < |ks|
    ensures ks[i] !in ks[..i] ==> Emitted(ks)[i] == ks[i]
    ensures ks[i] in ks[..i] ==> Emitted(ks)[i] == ks[i] + "_" + Strings.Itoa(multiset(ks[..i])[ks[i]])
  {
    assert ks[i] in ks[..i] <==> ks[i] in multiset(ks[..i]);
  }

  /** Every key normalises to a label the operator may emit. */
  lemma NormalizeEmittable(key: string)
    ensures Emittable(Normalize(key)) && Normalize(key) != "_"
    ensures Emittable(key) && key[0] != '_' ==> Normalize(key) == key
  {
    if key == "" {
      assert Normalize(key)[1] == 'e' && |Normalize(key)| == 6;
    } else {
      ReplaceIsName(key);
      var replaced := Replace(key);
      PrefixedName(FACT, replaced);
      assert |FACT + replaced| > 5 && (FACT + replaced)[4] == '_';
      assert |"cluster"| == 7 && "cluster"[4] == 't' && |"tenant"| == 6 && "tenant"[4] == 'n';
      if replaced[0] != '_' {
        assert !("__" <= replaced);
        PrefixedName("orig_", replaced);
        assert (("orig_") + replaced)[0] == 'o';
      }
    }
  }

  // ---- Facts in order ----

  type Pair = (string, string)

  function Compare(a: string, b: string): int {
    if a == b then 0 else if Strings.Below(a, b) then -1 else 1
  }

  /** Comparing keys ten times as strongly as values is comparing pairs lexicographically. */
  predicate PairAtMost(a: Pair, b: Pair) {
    10 * Compare(a.0, b.0) + Compare(a.1, b.1) <= 0
  }

  lemma PairAtMostIff(a: Pair, b: Pair)
    ensures PairAtMost(a, b) <==> Strings.Below(a.0, b.0) || (a.0 == b.0 && Strings.AtMost(a.1, b.1))
  {
    Strings.BelowTotal(a.0, b.0);
    Strings.BelowTotal(a.1, b.1);
  }

  lemma PairsOrdered()
    ensures Sorting.Orders(PairAtMost)
  {
    forall a: Pair, b: Pair ensures PairAtMost(a, b) || PairAtMost(b, a) {
      Strings.BelowTotal(a.0, b.0);
      Strings.BelowTotal(a.1, b.1);
    }
    forall a: Pair, b: Pair, c: Pair | PairAtMost(a, b) && PairAtMost(b, c) ensures PairAtMost(a, c) {
      PairAtMostIff(a, b);
      PairAtMostIff(b, c);
      PairAtMostIff(a, c);
      if a.0 != b.0 && b.0 != c.0 { Strings.BelowTransitive(a.0, b.0, c.0); }
      if a.0 == b.0 == c.0 { Strings.AtMostTransitive(a.1, b.1, c.1); }
    }
  }

  /** keys lists the facts' keys in order. */
  ghost predicate InOrder(facts: map<string, string>, keys: seq<string>) {
    && (forall k :: k in keys <==> k in facts)
    && (forall i, j :: 0 <= i < j < |keys| ==> Strings.Below(keys[i], keys[j]))
  }

  function ValuesOf(facts: map<string, string>, keys: seq<string>): (r: seq<string>)
    requires forall k :: k in keys ==> k in facts
    ensures |r| == |keys|
  {
    seq(|keys|, i requires 0 <= i < |keys| => facts[keys[i]])
  }

  /** The entries of a map, in no particular order. */
  method Collect(m: map<string, string>) returns (p: seq<Pair>)
    ensures forall q :: q in p <==> q.0 in m && q.1 == m[q.0]
    ensures forall i, j :: 0 <= i < j < |p| ==> p[i].0 != p[j].0
  {
    p := [];
    var rest := m.Keys;
    while rest != {}
      invariant rest <= m.Keys
      invariant forall q :: q in p <==> q.0 in m && q.0 !in rest && q.1 == m[q.0]
      invariant forall i, j :: 0 <= i < j < |p| ==> p[i].0 != p[j].0
      decreases rest
    {
      var k: string :| k in rest;
      p, rest := p + [(k, m[k])], rest - {k};
    }
  }

  method Unzip(p: seq<Pair>) returns (keys: seq<string>, values: seq<string>)
    ensures |keys| == |values| == |p|
    ensures forall i :: 0 <= i < |p| ==> keys[i] == p[i].0 && values[i] == p[i].1
  {
    keys, values := [], [];
    for i := 0 to |p|
      invariant |keys| == |values| == i
      invariant forall j :: 0 <= j < i ==> keys[j] == p[j].0 && values[j] == p[j].1
    {
      keys, values := keys + [p[i].0], values + [p[i].1];
    }
  }

  /** The keys and values of a map in the order of the keys. */
  method Pairs(m: map<string, string>) returns (keys: seq<string>, values: seq<string>)
    ensures InOrder(m, keys) && values == ValuesOf(m, keys)
  {
    var p := Collect(m);
    PairsOrdered();
    var sorted := Sorting.SortBy(PairAtMost, p);
    SortedPairs(p, sorted);
    keys, values := Unzip(sorted);
    Unzipped(m, sorted, keys);
  }

  lemma Unzipped(m: map<string, string>, pairs: seq<Pair>, keys: seq<string>)
    requires |keys| == |pairs| && forall i :: 0 <= i < |keys| ==> keys[i] == pairs[i].0
    requires forall q :: q in pairs <==> q.0 in m && q.1 == m[q.0]
    ensures forall k :: k in keys <==> k in m
    ensures forall i :: 0 <= i < |keys| ==> pairs[i].1 == m[keys[i]]
  {
    forall k ensures k in keys <==> k in m {
      if k in m { assert (k, m[k]) in pairs; }
      if k in keys {
        var i :| 0 <= i < |keys| && keys[i] == k;
        assert pairs[i] in pairs;
      }
    }
    forall i | 0 <= i < |keys| ensures pairs[i].1 == m[keys[i]] { assert pairs[i] in pairs; }
  }

  lemma SortedPairs(p: seq<Pair>, sorted: seq<Pair>)
    requires multiset(p) == multiset(sorted) && Sorting.SortedBy(PairAtMost, sorted)
    requires forall i, j :: 0 <= i < j < |p| ==> p[i].0 != p[j].0
    ensures |p| == |sorted| && forall q :: q in p <==> q in sorted
    ensures forall i, j :: 0 <= i < j < |sorted| ==> Strings.Below(sorted[i].0, sorted[j].0)
  {
    assert |multiset(p)| == |p| && |multiset(sorted)| == |sorted|;
    Strings.SameMembers(p, sorted);
    assert Strings.Distinct(p);
    Strings.DistinctMultiset(p);
    Strings.DistinctMultiset(sorted);
    forall i, j | 0 <= i < j < |sorted| ensures Strings.Below(sorted[i].0, sorted[j].0) {
      assert sorted[i] in p && sorted[j] in p && sorted[i] != sorted[j];
      assert sorted[i].0 != sorted[j].0;
      PairAtMostIff(sorted[i], sorted[j]);
    }
  }

  // ---- The metric ----

  datatype Metric = Metric(labels: seq<string>, values: seq<string>)

  method NormalizeKeys(rks: seq<string>) returns (ks: array<string>)
    ensures fresh(ks) && ks[..] == Normalized(rks)
  {
    ks := new string[|rks|];
    for i := 0 to |rks|
      invariant forall j :: 0 <= j < i ==> ks[j] == Normalize(rks[j])
    {
      ks[i] := Normalize(rks[i]);
    }
  }

  function Normalized(rks: seq<string>): (r: seq<string>)
    ensures |r| == |rks|
  {
    seq(|rks|, i requires 0 <= i < |rks| => Normalize(rks[i]))
  }

  method Deduplicate(ks: array<string>)
    modifies ks
    ensures ks[..] == Emitted(old(ks[..]))
  {
    ghost var was := ks[..];
    var seen: map<string, nat> := map[];
    for i := 0 to ks.Length
      invariant forall j :: 0 <= j < i ==> ks[j] == LabelAt(was, j)
      invariant forall j :: i <= j < ks.Length ==> ks[j] == was[j]
      invariant forall k :: (k in seen <==> Count(was[..i], k) > 0) && (k in seen ==> seen[k] == Count(was[..i], k))
    {
      var k := ks[i];
      if k in seen {
        ks[i] := k + "_" + Strings.Itoa(seen[k]);
      }
      forall l ensures Count(was[..i + 1], l) == Count(was[..i], l) + if was[i] == l then 1 else 0 {
        CountOneMore(was, i, l);
      }
      seen := seen[k := (if k in seen then seen[k] else 0) + 1];
    }
  }

  /** The library refuses a metric whose label names repeat or are not names. */
  predicate Accepted(labels: seq<string>) {
    Strings.Distinct(labels) && forall i :: 0 <= i < |labels| ==> LabelName(labels[i])
  }

  /** The labels cluster and tenant carry those two names, and every further label the fact whose
      key it was made from. */
  ghost predicate PlainMetric(m: Metric, cluster: string, tenant: string, facts: map<string, string>,
                              keys: seq<string>)
  {
    && |m.labels| == |m.values| == |keys| + 2
    && m.labels[0] == "cluster" && m.values[0] == cluster && m.labels[1] == "tenant" && m.values[1] == tenant
    && forall i :: 0 <= i < |keys| ==> keys[i] in facts && m.values[i + 2] == facts[keys[i]]
  }

  /** The metric of a cluster's facts, or none when the library refuses it. */
  method ClusterFacts(cluster: string, tenant: string, facts: map<string, string>)
    returns (m: Option<Metric>, ghost keys: seq<string>)
    ensures InOrder(facts, keys)
    ensures m == if Clash(Normalized(keys)) then None else
      Some(Metric(PROTECTED + Emitted(Normalized(keys)), [cluster, tenant] + ValuesOf(facts, keys)))
    ensures m.Some? ==> PlainMetric(m.value, cluster, tenant, facts, keys)
  {
    var rks, vs := Pairs(facts);
    keys := rks;
    var ks := NormalizeKeys(rks);
    Deduplicate(ks);
    var labels, values := PROTECTED + ks[..], [cluster, tenant] + vs;
    FactLabels(rks);
    DistinctIff(Normalized(rks));
    DistinctBeside(Emitted(Normalized(rks)));
    m := if Accepted(labels) then Some(Metric(labels, values)) else None;
  }

  /** Whatever the facts are called, every label beside the operator's own is one it may emit. */
  lemma FactLabels(rks: seq<string>)
    ensures forall i :: 0 <= i < |rks| ==> Emittable(Emitted(Normalized(rks))[i])
  {
    forall i | 0 <= i < |rks| ensures Emittable(Emitted(Normalized(rks))[i]) {
      NormalizeEmittable(rks[i]);
      NumberedEmittable(Normalize(rks[i]), Count(Normalized(rks)[..i], Normalize(rks[i])));
    }
  }

  lemma DistinctBeside(labels: seq<string>)
    requires forall i :: 0 <= i < |labels| ==> Emittable(labels[i])
    ensures Accepted(PROTECTED + labels) <==> Strings.Distinct(labels)
  {
    var all := PROTECTED + labels;
    assert forall i :: 0 <= i < |labels| ==> all[i + 2] == labels[i];
    assert forall i :: 2 <= i < |all| ==> all[i] == labels[i - 2];
    assert |PROTECTED[0]| != |PROTECTED[1]|;
    assert LabelName(PROTECTED[0]) && LabelName(PROTECTED[1]);
  }

  /** Numbering does not always keep labels apart: here the third key is what the second becomes. */
  lemma NumberingMayClash()
    ensures Normalized(["a-b", "a.b", "a_b_1"]) == ["a_b", "a_b", "a_b_1"]
    ensures Emitted(["a_b", "a_b", "a_b_1"]) == ["a_b", "a_b_1", "a_b_1"]
  {
    var ks := ["a_b", "a_b", "a_b_1"];
    assert Replace("a-b") == "a_b" && Replace("a.b") == "a_b" && Replace("a_b_1") == "a_b_1";
    assert ks[..0] == [] && ks[..1] == ["a_b"] && ks[..2] == ["a_b", "a_b"];
    assert Strings.Itoa(1) == "1";
    assert Emitted(ks)[0] == "a_b" && Emitted(ks)[1] == "a_b_1" && Emitted(ks)[2] == "a_b_1";
  }
}
