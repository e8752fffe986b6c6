/** The template files of a tenant's repository: which are live, and which carry the mark that
    asks for their deletion. */
module TemplateFiles {
  import opened Wrappers

  const DELETION_MAGIC := "{delete}"
  const COMMON_FILE := "common.yml"

  type Files = map<string, string>

  function ClusterFile(cluster: string): string {
    cluster + ".yml"
  }

  function ClusterContent(tenant: string): string {
    "classes:\n- " + tenant + ".common\n"
  }

  lemma ClusterContentIsNoMark(tenant: string)
    ensures ClusterContent(tenant) != DELETION_MAGIC
  {
  }

  /** What decides a tenant's files: its clusters, and the pipeline's files if enabled. */
  datatype Inputs = Inputs(tenant: string, clusters: seq<string>, enabled: bool, pipelineFiles: Files) {
    predicate IsClusterFile(f: string) {
      exists i :: 0 <= i < |clusters| && ClusterFile(clusters[i]) == f
    }

    predicate IsPipelineFile(f: string) {
      enabled && f in pipelineFiles
    }

    predicate Wanted(f: string) {
      IsClusterFile(f) || IsPipelineFile(f) || f == COMMON_FILE
    }

    function Content(f: string): string {
      if IsPipelineFile(f) then pipelineFiles[f]
      else if IsClusterFile(f) then ClusterContent(tenant)
      else LeftoverContent(f)
    }
  }

  /** What a file that is no longer generated is given. */
  function LeftoverContent(f: string): string {
    if f == COMMON_FILE then "" else DELETION_MAGIC
  }

  /** after holds every name of before and every wanted one, each with its due content. */
  ghost predicate Renewed(before: Files, after: Files, inputs: Inputs) {
    && (forall f :: f in after <==> f in before || inputs.Wanted(f))
    && (forall f :: f in after ==> after[f] == inputs.Content(f))
  }

  ghost predicate Live(files: Files, f: string) {
    f in files && files[f] != DELETION_MAGIC
  }

  /** The live files are exactly the wanted ones if and only if no pipeline file consists of
      the mark itself. */
  lemma LiveAreWantedIff(before: Files, after: Files, inputs: Inputs)
    requires Renewed(before, after, inputs)
    ensures (forall f :: Live(after, f) <==> inputs.Wanted(f)) <==>
            forall f :: inputs.IsPipelineFile(f) ==> inputs.pipelineFiles[f] != DELETION_MAGIC
  {
    ClusterContentIsNoMark(inputs.tenant);
    if forall f :: inputs.IsPipelineFile(f) ==> inputs.pipelineFiles[f] != DELETION_MAGIC {
      forall f ensures Live(after, f) <==> inputs.Wanted(f) {}
    } else {
      var f :| inputs.IsPipelineFile(f) && inputs.pipelineFiles[f] == DELETION_MAGIC;
      assert inputs.Wanted(f) && !Live(after, f);
    }
  }

  /** A pipeline file that consists of the mark is wanted and is never live. */
  lemma MarkedFileIsLost(before: Files, after: Files, file: string)
    requires Renewed(before, after, Inputs("tenant", [], true, map[file := DELETION_MAGIC]))
    ensures Inputs("tenant", [], true, map[file := DELETION_MAGIC]).Wanted(file) && !Live(after, file)
    ensures !forall f :: Live(after, f) <==> Inputs("tenant", [], true, map[file := DELETION_MAGIC]).Wanted(f)
  {
    var inputs := Inputs("tenant", [], true, map[file := DELETION_MAGIC]);
    assert inputs.IsPipelineFile(file) && inputs.pipelineFiles[file] == DELETION_MAGIC;
    LiveAreWantedIff(before, after, inputs);
  }

  /** The files by their names: one for each cluster, which names the tenant's common class unless
      the pipeline has a file of that name; the pipeline's if enabled; and the common one. All
      other old names carry the mark. */
  ghost predicate PlainlyRenewed(before: Files, after: Files, inputs: Inputs) {
    var pipeline: Files := if inputs.enabled then inputs.pipelineFiles else map[];
    && (forall c :: c in inputs.clusters ==>
          && c + ".yml" in after
          && (c + ".yml" !in pipeline ==> after[c + ".yml"] == "classes:\n- " + inputs.tenant + ".common\n"))
    && (forall f :: f in pipeline ==> f in after && after[f] == pipeline[f])
    && "common.yml" in after
    && ("common.yml" !in pipeline && "common" !in inputs.clusters ==> after["common.yml"] == "")
    && (forall f | f in after && f !in pipeline && f != "common.yml" ::
          || (exists c :: c in inputs.clusters && f == c + ".yml")
          || (f in before && after[f] == "{delete}"))
    && (forall f :: f in before ==> f in after)
  }

  lemma InPlainTerms(before: Files, after: Files, inputs: Inputs)
    requires Renewed(before, after, inputs)
    ensures PlainlyRenewed(before, after, inputs)
  {
    forall c | c in inputs.clusters ensures inputs.IsClusterFile(c + ".yml") {
      var i :| 0 <= i < |inputs.clusters| && inputs.clusters[i] == c;
      assert ClusterFile(inputs.clusters[i]) == c + ".yml";
    }
    forall f | inputs.IsClusterFile(f) ensures exists c :: c in inputs.clusters && f == c + ".yml" {
      var i :| 0 <= i < |inputs.clusters| && ClusterFile(inputs.clusters[i]) == f;
      assert inputs.clusters[i] in inputs.clusters;
    }
    forall c | c in inputs.clusters && c + ".yml" == "common.yml" ensures c == "common" {
      assert c == (c + ".yml")[..|c|] && "common" == "common.yml"[..6];
    }
  }

  /** Renewing once more with the same inputs changes nothing. */
  lemma RenewedTwice(before: Files, once: Files, twice: Files, inputs: Inputs)
    requires Renewed(before, once, inputs) && Renewed(once, twice, inputs)
    ensures twice == once
  {
  }

  /** The clusters' files, with the pipeline's over them and what is left of the old names after
      them, renew the old files. */
  lemma PartsRenew(before: Files, clusterFiles: Files, generated: Files, after: Files, inputs: Inputs)
    requires COMMON_FILE in before
    requires forall f :: f in clusterFiles <==> inputs.IsClusterFile(f)
    requires forall f :: f in clusterFiles ==> clusterFiles[f] == ClusterContent(inputs.tenant)
    requires generated == clusterFiles + if inputs.enabled then inputs.pipelineFiles else map[]
    requires forall f :: f in after <==> f in generated || f in before
    requires forall f :: f in after ==> after[f] == if f in generated then generated[f] else LeftoverContent(f)
    ensures Renewed(before, after, inputs)
  {
  }

  /** A tenant as one reconcile works on it. */
  class TenantObject {
    const name: string
    const enabled: bool
    const pipelineFiles: Files
    var templateFiles: Files

    constructor (name: string, enabled: bool, pipelineFiles: Files, templateFiles: Files)
      ensures this.name == name && this.enabled == enabled && this.pipelineFiles == pipelineFiles
      ensures this.templateFiles == templateFiles
    {
      this.name, this.enabled, this.pipelineFiles, this.templateFiles := name, enabled, pipelineFiles, templateFiles;
    }

    method AddDefaultClassFile()
      modifies this
      ensures templateFiles ==
        old(templateFiles) + if COMMON_FILE in old(templateFiles) then map[] else map[COMMON_FILE := ""]
    {
      if COMMON_FILE !in templateFiles {
        templateFiles := templateFiles[COMMON_FILE := ""];
      }
    }

    method AddClusterFiles(items: seq<string>, oldFiles: Files) returns (rest: Files)
      requires templateFiles == map[]
      modifies this
      ensures forall f :: f in templateFiles <==> exists i :: 0 <= i < |items| && ClusterFile(items[i]) == f
      ensures forall f :: f in templateFiles ==> templateFiles[f] == ClusterContent(name)
      ensures rest == oldFiles - templateFiles.Keys
    {
      rest := oldFiles;
      for i := 0 to |items|
        invariant forall f :: f in templateFiles <==> exists j :: 0 <= j < i && ClusterFile(items[j]) == f
        invariant forall f :: f in templateFiles ==> templateFiles[f] == ClusterContent(name)
        invariant rest == oldFiles - templateFiles.Keys
      {
        var fileName := ClusterFile(items[i]);
        templateFiles := templateFiles[fileName := ClusterContent(name)];
        rest := rest - {fileName};
      }
    }

    method AddPipelineFiles(oldFiles: Files) returns (rest: Files)
      modifies this
      ensures templateFiles == old(templateFiles) + pipelineFiles
      ensures rest == oldFiles - pipelineFiles.Keys
    {
      rest := oldFiles;
      var names := pipelineFiles.Keys;
      while names != {}
        invariant names <= pipelineFiles.Keys
        invariant templateFiles == old(templateFiles) + (pipelineFiles - names)
        invariant rest == oldFiles - (pipelineFiles.Keys - names)
        decreases names
      {
        var f: string :| f in names;
        names := names - {f};
        templateFiles := templateFiles[f := pipelineFiles[f]];
        rest := rest - {f};
      }
    }

    method MarkOldFiles(oldFiles: Files)
      requires oldFiles.Keys !! templateFiles.Keys
      modifies this
      ensures forall f :: f in templateFiles <==> f in old(templateFiles) || f in oldFiles
      ensures forall f :: f in templateFiles ==>
                templateFiles[f] == if f in oldFiles then LeftoverContent(f) else old(templateFiles)[f]
    {
      var names := oldFiles.Keys;
      while names != {}
        invariant names <= oldFiles.Keys
        invariant forall f :: f in templateFiles <==> f in old(templateFiles) || (f in oldFiles && f !in names)
        invariant forall f :: f in templateFiles ==>
                    templateFiles[f] == if f in oldFiles then LeftoverContent(f) else old(templateFiles)[f]
        decreases names
      {
        var f: string :| f in names;
        names := names - {f};
        if f == COMMON_FILE {
          templateFiles := templateFiles[f := ""];
        } else {
          templateFiles := templateFiles[f := DELETION_MAGIC];
        }
      }
    }

    /** Rebuilds the files from the listing. If it fails the object in memory has lost its
        files, and is not to be stored. */
    method UpdateTenantGitRepo(clusters: Reply<seq<string>>) returns (ok: bool)
      requires COMMON_FILE in templateFiles
      modifies this
      ensures ok == clusters.Served?
      ensures ok ==> Renewed(old(templateFiles), templateFiles, Inputs(name, clusters.value, enabled, pipelineFiles))
    {
      var oldFiles := templateFiles;
      templateFiles := map[];
      if clusters.Refused? {
        return false;
      }
      oldFiles := AddClusterFiles(clusters.value, oldFiles);
      ghost var clusterFiles := templateFiles;
      if enabled {
        oldFiles := AddPipelineFiles(oldFiles);
      }
      ghost var generated := templateFiles;
      MarkOldFiles(oldFiles);
      PartsRenew(old(templateFiles), clusterFiles, generated, templateFiles,
                 Inputs(name, clusters.value, enabled, pipelineFiles));
      return true;
    }
  }

  /** files are what these inputs ask for, the names that are not wanted being leftovers. */
  ghost predicate Reflects(files: Files, inputs: Inputs) {
    && (forall f :: inputs.Wanted(f) ==> f in files)
    && (forall f :: f in files ==> files[f] == inputs.Content(f))
  }

  /** The default class file is wanted anyway. */
  lemma RenewedFromDefault(before: Files, start: Files, after: Files, inputs: Inputs)
    requires start == before + if COMMON_FILE in before then map[] else map[COMMON_FILE := ""]
    requires Renewed(start, after, inputs)
    ensures Renewed(before, after, inputs) && Reflects(after, inputs) && before.Keys <= after.Keys
    ensures Reflects(before, inputs) ==> after == before
  {
    assert inputs.Wanted(COMMON_FILE);
    if Reflects(before, inputs) {
      assert forall f :: f in after <==> f in before;
    }
  }

  /** A tenant's files over its life, reconcile after reconcile. */
  class TenantHistory {
    /** Whether the listing may be refused, and the files not stored. */
    const faulty: bool
    var stored: Files
    /** All the names the stored map has ever held. */
    ghost var ever: set<string>
    /** The inputs of the latest reconcile that stored. */
    ghost var last: Option<Inputs>

    constructor (faulty: bool, files: Files)
      ensures Inv() && this.faulty == faulty && stored == files && last == None
    {
      this.faulty, stored, ever, last := faulty, files, files.Keys, None;
    }

    /** No name is ever lost, and the contents are those the latest inputs ask for. */
    ghost predicate Inv()
      reads this
    {
      ever == stored.Keys && (last.Some? ==> Reflects(stored, last.value))
    }

    /** One reconcile: nothing is stored unless the listing was served. Undisturbed, it stores. */
    method Reconcile(inputs: Inputs) returns (ok: bool)
      requires Inv()
      modifies this
      ensures Inv() && old(ever) <= ever
      ensures !faulty ==> ok
      ensures !ok ==> stored == old(stored) && last == old(last)
      ensures ok ==> Renewed(old(stored), stored, inputs) && last == Some(inputs)
      ensures ok ==> PlainlyRenewed(old(stored), stored, inputs)
      ensures ok && old(last) == Some(inputs) ==> stored == old(stored)
    {
      var served := CallSucceeds(faulty);
      var files;
      ok, files := Rebuild(inputs, served);
      var kept := CallSucceeds(faulty);
      if ok && kept {
        InPlainTerms(stored, files, inputs);
        stored := files;
        ever, last := ever + files.Keys, Some(inputs);
      } else {
        ok := false;
      }
    }

    /** The files as they are to be stored, if the clusters could be listed. */
    method Rebuild(inputs: Inputs, served: bool) returns (ok: bool, files: Files)
      ensures ok == served
      ensures ok ==> Renewed(stored, files, inputs) && Reflects(files, inputs) && stored.Keys <= files.Keys
      ensures ok && Reflects(stored, inputs) ==> files == stored
    {
      var tenant := new TenantObject(inputs.tenant, inputs.enabled, inputs.pipelineFiles, stored);
      tenant.AddDefaultClassFile();
      ghost var start := tenant.templateFiles;
      ok := tenant.UpdateTenantGitRepo(if served then Served(inputs.clusters) else Refused);
      files := tenant.templateFiles;
      if ok {
        assert Inputs(inputs.tenant, inputs.clusters, inputs.enabled, inputs.pipelineFiles) == inputs;
        RenewedFromDefault(stored, start, files, inputs);
      }
    }

    /** The live files are exactly those the latest stored inputs want. */
    ghost predicate Current()
      reads this
    {
      last.Some? && forall f :: Live(stored, f) <==> last.value.Wanted(f)
    }

    lemma CurrentIff()
      requires Inv() && last.Some?
      ensures Current() <==> forall f :: last.value.IsPipelineFile(f) ==> last.value.pipelineFiles[f] != DELETION_MAGIC
    {
      LiveAreWantedIff(stored, stored, last.value);
    }

    /** Any sequence of reconciles. Once one has stored, the live files are the wanted ones
        exactly if none of its pipeline files is the mark; undisturbed, that one is the last. */
    method Operate(runs: seq<Inputs>)
      requires Inv()
      modifies this
      ensures Inv() && old(ever) <= ever
      ensures last == old(last) || (last.Some? && last.value in runs)
      ensures !faulty && runs != [] ==> last == Some(runs[|runs| - 1])
      ensures last.Some? ==>
        (Current() <==> forall f :: last.value.IsPipelineFile(f) ==> last.value.pipelineFiles[f] != DELETION_MAGIC)
    {
      for i := 0 to |runs|
        invariant Inv() && old(ever) <= ever
        invariant last == old(last) || (last.Some? && last.value in runs[..i])
        invariant !faulty && i > 0 ==> last == Some(runs[i - 1])
      {
        var ok := Reconcile(runs[i]);
        assert runs[..i + 1] == runs[..i] + [runs[i]];
      }
      if last.Some? {
        CurrentIff();
      }
    }
  }
}
