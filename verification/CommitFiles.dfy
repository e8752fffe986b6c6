/** Writing template files to a repository: one listing of the root, page by page, and one
    commit. */
module CommitFiles {
  import opened Wrappers
  import opened TemplateFiles

  // ---- Trees ----

  /** The entry of the root tree a path lies under. */
  function RootEntry(path: string): (r: string)
    ensures r <= path && '/' !in r
    ensures '/' !in path <==> r == path
    ensures r != path ==> path[|r|] == '/'
  {
    if path == "" || path[0] == '/' then ""
    else
      var rest := RootEntry(path[1..]);
      assert path == [path[0]] + path[1..];
      [path[0]] + rest
  }

  function RootEntries(files: Files): set<string> {
    set p | p in files :: RootEntry(p)
  }

  // ---- Commits ----

  datatype Action = CreateFile(path: string, content: string) | DeleteFile(path: string)

  predicate ActionOk(files: Files, a: Action) {
    match a
    case CreateFile(p, _) => p !in files
    case DeleteFile(p) => p in files
  }

  function Apply(files: Files, a: Action): Files {
    match a
    case CreateFile(p, c) => files[p := c]
    case DeleteFile(p) => files - {p}
  }

  function ApplyAll(files: Files, actions: seq<Action>): Files {
    if actions == [] then files
    else Apply(ApplyAll(files, actions[..|actions| - 1]), actions[|actions| - 1])
  }

  ghost predicate OncePerPath(actions: seq<Action>) {
    forall i, j :: 0 <= i < j < |actions| ==> actions[i].path != actions[j].path
  }

  /** after shows what the action asked for. */
  predicate Took(after: Files, a: Action) {
    match a
    case CreateFile(p, c) => p in after && after[p] == c
    case DeleteFile(p) => p !in after
  }

  /** What actions on different paths make of the path p. */
  ghost predicate ActedAt(files: Files, after: Files, actions: seq<Action>, p: string) {
    && ((forall a :: a in actions ==> a.path != p) ==>
          (p in after <==> p in files) && (p in files ==> after[p] == files[p]))
    && (forall a :: a in actions && a.path == p ==> Took(after, a))
  }

  lemma LastOfItsPath(front: seq<Action>, last: Action)
    requires OncePerPath(front + [last])
    ensures OncePerPath(front) && forall a :: a in front ==> a.path != last.path
  {
    var actions := front + [last];
    assert forall i :: 0 <= i < |front| ==> actions[i] == front[i];
    assert actions[|front|] == last;
  }

  lemma OneMoreAction(files: Files, mid: Files, front: seq<Action>, last: Action, p: string)
    requires forall a :: a in front ==> a.path != last.path
    requires ActedAt(files, mid, front, p)
    ensures ActedAt(files, Apply(mid, last), front + [last], p)
  {
    assert last in front + [last] && forall a :: a in front + [last] <==> a in front || a == last;
    if last.path != p {
      assert p in Apply(mid, last) <==> p in mid;
      assert p in mid ==> Apply(mid, last)[p] == mid[p];
    }
  }

  /** What a commit that touches each path once makes of each path. */
  lemma {:induction false} ApplyAllAt(files: Files, actions: seq<Action>, p: string)
    requires OncePerPath(actions)
    ensures ActedAt(files, ApplyAll(files, actions), actions, p)
  {
    if actions != [] {
      var front, last := actions[..|actions| - 1], actions[|actions| - 1];
      assert actions == front + [last];
      LastOfItsPath(front, last);
      ApplyAllAt(files, front, p);
      OneMoreAction(files, ApplyAll(files, front), front, last, p);
    }
  }

  // ---- What is to be committed ----

  ghost predicate Due(templates: Files, root: set<string>, a: Action) {
    && a.path in templates
    && (templates[a.path] == DELETION_MAGIC <==> a.path in root)
    && a == if a.path in root then DeleteFile(a.path) else CreateFile(a.path, templates[a.path])
  }

  /** The commit for these templates against this listing of the root. */
  ghost predicate Planned(templates: Files, root: set<string>, actions: seq<Action>) {
    && OncePerPath(actions)
    && (forall a :: a in actions ==> Due(templates, root, a))
    && (forall p :: p in templates && (p in root <==> templates[p] == DELETION_MAGIC) ==>
      exists a :: a in actions && a.path == p)
  }

  /** The server will take the plan. */
  ghost predicate Acceptable(templates: Files, files: Files) {
    forall p :: p in templates ==>
      if templates[p] == DELETION_MAGIC then p in RootEntries(files) ==> p in files
      else p in files ==> p in RootEntries(files)
  }

  lemma PlanValidIff(templates: Files, files: Files, actions: seq<Action>)
    requires Planned(templates, RootEntries(files), actions)
    ensures (forall a :: a in actions ==> ActionOk(files, a)) <==> Acceptable(templates, files)
  {
  }

  /** The only things the server can object to: a live template below the root that is there
      already, which the listing of the root cannot show, and a marked name that is a
      directory. */
  lemma AcceptableIff(templates: Files, files: Files)
    ensures Acceptable(templates, files) <==>
            forall p :: p in templates ==>
              && !(templates[p] != DELETION_MAGIC && '/' in p && p in files)
              && !(templates[p] == DELETION_MAGIC && p !in files && exists q :: q in files && RootEntry(q) == p)
  {
  }

  /** Of the names at the root the live ones are there and the marked ones are not; no file
      has changed its content, none is gone but marked ones, and none is new but live ones. */
  ghost predicate Brought(templates: Files, files: Files, after: Files) {
    && (forall p :: p in templates && templates[p] != DELETION_MAGIC && '/' !in p ==> p in RootEntries(after))
    && (forall p :: p in templates && templates[p] == DELETION_MAGIC && '/' !in p ==> p !in after)
    && (forall p :: p in files && p in after ==> after[p] == files[p])
    && (forall p :: p in files && p !in after ==> p in templates && templates[p] == DELETION_MAGIC)
    && (forall p :: p in after && p !in files ==>
      p in templates && templates[p] != DELETION_MAGIC && after[p] == templates[p])
  }

  /** What is in the repository after an accepted commit. */
  lemma Outcome(templates: Files, files: Files, actions: seq<Action>)
    requires Planned(templates, RootEntries(files), actions) && Acceptable(templates, files)
    ensures Brought(templates, files, ApplyAll(files, actions))
  {
    var after := ApplyAll(files, actions);
    PlanValidIff(templates, files, actions);
    forall p ensures Kept(files, after, actions, p) {
      ApplyAllAt(files, actions, p);
    }
    forall p | p in templates && templates[p] != DELETION_MAGIC && '/' !in p ensures p in RootEntries(after) {
      LivePresent(templates, files, after, actions, p);
    }
    forall p | p in templates && templates[p] == DELETION_MAGIC && '/' !in p ensures p !in after {
      if p in files {
        assert RootEntry(p) in RootEntries(files);
      }
      assert Kept(files, after, actions, p);
    }
    forall p ensures p in files && p in after ==> after[p] == files[p] {
      assert Kept(files, after, actions, p);
    }
    forall p | p in files && p !in after ensures p in templates && templates[p] == DELETION_MAGIC {
      assert Kept(files, after, actions, p);
    }
    forall p | p in after && p !in files
      ensures p in templates && templates[p] != DELETION_MAGIC && after[p] == templates[p]
    {
      assert Kept(files, after, actions, p);
    }
  }

  ghost predicate Kept(files: Files, after: Files, actions: seq<Action>, p: string) {
    && ((forall a :: a in actions ==>
      a.path != p) ==> (p in after <==> p in files) && (p in files ==> after[p] == files[p]))
    && (forall a :: a in actions && a.path == p ==> Took(after, a))
  }

  lemma LivePresent(templates: Files, files: Files, after: Files, actions: seq<Action>, p: string)
    requires Planned(templates, RootEntries(files), actions) && Acceptable(templates, files)
    requires forall q :: Kept(files, after, actions, q)
    requires p in templates && templates[p] != DELETION_MAGIC && '/' !in p
    ensures p in RootEntries(after)
  {
    if p in RootEntries(files) {
      var q :| q in files && RootEntry(q) == p;
      assert Kept(files, after, actions, q);
      forall a | a in actions ensures a.path != q {
        assert Due(templates, RootEntries(files), a);
      }
      assert q in after;
    } else {
      var a :| a in actions && a.path == p;
      assert Kept(files, after, actions, p);
      assert p in after && RootEntry(p) == p;
    }
  }

  /** A live template below the root is created the first time; from then on the server
      objects to every commit. */
  lemma NestedTemplateBlocksNextCommit(templates: Files, files: Files, p: string)
    requires p in templates && templates[p] != DELETION_MAGIC && '/' in p && p in files
    ensures !Acceptable(templates, files)
  {
  }

  /** There is nothing to commit exactly when the root shows every live name and no marked one. */
  lemma NothingToCommitIff(templates: Files, root: set<string>, actions: seq<Action>)
    requires Planned(templates, root, actions)
    ensures actions == [] <==> forall p :: p in templates ==> (p in root <==> templates[p] != DELETION_MAGIC)
  {
    if actions != [] {
      assert Due(templates, root, actions[0]);
    }
  }

  /** Once brought there, a repository needs no further commit for templates at its root. */
  lemma NothingLeftToCommit(templates: Files, files: Files, after: Files, actions: seq<Action>)
    requires Acceptable(templates, files) && Brought(templates, files, after)
    requires forall p :: p in templates ==> '/' !in p
    // no file is a directory as well
    requires forall q :: q in files && '/' in q ==> RootEntry(q) !in files
    requires Planned(templates, RootEntries(after), actions)
    ensures actions == []
  {
    forall p, q | p in templates && templates[p] == DELETION_MAGIC && q in after ensures RootEntry(q) != p {
      assert q in files ==> RootEntry(q) in RootEntries(files);
      assert p !in after;
    }
    NothingToCommitIff(templates, RootEntries(after), actions);
  }

  // ---- The repository and its client ----

  datatype TreeReply = Page(entries: seq<string>, nextPage: nat) | NoTree | Failed

  class Gitlab {
    const faulty: bool
    const perPage: nat
    const templateFiles: Files
    var files: Files
    // the order in which the server lists the root
    var root: seq<string>

    ghost predicate Valid()
      reads this
    {
      perPage > 0 && forall e :: e in root <==> e in RootEntries(files)
    }

    constructor (faulty: bool, templateFiles: Files)
      ensures Valid() && this.faulty == faulty && this.templateFiles == templateFiles && files == map[]
    {
      this.faulty, this.perPage, this.templateFiles := faulty, 100, templateFiles;
      files, root := map[], [];
    }

    /** One page of the root; an empty repository has no tree. */
    method ListTree(page: nat) returns (r: TreeReply)
      requires Valid() && page > 0
      ensures r.NoTree? ==> files == map[]
      ensures r.Page? && (page - 1) * perPage <= |root| ==>
                var from, to := (page - 1) * perPage, page * perPage;
                && r.entries == root[from..if to < |root| then to else |root|]
                && r.nextPage == if to < |root| then page + 1 else 0
      ensures !faulty ==> !r.Failed?
    {
      var refused: bool := *;
      if faulty && refused {
        return Failed;
      }
      if files == map[] {
        return NoTree;
      }
      var from, to := (page - 1) * perPage, page * perPage;
      if from > |root| {
        return Page([], 0);
      }
      assert to == from + perPage;
      return Page(root[from..if to < |root| then to else |root|], if to < |root| then page + 1 else 0);
    }

    /** All or nothing. */
    method CreateCommit(actions: seq<Action>) returns (ok: bool)
      requires Valid() && OncePerPath(actions)
      modifies this`files, this`root
      ensures Valid()
      ensures files == old(files) || ((forall a :: a in actions ==>
        ActionOk(old(files), a)) && files == ApplyAll(old(files), actions))
      ensures ok ==> (forall a :: a in actions ==> ActionOk(old(files), a)) && files == ApplyAll(old(files), actions)
      ensures !faulty ==> (ok <==> forall a :: a in actions ==> ActionOk(old(files), a))
    {
      var refused: bool, lost: bool := *, *;
      if (faulty && refused) || !(forall a | a in actions :: ActionOk(files, a)) {
        return false;
      }
      files := ApplyAll(files, actions);
      root := [];
      var entries := RootEntries(files);
      while entries != {}
        invariant entries <= RootEntries(files) && files == ApplyAll(old(files), actions)
        invariant forall e :: e in root <==> e in RootEntries(files) && e !in entries
        decreases entries
      {
        var e: string :| e in entries;
        root, entries := root + [e], entries - {e};
      }
      return !(faulty && lost);
    }

    /** What there is to do, judged by every page of the root. */
    method CompareFiles() returns (r: Reply<seq<Action>>)
      requires Valid()
      ensures r.Served? ==> Planned(templateFiles, RootEntries(files), r.value)
      ensures !faulty ==> r.Served?
    {
      var compareMap: set<string> := {};
      var nextPage: nat := 1;
      while nextPage > 0
        invariant nextPage > 0 ==>
          (nextPage - 1) * perPage <= |root| && forall e :: e in compareMap <==> e in root[..(nextPage - 1) * perPage]
        invariant nextPage == 0 ==> forall e :: e in compareMap <==> e in RootEntries(files)
        decreases if nextPage > 0 then |root| - (nextPage - 1) * perPage + 1 else 0
      {
        var reply := ListTree(nextPage);
        if reply.Failed? {
          return Refused;
        }
        if reply.NoTree? {
          var all := Plan({});
          return Served(all);
        }
        ghost var from, to := (nextPage - 1) * perPage, nextPage * perPage;
        assert to == from + perPage;
        assert root[..from] + reply.entries == root[..if to < |root| then to else |root|];
        compareMap := compareMap + set e | e in reply.entries;
        nextPage := reply.nextPage;
        assert root[..|root|] == root;
      }
      var actions := Plan(compareMap);
      return Served(actions);
    }

    method Plan(compareMap: set<string>) returns (actions: seq<Action>)
      ensures Planned(templateFiles, compareMap, actions)
    {
      actions := [];
      var names := templateFiles.Keys;
      while names != {}
        invariant names <= templateFiles.Keys
        invariant OncePerPath(actions)
        invariant forall a :: a in actions ==> Due(templateFiles, compareMap, a) && a.path !in names
        invariant forall p :: p in templateFiles && p !in names && (p in compareMap <==> templateFiles[p] == DELETION_MAGIC) ==>
                    exists a :: a in actions && a.path == p
        decreases names
      {
        var name: string :| name in names;
        names := names - {name};
        var content := templateFiles[name];
        ghost var before := actions;
        if name in compareMap && content == DELETION_MAGIC {
          actions := actions + [DeleteFile(name)];
          assert actions[|before|] in actions;
        } else if name !in compareMap && content != DELETION_MAGIC {
          actions := actions + [CreateFile(name, content)];
          assert actions[|before|] in actions;
        }
        assert forall a :: a in before ==> a in actions;
      }
    }

    /** The repository is either left alone or brought to what the templates ask for, and the
        former if the server would object; without faults that is when it fails. */
    method CommitTemplateFiles() returns (ok: bool)
      requires Valid()
      modifies this`files, this`root
      ensures Valid()
      ensures files == old(files) || Brought(templateFiles, old(files), files)
      ensures ok ==> Acceptable(templateFiles, old(files)) && Brought(templateFiles, old(files), files)
      ensures !faulty ==> (ok <==> Acceptable(templateFiles, old(files)))
    {
      if |templateFiles| == 0 {
        return true;
      }
      var plan := CompareFiles();
      if plan.Refused? {
        return false;
      }
      var actions := plan.value;
      PlanValidIff(templateFiles, files, actions);
      if Acceptable(templateFiles, files) {
        Outcome(templateFiles, files, actions);
      }
      if |actions| == 0 {
        assert files == ApplyAll(files, actions);
        return true;
      }
      ok := CreateCommit(actions);
    }
  }
}
