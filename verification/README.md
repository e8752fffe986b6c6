# Lieutenant Operator: a model of its reconcile logic

The Lieutenant Operator keeps Kubernetes objects (tenants, clusters, GitRepos) in step with a
GitLab server and with Vault. This project models the logic of its reconcilers as state
machines over those stores and proves what every run keeps, including runs that stop after any
single write, and what a run that nothing disturbs arrives at.

The stores are fields of classes: an API server with resource versions, finalizers and optimistic
locking, a GitLab project, a Vault key-value tree. A call into a store may be refused, may be carried
out with its reply lost, and may find that others have written in between. Time, randomness and what
others write are chosen freely by the model. Where a store has a `faulty` field, clearing it gives the
undisturbed run, for which convergence is proved.

## The modules

- `EnvVars`, `ClusterStore`, `CompileVars`, `CompilePipeline`: the compile pipeline's finalizer protocol.
  Every state the API server goes through is safe: each cluster named in a tenant's stored variables
  exists and holds the pipeline finalizer. One undisturbed run settles the store, a second one writes nothing.
- `Pipeline`: step lists, their order, their answers and their nesting.
- `GitRepoEvents`, `GitRepoSteps`, `GitRepos`: the ownership and deletion of a GitRepo's project. The model keeps a log of what
  the servers answered, what was asked of them and what was decided; `GitRepoEvents` says what evidence each event needs in what
  came before it, `GitRepoSteps` what a run of the step list comes to, and `GitRepos` is the controller.
- `CIVariables`, `DeployKeys`, `TemplateFiles`, `CommitFiles`, `AccessTokens`: the desired-against-remote reconcilers.
- `GeneratedKeys`: secrets and status entries of generated deploy keys.
- `Vault`, `ServiceAccountTokens`: writing a cluster's token, and removing everything below its path.
- `Labels`: cluster facts as Prometheus labels.
- `Sorting`, `Strings`, `Wrappers`: sorting by a comparison, strings, decimal numerals, options.

Contracts are stated through specification functions that the code's branches and loops refine. So that these are pinned down from outside,
the main results are stated once more by the fields of objects and texts alone, in lemmas and predicates that begin with `Plain` or end in
`InPlainTerms`, `Spelled` or `Means`.

## Assumptions

- Reads are current, and one worker at a time handles a tenant or a GitRepo.
- A cluster's tenant label, whether its repository is managed, and its name never change; a deletion is not undone.
- Nobody but the compile pipeline controller adds or alters the managed variables of a tenant or writes the pipeline
  finalizer on its clusters. Everything else may be edited, created and deleted by others at any time
  (`ClusterStore.Interference`). The managed variables are those the controller writes: the three fixed names
  and every name with the `ACCESS_TOKEN_` prefix that stands for a cluster. Their names are unique in the list, and
  those that refer to a secret have the reference, as the code dereferences it.
- The status of a GitRepo is written by its controller alone.
- Cluster names are Kubernetes names: no underscore, no space, not empty.
- Deploy key listings are complete and titles unique. Public keys in existing secrets have a space in them, as the
  code reads the part after it.
- Between two calls of one run, remote variables, deploy keys, repository files and Vault secrets are not changed by others.
- The secret of an access token is written by the operator alone, though others may delete it; GitLab issues tokens that
  are not empty and never reuses their ids.

## What the code does that its documentation does not say

- `pipeline/steps.go:72-75` announces a requeue on a conflict. `RunPipeline` drops it, as the answer does not
  carry Abort (`Pipeline.AnswerOfList`), so a reconcile never asks for one (`GitRepos.GitRepoReconciler.Reconcile`).
- A run that stores the changed object cannot store its status as well: the update goes through a copy, so that the version in
  memory is out of date for the second write (`GitRepos.GitRepoReconciler.Update`, `GitRepoSteps.StatusStoredIff`). The run
  succeeds all the same. The status catches up in a later run that does not store the object (`GitRepoSteps.LiveAdvances`), but only as far as that
  run computes it anew, and two things do not come back.
  The record of applied CI variables is lost in such a run, as in the first of a GitRepo: a variable it applied for the first time
  and that the spec then drops stays on the server for good (`CIVariables.FirstRunLosesTrack`, `CIVariables.DroppedNameStaysIff`).
  And if such a run drops a generated deploy key, its entry comes back without its secret, and every later run errs until
  the key is wanted again (`GeneratedKeys.LostStatusIff`, `GeneratedKeys.StuckStays`, `GeneratedKeys.DroppedKeyComesBack`).
- A GitRepo being deleted whose project is absent has it created first, as the branch for deletion comes later. Under Retain and
  Archive it stays (`GitRepoSteps.DeletionCreates`, `GitRepos.DeletedTooEarly`).
- The answer to a status update is read into the object in memory, so that a template's fields are back to the stored ones from
  then on; the deletion policy is that of the client, which was made before (`GitRepos.GitRepoReconciler.UpdateStatus`).
- The deletion page says the protection annotation blocks while it holds `true`; it blocks unless it parses to false.
  It guards the object's finalizer only: the project has been removed by then (`controllers/gitrepo_controller.go:70-78`).
- The deletion page says that Retain does nothing to Vault secrets. Nothing is changed, but the removal is an error,
  so that the finalizer of the cluster stays (`Vault.BankVaultClient.RemoveSecret`). A cluster without a usable service account token
  never gets as far as its removal from Vault (`Vault.ReconcileCluster`).
- The description of a CI variable is compared but never sent: a variable with one is written on every run, and is right
  in everything else (`CIVariables.UpdateConvergesUpToDescription`).
- Failed deletions of deploy keys are only logged. A blank key is invisible to the comparison
  (`DeployKeys.BlankKeysAreInvisible`), and a key that does not survive printing and splitting never converges (`DeployKeys.ConvergesIff`,
  `DeployKeys.SpacedTypeNeverConverges`).
- A template file below the root is created once, and then makes the server refuse every further commit
  (`CommitFiles.NestedTemplateBlocksNextCommit`).
- A pipeline file that consists of the deletion mark is not live (`TemplateFiles.LiveAreWantedIff`, `TemplateFiles.MarkedFileIsLost`).
- An access token is kept until ten days after it expired, while GitLab still lists it as active (`AccessTokens.ExpiredYetUsable`);
  that is the only way for a run to succeed with an expired one (`AccessTokens.AccessTokenReconciler.EnsureAccessToken`).
- A changed write access of a generated deploy key does not reach its status entry while the key stays the same
  (`GeneratedKeys.AccessTakenOverIff`). An unwanted entry whose secret is already gone stays, and is an error in every run
  (`GeneratedKeys.Serviceable`).
- Numbering repeated fact labels does not always keep them apart; then the whole metric is dropped
  (`Labels.NumberingMayClash`, `Labels.DistinctIff`).

## Model

| member | source | states |
|---|---|---|
| CompilePipeline.TenantCompilePipelineReconciler.Operate | controllers/tenant_compile_pipeline_controller.go:41-122 | over any number of runs, each stopping after any write, with clusters created, edited and deleted in between, every stored state is safe: clusters named in CLUSTERS or by an access token variable exist and hold the pipeline finalizer |
| CompilePipeline.TenantCompilePipelineReconciler.Reconcile | controllers/tenant_compile_pipeline_controller.go:41-122 | one run keeps all that; if it succeeds, whatever others did, it listed the clusters as they were in some state during the run, none of those being deleted holds the finalizer, and in some state during the run CLUSTERS and status.clusters both gave the live names of that listing; undisturbed it settles the store, and on a settled store it makes no write at all |
| CompilePipeline.TenantCompilePipelineReconciler.HandleClusters | controllers/tenant_compile_pipeline_controller.go:77-90 | finalizers are added before any variable is stored; afterwards every live listed cluster is held and the variables in memory are the wanted ones; `changed` is true exactly if some name stands for something else |
| CompilePipeline.TenantCompilePipelineReconciler.StoreTenant | controllers/tenant_compile_pipeline_controller.go:92-106 | storing variables and status keeps every state safe; nothing is written when nothing changed |
| CompilePipeline.TenantCompilePipelineReconciler.ReleaseClusters | controllers/tenant_compile_pipeline_controller.go:108-119 | every deleting cluster is let go, whether the pipeline is enabled or not, and only after no stored variable names it |
| CompilePipeline.AddingIsSafe | controllers/tenant_compile_pipeline_controller.go:78-82 | storing a listed cluster with the finalizer keeps the store safe and holds that cluster |
| CompilePipeline.ReleasingIsSafe | controllers/tenant_compile_pipeline_controller.go:110-118 | once the stored variables are among the wanted ones, removing the finalizer from a deleting cluster keeps the store safe, even if the cluster vanishes with it |
| CompilePipeline.TenantIsSafe | controllers/tenant_compile_pipeline_controller.go:92-96 | storing variables that name only held clusters keeps the store safe |
| CompilePipeline.WantedNamesOnlyLive | controllers/tenant_compile_pipeline_controller.go:71-90 | the variables computed from a listing name only clusters that are not being deleted, and CLUSTERS lists exactly the live enabled ones |
| CompilePipeline.OutcomeSettles | controllers/tenant_compile_pipeline_controller.go:41-122 | what an undisturbed run leaves is a fixpoint for any listing of the new store |
| CompilePipeline.SettledListsStatus | controllers/tenant_compile_pipeline_controller.go:124-135 | in a settled store with the pipeline enabled, splitting CLUSTERS on spaces gives status.clusters: sorted, without duplicates, exactly the live enabled clusters |
| CompilePipeline.SettledInPlainTerms | controllers/tenant_compile_pipeline_controller.go:137-222 | by the fields of tenant and clusters alone: in a settled store with the pipeline enabled COMMODORE_API_URL has the API's URL, COMMODORE_API_TOKEN refers to the secret of the tenant's name under the key token, and exactly those managed clusters that are enabled, are not being deleted and have a secret have a token variable, which refers to that secret's key token; disabled, none of these is there |
| CompilePipeline.OthersStay | controllers/tenant_compile_pipeline_controller.go:65-90 | an undisturbed run leaves every variable alone but the three fixed ones and those of managed clusters |
| ClusterStore.InterferenceKeepsSafe | controllers/tenant_compile_pipeline_controller.go:57-119 | no edit by others makes the stored variables name an unprotected cluster |
| ClusterStore.DeletingIsInterference | controllers/tenant_compile_pipeline_controller.go:108-119 | deleting any cluster at any time is among the edits others may make |
| ClusterStore.CreatingIsInterference | controllers/tenant_compile_pipeline_controller.go:57-63 | so is creating one, under an old name as well |
| ClusterStore.AccessVarInverse | controllers/tenant_compile_pipeline_controller.go:205-205 | replacing dashes by underscores is injective on cluster names, and no access token variable is one of the fixed ones |
| ClusterStore.AccessVarSpelled | controllers/tenant_compile_pipeline_controller.go:205-205 | the variable's name is the prefix and the cluster's name with every dash made an underscore |
| CompileVars.OrderIndependent | controllers/tenant_compile_pipeline_controller.go:71-90 | the name-to-variable map a run computes is the same for every order of the cluster list |
| CompileVars.LiveNamesDistinct | controllers/tenant_compile_pipeline_controller.go:178-195 | the listed names are sorted and free of duplicates |
| CompileVars.LiveNamesMembers | controllers/tenant_compile_pipeline_controller.go:64-74 | the listed names are exactly those of enabled clusters not being deleted |
| CompileVars.EnsureCiVariables | controllers/tenant_compile_pipeline_controller.go:149-167 | the three fixed variables get their values, every other name keeps its own, and `changed` is exact |
| CompileVars.EnsureCiVariablesAbsent | controllers/tenant_compile_pipeline_controller.go:137-147 | with the pipeline disabled the three fixed variables are gone and every other name keeps its value |
| CompileVars.EnsureClusterCiVariable | controllers/tenant_compile_pipeline_controller.go:197-222 | a cluster's token variable is set or removed as its state asks; no other entry changes or moves; it is there afterwards exactly if the tenant's pipeline and the cluster's are enabled, the cluster is not being deleted and has a secret, to whose key token it refers |
| CompileVars.EnsureStatus | controllers/tenant_compile_pipeline_controller.go:124-135 | the status lists the sorted names of the clusters not being deleted, and `changed` is exact |
| EnvVars.EnvVarIndex | controllers/util.go:10-12 | the first entry of a name, or none |
| EnvVars.UpdateEnvVarValue | controllers/util.go:14-31 | one name gets its value, kept options included; every other name, and the order of the other entries, is as before; a new one is neither protected nor masked, and raw |
| EnvVars.UpdateEnvVarValueFrom | controllers/util.go:32-64 | the same for a reference to a secret; a new one is masked |
| EnvVars.RemoveEnvVar | controllers/util.go:66-73 | a unique name is gone and nothing else has changed |
| EnvVars.RemovedIffOnce | controllers/util.go:66-73 | only the first match goes: the name is gone exactly if it was unique |
| Pipeline.RunPipeline | pipeline/pipeline.go:70-86 | the loop with its early return runs a list as the recursive definition says, and as many steps |
| Pipeline.RunConcatenation | pipeline/pipeline.go:70-86 | running two lists in one is running the second after the first, unless the first was stopped, when no step of the second runs |
| Pipeline.AnswerOfList | pipeline/pipeline.go:70-86 | a list stops at the first step that aborts or errs; its answer never carries Abort, has an error only from that step, and asks for a requeue only if that step aborted asking for it |
| Pipeline.NestedStops | pipeline/pipeline.go:88-97 | an abort inside a nested list ends that list alone, an error ends the enclosing list too |
| GitRepos.GitRepoReconciler.Operate | controllers/gitrepo_controller.go:45-89 | over all runs, with any call failing and any edits: a call touches the project at a URL only if it was in the status at first, or the server had answered that it is absent, or the template the API server gave allows to adopt it; a project is removed only if the object read last was being deleted, and worked on only if it was live; a project is created only right after its URL was stored, upon its being seen absent; and the object is never stored without its finalizer but if it was read last as being deleted and unprotected and since then its project was disposed of as the policy served says, the template served says unmanaged, or the project was not its own. Undisturbed, a live object that no run refuses has everything stored after three runs, object and status, and then nothing is written |
| GitRepos.GitRepoReconciler.Reconcile | controllers/gitrepo_controller.go:45-89 | every call on a project and every write of the object in a run is by right in that sense, on evidence from the same run; a protected object being deleted is not stored at all; no requeue is ever asked for; a run without an error found no object, or has the spec of a live one applied in full to the project of this run's client or found it unmanaged, or has a reason to let a deleting one go; undisturbed, a deleting object that may go loses its finalizer in that one run, a live one is refused exactly if an existing project is neither its own nor to be adopted, and otherwise ends with finalizer, tenant label and protection and one step nearer to everything being stored, and the project is there, or disposed of as the policy says. All of the undisturbed outcome is stated by the fields of object and templates alone as well (`GitRepoSteps.PlainOutcome`, `GitRepoSteps.PlainFate`): the cluster's template counts before the tenant's before the object's own; of an object being deleted the project goes if deletion is Delete, is archived if it is Archive, and is otherwise as it was; the finalizer goes unless a protection annotation is there that is none of the six words for false |
| GitRepos.GitRepoReconciler.GitSteps | controllers/gitrepo/steps.go:43-139 | a deleting object passes only with such a reason, borne out by what the servers answered in this run; a live one passes only unmanaged or with the spec applied in full to the project of this run's client; a project is removed only for a deleting object and worked on only for a live one |
| GitRepos.GitRepoReconciler.FetchTemplate | controllers/gitrepo/template.go:10-42 | undisturbed, the template in force is the cluster's before the tenant's before the object's own; whatever happens, it is one the API server gave in this run |
| GitRepos.GitRepoReconciler.ProjectSteps | controllers/gitrepo/steps.go:72-136 | whatever fails, without an error the spec of a live object has been applied in full and its status says so, and a deleting one has a reason to go; undisturbed, the steps err exactly when a live object finds an existing project that is neither its own nor to be adopted, and otherwise the project is there afterwards, with the URL and the phase in the status, or disposed of as the policy says; it is created exactly if it was absent, and no other project changes |
| GitRepos.GitRepoReconciler.Admit | controllers/gitrepo/steps.go:93-101 | a project is touched exactly if it is in the status or may be adopted; a live object is refused, a deleting one passes without touching it |
| GitRepos.GitRepoReconciler.EnsureProject | controllers/gitrepo/steps.go:72-101 | the steps go on only with a claim on the project, from the status, from an answer that it is absent or from the permission to adopt it, and end quietly only for a deleting object without one; undisturbed they go on exactly if the project was absent, owned or to be adopted |
| GitRepos.GitRepoReconciler.StoreClaim | controllers/gitrepo/steps.go:76-83 | only for a project just seen absent, the claim is in the stored status before creation may be called |
| GitRepos.GitRepoReconciler.CreateClaimed | controllers/gitrepo/steps.go:84-90 | a failed creation gives the claim up in memory, whatever the server did |
| GitRepos.GitRepoReconciler.ApplySpec | controllers/gitrepo/steps.go:111-138 | without an error all four calls went to the claimed project in order, and the status says created |
| GitRepos.GitRepoReconciler.Remove | git/gitlab/gitlab.go:153-169 | the project is deleted, archived or left as the policy says, and no other project changes |
| GitRepos.GitRepoReconciler.HandleRepoError | controllers/gitrepo/steps.go:153-160 | the error stands whatever comes of storing the failed phase; undisturbed, the whole status in memory is stored |
| GitRepos.GitRepoReconciler.Update | pipeline/steps.go:57-97 | the object is stored at most once, as it is in memory; if it is, its status is not stored in that run, and the version in memory falls behind; undisturbed, the object is stored exactly if it differs, and otherwise the status exactly if it differs from the one at the start |
| GitRepos.GitRepoReconciler.UpdateStatus | controllers/gitrepo/steps.go:76-83 | a status update that is answered makes the version in memory current and takes the stored spec over; otherwise nothing in memory changes |
| GitRepoSteps.CommonRan | pipeline/steps.go:17-40 | through the common steps only a deleting, unprotected object that has the finalizer is stored without it |
| GitRepoSteps.CalmRan | controllers/gitrepo_controller.go:70-78 | what the whole step list makes of object, status and project when nothing disturbs it |
| GitRepoSteps.LiveAdvances | controllers/gitrepo_controller.go:70-78 | an undisturbed run of a live object brings it nearer to everything being stored: the first may have to create the project, the next stores the object and with that loses the status, the last stores the status; then a run leaves everything as it is |
| GitRepoSteps.NothingLeftIff | controllers/gitrepo_controller.go:70-78 | nothing is left to store exactly if the object has the template in force, finalizer, label and protection, and its status the URL of the project that is there, the phase created and the host keys |
| GitRepoSteps.InPlainTerms | controllers/gitrepo_controller.go:70-78 | what the undisturbed run comes to, by the fields of object and templates alone |
| GitRepoSteps.StatusStoredIff | pipeline/steps.go:57-97 | a part of the status that an undisturbed run has changed is stored by its end exactly if it was stored on the way or the object is not stored at the end |
| GitRepoSteps.DeletionCreates | controllers/gitrepo/steps.go:68-109 | undisturbed, the absent project of an object being deleted is created, and it is there afterwards exactly if the policy is not to delete it |
| GitRepos.DeletedTooEarly | controllers/gitrepo/steps.go:68-109 | such an object, and the run that creates its project and leaves it |
| GitRepoSteps.RepoRan | controllers/gitrepo_controller.go:70-78 | a run of the whole step list that began with reading the object does what it does by right only, the reason being found and evidenced in this run's git steps, does not store the object at all if it is being deleted and protected, and is finished with its project unless it errs |
| GitRepoSteps.RanAnswers | pipeline/pipeline.go:70-86 | by the law of step lists, every step of a GitRepo's run but the last let the list go on, and its error is that step's |
| GitRepoSteps.Recorded | pipeline/pipeline.go:70-86 | the controller's loop over its steps is a run of the step list in the sense of `Pipeline.Run` |
| GitRepoEvents.AbsentGrants | controllers/gitrepo/steps.go:72-84 | having been seen absent is a claim on a project, and once that claim is stored it may be created |
| CIVariables.Reconciler.Operate | controllers/gitrepo/steps.go:218-268 | over any sequence of runs with any edits of spec and secrets: names never applied are as at the start; if every run stored its record, every variable ever applied and since dropped is gone and those in the spec have their resolved values; without faults, every run did exactly if each had all its values and none stored the changed object without a later error, and the names on record and on the server are in every case as computed from the sequence |
| CIVariables.Reconciler.Run | controllers/gitrepo/steps.go:218-268 | whatever fails, everything of ours on the server is on record or known to be loose, loose names come only from the spec, and names never applied are untouched; a run that succeeds has applied the spec; without faults it succeeds exactly if every entry has a value, and stores the record exactly if the status is stored on the way or the object is not stored at the end. After a success, by the fields of the spec alone: with unique names each variable has the entry's text, or the content of the secret's key it refers to, or nothing if it has neither or the reference is optional and missing, and the entry's options; a recorded variable whose name the spec no longer has is gone; and the run succeeds, without faults, exactly if no entry has both text and a source, and every source is a complete reference that finds its key or need not |
| CIVariables.DroppedNameStaysIff | pipeline/steps.go:57-97 | a dropped variable is still there after later runs exactly if none of them succeeded, or it was not on record before the run that applied it last and that run did not store the record |
| CIVariables.NotAppliedIff | controllers/gitrepo/steps.go:218-268 | a name that no run applies any more is still there exactly if it was there and no run succeeded or it was not on record |
| CIVariables.FirstRunLosesTrack | pipeline/steps.go:57-97 | two successful runs after which a dropped variable is still on the server: the first of a new GitRepo, and one without the variable |
| CIVariables.Project.EnsureCIVariables | git/gitlab/gitlab.go:535-589 | whatever fails no variable outside the managed set changes; without faults the managed ones are exactly the given ones whatever part of the listing came back; a full listing spares every variable that is as asked |
| CIVariables.Project.UpdateOrCreate | git/gitlab/gitlab.go:614-638 | success leaves the variable as asked, failure as before or as asked, and no other changes |
| CIVariables.UpdateConvergesUpToDescription | git/gitlab/gitlab.go:593-638 | a written variable is as asked, and is written again next time exactly if its description differs |
| CIVariables.UniqueNamesPinValues | git/gitlab/gitlab.go:535-589 | with unique names each managed variable is as its only entry says |
| DeployKeys.Gitlab.UpdateDeployKeys | git/gitlab/gitlab.go:86-115 | whatever fails an equal key stays and only differing ones are added, and success means that every differing one was; without faults the server holds exactly the replaced keys under unique titles; in step, no call that writes is made. Undisturbed, by the texts alone: of keys without white space at their ends, one the server has stays exactly if type, text and access are as wanted, and is otherwise replaced by a new one with the wanted three; one that is not wanted goes and one that is missing is added, unless it is blank |
| DeployKeys.Gitlab.RemoveDeployKeys | git/gitlab/gitlab.go:137-151 | only keys of the given titles go |
| DeployKeys.Gitlab.SetDeployKeys | git/gitlab/gitlab.go:281-301 | one key is added for each given title, and nothing else changes |
| DeployKeys.Gitlab.GetDeployKeys | git/gitlab/gitlab.go:310-328 | the keys by title, as the server prints them |
| DeployKeys.CompareKeys | git/helpers/helpers.go:16-24 | the keys of the first set that the second lacks or has otherwise, up to white space |
| DeployKeys.TrimMeans | git/helpers/helpers.go:26-31 | trimming takes white space off both ends, all of it and nothing else |
| DeployKeys.AsciiSpace | git/helpers/helpers.go:26-31 | of the ASCII characters the space and the five from tab to carriage return are white space |
| DeployKeys.UpdateOutcome | git/gitlab/gitlab.go:86-115 | title by title, what the server holds after an update |
| DeployKeys.ConvergesIff | git/gitlab/gitlab.go:86-115 | after an undisturbed update both sides agree exactly if every added key survives printing and splitting; then a second update does nothing |
| DeployKeys.SpacedTypeNeverConverges | git/gitlab/gitlab.go:310-328 | a key with a space in its type that an update adds and that differs again afterwards |
| DeployKeys.RoundTripsWhen | git/gitlab/gitlab.go:310-328 | a key survives exactly if its type has no space and what follows its first word is white space |
| DeployKeys.InStepMeansEqual | git/helpers/helpers.go:16-31 | without blank keys, agreeing means equal titles and equal keys up to white space |
| DeployKeys.BlankKeysAreInvisible | git/helpers/helpers.go:16-31 | a blank key counts as absent |
| TemplateFiles.TenantHistory.Operate | controllers/tenant/git.go:13-66 | over any sequence of reconciles no file name ever held is lost, and the contents are those the latest stored reconcile asks for; the live files are then exactly the ones it wants, if and only if none of its pipeline files is the mark; undisturbed, it is the last of the sequence |
| TemplateFiles.TenantHistory.Reconcile | controllers/tenant/git.go:13-66 | one reconcile renews all files or none, undisturbed it renews them, and repeated with the same inputs it changes nothing; each cluster has a file of its name that names the tenant's common class, unless the enabled pipeline has one of that name, whose files are as given; all other old names but the common one carry the mark |
| TemplateFiles.TenantObject.UpdateTenantGitRepo | controllers/tenant/git.go:13-66 | the files are the clusters', the enabled pipeline's and the common one, and every other old name carries the mark |
| TemplateFiles.TenantObject.AddDefaultClassFile | controllers/tenant/class.go:16-25 | the common file is there afterwards, its old content kept |
| TemplateFiles.LiveAreWantedIff | controllers/tenant/git.go:19-63 | the live files are exactly the wanted ones if and only if no pipeline file consists of the mark |
| TemplateFiles.MarkedFileIsLost | controllers/tenant/git.go:49-54 | inputs for which a wanted file is not live |
| TemplateFiles.RenewedTwice | controllers/tenant/git.go:13-66 | renewing twice is renewing once |
| CommitFiles.Gitlab.CommitTemplateFiles | git/gitlab/gitlab.go:331-373 | the repository is left alone or brought to what the templates ask for; without faults it succeeds exactly if no live template lies below the root already and no marked one is a directory |
| CommitFiles.Gitlab.CompareFiles | git/gitlab/gitlab.go:378-433 | every page of the root is read, and the plan touches each path once, creates only what the root lacks and deletes only what it has |
| CommitFiles.AcceptableIff | git/gitlab/gitlab.go:378-433 | the only two things the server can object to |
| CommitFiles.Outcome | git/gitlab/gitlab.go:331-373 | after an accepted commit live root names are present, marked ones absent, no content changed and nothing else came or went |
| CommitFiles.NothingLeftToCommit | git/gitlab/gitlab.go:331-373 | for templates at the root a second commit has no action |
| CommitFiles.NestedTemplateBlocksNextCommit | git/gitlab/gitlab.go:378-433 | a live template below the root that is there already makes the commit unacceptable |
| CommitFiles.NothingToCommitIff | git/gitlab/gitlab.go:378-433 | the plan is empty exactly if the root shows every live name and no marked one |
| AccessTokens.AccessTokenReconciler.Operate | controllers/gitrepo/steps.go:169-214 | over all runs the secret's UID and token belong to one issued token, and if listings are complete a token is issued only in runs that begin with the project having none usable of the secret's UID, at most one each, and one each without faults; without such runs the secret never changes |
| AccessTokens.AccessTokenReconciler.EnsureAccessToken | controllers/gitrepo/steps.go:169-214 | while the secret's token is among those the listing shows as usable nothing is issued and the secret stays; otherwise success leaves a newly issued token in it; after a successful run the token is unexpired exactly if the listing did not show it as still usable though expired |
| AccessTokens.Project.EnsureProjectAccessToken | git/gitlab/gitlab.go:453-529 | a usable listed token with the UID is reused, without a UID one that none outlasts; a new one is issued exactly if the listing has none to reuse, and with a complete listing never while the project has one |
| AccessTokens.AnswerInPlainTerms | git/gitlab/gitlab.go:453-529 | a token is reused exactly if one is listed that is active, not revoked, of the UID and not ten days past its expiry, and without a UID it is one that none outlasts; a new one lives for thirty days |
| AccessTokens.ReusedUnexpiredIff | git/gitlab/gitlab.go:453-529 | a reused token has not expired exactly if the listing does not show it as usable though expired |
| AccessTokens.ExpiredYetUsable | git/gitlab/gitlab.go:472-474 | a token that expired a day ago and is listed as active is one of those |
| GeneratedKeys.GitRepo.EnsureGeneratedDeployKeys | controllers/gitrepo/steps.go:273-346 | an entry leaves only with its secret deleted, a secret is generated only where there was none, even when other entries fail; without an error the entries are exactly the wanted ones with their secrets' public keys, and such a state is at rest: a run on it changes neither entries nor secrets; without faults a run succeeds exactly if every unwanted entry still has its secret and no wanted secret lacks a key; by the texts alone: each wanted key has an entry with the second word of its secret's public key, and a new entry, or one with another key, has its first word as type, the access asked for and the secret's name |
| GeneratedKeys.History.Reconcile | pipeline/steps.go:57-97 | with the status stored as the rest of the reconcile has it, the next run after a successful one can succeed exactly if the status was stored or no entry was dropped; a run that finds an entry without its secret errs and leaves it so; and a run at rest changes nothing |
| GeneratedKeys.LostStatusIff | controllers/gitrepo/steps.go:276-299 | a successful run whose status is lost has the next one err exactly if it dropped an entry |
| GeneratedKeys.StuckStays | controllers/gitrepo/steps.go:276-299 | an unwanted entry whose secret is gone stays through any run, and no run succeeds |
| GeneratedKeys.DroppedKeyComesBack | controllers/gitrepo/steps.go:276-299 | a state and a lawful, successful run after which, with the status lost, the object is stuck |
| GeneratedKeys.GitRepo.DropUnwanted | controllers/gitrepo/steps.go:276-299 | the first loop: unwanted entries go together with their secrets, and an entry whose secret could not be deleted stays |
| GeneratedKeys.GitRepo.EnsureKey | controllers/gitrepo/steps.go:301-343 | one wanted key: its secret is kept or generated, and its entry follows the secret |
| GeneratedKeys.NothingLeftToDo | controllers/gitrepo/steps.go:273-346 | a lawful run on a settled state leaves it as it is, whatever fails |
| GeneratedKeys.PartsSpelled | controllers/gitrepo/steps.go:323-330 | the type stands before the first space of the public key, the key between that and the next |
| GeneratedKeys.AccessTakenOverIff | controllers/gitrepo/steps.go:329-342 | a changed access reaches the entry exactly if the entry is new, its key changed or the access is the same |
| Vault.BankVaultClient.RemoveSecret | vault/client.go:172-220 | terminates and never lists an empty directory; success removes or soft-deletes every leaf below the path, failure leaves each leaf handled or as before, nothing outside changes, and Retain changes nothing and fails |
| Vault.RemovedInPlainTerms | vault/client.go:172-220 | after a successful removal nothing is left below the path, or everything with its data and every version deleted, as the policy says, and all else is as it was |
| Vault.BankVaultClient.AddSecret | vault/client.go:116-153 | the latest version holds the token beside the data it had, older versions and other paths are untouched, and an equal token is not written again |
| Vault.GetVersionList | vault/client.go:222-247 | all version numbers, in strictly increasing order |
| Vault.ReconcileCluster | vault/reconcile_steps.go:21-99 | writing the token and then removing below the cluster's path: a deleted cluster's path ends empty or soft-deleted, others are untouched, and without a usable token nothing happens at all |
| Vault.EntryForCovers | vault/client.go:259-281 | every leaf below a directory is covered by exactly one entry of its listing |
| Vault.NextEntry | vault/client.go:180-190 | while a directory is swept, each entry still to come stands for a leaf: a subdirectory is not empty |
| ServiceAccountTokens.GetServiceAccountToken | vault/reconcile_steps.go:46-74 | the token of a newest eligible secret, and none exactly when there is none or the listing failed: no eligible one was created later, and none at the same time has a later name |
| ServiceAccountTokens.SortReverse | vault/reconcile_steps.go:54-56 | the secrets are permuted in place into descending order |
| ServiceAccountTokens.FirstIsNewest | vault/reconcile_steps.go:58-71 | in any descending arrangement the first eligible secret is newest, however the sort treats ties |
| ServiceAccountTokens.NewestUnique | vault/reconcile_steps.go:46-74 | with distinct times and names there is one newest secret |
| ServiceAccountTokens.LessWeakOrder | collection/values.go:12-19 | Less is a strict weak order, and incomparable means same time and name |
| ServiceAccountTokens.NewestIff | collection/values.go:12-19 | newest by time and then name is greatest by the order sorted in |
| Strings.BelowIff | collection/values.go:12-19 | the order of names: a proper prefix comes first, and otherwise the first difference decides |
| Labels.ClusterFacts | metrics/cluster_info_collector.go:109-134 | the metric carries every fact under its label in the order of the keys, and is dropped exactly if a normalised key clashes with a numbered one; the labels cluster and tenant carry those two names, and each further one the fact of its key |
| Labels.DistinctIff | metrics/cluster_info_collector.go:115-121 | the labels are pairwise distinct exactly if no key equals another followed by an underscore and a number below its multiplicity |
| Labels.Deduplicate | metrics/cluster_info_collector.go:115-121 | in place, each repeated key is given the number of its earlier occurrences |
| Labels.FactLabels | metrics/cluster_info_collector.go:109-134 | every emitted label is a Prometheus label name, does not start with two underscores and is not one of the operator's own |
| Labels.NormalizeEmittable | metrics/cluster_info_collector.go:136-157 | so is every normalised key; a key that was fine stays as it is |
| Labels.NormalizeSpelled | metrics/cluster_info_collector.go:136-157 | letters, digits and underscores stay, all else and a digit in front become underscores; then a leading underscore gets the prefix fact_, and cluster and tenant get orig_ |
| Labels.EmittedSpelled | metrics/cluster_info_collector.go:115-121 | a key's first occurrence keeps it, a later one is followed by an underscore and the number of earlier ones |
| Labels.NumberingMayClash | metrics/cluster_info_collector.go:115-121 | three facts whose labels are not distinct after numbering |
| Labels.Pairs | metrics/compile_meta_collector.go:153-176 | the keys of a map in strictly increasing order, with their values |

## Left out

- CompilePipeline.TenantCompilePipelineReconciler.Reconcile: stale caches and several workers on one tenant, which the assumptions exclude.
- GitRepos.GitRepoReconciler.CreateClaimed: no liveness; when creation fails after the project exists the claim is gone and the project is adopted only under the Adopt policy.
- GitRepos.GitRepoReconciler.ApplySpec: the token, variable, file and key calls are single calls there; what they do is in the modules of their own.
- GitRepos.GitRepoReconciler.Operate: generated deploy keys are a step that may fail there; `GeneratedKeys` has the step itself. The controller's
  loop over its steps is written out in the class, as its steps are methods; `GitRepoSteps.Recorded` ties it to the step lists.
- GitRepos.GitRepoReconciler.GetGitClient: URL and host keys are settings that others may change between any two calls, where the code makes them up from the
  endpoint's secret and the template; undisturbed they stay, as the template in force does.
- DeployKeys.Gitlab.UpdateDeployKeys: paging of the key listing, and keys changed by others during an update.
- CIVariables.Reconciler.Operate: last-applied variables are kept as a list, as JSON encoding is taken to be lossless. What a run does after applying them is
  given by `Pipeline.Sequel`, which `GitRepoSteps.StatusStoredIff` and `GitRepos.GitRepoReconciler.HandleRepoError` bear out; with faults, names that a run applied but did not record are counted as loose.
- AccessTokens.Project.EnsureProjectAccessToken: GitLab may grant another expiry than asked for, which the model does not; without a complete listing a token in use may not be seen, and then another is issued.
- Vault.BankVaultClient.RemoveSecret: takes a bound on the depth of the tree for its termination, which every finite tree has (`Vault.Deepest`); secrets written by others during a removal.
- Vault.BankVaultClient.AddSecret: Vault's own limit on the number of versions, and data that is not a table of strings.
- GeneratedKeys.GitRepo.GenerateKey: cryptography; the key is any text without a space.
- ServiceAccountTokens.SortReverse: the insertion sort that Go uses for short lists stands for its sort; `FirstIsNewest` holds for the result of any other.
- RemoveSecrets and AddSecrets over several paths: the operator always passes one.
- The Vault steps when Vault is switched off, and the deletion annotations and finalizers of tenants and clusters, which run the same common steps as a GitRepo.
- Display names of projects, archiving details, role bindings, service accounts and bootstrap tokens: create-if-absent or set-if-different.
- Merging of cluster and GitRepo templates and URL parsing: they rest on libraries that are not part of this model.
- HTTP, TLS, authentication, logging, metric emission and manager setup.
