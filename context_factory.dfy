/**
 * Assembly of the version context (`GitVersionContextFactory.Create`). The repository queries and
 * the configuration provider are collaborators whose code is not part of this model: they are
 * supplied as functions.
 */
module ContextFactory {
  import opened Wrappers
  import opened Git
  import opened Configuration

  /** The options one resolution runs with (repository info, settings, config info), flattened. */
  datatype GitVersionOptions = GitVersionOptions(
    targetBranch: Option<string>,
    commitId: Option<string>,
    onlyTrackedBranches: bool,
    overrideConfig: Option<map<string, string>>)

  /** The read-only repository queries the factory makes. */
  datatype RepositoryStore = RepositoryStore(
    getTargetBranch: Option<string> -> Option<Branch>,
    getCurrentCommit: (Branch, Option<string>) -> Commit,
    getBranchesContainingCommit: (Commit, bool) -> seq<Branch>,
    getCurrentCommitTaggedVersion: (Commit, Option<string>) -> Option<SemanticVersion>,
    numberOfUncommittedChanges: int)

  /** `IConfigProvider.Provide(overrideConfig)`. */
  datatype ConfigProvider = ConfigProvider(provide: Option<map<string, string>> -> GitVersionConfiguration)

  /** The factory and the collaborators it was constructed with, including the options injected at construction. */
  datatype GitVersionContextFactory = GitVersionContextFactory(
    configProvider: ConfigProvider,
    repositoryStore: RepositoryStore,
    options: GitVersionOptions)

  /** The snapshot one resolution works on. */
  datatype GitVersionContext = GitVersionContext(
    currentBranch: Branch,
    currentCommit: Commit,
    configuration: GitVersionConfiguration,
    currentCommitTaggedVersion: Option<SemanticVersion>,
    numberOfUncommittedChanges: int)

  datatype FactoryError = InvalidOperation(message: string)

  /** `OnlyOrDefault`: the element of a one-element sequence, nothing otherwise. */
  function OnlyOrDefault<T>(s: seq<T>): (r: Option<T>)
    ensures r.Some? <==> |s| == 1
    ensures r.Some? ==> r.value == s[0]
  {
    if |s| == 1 then Some(s[0]) else Option.None
  }

  /**
   * The branch the context reports: a detached head is reattached to the branch containing the
   * current commit when there is exactly one; any other branch is kept.
   */
  function ReattachedBranch(store: RepositoryStore, branch: Branch, commit: Commit, onlyTrackedBranches: bool): (r: Branch)
    ensures var containing := store.getBranchesContainingCommit(commit, onlyTrackedBranches);
      && (!branch.isDetachedHead ==> r == branch)
      && (branch.isDetachedHead && |containing| == 1 ==> r == containing[0])
      && (branch.isDetachedHead && |containing| != 1 ==> r == branch)
  {
    if branch.isDetachedHead then
      match OnlyOrDefault(store.getBranchesContainingCommit(commit, onlyTrackedBranches))
      case Some(branchForCommit) => branchForCommit
      case None => branch
    else branch
  }

  /** A branch other than the one resolved is only ever the single branch containing the commit of a detached head. */
  lemma ReattachmentOnlyToContainingBranch(store: RepositoryStore, branch: Branch, commit: Commit, onlyTrackedBranches: bool)
    requires ReattachedBranch(store, branch, commit, onlyTrackedBranches) != branch
    ensures branch.isDetachedHead
    ensures store.getBranchesContainingCommit(commit, onlyTrackedBranches) == [ReattachedBranch(store, branch, commit, onlyTrackedBranches)]
  {
    var containing := store.getBranchesContainingCommit(commit, onlyTrackedBranches);
    assert containing == [containing[0]];
  }

  const NeedABranch := "Need a branch to operate on"

  /**
   * `Create`: fails when no target branch resolves; otherwise resolves the commit from that branch,
   * reattaches a detached head, and queries the tagged version and the uncommitted changes.
   */
  function Create(factory: GitVersionContextFactory, gitVersionOptions: GitVersionOptions): (r: Result<GitVersionContext, FactoryError>)
    ensures r.Failure? <==> factory.repositoryStore.getTargetBranch(gitVersionOptions.targetBranch).None?
    ensures r.Failure? ==> r.error == InvalidOperation(NeedABranch)
    ensures r.Success? ==>
      var store := factory.repositoryStore;
      var target := store.getTargetBranch(gitVersionOptions.targetBranch).value;
      var context := r.value;
      && context.currentCommit == store.getCurrentCommit(target, gitVersionOptions.commitId)
      && context.configuration == factory.configProvider.provide(factory.options.overrideConfig)
      && context.currentBranch == ReattachedBranch(store, target, context.currentCommit, gitVersionOptions.onlyTrackedBranches)
      && context.currentCommitTaggedVersion == store.getCurrentCommitTaggedVersion(context.currentCommit, context.configuration.tagPrefix)
      && context.numberOfUncommittedChanges == store.numberOfUncommittedChanges
  {
    var store := factory.repositoryStore;
    match store.getTargetBranch(gitVersionOptions.targetBranch)
    case None => Failure(InvalidOperation(NeedABranch))
    case Some(targetBranch) =>
      var currentCommit := store.getCurrentCommit(targetBranch, gitVersionOptions.commitId);
      var configuration := factory.configProvider.provide(factory.options.overrideConfig);
      var currentBranch := ReattachedBranch(store, targetBranch, currentCommit, gitVersionOptions.onlyTrackedBranches);
      var currentCommitTaggedVersion := store.getCurrentCommitTaggedVersion(currentCommit, configuration.tagPrefix);
      Success(GitVersionContext(currentBranch, currentCommit, configuration, currentCommitTaggedVersion, store.numberOfUncommittedChanges))
  }

  /** On a branch that is not a detached head, the context keeps the resolved target branch. */
  lemma AttachedBranchKept(factory: GitVersionContextFactory, gitVersionOptions: GitVersionOptions)
    requires factory.repositoryStore.getTargetBranch(gitVersionOptions.targetBranch).Some?
    requires !factory.repositoryStore.getTargetBranch(gitVersionOptions.targetBranch).value.isDetachedHead
    ensures Create(factory, gitVersionOptions).Success?
    ensures Create(factory, gitVersionOptions).value.currentBranch == factory.repositoryStore.getTargetBranch(gitVersionOptions.targetBranch).value
  {
  }

  /**
   * On a detached head, the context branch is the branch containing the current commit when there
   * is exactly one (tracked ones only, if the settings say so), and the detached branch otherwise.
   */
  lemma DetachedHeadReattachment(factory: GitVersionContextFactory, gitVersionOptions: GitVersionOptions)
    requires factory.repositoryStore.getTargetBranch(gitVersionOptions.targetBranch).Some?
    requires factory.repositoryStore.getTargetBranch(gitVersionOptions.targetBranch).value.isDetachedHead
    ensures var target := factory.repositoryStore.getTargetBranch(gitVersionOptions.targetBranch).value;
      var context := Create(factory, gitVersionOptions).value;
      var containing := factory.repositoryStore.getBranchesContainingCommit(context.currentCommit, gitVersionOptions.onlyTrackedBranches);
      && Create(factory, gitVersionOptions).Success?
      && (|containing| == 1 ==> context.currentBranch == containing[0])
      && (|containing| != 1 ==> context.currentBranch == target)
  {
  }

  /**
   * Reattachment never changes the current commit: whatever branches the repository reports as
   * containing it, the commit is the one resolved from the original target branch.
   */
  lemma ReattachmentKeepsCommit(factory: GitVersionContextFactory, gitVersionOptions: GitVersionOptions, containing: (Commit, bool) -> seq<Branch>)
    requires factory.repositoryStore.getTargetBranch(gitVersionOptions.targetBranch).Some?
    ensures var other := factory.(repositoryStore := factory.repositoryStore.(getBranchesContainingCommit := containing));
      && Create(factory, gitVersionOptions).Success? && Create(other, gitVersionOptions).Success?
      && Create(other, gitVersionOptions).value.currentCommit == Create(factory, gitVersionOptions).value.currentCommit
      && Create(other, gitVersionOptions).value.currentCommitTaggedVersion == Create(factory, gitVersionOptions).value.currentCommitTaggedVersion
  {
  }
}
