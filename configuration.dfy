/** The pre-parsed configuration: global policy, per-branch policies and ignore rules. */
module Configuration {
  import opened Wrappers
  import opened Git

  datatype IncrementStrategy = None | Major | Minor | Patch | Inherit

  /**
   * One branch policy (`IBranchConfiguration`). A `None` field is a setting the policy leaves
   * open; `isReleaseBranch` is the tri-state release flag.
   */
  datatype BranchConfiguration = BranchConfiguration(
    increment: IncrementStrategy,
    labelTemplate: Option<string>,
    regularExpression: Option<string>,
    labelNumberPattern: Option<string>,
    isReleaseBranch: Option<bool>,
    isMainBranch: Option<bool>)

  /** One entry of the ordered branch-key -> policy mapping. */
  datatype BranchEntry = BranchEntry(key: string, configuration: BranchConfiguration)

  /** The key of the catch-all policy. */
  const UnknownKey := "unknown"

  /** Commits to leave out: explicit SHAs, and everything before an optional cut-off instant. */
  datatype IgnoreConfiguration = IgnoreConfiguration(shas: set<string>, before: Option<int>)

  /**
   * The whole configuration (`IGitVersionConfiguration`). It is itself a branch policy, the global
   * defaults; `branches` keeps the mapping's iteration order.
   */
  datatype GitVersionConfiguration = GitVersionConfiguration(
    defaults: BranchConfiguration,
    branches: seq<BranchEntry>,
    emptyBranchConfiguration: BranchConfiguration,
    tagPrefix: Option<string>,
    ignore: IgnoreConfiguration)

  /**
   * The policy that applies to one branch once branch, global and inherited settings are merged.
   * `labelTemplate` is the pre-release label, possibly with `{group}` placeholders.
   */
  datatype EffectiveConfiguration = EffectiveConfiguration(
    increment: IncrementStrategy,
    labelTemplate: Option<string>,
    regularExpression: Option<string>,
    labelNumberPattern: Option<string>,
    isMainBranch: bool,
    isReleaseBranch: bool)

  datatype EffectiveBranchConfiguration = EffectiveBranchConfiguration(value: EffectiveConfiguration, branch: Branch)

  /** The commit filters built from the ignore rules. */
  datatype VersionFilter = ShaVersionFilter(shas: set<string>) | MinDateVersionFilter(minimum: int)
}
