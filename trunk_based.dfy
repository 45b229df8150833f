/**
 * The trunk-based increment rule for a commit on a non-trunk branch while the walk already carries
 * a pre-release version (`CommitOnNonTrunkWithPreReleaseTagBase`). The rule reads the visited
 * commit and updates the walk's mutable context in place.
 */
module TrunkBased {
  import opened Wrappers
  import opened Regex
  import opened Git
  import opened Configuration
  import opened ConfigurationExtensions

  /**
   * A commit visited by the walk. `hasChildIteration` guards against visiting a merge twice;
   * `incrementForcedByBranch` is what `GetIncrementForcedByBranch` answers for it, which is not
   * part of this model.
   */
  datatype TrunkBasedCommit = TrunkBasedCommit(
    value: Commit,
    hasChildIteration: bool,
    configuration: EffectiveConfiguration,
    branchName: ReferenceName,
    incrementForcedByBranch: VersionField)

  /** A base-version candidate produced by a rule: which rule, from which commit, which version, and whether to increment it. */
  datatype BaseVersionV2 = BaseVersionV2(
    source: string,
    baseVersionSource: Option<Commit>,
    semanticVersion: SemanticVersion,
    shouldIncrement: bool)

  /** The state the walk accumulates while it visits commits. */
  class TrunkBasedContext {
    var semanticVersion: Option<SemanticVersion>
    var preReleaseLabel: Option<string>
    var increment: VersionField
    var baseVersionSource: Option<Commit>

    constructor (semanticVersion: Option<SemanticVersion>, preReleaseLabel: Option<string>, increment: VersionField, baseVersionSource: Option<Commit>)
      ensures this.semanticVersion == semanticVersion && this.preReleaseLabel == preReleaseLabel
      ensures this.increment == increment && this.baseVersionSource == baseVersionSource
    {
      this.semanticVersion := semanticVersion;
      this.preReleaseLabel := preReleaseLabel;
      this.increment := increment;
      this.baseVersionSource := baseVersionSource;
    }
  }

  /**
   * `MatchPrecondition`: the commit has not produced a child iteration yet, its branch is not a
   * main branch, and the walk already carries a pre-release version. When it holds, the context
   * has the version `GetIncrements` needs.
   */
  predicate MatchPrecondition(commit: TrunkBasedCommit, context: TrunkBasedContext): (matches: bool)
    reads context
    ensures matches ==> context.semanticVersion.Some? && context.semanticVersion.value.isPreRelease
    ensures matches ==> !commit.hasChildIteration && !commit.configuration.isMainBranch
  {
    && !commit.hasChildIteration
    && !commit.configuration.isMainBranch
    && context.semanticVersion.Some? && context.semanticVersion.value.isPreRelease
  }

  /**
   * `GetIncrements`, enumerated to the end: the visited commit becomes the base-version source, one
   * "do not increment" candidate carrying the context's version is produced, and the increment and
   * label are reset from the commit's branch. `ruleName` is the name of the concrete rule.
   * Nothing else in the context changes, so the precondition still holds afterwards.
   */
  method GetIncrements(engine: RegexEngine, ruleName: string, commit: TrunkBasedCommit, context: TrunkBasedContext)
    returns (increments: seq<BaseVersionV2>)
    requires context.semanticVersion.Some?
    modifies context
    ensures |increments| == 1
    ensures increments[0] == BaseVersionV2(ruleName, Some(commit.value), old(context.semanticVersion.value), false)
    ensures context.baseVersionSource == Some(commit.value)
    ensures context.increment == commit.incrementForcedByBranch
    ensures context.preReleaseLabel == BranchSpecificLabel(engine, commit.configuration, Some(commit.branchName.withoutOrigin), Option.None)
    ensures context.semanticVersion == old(context.semanticVersion)
    ensures MatchPrecondition(commit, context) == old(MatchPrecondition(commit, context))
  {
    context.baseVersionSource := Some(commit.value);
    increments := [BaseVersionV2(ruleName, context.baseVersionSource, context.semanticVersion.value, false)];
    context.increment := commit.incrementForcedByBranch;
    var specificLabel := GetBranchSpecificLabelForReference(engine, commit.configuration, commit.branchName, Option.None);
    context.preReleaseLabel := specificLabel;
  }

  /**
   * Applying the rule twice to the same commit leaves the context as one application does, and
   * produces the same candidate again.
   */
  method GetIncrementsTwice(engine: RegexEngine, ruleName: string, commit: TrunkBasedCommit, context: TrunkBasedContext)
    returns (first: seq<BaseVersionV2>, second: seq<BaseVersionV2>)
    requires context.semanticVersion.Some?
    modifies context
    ensures first == second
    ensures first == [BaseVersionV2(ruleName, Some(commit.value), old(context.semanticVersion.value), false)]
    ensures context.baseVersionSource == Some(commit.value) && context.increment == commit.incrementForcedByBranch
    ensures context.preReleaseLabel == BranchSpecificLabel(engine, commit.configuration, Some(commit.branchName.withoutOrigin), Option.None)
    ensures context.semanticVersion == old(context.semanticVersion)
  {
    first := GetIncrements(engine, ruleName, commit, context);
    ghost var firstLabel := context.preReleaseLabel;
    second := GetIncrements(engine, ruleName, commit, context);
    assert context.preReleaseLabel == firstLabel;
  }
}
