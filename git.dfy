/** The repository entities the core reads: commits, reference names, branches and versions. */
module Git {

  /** A commit, identified by its SHA; `when` is its commit time, as an opaque instant. */
  datatype Commit = Commit(sha: string, when: int)

  /**
   * A reference name. `withoutOrigin` is the name with a leading remote `origin/` removed; how it
   * is computed is not part of this model, so it travels with the name.
   */
  datatype ReferenceName = ReferenceName(canonical: string, withoutOrigin: string)

  datatype Branch = Branch(name: ReferenceName, isDetachedHead: bool)

  /**
   * A semantic version. How a pre-release tag is parsed and when it counts as a pre-release is not
   * part of this model; `isPreRelease` records the outcome.
   */
  datatype SemanticVersion = SemanticVersion(major: nat, minor: nat, patch: nat, preReleaseTag: string, isPreRelease: bool)

  /** The version component an increment advances. */
  datatype VersionField = None | Patch | Minor | Major
}
