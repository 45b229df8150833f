# GitVersion core: branch policies, pre-release labels, the trunk-based pre-release rule and the version context

A verified Dafny model of three pieces of GitVersion's version calculation:

- **Branch-policy resolution** (`ConfigurationExtensions`):
  - selecting the policies whose pattern matches a branch name, with the catch-all `unknown` policy yielded last;
  - picking the first of them, or the empty policy;
  - the release-branch flag and the global fallback policy;
  - assembling the effective configuration, where the parent's configuration is inherited only by an `Inherit` policy;
  - turning the ignore rules into commit filters;
  - computing a branch's pre-release label. The branch name is sanitised to `[a-zA-Z0-9-_]`, the template's `{group}` placeholders are filled from the captures of the branch pattern, `_` becomes `-`, and the `number` capture of the label-number pattern is appended.
- **The trunk-based rule for a commit on a non-trunk branch carrying a pre-release version** (`CommitOnNonTrunkWithPreReleaseTagBase`). The rule fires when the commit has no child iteration, is not on a main branch, and the walk carries a pre-release version. It then updates the walk's mutable context in place: the context is a Dafny class.
- **Assembly of the version context** (`GitVersionContextFactory.Create`):
  - resolving the target branch, failing without one;
  - resolving its commit;
  - reattaching a detached head to the single branch that contains the commit;
  - reading the tagged version with the configured tag prefix.

Files:

| file | module | contents |
|---|---|---|
| `wrappers.dfy` | `Wrappers` | `Option`, `Result` |
| `text.dfy` | `Text` | `IsNullOrEmpty`, `IsNullOrWhiteSpace`, `string.Replace` and `string.Replace(char, char)` over `seq<char>` |
| `regex.dfy` | `Regex` | the regular-expression engine as a pair of functions, and the fixed sanitising replacement |
| `git.dfy` | `Git` | commits, reference names, branches, semantic versions |
| `configuration.dfy` | `Configuration` | branch policies, the whole configuration, effective configuration, ignore filters |
| `configuration_extensions.dfy` | `ConfigurationExtensions` | policy selection, effective configuration, filters, branch-specific label |
| `trunk_based.dfy` | `TrunkBased` | `TrunkBasedContext` class, `MatchPrecondition`, `GetIncrements` |
| `context_factory.dfy` | `ContextFactory` | `OnlyOrDefault`, branch reattachment, `Create` |

Some collaborators' code is not part of this model. Each is supplied by the caller as a function:
- `IsMatch` of a branch policy (`BranchMatcher`);
- the `EffectiveConfiguration` constructor that merges a policy with the global defaults and a fallback (`ConfigurationMerger`);
- the regular-expression engine (`RegexEngine`);
- `ReferenceName.WithoutOrigin`, carried as a field of `ReferenceName`;
- the repository queries (`RepositoryStore`);
- the configuration provider (`ConfigProvider`).

Two operations loop in the source: `GetBranchConfigurations` over the mapping, and `GetBranchSpecificLabel` over the group names. Each is a method with a loop, proved equal to a specification function. The other properties are proved about those functions.

Whenever sanitising ran, the label-number pattern sees the sanitised name, because `src/GitVersion.Core/Extensions/ConfigurationExtensions.cs:96` reassigns `effectiveBranchName`. `NumberAppendedOnlyWhenMatched` and `ExampleNumberSuffixAfterSanitising` state this.

## Model

| member | source | states |
|---|---|---|
| ConfigurationExtensions.GetBranchConfigurations | src/GitVersion.Core/Extensions/ConfigurationExtensions.cs:48-67 | the one pass yields exactly the matching non-catch-all policies in mapping order, followed by the catch-all policy when it matched |
| ConfigurationExtensions.SpecificMatchesAppend | src/GitVersion.Core/Extensions/ConfigurationExtensions.cs:51-63 | the policies selected from a split mapping are those of the first part followed by those of the second |
| ConfigurationExtensions.CatchAllMatchAppend | src/GitVersion.Core/Extensions/ConfigurationExtensions.cs:55-58 | the remembered catch-all of a split mapping is the second part's if it has one, else the first part's |
| ConfigurationExtensions.CatchAllMatchAbsent | src/GitVersion.Core/Extensions/ConfigurationExtensions.cs:50-58 | entries that do not carry the `unknown` key never supply the catch-all |
| ConfigurationExtensions.SpecificMatchesNone | src/GitVersion.Core/Extensions/ConfigurationExtensions.cs:51-63 | when no non-catch-all entry matches, no specific policy is yielded |
| ConfigurationExtensions.SpecificMatchesMembers | src/GitVersion.Core/Extensions/ConfigurationExtensions.cs:51-63 | a policy is yielded as a specific match if and only if some non-`unknown` entry holding it matches |
| ConfigurationExtensions.CatchAllYieldedLast | src/GitVersion.Core/Extensions/ConfigurationExtensions.cs:55-66 | when the catch-all matches, it is the last policy yielded, and every policy before it is a specific match |
| ConfigurationExtensions.CatchAllPositionIrrelevant | src/GitVersion.Core/Extensions/ConfigurationExtensions.cs:48-67 | where the catch-all entry sits in the mapping does not change the selection |
| ConfigurationExtensions.CatchAllMatchMember | src/GitVersion.Core/Extensions/ConfigurationExtensions.cs:55-58 | a catch-all is remembered if and only if some entry with the `unknown` key matches, and it is the policy of such an entry |
| ConfigurationExtensions.ChosenPolicyMatches | src/GitVersion.Core/Extensions/ConfigurationExtensions.cs:48-67 | every yielded policy belongs to an entry that matches the name, and nothing is yielded when no entry matches |
| ConfigurationExtensions.GetBranchConfiguration | src/GitVersion.Core/Extensions/ConfigurationExtensions.cs:33-38 | the chosen policy is the empty policy or the policy of an entry that matches the name without `origin/`; with no matching entry it is the empty policy |
| ConfigurationExtensions.FirstSpecificMatchWins | src/GitVersion.Core/Extensions/ConfigurationExtensions.cs:33-38 | the chosen policy is the first non-catch-all entry, in mapping order, that matches the name without `origin/` |
| ConfigurationExtensions.CatchAllOrEmptyWhenNoSpecificMatch | src/GitVersion.Core/Extensions/ConfigurationExtensions.cs:33-38 | with no specific match, the chosen policy is the matching catch-all, else the empty policy |
| ConfigurationExtensions.IsReleaseBranch | src/GitVersion.Core/Extensions/ConfigurationExtensions.cs:74-75 | true exactly when the chosen policy's release flag is set to true; an unset flag reads as false |
| ConfigurationExtensions.GetFallbackBranchConfiguration | src/GitVersion.Core/Extensions/ConfigurationExtensions.cs:69 | the fallback policy is the configuration's own global policy |
| ConfigurationExtensions.FallbackConfiguration | src/GitVersion.Core/Extensions/ConfigurationExtensions.cs:21-26 | a fallback is passed on if and only if the chosen policy inherits and a parent configuration exists, and then it is the parent's |
| ConfigurationExtensions.GetEffectiveConfiguration | src/GitVersion.Core/Extensions/ConfigurationExtensions.cs:18-28 | the chosen policy is merged with the parent configuration as fallback when it inherits, and with no fallback otherwise |
| ConfigurationExtensions.ParentIgnoredUnlessInherit | src/GitVersion.Core/Extensions/ConfigurationExtensions.cs:18-28 | for a policy that does not inherit, the effective configuration does not depend on the parent and is merged without a fallback |
| ConfigurationExtensions.GetEffectiveBranchConfiguration | src/GitVersion.Core/Extensions/ConfigurationExtensions.cs:11-16 | pairs the branch with the effective configuration for its name |
| ConfigurationExtensions.ToFilters | src/GitVersion.Core/Extensions/ConfigurationExtensions.cs:40-46 | a SHA filter exactly when SHAs are listed and a date filter exactly when a cut-off is set; the SHA filter comes first |
| ConfigurationExtensions.Placeholder | src/GitVersion.Core/Extensions/ConfigurationExtensions.cs:104 | the placeholder is the group name with `{` before it and `}` after it, and nothing else |
| ConfigurationExtensions.GetBranchSpecificLabel | src/GitVersion.Core/Extensions/ConfigurationExtensions.cs:81-124 | the step-by-step formatter, including its loop over group names, computes exactly the branch-specific label |
| ConfigurationExtensions.GetBranchSpecificLabelForReference | src/GitVersion.Core/Extensions/ConfigurationExtensions.cs:77-79 | the reference-name overload is the label for the name without `origin/` |
| ConfigurationExtensions.NoTemplateNoLabel | src/GitVersion.Core/Extensions/ConfigurationExtensions.cs:86-90 | without a label template there is no label |
| ConfigurationExtensions.OverrideTakesPrecedence | src/GitVersion.Core/Extensions/ConfigurationExtensions.cs:92 | with a template there is always a label, and an override behaves exactly as if it were the branch name |
| ConfigurationExtensions.SanitisedNameIsLabelSafe | src/GitVersion.Core/Extensions/ConfigurationExtensions.cs:94-96 | sanitising keeps the name non-empty and its length unchanged, and leaves only `[a-zA-Z0-9-_]` |
| ConfigurationExtensions.MatchedLabelIsHyphenSafe | src/GitVersion.Core/Extensions/ConfigurationExtensions.cs:99-108 | after a successful match the substituted label holds no `_`, and it is followed only by the numeric suffix |
| ConfigurationExtensions.NumberAppendedOnlyWhenMatched | src/GitVersion.Core/Extensions/ConfigurationExtensions.cs:111-121 | the `number` capture is appended exactly when the number pattern and the name are non-empty and the group matched; otherwise the label is the substituted template |
| ConfigurationExtensions.SubstituteBranchNameGroup | src/GitVersion.Core/Extensions/ConfigurationExtensions.cs:102-105 | for a prefix without `{` or `0`, and captures giving `0` and `branchName` the same text, substituting the groups `0` then `branchName` into `prefix{branchName}` gives the prefix followed by that text |
| ConfigurationExtensions.WholeNameSubstitution | src/GitVersion.Core/Extensions/ConfigurationExtensions.cs:94-108 | for a prefix without `{`, `0` or `_`, a non-empty name without `_`, no label-number pattern, and a pattern whose groups `0` and `branchName` both capture the whole sanitised name: `prefix{branchName}` becomes the prefix followed by the sanitised name |
| ConfigurationExtensions.ExampleBranchNameSubstitution | src/GitVersion.Core/Extensions/ConfigurationExtensions.cs:94-108 | `alpha.{branchName}` on `feature/1.x` gives `alpha.feature-1-x` |
| ConfigurationExtensions.ExampleNumberSuffix | src/GitVersion.Core/Extensions/ConfigurationExtensions.cs:111-121 | template `alpha` with a `number` capture of `42` in `hotfix/42` gives `alpha42` |
| ConfigurationExtensions.ExampleNumberSuffixAfterSanitising | src/GitVersion.Core/Extensions/ConfigurationExtensions.cs:94-121 | once sanitising ran, the number pattern sees `hotfix-42`, so a pattern needing `/` appends nothing |
| Regex.GroupValue | src/GitVersion.Core/Extensions/ConfigurationExtensions.cs:104 | a group's value is its capture, or the empty string for a group that did not take part |
| Regex.NumberCapture | src/GitVersion.Core/Extensions/ConfigurationExtensions.cs:114-117 | the `number` group is present exactly when the match succeeded and the group took part, and then it holds that capture |
| Regex.Sanitise | src/GitVersion.Core/Extensions/ConfigurationExtensions.cs:96 | same length; every character outside `[a-zA-Z0-9-_]` becomes `-` and every other character stays |
| Regex.SanitisedIsLabelSafe | src/GitVersion.Core/Extensions/ConfigurationExtensions.cs:96 | a sanitised name holds label characters only |
| Regex.SanitiseKeepsLabelSafe | src/GitVersion.Core/Extensions/ConfigurationExtensions.cs:96 | a name made of label characters only is left unchanged |
| Regex.SanitiseIdempotent | src/GitVersion.Core/Extensions/ConfigurationExtensions.cs:96 | sanitising twice is sanitising once |
| Text.IsNullOrEmpty | src/GitVersion.Core/Extensions/ConfigurationExtensions.cs:112 | a null or empty string is also null-or-white-space; any other string has at least one character |
| Text.IsWhiteSpace | src/GitVersion.Core/Extensions/ConfigurationExtensions.cs:94 | no ASCII letter or digit, `-` or `_` is white space |
| Text.IsNullOrWhiteSpace | src/GitVersion.Core/Extensions/ConfigurationExtensions.cs:94 | a string that is not null-or-white-space is present and holds a character that is not white space |
| Text.Replace | src/GitVersion.Core/Extensions/ConfigurationExtensions.cs:104 | a replacement as long as the replaced text keeps the length; replacing a text by itself changes nothing |
| Text.ReplaceWithoutOccurrence | src/GitVersion.Core/Extensions/ConfigurationExtensions.cs:104 | replacing a substring that never occurs changes nothing |
| Text.ReplaceWithMissingCharacter | src/GitVersion.Core/Extensions/ConfigurationExtensions.cs:104 | replacing a placeholder that contains a character absent from the text changes nothing |
| Text.ReplaceSkipsPrefix | src/GitVersion.Core/Extensions/ConfigurationExtensions.cs:104 | a prefix that cannot start an occurrence is kept, and the replacement acts on the rest |
| Text.ReplaceLeadingOccurrence | src/GitVersion.Core/Extensions/ConfigurationExtensions.cs:104 | a leading occurrence is replaced, and the scan continues after it |
| Text.ReplaceChar | src/GitVersion.Core/Extensions/ConfigurationExtensions.cs:107 | same length; each occurrence of the old character becomes the new one, and every other character stays |
| Text.ReplaceCharRemoves | src/GitVersion.Core/Extensions/ConfigurationExtensions.cs:107 | after replacing `_`, no `_` remains |
| Text.ReplaceCharAbsent | src/GitVersion.Core/Extensions/ConfigurationExtensions.cs:107 | replacing a character that does not occur changes nothing |
| TrunkBased.MatchPrecondition | src/GitVersion.Core/VersionCalculation/TrunkBased/NonTrunk/CommitOnNonTrunkWithPreReleaseTagBase.cs:8-10 | holds only for a commit without a child iteration, not on a main branch, while the context carries a pre-release version |
| TrunkBased.GetIncrements | src/GitVersion.Core/VersionCalculation/TrunkBased/NonTrunk/CommitOnNonTrunkWithPreReleaseTagBase.cs:12-24 | yields one do-not-increment candidate from this rule, with the commit as source and the context's version; sets the context's source, increment and label; leaves the version unchanged and the precondition as it was |
| TrunkBased.GetIncrementsTwice | src/GitVersion.Core/VersionCalculation/TrunkBased/NonTrunk/CommitOnNonTrunkWithPreReleaseTagBase.cs:12-24 | applying the rule again to the same commit yields the same single candidate again, and leaves the source, increment, label and version as one application does |
| ContextFactory.OnlyOrDefault | src/GitVersion.Core/Core/GitVersionContextFactory.cs:32 | an element exactly when the sequence has exactly one, and then it is that one |
| ContextFactory.ReattachedBranch | src/GitVersion.Core/Core/GitVersionContextFactory.cs:30-34 | a detached head becomes the single branch that contains the commit; any other branch, or a detached head with no single containing branch, is kept |
| ContextFactory.ReattachmentOnlyToContainingBranch | src/GitVersion.Core/Core/GitVersionContextFactory.cs:30-34 | the branch changes only for a detached head whose commit lies on exactly one branch, and then becomes that branch |
| ContextFactory.Create | src/GitVersion.Core/Core/GitVersionContextFactory.cs:21-40 | fails with "Need a branch to operate on" exactly when no target branch resolves. Otherwise the commit comes from the target branch and the commit id, and the configuration from the injected override. The branch is reattached, the tagged version is read with the configured tag prefix, and the uncommitted-change count is the store's |
| ContextFactory.AttachedBranchKept | src/GitVersion.Core/Core/GitVersionContextFactory.cs:27-34 | a target branch that is not a detached head is the context's branch |
| ContextFactory.DetachedHeadReattachment | src/GitVersion.Core/Core/GitVersionContextFactory.cs:30-34 | a detached head is replaced by the single containing branch if there is exactly one, and kept otherwise |
| ContextFactory.ReattachmentKeepsCommit | src/GitVersion.Core/Core/GitVersionContextFactory.cs:27-36 | the containing-branch query has no effect on the commit or the tagged version |

## Left out

- Pattern matching itself is not modelled. This covers `IsMatch`, the regular-expression engine and its process-wide cache of compiled patterns. They are functions supplied by the caller, and a malformed pattern, which would throw, is not modelled.
- The merge of a policy with the global policy and a fallback (the `EffectiveConfiguration` constructor) is a supplied function.
- Several computations are recorded as values, not computed:
  - `ReferenceName.WithoutOrigin` travels with the name;
  - `SemanticVersion.IsPreRelease` is a field;
  - `TrunkBasedCommit.GetIncrementForcedByBranch` is a field;
  - `IGitVersionConfiguration.GetEmptyBranchConfiguration()` is the field `emptyBranchConfiguration`.
- `FindGitDir` and `ReadGitDirFromFile` (src/GitVersion.Core/Extensions/ConfigurationExtensions.cs:126-166) are file-system I/O and are not part of this model.
- The `IBranch` overloads of `GetBranchConfiguration` and `IsReleaseBranch` (src/GitVersion.Core/Extensions/ConfigurationExtensions.cs:30-31, 71-72) only forward `branch.Name`. The `ReferenceName` forms are modelled.
- `NotNull` guards on non-nullable arguments are not modelled: their datatype arguments are never null.
- The lazy enumerators are modelled fully enumerated, as sequences:
  - `GetBranchConfigurations` and `ToFilters`;
  - `GetIncrements`. Its context updates after the `yield` happen only once the caller moves past the single candidate, and the model performs them at once.
- `GetIncrements` requires the context to carry a semantic version, where the source throws without one. `MatchPrecondition` guarantees it.
- The `TrunkBasedIteration` argument of `MatchPrecondition` and `GetIncrements` is unused in the source, so it is omitted. The candidate's `source` is the concrete rule's type name, passed in as `ruleName`.
- `TrunkBasedContext` has only the four fields the rule reads or writes.
- `BaseVersionV2.ShouldIncrementFalse` is not part of this model. Its candidate is written out with `shouldIncrement` false.
- Repository queries are supplied functions: target branch, current commit, containing branches, tagged version and uncommitted-change count. So is `IConfigProvider.Provide`. The factory's constructor only null-checks its arguments.
- Commit times and the ignore cut-off (`DateTimeOffset`) are integers.
- Strings are sequences of Dafny characters, which are Unicode scalar values, where .NET uses UTF-16 code units. A character outside the Basic Multilingual Plane is one hyphen after sanitising here, but two in .NET.
