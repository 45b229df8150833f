/**
 * Branch-policy selection, effective-configuration assembly, ignore filters and the
 * branch-specific pre-release label (`ConfigurationExtensions`).
 *
 * Two collaborators whose code is not part of this model are parameters: `IsMatch` of a branch
 * policy, and the constructor of `EffectiveConfiguration` that merges a policy with the global
 * defaults and an optional fallback.
 */
module ConfigurationExtensions {
  import opened Wrappers
  import opened Text
  import opened Regex
  import opened Git
  import opened Configuration

  /** `IBranchConfiguration.IsMatch(branchName)`. */
  type BranchMatcher = (BranchConfiguration, string) -> bool

  /** `new EffectiveConfiguration(configuration, branchConfiguration, fallbackConfiguration)`. */
  type ConfigurationMerger = (GitVersionConfiguration, BranchConfiguration, Option<EffectiveConfiguration>) -> EffectiveConfiguration

  // ---------------------------------------------------------------------------------------------
  // Branch-policy selection

  /** An entry other than the catch-all whose policy matches the branch name. */
  predicate IsSpecificMatch(isMatch: BranchMatcher, entry: BranchEntry, branchName: string) {
    entry.key != UnknownKey && isMatch(entry.configuration, branchName)
  }

  /** A catch-all entry whose policy matches the branch name. */
  predicate IsCatchAllMatch(isMatch: BranchMatcher, entry: BranchEntry, branchName: string) {
    entry.key == UnknownKey && isMatch(entry.configuration, branchName)
  }

  /** The matching policies other than the catch-all, in mapping order. */
  function SpecificMatches(isMatch: BranchMatcher, entries: seq<BranchEntry>, branchName: string): seq<BranchConfiguration>
    decreases |entries|
  {
    if entries == [] then []
    else
      var last := entries[|entries| - 1];
      SpecificMatches(isMatch, entries[..|entries| - 1], branchName)
        + (if IsSpecificMatch(isMatch, last, branchName) then [last.configuration] else [])
  }

  /** The matching catch-all policy; when several entries carry its key, the last one that matches. */
  function CatchAllMatch(isMatch: BranchMatcher, entries: seq<BranchEntry>, branchName: string): Option<BranchConfiguration>
    decreases |entries|
  {
    if entries == [] then Option.None
    else if IsCatchAllMatch(isMatch, entries[|entries| - 1], branchName) then Some(entries[|entries| - 1].configuration)
    else CatchAllMatch(isMatch, entries[..|entries| - 1], branchName)
  }

  /** What `GetBranchConfigurations` yields: the specific matches, then the catch-all if it matched. */
  function BranchConfigurations(isMatch: BranchMatcher, entries: seq<BranchEntry>, branchName: string): seq<BranchConfiguration>
  {
    SpecificMatches(isMatch, entries, branchName)
      + match CatchAllMatch(isMatch, entries, branchName) { case None => [] case Some(c) => [c] }
  }

  /**
   * `GetBranchConfigurations`: one pass over the mapping that yields each matching policy at once,
   * except the catch-all, which is remembered and yielded after the pass.
   */
  method GetBranchConfigurations(isMatch: BranchMatcher, configuration: GitVersionConfiguration, branchName: string)
    returns (selected: seq<BranchConfiguration>)
    ensures selected == BranchConfigurations(isMatch, configuration.branches, branchName)
  {
    var branches := configuration.branches;
    var unknownBranchConfiguration: Option<BranchConfiguration> := Option.None;
    selected := [];
    for i := 0 to |branches|
      invariant selected == SpecificMatches(isMatch, branches[..i], branchName)
      invariant unknownBranchConfiguration == CatchAllMatch(isMatch, branches[..i], branchName)
    {
      assert branches[..i + 1][..i] == branches[..i];
      var entry := branches[i];
      if isMatch(entry.configuration, branchName) {
        if entry.key == UnknownKey {
          unknownBranchConfiguration := Some(entry.configuration);
        } else {
          selected := selected + [entry.configuration];
        }
      }
    }
    assert branches[..|branches|] == branches;
    if unknownBranchConfiguration.Some? {
      selected := selected + [unknownBranchConfiguration.value];
    }
  }

  /** Selection distributes over a split of the mapping: earlier entries are yielded first. */
  lemma {:induction false} SpecificMatchesAppend(isMatch: BranchMatcher, a: seq<BranchEntry>, b: seq<BranchEntry>, branchName: string)
    ensures SpecificMatches(isMatch, a + b, branchName) == SpecificMatches(isMatch, a, branchName) + SpecificMatches(isMatch, b, branchName)
    decreases |b|
  {
    if b == [] {
      assert a + b == a;
    } else {
      var b' := b[..|b| - 1];
      assert (a + b)[..|a + b| - 1] == a + b';
      SpecificMatchesAppend(isMatch, a, b', branchName);
    }
  }

  /** The catch-all of a split mapping is the one in the later part, if that part has a matching one. */
  lemma {:induction false} CatchAllMatchAppend(isMatch: BranchMatcher, a: seq<BranchEntry>, b: seq<BranchEntry>, branchName: string)
    ensures CatchAllMatch(isMatch, a + b, branchName)
         == if CatchAllMatch(isMatch, b, branchName).Some? then CatchAllMatch(isMatch, b, branchName) else CatchAllMatch(isMatch, a, branchName)
    decreases |b|
  {
    if b == [] {
      assert a + b == a;
    } else {
      var b' := b[..|b| - 1];
      assert (a + b)[..|a + b| - 1] == a + b';
      CatchAllMatchAppend(isMatch, a, b', branchName);
    }
  }

  /** Entries that do not carry the catch-all key never supply the catch-all. */
  lemma {:induction false} CatchAllMatchAbsent(isMatch: BranchMatcher, entries: seq<BranchEntry>, branchName: string)
    requires forall k :: 0 <= k < |entries| ==> entries[k].key != UnknownKey
    ensures CatchAllMatch(isMatch, entries, branchName) == Option.None
    decreases |entries|
  {
    if entries != [] {
      CatchAllMatchAbsent(isMatch, entries[..|entries| - 1], branchName);
    }
  }

  /** The remembered catch-all is the policy of a matching entry carrying the catch-all key. */
  lemma {:induction false} CatchAllMatchMember(isMatch: BranchMatcher, entries: seq<BranchEntry>, branchName: string)
    ensures CatchAllMatch(isMatch, entries, branchName).Some? <==>
      exists k :: 0 <= k < |entries| && IsCatchAllMatch(isMatch, entries[k], branchName)
    ensures CatchAllMatch(isMatch, entries, branchName).Some? ==>
      exists k :: 0 <= k < |entries| && IsCatchAllMatch(isMatch, entries[k], branchName)
        && entries[k].configuration == CatchAllMatch(isMatch, entries, branchName).value
    decreases |entries|
  {
    if entries != [] {
      var init := entries[..|entries| - 1];
      CatchAllMatchMember(isMatch, init, branchName);
      if exists k :: 0 <= k < |init| && IsCatchAllMatch(isMatch, init[k], branchName) {
        var k :| 0 <= k < |init| && IsCatchAllMatch(isMatch, init[k], branchName);
        assert entries[k] == init[k];
      }
      if CatchAllMatch(isMatch, init, branchName).Some? {
        var k :| 0 <= k < |init| && IsCatchAllMatch(isMatch, init[k], branchName)
          && init[k].configuration == CatchAllMatch(isMatch, init, branchName).value;
        assert entries[k] == init[k];
      }
      if exists k :: 0 <= k < |entries| && IsCatchAllMatch(isMatch, entries[k], branchName) {
        var k :| 0 <= k < |entries| && IsCatchAllMatch(isMatch, entries[k], branchName);
        if k < |init| {
          assert init[k] == entries[k];
        }
      }
    }
  }

  /** Without a matching non-catch-all entry there are no specific matches. */
  lemma {:induction false} SpecificMatchesNone(isMatch: BranchMatcher, entries: seq<BranchEntry>, branchName: string)
    requires forall k :: 0 <= k < |entries| ==> !IsSpecificMatch(isMatch, entries[k], branchName)
    ensures SpecificMatches(isMatch, entries, branchName) == []
    decreases |entries|
  {
    if entries != [] {
      SpecificMatchesNone(isMatch, entries[..|entries| - 1], branchName);
    }
  }

  /** A policy is yielded among the specific matches exactly when some non-catch-all entry holding it matches. */
  lemma {:induction false} SpecificMatchesMembers(isMatch: BranchMatcher, entries: seq<BranchEntry>, branchName: string, c: BranchConfiguration)
    ensures c in SpecificMatches(isMatch, entries, branchName)
        <==> exists k :: 0 <= k < |entries| && IsSpecificMatch(isMatch, entries[k], branchName) && entries[k].configuration == c
    decreases |entries|
  {
    if entries != [] {
      var init := entries[..|entries| - 1];
      SpecificMatchesMembers(isMatch, init, branchName, c);
      if exists k :: 0 <= k < |init| && IsSpecificMatch(isMatch, init[k], branchName) && init[k].configuration == c {
        var k :| 0 <= k < |init| && IsSpecificMatch(isMatch, init[k], branchName) && init[k].configuration == c;
        assert entries[k] == init[k];
      }
      if exists k :: 0 <= k < |entries| && IsSpecificMatch(isMatch, entries[k], branchName) && entries[k].configuration == c {
        var k :| 0 <= k < |entries| && IsSpecificMatch(isMatch, entries[k], branchName) && entries[k].configuration == c;
        if k < |init| {
          assert init[k] == entries[k];
        }
      }
    }
  }

  /**
   * The catch-all is yielded after every specific match: when the last entry with its key matches,
   * the selection ends with that policy and everything before it is a specific match.
   */
  lemma CatchAllYieldedLast(isMatch: BranchMatcher, entries: seq<BranchEntry>, branchName: string, k: nat)
    requires k < |entries| && IsCatchAllMatch(isMatch, entries[k], branchName)
    requires forall j :: k < j < |entries| ==> entries[j].key != UnknownKey
    ensures var selected := BranchConfigurations(isMatch, entries, branchName);
      && |selected| > 0
      && selected[|selected| - 1] == entries[k].configuration
      && selected[..|selected| - 1] == SpecificMatches(isMatch, entries, branchName)
  {
    var a, b := entries[..k + 1], entries[k + 1..];
    assert entries == a + b;
    assert a[..|a| - 1] == entries[..k];
    CatchAllMatchAbsent(isMatch, b, branchName);
    CatchAllMatchAppend(isMatch, a, b, branchName);
  }

  /**
   * Wherever the catch-all sits in the mapping, the selection is the same as with the catch-all
   * moved to the end (keys are unique, so no other entry carries its key).
   */
  lemma CatchAllPositionIrrelevant(isMatch: BranchMatcher, a: seq<BranchEntry>, unknown: BranchEntry, b: seq<BranchEntry>, branchName: string)
    requires unknown.key == UnknownKey
    requires forall k :: 0 <= k < |b| ==> b[k].key != UnknownKey
    ensures BranchConfigurations(isMatch, a + [unknown] + b, branchName) == BranchConfigurations(isMatch, a + b + [unknown], branchName)
  {
    SpecificMatchesAppend(isMatch, a + [unknown], b, branchName);
    SpecificMatchesAppend(isMatch, a, [unknown], branchName);
    SpecificMatchesAppend(isMatch, a + b, [unknown], branchName);
    SpecificMatchesAppend(isMatch, a, b, branchName);
    assert SpecificMatches(isMatch, [unknown], branchName) == [] by {
      assert [unknown][..0] == [];
    }
    CatchAllMatchAbsent(isMatch, b, branchName);
    CatchAllMatchAppend(isMatch, a + [unknown], b, branchName);
    CatchAllMatchAppend(isMatch, a, [unknown], branchName);
    CatchAllMatchAppend(isMatch, a + b, [unknown], branchName);
    CatchAllMatchAppend(isMatch, a, b, branchName);
    assert [unknown][..0] == [];
  }

  /** `GetBranchConfiguration`: the first selected policy for the name without `origin/`, else the empty policy. */
  function GetBranchConfiguration(isMatch: BranchMatcher, configuration: GitVersionConfiguration, branchName: ReferenceName): (r: BranchConfiguration)
    ensures r == configuration.emptyBranchConfiguration
         || exists k :: 0 <= k < |configuration.branches|
              && isMatch(configuration.branches[k].configuration, branchName.withoutOrigin) && configuration.branches[k].configuration == r
    ensures (forall k :: 0 <= k < |configuration.branches| ==> !isMatch(configuration.branches[k].configuration, branchName.withoutOrigin))
         ==> r == configuration.emptyBranchConfiguration
  {
    var entries, name := configuration.branches, branchName.withoutOrigin;
    var selected := BranchConfigurations(isMatch, entries, name);
    ChosenPolicyMatches(isMatch, entries, name);
    if selected != [] then assert selected[0] in selected; selected[0] else configuration.emptyBranchConfiguration
  }

  /** Every selected policy belongs to an entry that matches; with no matching entry, nothing is selected. */
  lemma ChosenPolicyMatches(isMatch: BranchMatcher, entries: seq<BranchEntry>, name: string)
    ensures forall c :: c in BranchConfigurations(isMatch, entries, name) ==>
      exists k :: 0 <= k < |entries| && isMatch(entries[k].configuration, name) && entries[k].configuration == c
    ensures (forall k :: 0 <= k < |entries| ==> !isMatch(entries[k].configuration, name)) ==> BranchConfigurations(isMatch, entries, name) == []
  {
    forall c | c in BranchConfigurations(isMatch, entries, name)
      ensures exists k :: 0 <= k < |entries| && isMatch(entries[k].configuration, name) && entries[k].configuration == c
    {
      if c in SpecificMatches(isMatch, entries, name) {
        SpecificMatchesMembers(isMatch, entries, name, c);
      } else {
        CatchAllMatchMember(isMatch, entries, name);
      }
    }
    if forall k :: 0 <= k < |entries| ==> !isMatch(entries[k].configuration, name) {
      SpecificMatchesNone(isMatch, entries, name);
      CatchAllMatchMember(isMatch, entries, name);
    }
  }

  /** The first entry, in mapping order, whose non-catch-all policy matches is the one chosen. */
  lemma FirstSpecificMatchWins(isMatch: BranchMatcher, configuration: GitVersionConfiguration, branchName: ReferenceName, k: nat)
    requires k < |configuration.branches|
    requires IsSpecificMatch(isMatch, configuration.branches[k], branchName.withoutOrigin)
    requires forall j :: 0 <= j < k ==> !IsSpecificMatch(isMatch, configuration.branches[j], branchName.withoutOrigin)
    ensures GetBranchConfiguration(isMatch, configuration, branchName) == configuration.branches[k].configuration
  {
    var entries, name := configuration.branches, branchName.withoutOrigin;
    var before, at, after := entries[..k], entries[k..k + 1], entries[k + 1..];
    assert entries == before + at + after;
    SpecificMatchesNone(isMatch, before, name);
    assert at[..0] == [];
    SpecificMatchesAppend(isMatch, before, at, name);
    SpecificMatchesAppend(isMatch, before + at, after, name);
  }

  /** With no specific match, a matching catch-all is chosen; with nothing matching, the empty policy. */
  lemma CatchAllOrEmptyWhenNoSpecificMatch(isMatch: BranchMatcher, configuration: GitVersionConfiguration, branchName: ReferenceName)
    requires forall j :: 0 <= j < |configuration.branches| ==> !IsSpecificMatch(isMatch, configuration.branches[j], branchName.withoutOrigin)
    ensures GetBranchConfiguration(isMatch, configuration, branchName)
         == match CatchAllMatch(isMatch, configuration.branches, branchName.withoutOrigin)
            case None => configuration.emptyBranchConfiguration
            case Some(c) => c
  {
    SpecificMatchesNone(isMatch, configuration.branches, branchName.withoutOrigin);
  }

  /** `IsReleaseBranch`: the tri-state flag of the chosen policy, with "unset" read as false. */
  function IsReleaseBranch(isMatch: BranchMatcher, configuration: GitVersionConfiguration, branchName: ReferenceName): (r: bool)
    ensures r <==> GetBranchConfiguration(isMatch, configuration, branchName).isReleaseBranch == Some(true)
  {
    var flag := GetBranchConfiguration(isMatch, configuration, branchName).isReleaseBranch;
    if flag.Some? then flag.value else false
  }

  /** `GetFallbackBranchConfiguration`: the configuration itself, seen as the policy of global defaults. */
  function GetFallbackBranchConfiguration(configuration: GitVersionConfiguration): (r: BranchConfiguration)
    ensures r == configuration.defaults
  {
    configuration.defaults
  }

  // ---------------------------------------------------------------------------------------------
  // Effective configuration

  /** The fallback handed to the merge: the parent's configuration, but only for an inheriting policy. */
  function FallbackConfiguration(branchConfiguration: BranchConfiguration, parentConfiguration: Option<EffectiveConfiguration>)
    : (fallback: Option<EffectiveConfiguration>)
    ensures fallback.Some? <==> branchConfiguration.increment == IncrementStrategy.Inherit && parentConfiguration.Some?
    ensures fallback.Some? ==> fallback == parentConfiguration
  {
    if branchConfiguration.increment == IncrementStrategy.Inherit then parentConfiguration else Option.None
  }

  /** `GetEffectiveConfiguration`. */
  function GetEffectiveConfiguration(
    isMatch: BranchMatcher, merge: ConfigurationMerger, configuration: GitVersionConfiguration,
    branchName: ReferenceName, parentConfiguration: Option<EffectiveConfiguration>): (r: EffectiveConfiguration)
    ensures GetBranchConfiguration(isMatch, configuration, branchName).increment != IncrementStrategy.Inherit
        ==> r == merge(configuration, GetBranchConfiguration(isMatch, configuration, branchName), Option.None)
    ensures GetBranchConfiguration(isMatch, configuration, branchName).increment == IncrementStrategy.Inherit
        ==> r == merge(configuration, GetBranchConfiguration(isMatch, configuration, branchName), parentConfiguration)
  {
    var branchConfiguration := GetBranchConfiguration(isMatch, configuration, branchName);
    merge(configuration, branchConfiguration, FallbackConfiguration(branchConfiguration, parentConfiguration))
  }

  /** For a policy that does not inherit, the parent configuration makes no difference at all. */
  lemma ParentIgnoredUnlessInherit(
    isMatch: BranchMatcher, merge: ConfigurationMerger, configuration: GitVersionConfiguration,
    branchName: ReferenceName, parent1: Option<EffectiveConfiguration>, parent2: Option<EffectiveConfiguration>)
    requires GetBranchConfiguration(isMatch, configuration, branchName).increment != IncrementStrategy.Inherit
    ensures GetEffectiveConfiguration(isMatch, merge, configuration, branchName, parent1)
         == GetEffectiveConfiguration(isMatch, merge, configuration, branchName, parent2)
         == merge(configuration, GetBranchConfiguration(isMatch, configuration, branchName), Option.None)
  {
  }

  /** `GetEffectiveBranchConfiguration`: the effective configuration for the branch's name, paired with the branch. */
  function GetEffectiveBranchConfiguration(
    isMatch: BranchMatcher, merge: ConfigurationMerger, configuration: GitVersionConfiguration,
    branch: Branch, parentConfiguration: Option<EffectiveConfiguration>): (r: EffectiveBranchConfiguration)
    ensures r.branch == branch
    ensures r.value == GetEffectiveConfiguration(isMatch, merge, configuration, branch.name, parentConfiguration)
  {
    EffectiveBranchConfiguration(GetEffectiveConfiguration(isMatch, merge, configuration, branch.name, parentConfiguration), branch)
  }

  // ---------------------------------------------------------------------------------------------
  // Ignore filters

  /** `ToFilters`: a SHA filter when SHAs are listed, then a date filter when a cut-off is set. */
  function ToFilters(source: IgnoreConfiguration): (filters: seq<VersionFilter>)
    ensures |filters| == (if source.shas != {} then 1 else 0) + (if source.before.Some? then 1 else 0)
    ensures source.shas != {} ==> filters[0] == ShaVersionFilter(source.shas)
    ensures source.before.Some? ==> filters[|filters| - 1] == MinDateVersionFilter(source.before.value)
  {
    (if source.shas != {} then [ShaVersionFilter(source.shas)] else [])
      + (if source.before.Some? then [MinDateVersionFilter(source.before.value)] else [])
  }

  // ---------------------------------------------------------------------------------------------
  // Branch-specific label

  /** `branchNameOverride ?? branchName`: the override, when given, stands in for the branch name. */
  function EffectiveBranchName(branchName: Option<string>, branchNameOverride: Option<string>): Option<string>
  {
    if branchNameOverride.Some? then branchNameOverride else branchName
  }

  /** Whether the sanitise-and-substitute step runs: a non-blank pattern and a non-empty name. */
  predicate SanitisingApplies(configuration: EffectiveConfiguration, name: Option<string>) {
    !IsNullOrWhiteSpace(configuration.regularExpression) && !IsNullOrEmpty(name)
  }

  /** The name seen by the rest of the formatter: it was overwritten with its sanitised form if that step ran. */
  function NameAfterSanitising(configuration: EffectiveConfiguration, name: Option<string>): Option<string>
  {
    if SanitisingApplies(configuration, name) then Some(Sanitise(name.value)) else name
  }

  /** The placeholder `{groupName}` that stands for a group's capture in a label template. */
  function Placeholder(groupName: string): (p: string)
    ensures |p| == |groupName| + 2 && p[0] == '{' && p[|p| - 1] == '}'
    ensures p[1..|p| - 1] == groupName
  {
    "{" + groupName + "}"
  }

  /** Replaces the placeholder of each group by its capture, one group after the other in the engine's order. */
  function SubstituteGroups(text: string, groupNames: seq<string>, captures: Captures): string
    decreases |groupNames|
  {
    if groupNames == [] then text
    else SubstituteGroups(Replace(text, Placeholder(groupNames[0]), GroupValue(captures, groupNames[0])), groupNames[1..], captures)
  }

  /**
   * The label after the sanitise-and-substitute step: unchanged unless the step ran and the pattern
   * matched the sanitised name; then the captures are substituted and every `_` becomes `-`.
   */
  function SubstitutedLabel(engine: RegexEngine, configuration: EffectiveConfiguration, template: string, name: Option<string>): string
  {
    if !SanitisingApplies(configuration, name) then template
    else
      var pattern := configuration.regularExpression.value;
      match engine.run(pattern, Sanitise(name.value))
      case None => template
      case Some(captures) => ReplaceChar(SubstituteGroups(template, engine.groupNames(pattern), captures), '_', '-')
  }

  /** The numeric suffix: the `number` capture of the label-number pattern on `name`, or nothing. */
  function LabelNumber(engine: RegexEngine, configuration: EffectiveConfiguration, name: Option<string>): string
  {
    if IsNullOrEmpty(configuration.labelNumberPattern) || IsNullOrEmpty(name) then ""
    else
      match NumberCapture(engine, configuration.labelNumberPattern.value, name.value)
      case None => ""
      case Some(number) => number
  }

  /**
   * The branch-specific label: no label without a template; otherwise the substituted template
   * followed by the numeric suffix, which is looked up in the name as the first step left it.
   */
  function BranchSpecificLabel(engine: RegexEngine, configuration: EffectiveConfiguration, branchName: Option<string>, branchNameOverride: Option<string>)
    : Option<string>
  {
    match configuration.labelTemplate
    case None => Option.None
    case Some(template) =>
      var name := EffectiveBranchName(branchName, branchNameOverride);
      Some(SubstitutedLabel(engine, configuration, template, name) + LabelNumber(engine, configuration, NameAfterSanitising(configuration, name)))
  }

  /** `GetBranchSpecificLabel(configuration, string? branchName, string? branchNameOverride)`. */
  method GetBranchSpecificLabel(engine: RegexEngine, configuration: EffectiveConfiguration, branchName: Option<string>, branchNameOverride: Option<string>)
    returns (specificLabel: Option<string>)
    ensures specificLabel == BranchSpecificLabel(engine, configuration, branchName, branchNameOverride)
  {
    if configuration.labelTemplate.None? {
      return Option.None;
    }
    var text := configuration.labelTemplate.value;
    var effectiveBranchName := EffectiveBranchName(branchName, branchNameOverride);
    ghost var name := effectiveBranchName;

    if !IsNullOrWhiteSpace(configuration.regularExpression) && !IsNullOrEmpty(effectiveBranchName) {
      effectiveBranchName := Some(Sanitise(effectiveBranchName.value));
      var pattern := configuration.regularExpression.value;
      var match_ := engine.run(pattern, effectiveBranchName.value);
      if match_.Some? {
        var groupNames := engine.groupNames(pattern);
        ghost var template := text;
        for i := 0 to |groupNames|
          invariant SubstituteGroups(text, groupNames[i..], match_.value) == SubstituteGroups(template, groupNames, match_.value)
        {
          assert groupNames[i..][1..] == groupNames[i + 1..];
          text := Replace(text, Placeholder(groupNames[i]), GroupValue(match_.value, groupNames[i]));
        }
        assert groupNames[|groupNames|..] == [];
        text := ReplaceChar(text, '_', '-');
      }
    }
    assert text == SubstitutedLabel(engine, configuration, configuration.labelTemplate.value, name);
    assert effectiveBranchName == NameAfterSanitising(configuration, name);

    if !IsNullOrEmpty(configuration.labelNumberPattern) && !IsNullOrEmpty(effectiveBranchName) {
      var numberGroup := NumberCapture(engine, configuration.labelNumberPattern.value, effectiveBranchName.value);
      if numberGroup.Some? {
        text := text + numberGroup.value;
      } else {
        assert text == text + LabelNumber(engine, configuration, effectiveBranchName);
      }
    } else {
      assert text == text + LabelNumber(engine, configuration, effectiveBranchName);
    }
    specificLabel := Some(text);
  }

  /** `GetBranchSpecificLabel(configuration, ReferenceName branchName, string? branchNameOverride)`: on the name without `origin/`. */
  method GetBranchSpecificLabelForReference(engine: RegexEngine, configuration: EffectiveConfiguration, branchName: ReferenceName, branchNameOverride: Option<string>)
    returns (specificLabel: Option<string>)
    ensures specificLabel == BranchSpecificLabel(engine, configuration, Some(branchName.withoutOrigin), branchNameOverride)
  {
    specificLabel := GetBranchSpecificLabel(engine, configuration, Some(branchName.withoutOrigin), branchNameOverride);
  }

  /** Without a template there is no label, whatever the branch name or override. */
  lemma NoTemplateNoLabel(engine: RegexEngine, configuration: EffectiveConfiguration, branchName: Option<string>, branchNameOverride: Option<string>)
    requires configuration.labelTemplate.None?
    ensures BranchSpecificLabel(engine, configuration, branchName, branchNameOverride) == Option.None
  {
  }

  /** A template always gives a label; an override is used exactly as if it were the branch name. */
  lemma OverrideTakesPrecedence(engine: RegexEngine, configuration: EffectiveConfiguration, branchName: Option<string>, branchNameOverride: string)
    requires configuration.labelTemplate.Some?
    ensures BranchSpecificLabel(engine, configuration, branchName, Some(branchNameOverride)).Some?
    ensures BranchSpecificLabel(engine, configuration, branchName, Some(branchNameOverride))
         == BranchSpecificLabel(engine, configuration, Some(branchNameOverride), Option.None)
  {
  }

  /** Sanitising keeps the name's length, leaves only `[a-zA-Z0-9-_]`, and never empties a name. */
  lemma SanitisedNameIsLabelSafe(configuration: EffectiveConfiguration, name: Option<string>)
    requires SanitisingApplies(configuration, name)
    ensures var sanitised := NameAfterSanitising(configuration, name);
      && sanitised.Some? && |sanitised.value| == |name.value| > 0
      && forall i :: 0 <= i < |sanitised.value| ==> IsLabelChar(sanitised.value[i])
  {
    SanitisedIsLabelSafe(name.value);
  }

  /**
   * When the sanitising pattern matches, the label is hyphen-safe: the substituted template holds no
   * `_`, and it is followed only by the numeric suffix taken from the sanitised name.
   */
  lemma MatchedLabelIsHyphenSafe(engine: RegexEngine, configuration: EffectiveConfiguration, branchName: Option<string>, branchNameOverride: Option<string>)
    requires configuration.labelTemplate.Some?
    requires SanitisingApplies(configuration, EffectiveBranchName(branchName, branchNameOverride))
    requires engine.run(configuration.regularExpression.value, Sanitise(EffectiveBranchName(branchName, branchNameOverride).value)).Some?
    ensures var result := BranchSpecificLabel(engine, configuration, branchName, branchNameOverride);
      var suffix := LabelNumber(engine, configuration, Some(Sanitise(EffectiveBranchName(branchName, branchNameOverride).value)));
      && result.Some? && |result.value| >= |suffix|
      && result.value[|result.value| - |suffix|..] == suffix
      && forall i :: 0 <= i < |result.value| - |suffix| ==> result.value[i] != '_'
  {
    var name := EffectiveBranchName(branchName, branchNameOverride);
    var pattern := configuration.regularExpression.value;
    var captures := engine.run(pattern, Sanitise(name.value)).value;
    var substituted := SubstituteGroups(configuration.labelTemplate.value, engine.groupNames(pattern), captures);
    ReplaceCharRemoves(substituted, '_', '-');
  }

  /**
   * The numeric suffix is appended only when the `number` group matched; it is looked up in the
   * sanitised name whenever sanitising ran, and in the effective name otherwise.
   */
  lemma NumberAppendedOnlyWhenMatched(engine: RegexEngine, configuration: EffectiveConfiguration, branchName: Option<string>, branchNameOverride: Option<string>)
    requires configuration.labelTemplate.Some?
    ensures var name := EffectiveBranchName(branchName, branchNameOverride);
      var seen := if SanitisingApplies(configuration, name) then Some(Sanitise(name.value)) else name;
      var substituted := SubstitutedLabel(engine, configuration, configuration.labelTemplate.value, name);
      var result := BranchSpecificLabel(engine, configuration, branchName, branchNameOverride);
      && (IsNullOrEmpty(configuration.labelNumberPattern) || IsNullOrEmpty(seen)
           || NumberCapture(engine, configuration.labelNumberPattern.value, seen.value).None?
          ==> result == Some(substituted))
      && (!IsNullOrEmpty(configuration.labelNumberPattern) && !IsNullOrEmpty(seen)
           && NumberCapture(engine, configuration.labelNumberPattern.value, seen.value).Some?
          ==> result == Some(substituted + NumberCapture(engine, configuration.labelNumberPattern.value, seen.value).value))
  {
    var name := EffectiveBranchName(branchName, branchNameOverride);
    var seen := NameAfterSanitising(configuration, name);
    if IsNullOrEmpty(configuration.labelNumberPattern) || IsNullOrEmpty(seen)
       || NumberCapture(engine, configuration.labelNumberPattern.value, seen.value).None? {
      assert LabelNumber(engine, configuration, seen) == "";
      assert SubstitutedLabel(engine, configuration, configuration.labelTemplate.value, name) + "" == SubstitutedLabel(engine, configuration, configuration.labelTemplate.value, name);
    }
  }

  /**
   * Substituting the groups `0` and `branchName` in a template `prefix{branchName}`: the first
   * placeholder does not occur, the second is replaced by its capture.
   */
  lemma SubstituteBranchNameGroup(prefix: string, captures: Captures, capture: string)
    requires '{' !in prefix && '0' !in prefix
    requires captures == map["0" := capture, "branchName" := capture]
    ensures SubstituteGroups(prefix + "{branchName}", ["0", "branchName"], captures) == prefix + capture
  {
    var template := prefix + "{branchName}";
    var zero, branch := Placeholder("0"), Placeholder("branchName");
    assert zero == "{0}" && branch == "{branchName}";
    assert '0' in zero && '0' !in template;
    ReplaceWithMissingCharacter(template, zero, capture, '0');
    ReplaceSkipsPrefix(prefix, branch, branch, capture);
    assert branch == branch + "";
    ReplaceLeadingOccurrence("", branch, capture);
    var names := ["0", "branchName"];
    assert names[1..] == ["branchName"] && names[1..][1..] == [];
    calc {
      SubstituteGroups(template, names, captures);
      SubstituteGroups(Replace(template, zero, GroupValue(captures, "0")), names[1..], captures);
      SubstituteGroups(template, ["branchName"], captures);
      SubstituteGroups(Replace(template, branch, GroupValue(captures, "branchName")), [], captures);
      Replace(prefix + branch, branch, capture);
      prefix + capture;
    }
  }

  /**
   * A template `prefix{branchName}` whose pattern captures the whole sanitised name as `branchName`
   * becomes the prefix followed by the sanitised name (for a name without `_`).
   */
  lemma WholeNameSubstitution(engine: RegexEngine, configuration: EffectiveConfiguration, prefix: string, name: string)
    requires configuration.labelTemplate == Some(prefix + "{branchName}")
    requires '{' !in prefix && '0' !in prefix && '_' !in prefix
    requires !IsNullOrWhiteSpace(configuration.regularExpression) && name != "" && '_' !in name
    requires configuration.labelNumberPattern.None?
    requires engine.groupNames(configuration.regularExpression.value) == ["0", "branchName"]
    requires engine.run(configuration.regularExpression.value, Sanitise(name)) == Some(map["0" := Sanitise(name), "branchName" := Sanitise(name)])
    ensures BranchSpecificLabel(engine, configuration, Some(name), Option.None) == Some(prefix + Sanitise(name))
  {
    var sanitised := Sanitise(name);
    var captures := map["0" := sanitised, "branchName" := sanitised];
    SubstituteBranchNameGroup(prefix, captures, sanitised);
    assert '_' !in prefix + sanitised;
    ReplaceCharAbsent(prefix + sanitised, '_', '-');
    var r := prefix + sanitised;
    assert SubstitutedLabel(engine, configuration, prefix + "{branchName}", Some(name)) == r;
    assert LabelNumber(engine, configuration, Some(sanitised)) == "";
    assert r + "" == r;
  }

  /**
   * The expected label of the example below, as prefix and sanitised name. Kept apart so that the
   * concatenation of literals is not unfolded inside the larger proof, which then runs out of resource.
   */
  lemma ExampleLabelParts(prefix: string, sanitised: string, expected: string)
    requires prefix == "alpha." && sanitised == "feature-1-x" && expected == "alpha.feature-1-x"
    ensures prefix + sanitised == expected
  {
  }

  /**
   * Worked example: template `alpha.{branchName}`, a pattern whose group `branchName` captures the
   * whole sanitised name, branch `feature/1.x`: the name becomes `feature-1-x` and the label
   * `alpha.feature-1-x`.
   */
  lemma ExampleBranchNameSubstitution(engine: RegexEngine, configuration: EffectiveConfiguration, name: string, expected: string)
    requires name == "feature/1.x" && expected == "alpha.feature-1-x"
    requires configuration.labelTemplate == Some("alpha.{branchName}")
    requires !IsNullOrWhiteSpace(configuration.regularExpression)
    requires configuration.labelNumberPattern.None?
    requires engine.groupNames(configuration.regularExpression.value) == ["0", "branchName"]
    requires engine.run(configuration.regularExpression.value, "feature-1-x") == Some(map["0" := "feature-1-x", "branchName" := "feature-1-x"])
    ensures BranchSpecificLabel(engine, configuration, Some(name), Option.None) == Some(expected)
  {
    var sanitised := Sanitise(name);
    assert |sanitised| == 11 && sanitised[7] == '-' && sanitised[9] == '-';
    assert forall i :: 0 <= i < 11 && i != 7 && i != 9 ==> sanitised[i] == name[i];
    assert sanitised == "feature-1-x";
    var prefix := "alpha.";
    assert "alpha.{branchName}" == prefix + "{branchName}";
    assert '_' !in name;
    assert '{' !in prefix && '0' !in prefix && '_' !in prefix;
    WholeNameSubstitution(engine, configuration, prefix, name);
    ExampleLabelParts(prefix, sanitised, expected);
  }

  /**
   * Worked example: template `alpha`, no sanitising pattern, a label-number pattern whose `number`
   * group captures `42` in `hotfix/42`: the label is `alpha42`.
   */
  lemma ExampleNumberSuffix(engine: RegexEngine, configuration: EffectiveConfiguration, name: string, expected: string)
    requires name == "hotfix/42" && expected == "alpha42"
    requires configuration.labelTemplate == Some("alpha")
    requires configuration.regularExpression.None?
    requires configuration.labelNumberPattern.Some? && configuration.labelNumberPattern.value != ""
    requires engine.run(configuration.labelNumberPattern.value, "hotfix/42") == Some(map["0" := "/42", "number" := "42"])
    ensures BranchSpecificLabel(engine, configuration, Some(name), Option.None) == Some(expected)
  {
    assert NumberGroup in map["0" := "/42", "number" := "42"];
    assert LabelNumber(engine, configuration, Some(name)) == "42";
    assert "alpha" + "42" == expected;
  }

  /**
   * The same suffix rule once a sanitising pattern is configured: the label-number pattern is run on
   * `hotfix-42`, not on `hotfix/42`, so a pattern that needs the `/` finds no number.
   */
  lemma ExampleNumberSuffixAfterSanitising(engine: RegexEngine, configuration: EffectiveConfiguration, name: string)
    requires name == "hotfix/42"
    requires configuration.labelTemplate == Some("alpha")
    requires !IsNullOrWhiteSpace(configuration.regularExpression)
    requires engine.run(configuration.regularExpression.value, "hotfix-42") == Option.None
    requires configuration.labelNumberPattern.Some? && configuration.labelNumberPattern.value != ""
    requires engine.run(configuration.labelNumberPattern.value, "hotfix-42") == Option.None
    ensures BranchSpecificLabel(engine, configuration, Some(name), Option.None) == Some("alpha")
  {
    var sanitised := Sanitise(name);
    assert |sanitised| == 9 && sanitised[6] == '-';
    assert forall i :: 0 <= i < 9 && i != 6 ==> sanitised[i] == name[i];
    assert sanitised == "hotfix-42";
    assert SubstitutedLabel(engine, configuration, "alpha", Some(name)) == "alpha";
    assert LabelNumber(engine, configuration, Some(sanitised)) == "";
    assert "alpha" + "" == "alpha";
  }
}
