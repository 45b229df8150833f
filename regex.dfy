/**
 * Regular expressions as the label formatter sees them. The engine itself (pattern syntax,
 * compilation, the process-wide cache of compiled patterns) is not part of this model: it is a
 * pair of total functions supplied by the caller. The one fixed replacement the formatter performs,
 * `[^a-zA-Z0-9-_]` -> `-`, is a plain per-character map and is modelled exactly.
 */
module Regex {
  import opened Wrappers

  /** The groups that took part in a successful match, by group name, with the text each captured. */
  type Captures = map<string, string>

  /**
   * `run(pattern, input)` is `Regex.Match`: `None` when the match fails, otherwise the captures
   * (.NET names the whole match "0"). `groupNames(pattern)` is `Regex.GetGroupNames`, in the
   * engine's order, "0" included.
   */
  datatype RegexEngine = RegexEngine(
    run: (string, string) -> Option<Captures>,
    groupNames: string -> seq<string>)

  /** `Group.Value`: the captured text, or "" for a group that did not take part in the match. */
  function GroupValue(captures: Captures, groupName: string): (v: string)
    ensures groupName !in captures ==> v == ""
    ensures groupName in captures ==> v == captures[groupName]
  {
    if groupName in captures then captures[groupName] else ""
  }

  /** The group that holds the numeric suffix of a pre-release label. */
  const NumberGroup := "number"

  /**
   * `regex.Match(input).Groups["number"]`, kept only when it succeeded: a failed match and a
   * pattern without that group both give `None`.
   */
  function NumberCapture(engine: RegexEngine, pattern: string, input: string): (n: Option<string>)
    ensures n.Some? <==> engine.run(pattern, input).Some? && NumberGroup in engine.run(pattern, input).value
    ensures n.Some? ==> n.value == engine.run(pattern, input).value[NumberGroup]
  {
    match engine.run(pattern, input)
    case None => None
    case Some(captures) => if NumberGroup in captures then Some(captures[NumberGroup]) else None
  }

  /** The characters `[a-zA-Z0-9-_]` that may stand in a branch name used for label matching. */
  predicate IsLabelChar(c: char) {
    ('a' <= c <= 'z') || ('A' <= c <= 'Z') || ('0' <= c <= '9') || c == '-' || c == '_'
  }

  /**
   * `RegexReplace(name, "[^a-zA-Z0-9-_]", "-")`: every character outside the class becomes a
   * hyphen, every other one stays where it is.
   */
  function Sanitise(name: string): (r: string)
    ensures |r| == |name|
    ensures forall i :: 0 <= i < |name| ==> r[i] == (if IsLabelChar(name[i]) then name[i] else '-')
  {
    if name == [] then []
    else [if IsLabelChar(name[0]) then name[0] else '-'] + Sanitise(name[1..])
  }

  /** A sanitised name holds label characters only, has the same length, and is empty only if the name was. */
  lemma SanitisedIsLabelSafe(name: string)
    ensures |Sanitise(name)| == |name|
    ensures forall i :: 0 <= i < |name| ==> IsLabelChar(Sanitise(name)[i])
  {
  }

  /** A name made of label characters only is left as it is; hence sanitising twice is sanitising once. */
  lemma {:induction false} SanitiseKeepsLabelSafe(name: string)
    requires forall i :: 0 <= i < |name| ==> IsLabelChar(name[i])
    ensures Sanitise(name) == name
  {
    if name != [] {
      SanitiseKeepsLabelSafe(name[1..]);
      assert [name[0]] + name[1..] == name;
    }
  }

  lemma SanitiseIdempotent(name: string)
    ensures Sanitise(Sanitise(name)) == Sanitise(name)
  {
    SanitisedIsLabelSafe(name);
    SanitiseKeepsLabelSafe(Sanitise(name));
  }
}
