/**
 * The few .NET string operations the label formatter relies on, over `seq<char>`.
 * A .NET `string?` is an `Option<string>`.
 */
module Text {
  import opened Wrappers

  /** `string.IsNullOrEmpty`. */
  predicate IsNullOrEmpty(s: Option<string>): (b: bool)
    ensures b ==> IsNullOrWhiteSpace(s)
    ensures !b ==> s.Some? && |s.value| > 0
  {
    s.None? || s.value == ""
  }

  /** `char.IsWhiteSpace`: the Unicode space separators, line and paragraph separators, and U+0009-U+000D, U+0085. */
  predicate IsWhiteSpace(c: char): (b: bool)
    ensures b ==> !(('a' <= c <= 'z') || ('A' <= c <= 'Z') || ('0' <= c <= '9') || c == '-' || c == '_')
  {
    || ('\U{9}' <= c <= '\U{D}') || c == ' ' || c == '\U{85}' || c == '\U{A0}' || c == '\U{1680}'
    || ('\U{2000}' <= c <= '\U{200A}') || c == '\U{2028}' || c == '\U{2029}' || c == '\U{202F}'
    || c == '\U{205F}' || c == '\U{3000}'
  }

  /** `string.IsNullOrWhiteSpace`: null, empty, or nothing but white space. */
  predicate IsNullOrWhiteSpace(s: Option<string>): (b: bool)
    ensures !b ==> s.Some? && exists i :: 0 <= i < |s.value| && !IsWhiteSpace(s.value[i])
  {
    s.None? || forall i :: 0 <= i < |s.value| ==> IsWhiteSpace(s.value[i])
  }

  /** Whether `pattern` occurs in `s` starting at position `i`. */
  predicate OccursAt(s: string, pattern: string, i: int) {
    0 <= i && i + |pattern| <= |s| && s[i..i + |pattern|] == pattern
  }

  /**
   * `string.Replace(string, string)`: one ordinal scan from left to right that replaces every
   * non-overlapping occurrence of `oldValue` by `newValue`. .NET refuses an empty `oldValue`.
   */
  function Replace(s: string, oldValue: string, newValue: string): (r: string)
    requires oldValue != ""
    ensures |newValue| == |oldValue| ==> |r| == |s|
    ensures newValue == oldValue ==> r == s
    decreases |s|
  {
    if |s| < |oldValue| then s
    else if s[..|oldValue|] == oldValue then
      assert s == s[..|oldValue|] + s[|oldValue|..];
      newValue + Replace(s[|oldValue|..], oldValue, newValue)
    else [s[0]] + Replace(s[1..], oldValue, newValue)
  }

  /** A text in which `oldValue` does not occur comes back from `Replace` unchanged. */
  lemma {:induction false} ReplaceWithoutOccurrence(s: string, oldValue: string, newValue: string)
    requires oldValue != ""
    requires forall i :: !OccursAt(s, oldValue, i)
    ensures Replace(s, oldValue, newValue) == s
  {
    if |s| >= |oldValue| {
      assert !OccursAt(s, oldValue, 0);
      assert s[..|oldValue|] != oldValue;
      var t := s[1..];
      forall i ensures !OccursAt(t, oldValue, i) {
        if OccursAt(t, oldValue, i) {
          assert s[i + 1..i + 1 + |oldValue|] == t[i..i + |oldValue|];
          assert OccursAt(s, oldValue, i + 1);
        }
      }
      ReplaceWithoutOccurrence(t, oldValue, newValue);
    }
  }

  /** In particular, `oldValue` cannot occur when one of its characters is missing from the text. */
  lemma ReplaceWithMissingCharacter(s: string, oldValue: string, newValue: string, c: char)
    requires oldValue != "" && c in oldValue && c !in s
    ensures Replace(s, oldValue, newValue) == s
  {
    var k :| 0 <= k < |oldValue| && oldValue[k] == c;
    forall i ensures !OccursAt(s, oldValue, i) {
      if 0 <= i && i + |oldValue| <= |s| {
        assert s[i..i + |oldValue|][k] == s[i + k] != c;
      }
    }
    ReplaceWithoutOccurrence(s, oldValue, newValue);
  }

  /** A prefix that does not contain the first character of `oldValue` passes through `Replace` untouched. */
  lemma {:induction false} ReplaceSkipsPrefix(a: string, t: string, oldValue: string, newValue: string)
    requires oldValue != "" && oldValue[0] !in a
    ensures Replace(a + t, oldValue, newValue) == a + Replace(t, oldValue, newValue)
  {
    if a == [] {
      assert a + t == t;
    } else {
      var s := a + t;
      assert s[1..] == a[1..] + t;
      ReplaceSkipsPrefix(a[1..], t, oldValue, newValue);
      if |s| < |oldValue| {
        assert Replace(t, oldValue, newValue) == t;
        assert Replace(a[1..] + t, oldValue, newValue) == a[1..] + t;
      } else {
        assert s[..|oldValue|][0] == a[0] != oldValue[0];
        calc {
          Replace(s, oldValue, newValue);
          [s[0]] + Replace(a[1..] + t, oldValue, newValue);
          [a[0]] + (a[1..] + Replace(t, oldValue, newValue));
          { assert [a[0]] + a[1..] == a; }
          a + Replace(t, oldValue, newValue);
        }
      }
    }
  }

  /** An occurrence at the very start is replaced, and the scan resumes right after it. */
  lemma ReplaceLeadingOccurrence(t: string, oldValue: string, newValue: string)
    requires oldValue != ""
    ensures Replace(oldValue + t, oldValue, newValue) == newValue + Replace(t, oldValue, newValue)
  {
    var s := oldValue + t;
    assert s[..|oldValue|] == oldValue;
    assert s[|oldValue|..] == t;
  }

  /** `string.Replace(char, char)`: every `oldChar` becomes `newChar`, everything else is kept in place. */
  function ReplaceChar(s: string, oldChar: char, newChar: char): (r: string)
    ensures |r| == |s|
    ensures forall i :: 0 <= i < |s| ==> r[i] == (if s[i] == oldChar then newChar else s[i])
  {
    if s == [] then []
    else [if s[0] == oldChar then newChar else s[0]] + ReplaceChar(s[1..], oldChar, newChar)
  }

  /** After replacing a character by a different one, it no longer occurs. */
  lemma ReplaceCharRemoves(s: string, oldChar: char, newChar: char)
    requires oldChar != newChar
    ensures forall i :: 0 <= i < |s| ==> ReplaceChar(s, oldChar, newChar)[i] != oldChar
  {
  }

  /** A text without `oldChar` is left as it is. */
  lemma ReplaceCharAbsent(s: string, oldChar: char, newChar: char)
    requires oldChar !in s
    ensures ReplaceChar(s, oldChar, newChar) == s
  {
  }
}
