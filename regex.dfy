/**
  The regex building blocks shared by the four link patterns of
  src/mdlinkcheck/core.py: the character classes they use, the greedy run of
  one class, and the part of Python's `re.Match` that callers read.
*/
module Regex {

  /**
    Python's `\s` on a `str` pattern: exactly the characters for which
    `str.isspace()` holds (ASCII tab to carriage return, the four ASCII
    separators, space, and the Unicode spaces and line/paragraph separators).
  */
  predicate IsSpace(c: char) {
    || ('\t' <= c <= '\r')
    || ('\U{1c}' <= c <= ' ')
    || c == '\U{85}' || c == '\U{a0}' || c == '\U{1680}'
    || ('\U{2000}' <= c <= '\U{200a}')
    || c == '\U{2028}' || c == '\U{2029}' || c == '\U{202f}' || c == '\U{205f}'
    || c == '\U{3000}'
  }

  /** The character classes that occur in the four patterns. */
  datatype CharClass =
    | NotCloseBracket  // [^\]]  (matches newlines too)
    | NotCloseParen    // [^)]   (matches newlines too)
    | NotSpaceOrGt     // [^ >]  (only the space character and '>' are excluded)
    | Space            // \s
    | NonSpace         // \S
  {
    predicate Has(c: char) {
      match this
      case NotCloseBracket => c != ']'
      case NotCloseParen => c != ')'
      case NotSpaceOrGt => c != ' ' && c != '>'
      case Space => IsSpace(c)
      case NonSpace => !IsSpace(c)
    }
  }

  /**
    Where a greedy `cls*` that starts at `i` stops: the run from `i` to `j`
    lies in the class, and `j` is the end of the input or a character outside it.
  */
  function Span(cls: CharClass, s: string, i: nat): (j: nat)
    requires i <= |s|
    ensures i <= j <= |s|
    ensures forall k :: i <= k < j ==> cls.Has(s[k])
    ensures j < |s| ==> !cls.Has(s[j])
    decreases |s| - i
  {
    if i < |s| && cls.Has(s[i]) then Span(cls, s, i + 1) else i
  }

  /** A maximal run of the class is the one `Span` finds. */
  lemma SpanIsMaximalRun(cls: CharClass, s: string, i: nat, j: nat)
    requires i <= j <= |s|
    requires forall k :: i <= k < j ==> cls.Has(s[k])
    requires j == |s| || !cls.Has(s[j])
    ensures Span(cls, s, i) == j
  {
  }

  /** Every character of `w` is in the class. */
  predicate AllIn(cls: CharClass, w: string) {
    forall k :: 0 <= k < |w| ==> cls.Has(w[k])
  }

  /** A maximal run of the class, given as a slice, is the one `Span` finds. */
  lemma SpanOverSlice(cls: CharClass, s: string, i: nat, j: nat)
    requires i <= j <= |s|
    requires AllIn(cls, s[i..j])
    requires j == |s| || !cls.Has(s[j])
    ensures Span(cls, s, i) == j
  {
    forall k | i <= k < j ensures cls.Has(s[k]) {
      assert s[k] == s[i..j][k - i];
    }
    SpanIsMaximalRun(cls, s, i, j);
  }

  /** The run `Span` finds, as a slice, lies in the class. */
  lemma SpanSlice(cls: CharClass, s: string, i: nat)
    requires i <= |s|
    ensures AllIn(cls, s[i..Span(cls, s, i)])
  {
    var j := Span(cls, s, i);
    forall k | 0 <= k < j - i ensures cls.Has(s[i..j][k]) {
      assert s[i..j][k] == s[i + k];
    }
  }

  /** A slice that spells `u + v` splits into a slice spelling `u` and one spelling `v`. */
  lemma SliceConcat(s: string, i: nat, j: nat, u: string, v: string)
    requires i <= j <= |s| && s[i..j] == u + v
    ensures i + |u| <= j
    ensures s[i..i + |u|] == u && s[i + |u|..j] == v
  {
    assert s[i..i + |u|] == (u + v)[..|u|];
    assert s[i + |u|..j] == (u + v)[|u|..];
  }

  /** A slice is the concatenation of its two halves. */
  lemma SliceSplit(s: string, a: nat, b: nat, c: nat)
    requires a <= b <= c <= |s|
    ensures s[a..c] == s[a..b] + s[b..c]
  {
  }

  /**
    The span of the whole match and its capture groups, in group order,
    as `m.start()`, `m.end()` and `m.groups()` report them.
  */
  datatype Match = Match(start: nat, end: nat, groups: seq<string>)

  /** `g` is the text of `s` between two positions inside the span of `m`. */
  ghost predicate IsCapture(s: string, m: Match, g: string) {
    exists a: nat, b: nat :: m.start <= a <= b <= m.end && b <= |s| && s[a..b] == g
  }
}
