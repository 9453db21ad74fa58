/**
  REF_USE_RE = `\[([^\]]+)\]\[([^\]]+)\]`: a reference-style use `[text][ref]`.
  Group 1 is the link text, group 2 the reference label.
*/
module RefUse {
  import opened Wrappers
  import opened Regex

  /**
    `matched` is `[linkText][ref]`: two non-empty `]`-free bracketed runs with
    nothing between the first closing `]` and the second opening `[`.
  */
  ghost predicate Shape(matched: string, linkText: string, ref: string) {
    && |linkText| > 0 && ']' !in linkText
    && |ref| > 0 && ']' !in ref
    && matched == "[" + linkText + "][" + ref + "]"
  }

  /** `m` is a match of the pattern inside `s`, with its two groups. */
  ghost predicate IsMatch(s: string, m: Match) {
    && m.start <= m.end <= |s|
    && |m.groups| == 2
    && Shape(s[m.start..m.end], m.groups[0], m.groups[1])
  }

  /** The match of the pattern that starts exactly at `i`, if there is one. */
  function At(s: string, i: nat): (r: Option<Match>)
    requires i <= |s|
    ensures r.Some? ==> r.value.start == i < r.value.end && IsMatch(s, r.value)
  {
    if i < |s| && s[i] == '[' then
      var k := Span(NotCloseBracket, s, i + 1);
      if i + 1 < k && k + 1 < |s| && s[k + 1] == '[' then
        var e := Span(NotCloseBracket, s, k + 2);
        if k + 2 < e < |s| then
          SoundAt(s, i, k, e);
          Some(Match(i, e + 1, [s[i + 1..k], s[k + 2..e]]))
        else None
      else None
    else None
  }

  lemma SoundAt(s: string, i: nat, k: nat, e: nat)
    requires i + 1 < k < k + 2 < e < |s|
    requires s[i] == '[' && s[k] == ']' && s[k + 1] == '[' && s[e] == ']'
    requires forall j :: i + 1 <= j < k ==> s[j] != ']'
    requires forall j :: k + 2 <= j < e ==> s[j] != ']'
    ensures Shape(s[i..e + 1], s[i + 1..k], s[k + 2..e])
  {
    assert s[i..e + 1] == [s[i]] + s[i + 1..k] + [s[k], s[k + 1]] + s[k + 2..e] + [s[e]];
  }

  /** Every match of the pattern at its start is the one `At` returns: a start has at most one match. */
  lemma AtComplete(s: string, m: Match)
    requires IsMatch(s, m)
    ensures At(s, m.start) == Some(m)
  {
    var linkText, ref := m.groups[0], m.groups[1];
    var i := m.start;
    var k := i + 1 + |linkText|;
    var e := k + 2 + |ref|;
    Layout(s, i, m.end, linkText, ref);
    assert AllIn(NotCloseBracket, linkText) && AllIn(NotCloseBracket, ref);
    SpanOverSlice(NotCloseBracket, s, i + 1, k);
    SpanOverSlice(NotCloseBracket, s, k + 2, e);
    AtFrom(s, i, k, e);
    assert m.groups == [s[i + 1..k], s[k + 2..e]];
  }

  /** Where each part of a match sits in `s`. */
  lemma Layout(s: string, i: nat, j: nat, linkText: string, ref: string)
    requires i <= j <= |s| && s[i..j] == "[" + linkText + "][" + ref + "]"
    ensures var k := i + 1 + |linkText|;
      var e := k + 2 + |ref|;
      && j == e + 1
      && s[i] == '[' && s[k] == ']' && s[k + 1] == '[' && s[e] == ']'
      && s[i + 1..k] == linkText && s[k + 2..e] == ref
  {
    var k := i + 1 + |linkText|;
    var e := k + 2 + |ref|;
    SliceConcat(s, i, j, "[" + linkText + "][" + ref, "]");
    SliceConcat(s, i, e, "[" + linkText + "][", ref);
    SliceConcat(s, i, k + 2, "[" + linkText, "][");
    SliceConcat(s, i, k, "[", linkText);
    assert s[i] == s[i..i + 1][0];
    assert s[k] == s[k..k + 2][0] && s[k + 1] == s[k..k + 2][1];
    assert s[e] == s[e..e + 1][0];
  }

  /** What `At` returns once both greedy runs have been located. */
  lemma AtFrom(s: string, i: nat, k: nat, e: nat)
    requires i + 1 < k && k + 2 < e < |s|
    requires s[i] == '[' && s[k + 1] == '['
    requires Span(NotCloseBracket, s, i + 1) == k && Span(NotCloseBracket, s, k + 2) == e
    ensures At(s, i) == Some(Match(i, e + 1, [s[i + 1..k], s[k + 2..e]]))
  {
  }

  /** Both groups are the text of `s` at their place inside the match. */
  lemma GroupsInside(s: string, m: Match)
    requires IsMatch(s, m)
    ensures IsCapture(s, m, m.groups[0]) && IsCapture(s, m, m.groups[1])
  {
    var k := m.start + 1 + |m.groups[0]|;
    Layout(s, m.start, m.end, m.groups[0], m.groups[1]);
    assert s[m.start + 1..k] == m.groups[0] && s[k + 2..m.end - 1] == m.groups[1];
  }
}
