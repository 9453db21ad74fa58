/**
  AUTOLINK_RE = `<(https?://[^ >]+)>`: an angle-bracket autolink. Group 1 is
  the URL without the brackets. The scheme is lower-case only, and the rest
  of the URL excludes only the space character and `>` (tabs and newlines
  are allowed).
*/
module Autolink {
  import opened Wrappers
  import opened Regex

  /** `url` is `scheme` followed by at least one character, none of them a space or `>`. */
  ghost predicate WithScheme(url: string, scheme: string) {
    && |scheme| < |url|
    && url[..|scheme|] == scheme
    && ' ' !in url[|scheme|..]
    && '>' !in url[|scheme|..]
  }

  /** `matched` is `<url>` where `url` starts with exactly `http://` or `https://`. */
  ghost predicate Shape(matched: string, url: string) {
    && matched == "<" + url + ">"
    && (WithScheme(url, "http://") || WithScheme(url, "https://"))
  }

  /** `m` is a match of the pattern inside `s`, with its one group. */
  ghost predicate IsMatch(s: string, m: Match) {
    && m.start <= m.end <= |s|
    && |m.groups| == 1
    && Shape(s[m.start..m.end], m.groups[0])
  }

  /**
    The match of the pattern that starts exactly at `i`, if there is one.
    `s?` takes the `s` when there is one; giving it back cannot help, since
    `:` would then have to stand where the `s` is.
  */
  function At(s: string, i: nat): (r: Option<Match>)
    requires i <= |s|
    ensures r.Some? ==> r.value.start == i < r.value.end && IsMatch(s, r.value)
  {
    if i + 5 < |s| && s[i] == '<' && s[i + 1..i + 5] == "http" then
      var colon := if s[i + 5] == 's' then i + 6 else i + 5;
      if colon + 3 <= |s| && s[colon..colon + 3] == "://" then
        var e := Span(NotSpaceOrGt, s, colon + 3);
        if colon + 3 < e < |s| && s[e] == '>' then
          SoundAt(s, i, colon, e);
          Some(Match(i, e + 1, [s[i + 1..e]]))
        else None
      else None
    else None
  }

  lemma SoundAt(s: string, i: nat, colon: nat, e: nat)
    requires i + 5 <= colon <= i + 6 && colon + 3 < e < |s|
    requires s[i] == '<' && s[i + 1..i + 5] == "http" && s[colon..colon + 3] == "://" && s[e] == '>'
    requires colon == i + 6 <==> s[i + 5] == 's'
    requires forall j :: colon + 3 <= j < e ==> s[j] != ' ' && s[j] != '>'
    ensures Shape(s[i..e + 1], s[i + 1..e])
  {
    var url := s[i + 1..e];
    assert s[i..e + 1] == [s[i]] + url + [s[e]];
    var n := colon + 3 - (i + 1);
    assert url[n..] == s[colon + 3..e];
    assert url[..n] == s[i + 1..colon + 3];
    SliceSplit(s, i + 1, i + 5, colon + 3);
    if colon == i + 6 {
      SliceSplit(s, i + 5, i + 6, colon + 3);
      assert s[i + 5..i + 6] == "s";
      assert url[..n] == "http" + ("s" + "://") == "https://";
      assert WithScheme(url, "https://");
    } else {
      assert url[..n] == "http" + "://" == "http://";
      assert WithScheme(url, "http://");
    }
  }

  /** Every match of the pattern at its start is the one `At` returns: a start has at most one match. */
  lemma AtComplete(s: string, m: Match)
    requires IsMatch(s, m)
    ensures At(s, m.start) == Some(m)
  {
    var url := m.groups[0];
    var i := m.start;
    var e := i + 1 + |url|;
    SliceConcat(s, i, m.end, "<" + url, ">");
    SliceConcat(s, i, e, "<", url);
    assert s[i] == s[i..i + 1][0] == '<';
    assert s[e] == s[e..e + 1][0] == '>';
    if WithScheme(url, "http://") {
      SchemeAt(s, i, e, url, "http://");
      SliceConcat(s, i + 1, i + 8, "http", "://");
      assert s[i + 5] == s[i + 5..i + 8][0] == ':';
      AtFrom(s, i, i + 5, e);
    } else {
      SchemeAt(s, i, e, url, "https://");
      SliceConcat(s, i + 1, i + 9, "http", "s://");
      SliceConcat(s, i + 5, i + 9, "s", "://");
      assert s[i + 5] == s[i + 5..i + 6][0] == 's';
      AtFrom(s, i, i + 6, e);
    }
    assert m.groups == [s[i + 1..e]];
  }

  /** The URL's scheme and the characters after it, located in `s`. */
  lemma SchemeAt(s: string, i: nat, e: nat, url: string, scheme: string)
    requires i + 1 <= e <= |s| && s[i + 1..e] == url && WithScheme(url, scheme)
    ensures s[i + 1..i + 1 + |scheme|] == scheme
    ensures forall j :: i + 1 + |scheme| <= j < e ==> s[j] != ' ' && s[j] != '>'
  {
    var rest := url[|scheme|..];
    assert url == scheme + rest;
    SliceConcat(s, i + 1, e, scheme, rest);
    forall j | i + 1 + |scheme| <= j < e ensures s[j] != ' ' && s[j] != '>' {
      assert s[j] == rest[j - i - 1 - |scheme|];
    }
  }

  lemma AtFrom(s: string, i: nat, colon: nat, e: nat)
    requires i + 5 <= colon <= i + 6 && colon + 3 < e < |s|
    requires s[i] == '<' && s[i + 1..i + 5] == "http" && s[colon..colon + 3] == "://" && s[e] == '>'
    requires colon == i + 6 <==> s[i + 5] == 's'
    requires forall j :: colon + 3 <= j < e ==> s[j] != ' ' && s[j] != '>'
    ensures At(s, i) == Some(Match(i, e + 1, [s[i + 1..e]]))
  {
    SpanIsMaximalRun(NotSpaceOrGt, s, colon + 3, e);
  }

  /** The group is the text of `s` between the angle brackets. */
  lemma GroupInside(s: string, m: Match)
    requires IsMatch(s, m)
    ensures IsCapture(s, m, m.groups[0])
  {
    var url := m.groups[0];
    SliceConcat(s, m.start, m.end, "<" + url, ">");
    SliceConcat(s, m.start, m.start + 1 + |url|, "<", url);
  }
}
