/**
  REF_DEF_RE = `^\s*\[([^\]]+)\]:\s*(\S+)\s*$`: a whole-line reference
  definition `[label]: target`. Group 1 is the label, group 2 the target.
  The pattern carries no flags, so `^` holds only at the start of the string
  and `$` only at its end or just before a final newline.
*/
module RefDef {
  import opened Wrappers
  import opened Regex

  /** Every character of `w` is `\s`. */
  predicate AllSpace(w: string) {
    AllIn(Space, w)
  }

  /** Every character of `w` is `\S`. */
  predicate NoSpace(w: string) {
    AllIn(NonSpace, w)
  }

  /**
    `line` is leading whitespace, `[linkText]:`, whitespace, a non-empty
    target without whitespace and trailing whitespace, where `$` may also
    stand before one final newline.
  */
  ghost predicate Parts(line: string, lead: string, linkText: string, gap: string, target: string, trail: string) {
    && AllSpace(lead)
    && |linkText| > 0 && ']' !in linkText
    && AllSpace(gap)
    && |target| > 0 && NoSpace(target)
    && AllSpace(trail)
    && (|| line == lead + "[" + linkText + "]:" + gap + target + trail
        || line == lead + "[" + linkText + "]:" + gap + target + trail + "\n")
  }

  /** The whole of `line` defines label `linkText` as `target`. */
  ghost predicate IsDefinition(line: string, linkText: string, target: string) {
    exists lead, gap, trail :: Parts(line, lead, linkText, gap, target, trail)
  }

  /**
    `m` is the match of the pattern on `line`. The trailing `\s*` is greedy
    and also takes a final newline, so the match always ends at the end of
    the line.
  */
  ghost predicate IsMatch(line: string, m: Match) {
    && m.start == 0 && m.end == |line|
    && |m.groups| == 2
    && IsDefinition(line, m.groups[0], m.groups[1])
  }

  /**
    The match of the pattern on `line`, if there is one: the label is
    non-empty and `]`-free, the target non-empty and free of whitespace.
    `MatchLineSound` shows that the whole line has the shape `Parts` describes.
  */
  function MatchLine(line: string): (r: Option<Match>)
    ensures r.Some? ==> && 0 < |line| && r.value.start == 0 && r.value.end == |line|
                        && |r.value.groups| == 2
                        && |r.value.groups[0]| > 0 && ']' !in r.value.groups[0]
                        && |r.value.groups[1]| > 0 && NoSpace(r.value.groups[1])
  {
    var a := Span(Space, line, 0);
    if a < |line| && line[a] == '[' then
      var k := Span(NotCloseBracket, line, a + 1);
      if a + 1 < k && k + 1 < |line| && line[k + 1] == ':' then
        var b := Span(Space, line, k + 2);
        var e := Span(NonSpace, line, b);
        if b < e && Span(Space, line, e) == |line| then
          Some(Match(0, |line|, [line[a + 1..k], line[b..e]]))
        else None
      else None
    else None
  }

  /** A line `MatchLine` accepts is a definition of the groups it reports. */
  lemma MatchLineSound(line: string)
    ensures MatchLine(line).Some? ==> IsMatch(line, MatchLine(line).value)
  {
    if MatchLine(line).Some? {
      var a := Span(Space, line, 0);
      var k := Span(NotCloseBracket, line, a + 1);
      var b := Span(Space, line, k + 2);
      var e := Span(NonSpace, line, b);
      assert a + 1 < k && k + 2 <= b < e <= |line|;
      assert line[a] == '[' && line[k + 1] == ':' && Span(Space, line, e) == |line|;
      MatchLineFrom(line, a, k, b, e);
      SoundLine(line, a, k, b, e);
    }
  }

  lemma SoundLine(line: string, a: nat, k: nat, b: nat, e: nat)
    requires a + 1 < k && k + 2 <= b < e <= |line|
    requires a == Span(Space, line, 0) && line[a] == '[' && line[k + 1] == ':'
    requires k == Span(NotCloseBracket, line, a + 1)
    requires b == Span(Space, line, k + 2) && e == Span(NonSpace, line, b)
    requires Span(Space, line, e) == |line|
    ensures IsMatch(line, Match(0, |line|, [line[a + 1..k], line[b..e]]))
  {
    RunsOfLine(line, a, k, b, e);
    Reassemble(line, a, k, b, e);
    assert Parts(line, line[..a], line[a + 1..k], line[k + 2..b], line[b..e], line[e..]);
  }

  /** The runs `MatchLine` locates have the classes the pattern demands. */
  lemma RunsOfLine(line: string, a: nat, k: nat, b: nat, e: nat)
    requires a + 1 < k && k + 2 <= b < e <= |line|
    requires a == Span(Space, line, 0) && k == Span(NotCloseBracket, line, a + 1)
    requires b == Span(Space, line, k + 2) && e == Span(NonSpace, line, b)
    requires Span(Space, line, e) == |line|
    ensures AllSpace(line[..a]) && ']' !in line[a + 1..k] && line[k] == ']'
    ensures AllSpace(line[k + 2..b]) && NoSpace(line[b..e]) && AllSpace(line[e..])
  {
    SpanSlice(Space, line, 0);
    assert line[0..a] == line[..a];
    SpanSlice(NotCloseBracket, line, a + 1);
    var linkText := line[a + 1..k];
    forall j | 0 <= j < |linkText| ensures linkText[j] != ']' {
      assert NotCloseBracket.Has(linkText[j]);
    }
    SpanSlice(Space, line, k + 2);
    SpanSlice(NonSpace, line, b);
    SpanSlice(Space, line, e);
    assert line[e..|line|] == line[e..];
  }

  /** A line cut at the ends of the pattern's runs is the concatenation of its pieces. */
  lemma Reassemble(line: string, a: nat, k: nat, b: nat, e: nat)
    requires a + 1 < k && k + 2 <= b <= e <= |line|
    requires line[a] == '[' && line[k] == ']' && line[k + 1] == ':'
    ensures line == line[..a] + "[" + line[a + 1..k] + "]:" + line[k + 2..b] + line[b..e] + line[e..]
  {
    assert line == line[..a] + [line[a]] + line[a + 1..k] + [line[k], line[k + 1]] + line[k + 2..b] + line[b..e] + line[e..];
  }

  /** What `MatchLine` returns once each greedy run has been located. */
  lemma MatchLineFrom(line: string, a: nat, k: nat, b: nat, e: nat)
    requires a + 1 < k && k + 2 <= b < e <= |line|
    requires line[a] == '[' && line[k + 1] == ':'
    requires Span(Space, line, 0) == a && Span(NotCloseBracket, line, a + 1) == k
    requires Span(Space, line, k + 2) == b && Span(NonSpace, line, b) == e
    requires Span(Space, line, e) == |line|
    ensures MatchLine(line) == Some(Match(0, |line|, [line[a + 1..k], line[b..e]]))
  {
  }

  /** Where each part of a definition sits in the line. */
  lemma Layout(line: string, lead: string, linkText: string, gap: string, target: string, tail: string)
    requires line == lead + "[" + linkText + "]:" + gap + target + tail
    ensures var a, k := |lead|, |lead| + 1 + |linkText|;
      var b := k + 2 + |gap|;
      var e := b + |target|;
      && e + |tail| == |line|
      && line[a] == '[' && line[k] == ']' && line[k + 1] == ':'
      && line[..a] == lead && line[a + 1..k] == linkText && line[k + 2..b] == gap
      && line[b..e] == target && line[e..] == tail
  {
    var a := |lead|;
    var k := a + 1 + |linkText|;
    var b := k + 2 + |gap|;
    var e := b + |target|;
    assert line[0..|line|] == line;
    SliceConcat(line, 0, |line|, lead + "[" + linkText + "]:" + gap + target, tail);
    SliceConcat(line, 0, e, lead + "[" + linkText + "]:" + gap, target);
    SliceConcat(line, 0, b, lead + "[" + linkText + "]:", gap);
    SliceConcat(line, 0, k + 2, lead + "[" + linkText, "]:");
    SliceConcat(line, 0, k, lead + "[", linkText);
    SliceConcat(line, 0, a + 1, lead, "[");
    assert line[a] == line[a..a + 1][0] == '[';
    assert line[k] == line[k..k + 2][0] == ']' && line[k + 1] == line[k..k + 2][1] == ':';
  }

  /** The greedy runs of the pattern over a line laid out as a definition. */
  lemma SpansOfLayout(line: string, a: nat, k: nat, b: nat, e: nat)
    requires a + 1 < k && k + 2 <= b < e <= |line|
    requires line[a] == '[' && line[k] == ']'
    requires AllIn(Space, line[..a]) && AllIn(NotCloseBracket, line[a + 1..k])
    requires AllIn(Space, line[k + 2..b]) && AllIn(NonSpace, line[b..e]) && AllIn(Space, line[e..])
    ensures Span(Space, line, 0) == a && Span(NotCloseBracket, line, a + 1) == k
    ensures Span(Space, line, k + 2) == b && Span(NonSpace, line, b) == e
    ensures Span(Space, line, e) == |line|
  {
    assert line[0..a] == line[..a];
    SpanOverSlice(Space, line, 0, a);
    SpanOverSlice(NotCloseBracket, line, a + 1, k);
    assert line[b] == line[b..e][0];
    SpanOverSlice(Space, line, k + 2, b);
    assert e < |line| ==> line[e] == line[e..][0];
    SpanOverSlice(NonSpace, line, b, e);
    assert line[e..|line|] == line[e..];
    SpanOverSlice(Space, line, e, |line|);
  }

  /** A line laid out as a definition is matched, with its label and target as the groups. */
  lemma CompleteFromLayout(line: string, lead: string, linkText: string, gap: string, target: string, tail: string)
    requires AllSpace(lead) && |linkText| > 0 && ']' !in linkText && AllSpace(gap)
    requires |target| > 0 && NoSpace(target) && AllSpace(tail)
    requires line == lead + "[" + linkText + "]:" + gap + target + tail
    ensures MatchLine(line) == Some(Match(0, |line|, [linkText, target]))
  {
    var a := |lead|;
    var k := a + 1 + |linkText|;
    var b := k + 2 + |gap|;
    var e := b + |target|;
    Layout(line, lead, linkText, gap, target, tail);
    assert AllIn(NotCloseBracket, linkText);
    SpansOfLayout(line, a, k, b, e);
    MatchLineFrom(line, a, k, b, e);
  }

  /** Every definition of `line` is the one `MatchLine` finds: its label and target are unique. */
  lemma MatchLineComplete(line: string, m: Match)
    requires IsMatch(line, m)
    ensures MatchLine(line) == Some(m)
  {
    var linkText, target := m.groups[0], m.groups[1];
    var lead, gap, trail :| Parts(line, lead, linkText, gap, target, trail);
    if line == lead + "[" + linkText + "]:" + gap + target + trail {
      CompleteFromLayout(line, lead, linkText, gap, target, trail);
    } else {
      assert AllSpace(trail + "\n");
      assert line == lead + "[" + linkText + "]:" + gap + target + (trail + "\n");
      CompleteFromLayout(line, lead, linkText, gap, target, trail + "\n");
    }
    assert m.groups == [linkText, target];
  }

  /**
    `$` may match before a final newline, and `\s*` takes that newline
    anyway: a line and the same line followed by a newline define the same
    label and target.
  */
  lemma {:induction false} DefinitionIgnoresFinalNewline(line: string, linkText: string, target: string)
    ensures IsDefinition(line + "\n", linkText, target) <==> IsDefinition(line, linkText, target)
  {
    if IsDefinition(line, linkText, target) {
      var lead, gap, trail :| Parts(line, lead, linkText, gap, target, trail);
      if line == lead + "[" + linkText + "]:" + gap + target + trail {
        assert Parts(line + "\n", lead, linkText, gap, target, trail);
      } else {
        assert line + "\n" == lead + "[" + linkText + "]:" + gap + target + (trail + "\n") + "\n";
        assert Parts(line + "\n", lead, linkText, gap, target, trail + "\n");
      }
    }
    if IsDefinition(line + "\n", linkText, target) {
      var lead, gap, trail :| Parts(line + "\n", lead, linkText, gap, target, trail);
      var body := lead + "[" + linkText + "]:" + gap + target;
      if line + "\n" == body + trail + "\n" {
        assert line == (line + "\n")[..|line|] == (body + trail + "\n")[..|line|] == body + trail;
        assert Parts(line, lead, linkText, gap, target, trail);
      } else {
        assert line + "\n" == body + trail;
        assert |trail| > 0 by {
          assert (body + trail)[|line|] == '\n';
          assert !IsSpace(target[|target| - 1]);
        }
        var shorter := trail[..|trail| - 1];
        assert line == (line + "\n")[..|line|] == (body + trail)[..|line|] == body + shorter;
        assert Parts(line, lead, linkText, gap, target, shorter);
      }
    }
  }

  /** `MatchLine` reports the same groups for a line with or without one final newline. */
  lemma MatchLineIgnoresFinalNewline(line: string)
    ensures MatchLine(line + "\n").Some? <==> MatchLine(line).Some?
    ensures MatchLine(line).Some? ==> MatchLine(line + "\n").value.groups == MatchLine(line).value.groups
  {
    var withNewline := line + "\n";
    MatchLineSound(line);
    MatchLineSound(withNewline);
    if MatchLine(line).Some? {
      var g := MatchLine(line).value.groups;
      DefinitionIgnoresFinalNewline(line, g[0], g[1]);
      MatchLineComplete(withNewline, Match(0, |withNewline|, g));
    }
    if MatchLine(withNewline).Some? {
      var g := MatchLine(withNewline).value.groups;
      DefinitionIgnoresFinalNewline(line, g[0], g[1]);
      MatchLineComplete(line, Match(0, |line|, g));
    }
  }

  /** The label and the target are the text of the line at their place. */
  lemma GroupsInside(line: string, m: Match)
    requires IsMatch(line, m)
    ensures IsCapture(line, m, m.groups[0]) && IsCapture(line, m, m.groups[1])
  {
    var linkText, target := m.groups[0], m.groups[1];
    var lead, gap, trail :| Parts(line, lead, linkText, gap, target, trail);
    var tail := if line == lead + "[" + linkText + "]:" + gap + target + trail then trail else trail + "\n";
    assert line == lead + "[" + linkText + "]:" + gap + target + tail;
    Layout(line, lead, linkText, gap, target, tail);
    var k := |lead| + 1 + |linkText|;
    var b := k + 2 + |gap|;
    assert line[|lead| + 1..k] == linkText && line[b..b + |target|] == target;
  }
}
