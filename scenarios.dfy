/**
  The patterns applied to concrete text: the sentence of the project's
  inline-link test and the edge cases the character classes decide. Texts
  are written as concatenations of their parts, the parts in the order the
  text reads.
*/
module Scenarios {
  import opened Wrappers
  import opened Regex
  import Finditer
  import InlineLink
  import Autolink
  import RefDef
  import RefUse
  import opened Core

  /** `See [a](https://example.com) and [b](docs/guide.md).`, the Markdown of the inline-link test. */
  const TestSentence: string :=
    "See " + ("[" + "a" + "](" + "https://example.com" + ")") + " and " + ("[" + "b" + "](" + "docs/guide.md" + ")") + "."

  /** Where the two links of the test sentence sit, and that nothing else there opens a link. */
  lemma TestSentenceLayout()
    ensures |TestSentence| == 52
    ensures InlineLink.At(TestSentence, 4) == Some(Match(4, 28, ["a", "https://example.com"]))
    ensures InlineLink.At(TestSentence, 33) == Some(Match(33, 51, ["b", "docs/guide.md"]))
    ensures Finditer.NoMatchIn(Matcher(InlineLinkRe, TestSentence), 0, 4)
    ensures Finditer.NoMatchIn(Matcher(InlineLinkRe, TestSentence), 28, 33)
    ensures Finditer.NoMatchIn(Matcher(InlineLinkRe, TestSentence), 51, 52)
  {
    var s := TestSentence;
    var link1 := "[" + "a" + "](" + "https://example.com" + ")";
    var link2 := "[" + "b" + "](" + "docs/guide.md" + ")";
    assert s[0..52] == s;
    SliceConcat(s, 0, 52, "See " + link1 + " and " + link2, ".");
    SliceConcat(s, 0, 51, "See " + link1 + " and ", link2);
    SliceConcat(s, 0, 33, "See " + link1, " and ");
    SliceConcat(s, 0, 28, "See ", link1);
    InlineLink.AtComplete(s, Match(4, 28, ["a", "https://example.com"]));
    InlineLink.AtComplete(s, Match(33, 51, ["b", "docs/guide.md"]));
    NoOpenerNoMatch(InlineLinkRe, s, 0, 4);
    NoOpenerNoMatch(InlineLinkRe, s, 28, 33);
    NoOpenerNoMatch(InlineLinkRe, s, 51, 52);
  }

  /** The inline pattern finds the two links of the test sentence, in order. */
  lemma InlineScanOfTestSentence()
    ensures FindIter(InlineLinkRe, TestSentence)
            == [Match(4, 28, ["a", "https://example.com"]), Match(33, 51, ["b", "docs/guide.md"])]
  {
    var ms := [Match(4, 28, ["a", "https://example.com"]), Match(33, 51, ["b", "docs/guide.md"])];
    TestSentenceLayout();
    MatcherConsistent(InlineLinkRe, TestSentence);
    assert Finditer.Resume(0, ms, 0) == 0 && Finditer.Resume(0, ms, 1) == 28;
    assert Finditer.Resume(0, ms, 2) == 51;
    FindIterOfLeftmost(InlineLinkRe, TestSentence, ms);
  }

  /** The targets the inline pattern captures in the test sentence are the two the test expects, in order. */
  lemma InlineTargetsOfTestSentence()
    ensures Captures(InlineLinkRe, TestSentence, 2) == ["https://example.com", "docs/guide.md"]
  {
    InlineScanOfTestSentence();
  }

  /** `[a](f(x))`: the target stops at the inner `)`, and the outer one is left over. */
  lemma NestedParenthesesCutTarget()
    ensures FindIter(InlineLinkRe, "[" + "a" + "](" + "f(x" + ")" + ")") == [Match(0, 8, ["a", "f(x"])]
  {
    var s := "[" + "a" + "](" + "f(x" + ")" + ")";
    var m := Match(0, 8, ["a", "f(x"]);
    assert s[0..9] == s;
    SliceConcat(s, 0, 9, "[" + "a" + "](" + "f(x" + ")", ")");
    InlineLink.AtComplete(s, m);
    NoOpenerNoMatch(InlineLinkRe, s, 8, 9);
    MatcherConsistent(InlineLinkRe, s);
    assert Finditer.Resume(0, [m], 0) == 0 && Finditer.Resume(0, [m], 1) == 8;
    FindIterOfLeftmost(InlineLinkRe, s, [m]);
  }

  /** `<https://example.com>` is an autolink whose group is the URL. */
  lemma AutolinkHttps()
    ensures Autolink.At("<" + ("https://" + "example.com") + ">", 0)
            == Some(Match(0, 21, ["https://" + "example.com"]))
  {
    var url := "https://" + "example.com";
    var s := "<" + url + ">";
    assert url[..8] == "https://" && url[8..] == "example.com";
    assert s[0..21] == s;
    Autolink.AtComplete(s, Match(0, 21, [url]));
  }

  /** The scheme is matched with its case: `<HTTP://x>` is not an autolink. */
  lemma AutolinkSchemeIsLowerCase()
    ensures Autolink.At("<HTTP://x>", 0).None?
  {
    assert "<HTTP://x>"[1..5][0] == 'H';
  }

  /** A tab is allowed inside the URL, a space is not. */
  lemma AutolinkAllowsTabNotSpace()
    ensures Autolink.At("<" + ("http://" + "a\tb") + ">", 0) == Some(Match(0, 12, ["http://" + "a\tb"]))
    ensures Autolink.At("<" + ("http://" + "a b") + ">", 0).None?
  {
    var url := "http://" + "a\tb";
    var s := "<" + url + ">";
    assert url[..7] == "http://" && url[7..] == "a\tb";
    assert s[0..12] == s;
    Autolink.AtComplete(s, Match(0, 12, [url]));
    var t := "<" + ("http://" + "a b") + ">";
    assert t[1..5] == "http" && t[5..8] == "://";
    assert Span(NotSpaceOrGt, t, 8) == 9;
  }

  /** At least one character must follow the scheme: `<http://>` is not an autolink. */
  lemma AutolinkNeedsHost()
    ensures Autolink.At("<http://>", 0).None?
  {
  }

  /** `[ref]: https://example.com/docs` defines `ref` as `https://example.com/docs`. */
  lemma ReferenceDefinition()
    ensures RefDef.MatchLine("[" + "ref" + "]:" + " " + "https://example.com/docs")
            == Some(Match(0, 31, ["ref", "https://example.com/docs"]))
  {
    var target := "https://example.com/docs";
    assert RefDef.NoSpace(target);
    RefDef.CompleteFromLayout("[" + "ref" + "]:" + " " + target, "", "ref", " ", target, "");
  }

  /** Indentation, a tab after the colon, trailing spaces and a final newline are all taken in by the match. */
  lemma ReferenceDefinitionSpacedOut()
    ensures RefDef.MatchLine("  " + "[" + "ref" + "]:" + "\t" + "docs/guide.md" + "  \n")
            == Some(Match(0, 25, ["ref", "docs/guide.md"]))
  {
    var target := "docs/guide.md";
    assert RefDef.NoSpace(target);
    assert RefDef.AllSpace("  \n") && RefDef.AllSpace("  ") && RefDef.AllSpace("\t");
    RefDef.CompleteFromLayout("  " + "[" + "ref" + "]:" + "\t" + target + "  \n", "  ", "ref", "\t", target, "  \n");
  }

  /** A definition has a single target: `[a]: b c` is not one. */
  lemma ReferenceDefinitionSingleTarget()
    ensures RefDef.MatchLine("[a]: b c").None?
  {
    var line := "[a]: b c";
    assert Span(Space, line, 0) == 0;
    assert Span(NotCloseBracket, line, 1) == 2;
    assert Span(Space, line, 4) == 5;
    assert Span(NonSpace, line, 5) == 6;
    assert Span(Space, line, 6) == 7;
  }

  /** `[x][ref]` is a reference use; with a space between the brackets, `[x] [ref]` holds none. */
  lemma ReferenceUses()
    ensures RefUse.At("[" + "x" + "][" + "ref" + "]", 0) == Some(Match(0, 8, ["x", "ref"]))
    ensures FindIter(RefUseRe, "[x] [ref]") == []
  {
    var s := "[" + "x" + "][" + "ref" + "]";
    assert s[0..8] == s;
    RefUse.AtComplete(s, Match(0, 8, ["x", "ref"]));
    var t := "[x] [ref]";
    assert Span(NotCloseBracket, t, 1) == 2;
    assert Span(NotCloseBracket, t, 5) == 8;
    assert Finditer.NoMatchIn(Matcher(RefUseRe, t), 0, 1);
    NoOpenerNoMatch(RefUseRe, t, 1, 4);
    assert Finditer.NoMatchIn(Matcher(RefUseRe, t), 4, 5);
    NoOpenerNoMatch(RefUseRe, t, 5, 9);
    MatcherConsistent(RefUseRe, t);
    FindIterOfLeftmost(RefUseRe, t, []);
  }
}
