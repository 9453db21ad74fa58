/**
  The module-level constants of `mdlinkcheck.core`: the set of Markdown file
  extensions and the four link patterns. The model applies each pattern to
  a text the way `pattern.finditer(text)` does, and the anchored reference
  definition to a line the way `pattern.match(line)` does.
*/
module Core {
  import opened Wrappers
  import opened Regex
  import Finditer
  import InlineLink
  import RefDef
  import RefUse
  import Autolink

  /** MD_EXTENSIONS: the file extensions treated as Markdown. */
  const MdExtensions: set<string> := {".md", ".markdown", ".mdx"}

  /** Membership in MD_EXTENSIONS is exact string equality: no case folding, no prefix match. */
  function IsMarkdownExtension(ext: string): (r: bool)
    ensures r <==> ext == ".md" || ext == ".markdown" || ext == ".mdx"
  {
    ext in MdExtensions
  }

  /**
    Every Markdown extension is a dot followed by lower-case letters, and an
    extension is compared whole and with its case: `.MD`, `md`, `.mdown`
    and `.md.txt` are not Markdown.
  */
  lemma MarkdownExtensionsAreExact(ext: string)
    ensures IsMarkdownExtension(ext) ==>
              && 1 < |ext| && ext[0] == '.'
              && forall j :: 1 <= j < |ext| ==> 'a' <= ext[j] <= 'z'
    ensures !IsMarkdownExtension(".MD") && !IsMarkdownExtension("md")
    ensures !IsMarkdownExtension(".mdown") && !IsMarkdownExtension(".md.txt")
  {
  }

  /** The four compiled patterns. */
  datatype Pattern = InlineLinkRe | RefDefRe | RefUseRe | AutolinkRe

  /** The number of capture groups of each pattern. */
  function GroupCount(p: Pattern): nat {
    if p == AutolinkRe then 1 else 2
  }

  /** `m` is a match of pattern `p` in `s`, with its groups, as the regular expression defines it. */
  ghost predicate Matches(p: Pattern, s: string, m: Match) {
    match p
    case InlineLinkRe => InlineLink.IsMatch(s, m)
    case RefDefRe => RefDef.IsMatch(s, m)
    case RefUseRe => RefUse.IsMatch(s, m)
    case AutolinkRe => Autolink.IsMatch(s, m)
  }

  /**
    The match of `p` that starts at `i`, as `p.match(s, i)` would report it
    with the search anchored at `i`. `^` in REF_DEF_RE only holds at the
    start of the string, since the pattern is compiled without MULTILINE.
  */
  function MatchAt(p: Pattern, s: string, i: nat): (r: Option<Match>)
    requires i <= |s|
    ensures r.Some? ==> r.value.start == i < r.value.end <= |s| && |r.value.groups| == GroupCount(p)
    ensures p == RefDefRe && r.Some? ==> i == 0 && r.value.end == |s|
  {
    match p
    case InlineLinkRe => InlineLink.At(s, i)
    case RefDefRe => if i == 0 then RefDef.MatchLine(s) else None
    case RefUseRe => RefUse.At(s, i)
    case AutolinkRe => Autolink.At(s, i)
  }

  /** Whatever `MatchAt` reports is a match of the pattern. */
  lemma MatchAtSound(p: Pattern, s: string, i: nat)
    requires i <= |s|
    ensures MatchAt(p, s, i).Some? ==> Matches(p, s, MatchAt(p, s, i).value)
  {
    if p == RefDefRe && i == 0 {
      RefDef.MatchLineSound(s);
    }
  }

  /** Every match of the pattern is the one `MatchAt` reports at its start. */
  lemma MatchAtComplete(p: Pattern, s: string, m: Match)
    requires Matches(p, s, m)
    ensures m.start <= |s| && MatchAt(p, s, m.start) == Some(m)
  {
    match p
    case InlineLinkRe => InlineLink.AtComplete(s, m);
    case RefDefRe => RefDef.MatchLineComplete(s, m);
    case RefUseRe => RefUse.AtComplete(s, m);
    case AutolinkRe => Autolink.AtComplete(s, m);
  }

  /** The pattern as `Finditer` consumes it: the match starting at each index of `s`. */
  function Matcher(p: Pattern, s: string): nat -> Option<Match> {
    (i: nat) => if i <= |s| then MatchAt(p, s, i) else None
  }

  lemma MatcherConsistent(p: Pattern, s: string)
    ensures Finditer.Consistent(Matcher(p, s), |s|)
  {
    forall i: nat | Matcher(p, s)(i).Some?
      ensures Matcher(p, s)(i).value.start == i < Matcher(p, s)(i).value.end <= |s|
    {
    }
  }

  /** `p.finditer(s)`: the leftmost non-overlapping matches of `p` in `s`, in order. */
  function FindIter(p: Pattern, s: string): (ms: seq<Match>)
    ensures forall k :: 0 <= k < |ms| ==>
              ms[k].start < ms[k].end <= |s| && |ms[k].groups| == GroupCount(p)
  {
    MatcherConsistent(p, s);
    Finditer.Scan(Matcher(p, s), |s|, 0)
  }

  /**
    Group number `group` (counted from 1, as `m.group(group)` counts) of
    every match of `p.finditer(s)`, in order: each one is a non-empty piece
    of the input inside its match, and an inline-link target never holds `)`.
  */
  function Captures(p: Pattern, s: string, group: nat): (r: seq<string>)
    requires 1 <= group <= GroupCount(p)
    ensures |r| == |FindIter(p, s)|
    ensures forall k :: 0 <= k < |r| ==> r[k] == FindIter(p, s)[k].groups[group - 1]
    ensures forall k :: 0 <= k < |r| ==> |r[k]| > 0 && IsCapture(s, FindIter(p, s)[k], r[k])
    ensures p == InlineLinkRe && group == 2 ==> forall k :: 0 <= k < |r| ==> ')' !in r[k]
  {
    FindIterCaptures(p, s);
    FindIterGroups(p, s);
    var ms := FindIter(p, s);
    seq(|ms|, k requires 0 <= k < |ms| => ms[k].groups[group - 1])
  }

  /** No match of `p` in `s` starts in [lo, hi). */
  ghost predicate NoMatchStartsIn(p: Pattern, s: string, lo: nat, hi: nat) {
    forall m :: Matches(p, s, m) ==> m.start < lo || hi <= m.start
  }

  /**
    `ms` is what `p.finditer(s)` reports, stated over the matches of the
    regular expression: each element is a match, the search for each one
    starts where the previous one ended and no match starts before it, and
    no match starts after the last one.
  */
  ghost predicate IsFinditer(p: Pattern, s: string, ms: seq<Match>) {
    && (forall k :: 0 <= k < |ms| ==> Matches(p, s, ms[k]))
    && (forall k {:trigger Finditer.Resume(0, ms, k)} :: 0 <= k < |ms| ==>
          && Finditer.Resume(0, ms, k) <= ms[k].start
          && NoMatchStartsIn(p, s, Finditer.Resume(0, ms, k), ms[k].start))
    && NoMatchStartsIn(p, s, Finditer.Resume(0, ms, |ms|), |s| + 1)
  }

  /** The matcher finds nothing in a stretch exactly when the regular expression has no match starting there. */
  lemma NoMatchAgrees(p: Pattern, s: string, lo: nat, hi: nat)
    ensures Finditer.NoMatchIn(Matcher(p, s), lo, hi) <==> NoMatchStartsIn(p, s, lo, hi)
  {
    if Finditer.NoMatchIn(Matcher(p, s), lo, hi) {
      forall m | Matches(p, s, m) ensures m.start < lo || hi <= m.start {
        MatchAtComplete(p, s, m);
        assert Matcher(p, s)(m.start) == Some(m);
      }
    }
    if NoMatchStartsIn(p, s, lo, hi) {
      forall q | lo <= q < hi ensures Matcher(p, s)(q).None? {
        if q <= |s| {
          MatchAtSound(p, s, q);
        }
      }
    }
  }

  /** `FindIter` reports what `finditer` does. */
  lemma FindIterIsFinditer(p: Pattern, s: string)
    ensures IsFinditer(p, s, FindIter(p, s))
  {
    var at, ms := Matcher(p, s), FindIter(p, s);
    MatcherConsistent(p, s);
    Finditer.ScanIsLeftmost(at, |s|, 0);
    forall k | 0 <= k < |ms| ensures Matches(p, s, ms[k]) {
      MatchAtSound(p, s, ms[k].start);
    }
    forall k | 0 <= k < |ms|
      ensures Finditer.Resume(0, ms, k) <= ms[k].start
      ensures NoMatchStartsIn(p, s, Finditer.Resume(0, ms, k), ms[k].start)
    {
      NoMatchAgrees(p, s, Finditer.Resume(0, ms, k), ms[k].start);
    }
    NoMatchAgrees(p, s, Finditer.Resume(0, ms, |ms|), |s| + 1);
  }

  /** `finditer` has only one possible outcome, and `FindIter` is it. */
  lemma FindIterUnique(p: Pattern, s: string, ms: seq<Match>)
    requires IsFinditer(p, s, ms)
    ensures ms == FindIter(p, s)
  {
    var at := Matcher(p, s);
    forall k | 0 <= k < |ms| ensures at(ms[k].start) == Some(ms[k]) {
      MatchAtComplete(p, s, ms[k]);
    }
    forall k | 0 <= k < |ms|
      ensures Finditer.Resume(0, ms, k) <= ms[k].start
      ensures Finditer.NoMatchIn(at, Finditer.Resume(0, ms, k), ms[k].start)
    {
      NoMatchAgrees(p, s, Finditer.Resume(0, ms, k), ms[k].start);
    }
    NoMatchAgrees(p, s, Finditer.Resume(0, ms, |ms|), |s| + 1);
    MatcherConsistent(p, s);
    Finditer.LeftmostScanUnique(at, |s|, 0, ms);
  }

  /** The matches `finditer` reports do not overlap and start at strictly increasing positions. */
  lemma FindIterNonOverlapping(p: Pattern, s: string)
    ensures var ms := FindIter(p, s);
      && (forall i, j :: 0 <= i < j < |ms| ==> ms[i].end <= ms[j].start)
      && (forall i, j :: 0 <= i < j < |ms| ==> ms[i].start < ms[j].start)
  {
    var ms := FindIter(p, s);
    MatcherConsistent(p, s);
    Finditer.ScanIsLeftmost(Matcher(p, s), |s|, 0);
    Finditer.LeftmostNonOverlapping(Matcher(p, s), |s|, 0, ms);
  }

  /** Each group of a match is a piece of the input inside the match. */
  lemma MatchCaptures(p: Pattern, s: string, m: Match)
    requires Matches(p, s, m)
    ensures forall g :: g in m.groups ==> IsCapture(s, m, g)
  {
    match p
    case InlineLinkRe => InlineLink.GroupsInside(s, m);
    case RefDefRe => RefDef.GroupsInside(s, m);
    case RefUseRe => RefUse.GroupsInside(s, m);
    case AutolinkRe => Autolink.GroupInside(s, m);
  }

  /** Every group of every match `finditer` reports is a piece of the input inside that match. */
  lemma FindIterCaptures(p: Pattern, s: string)
    ensures var ms := FindIter(p, s);
      forall k, g :: 0 <= k < |ms| && g in ms[k].groups ==> IsCapture(s, ms[k], g)
  {
    var ms := FindIter(p, s);
    MatcherConsistent(p, s);
    Finditer.ScanIsLeftmost(Matcher(p, s), |s|, 0);
    forall k | 0 <= k < |ms| ensures forall g :: g in ms[k].groups ==> IsCapture(s, ms[k], g) {
      MatchAtSound(p, s, ms[k].start);
      MatchCaptures(p, s, ms[k]);
    }
  }

  /** The character every match of a pattern other than REF_DEF_RE starts with. */
  function Opener(p: Pattern): char
    requires p != RefDefRe
  {
    if p == AutolinkRe then '<' else '['
  }

  /** Matches of INLINE_LINK_RE and REF_USE_RE start with `[`, matches of AUTOLINK_RE with `<`. */
  lemma MatchStartsWithOpener(p: Pattern, s: string, i: nat)
    requires p != RefDefRe && i <= |s| && MatchAt(p, s, i).Some?
    ensures i < |s| && s[i] == Opener(p)
  {
  }

  /** Where no opener appears, `finditer` finds no match start. */
  lemma NoOpenerNoMatch(p: Pattern, s: string, lo: nat, hi: nat)
    requires p != RefDefRe && lo <= hi <= |s| && Opener(p) !in s[lo..hi]
    ensures Finditer.NoMatchIn(Matcher(p, s), lo, hi)
  {
    forall q | lo <= q < hi ensures Matcher(p, s)(q).None? {
      assert s[q] == s[lo..hi][q - lo];
      if MatchAt(p, s, q).Some? {
        MatchStartsWithOpener(p, s, q);
      }
    }
  }

  /** Any leftmost scan of the matcher from the start of `s` is `p.finditer(s)`. */
  lemma FindIterOfLeftmost(p: Pattern, s: string, ms: seq<Match>)
    requires Finditer.IsLeftmostScan(Matcher(p, s), |s|, 0, ms)
    ensures FindIter(p, s) == ms
  {
    MatcherConsistent(p, s);
    Finditer.LeftmostScanUnique(Matcher(p, s), |s|, 0, ms);
  }

  /** Every group of a match is non-empty, and the target of an inline link holds no `)`. */
  lemma MatchGroups(p: Pattern, s: string, m: Match)
    requires Matches(p, s, m)
    ensures forall g :: g in m.groups ==> |g| > 0
    ensures p == InlineLinkRe ==> ')' !in m.groups[1]
  {
    if p == RefDefRe {
      var lead, gap, trail :| RefDef.Parts(s, lead, m.groups[0], gap, m.groups[1], trail);
    }
  }

  /** Every group of every match `finditer` reports is non-empty, and inline-link targets hold no `)`. */
  lemma FindIterGroups(p: Pattern, s: string)
    ensures var ms := FindIter(p, s);
      && (forall k, g :: 0 <= k < |ms| && g in ms[k].groups ==> |g| > 0)
      && (p == InlineLinkRe ==> forall k :: 0 <= k < |ms| ==> ')' !in ms[k].groups[1])
  {
    var ms := FindIter(p, s);
    MatcherConsistent(p, s);
    Finditer.ScanIsLeftmost(Matcher(p, s), |s|, 0);
    forall k | 0 <= k < |ms|
      ensures forall g :: g in ms[k].groups ==> |g| > 0
      ensures p == InlineLinkRe ==> ')' !in ms[k].groups[1]
    {
      MatchAtSound(p, s, ms[k].start);
      MatchGroups(p, s, ms[k]);
    }
  }
}
