# mdlinkcheck link grammar in Dafny

`mdlinkcheck` scans Markdown documents for hyperlinks and checks that each
one can be reached. Its module `mdlinkcheck.core` recognises links with four
regular expressions and picks Markdown files by their extension. This
project models those module-level constants and proves what they accept:

- `MD_EXTENSIONS`, the set `{".md", ".markdown", ".mdx"}`, and membership in it (`Core`);
- `INLINE_LINK_RE` `\[([^\]]+)\]\(([^)]+)\)`, an inline link `[text](target)` (`InlineLink`);
- `REF_DEF_RE` `^\s*\[([^\]]+)\]:\s*(\S+)\s*$`, a reference definition line `[label]: target` (`RefDef`);
- `REF_USE_RE` `\[([^\]]+)\]\[([^\]]+)\]`, a reference use `[text][ref]` (`RefUse`);
- `AUTOLINK_RE` `<(https?://[^ >]+)>`, an autolink `<http://…>` or `<https://…>` (`Autolink`);
- `pattern.finditer(text)`, the scan that reports the leftmost match, resumes
  where it ended and goes on to the end of the text (`Finditer`, `Core.FindIter`).

Each pattern has two descriptions:

- The `IsMatch` predicate describes the pattern's language declaratively, as
  concatenations of strings drawn from the character classes.
- `At` (or `MatchLine`) is the executable matcher. It follows Python's `re`
  engine: each `+` and `*` run of a character class is greedy (`Regex.Span`).

Every negated class excludes the character that ends its run (`[^\]]` before
`]`, `[^)]` before `)`, `[^ >]` before `>`, and `\S` before `\s`), so
backtracking can never produce a second match. Each start index therefore has
at most one match, and it does not matter which order the engine tries
alternatives in. The completeness lemmas prove this: any match at a start is
the one the matcher returns.

`Regex.IsSpace` is Python's `\s` for `str` patterns. It covers the characters
for which `str.isspace()` holds: ASCII 9–13 and 28–32, U+0085, U+00A0, U+1680,
U+2000–U+200A, U+2028, U+2029, U+202F, U+205F and U+3000.

None of the patterns is compiled with `re.MULTILINE`. So `^` in `REF_DEF_RE`
holds only at the start of the string. `$` holds at the end of the string or
just before one final newline. The trailing `\s*` is greedy and takes that
newline too, so a match always spans the whole line.

Two details of the code are easy to misread:

- The URL class of `AUTOLINK_RE` excludes only the space character and
  `>`, so tabs and newlines are accepted inside an autolink
  (`Scenarios.AutolinkAllowsTabNotSpace`).
- `MD_EXTENSIONS` holds only lower-case strings, and membership in it is
  exact and case-sensitive (`Core.MarkdownExtensionsAreExact`).

## Model

| member | source | states |
|---|---|---|
| Regex.Span | src/mdlinkcheck/core.py:11-14 | a greedy `+`/`*` run of a character class from `i` stops at the first character outside the class: every character before the returned index is in the class, the one at it is not |
| InlineLink.At | src/mdlinkcheck/core.py:11 | a match reported at `i` starts at `i`, is non-empty and is `[text](target)` with a non-empty `]`-free text and a non-empty `)`-free target as groups 1 and 2 |
| InlineLink.AtComplete | src/mdlinkcheck/core.py:11 | every `[text](target)` occurrence with such groups is exactly the match `At` reports at its start, so a start has at most one match |
| InlineLink.TargetEndsAtFirstParen | src/mdlinkcheck/core.py:11 | the target follows `](` and ends at the first `)` after it, so nested parentheses are not supported |
| InlineLink.GroupsInside | src/mdlinkcheck/core.py:11 | both groups are substrings of the input inside the match |
| RefUse.At | src/mdlinkcheck/core.py:13 | a match reported at `i` is `[text][ref]`: two non-empty `]`-free bracketed runs with nothing between `]` and `[` |
| RefUse.AtComplete | src/mdlinkcheck/core.py:13 | every such occurrence is exactly the match `At` reports at its start |
| RefUse.GroupsInside | src/mdlinkcheck/core.py:13 | both groups are substrings of the input inside the match |
| Autolink.At | src/mdlinkcheck/core.py:14 | a match reported at `i` is `<url>`, where the url starts with exactly lower-case `http://` or `https://`, has at least one more character, and holds no space and no `>` |
| Autolink.AtComplete | src/mdlinkcheck/core.py:14 | every such `<url>` is exactly the match `At` reports at its start |
| Autolink.GroupInside | src/mdlinkcheck/core.py:14 | the url group is the input between the angle brackets |
| RefDef.MatchLine | src/mdlinkcheck/core.py:12 | a match spans the whole non-empty line, with a non-empty `]`-free label and a non-empty whitespace-free target |
| RefDef.MatchLineSound | src/mdlinkcheck/core.py:12 | a line `MatchLine` accepts is leading whitespace, `[label]:`, whitespace, the target and trailing whitespace, optionally followed by one final newline |
| RefDef.MatchLineComplete | src/mdlinkcheck/core.py:12 | every line of that shape is matched, with exactly its label and target as groups |
| RefDef.DefinitionIgnoresFinalNewline | src/mdlinkcheck/core.py:12 | a line followed by a newline defines the same label and target as the line alone, in both directions |
| RefDef.MatchLineIgnoresFinalNewline | src/mdlinkcheck/core.py:12 | `MatchLine` accepts a line exactly when it accepts the line followed by a newline, and both report the same groups |
| RefDef.GroupsInside | src/mdlinkcheck/core.py:12 | the label and the target are substrings of the line |
| Finditer.Scan | src/mdlinkcheck/core.py:11-14 | every reported match is the pattern's match at its own start, and lies between the resume position and the end of the text |
| Finditer.ScanIsLeftmost | src/mdlinkcheck/core.py:11-14 | `Scan` is a leftmost scan: no match starts between the end of one reported match and the start of the next, nor after the last one |
| Finditer.LeftmostScanUnique | src/mdlinkcheck/core.py:11-14 | every leftmost scan equals `Scan`, so the outcome of `finditer` is determined |
| Finditer.LeftmostNonOverlapping | src/mdlinkcheck/core.py:11-14 | the matches of a leftmost scan do not overlap, each ending at or before the next one starts |
| Core.IsMarkdownExtension | src/mdlinkcheck/core.py:9 | an extension is in `MD_EXTENSIONS` exactly when it is `.md`, `.markdown` or `.mdx` |
| Core.MarkdownExtensionsAreExact | src/mdlinkcheck/core.py:9 | each Markdown extension is a dot followed by lower-case letters; `.MD`, `md`, `.mdown` and `.md.txt` are not Markdown extensions |
| Core.MatchAt | src/mdlinkcheck/core.py:11-14 | a match of any of the four patterns at `i` starts at `i`, is non-empty, lies in the text and has that pattern's number of groups; a `REF_DEF_RE` match starts only at 0 and runs to the end of the text |
| Core.MatchAtSound | src/mdlinkcheck/core.py:11-14 | what `MatchAt` reports is a match of the pattern's regular expression |
| Core.MatchAtComplete | src/mdlinkcheck/core.py:11-14 | every match of the regular expression is what `MatchAt` reports at its start |
| Core.FindIter | src/mdlinkcheck/core.py:11-14 | `pattern.finditer(text)` reports non-empty matches inside the text, each with the pattern's number of groups |
| Core.Captures | src/mdlinkcheck/core.py:11-14 | the captures of one numbered group across `finditer`, in order: each one is non-empty and is a piece of the input inside its own match, and an inline-link target (group 2) never holds `)` |
| Core.MatchGroups | src/mdlinkcheck/core.py:11-14 | every group of a match of any of the four patterns is non-empty (each group is a `+` run), and an inline-link target holds no `)` |
| Core.FindIterGroups | src/mdlinkcheck/core.py:11-14 | every group of every match `finditer` reports is non-empty, and no inline-link target it reports holds `)` |
| Core.FindIterIsFinditer | src/mdlinkcheck/core.py:11-14 | `FindIter` consists of regular-expression matches, each one the leftmost match that starts at or after the end of the previous one, with no match starting after the last one |
| Core.FindIterUnique | src/mdlinkcheck/core.py:11-14 | any sequence of matches with that leftmost property is `FindIter` |
| Core.FindIterNonOverlapping | src/mdlinkcheck/core.py:11-14 | the matches `finditer` reports do not overlap and their starts strictly increase |
| Core.MatchCaptures | src/mdlinkcheck/core.py:11-14 | every group of a match is a substring of the input inside that match |
| Core.FindIterCaptures | src/mdlinkcheck/core.py:11-14 | every group of every match `finditer` reports is a substring of the input inside that match |
| Core.MatchStartsWithOpener | src/mdlinkcheck/core.py:11-14 | matches of the inline and reference-use patterns start with `[`, autolinks with `<` |
| Core.NoOpenerNoMatch | src/mdlinkcheck/core.py:11-14 | no inline link, reference use or autolink starts in a stretch of text without its opening character |
| Scenarios.InlineScanOfTestSentence | tests/test_extract.py:6-9 | the inline pattern finds exactly `[a](https://example.com)` at 4–28 and `[b](docs/guide.md)` at 33–51 in the test sentence, in that order |
| Scenarios.InlineTargetsOfTestSentence | tests/test_extract.py:6-9 | the inline targets of the test sentence are `https://example.com` then `docs/guide.md` |
| Scenarios.NestedParenthesesCutTarget | src/mdlinkcheck/core.py:11 | in `[a](f(x))` the only inline match has the target `f(x`, and the outer `)` is left over |
| Scenarios.AutolinkHttps | src/mdlinkcheck/core.py:14 | `<https://example.com>` is an autolink whose group is `https://example.com` |
| Scenarios.AutolinkSchemeIsLowerCase | src/mdlinkcheck/core.py:14 | `<HTTP://x>` is not an autolink |
| Scenarios.AutolinkAllowsTabNotSpace | src/mdlinkcheck/core.py:14 | a tab inside the url is accepted and a space is not |
| Scenarios.AutolinkNeedsHost | src/mdlinkcheck/core.py:14 | `<http://>` is not an autolink |
| Scenarios.ReferenceDefinition | src/mdlinkcheck/core.py:12 | `[ref]: https://example.com/docs` defines `ref` as `https://example.com/docs` |
| Scenarios.ReferenceDefinitionSpacedOut | src/mdlinkcheck/core.py:12 | indentation, a tab, trailing spaces and a final newline all fall inside the match, and the groups stay `ref` and the target |
| Scenarios.ReferenceDefinitionSingleTarget | src/mdlinkcheck/core.py:12 | `[a]: b c` is not a definition |
| Scenarios.ReferenceUses | src/mdlinkcheck/core.py:13 | `[x][ref]` is a reference use, and `[x] [ref]` holds no reference use at all |

## Left out

- `extract_links`, `scan_paths` and `format_report` are not part of this model. Their bodies do not appear in `core.py`. This leaves out how matches are combined into links, quote and entity normalisation, lower-casing of reference labels, code-block stripping, and URL classification. The test's expected targets are stated about the inline scan alone.
- How the caller obtains the extension it looks up in `MD_EXTENSIONS` (and whether it lower-cases it first) is left out, because that happens in `scan_paths`. The model states the set's exact membership only.
- Remote checking via `urllib.request`, the worker pool via `concurrent.futures`, file walking and existence checks via `os`, timing via `time` and JSON output via `json` are left out. They are network I/O, concurrency, filesystem I/O, a clock and serialisation.
- `cli.py` is left out because it is argument parsing only.
- Python's `re` engine is modelled only for these four patterns. No general regular-expression matcher is modelled. Flags, `str` versus `bytes` patterns, and Unicode categories beyond the `\s` set are left out.
