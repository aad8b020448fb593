# wikicheck, modelled in Dafny

`wikicheck.py` checks the Markdown files of a GitHub Wiki. Every file is an
article, named by its *stem*: the file name without its last `.`-suffix. The
program works in three passes.

1. **The uniqueness gate.** No two paths may share a stem. Each path with a
   partner is warned about, naming its first partner. If any path has a
   partner, the program stops.
2. **Extraction.** One loop reads each file line by line and fills three
   dictionaries:
   - `sections`: section id → row. Ids come from headings through
     `section_name_to_id`. A repeated id is made unique with the first free
     `-1`, `-2`, … suffix.
   - `bookmarks`: row → the distinct targets of that row's `[x](#section)`
     links.
   - `links`: row → article → the distinct sections requested by that row's
     `[[label|article#section]]` wikilinks. The scheme filter decides which
     wikilinks are kept.
3. **Reference checks.** Each bookmark is checked against its own file's
   sections. Each wikilink entry is checked against the file whose stem is
   its article. A failed check yields a missing-section or missing-article
   warning.

The project has six modules, one per concern of the source:

- `Wrappers` (`wrappers.dfy`): `Option`.
- `Names` (`names.dfy`): `section_name_to_id` with Python's `strip`, `lower`
  and `replace`, the stem expression with `split` and `join`, and `str` on
  naturals.
- `Scanners` (`scanners.dfy`): hand-written scanners that do what the three
  regular expressions of wikicheck.py:9-11 find with `findall`.
- `Extraction` (`extraction.dfy`): each dictionary as a function of the
  scanned lines, and the imperative `Extract` loop proved to build exactly
  them.
- `Gate` (`gate.dfy`): the imperative gate, with its nested loops and
  `break`, proved against `CollisionsOf` and `StemsDistinct`.
- `Resolution` (`resolution.dfy`): each warning as a `Finding` datatype (kind,
  file, 1-based line, target). The nested loops of the checks are proved to
  produce `AllFindings`, which is then characterised exactly by `Warned`.
  `CheckWiki` runs the three passes in order.

The gate and the reference checks take the stem function as a parameter.
The program, `CheckWiki`, passes `Names.Stem`. File reading is the parameter
`read`: each file is given as its lines, each without its final `'\n'`. The
scheme filter is the parameter `skip`:
- `Extraction.SkipAsWritten` is the filter as the source has it;
- `Extraction.SkipIntended` is the evidently intended one (see Findings).

## Model

| member | source | states |
|---|---|---|
| `Names.StripLeft` | wikicheck.py:24 | `lstrip()` drops exactly the whitespace run at the start: what it removes is whitespace, and what it keeps is a suffix that does not start with whitespace |
| `Names.StripRight` | wikicheck.py:24 | `rstrip()` drops exactly the whitespace run at the end: what it removes is whitespace, and what it keeps is a prefix that does not end with whitespace |
| `Names.DeleteChar` | wikicheck.py:24 | `replace(c, '')` leaves no `c`, keeps every other character as many times as it occurs, and never lengthens |
| `Names.DeleteCharConcat` | wikicheck.py:24 | `replace(c, '')` distributes over concatenation, drops a lone `c` and keeps any other lone character, which fixes its result and its order |
| `Names.StripChars` | wikicheck.py:24 | `strip()` never lengthens and introduces no character |
| `Names.LowerChars` | wikicheck.py:24 | after `lower()` no ASCII capital is left, and every whitespace character was already there |
| `Names.ReplaceChars` | wikicheck.py:24 | after `replace(a, b)` no `a` is left, and every character is `b` or was already there |
| `Names.SectionNameToIdShape` | wikicheck.py:13-24 | a section id is never longer than its name and holds no ASCII capital, space, `/`, `+`, `<`, `>` or `.`; it holds no whitespace at all when the name's only whitespace is the space |
| `Names.SectionNameToIdOfId` | wikicheck.py:24 | a string made only of id characters is its own id |
| `Names.SectionNameToIdIdempotent` | wikicheck.py:24 | converting an id again changes nothing, when the name's only whitespace is the space |
| `Names.SectionNameToIdOfNormalised` | wikicheck.py:24 | names equal after `strip().lower()` get the same id |
| `Names.StripLeftNoSpace` | wikicheck.py:24 | `lstrip()` leaves a string that starts with no whitespace unchanged |
| `Names.StripRightNoSpace` | wikicheck.py:24 | `rstrip()` leaves a string that ends with no whitespace unchanged |
| `Names.DeleteAbsent` | wikicheck.py:24 | `replace(c, '')` is the identity on a string without `c` |
| `Names.ReplaceAbsent` | wikicheck.py:24 | `replace(a, b)` is the identity on a string without `a` |
| `Names.LowerNoUpper` | wikicheck.py:24 | `lower()` is the identity on a string without ASCII capitals |
| `Names.Split` | wikicheck.py:62 | `split(sep)` always yields at least one piece |
| `Names.SplitPiecesNoSep` | wikicheck.py:62 | no piece of `split(sep)` holds the separator |
| `Names.JoinSplit` | wikicheck.py:62 | `sep.join(s.split(sep)) == s` |
| `Names.SplitJoin` | wikicheck.py:62 | splitting the join of separator-free pieces gives the pieces back |
| `Names.SplitNoSep` | wikicheck.py:62 | a string without the separator splits into itself alone |
| `Names.SplitAfterPiece` | wikicheck.py:62 | a separator-free piece followed by the separator splits off as the first piece |
| `Names.JoinSnoc` | wikicheck.py:62 | joining pieces is joining all but the last, the separator, then the last |
| `Names.LastIndexOf` | wikicheck.py:62 | the last position holding `c`, or -1 when there is none |
| `Names.LastIndexAfterPiece` | wikicheck.py:62 | the last separator of `x + sep + p`, with `p` separator-free, is at the length of `x` |
| `Names.LastIndexAbsent` | wikicheck.py:62 | a string without `c` has no last `c` |
| `Names.SplitLastPiece` | wikicheck.py:62 | the last piece of `split` is what follows the last separator, and the others joined are what precedes it |
| `Names.BaseName` | wikicheck.py:62 | the file name holds no `/` |
| `Names.BaseNameIsLastPiece` | wikicheck.py:62 | `name.split('/')[-1]` is the text after the last `/` |
| `Names.FileStemIsPrefix` | wikicheck.py:62 | `'.'.join(base.split('.')[:-1])` is the file name up to its last `.`, or empty when it has none |
| `Names.StemIsBaseNameWithoutSuffix` | wikicheck.py:62 | the stem of a path is its last `/` component up to that component's last `.`, or empty when it has none |
| `Names.NatToString` | wikicheck.py:109 | `str(n)` has at least one digit, and at least two from 10 on |
| `Names.NatToStringInjective` | wikicheck.py:109 | different numbers give different strings |
| `Scanners.FirstOf` | wikicheck.py:10-11 | the first position at or after `from` holding a stop character, or the end of the line |
| `Scanners.BookmarkAt` | wikicheck.py:10 | a bookmark found at `p` is `[text](#target)` there, text without brackets and target without parentheses, both non-empty |
| `Scanners.BookmarkShape` | wikicheck.py:10 | the delimiters at the found positions spell `[text](#target)` |
| `Scanners.WikilinkAt` | wikicheck.py:11 | a wikilink found at `p` is `[[text` + bar + `target]]` there, neither group empty or holding `[`, a bar or `]` |
| `Scanners.WikilinkShape` | wikicheck.py:11 | the delimiters at the found positions spell `[[text` + bar + `target]]` |
| `Scanners.MatchAt` | wikicheck.py:10-11 | a match found at `p` is a match of the pattern there |
| `Scanners.FirstOfAfter` | wikicheck.py:10-11 | a stretch free of stops followed by a stop is skipped exactly |
| `Scanners.MatchAtComplete` | wikicheck.py:10-11 | every match of the pattern at `p` is the one the scanner returns |
| `Scanners.BookmarkAtFound` | wikicheck.py:10 | at a `[`…`](#`…`)` shape with the first closing delimiters, the scanner returns those groups |
| `Scanners.WikilinkAtFound` | wikicheck.py:11 | at a `[[`…bar…`]]` shape with the first closing delimiters, the scanner returns those groups |
| `Scanners.BookmarkParts` | wikicheck.py:10 | a bookmark match has its delimiters at the positions its groups' lengths give |
| `Scanners.BookmarkAtComplete` | wikicheck.py:10 | every bookmark at `p` is the one the scanner returns |
| `Scanners.WikilinkParts` | wikicheck.py:11 | a wikilink match has its delimiters at the positions its groups' lengths give |
| `Scanners.WikilinkStops` | wikicheck.py:11 | in a wikilink match, each group ends at the first `[`, bar or `]` |
| `Scanners.WikilinkAtComplete` | wikicheck.py:11 | every wikilink at `p` is the one the scanner returns |
| `Scanners.FindAllSound` | wikicheck.py:114-115 | everything `findall` reports is a match, at or after the start, in order and without overlap |
| `Scanners.MatchesFromCons` | wikicheck.py:114-115 | a match followed by matches from its end are matches in order |
| `Scanners.FindAllLeftmost` | wikicheck.py:122-123 | when a match starts at or after `p`, `findall` reports one, and its first is no later |
| `Scanners.FindAllComplete` | wikicheck.py:113-121 | `findall` misses no match: every match at or after `p` is covered by a reported match that starts at or before it and ends after it |
| `Scanners.LeadingRun` | wikicheck.py:9 | the length of the run of `c` that starts the line |
| `Scanners.TrailingRun` | wikicheck.py:9 | the length of the run of `c` that ends the line |
| `Scanners.HeadingSpanIsRegexMatch` | wikicheck.py:9 | `^#+(.+?)#*$` matches exactly the lines that start with `#` and have a character after it; the split is the longest `#+` and then the shortest group |
| `Scanners.HeadingOf` | wikicheck.py:103-104 | a line has at most one heading, and its text is never empty |
| `Scanners.HeadingOfStripsHashRuns` | wikicheck.py:9 | the heading text is the line without its leading and trailing `#` runs; a line of two or more `#` gives `#` |
| `Extraction.BaseIdShape` | wikicheck.py:103-105 | a line has a section id exactly when it starts with `#` and has a second character (the heading pattern of line 9), and the id holds only id characters and is shorter than the line |
| `Extraction.Distinct` | wikicheck.py:116-119 | the de-duplicated list has the same elements and no repeats |
| `Extraction.DistinctFirstAppearanceOrder` | wikicheck.py:116-119 | the de-duplicated list is in order of first appearance |
| `Extraction.SuffixedDistinct` | wikicheck.py:109 | `base-k` is never `base`, and different `k` give different ids |
| `Extraction.TakenSuffixesBound` | wikicheck.py:108-110 | when `base-1` … `base-(k-1)` are taken there are at least k-1 ids, so the loop ends |
| `Extraction.LeastFreeSuffix` | wikicheck.py:108-110 | the least `k` from `from` on whose `base-k` is free |
| `Extraction.FreshId` | wikicheck.py:106-110 | the new id is not yet a key; it is the base id when that is free, else `base-k` for the least free `k >= 1` |
| `Extraction.Disambiguate` | wikicheck.py:106-110 | the `while section in sections` loop returns `FreshId` |
| `Extraction.AddHeadingAddsOneKey` | wikicheck.py:105-111 | a heading adds exactly one key, one that was absent, mapped to its row; other entries keep their rows |
| `Extraction.SectionRowsAreHeadings` | wikicheck.py:103-111 | every id maps to a row that holds a heading |
| `Extraction.SectionRowsDistinct` | wikicheck.py:103-111 | no two ids map to the same row |
| `Extraction.HeadingRowsHaveIds` | wikicheck.py:103-111 | every heading row is the row of some id |
| `Extraction.BaseIdsAreKeys` | wikicheck.py:103-111 | every heading's base id is a key |
| `Extraction.SimpleHeading` | wikicheck.py:9 | a line `#` + space + text captures everything after the `#` |
| `Extraction.RepeatedHeading` | wikicheck.py:106-111 | two rows with the same base id give `{id: 0, id-1: 1}` |
| `Extraction.SameHeadingIds` | wikicheck.py:105 | headings equal after `strip().lower()` have the same base id |
| `Extraction.SameHeadingTwice` | wikicheck.py:103-111 | two headings equal after `strip().lower()` (such as `Setup` and `setup`) give `{id: 0, id + "-1": 1}` |
| `Extraction.BookmarkTargetsEmpty` | wikicheck.py:114-117 | a line yields no bookmark target exactly when no bookmark occurs in it |
| `Extraction.BookmarkTargetsAreTargets` | wikicheck.py:114-115 | every bookmark target of a line is a non-empty parenthesis-free target of a bookmark on it |
| `Extraction.TargetsComplete` | wikicheck.py:113-122 | the target of every match on a line is reported, unless the match starts strictly inside a reported one |
| `Extraction.BookmarkTargetsComplete` | wikicheck.py:113-118 | every bookmark's section is among the line's distinct targets, unless the bookmark starts strictly inside a reported one |
| `Extraction.LinkTargetsComplete` | wikicheck.py:121-122 | every wikilink's target is among the line's targets, unless the wikilink starts strictly inside a reported one |
| `Extraction.BookmarksShape` | wikicheck.py:113-119 | a row has a bookmark entry exactly when it holds a bookmark; the entry has no repeats, holds only real targets, and holds the section of every bookmark of the row except one that starts strictly inside a match `findall` reported |
| `Extraction.FirstIndexOf` | wikicheck.py:129 | the first position of `c`, or the length |
| `Extraction.SplitTargetParts` | wikicheck.py:129-137 | `split('#', 1)`: without `#` the whole target is the article and there is no section; otherwise article + `#` + section is the target, and the article holds no `#`; no part is the empty string |
| `Extraction.TableOfKeys` | wikicheck.py:138-139 | a row's table has an entry for exactly the articles its kept wikilinks request |
| `Extraction.TableOfEmpty` | wikicheck.py:127-128 | a row's table is empty exactly when no wikilink of the row is kept |
| `Extraction.TableOfIsDistinctRequests` | wikicheck.py:138-141 | each entry lists the requested sections once each, in order of first appearance |
| `Extraction.RequestedSectionsHasKept` | wikicheck.py:140-141 | a kept wikilink's section is among those requested of its article |
| `Extraction.KeptTargetRecorded` | wikicheck.py:123-141 | every kept wikilink's article has an entry that lists its section |
| `Extraction.LinksUpToRows` | wikicheck.py:124-128 | a row has a link entry exactly when one of its wikilinks is kept |
| `Extraction.LinksUpToValue` | wikicheck.py:121-141 | a row's link entry is the table of its kept wikilinks |
| `Extraction.AsWrittenLinksEmpty` | wikicheck.py:124-126 | with the filter as written, `links` stays empty |
| `Extraction.KeptLinkInModel` | wikicheck.py:121-141 | a kept wikilink appears in the file's record under its row, article and section |
| `Extraction.Extract` | wikicheck.py:92-151 | the extraction loop builds exactly the three dictionaries `ModelOf` defines |
| `Extraction.AddRowSection` | wikicheck.py:103-111 | one line's heading is added under its first free id |
| `Extraction.AddRowBookmarks` | wikicheck.py:113-119 | a row gets an entry of its distinct targets only when it has a bookmark |
| `Extraction.AddLink` | wikicheck.py:127-141 | one kept wikilink is split and its section recorded under its article, once |
| `Extraction.WithRowSnoc` | wikicheck.py:123-141 | a skipped wikilink changes nothing; a kept one adds one request to the row's table |
| `Extraction.AddRowLinks` | wikicheck.py:121-141 | a row gets the table of its kept wikilinks, and only when one is kept |
| `Gate.FirstPartner` | wikicheck.py:65-71 | the index found lies within the paths |
| `Gate.FirstPartnerIsFirst` | wikicheck.py:65-71 | the index found is another path with the same stem and none comes before it; with none found there is no such path |
| `Gate.FirstPartnerAt` | wikicheck.py:65-71 | a partner with none before it is the one found |
| `Gate.FindPartner` | wikicheck.py:64-71 | the inner loop and its `break` find the first other path with the same stem |
| `Gate.UniquenessGate` | wikicheck.py:60-86 | `all_unique` is true exactly when no two different paths share a stem; the warnings are each path's first partner, in path order |
| `Gate.NoPartnerIffDistinct` | wikicheck.py:60-72 | every path lacks a partner exactly when the stems are distinct |
| `Gate.CollisionsOfMembers` | wikicheck.py:73-83 | a warning names a path with a partner and its first partner, and every such path is warned about |
| `Gate.CollisionsEmptyIffDistinct` | wikicheck.py:60-86 | the gate warns about nothing exactly when the stems are distinct |
| `Gate.PairReportedBothSides` | wikicheck.py:64-83 | when exactly two paths share a stem, each is warned about naming the other |
| `Resolution.CheckBookmarkRow` | wikicheck.py:161-174 | each bookmark of a row whose section the file lacks gives a warning |
| `Resolution.CheckBookmarks` | wikicheck.py:160-174 | the bookmark loops produce the file's bookmark warnings |
| `Resolution.CheckEntry` | wikicheck.py:180-211 | one requested entry is warned about as a missing section and/or a missing article, as `EntryFindings` defines |
| `Resolution.SearchArticles` | wikicheck.py:181-187 | the `found` flag is set exactly when some file's stem is the article; the section is missing exactly when such a file lacks it |
| `Resolution.CheckSections` | wikicheck.py:180 | the sections of one article on one row produce their warnings |
| `Resolution.CheckTable` | wikicheck.py:179 | the articles of one row produce their warnings |
| `Resolution.CheckLinks` | wikicheck.py:177-211 | the wikilink loops produce the file's wikilink warnings |
| `Resolution.CheckArticles` | wikicheck.py:154-211 | the reference checks produce `AllFindings` |
| `Resolution.RowBookmarkFindingsIff` | wikicheck.py:161-171 | a row's bookmark warnings are exactly its bookmarked sections the file lacks, with the file's stem as article |
| `Resolution.BookmarkFindingsIff` | wikicheck.py:160-174 | a file's bookmark warnings are exactly its missing bookmarks, each on its 1-based line |
| `Resolution.EntryFindingsIff` | wikicheck.py:181-211 | an entry's warnings carry its file, line and target, and are exactly the kinds it draws |
| `Resolution.SectionsFindingsIff` | wikicheck.py:180-211 | the warnings of one article's sections are exactly those of its entries |
| `Resolution.TableFindingsIff` | wikicheck.py:179-211 | the warnings of a row's table are exactly those of its entries |
| `Resolution.LinkFindingsIff` | wikicheck.py:178-211 | a file's wikilink warnings are exactly those of its requested entries |
| `Resolution.FileFindingsIff` | wikicheck.py:156-211 | a file's warnings are exactly the `Warned` ones about it |
| `Resolution.AllFindingsExact` | wikicheck.py:154-211 | a warning is reported exactly when it is a bookmark to a missing section of its own file, a wikilink entry whose article no file has, or a wikilink entry whose section a file with that stem lacks |
| `Resolution.BookmarkWarned` | wikicheck.py:160-171 | a bookmark to a section its own file lacks is reported on its line as `stem#section` |
| `Resolution.MissingArticleIff` | wikicheck.py:181-207 | an entry is reported as a missing article exactly when no file's stem is its article; the target carries the section, so each requested section gets its own warning |
| `Resolution.LinkSectionWarned` | wikicheck.py:182-195 | an entry whose article is a file's stem and whose section that file lacks is reported as a missing section |
| `Resolution.FoundEntryQuiet` | wikicheck.py:181-199 | an entry whose article exists, with no section or one every such file has, draws no warning (unless a bookmark gives the same one) |
| `Resolution.NoArticleAlwaysMissing` | wikicheck.py:184-199 | a wikilink with no article equals no stem, so it is always reported missing |
| `Resolution.MissingArticleWarned` | wikicheck.py:181-207 | an entry whose article no file has is reported missing |
| `Resolution.CheckWiki` | wikicheck.py:60-211 | the run stops with the gate's warnings exactly when two paths share a stem; otherwise it reports `AllFindings` of the extracted files |
| `Resolution.WarnedWithoutLinks` | wikicheck.py:160-174 | a file without wikilinks can only be warned about for its bookmarks |
| `Resolution.AsWrittenCorpusNoLinks` | wikicheck.py:124-126 | with the filter as written, no file's record holds a wikilink |
| `Resolution.AsWrittenOnlyBookmarks` | wikicheck.py:124-126 | with the filter as written, every warning is a bookmark's missing section |
| `Resolution.AsWrittenMissesArticle` | wikicheck.py:124-126 | with the filter as written, a wikilink to an article no file has draws no warning |
| `Resolution.CorpusRecordsKeptLink` | wikicheck.py:121-151 | the corpus records every kept wikilink of every file |
| `Resolution.CorpusLacksArticle` | wikicheck.py:182-185 | an article that is no path's stem is no file's stem |
| `Resolution.IntendedReportsArticle` | wikicheck.py:124-126 | with the intended filter, a wikilink without a scheme to an article no file has is reported missing on its line |

## Left out

- `enum_files` (wikicheck.py:26-48): listing the directory is I/O. The paths are the input `names`.
- The `.git` check and the `sys.exit(0)` calls (wikicheck.py:52-54, 85-86) are process plumbing. The gate's verdict is the `Outcome`.
- `open` and `readlines` (wikicheck.py:98-100) are the parameter `read`. Each line is given without its final `'\n'`. A `'\r'` stays in the line, as it does for the patterns in Python.
- The printed text of the warnings (wikicheck.py:74-83, 164-211) is left out. A warning is a `Finding` with its kind, file, line and target.
- Resolution.NoArticleAlwaysMissing: the line printed at wikicheck.py:208 parses as `("      " + article + ('#' + section)) if section is not None else ""`. For an entry with no article and a section (a target such as `#foo`), it evaluates `"      " + None` and raises `TypeError`. The run then stops after a partial warning block, and every later warning is lost. The model reports the missing article and carries on, so "always reported" holds only for the set of warnings, not for what a run prints. For an entry with an article but no section, the same line prints an empty target. With `SkipAsWritten` no wikilink is kept, so the crash cannot happen as written.
- `urlparse.urlparse` is the filter parameter `skip`. The scheme it computes is the parameter `scheme` of `SkipIntended`.
- The `re` engine is replaced by the scanners in `Scanners`. They cover the three patterns of wikicheck.py:9-11 on single lines.
- Python 2 strings are byte strings; they are modelled as `seq<char>`. `strip()` removes space and characters 9 to 13, and `lower()` maps only `A`-`Z`.
- The order in which the dictionaries are visited is not modelled, so warnings form a set.
- Resolution.AllFindings: a warning printed twice appears once in the set. With `SkipAsWritten` this cannot happen once the gate has passed: the bookmark lists hold no repeats, and only one file has a given stem. With a filter that keeps wikilinks, such as `SkipIntended`, a bookmark `[x](#foo)` and a wikilink `[[y` + bar + `A#foo]]` on the same row of `A.md`, where `A` has no section `foo`, print the same missing-section block twice (wikicheck.py:164-174 and 188-198). The model gives that as one `Finding`.
- Gate.UniquenessGate, Resolution.CheckWiki: the stem function is a parameter of the gate and of the checks. `CheckWiki` passes `Names.Stem`.

## Findings

| source | as written | input that shows it | evidently intended | confidence | as-written member | corrected member |
|---|---|---|---|---|---|---|
| wikicheck.py:124-126 | `url.scheme is not None` always holds, because `urlparse` gives `''` for a target without a scheme, so every wikilink is skipped and the wikilink checks never run | a file whose line is `[[Home` + bar + `NoSuchPage]]`, with no file whose stem is `NoSuchPage`: no warning | skip only targets whose scheme is non-empty (`if url.scheme:`), so that this wikilink is reported as a missing article | high; not executed | `Resolution.AsWrittenMissesArticle` | `Resolution.IntendedReportsArticle` |
