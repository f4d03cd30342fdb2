# parseAnchore in Dafny

A verified model of the three text-processing functions of `parseAnchore.py`, a
script that reads the console report of an Anchore vulnerability scan and prepares
Go module overrides:

- **Finding extractor** (`parse_anchore_console`) — module `Findings`,
  `findings.dfy`. The method `ParseAnchoreConsole` folds over the report's lines
  and updates a package → fix map in place, as the script's loop does.
  - Each line is matched against the vulnerability-row pattern (`MatchRow`: cells
    between U+2502 bars, leftmost match).
  - Rows whose package lies outside `golang.org/x/`, or whose fix is `none`, are
    dropped (`Contribution`).
  - The first comma-separated fix candidate is kept, with a `v` put in front when
    missing (`ChosenFix`).
  - For each package, the textually smallest candidate is kept.
  - The result is specified by `IsFixSetOf`: its keys are exactly the packages
    offered by qualifying rows, and each value is offered for its key and is not
    greater than any other offer for that key. `FixSetUnique` shows this
    determines the map.
- **Image correlator** (`extract_image_names`) — module `Images`, `images.dfy`.
  - The method `ExtractImageNames` carries the cursor of the last declared image
    and appends short image names to a list.
  - It is specified by `Cursor` and `Hits`, which give the cursor and the hits of a
    prefix of the report.
  - The result lists each hit once, in order of first appearance
    (`FirstOccurrences`), or is `["unknown-image"]` when there is no hit. An image
    whose short name is itself `unknown-image` gives the same list, so the contract
    states both cases separately.
- **Manifest renderer** (`generate_go_mod`) — module `Manifest`, `manifest.dfy`.
  - The method `GenerateGoMod` appends the header, one
    `pkg => pkg fix` directive per package, and the closing line, in the order the
    script writes them. Package names are sorted by `SortKeys`.
  - The text is specified by `Render(packages)`. Lemmas give its frame, its line
    count, the directive for every package, and the fact that it does not depend
    on how the map was built.

Shared pieces:
- `Order` (`order.dfy`) defines Python's `<` on strings, which compares code point
  by code point, a proper prefix being smaller. It proves this is a strict total
  order and specifies the ascending enumeration `SortedKeys` of a set of names.
- `Strings` (`strings.dfy`) holds the character classes of the patterns and the
  string operations the script uses.
- `Wrappers` (`wrappers.dfy`) holds `Option`.
- `Walkthrough` (`walkthrough.dfy`) follows two lines through the model: the row
  `│ CVE-2023-1 │ Critical │ golang.org/x/net │ 0.5.0 │ 0.7.0,0.8.0 │ false │ go │`
  gives the map `{golang.org/x/net: v0.7.0}`, and
  `Scanning image: <registry>/thirdparty/foo:v1.2.3` declares that reference,
  whose short name is `foo`.

Behaviour of the code worth knowing, which the model follows:
- A reference with a digest and no tag, `…/foo@sha256:…`, gives the short
  name `foo@sha256` (parseAnchore.py:76-77), because the cut at the first `:`
  falls inside the digest; with a tag, `…/foo:v1@sha256:…`, the name is `foo`.
- The fix kept for a package is the textual minimum, so `v0.10.0` wins over
  `v0.9.0`, although the comment at parseAnchore.py:28 says "lowest".
- The docstring at parseAnchore.py:8 speaks of Critical severity, but the row
  pattern (parseAnchore.py:14) also accepts High; the model follows the pattern.

## Model

| member | source | states |
|---|---|---|
| Strings.StartsWith | parseAnchore.py:24-26 | `str.startswith`: the prefix is no longer than the text and equals its first characters |
| Strings.CiHasAt | parseAnchore.py:13-15 | a literal occurs at a position under `IGNORECASE`: the text there, folded to lower case, is the lower-case literal |
| Strings.SpanOf | parseAnchore.py:14 | a run drawn from a class, followed by a character outside it or by the end, is exactly what a greedy `[class]+` consumes |
| Strings.IsSpace | parseAnchore.py:14-54 | `\s` of both patterns: space, `\t` to `\r`, and the separators U+001C to U+001F |
| Strings.In | parseAnchore.py:14-54 | membership in the character classes of the two patterns: `\s`, `\d`, `\w`, `[\w\.\-/]`, `[\w\.\-]`, `[\w\.\-,]`, `[\w-]` and `[\w\.\-/:@]` |
| Strings.Lower | parseAnchore.py:24 | `str.lower()`: same length, each character case-folded |
| Strings.Trim | parseAnchore.py:25 | `str.strip()`: the result is the slice left after removing a run of whitespace at each end, and it neither starts nor ends with whitespace, so only leading and trailing whitespace is removed |
| Strings.BeforeFirst | parseAnchore.py:25 | `split(c)[0]`: a prefix free of `c`, followed by `c` unless it is the whole text |
| Strings.AfterLast | parseAnchore.py:76 | `split(c)[-1]`: a suffix free of `c`, preceded by `c` unless it is the whole text |
| Strings.BeforeFirstOf | parseAnchore.py:25 | cutting `s + c + t` at the first `c` gives back `s` when `s` has no `c` |
| Strings.AfterLastOf | parseAnchore.py:76 | cutting `p + c + s` after the last `c` gives back `s` when `s` has no `c` |
| Strings.CutAbsent | parseAnchore.py:76-77 | a text without `c` is left whole by both `split(c)[0]` and `split(c)[-1]` |
| Strings.Split | parseAnchore.py:14 | splitting a line at the bars gives at least one piece, and no piece holds a bar |
| Strings.SplitCons | parseAnchore.py:14 | a bar-free text, a bar, then more text splits into that text followed by the pieces of the rest |
| Strings.SplitJoin | parseAnchore.py:14 | the pieces joined with the bar give back the line, so no cell is lost |
| Strings.JoinSplit | parseAnchore.py:14 | bar-free pieces joined with the bar split back into the same pieces, so the cells of a printed row are recovered exactly |
| Strings.SplitPrefix | parseAnchore.py:14 | bar-free pieces joined with the bar in front of any text split into those pieces followed by the pieces of that text |
| Order.LexLess | parseAnchore.py:29 | Python's `<` on `str`: the empty string is below every other, otherwise the first code points decide and equal ones defer to the rest |
| Order.LexLessFirstDifference | parseAnchore.py:29 | after a common prefix, `a < b` holds exactly when the first differing code point of `a` is smaller |
| Order.LexLessIrreflexive | parseAnchore.py:29 | no string is smaller than itself |
| Order.LexLessTransitive | parseAnchore.py:29 | the string order is transitive |
| Order.LexLessTotal | parseAnchore.py:29 | any two distinct strings are ordered |
| Order.LexLessAsymmetric | parseAnchore.py:29 | never both `a < b` and `b < a` |
| Order.ProperPrefixIsLess | parseAnchore.py:29 | a proper prefix is smaller, as in Python |
| Order.TextualVersionOrder | parseAnchore.py:28-29 | `v0.10.0 < v0.9.0` and not the reverse: the comparison is textual, not by version |
| Order.LeastExists | parseAnchore.py:44 | every non-empty set of names has a least element |
| Order.SortedUnique | parseAnchore.py:44 | two strictly ascending sequences with the same elements are equal |
| Order.SortedKeys | parseAnchore.py:44 | the names of a set, each once, strictly ascending, one per element |
| Findings.IsCveId | parseAnchore.py:14 | the identifier alternative `CVE-\d+-\d+`, the prefix in any letter case |
| Findings.CveIdOf | parseAnchore.py:14 | `cve-` in any letter case, a digit run, a dash and a digit run form a CVE identifier |
| Findings.IsToken | parseAnchore.py:14 | a cell `\s*X\s*` whose `X` is a non-empty run of one character class |
| Findings.IsGhsaId | parseAnchore.py:14 | the identifier alternative `GHSA-[\w-]+`, the prefix in any letter case |
| Findings.RowFromCells | parseAnchore.py:13-15 | seven cells match exactly when, once stripped, the first is a CVE or GHSA identifier, the second `critical` or `high` and the last two `false` and `go` in any case, and package, version and fix are non-empty runs of their classes; the groups are the stripped cells |
| Findings.RowSearch | parseAnchore.py:20 | a match at the leftmost window has package and fix from their classes |
| Findings.RowSearchOfNine | parseAnchore.py:20 | a line with exactly eight bars is matched exactly when its seven inner cells are |
| Findings.MatchRow | parseAnchore.py:20-22 | a matched row's package is a non-empty `[\w.\-/]` run and its fix a non-empty `[\w.\-,]` run |
| Findings.MatchRowOfCells | parseAnchore.py:13-22 | bar-free text, seven bar-free cells between eight bars, then bar-free text: the line is matched exactly when the cells are, with the same groups |
| Findings.MatchRowOfCellsAnyTail | parseAnchore.py:13-22 | bar-free text, then seven matching cells between bars, then any text at all (more columns included): the line is matched at those cells, with their groups, because the search is not anchored at the end |
| Findings.SplitLeadingCells | parseAnchore.py:14 | such a line splits at the bars into at least nine pieces whose second to eighth are the seven cells |
| Findings.RowSearchAtStart | parseAnchore.py:20 | a matching first window is the match found, since the search is leftmost |
| Findings.WindowMatches | parseAnchore.py:14-20 | the seven cells after a bar form a row the pattern accepts |
| Findings.RowSearchSkip | parseAnchore.py:20 | a window that does not match passes the search on to the next bar |
| Findings.RowSearchSkipTo | parseAnchore.py:20 | when no window from `from` up to `q` matches, the search from `from` gives what the search from `q` gives |
| Findings.RowSearchHit | parseAnchore.py:20 | a matching window, once reached, is the match, with its cells as groups |
| Findings.RowSearchFirst | parseAnchore.py:20 | the leftmost matching window is the one returned, however many columns precede it |
| Findings.RowSearchNone | parseAnchore.py:20-21 | when no window matches, the search finds nothing and the line is skipped |
| Findings.TrimPadded | parseAnchore.py:14 | stripping a cell printed between two spaces gives back its content |
| Findings.RowOfPaddedCells | parseAnchore.py:13-15 | a well-formed row printed with spaces around each cell is matched, and its groups are the cell contents |
| Findings.Normalize | parseAnchore.py:26-27 | the result starts with `v`; the text is kept when it starts with a lower-case `v`, otherwise `v` is put in front |
| Findings.ChosenFix | parseAnchore.py:25-27 | the chosen fix starts with `v`, holds no comma or line break, and is the normalised text before the first comma (stripping removes nothing) |
| Findings.Contribution | parseAnchore.py:24-27 | a row contributes nothing exactly when its package is outside `golang.org/x/` or its fix is `none` in any case; otherwise its package with the normalised first candidate |
| Findings.Qualify | parseAnchore.py:20-27 | a line offers nothing exactly when it has no row match, or its package lies outside `golang.org/x/`, or its fix is `none`; an offer carries the matched package and the normalised first fix, lies in the namespace, starts with `v`, and holds no line break |
| Findings.OffersAt | parseAnchore.py:19-20 | the offer recorded for line `t` is that line's contribution |
| Findings.Offers | parseAnchore.py:19-30 | one offer per line of the report, in order; `OffersAt` says the offer of line `t` is that line's contribution |
| Findings.IsFixSetOf | parseAnchore.py:11-31 | the dictionary the loop keeps: its keys are exactly the offered packages, and each value is offered for its key and is not greater than any other offer for it |
| Findings.FixSetKeep | parseAnchore.py:21-30 | a line that offers nothing, or a fix not smaller than the stored one, leaves the map a fix set of the longer report |
| Findings.FixSetUpdate | parseAnchore.py:29-30 | storing a new package, or a smaller fix for a known one, keeps the map a fix set of the longer report |
| Findings.FixSetUnique | parseAnchore.py:11-31 | the fix set of a report is unique: two maps meeting the definition are equal |
| Findings.SingleOfferFixSet | parseAnchore.py:19-30 | a one-line report offering a package and fix gives the map holding just that pair |
| Findings.LineWithoutOfferIgnored | parseAnchore.py:19-24 | an unmatched row, a package outside the namespace, or a `none` fix leaves the map as it was |
| Findings.ParseAnchoreConsole | parseAnchore.py:6-31 | the map is the fix set of the report; keys lie in `golang.org/x/`, values start with `v`, neither holds a line break |
| Findings.FixSetShape | parseAnchore.py:24-27 | every key of a fix set lies in the namespace and every value starts with `v` |
| Findings.FirstCandidateWins | parseAnchore.py:25 | whatever follows the first comma of the fix column is ignored |
| Findings.ChosenFixExamples | parseAnchore.py:25-27 | `0.7.0,0.8.0` gives `v0.7.0`, `v1.2` stays, `V1` gives `vV1` |
| Findings.TieBreakIsTextual | parseAnchore.py:28-30 | offers `v0.9.0` then `v0.10.0` for one package leave `v0.10.0` |
| Images.ImageToken | parseAnchore.py:54 | a captured image reference is a non-empty `[\w.\-/:@]` run |
| Images.ImageTokenOf | parseAnchore.py:54 | whitespace, then a maximal run of reference characters: exactly that run is captured |
| Images.ImageAt | parseAnchore.py:54 | a match of either alternative at a position captures a non-empty `[\w.\-/:@]` run |
| Images.ImageSearch | parseAnchore.py:66 | the leftmost match captures a non-empty `[\w.\-/:@]` run |
| Images.MatchImage | parseAnchore.py:66-68 | a declared image is a non-empty `[\w.\-/:@]` run |
| Images.ScanningLineDeclares | parseAnchore.py:54-68 | a line starting with `Scanning image:` in any case, whitespace, then a maximal reference run declares exactly that reference |
| Images.ImageLineDeclares | parseAnchore.py:54-68 | a line starting with `image:` in any case, whitespace, then a maximal reference run declares exactly that reference |
| Images.ImageSearchFirst | parseAnchore.py:66 | when the pattern fails at every position before `q` and matches at `q`, the search returns the match at `q` |
| Images.ImageSearchNone | parseAnchore.py:66-67 | when the pattern matches at no position, the search finds nothing |
| Images.ScanningHoldsImage | parseAnchore.py:54 | `Scanning image:` in any case holds `image:` in any case nine characters in |
| Images.NoKeywordNoImage | parseAnchore.py:54-67 | a line without `image:` in any letter case declares no image, so the current image stays as it was |
| Images.NoImageAtSpace | parseAnchore.py:54 | neither alternative of the image pattern starts at a whitespace character |
| Images.IndentedImageLineDeclares | parseAnchore.py:54-68 | an indented line `image: <ref>`, the keyword in any case, declares exactly that reference: no match starts in the indentation |
| Images.MentionsWatched | parseAnchore.py:55-58 | the watched-row pattern: a bar, later `golang.org/x/net` in any case, later another bar, with no line break in between |
| Images.MentionsWatchedOf | parseAnchore.py:55-58 | a bar, line-break-free text holding `golang.org/x/net` in any case, then a bar: the line is a watched row |
| Images.ShortName | parseAnchore.py:76-77 | the short name holds no `/` and no `:` and is a slice of the image reference |
| Images.ShortNameOf | parseAnchore.py:74-77 | registry and path are dropped at the last `/` and the tag at the first `:` after it |
| Images.ShortNameGeneral | parseAnchore.py:76-77 | the name between an optional path ending in `/` and an optional `:tag` is the short name, so `nginx:1.25` gives `nginx`, `reg/foo` gives `foo` and `foo` gives `foo` |
| Images.Cursor | parseAnchore.py:61-68 | `current_image` after a prefix of the report: the image of the last declaring line, or none |
| Images.CursorIsLastDeclaration | parseAnchore.py:61-68 | when line `k` declares an image and no later line does, the cursor is that image |
| Images.Hits | parseAnchore.py:70-77 | no collected name holds `/` or `:` |
| Images.FirstIndex | parseAnchore.py:80 | the position of the first occurrence of a name |
| Images.FirstIndexAppend | parseAnchore.py:80-81 | appending never moves a first occurrence |
| Images.FirstOccurrencesRepeat | parseAnchore.py:80 | a name already listed is not added again |
| Images.FirstOccurrencesNew | parseAnchore.py:80-81 | a new name is listed last, keeping the list duplicate-free and in order of first occurrence |
| Images.FirstOccurrences | parseAnchore.py:79-81 | the listing holds each hit once, nothing else, in order of first occurrence among the hits |
| Images.FirstOccurrencesDrawn | parseAnchore.py:79-83 | the listing is empty exactly when there are no hits, and lists hits only |
| Images.CursorPersists | parseAnchore.py:66-68 | lines that declare no image leave the cursor unchanged |
| Images.DeclarationComesFirst | parseAnchore.py:66-72 | a line that declares an image and mentions the watched package is credited to the new image |
| Images.NoHitsBeforeDeclaration | parseAnchore.py:61-72 | watched rows before any image declaration collect nothing |
| Images.DeclarationThenRow | parseAnchore.py:61-81 | a declaration line, then a watched row declaring nothing: the cursor is the declared image and the one hit is its short name |
| Images.HitsStep | parseAnchore.py:64-77 | one more line moves the cursor to the image it declares, then adds a hit when it mentions the watched package while the cursor is set |
| Images.ExtractImageNames | parseAnchore.py:49-83 | the list is never empty; it is `["unknown-image"]` when nothing was collected, and otherwise lists each collected name once in order of first appearance; no name holds `/` or `:` |
| Manifest.Header | parseAnchore.py:41-43 | the module line, the `go 1.24` line with an empty line after it, and `replace (` |
| Manifest.Directive | parseAnchore.py:45 | the line `pkg => pkg fix` |
| Manifest.Directives | parseAnchore.py:44-45 | the directive lines for the keys, in the order given; `DirectiveListed` and `DirectivesLineCount` state its properties |
| Manifest.Render | parseAnchore.py:41-46 | the text of go.mod: header, one directive per package in ascending order of name, then `)` |
| Manifest.SortKeys | parseAnchore.py:44 | the package names in ascending order, each once |
| Manifest.GenerateGoMod | parseAnchore.py:34-46 | the text written is `Render` of the map |
| Manifest.RenderAnyOrder | parseAnchore.py:44 | any ascending enumeration of the names gives the same text: the output depends on the map alone |
| Manifest.RenderEmpty | parseAnchore.py:41-46 | an empty map gives the header followed by `)` |
| Manifest.RenderFrame | parseAnchore.py:41-46 | the text starts with the module, `go 1.24` and `replace (` lines and ends with `)` |
| Manifest.DirectiveListed | parseAnchore.py:44-45 | every listed package's directive occurs in the directive block |
| Manifest.PackagePinned | parseAnchore.py:44-45 | for every package of the map, the directive `pkg => pkg fix` pinning it to its fix occurs in the text |
| Manifest.DirectiveIsOneLine | parseAnchore.py:45 | a directive is exactly one line |
| Manifest.DirectivesLineCount | parseAnchore.py:44-45 | the directive block has one line per package |
| Manifest.OneLine | parseAnchore.py:41 | text without a line break followed by one is one line |
| Manifest.ModuleLineCount | parseAnchore.py:41 | the module line is one line |
| Manifest.GoLineCount | parseAnchore.py:42 | the Go line is followed by an empty line |
| Manifest.HeaderLineCount | parseAnchore.py:41-43 | the header is four lines |
| Manifest.RenderLineCount | parseAnchore.py:41-46 | go.mod has five fixed lines plus one per package |
| Walkthrough.RowIdWellFormed | parseAnchore.py:14 | `CVE-2023-1` is a CVE identifier |
| Walkthrough.YearAndNumber | parseAnchore.py:14 | `2023` and `1` are digit runs |
| Walkthrough.RowTokensWellFormed | parseAnchore.py:14 | `golang.org/x/net`, `0.5.0` and `0.7.0,0.8.0` are tokens of the package, version and fix classes |
| Walkthrough.RowWordsMatch | parseAnchore.py:13-15 | `Critical`, `false` and `go` match their words in any letter case |
| Walkthrough.RowCellsMatch | parseAnchore.py:13-15 | the padded cells of the example row match, with the cell contents as groups |
| Walkthrough.RowMatched | parseAnchore.py:13-22 | the example row, ended by a line break, is matched with groups `Critical`, `golang.org/x/net`, `0.5.0`, `0.7.0,0.8.0` |
| Walkthrough.RowContribution | parseAnchore.py:24-27 | that row contributes `golang.org/x/net` with `v0.7.0` |
| Walkthrough.RowFixSet | parseAnchore.py:11-31 | on its own that row offers `golang.org/x/net` with `v0.7.0` and gives the map `{golang.org/x/net: v0.7.0}` |
| Walkthrough.ReferenceChars | parseAnchore.py:54 | `/thirdparty/foo:v1.2.3` consists of reference characters and a space is whitespace |
| Walkthrough.KeywordFolds | parseAnchore.py:54 | `Scanning image:` folds to the pattern's keyword |
| Walkthrough.ScanningDeclaration | parseAnchore.py:54-68 | `Scanning image: <registry>/thirdparty/foo:v1.2.3` declares exactly that reference |
| Walkthrough.ScanningShortName | parseAnchore.py:74-77 | the short name of `<registry>/thirdparty/foo:v1.2.3` is `foo` |
| Walkthrough.DigestShortName | parseAnchore.py:74-77 | `<registry>/foo@sha256:<hex>` has the short name `foo@sha256`: the cut at the first `:` falls inside the digest |
| Walkthrough.TaggedDigestShortName | parseAnchore.py:74-77 | `<registry>/foo:v1@sha256:<hex>` has the short name `foo` |
| Walkthrough.UnqualifiedShortName | parseAnchore.py:76-77 | `nginx:1.25` has the short name `nginx` |
| Walkthrough.UntaggedShortName | parseAnchore.py:76-77 | `<registry>/foo` has the short name `foo` |
| Walkthrough.BareShortName | parseAnchore.py:76-77 | `foo` is its own short name |

## Left out

- The command-line entry point (parseAnchore.py:85-106) is not modelled: argument checks, usage message, exit, progress output, and writing the same go.mod once per image name.
- File access is not modelled.
  - The report is given as its sequence of lines, each with its line break if it had one; splitting a file into lines is not modelled (parseAnchore.py:18, 63).
  - The manifest is returned as text; creating the folder, joining the path and writing the file are not modelled (parseAnchore.py:38-40).
  - Decoding errors and file-system failures are not modelled.
- Unicode behaviour is modelled on ASCII.
  - `\s`, `\w` and `\d` are read on ASCII characters; `\s` and `str.strip()` cover space, `\t` to `\r` and `\x1c` to `\x1f`.
  - `IGNORECASE` and `str.lower()` fold ASCII letters only.
  - Python's Unicode classes and case folding are not modelled.
- General regular expressions are not modelled. Each of the three patterns is written as its own leftmost-match function.
- Digest removal is not claimed. A digest such as `@sha256` before the first `:` stays in the short name, as in the code.
- The captured severity is kept in the row but never used, as in the code.
- The code's `fix and` test always holds, because the fix group is never empty. It is kept as `row.fix != []`.
