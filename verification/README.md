# Changelog link checker, modelled in Dafny

The changelog link checker reviews the changelog files of a documentation
pull request. It lists the files of the pull request, keeps those under the
changelog directory that end in `.json`, and extracts every Markdown link
`[text](url)` from each line. Each URL is then classified:

- a URL that `new URL` rejects is broken;
- so is a URL whose `HEAD` request fails, with one retry after a timeout;
- a page the same pull request adds is exempt, because its URL can be
  predicted from the file name.

Verdicts are cached for the whole run. The broken links are reported in a
pull-request comment. A separate `scan` command checks a whole directory,
writes a CSV report, and can remove the broken links from the files.

The model is pure and functional. The outside world is an `Env`:

- `parses` says whether `new URL(u)` accepts `u`;
- `head(u, n)` says how the `n`-th request of the run ends.

The two URL caches and the request counter form a `Session` that is threaded
through every call, and file reading is a parameter `read: string -> Option<string>`.

Modules:

- `Text`: string helpers with JavaScript's semantics. These are `indexOf`,
  `lastIndexOf`, `split`, `join`, ASCII `toLowerCase` and decimal formatting.
- `Types`: the records of `types.ts`.
- `GraphUrl`: `generateGraphUrl` and `getListOfNewUrls`.
- `FileFilter`: the file-selection regular expression and `shouldCheckFile`.
  The expression is modelled as a small pattern language with a full-match
  semantics.
- `LinkExtract`: the global lazy link expression `\[.*?\]\((?<url>.*?)\)`.
  It covers where its matches start and end, and which URL each one yields.
- `UrlCheck`: `isUrlInvalid` and its cache.
- `Validation`: `getInvalidLinks`, `isLineInvalid`, `checkFileForBrokenLinks`
  and `checkFilesForBrokenLinks`.
- `Report`: `generatePrComment`.
- `Scan`: `escapeUrlForRegex` and `removeLinkFromLine`, including how the
  regular expression built from the URL is compiled and replaced. It also
  covers `removeBrokenLinksFromFile`, the directory loop of `scan`, and its
  CSV file.

Behaviours of the code that the contracts make explicit:

- `isUrlInvalid` consults the list of new URLs only when the first request
  returns a response that is not ok. After another fetch error the URL is
  recorded bad. After a timeout it is recorded good if the retry answers ok
  and bad otherwise. In neither case is the list looked at. A first response
  that is not ok leaves the cache untouched, so the URL is requested again
  next time.
- An empty URL (`[x]()`) makes `isLineInvalid` true, but `getInvalidLinks`
  never reports it.
- A read that rejects is not caught, so it rejects the whole batch. The
  model returns this as `ReadFailed` (`ScanFailed` in `scan`).
- `escapeUrlForRegex` uses `String.replace` with a string pattern. It
  therefore escapes only the first `.` and the first `?`. Every later `.` in
  the URL is a wildcard, so a link to a different URL that differs only there
  is removed as well.
- `generateGraphUrl` strips everything from the last `.` on. A `v1.0`
  reference path with no `.` after `v1.0` is therefore cut inside `v1.0` and
  gets no URL.
- The repository's tests for `generatePrComment` and
  `checkFileForBrokenLinks` expect an older shape of the data
  (`brokenLinkLines`, and plain line numbers). The model follows the code:
  records with `lineNumber` and `link`, and one nested bullet per link.

## Model

| member | source | states |
|---|---|---|
| Text.JoinSplit | src/scan.ts:72 | joining the pieces of `content.split('\n')` with `'\n'` gives the content back |
| Text.SplitJoin | src/validation.ts:74 | splitting lines joined with `'\n'` gives the lines back when none holds a line break |
| Text.DecimalRoundTrip | src/validation.ts:175 | the decimal text of a line number reads back as that number |
| GraphUrl.StripExtension | src/validation.ts:202 | everything from the last `.` on is removed; a name without `.` is kept whole |
| GraphUrl.StripExtensionOf | src/validation.ts:202 | `base.ext` loses exactly `.ext` when the extension holds no `.` |
| GraphUrl.GenerateGraphUrl | src/validation.ts:199-235 | every predicted URL is lower-case and starts with the documentation root |
| GraphUrl.ReferencePath | src/validation.ts:204-228 | `api-reference/<v1.0 or beta>/<api or resources>/<rest>.<ext>` maps to the category's route, the lower-cased rest and the version query, with `v1.0` shown as `1.0` |
| GraphUrl.ReferenceSegments | src/validation.ts:206-218 | a reference path has a URL if and only if its second segment is `v1.0` or `beta` and its third is `api` or `resources` |
| GraphUrl.ConceptPath | src/validation.ts:229-231 | `concepts<rest>.<ext>` maps to the root followed by the lower-cased rest |
| GraphUrl.OtherPathsHaveNoUrl | src/validation.ts:232-234 | a path that is neither a reference nor a conceptual topic has no URL |
| GraphUrl.ExtensionlessReferenceHasNoUrl | src/validation.ts:202-211 | `api-reference/v1.0/<tail>` with no `.` in the tail is cut at the `.` of `v1.0` and gets no URL |
| GraphUrl.ResourceExample | src/validation.ts:213-228 | `api-reference/v1.0/resources/new-resource.md` predicts `.../api/resources/new-resource?view=graph-rest-1.0` |
| GraphUrl.MixedCaseExample | src/validation.ts:224-228 | a mixed-case beta resource name is lower-cased in its URL |
| GraphUrl.ConceptExample | src/validation.ts:229-231 | `concepts/new-conceptual-topic.md` predicts the root followed by `/new-conceptual-topic` |
| GraphUrl.NewUrls | src/validation.ts:184-197 | a URL is listed if and only if some added file predicts it; at most one URL per file, all lower-case under the root |
| GraphUrl.NewUrlsAppend | src/validation.ts:187-194 | the list for `a ++ b` is the list for `a` followed by the list for `b`, in file order |
| FileFilter.ShouldCheckFileSpec | src/validation.ts:46-49 | a name is checked if and only if, after an optional leading `/`, it starts with the directory and ends in `.json`, both in any letter case |
| FileFilter.FilterMatches | src/validation.ts:21-24 | the `^\/?dir.*\.json$` expression with the `i` flag matches a whole name exactly in the closed form above |
| FileFilter.FullMatchLiterals | src/validation.ts:22 | a literal prefix of the expression consumes the same number of characters of the name |
| FileFilter.FullMatchStarThenLiterals | src/validation.ts:22 | `.*` followed by a literal suffix matches a name without line terminators exactly when the name ends with the suffix |
| FileFilter.StaleLastIndexRejects | src/validation.ts:46-49 | with the `g` flag a second test that did not reset `lastIndex` rejects a name the first test accepted |
| FileFilter.JsonUnderDirectoryIsChecked | test/validation.test.ts:12-20 | a `.json` name under the directory, with or without a leading `/` and in any sub-directory, is checked |
| FileFilter.NotEndingInJsonIsSkipped | test/validation.test.ts:15-19 | a name not ending in `.json`, such as `.json.txt`, is skipped |
| FileFilter.OutsideDirectoryIsSkipped | test/validation.test.ts:13 | a name that does not start with the directory is skipped |
| LinkExtract.FindCloseSpec | src/validation.ts:81 | the lazy `url` group stops at the first `)` and fails at a line terminator or at the end of the line |
| LinkExtract.FindSeparatorSpec | src/validation.ts:81 | the lazy text group takes the first `](` from which a `)` can be reached, and fails if and only if there is none |
| LinkExtract.MatchAtSpec | src/validation.ts:81 | the match reported at a position is the engine's lazy match, and there is none exactly when the expression cannot match there |
| LinkExtract.MatchesAreLazy | src/validation.ts:85 | every match `matchAll` yields is the lazy match at its start |
| LinkExtract.MatchesInOrder | src/validation.ts:85 | the matches come left to right and do not overlap |
| LinkExtract.NoMatchSkipped | src/validation.ts:85 | no position the global search passes over starts a match |
| LinkExtract.Urls | src/validation.ts:85-87 | every extracted URL holds neither `)` nor a line terminator |
| LinkExtract.LazyMatchIsUnique | src/validation.ts:81 | the match at a given `[` is determined |
| LinkExtract.NoMatchNoUrls | src/validation.ts:85-87 | a line where the expression matches nowhere has no URLs |
| LinkExtract.NoBracketNoUrls | src/validation.ts:81 | a line without `[` has no URLs |
| LinkExtract.OnlyMatch | src/validation.ts:85 | a line whose only `[` opens a match has exactly that match |
| LinkExtract.SingleLink | src/validation.ts:81-87 | a line holding one well-formed link `[text](url)` yields exactly its URL |
| UrlCheck.IsUrlInvalid | src/validation.ts:115-166 | the caches only grow; at most two requests are issued; a missing or empty URL is invalid and changes nothing |
| UrlCheck.CacheGrowsByTheUrl | src/validation.ts:121-162 | only an uncached URL is appended, to one list at most: the good list when the answer is valid, the bad list when it is invalid |
| UrlCheck.RetryOnlyAfterTimeout | src/validation.ts:146-159 | a second request is issued only after the first timed out |
| UrlCheck.VerdictKeepsCacheWellFormed | src/validation.ts:115-166 | neither list repeats a URL and no URL is both good and bad, before and after every call |
| UrlCheck.CachedVerdictIsFinal | src/validation.ts:121-129 | a cached URL gets the same answer again, under any world, with no request and no change to the cache |
| UrlCheck.FreshUrlVerdict | src/validation.ts:139-165 | an uncached, parsable URL is valid if and only if it is reachable, or its first response is not ok and its lower-case form is a new URL; it is cached unless that first response is not ok |
| UrlCheck.UnparsableUrl | src/validation.ts:131-137 | a URL the parser rejects is recorded bad without a request |
| UrlCheck.NewUrlsOnlyExemptNotOk | src/validation.ts:164-165 | the list of new URLs changes the verdict only for an uncached, parsable URL whose first response is not ok, which stays uncached |
| Validation.InvalidAmongAt | src/validation.ts:86-93 | the URL at index `t` is reported exactly when it is non-empty and `isUrlInvalid` rejects it in the session the URLs before it reached; it comes after the links reported for earlier URLs and before those for later ones |
| Validation.InvalidAmongAppend | src/validation.ts:86-93 | checking the URLs `a ++ b` is checking `a` and then `b` from the session `a` ends in, with the reported links concatenated |
| Validation.ReportedLinksAreUrls | src/validation.ts:77-96 | `getInvalidLinks` reports a subsequence of the line's URLs, each non-empty and free of `)` and line terminators |
| Validation.InvalidAmongKeepsCacheWellFormed | src/validation.ts:86-93 | checking a line's links keeps the cache invariant |
| Validation.AnyInvalid | src/validation.ts:104-112 | no URLs means valid with nothing asked; an empty URL means invalid |
| Validation.IsLineInvalid | src/validation.ts:98-113 | a line without URLs is valid and touches nothing |
| Validation.AnyInvalidIffReported | src/validation.ts:104-110 | the early-exit loop is invalid if and only if the collecting loop reports a link or some URL is empty |
| Validation.LineInvalidIffReported | src/validation.ts:98-113 | `isLineInvalid` is true if and only if `getInvalidLinks` reports a link or the line has an empty link |
| Validation.LineWithoutLinks | src/validation.ts:81-96 | a line where the expression matches nowhere reports nothing, is valid, and leaves the session alone |
| Validation.EmptyLink | src/validation.ts:88-91 | `[x]()` makes the line invalid, but no link is reported |
| Validation.LinksOnLineNumbered | src/validation.ts:60-65 | the links numbered with line `m` are found on line `n` exactly when `m == n` |
| Validation.CheckLinesFromSpec | src/validation.ts:51-69 | every broken link carries the number of its line and is one of that line's non-empty URLs, and the reports come in line order |
| Validation.CheckFileSpec | src/validation.ts:51-69 | every broken link of a file has a line number between 1 and the number of lines, and is a non-empty URL of that line; line numbers never decrease; the links numbered `n` are exactly those `getInvalidLinks` reports for line `n` in the session the earlier lines reached |
| Validation.CheckFileFrontToBack | src/validation.ts:57-66 | checking a file is the loop over its lines from the first: each line's invalid links are appended with its 1-based number, found in the session the lines before it reached |
| Validation.FileLinksOfLine | src/validation.ts:58-65 | the links reported with number `n` are exactly the links `getInvalidLinks` reports for line `n`, in order, in the session reached after the earlier lines |
| Validation.InvalidLinkIsReported | src/validation.ts:58-91 | a non-empty URL of line `n` that `isUrlInvalid` rejects when its turn comes is reported with line number `n` |
| Validation.FileLinksKeepLineOrder | src/validation.ts:57-65 | within each line the reported links keep the order of that line's links |
| Validation.CheckLinesKeepsCacheWellFormed | src/validation.ts:57-66 | checking a file keeps the cache invariant |
| Validation.AppendNumbered | src/validation.ts:60-65 | the inner loop appends the numbered links of a line |
| Validation.CheckFileForBrokenLinks | src/validation.ts:51-69 | the loop over the lines computes the same links and session as the line-by-line definition |
| Validation.PlainLines | src/validation.ts:57-58 | lines without URLs report nothing and issue no request |
| Validation.NotOkUrl | src/validation.ts:139-165 | a fresh, parsable URL whose first response is not ok is reported unless its lower-case form is a new URL; exactly one request is issued |
| Validation.NotOkLinkInFile | test/validation.test.ts:105-118 | one link answered not ok, among lines without links, is reported with its line number unless the pull request adds that page |
| Validation.CheckedNamesAreSelected | src/validation.ts:27-28 | only names of the pull request's files that the filter accepts are checked |
| Validation.CheckEachReports | src/validation.ts:27-40 | reported files are checked files, in pull-request order, each with at least one broken link; a failed read names a checked file that could not be read |
| Validation.CheckEachSpec | src/validation.ts:27-40 | the loop over all the pull request's files is the loop over the selected names from the first: each file is read and checked in the session the earlier files reached, an entry with exactly its broken links is pushed when it has any, and the first failed read ends the loop |
| Validation.ReportedUpToReadable | src/validation.ts:27-40 | that loop reports exactly when every selected file can be read, and otherwise names the first selected file that cannot be read |
| Validation.CheckFilesForBrokenLinks | src/validation.ts:15-44 | the whole call is that loop with the new URLs predicted from every file of the pull request: it reports exactly when every selected file can be read, then with one entry per selected file with broken links, in pull-request order; otherwise it names the first selected file that cannot be read |
| Validation.CheckEachKeepsCacheWellFormed | src/validation.ts:27-40 | the cache invariant holds across the whole batch |
| Validation.SkippedFilesAreNotRead | src/validation.ts:28-39 | files the filter skips are never read: two file systems that agree on the checked files give the same outcome |
| Report.LinkLinesReadBack | src/validation.ts:174-176 | the nested bullet at position `t` reads back as the `t`-th broken link |
| Report.ReadLinkLineRoundTrip | src/validation.ts:175 | a link's bullet reads back as its line number and link, whatever the link holds |
| Report.ReadFileLineRoundTrip | src/validation.ts:173 | a file's bullet reads back as the file name |
| Report.BulletsDiffer | src/validation.ts:173-175 | a file's bullet never reads as a link's bullet, nor the reverse |
| Report.ReadListOf | src/validation.ts:172-177 | the list lines read back as the files and broken links they were written from |
| Report.AppendLinkLines | src/validation.ts:174-176 | the inner loop appends one terminated bullet per link, in order |
| Report.GeneratePrComment | src/validation.ts:168-182 | the accumulated comment is the header, a line break, the list, a line break and the footer |
| Report.FileListAppend | src/validation.ts:172-177 | the list for `a ++ b` is the list for `a` followed by the list for `b` |
| Report.ListLinesCount | src/validation.ts:172-177 | the list has one line per file plus one per broken link |
| Report.SingleFileList | src/validation.ts:173-176 | a file's entry is its bullet followed by its links' bullets |
| Report.SplitTerminated | src/validation.ts:173-175 | every list line ends in a line break, so splitting the list gives the lines and one empty piece |
| Report.CommentReadsBack | src/validation.ts:168-182 | the comment reads back: header and footer around exactly the list lines, when no name or link holds a line break |
| Report.ReportReadsBack | src/validation.ts:168-182 | the whole comment reads back as the files and broken links it reports, when no name or link holds a line break |
| Report.OneLinkExample | src/strings.ts:4-9 | the exact comment for one file with one broken link |
| Scan.ReplaceFirstAtFirstIndex | src/scan.ts:84 | `replace` with a string pattern replaces at `indexOf` only, and nowhere when the character is absent |
| Scan.EscapeIsFirstOnly | src/scan.ts:83-85 | only the first `.` and the first `?` are escaped; every other character, including later `.` and `?`, is copied |
| Scan.EscapeWithoutDotOrQuery | src/scan.ts:83-85 | a URL with neither `.` nor `?` is unchanged |
| Scan.ParseEscapeFrom | src/scan.ts:76-79 | compiling the escaped URL gives the URL's pattern |
| Scan.EscapedUrlPattern | src/scan.ts:76-79 | the expression compiled from the escaped URL: the first `.` and the `?` are literal, later `.` are wildcards, everything else is literal |
| Scan.LinkAt | src/scan.ts:77 | a match at the start ends three characters plus the URL's length after its `]` |
| Scan.LinkAtSpec | src/scan.ts:77 | a match at the start is found if and only if the expression matches there, with its `]` at the first `]` |
| Scan.RemoveLinkUsesUrlPattern | src/scan.ts:75-81 | `removeLinkFromLine` replaces the matches of the URL's pattern |
| Scan.ReplaceWithoutMatch | src/scan.ts:80 | a line with no match is unchanged |
| Scan.ReplaceWithMatch | src/scan.ts:80 | a line with a match is changed |
| Scan.RemoveLinkUnchangedIff | src/scan.ts:75-81 | the line is unchanged if and only if no link to the URL occurs in it |
| Scan.ReplacePlainPrefix | src/scan.ts:80 | text holding no `[` is copied through |
| Scan.MatchInFront | src/scan.ts:80 | a matching link at the start is replaced by its text in bold (`**$1**`) |
| Scan.LinkInFront | src/scan.ts:77-80 | a link to the URL itself at the start is replaced by its text in bold |
| Scan.OtherLinkInFront | src/scan.ts:77 | a link to a URL that differs from the pattern within its length is not matched |
| Scan.RemoveSingleLink | src/scan.ts:75-81 | the link to the URL becomes its bold text; the text around it, a trailing `\r` included, is unchanged |
| Scan.LookalikeLinkIsRemoved | src/scan.ts:84 | a link to another URL that the pattern accepts is removed as well |
| Scan.LaterDotIsWildcard | src/scan.ts:84 | for `a.b.c` the second `.` is a wildcard, so `a.bxc` matches, but the first `.` stays literal |
| Scan.RemoveSecondOfTwoLinks | test/scan.test.ts:4-11 | of two links, the one to another URL is kept and the one to the URL becomes its bold text |
| Scan.ReplaceKeepsNoBreak | src/scan.ts:80 | removing links never introduces a line break |
| Scan.RewriteDefinedIff | src/scan.ts:67-70 | the rewrite goes through if and only if every line number is between 1 and the number of lines; otherwise `lines[n - 1]` is undefined and the call throws |
| Scan.RewriteKeepsOtherLines | src/scan.ts:67-70 | the rewrite keeps the number of lines and every line no link points at |
| Scan.RewriteLineByLine | src/scan.ts:67-70 | each line ends up with its own links removed in order; links on other lines do not affect it |
| Scan.RemoveBrokenLinks | src/scan.ts:61-73 | the in-place loop computes the same lines as the link-by-link definition |
| Scan.RewriteKeepsNoBreak | src/scan.ts:67-70 | rewritten lines hold no line break |
| Scan.RemoveBrokenLinksKeepsLines | src/scan.ts:65-72 | splitting the written file gives the rewritten lines, as many as before |
| Scan.RemoveNothingKeepsFile | src/scan.ts:65-72 | with no links the file is written back unchanged |
| Scan.ScanRemovalSucceeds | src/scan.ts:29-46 | the links the check reports for a file name lines of that file, so their removal goes through and keeps the line count |
| Scan.ReadRowRoundTrip | src/scan.ts:37 | a CSV row reads back as its file and broken link when the file name has no comma |
| Scan.FileRowsReadBack | src/scan.ts:36-38 | row `t` of a file reads back as that file and its `t`-th broken link, when the file name holds no comma |
| Scan.SchemaFileIsNotRead | src/scan.ts:24-26 | `changelog.schema.json`, in any letter case, is never read |
| Scan.ScanFilesSpec | src/scan.ts:23-48 | the rows are, file by file in directory order, one row per broken link of every file but the schema, each file checked with no predicted URLs in the session the files before it reached; rows come exactly when every such file can be read, and otherwise the first that cannot be read is named |
| Scan.ScanRowsSpec | src/scan.ts:23-48 | every row names a scanned file other than the schema file, a line number of at least 1, and a non-empty link |
| Scan.CsvFileLines | src/scan.ts:50-53 | the CSV file is written if and only if there is a row, and its lines are the header followed by the rows |

## Left out

- Network, file system, process and logging. This covers `fetch`, `readFile`,
  `readdir`, `writeFile`, `process.argv`, `process.env.GITHUB_WORKSPACE`,
  `path.join` and `console.log`. Requests are answered by `Env.head`, and file
  contents come from a `read` parameter. Paths are file names, not joined
  paths.
- `new URL`: the WHATWG URL parser is beyond this model. It is the predicate
  `Env.parses`.
- `src/index.ts`: the GitHub Action entry point that lists the pull request's
  files and posts the comment. It is not part of this model.
- Concurrency: every `await` is taken in program order. The
  `removeBrokenLinksFromFile` call in `scan` is not awaited. The model treats
  it as a separate function, and `ScanFiles` does not write files.
- Strings are sequences of characters, not UTF-16 code units. Lower-casing
  and case-insensitive matching are modelled for ASCII letters only.
- FileFilter.ShouldCheckFileSpec: requires that the file name holds no line
  terminator. The `m` flag would otherwise let `^` and `$` match inside the
  name. It also requires that the directory holds no regular-expression
  syntax, since the code splices it into the expression unescaped.
- Scan.RemoveLinkUnchangedIff: requires `SafeUrl`. The URL may hold no
  regular-expression syntax other than `.` and a single `?`. Any other syntax
  is compiled by `new RegExp` into a pattern this model does not cover, and a
  second `?` would make the expression a different one.
- Scan.ReadRowRoundTrip and Scan.FileRowsReadBack: only for file names
  without a comma. The code writes no quoting, so such a name cannot be told
  apart from its row.
- Report.CommentReadsBack and Report.ReportReadsBack: only for names and
  links without line breaks. Extracted links never hold one.
- Recursion depth, timing and the order in which the Action reports are not
  modelled.
