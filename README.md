# zoekt-vscode result tree and link logic in Dafny

This project models the core of the zoekt-vscode extension, which searches a
Zoekt code-search server from VS Code. The modelled parts are:

- **The result tree** (`SearchResults`).
  - `SearchResultsProvider` is a class holding the live Zoekt response,
    the match total, the query summary and a counter of tree-changed events.
  - `GetChildren` projects that state into a summary/welcome → file → line
    tree.
  - `SetResults`, `DismissAll` and `DismissElement` change it in place.
  - Dismissing a line filters the `LineMatches` of a `FileMatch` object in
    place; `FileMatch` is a class because files are dismissed by identity.
  - The label of a line node is computed as in the source: the match range,
    the 25-character trim, the `...` prefix and the shifted highlights.
  - `UriForMatch` picks where a match opens, first tier wins: local
    repository, workspace folder, URL template, bare path.
  - `OpenLine` builds the open-command arguments.
  - The node kinds of the source's discriminators (`isFileMatch`,
    `isSummaryEntry`, `isWelcomeEntry`) are the constructors of
    `ResultEntry`.
- **URL templates** (`UrlTemplates`): the `URLJoinPath` join grammar, the
  `{{.Version}}`/`{{.Path}}` substitution grammar, the optional
  `{{.LineNumber}}` suffix, and the commit-URL variant. The JavaScript they
  rely on is modelled over `seq<char>`:
  - `Strings`: the regex `\s` class, `split`, `join`, `replaceAll`, and
    `toString` of safe integers.
  - `UriComponent`: `encodeURIComponent`, via UTF-8.
  - `JsonLiteral`: `JSON.parse` of string literals (RFC 8259, section 7)
    and of `true`, `false` and `null`.
- **Remote names** (`GitUtils`):
  - It normalises URL-style and SCP-style git remotes to `host/owner/repo`.
  - It lists the names of all remotes of all repositories.
  - It finds the repository that serves a Zoekt repository name.
- **The older copy** in `src/utils/git.ts` (`GitLegacy`):
  - Its name list reads only the first repository.
  - Its `getUriForFile` prefers a matching repository.
  - Its `getRepoNameFromRemoteUrl` and `findTargetRepo` are the same text as
    in `gitUtils.ts` and are modelled once, in `GitUtils`.
- **Workspace lookup** (`FileUtils`): the first workspace folder whose
  `stat` probe succeeds.
- **Remote documents** (`TextDocument`): validating a `zoekt-remote` URI,
  the one fetch it makes, and which text is shown.

Host services are inputs:
- the git extension's API, an `Option<seq<Repository>>`;
- `new URL`, a function `string -> Option<UrlParts>`;
- `workspace.fs.stat`, a predicate on URIs;
- the fetch, a function from a request to an outcome;
- base64 decoding, a function on strings;
- the decoded text of a line, a string argument.

`vscode.Uri` is a datatype recording how the URI was built. Its scheme
follows `Uri.parse`.

Two facts about the code are worth stating up front:
- A non-join template substitutes `{{.Version}}` first and `{{.Path}}`
  second (`src/utils/urlTemplates.ts:48-49`). A `{{.Path}}` marker inside
  the version is therefore replaced too
  (`UrlTemplates.VersionIsSubstitutedAgain`).
- `getUriForMatch` (`src/providers/searchResultsProvider.ts:100-141`) has exactly four tiers: local repository, workspace
  folder, URL template, bare file path. There is no fifth.

## Model

| member | source | states |
|---|---|---|
| SearchResults.SearchResultsProvider.constructor | src/providers/searchResultsProvider.ts:35-40 | a fresh provider has no response, zero totals and an empty query, and has not searched |
| SearchResults.SearchResultsProvider.GetChildren | src/providers/searchResultsProvider.ts:175-191 | root children: `Summary` then every file in order, whenever there are files or `totalMatches > 0`; otherwise one welcome, "no results" iff a search happened; a file's children are its line matches in order, each tagged with the file's name, repository and version; summary, welcome and line nodes have no children |
| SearchResults.SearchResultsProvider.RootBeforeSearch | src/providers/searchResultsProvider.ts:176-184 | in a consistent state before any search the root is the start-a-search welcome |
| SearchResults.SearchResultsProvider.TreeDepth | src/providers/searchResultsProvider.ts:175-191 | the tree has at most three levels: a grandchild of the root is a leaf |
| SearchResults.SearchResultsProvider.SetResults | src/providers/searchResultsProvider.ts:193-201 | all five arguments are stored, `hasSearched` becomes true, and one change is signalled |
| SearchResults.SearchResultsProvider.DismissAll | src/providers/searchResultsProvider.ts:224-231 | the response is dropped, total, duration and query are reset and `hasSearched` is false; `searchAllRepos` is kept; one change is signalled; the root is then the start welcome |
| SearchResults.SearchResultsProvider.DismissElement | src/providers/searchResultsProvider.ts:207-222 | fails (the source's TypeError) iff a file or line is dismissed while there are no files, and then nothing changes; a file node: the file list loses exactly that object and every file object keeps its lines; a line node: in the first file with the entry's name and repository every line with that number is dropped, that file is dropped once empty, other files keep their lines, and with no such file nothing changes; a summary or welcome leaves the files and their lines alone; `totalMatches` is then the sum of the remaining files' line counts; one change is signalled, two when a line dismissal empties its file (the recursive call signals too); consistency and "no empty file shown" are preserved |
| SearchResults.SearchResultsProvider.DismissFile | src/providers/searchResultsProvider.ts:208-209 | the file list loses exactly the dismissed object; the total is recounted |
| SearchResults.SearchResultsProvider.DismissLine | src/providers/searchResultsProvider.ts:210-220 | in the first file with the entry's name and repository every line with that number is dropped, and the file itself is dropped if no line is left; other files keep their lines; with no such file nothing changes; the total is recounted; one change is signalled, two when the file is emptied |
| SearchResults.SearchResultsProvider.DismissLineIn | src/providers/searchResultsProvider.ts:213-217 | filters the file's lines in place and removes the file from the list exactly when it became empty, signalling one change then and none otherwise |
| SearchResults.SearchResultsProvider.DismissEveryLine | src/providers/searchResultsProvider.ts:207-221 | with distinct name and repository pairs, dismissing one after another every line node a file shows leaves the file list as dismissing the file node does (the file is gone, the other files keep their lines), keeps the query, duration, `hasSearched` and `searchAllRepos`, recounts the total, and signals one change per line plus one for the emptied file |
| SearchResults.SearchResultsProvider.DismissLineOf | src/providers/searchResultsProvider.ts:210-221 | one such dismissal filters the file's lines by the line number and drops the file once it has none; after that a line node of the file finds no file and changes no list; the query fields stay; two changes are signalled when it empties the file, one otherwise |
| SearchResults.SearchResultsProvider.RemoveFromFiles | src/providers/searchResultsProvider.ts:209 | the response's file list becomes the list without the object |
| SearchResults.SearchResultsProvider.Recount | src/providers/searchResultsProvider.ts:220-221 | `totalMatches` becomes the sum of line counts and a change is signalled |
| SearchResults.FileMatch.DismissLines | src/providers/searchResultsProvider.ts:214 | the file's line matches become those with a different line number |
| SearchResults.RemoveFile | src/providers/searchResultsProvider.ts:209 | as multisets, the result is the input with every occurrence of the object removed; everything else stays |
| SearchResults.RemoveFileSplice | src/providers/searchResultsProvider.ts:209 | removing a file that occurs once keeps the others in their order |
| SearchResults.RemoveAbsent | src/providers/searchResultsProvider.ts:209 | removing an absent file changes nothing |
| SearchResults.FilterLines | src/providers/searchResultsProvider.ts:214 | a line survives iff its number differs; the list never grows |
| SearchResults.FilterLinesAppend | src/providers/searchResultsProvider.ts:214 | filtering keeps the order: it distributes over concatenation |
| SearchResults.FindFileDistinct | src/providers/searchResultsProvider.ts:212 | with distinct name and repository pairs, a file's own name and repository find that file |
| SearchResults.FindFileRemoved | src/providers/searchResultsProvider.ts:212 | with distinct pairs, once a file is removed its name and repository find nothing |
| SearchResults.FindFile | src/providers/searchResultsProvider.ts:212 | the first file with that name and repository, or none iff there is no such file |
| SearchResults.TotalOf | src/providers/searchResultsProvider.ts:220 | the total is zero iff no file has a line match |
| SearchResults.MatchStart | src/providers/searchResultsProvider.ts:143-145 | the least fragment offset, or `MAX_SAFE_INTEGER` when that is smaller or there are no fragments |
| SearchResults.MatchEnd | src/providers/searchResultsProvider.ts:146-147 | the greatest fragment end, or 0 when that is larger or there are no fragments |
| SearchResults.TreeItemLabel | src/providers/searchResultsProvider.ts:151-173 | one highlight per fragment, each exactly `MatchLength` wide |
| SearchResults.LabelUntrimmed | src/providers/searchResultsProvider.ts:159-171 | with the first match within 25 characters the label is the whole line and the highlights are the raw fragment columns |
| SearchResults.LabelText | src/providers/searchResultsProvider.ts:159-166 | a trimmed label is `...` followed by the line from `trimStart`; an untrimmed one is the line |
| SearchResults.LabelHighlight | src/providers/searchResultsProvider.ts:162-171 | a trimmed highlight is shifted left by `trimStart - 3`; an untrimmed one is the raw columns |
| SearchResults.HighlightsCoverSameText | src/providers/searchResultsProvider.ts:151-173 | every highlight of a fragment inside the line selects, in the label, exactly the text the fragment selects in the line |
| SearchResults.FirstMatchColumn | src/providers/searchResultsProvider.ts:157-171 | in a trimmed label the first match starts at column 28, after `...` and 25 characters of context |
| SearchResults.LabelWithoutFragments | src/providers/searchResultsProvider.ts:144-145 | a line match without fragments gets the label `...` and no highlights, because its start is `MAX_SAFE_INTEGER` |
| SearchResults.OpenLine | src/providers/searchResultsProvider.ts:84-89 | a selection is passed iff the URI's scheme is `file`; it covers the match range on line `LineNumber - 1`, or on line 0 when `LineNumber` is below 1 |
| SearchResults.WebUrlHasNoSelection | src/providers/searchResultsProvider.ts:87-89 | an `https:` URI is opened without a selection |
| SearchResults.SearchResultsProvider.UriForMatch | src/providers/searchResultsProvider.ts:100-141 | a joined URI is the file name under a repository root or, without a serving repository, under a workspace folder that has it; a parsed URI or a failure needs a non-empty template and no earlier tier, and a failure a join-style one; a file URI is the file name and means no tier applied |
| SearchResults.SearchResultsProvider.RepositoryFirst | src/providers/searchResultsProvider.ts:105-108 | when a local repository serves the match's repository, the URI is exactly the file name joined to the root of the first repository that serves it (none before it does), and neither folders nor templates matter |
| SearchResults.SearchResultsProvider.WorkspaceCopySecond | src/providers/searchResultsProvider.ts:110-113 | otherwise, when a workspace folder holds the file, the URI is exactly the file name joined to the first folder that holds it (no folder before it does), and the file system has it |
| SearchResults.SearchResultsProvider.TemplateThird | src/providers/searchResultsProvider.ts:126-137 | otherwise, with a non-empty template for the repository, it fails iff the plain expansion fails; else the URI is exactly `Uri.parse` of the plain expansion for a file node or when the response has no line-fragment templates, and of the plain expansion followed by the repository's line fragment for the line number for a line node |
| SearchResults.SearchResultsProvider.FilePathLast | src/providers/searchResultsProvider.ts:140 | for a file or a line node with no tier applying the URI is exactly `Uri.file(FileName)`, and a line node then opens with a selection |
| UrlTemplates.JoinArgs | src/utils/urlTemplates.ts:17 | a match is braced with `{{` and `}}`, is longer than the keyword and the arguments, and its arguments are one line with no whitespace at either end |
| UrlTemplates.JoinArgsComplete | src/utils/urlTemplates.ts:17 | every text of the shape `{{`, spaces, `URLJoinPath`, at least one space, args, spaces, `}}` yields exactly those args (the lazy group leaves trailing blanks out) |
| UrlTemplates.JoinArgsSound | src/utils/urlTemplates.ts:17 | whenever the pattern matches, the template has that shape around the args returned |
| UrlTemplates.EncodePathKeepsSegments | src/utils/urlTemplates.ts:34-36 | encoding a path keeps its `/` segments and encodes each one on its own |
| UrlTemplates.EncodeSingleSegment | src/utils/urlTemplates.ts:34-36 | a value of unreserved characters is left as it is |
| UrlTemplates.JoinStyleExpands | src/utils/urlTemplates.ts:9-14 | the documented template `{{URLJoinPath "<base>" "<segment>" .Version .Path}}` expands to `<base>/<segment>/<version>/<path>` with version and path encoded per segment |
| UrlTemplates.QuotedTemplateArgs | src/utils/urlTemplates.ts:27-29 | the documented template's arguments are read back whole |
| UrlTemplates.QuotedArgsExpand | src/utils/urlTemplates.ts:30-42 | those arguments evaluate and join to the expected URL |
| UrlTemplates.QuotedArgsWords | src/utils/urlTemplates.ts:31 | splitting them on whitespace gives the four tokens |
| UrlTemplates.QuotedSegments | src/utils/urlTemplates.ts:32-41 | the four tokens evaluate to base, segment, encoded version and encoded path |
| UrlTemplates.QuotedSegment | src/utils/urlTemplates.ts:38-39 | a quoted string token evaluates to the string |
| UrlTemplates.SegmentsOfValues | src/utils/urlTemplates.ts:30-41 | the mapping succeeds with the values of the tokens when each token evaluates |
| UrlTemplates.BadArgumentFails | src/utils/urlTemplates.ts:38-39 | one token `JSON.parse` rejects makes the whole evaluation fail |
| UrlTemplates.EvaluateFileUrlTemplate | src/utils/urlTemplates.ts:19-55 | only a join-style template can fail; a success starts with the file URL, and without a fragment template or a line number it is the file URL |
| UrlTemplates.EvaluateCommitUrlTemplate | src/utils/urlTemplates.ts:57-80 | only a join-style template can fail; a substitution-style template without a version marker comes back unchanged |
| UrlTemplates.SubstitutionExpands | src/utils/urlTemplates.ts:43-49 | a brace-free text around one version and one path marker gets the version and the path in their places |
| UrlTemplates.SubstitutionTemplateNotJoin | src/utils/urlTemplates.ts:27-28 | such a template is not join style |
| UrlTemplates.SubstitutesBoth | src/utils/urlTemplates.ts:48-49 | both markers are replaced, version first |
| UrlTemplates.VersionReplaced | src/utils/urlTemplates.ts:48 | the version marker is replaced and the path marker is left |
| UrlTemplates.PathReplaced | src/utils/urlTemplates.ts:49 | the path marker is replaced |
| UrlTemplates.NotJoinStyle | src/utils/urlTemplates.ts:17 | a brace-free prefix before `{{.` rules out the join pattern |
| UrlTemplates.SubstitutionExample | src/utils/urlTemplates.ts:43-49 | `https://example.com/{{.Version}}/{{.Path}}` with `v1` and `x/y` gives `https://example.com/v1/x/y` |
| UrlTemplates.VersionIsSubstitutedAgain | src/utils/urlTemplates.ts:48-49 | a version that is itself `{{.Path}}` ends up replaced by the path |
| UrlTemplates.PlainTemplateUnchanged | src/utils/urlTemplates.ts:43-54 | a non-join template without markers and without line arguments comes back unchanged |
| UrlTemplates.LineFragmentAppended | src/utils/urlTemplates.ts:52-54 | the line arguments never change success or failure; the suffix is appended only for a non-empty template and a given number, with every line marker replaced by the decimal number |
| UrlTemplates.LineFragmentNumber | src/utils/urlTemplates.ts:52 | a brace-free prefix followed by the line marker becomes the prefix and the number |
| UrlTemplates.SegmentsWithoutPath | src/utils/urlTemplates.ts:66-73 | without a `.Path` token the commit mapping and the file mapping agree |
| UrlTemplates.CommitAgreesWithFile | src/utils/urlTemplates.ts:57-80 | the commit URL equals the file URL without line arguments for templates with no path token or path marker |
| Strings.Words | src/utils/urlTemplates.ts:31 | splitting on `/\s+/` gives at least one piece |
| Strings.WordsHaveNoSpace | src/utils/urlTemplates.ts:31 | no piece contains whitespace |
| Strings.WordsCons | src/utils/urlTemplates.ts:31 | a space-free word, whitespace and a rest split into the word and the rest's pieces |
| Strings.WordsSingle | src/utils/urlTemplates.ts:31 | a space-free text is one piece |
| Strings.TrimStartSplits | src/utils/urlTemplates.ts:17 | trimming the start removes exactly a whitespace prefix |
| Strings.TrimEndSplits | src/utils/urlTemplates.ts:17 | trimming the end removes exactly a whitespace suffix |
| Strings.Split | src/utils/urlTemplates.ts:34-36 | `split` gives at least one piece and no piece holds the separator |
| Strings.JoinSplit | src/utils/urlTemplates.ts:34-36 | joining the pieces with the separator gives the text back |
| Strings.SplitJoin | src/utils/urlTemplates.ts:34-36 | splitting the join of separator-free pieces gives the pieces back |
| Strings.ReplaceAllAbsent | src/utils/urlTemplates.ts:48-49 | `replaceAll` of an absent pattern changes nothing |
| Strings.ReplaceOnce | src/utils/urlTemplates.ts:48-49 | a single occurrence is replaced literally, whatever the replacement holds |
| Strings.ReplaceAllFront | src/utils/urlTemplates.ts:48-49 | an occurrence at the front is replaced and the rest is scanned after it |
| Strings.ParseNatDigits | src/utils/urlTemplates.ts:52 | the decimal text of a line number reads back as the number |
| UriComponent.EncodeUriComponent | src/utils/urlTemplates.ts:34-36 | the output holds only unreserved characters and `%XX` escapes, and never a `/` |
| UriComponent.EncodeUnreserved | src/utils/urlTemplates.ts:34-36 | unreserved text is left as it is |
| UriComponent.EncodeAppend | src/utils/urlTemplates.ts:34-36 | encoding works character by character: it distributes over concatenation |
| JsonLiteral.ParseToken | src/utils/urlTemplates.ts:38-39 | only `true`, `false`, `null` and whole string literals evaluate, `true` and `false` to themselves; a string's value is no longer than its body; the not-modelled error is only for numbers, arrays and objects |
| JsonLiteral.EscapeRoundTrip | src/utils/urlTemplates.ts:38-39 | parsing the escaped body of any string gives the string back |
| JsonLiteral.UnquoteQuote | src/utils/urlTemplates.ts:38-39 | a quoted string literal parses to its string |
| JsonLiteral.ParseTokenQuoted | src/utils/urlTemplates.ts:38-39 | a quoted string token parses to its string |
| JsonLiteral.QuoteNoSpace | src/utils/urlTemplates.ts:30-31 | quoting a space-free string gives a space-free token, so it survives the whitespace split |
| GitUtils.RepoNameFromRemoteUrl | src/utils/gitUtils.ts:16-33 | a remote `new URL` accepts always gives a name starting with its hostname; otherwise a name is that of canonical parts the remote spells, bare or after `git@` or `ssh://git@` |
| GitUtils.ScpName | src/utils/gitUtils.ts:25-30 | a name the SCP expression gives is built from canonical parts the remote spells, bare or after `git@` or `ssh://git@` |
| GitUtils.StripGitSuffix | src/utils/gitUtils.ts:24 | one trailing `.git` is removed, and nothing else |
| GitUtils.UrlFormName | src/utils/gitUtils.ts:21-24 | a URL-parseable remote gives hostname plus pathname without `.git` |
| GitUtils.ScpTailSound | src/utils/gitUtils.ts:27 | every text the SCP pattern accepts after the prefix is the spelling of canonical parts |
| GitUtils.ScpTailComplete | src/utils/gitUtils.ts:27 | every spelling of canonical parts is accepted with exactly those parts |
| GitUtils.PrefixedName | src/utils/gitUtils.ts:27-29 | after `git@` the name is built from the parts of the rest |
| GitUtils.ScpFormName | src/utils/gitUtils.ts:16-20 | `git@host:owner/repo.git` gives `host/owner/repo` |
| GitUtils.SshFormName | src/utils/gitUtils.ts:21-32 | `ssh://git@host/owner/repo` gives `host/owner/repo`, whether `new URL` accepts it (hostname `host`, pathname `/owner/repo`) or rejects it |
| GitUtils.SshUrlName | src/utils/gitUtils.ts:23-24 | the URL reading of `ssh://git@host/owner/repo`: no `.git` is stripped from a repository without one |
| GitUtils.SshScpName | src/utils/gitUtils.ts:25-30 | the expression reading of `ssh://git@host/owner/repo` when `new URL` rejects it |
| GitUtils.ScpRejectsOtherShapes | src/utils/gitUtils.ts:25-32 | an unparseable remote that spells no canonical parts, bare or after `git@` or `ssh://git@`, gives no name, and no exception |
| GitUtils.RemoteNames | src/utils/gitUtils.ts:40-47 | a repository contributes at most one name per remote |
| GitUtils.GetRepoNamesFromGitApi | src/utils/gitUtils.ts:35-51 | the nested loops push exactly the names of all remotes of all repositories, in repository-then-remote order |
| GitUtils.RepoNamesBound | src/utils/gitUtils.ts:35-51 | there are at most as many names as remotes |
| GitUtils.FindIndex | src/utils/gitUtils.ts:57-61 | the first repository that serves the name, none iff none does |
| GitUtils.FindTargetRepo | src/utils/gitUtils.ts:53-62 | a found repository is in the API's list, serves the name, and no repository before it serves the name (the first, as `find`); none found means no repository serves it |
| GitUtils.RemoteNamesHas | src/utils/gitUtils.ts:40-47 | a non-empty name is listed for a repository iff one of its fetch URLs normalises to it |
| GitUtils.RepoNamesHas | src/utils/gitUtils.ts:39-47 | a non-empty name is listed iff some repository serves it |
| GitUtils.FindTargetRepoIffListed | src/utils/gitUtils.ts:35-62 | for a non-empty name, a repository is found iff the name is listed |
| GitUtils.EmptyNameServedButNotListed | src/utils/gitUtils.ts:43-44 | the empty name can be found without being listed, because the list skips empty names and the lookup does not |
| GitLegacy.GetRepoNamesFromGitApi | src/utils/git.ts:35-50 | the loop pushes exactly the names of the first repository's remotes |
| GitLegacy.FirstRepoNames | src/utils/git.ts:38-47 | the names of the first repository's remotes, at most one per remote; this list is a prefix of the newer all-repositories list |
| GitLegacy.RepoNamesFront | src/utils/git.ts:38-47 | the names of all repositories start with the first repository's |
| GitLegacy.LaterRepositoryFoundButNotListed | src/utils/git.ts:52-61 | a repository after the first can be found although its name is not listed |
| GitLegacy.GetUriForFile | src/utils/git.ts:63-85 | a matching repository's root wins without any probe; otherwise the first folder whose probe succeeds, after probing every folder before it; otherwise `Uri.file(fileName)` after probing all |
| FileUtils.FirstHit | src/utils/fileUtils.ts:7-17 | the first folder holding the file; none iff no folder does, including when there are none |
| FileUtils.GetUriForFile | src/utils/fileUtils.ts:3-18 | returns the file in the first folder that holds it after that many probes, or null after probing all; failed probes are swallowed |
| FileUtils.FirstHitIs | src/utils/fileUtils.ts:7-11 | a folder that holds the file, with none before it that does, is the one found |
| Uris.FirstDelimiter | src/providers/searchResultsProvider.ts:136 | the first `:`, `/`, `?` or `#` of a text, where `Uri.parse` ends the scheme |
| Uris.SchemeOf | src/providers/searchResultsProvider.ts:87 | a scheme read from a text is free of `:`, `/`, `?` and `#`, and the text starts with it and a `:` |
| Uris.Scheme | src/providers/searchResultsProvider.ts:87 | every URI has a non-empty, delimiter-free scheme; a parsed URI whose scheme is not `file` starts with that scheme and a `:` |
| Uris.SchemeOfPrefix | src/providers/searchResultsProvider.ts:87 | a URL `<scheme>:<rest>` with a delimiter-free scheme has that scheme |
| TextDocument.FilePart | src/providers/zoektTextDocumentProvider.ts:10 | one leading `/` is removed from the path, and nothing else |
| TextDocument.Param | src/providers/zoektTextDocumentProvider.ts:11-13 | the value of the first pair with the name, absent iff no pair has it |
| TextDocument.RequestOf | src/providers/zoektTextDocumentProvider.ts:10-17 | a request exists iff `repo`, `branch` and the file are all present and non-empty, and it carries exactly them |
| TextDocument.FirstContent | src/providers/zoektTextDocumentProvider.ts:21-24 | content is used only when it is the non-empty content of the first file |
| TextDocument.Provide | src/providers/zoektTextDocumentProvider.ts:9-34 | the fetch is made only for a valid URI and with its parts; an invalid URI gives the fixed invalid-URI text; non-empty first content is shown decoded; every other outcome is a text starting with `Error` |
| TextDocument.LeadingSlashDropped | src/providers/zoektTextDocumentProvider.ts:10-20 | `/path?repo=r&branch=b` fetches file `path` of `r` at `b` |
| TextDocument.EmptyContentReported | src/providers/zoektTextDocumentProvider.ts:25-27 | an empty or missing first content gives the "content is empty" text with the URI |
| TextDocument.NoFilesReported | src/providers/zoektTextDocumentProvider.ts:28-30 | no files gives the "not found" text with the URI |
| TextDocument.FetchFailureReported | src/providers/zoektTextDocumentProvider.ts:31-33 | a failing fetch gives the error text with its message; nothing escapes |
| TextDocument.OnlyFirstFileRead | src/providers/zoektTextDocumentProvider.ts:21-24 | files after the first make no difference |

## Left out

- VS Code presentation is not modelled: `getTreeItem`'s tree items, icons, tooltips and descriptions, `getDisplayFileName`, and `refresh`. Firing the tree-changed event is modelled only as the `changes` counter.
- Base64 decoding and the `trimEnd` of a decoded line are not modelled; the decoded line is an input. Offsets count `char`s, which match JavaScript's UTF-16 code units only for text inside the Basic Multilingual Plane.
- `new URL` is an input function. So are the git extension's API, `workspace.fs.stat`, `fetchFile` and the base64 decoder. `await` is modelled as an ordinary sequential call.
- `new URLSearchParams(uri.query)` (`src/providers/zoektTextDocumentProvider.ts:11`) is not modelled: the query arrives already split into decoded `(name, value)` pairs, in order. Its splitting on `&` and `=`, `+` read as a space and percent-decoding are left out.
- `Uri.parse` is modelled only as far as its scheme. Its validation errors, and the rest of the URI, are not modelled.
- Strings.Decimal: writes every integer in plain decimal digits. JavaScript's `toString` agrees only for safe integers (magnitude below 2^53). From 10^21 on it uses exponent notation, and above 2^53 a number need not hold the integer it was computed from. Line numbers stay far below both bounds.
- JsonLiteral.ParseToken: JSON numbers, arrays and objects in a join-style template give a `NotModelled` error instead of their rendered value. A `\u` escape of a lone surrogate gives an error, because a Dafny string holds only Unicode scalar values.
- ZoektSearchResponse and its `Result` are collapsed into one `SearchResponse` class. A missing `Result` behaves like a `Result` with every field absent, in every use.
- SearchResults.SearchResultsProvider.DismissElement: the source's `TypeError`, when a file or line is dismissed while there is no response or no file list, is modelled as a `failed` result that leaves the state unchanged.
- SearchResults.LabelWithoutFragments: requires the line to be shorter than `MAX_SAFE_INTEGER - 25` characters, which every real line is.
- GitUtils.FindTargetRepoIffListed: holds only for non-empty names. `GitUtils.EmptyNameServedButNotListed` shows why.
- src/services/zoektService.ts, src/commands.ts and src/extension.ts are not part of this model. They are HTTP, command registration and activation glue.
- The synthetic `zoekt-remote` fallback tier, line-number-0 filtering, branch lists on line nodes, stale-response guards and query history do not appear in the code and are not modelled. The commented-out GitHub URI block is not modelled either.
