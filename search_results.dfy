/** The result tree of the extension (src/providers/searchResultsProvider.ts):
    the live Zoekt response with the files and line matches the user has not
    dismissed, the summary of the last query, the projection of that state
    into a summary/welcome -> file -> line tree, the labels of line nodes and
    the choice of the location a match opens. */
module SearchResults {
  import opened Wrappers
  import opened Uris
  import opened GitUtils
  import FileUtils
  import UrlTemplates

  /** `Number.MAX_SAFE_INTEGER`, the start of the minimum fold. */
  const MaxSafeInteger: int := 9007199254740991
  /** Characters of context kept before the first match of a trimmed label. */
  const EllipsisOffset: int := 25
  const Ellipsis: string := "..."
  const NoResultsMessage: string := "Query had no results. Refine your search."
  const StartMessage: string := "Start a Zoekt search to see results here."

  datatype LineFragment = LineFragment(LineOffset: int, MatchLength: int)

  /** One matching line; `Line` is the base64 text Zoekt sends. */
  datatype LineMatch = LineMatch(LineNumber: int, Line: string, LineFragments: seq<LineFragment>)

  /** A file of the response; its line matches are filtered in place when
      lines are dismissed. */
  class FileMatch {
    const FileName: string
    const Repository: string
    const Version: string
    var LineMatches: seq<LineMatch>

    constructor(fileName: string, repository: string, version: string, lineMatches: seq<LineMatch>)
      ensures FileName == fileName && Repository == repository && Version == version
      ensures LineMatches == lineMatches
    {
      FileName := fileName;
      Repository := repository;
      Version := version;
      LineMatches := lineMatches;
    }

    /** The in-place filter of `dismissElement` on a line: every line with
        the number goes, the others stay in order. */
    method DismissLines(lineNumber: int)
      modifies this
      ensures LineMatches == FilterLines(old(LineMatches), lineNumber)
    {
      LineMatches := FilterLines(LineMatches, lineNumber);
    }
  }

  /** The `Result` of a Zoekt search response: its files (absent when Zoekt
      sends none), and the per-repository URL and line-fragment templates. */
  class SearchResponse {
    var Files: Option<seq<FileMatch>>
    const RepoURLs: Option<map<string, string>>
    const LineFragments: Option<map<string, string>>

    constructor(files: Option<seq<FileMatch>>, repoUrls: Option<map<string, string>>, lineFragments: Option<map<string, string>>)
      ensures Files == files && RepoURLs == repoUrls && LineFragments == lineFragments
    {
      Files := files;
      RepoURLs := repoUrls;
      LineFragments := lineFragments;
    }
  }

  /** The nodes of the tree. The constructors play the part of the
      `isSummaryEntry`, `isWelcomeEntry` and `isFileMatch` discriminators; a
      line node is its line match with the file's name, repository and
      version copied in. */
  datatype ResultEntry =
    | Summary
    | Welcome(message: string)
    | FileEntry(file: FileMatch)
    | LineEntry(line: LineMatch, FileName: string, Repository: string, Version: string)

  /** The host the location of a match depends on: the git API, `new URL`,
      the workspace folders and `workspace.fs.stat`. */
  datatype Workspace = Workspace(api: Option<seq<Repository>>, parseUrl: string -> Option<UrlParts>,
                                 folders: seq<Uri>, present: Uri -> bool)

  // ---------------------------------------------------------------------
  // Dismissal helpers

  /** `files.filter(file => file !== f)`: removal by identity. */
  function RemoveFile(files: seq<FileMatch>, f: FileMatch): (r: seq<FileMatch>)
    ensures multiset(r) == multiset(files)[f := 0]
    ensures forall g :: g in r ==> g in files && g != f
    ensures forall g :: g in files && g != f ==> g in r
  {
    if files == [] then []
    else
      assert files == [files[0]] + files[1..];
      if files[0] == f then RemoveFile(files[1..], f) else [files[0]] + RemoveFile(files[1..], f)
  }

  /** Removing a file that occurs once keeps the others, in order. */
  lemma {:induction false} RemoveFileSplice(a: seq<FileMatch>, f: FileMatch, b: seq<FileMatch>)
    requires f !in a && f !in b
    ensures RemoveFile(a + [f] + b, f) == a + b
  {
    if a == [] {
      assert a + [f] + b == [f] + b;
      RemoveAbsent(b, f);
    } else {
      SpliceTail(a, f, b);
      RemoveFileSplice(a[1..], f, b);
    }
  }

  lemma SpliceTail<T>(a: seq<T>, x: T, b: seq<T>)
    requires a != []
    ensures (a + [x] + b)[0] == a[0] && (a + [x] + b)[1..] == a[1..] + [x] + b
    ensures [a[0]] + (a[1..] + b) == a + b
  {
  }

  lemma {:induction false} RemoveAbsent(files: seq<FileMatch>, f: FileMatch)
    requires f !in files
    ensures RemoveFile(files, f) == files
  {
    if files != [] {
      RemoveAbsent(files[1..], f);
      assert [files[0]] + files[1..] == files;
    }
  }

  /** `lineMatches.filter(line => line.LineNumber !== n)` */
  function FilterLines(lms: seq<LineMatch>, n: int): (r: seq<LineMatch>)
    ensures forall x :: x in r <==> x in lms && x.LineNumber != n
    ensures |r| <= |lms|
  {
    if lms == [] then []
    else if lms[0].LineNumber == n then FilterLines(lms[1..], n)
    else [lms[0]] + FilterLines(lms[1..], n)
  }

  /** Filtering keeps the order of what it keeps: it distributes over
      concatenation. */
  lemma {:induction false} FilterLinesAppend(a: seq<LineMatch>, b: seq<LineMatch>, n: int)
    ensures FilterLines(a + b, n) == FilterLines(a, n) + FilterLines(b, n)
  {
    if a == [] {
      assert a + b == b;
    } else {
      assert (a + b)[0] == a[0];
      assert (a + b)[1..] == a[1..] + b;
      FilterLinesAppend(a[1..], b, n);
    }
  }

  /** `files.find(file => file.FileName === fileName && file.Repository === repository)` */
  function FindFile(files: seq<FileMatch>, fileName: string, repository: string): (r: Option<nat>)
    ensures r.Some? ==> r.value < |files| && files[r.value].FileName == fileName && files[r.value].Repository == repository
    ensures r.Some? ==> forall j :: 0 <= j < r.value ==> !(files[j].FileName == fileName && files[j].Repository == repository)
    ensures r.None? ==> forall j :: 0 <= j < |files| ==> !(files[j].FileName == fileName && files[j].Repository == repository)
  {
    if files == [] then None
    else if files[0].FileName == fileName && files[0].Repository == repository then Some(0)
    else
      match FindFile(files[1..], fileName, repository)
      case Some(k) => Some(k + 1)
      case None => None
  }

  /** No two files share both a name and a repository. */
  predicate DistinctKeys(files: seq<FileMatch>) {
    forall i, j :: 0 <= i < j < |files| ==>
      !(files[i].FileName == files[j].FileName && files[i].Repository == files[j].Repository)
  }

  /** With distinct names, a line node's name and repository find the file
      it was shown under. */
  lemma FindFileDistinct(files: seq<FileMatch>, i: nat)
    requires DistinctKeys(files) && i < |files|
    ensures FindFile(files, files[i].FileName, files[i].Repository) == Some(i)
  {
  }

  /** With distinct names, once a file is removed nothing else answers to
      its name and repository. */
  lemma FindFileRemoved(files: seq<FileMatch>, f: FileMatch)
    requires DistinctKeys(files) && f in files
    ensures FindFile(RemoveFile(files, f), f.FileName, f.Repository).None?
  {
    var rest := RemoveFile(files, f);
    var b :| 0 <= b < |files| && files[b] == f;
    forall k | 0 <= k < |rest|
      ensures !(rest[k].FileName == f.FileName && rest[k].Repository == f.Repository)
    {
      assert rest[k] in rest;
      var a :| 0 <= a < |files| && files[a] == rest[k];
      assert a != b;
    }
  }

  /** A list whose every line has the number of some line of `lines` has
      none left once each number of `lines` is filtered out. */
  lemma NoLineLeft(lms: seq<LineMatch>, lines: seq<LineMatch>)
    requires forall m :: m in lms ==> m in lines && forall j :: 0 <= j < |lines| ==> m.LineNumber != lines[j].LineNumber
    ensures lms == []
  {
    if lms != [] {
      HeadIn(lms);
    }
  }

  lemma HeadIn<T>(s: seq<T>)
    requires s != []
    ensures s[0] in s
  {
  }

  /** `files.reduce((acc, file) => acc + file.LineMatches.length, 0)` */
  function TotalOf(files: seq<FileMatch>): (n: nat)
    reads files
    ensures n == 0 <==> forall j :: 0 <= j < |files| ==> files[j].LineMatches == []
  {
    if files == [] then 0 else TotalOf(files[..|files| - 1]) + |files[|files| - 1].LineMatches|
  }

  // ---------------------------------------------------------------------
  // Match range and label

  /** The first column of the matches: the least `LineOffset`, folded from
      `MAX_SAFE_INTEGER`. */
  function MatchStart(fs: seq<LineFragment>): (start: int)
    ensures start <= MaxSafeInteger
    ensures forall i :: 0 <= i < |fs| ==> start <= fs[i].LineOffset
    ensures start == MaxSafeInteger || exists i :: 0 <= i < |fs| && start == fs[i].LineOffset
  {
    if fs == [] then MaxSafeInteger
    else
      var rest := MatchStart(fs[..|fs| - 1]);
      var last := fs[|fs| - 1].LineOffset;
      if last < rest then last else rest
  }

  /** The column after the matches: the greatest `LineOffset + MatchLength`,
      folded from 0. */
  function MatchEnd(fs: seq<LineFragment>): (end: int)
    ensures end >= 0
    ensures forall i :: 0 <= i < |fs| ==> end >= fs[i].LineOffset + fs[i].MatchLength
    ensures end == 0 || exists i :: 0 <= i < |fs| && end == fs[i].LineOffset + fs[i].MatchLength
  {
    if fs == [] then 0
    else
      var rest := MatchEnd(fs[..|fs| - 1]);
      var last := fs[|fs| - 1].LineOffset + fs[|fs| - 1].MatchLength;
      if last > rest then last else rest
  }

  /** `s.substring(start)` for a non-negative start: past the end it is empty. */
  function Substring(s: string, start: nat): (r: string)
    ensures start <= |s| ==> r == s[start..]
    ensures start > |s| ==> r == []
  {
    if start <= |s| then s[start..] else []
  }

  /** A tree label: text and the highlighted `[start, end)` column pairs. */
  datatype Label = Label(text: string, highlights: seq<(int, int)>)

  /** The column of the first label character taken from the line. */
  function TrimStart(lm: LineMatch): nat {
    var s := MatchStart(lm.LineFragments) - EllipsisOffset;
    if s > 0 then s else 0
  }

  /** `makeTreeItemLabel`, given the decoded line: when the first match is
      more than 25 characters in, the label starts 25 characters before it,
      behind `...`, and the highlights shift left to match. */
  function TreeItemLabel(lm: LineMatch, decodedLine: string): (r: Label)
    ensures |r.highlights| == |lm.LineFragments|
    ensures forall i :: 0 <= i < |r.highlights| ==>
              r.highlights[i].1 - r.highlights[i].0 == lm.LineFragments[i].MatchLength
  {
    var trimStart := TrimStart(lm);
    var line := Substring(decodedLine, trimStart);
    var text := if trimStart > 0 then Ellipsis + line else line;
    var shift := if trimStart > 0 then trimStart - |Ellipsis| else trimStart;
    var fs := lm.LineFragments;
    Label(text, seq(|fs|, i requires 0 <= i < |fs| => (fs[i].LineOffset - shift, fs[i].LineOffset + fs[i].MatchLength - shift)))
  }

  /** With the first match within 25 characters, the label is the whole line
      and the highlights are the fragments' own columns. */
  lemma LabelUntrimmed(lm: LineMatch, decodedLine: string)
    requires MatchStart(lm.LineFragments) <= EllipsisOffset
    ensures TreeItemLabel(lm, decodedLine).text == decodedLine
    ensures forall i :: 0 <= i < |lm.LineFragments| ==>
              TreeItemLabel(lm, decodedLine).highlights[i]
              == (lm.LineFragments[i].LineOffset, lm.LineFragments[i].LineOffset + lm.LineFragments[i].MatchLength)
  {
  }

  /** Every highlight of a fragment that lies inside the line covers, in the
      label, exactly the text the fragment covers in the line. */
  lemma HighlightsCoverSameText(lm: LineMatch, decodedLine: string, i: nat)
    requires i < |lm.LineFragments|
    requires var f := lm.LineFragments[i]; 0 <= f.MatchLength && 0 <= f.LineOffset && f.LineOffset + f.MatchLength <= |decodedLine|
    ensures var f := lm.LineFragments[i];
            var h := TreeItemLabel(lm, decodedLine).highlights[i];
            var text := TreeItemLabel(lm, decodedLine).text;
            0 <= h.0 <= h.1 <= |text| && text[h.0..h.1] == decodedLine[f.LineOffset..f.LineOffset + f.MatchLength]
  {
    var f := lm.LineFragments[i];
    var lo, hi := f.LineOffset, f.LineOffset + f.MatchLength;
    var t := TrimStart(lm);
    assert t <= lo;
    LabelText(lm, decodedLine);
    LabelHighlight(lm, decodedLine, i);
    if t > 0 {
      SliceOfSuffix(decodedLine, t, lo, hi);
      SliceAfterPrefix(Ellipsis, decodedLine[t..], lo - t, hi - t);
    }
  }

  /** The label text, trimmed or not. */
  lemma LabelText(lm: LineMatch, decodedLine: string)
    requires TrimStart(lm) <= |decodedLine|
    ensures var t, r := TrimStart(lm), TreeItemLabel(lm, decodedLine);
            && (t > 0 ==> r.text == Ellipsis + decodedLine[t..])
            && (t == 0 ==> r.text == decodedLine)
  {
    if TrimStart(lm) == 0 {
      assert decodedLine[0..] == decodedLine;
    }
  }

  /** The `i`-th highlight: the fragment's columns, shifted with the text. */
  lemma LabelHighlight(lm: LineMatch, decodedLine: string, i: nat)
    requires i < |lm.LineFragments|
    ensures var t, f, h := TrimStart(lm), lm.LineFragments[i], TreeItemLabel(lm, decodedLine).highlights[i];
            && (t > 0 ==> h == (|Ellipsis| + (f.LineOffset - t), |Ellipsis| + (f.LineOffset + f.MatchLength - t)))
            && (t == 0 ==> h == (f.LineOffset, f.LineOffset + f.MatchLength))
  {
  }

  lemma SliceOfSuffix(s: string, t: nat, lo: nat, hi: nat)
    requires t <= lo <= hi <= |s|
    ensures s[t..][lo - t..hi - t] == s[lo..hi]
  {
  }

  lemma SliceAfterPrefix(p: string, s: string, lo: nat, hi: nat)
    requires lo <= hi <= |s|
    ensures (p + s)[|p| + lo..|p| + hi] == s[lo..hi]
  {
  }

  /** A trimmed label shows the first match at column 28: three characters of
      ellipsis and 25 of context. */
  lemma FirstMatchColumn(lm: LineMatch, decodedLine: string, i: nat)
    requires i < |lm.LineFragments| && lm.LineFragments[i].LineOffset == MatchStart(lm.LineFragments)
    requires MatchStart(lm.LineFragments) > EllipsisOffset
    ensures TreeItemLabel(lm, decodedLine).highlights[i].0 == |Ellipsis| + EllipsisOffset
  {
  }

  /** Without fragments the first column is `MAX_SAFE_INTEGER`, so every line
      of a realistic length is trimmed away to the bare ellipsis. */
  lemma LabelWithoutFragments(lm: LineMatch, decodedLine: string)
    requires lm.LineFragments == []
    requires |decodedLine| <= MaxSafeInteger - EllipsisOffset
    ensures TreeItemLabel(lm, decodedLine) == Label(Ellipsis, [])
  {
    assert Ellipsis + [] == Ellipsis;
  }

  // ---------------------------------------------------------------------
  // Opening a line

  datatype Range = Range(startLine: int, startCharacter: int, endLine: int, endCharacter: int)

  /** The arguments of the `vscode.open` command of a line node. */
  datatype OpenArguments = OpenArguments(uri: Uri, selection: Option<Range>)

  /** The editor line is the zero-based `LineNumber - 1`, never negative; the
      match range is selected only in a `file` URI. */
  function OpenLine(uri: Uri, lm: LineMatch): (r: OpenArguments)
    ensures r.uri == uri
    ensures r.selection.Some? <==> Scheme(uri) == "file"
    ensures r.selection.Some? ==>
              && r.selection.value.startLine == r.selection.value.endLine
              && r.selection.value.startLine >= 0
              && r.selection.value.startLine >= lm.LineNumber - 1
              && (lm.LineNumber >= 1 ==> r.selection.value.startLine == lm.LineNumber - 1)
              && (lm.LineNumber < 1 ==> r.selection.value.startLine == 0)
              && r.selection.value.startCharacter == MatchStart(lm.LineFragments)
              && r.selection.value.endCharacter == MatchEnd(lm.LineFragments)
  {
    var lineNumber := if lm.LineNumber - 1 > 0 then lm.LineNumber - 1 else 0;
    if Scheme(uri) == "file" then
      OpenArguments(uri, Some(Range(lineNumber, MatchStart(lm.LineFragments), lineNumber, MatchEnd(lm.LineFragments))))
    else OpenArguments(uri, None)
  }

  /** A match opened through a web URL template gets no selection. */
  lemma WebUrlHasNoSelection(rest: string, lm: LineMatch)
    ensures OpenLine(Parsed("https:" + rest), lm).selection.None?
  {
    var https := "https";
    assert forall i :: 0 <= i < |https| ==> https[i] !in ":/?#";
    SchemeOfPrefix(https, rest);
    assert "https:" + rest == https + ":" + rest;
    assert https != "file";
  }

  // ---------------------------------------------------------------------
  // The provider

  class SearchResultsProvider {
    var zoektResponse: SearchResponse?
    var totalMatches: int
    var searchAllRepos: bool
    var queryDurationMs: int
    var query: string
    var hasSearched: bool
    /** How many times the tree-changed event has fired. */
    var changes: nat

    /** Before a search, and after everything is dismissed, the provider
        holds no response and an empty summary. */
    ghost predicate Valid()
      reads this
    {
      !hasSearched ==> zoektResponse == null && totalMatches == 0 && query == [] && queryDurationMs == 0
    }

    constructor()
      ensures zoektResponse == null && totalMatches == 0 && !searchAllRepos
      ensures queryDurationMs == 0 && query == [] && !hasSearched && changes == 0
      ensures Valid()
    {
      zoektResponse := null;
      totalMatches := 0;
      searchAllRepos := false;
      queryDurationMs := 0;
      query := [];
      hasSearched := false;
      changes := 0;
    }

    /** `zoektResponse?.Result?.Files` is present. */
    predicate HasFiles()
      reads this`zoektResponse, zoektResponse
    {
      zoektResponse != null && zoektResponse.Files.Some?
    }

    /** `zoektResponse?.Result?.Files || []` */
    function Files(): seq<FileMatch>
      reads this`zoektResponse, zoektResponse
    {
      if HasFiles() then zoektResponse.Files.value else []
    }

    /** Every file still shown has a line left. */
    predicate NoEmptyFile()
      reads this`zoektResponse, zoektResponse, Files()
    {
      forall g :: g in Files() ==> g.LineMatches != []
    }

    /** `getChildren`: the root shows the summary and the files while there
        are files or matches, else a welcome message; a file shows its lines;
        every other node is a leaf. */
    function GetChildren(element: Option<ResultEntry>): (r: seq<ResultEntry>)
      reads this, zoektResponse
      reads if element.Some? && element.value.FileEntry? then {element.value.file} else {}
      ensures element.None? && (|Files()| > 0 || totalMatches > 0) ==>
                |r| == |Files()| + 1 && r[0] == Summary
                && forall j :: 0 <= j < |Files()| ==> r[j + 1] == FileEntry(Files()[j])
      ensures element.None? && !(|Files()| > 0 || totalMatches > 0) ==>
                r == [Welcome(if hasSearched then NoResultsMessage else StartMessage)]
      ensures element.Some? && element.value.FileEntry? ==>
                var f := element.value.file;
                |r| == |f.LineMatches|
                && forall j :: 0 <= j < |r| ==> r[j] == LineEntry(f.LineMatches[j], f.FileName, f.Repository, f.Version)
      ensures element.Some? && !element.value.FileEntry? ==> r == []
    {
      match element
      case None =>
        var files := Files();
        if |files| > 0 || totalMatches > 0 then
          [Summary] + seq(|files|, j requires 0 <= j < |files| => FileEntry(files[j]))
        else if hasSearched then [Welcome(NoResultsMessage)]
        else [Welcome(StartMessage)]
      case Some(Summary) => []
      case Some(FileEntry(f)) =>
        var lms := f.LineMatches;
        seq(|lms|, j requires 0 <= j < |lms| => LineEntry(lms[j], f.FileName, f.Repository, f.Version))
      case Some(_) => []
    }

    /** Before any search the root is the invitation to search. */
    lemma RootBeforeSearch()
      requires Valid() && !hasSearched
      ensures GetChildren(None) == [Welcome(StartMessage)]
    {
    }

    /** The tree is at most three levels deep: the children of a root child's
        children are leaves. */
    lemma TreeDepth(c: ResultEntry, d: ResultEntry)
      requires c in GetChildren(None) && d in GetChildren(Some(c))
      ensures GetChildren(Some(d)) == []
    {
      var j :| 0 <= j < |GetChildren(Some(c))| && d == GetChildren(Some(c))[j];
      assert d.LineEntry?;
    }

    /** `setResults`: stores the response and the summary of the query and
        marks that a search happened. */
    method SetResults(response: SearchResponse, totalMatches: int, searchAllRepos: bool, queryDurationMs: int, query: string)
      modifies this
      ensures zoektResponse == response && this.totalMatches == totalMatches
      ensures this.searchAllRepos == searchAllRepos && this.queryDurationMs == queryDurationMs
      ensures this.query == query && hasSearched && changes == old(changes) + 1
      ensures Valid()
    {
      this.zoektResponse := response;
      this.totalMatches := totalMatches;
      this.searchAllRepos := searchAllRepos;
      this.queryDurationMs := queryDurationMs;
      this.query := query;
      this.hasSearched := true;
      this.changes := this.changes + 1;
    }

    /** `dismissAll`: forgets the response and the query but keeps the
        all-repositories choice; the tree goes back to its invitation. */
    method DismissAll()
      modifies this
      ensures zoektResponse == null && totalMatches == 0 && queryDurationMs == 0 && query == []
      ensures !hasSearched && searchAllRepos == old(searchAllRepos) && changes == old(changes) + 1
      ensures Valid()
      ensures GetChildren(None) == [Welcome(StartMessage)]
    {
      zoektResponse := null;
      totalMatches := 0;
      queryDurationMs := 0;
      query := [];
      hasSearched := false;
      changes := changes + 1;
    }

    /** `dismissElement`: dispatches on the node; a summary or welcome node
        only recounts. Dismissing a file or a line with no files present is
        the `TypeError` the non-null assertions let through: it returns
        `failed` and changes nothing. Afterwards the match count is the
        number of line matches left, and no file shown is left without
        lines if none was before. */
    method DismissElement(e: ResultEntry) returns (failed: bool)
      modifies this, zoektResponse, Files()
      ensures zoektResponse == old(zoektResponse)
      ensures searchAllRepos == old(searchAllRepos) && queryDurationMs == old(queryDurationMs)
      ensures query == old(query) && hasSearched == old(hasSearched)
      ensures failed <==> (e.FileEntry? || e.LineEntry?) && !old(HasFiles())
      ensures HasFiles() == old(HasFiles())
      ensures failed ==> unchanged(this)
      ensures !failed ==> totalMatches == TotalOf(Files())
      ensures e.Summary? || e.Welcome? ==>
                Files() == old(Files()) && unchanged(old(Files())) && changes == old(changes) + 1
      ensures e.FileEntry? && !failed ==>
                Files() == RemoveFile(old(Files()), e.file) && unchanged(old(Files()))
                && changes == old(changes) + 1
      ensures e.LineEntry? && !failed ==>
                match FindFile(old(Files()), e.FileName, e.Repository)
                case None =>
                  Files() == old(Files()) && unchanged(old(Files())) && changes == old(changes) + 1
                case Some(i) =>
                  var f := old(Files())[i];
                  && f.LineMatches == FilterLines(old(f.LineMatches), e.line.LineNumber)
                  && Files() == (if f.LineMatches == [] then RemoveFile(old(Files()), f) else old(Files()))
                  && (forall g :: g in old(Files()) && g != f ==> g.LineMatches == old(g.LineMatches))
                  && changes == old(changes) + (if f.LineMatches == [] then 2 else 1)
      ensures old(Valid()) ==> Valid()
      ensures old(NoEmptyFile()) ==> NoEmptyFile()
    {
      match e
      case FileEntry(f) =>
        failed := DismissFile(f);
      case LineEntry(line, fileName, repository, _) =>
        failed := DismissLine(fileName, repository, line.LineNumber);
      case _ =>
        Recount();
        failed := false;
    }

    /** `dismissElement` on a file node: the file is removed by identity and
        the other files stay, in order; no line list changes. */
    method DismissFile(f: FileMatch) returns (failed: bool)
      modifies this, zoektResponse
      ensures zoektResponse == old(zoektResponse)
      ensures searchAllRepos == old(searchAllRepos) && queryDurationMs == old(queryDurationMs)
      ensures query == old(query) && hasSearched == old(hasSearched)
      ensures failed <==> !old(HasFiles())
      ensures HasFiles() == old(HasFiles())
      ensures failed ==> unchanged(this)
      ensures !failed ==> Files() == RemoveFile(old(Files()), f)
      ensures !failed ==> totalMatches == TotalOf(Files()) && changes == old(changes) + 1
      ensures old(NoEmptyFile()) ==> NoEmptyFile()
    {
      if zoektResponse == null || zoektResponse.Files.None? {
        return true;
      }
      RemoveFromFiles(f);
      Recount();
      failed := false;
    }

    /** `dismissElement` on a line node: every line with its number leaves
        the first file with the same name and repository; that file, once
        empty, is dismissed in turn; every other file keeps its lines. */
    method DismissLine(fileName: string, repository: string, lineNumber: int) returns (failed: bool)
      modifies this, zoektResponse, Files()
      ensures zoektResponse == old(zoektResponse)
      ensures searchAllRepos == old(searchAllRepos) && queryDurationMs == old(queryDurationMs)
      ensures query == old(query) && hasSearched == old(hasSearched)
      ensures failed <==> !old(HasFiles())
      ensures HasFiles() == old(HasFiles())
      ensures failed ==> unchanged(this)
      ensures !failed ==> totalMatches == TotalOf(Files())
      ensures !failed ==>
                match FindFile(old(Files()), fileName, repository)
                case None =>
                  Files() == old(Files()) && unchanged(old(Files())) && changes == old(changes) + 1
                case Some(i) =>
                  var f := old(Files())[i];
                  && f.LineMatches == FilterLines(old(f.LineMatches), lineNumber)
                  && Files() == (if f.LineMatches == [] then RemoveFile(old(Files()), f) else old(Files()))
                  && (forall g :: g in old(Files()) && g != f ==> g.LineMatches == old(g.LineMatches))
                  && changes == old(changes) + (if f.LineMatches == [] then 2 else 1)
      ensures old(NoEmptyFile()) ==> NoEmptyFile()
    {
      if zoektResponse == null || zoektResponse.Files.None? {
        return true;
      }
      var files := zoektResponse.Files.value;
      var found := FindFile(files, fileName, repository);
      if found.Some? {
        var fileMatch := files[found.value];
        DismissLineIn(fileMatch, lineNumber);
      }
      Recount();
      failed := false;
    }

    /** The found-file part of the line branch: filter the file's lines and
        dismiss the file once it has none. */
    method DismissLineIn(f: FileMatch, lineNumber: int)
      requires HasFiles() && f in Files()
      modifies this, zoektResponse, f
      ensures f.LineMatches == FilterLines(old(f.LineMatches), lineNumber)
      ensures Files() == (if f.LineMatches == [] then RemoveFile(old(Files()), f) else old(Files()))
      ensures zoektResponse == old(zoektResponse)
      ensures searchAllRepos == old(searchAllRepos) && queryDurationMs == old(queryDurationMs)
      ensures query == old(query) && hasSearched == old(hasSearched)
      ensures changes == old(changes) + (if f.LineMatches == [] then 1 else 0)
      ensures HasFiles()
      ensures old(NoEmptyFile()) ==> NoEmptyFile()
    {
      f.DismissLines(lineNumber);
      if |f.LineMatches| == 0 {
        var _ := DismissFile(f);
      }
    }

    /** The file branch of `dismissElement`: the response keeps every other
        file. */
    method RemoveFromFiles(f: FileMatch)
      requires HasFiles()
      modifies zoektResponse
      ensures HasFiles() && Files() == RemoveFile(old(Files()), f)
      ensures old(NoEmptyFile()) ==> NoEmptyFile()
    {
      zoektResponse.Files := Some(RemoveFile(zoektResponse.Files.value, f));
    }

    /** The tail of `dismissElement`: recount the matches left and fire the
        tree-changed event. */
    method Recount()
      modifies this`totalMatches, this`changes
      ensures totalMatches == TotalOf(Files()) && changes == old(changes) + 1
    {
      totalMatches := TotalOf(Files());
      changes := changes + 1;
    }

    /** Dismissing, one after another, every line node a file node shows
        leaves the tree as dismissing the file node does: the file is gone,
        every other file keeps its lines, and the total is recounted. A line
        node finds its file by name and repository, so this needs those pairs
        to be distinct; and the file must show at least one line. */
    method DismissEveryLine(f: FileMatch)
      requires HasFiles() && f in Files() && f.LineMatches != []
      requires DistinctKeys(Files())
      modifies this, zoektResponse, Files()
      ensures zoektResponse == old(zoektResponse) && HasFiles()
      ensures searchAllRepos == old(searchAllRepos) && queryDurationMs == old(queryDurationMs)
      ensures query == old(query) && hasSearched == old(hasSearched)
      ensures Files() == RemoveFile(old(Files()), f) && f.LineMatches == []
      ensures forall g :: g in old(Files()) && g != f ==> g.LineMatches == old(g.LineMatches)
      ensures totalMatches == TotalOf(Files())
      ensures changes == old(changes) + |old(f.LineMatches)| + 1
    {
      ghost var files0 := Files();
      var lines := f.LineMatches;
      for k := 0 to |lines|
        invariant zoektResponse == old(zoektResponse) && HasFiles() && files0 == old(Files())
        invariant searchAllRepos == old(searchAllRepos) && queryDurationMs == old(queryDurationMs)
        invariant query == old(query) && hasSearched == old(hasSearched)
        invariant changes == old(changes) + k + (if f.LineMatches == [] then 1 else 0)
        invariant DistinctKeys(files0) && f in files0
        invariant forall m :: m in f.LineMatches ==>
                    m in lines && forall j :: 0 <= j < k ==> m.LineNumber != lines[j].LineNumber
        invariant Files() == (if f.LineMatches == [] then RemoveFile(files0, f) else files0)
        invariant forall g :: g in files0 && g != f ==> g.LineMatches == old(g.LineMatches)
        invariant k > 0 ==> totalMatches == TotalOf(Files())
      {
        ghost var before := f.LineMatches;
        assert forall i :: 0 <= i < |Files()| ==> Files()[i] in files0;
        DismissLineOf(f, files0, lines[k]);
        forall m | m in f.LineMatches
          ensures m in lines && forall j :: 0 <= j < k + 1 ==> m.LineNumber != lines[j].LineNumber
        {
          assert m in before && m.LineNumber != lines[k].LineNumber;
        }
      }
      NoLineLeft(f.LineMatches, lines);
    }

    /** One step of `DismissEveryLine`: dismissing a line node of `f` filters
        `f`'s lines, and removes `f` once it has none; after that the node
        finds no file and changes no list. */
    method DismissLineOf(f: FileMatch, ghost files0: seq<FileMatch>, line: LineMatch)
      requires DistinctKeys(files0) && f in files0 && HasFiles()
      requires Files() == (if f.LineMatches == [] then RemoveFile(files0, f) else files0)
      modifies this, zoektResponse, Files()
      ensures zoektResponse == old(zoektResponse) && HasFiles()
      ensures searchAllRepos == old(searchAllRepos) && queryDurationMs == old(queryDurationMs)
      ensures query == old(query) && hasSearched == old(hasSearched)
      ensures f.LineMatches == FilterLines(old(f.LineMatches), line.LineNumber)
      ensures changes == old(changes) + (if old(f.LineMatches) != [] && f.LineMatches == [] then 2 else 1)
      ensures Files() == (if f.LineMatches == [] then RemoveFile(files0, f) else files0)
      ensures forall g :: g in old(Files()) && g != f ==> g.LineMatches == old(g.LineMatches)
      ensures totalMatches == TotalOf(Files())
    {
      if f.LineMatches != [] {
        ghost var i :| 0 <= i < |files0| && files0[i] == f;
        FindFileDistinct(files0, i);
      } else {
        FindFileRemoved(files0, f);
      }
      var _ := DismissElement(LineEntry(line, f.FileName, f.Repository, f.Version));
    }

    /** `zoektResponse?.Result?.RepoURLs?.[repository]` is a non-empty template. */
    predicate HasTemplate(repository: string)
      reads this`zoektResponse, zoektResponse
    {
      zoektResponse != null && zoektResponse.RepoURLs.Some?
      && repository in zoektResponse.RepoURLs.value && zoektResponse.RepoURLs.value[repository] != []
    }

    /** `getUriForMatch`, first tier that applies: the root of the local
        repository that serves the match's repository; the first workspace
        folder holding the file; the repository's URL template (with the
        line-fragment template for a line node when the response has
        line-fragment templates); the bare file path. A failure is the
        exception the template evaluation throws. */
    function UriForMatch(e: ResultEntry, ws: Workspace): (r: Result<Uri, UrlTemplates.TemplateError>)
      requires e.FileEntry? || e.LineEntry?
      reads this, zoektResponse
      ensures r.Success? && r.value.Joined? ==> r.value.relative == EntryFileName(e)
      ensures r.Success? && r.value.Joined? && FindTargetRepo(ws.api, EntryRepository(e), ws.parseUrl).None? ==>
                r.value.base in ws.folders && ws.present(r.value)
      ensures r.Failure? || (r.Success? && !r.value.Joined?) ==>
                && FindTargetRepo(ws.api, EntryRepository(e), ws.parseUrl).None?
                && FileUtils.FirstHit(ws.folders, ws.present, EntryFileName(e)).None?
      ensures r.Failure? || (r.Success? && r.value.Parsed?) ==> HasTemplate(EntryRepository(e))
      ensures r.Failure? ==> UrlTemplates.JoinArgs(zoektResponse.RepoURLs.value[EntryRepository(e)]).Some?
      ensures r.Success? && r.value.FileUri? ==>
                !HasTemplate(EntryRepository(e)) && r.value.path == EntryFileName(e)
    {
      var repository := EntryRepository(e);
      var fileName := EntryFileName(e);
      var version := EntryVersion(e);
      match FindTargetRepo(ws.api, repository, ws.parseUrl)
      case Some(target) => Success(Joined(target.rootUri, fileName))
      case None =>
        match FileUtils.FirstHit(ws.folders, ws.present, fileName)
        case Some(i) => Success(Joined(ws.folders[i], fileName))
        case None =>
          if HasTemplate(repository) then
            var template := zoektResponse.RepoURLs.value[repository];
            var fileUrl :-
              if !e.FileEntry? && zoektResponse.LineFragments.Some? then
                UrlTemplates.EvaluateFileUrlTemplate(template, version, fileName,
                  Lookup(zoektResponse.LineFragments.value, repository), Some(e.line.LineNumber))
              else UrlTemplates.EvaluateFileUrlTemplate(template, version, fileName, None, None);
            Success(Parsed(fileUrl))
          else Success(FileUri(fileName))
    }

    /** A repository checked out locally decides alone: the workspace folders
        and the URL templates play no part, and the URI is the file under the
        root of the first repository with a remote for the match's
        repository. */
    lemma RepositoryFirst(e: ResultEntry, ws: Workspace, folders: seq<Uri>, present: Uri -> bool)
      requires e.FileEntry? || e.LineEntry?
      requires FindTargetRepo(ws.api, EntryRepository(e), ws.parseUrl).Some?
      ensures UriForMatch(e, Workspace(ws.api, ws.parseUrl, folders, present)) == UriForMatch(e, ws)
      ensures UriForMatch(e, ws)
           == Success(Joined(FindTargetRepo(ws.api, EntryRepository(e), ws.parseUrl).value.rootUri, EntryFileName(e)))
      ensures exists i :: ws.api.Some? && 0 <= i < |ws.api.value| && Serves(ws.api.value[i], EntryRepository(e), ws.parseUrl)
                          && (forall j :: 0 <= j < i ==> !Serves(ws.api.value[j], EntryRepository(e), ws.parseUrl))
                          && UriForMatch(e, ws) == Success(Joined(ws.api.value[i].rootUri, EntryFileName(e)))
    {
    }

    /** Without a local repository, a workspace folder holding the file wins,
        and the URI returned is one the file system has. */
    lemma WorkspaceCopySecond(e: ResultEntry, ws: Workspace)
      requires e.FileEntry? || e.LineEntry?
      requires FindTargetRepo(ws.api, EntryRepository(e), ws.parseUrl).None?
      requires exists j :: 0 <= j < |ws.folders| && ws.present(Joined(ws.folders[j], EntryFileName(e)))
      ensures UriForMatch(e, ws).Success? && ws.present(UriForMatch(e, ws).value)
      ensures var i := FileUtils.FirstHit(ws.folders, ws.present, EntryFileName(e));
              && i.Some?
              && UriForMatch(e, ws) == Success(Joined(ws.folders[i.value], EntryFileName(e)))
              && forall j :: 0 <= j < i.value ==> !ws.present(Joined(ws.folders[j], EntryFileName(e)))
    {
    }

    /** Without a local copy, a non-empty template of the repository gives
        the parsed URL: it fails exactly when the template without the line
        fragment fails, and otherwise extends that URL (a file node gets it
        unchanged). */
    lemma TemplateThird(e: ResultEntry, ws: Workspace)
      requires e.FileEntry? || e.LineEntry?
      requires FindTargetRepo(ws.api, EntryRepository(e), ws.parseUrl).None?
      requires FileUtils.FirstHit(ws.folders, ws.present, EntryFileName(e)).None?
      requires HasTemplate(EntryRepository(e))
      ensures var plain := UrlTemplates.EvaluateFileUrlTemplate(
                zoektResponse.RepoURLs.value[EntryRepository(e)], EntryVersion(e), EntryFileName(e), None, None);
              && (UriForMatch(e, ws).Failure? <==> plain.Failure?)
              && (plain.Success? ==> UriForMatch(e, ws).value.Parsed? && plain.value <= UriForMatch(e, ws).value.text)
              && (plain.Success? && (e.FileEntry? || zoektResponse.LineFragments.None?)
                  ==> UriForMatch(e, ws) == Success(Parsed(plain.value)))
              && (plain.Success? && e.LineEntry? && zoektResponse.LineFragments.Some?
                  ==> UriForMatch(e, ws) == Success(Parsed(plain.value + UrlTemplates.LineFragment(
                        Lookup(zoektResponse.LineFragments.value, EntryRepository(e)), Some(e.line.LineNumber)))))
    {
      var template := zoektResponse.RepoURLs.value[EntryRepository(e)];
      var url := UrlTemplates.FileUrl(template, EntryVersion(e), EntryFileName(e));
      if url.Success? {
        assert url.value + [] == url.value;
      }
      if e.LineEntry? && zoektResponse.LineFragments.Some? {
        UrlTemplates.LineFragmentAppended(template, EntryVersion(e), EntryFileName(e),
          Lookup(zoektResponse.LineFragments.value, EntryRepository(e)), Some(e.line.LineNumber));
      }
    }

    /** With nothing else to go on the match opens as a local file path; a
        line node gets its range selected. */
    lemma FilePathLast(e: ResultEntry, ws: Workspace)
      requires e.FileEntry? || e.LineEntry?
      requires FindTargetRepo(ws.api, EntryRepository(e), ws.parseUrl).None?
      requires FileUtils.FirstHit(ws.folders, ws.present, EntryFileName(e)).None?
      requires !HasTemplate(EntryRepository(e))
      ensures UriForMatch(e, ws) == Success(FileUri(EntryFileName(e)))
      ensures e.LineEntry? ==> OpenLine(UriForMatch(e, ws).value, e.line).selection.Some?
    {
    }
  }

  function EntryRepository(e: ResultEntry): string
    requires e.FileEntry? || e.LineEntry?
  {
    if e.FileEntry? then e.file.Repository else e.Repository
  }

  function EntryFileName(e: ResultEntry): string
    requires e.FileEntry? || e.LineEntry?
  {
    if e.FileEntry? then e.file.FileName else e.FileName
  }

  function EntryVersion(e: ResultEntry): string
    requires e.FileEntry? || e.LineEntry?
  {
    if e.FileEntry? then e.file.Version else e.Version
  }

  /** `map[key]`, undefined when absent. */
  function Lookup(m: map<string, string>, key: string): (r: Option<string>)
    ensures r.Some? <==> key in m
    ensures r.Some? ==> r.value == m[key]
  {
    if key in m then Some(m[key]) else None
  }
}
