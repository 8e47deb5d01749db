/** Serving `zoekt-remote` documents
    (src/providers/zoektTextDocumentProvider.ts): the URI names a file, a
    repository and a branch; the content is fetched from Zoekt and the first
    file of the answer is shown, or an error text is. The fetch and the base64
    decoding are inputs; the query string arrives already split into its
    decoded `name=value` pairs, in order. */
module TextDocument {
  import opened Wrappers

  /** The word every error text starts with. */
  const ErrorWord: string := "Error"
  const InvalidMessage: string :=
    ErrorWord + ": Invalid zoekt-remote URI. Expected format: zoekt-remote://zoekt/<filepath>?repo=<reponame>&branch=<branch>"
  const EmptyPrefix: string := ErrorWord + ": File content is empty for "
  const NotFoundPrefix: string := ErrorWord + ": File not found in Zoekt: "
  const FetchErrorPrefix: string := ErrorWord + " fetching content from Zoekt: "

  /** The parts of a `zoekt-remote` URI the provider reads: `uri.path`, the
      pairs of `uri.query`, and `uri.toString()`. */
  datatype RemoteUri = RemoteUri(path: string, query: seq<(string, string)>, text: string)

  datatype FetchRequest = FetchRequest(repo: string, branch: string, file: string)

  datatype FetchedFile = FetchedFile(Content: Option<string>)

  /** What `fetchFile` does: throw with a message, or answer with the files
      of the response (absent when Zoekt sends none). */
  datatype FetchOutcome = Threw(message: string) | Returned(Files: Option<seq<FetchedFile>>)

  /** The text shown, and the request made, if any. */
  datatype Served = Served(text: string, request: Option<FetchRequest>)

  /** The file path: `uri.path` without one leading `/`. */
  function FilePart(path: string): (file: string)
    ensures |path| > 0 && path[0] == '/' ==> path == "/" + file
    ensures !(|path| > 0 && path[0] == '/') ==> file == path
  {
    if |path| > 0 && path[0] == '/' then path[1..] else path
  }

  /** `URLSearchParams.get`: the value of the first pair with the name. */
  function Param(query: seq<(string, string)>, name: string): (r: Option<string>)
    ensures r.Some? ==> exists i :: 0 <= i < |query| && query[i] == (name, r.value)
                          && forall j :: 0 <= j < i ==> query[j].0 != name
    ensures r.None? <==> forall j :: 0 <= j < |query| ==> query[j].0 != name
  {
    if query == [] then None
    else if query[0].0 == name then Some(query[0].1)
    else
      var r := Param(query[1..], name);
      if r.Some? then
        var i :| 0 <= i < |query[1..]| && query[1..][i] == (name, r.value)
                 && forall j :: 0 <= j < i ==> query[1..][j].0 != name;
        assert query[i + 1] == (name, r.value);
        r
      else r
  }

  /** The request a URI asks for: none unless `repo` and `branch` are present
      and non-empty and the file path is non-empty. */
  function RequestOf(uri: RemoteUri): (r: Option<FetchRequest>)
    ensures r.Some? <==>
              && Param(uri.query, "repo").Some? && Param(uri.query, "repo").value != []
              && Param(uri.query, "branch").Some? && Param(uri.query, "branch").value != []
              && FilePart(uri.path) != []
    ensures r.Some? ==>
              r.value == FetchRequest(Param(uri.query, "repo").value, Param(uri.query, "branch").value, FilePart(uri.path))
  {
    var file := FilePart(uri.path);
    var branch := Param(uri.query, "branch");
    var repo := Param(uri.query, "repo");
    if repo.None? || repo.value == [] || branch.None? || branch.value == [] || file == [] then None
    else Some(FetchRequest(repo.value, branch.value, file))
  }

  /** The content of the first file of an answer, when it is non-empty. */
  function FirstContent(outcome: FetchOutcome): (r: Option<string>)
    ensures r.Some? ==> r.value != [] && outcome.Returned? && outcome.Files.Some? && |outcome.Files.value| > 0
                        && outcome.Files.value[0].Content == r
  {
    if outcome.Returned? && outcome.Files.Some? && |outcome.Files.value| > 0
       && outcome.Files.value[0].Content.Some? && outcome.Files.value[0].Content.value != [] then
      outcome.Files.value[0].Content
    else None
  }

  /** `provideTextDocumentContent`: the fetch is made only for a valid URI,
      with exactly its parts, and the text is the decoded content of the
      first file or else an error text. */
  function Provide(uri: RemoteUri, fetch: FetchRequest -> FetchOutcome, decode: string -> string): (r: Served)
    ensures r.request == RequestOf(uri)
    ensures r.request.None? ==> r.text == InvalidMessage
    ensures r.request.Some? && FirstContent(fetch(r.request.value)).Some? ==>
              r.text == decode(FirstContent(fetch(r.request.value)).value)
    ensures r.request.None? || FirstContent(fetch(r.request.value)).None? ==> ErrorWord <= r.text
  {
    match RequestOf(uri)
    case None => Served(InvalidMessage, None)
    case Some(request) =>
      var outcome := fetch(request);
      var text :=
        match outcome
        case Threw(message) => FetchErrorPrefix + message
        case Returned(files) =>
          if files.Some? && |files.value| > 0 then
            var content := files.value[0].Content;
            if content.Some? && content.value != [] then decode(content.value)
            else EmptyPrefix + uri.text
          else NotFoundPrefix + uri.text;
      Served(text, Some(request))
  }

  /** A leading `/` of the path is not part of the file requested. */
  lemma LeadingSlashDropped(path: string, repo: string, branch: string, text: string,
                            fetch: FetchRequest -> FetchOutcome, decode: string -> string)
    requires path != [] && repo != [] && branch != []
    ensures var uri := RemoteUri("/" + path, [("repo", repo), ("branch", branch)], text);
            Provide(uri, fetch, decode).request == Some(FetchRequest(repo, branch, path))
  {
    var uri := RemoteUri("/" + path, [("repo", repo), ("branch", branch)], text);
    assert Param(uri.query, "repo") == Some(repo);
    assert Param(uri.query, "branch") == Some(branch);
  }

  /** A first file with empty or missing content is reported as empty,
      whatever else the answer holds. */
  lemma EmptyContentReported(uri: RemoteUri, fetch: FetchRequest -> FetchOutcome, decode: string -> string)
    requires RequestOf(uri).Some?
    requires var o := fetch(RequestOf(uri).value);
             o.Returned? && o.Files.Some? && |o.Files.value| > 0
             && (o.Files.value[0].Content.None? || o.Files.value[0].Content.value == [])
    ensures Provide(uri, fetch, decode).text == EmptyPrefix + uri.text
  {
  }

  /** An answer without files, absent or empty, is reported as not found. */
  lemma NoFilesReported(uri: RemoteUri, fetch: FetchRequest -> FetchOutcome, decode: string -> string)
    requires RequestOf(uri).Some?
    requires var o := fetch(RequestOf(uri).value);
             o.Returned? && (o.Files.None? || o.Files.value == [])
    ensures Provide(uri, fetch, decode).text == NotFoundPrefix + uri.text
  {
  }

  /** A failing fetch is turned into a text carrying its message. */
  lemma FetchFailureReported(uri: RemoteUri, fetch: FetchRequest -> FetchOutcome, decode: string -> string)
    requires RequestOf(uri).Some? && fetch(RequestOf(uri).value).Threw?
    ensures Provide(uri, fetch, decode).text == FetchErrorPrefix + fetch(RequestOf(uri).value).message
  {
  }

  /** Only the first file of the answer is consulted. */
  lemma OnlyFirstFileRead(uri: RemoteUri, fetch1: FetchRequest -> FetchOutcome, fetch2: FetchRequest -> FetchOutcome,
                          decode: string -> string, first: FetchedFile, rest1: seq<FetchedFile>, rest2: seq<FetchedFile>)
    requires RequestOf(uri).Some?
    requires fetch1(RequestOf(uri).value) == Returned(Some([first] + rest1))
    requires fetch2(RequestOf(uri).value) == Returned(Some([first] + rest2))
    ensures Provide(uri, fetch1, decode) == Provide(uri, fetch2, decode)
  {
  }
}
