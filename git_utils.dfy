/** Normalisation of git remote URLs into Zoekt repository names, and the
    lookup of the local repository that serves a Zoekt repository
    (src/utils/gitUtils.ts). The git extension's API is an input: absent, or
    the list of open repositories with their remotes; `new URL` is an input
    function that either parses a string or rejects it. */
module GitUtils {
  import opened Wrappers
  import opened Uris

  /** The two fields of a parsed `URL` the normaliser reads. */
  datatype UrlParts = UrlParts(hostname: string, pathname: string)

  /** A remote as the git extension reports it; `fetchUrl` may be missing. */
  datatype Remote = Remote(fetchUrl: Option<string>)

  /** An open repository: its root folder and its remotes. */
  datatype Repository = Repository(rootUri: Uri, remotes: seq<Remote>)

  // ---------------------------------------------------------------------
  // URL form

  /** `pathname.replace(/\.git$/, '')`: one trailing `.git` removed. */
  function StripGitSuffix(s: string): (r: string)
    ensures |s| >= 4 && s[|s| - 4..] == ".git" ==> r + ".git" == s
    ensures !(|s| >= 4 && s[|s| - 4..] == ".git") ==> r == s
  {
    if |s| >= 4 && s[|s| - 4..] == ".git" then s[..|s| - 4] else s
  }

  // ---------------------------------------------------------------------
  // SCP form: /^(?:(?:ssh:\/\/)?git@)?([^:\/]+)[:\/]((\/?[^\/]+)\/([^\/]+?))(?:\.git)?$/

  /** How the expression splits a remote (after its optional prefix):
      host, the `:` or `/` after it, an optional leading `/`, the owner, the
      repository and an optional `.git` suffix. */
  datatype ScpParts = ScpParts(host: string, sep: char, lead: string, owner: string, repo: string, ext: string)

  function Spell(p: ScpParts): string {
    p.host + ([p.sep] + (p.lead + (p.owner + ("/" + (p.repo + p.ext)))))
  }

  /** `${match[1]}/${match[2]}` */
  function ScpRepoName(p: ScpParts): string {
    p.host + "/" + p.lead + p.owner + "/" + p.repo
  }

  predicate NoHostDelimiter(s: string) {
    forall i :: 0 <= i < |s| ==> s[i] != ':' && s[i] != '/'
  }

  predicate NoSlash(s: string) {
    forall i :: 0 <= i < |s| ==> s[i] != '/'
  }

  predicate EndsWithGit(s: string) {
    |s| >= 4 && s[|s| - 4..] == ".git"
  }

  /** The decompositions the expression produces: the greedy host and owner
      runs stop at the first delimiter, and the lazy repository group leaves
      a trailing `.git` to the suffix whenever something is left before it. */
  predicate Canonical(p: ScpParts) {
    && p.host != [] && NoHostDelimiter(p.host)
    && (p.sep == ':' || p.sep == '/')
    && (p.lead == [] || p.lead == "/")
    && p.owner != [] && NoSlash(p.owner)
    && RepoCanonical(p.repo, p.ext)
  }

  /** The repository part of a canonical decomposition. */
  predicate RepoCanonical(repo: string, ext: string) {
    && repo != [] && NoSlash(repo)
    && (ext == [] || ext == ".git")
    && (ext == [] ==> !(|repo| >= 5 && EndsWithGit(repo)))
  }

  /** Index of the first `:` or `/`, or the length. */
  function HostEnd(s: string): (r: nat)
    ensures r <= |s| && NoHostDelimiter(s[..r])
    ensures r < |s| ==> s[r] == ':' || s[r] == '/'
  {
    if s == [] || s[0] == ':' || s[0] == '/' then 0
    else
      var r := 1 + HostEnd(s[1..]);
      assert s[..r] == [s[0]] + s[1..][..r - 1];
      r
  }

  /** Index of the first `/`, or the length. */
  function SlashIndex(s: string): (r: nat)
    ensures r <= |s| && NoSlash(s[..r])
    ensures r < |s| ==> s[r] == '/'
  {
    if s == [] || s[0] == '/' then 0
    else
      var r := 1 + SlashIndex(s[1..]);
      assert s[..r] == [s[0]] + s[1..][..r - 1];
      r
  }

  /** The match of the expression without its optional prefix: the host
      runs to the first `:` or `/`, which must follow it. */
  function ScpTail(r: string): Option<ScpParts> {
    var i := HostEnd(r);
    if i == 0 || i == |r| then None else AfterHost(r[..i], r[i], r[i + 1..])
  }

  /** An optional `/` is taken whenever it is there. */
  function AfterHost(host: string, sep: char, rest: string): Option<ScpParts> {
    if rest != [] && rest[0] == '/' then AfterLead(host, sep, "/", rest[1..]) else AfterLead(host, sep, [], rest)
  }

  /** The owner runs to the next `/`, which must follow it. */
  function AfterLead(host: string, sep: char, lead: string, body: string): Option<ScpParts> {
    var j := SlashIndex(body);
    if j == 0 || j == |body| then None else RepoPart(host, sep, lead, body[..j], body[j + 1..])
  }

  /** The rest is the repository, with a `.git` suffix split off whenever
      something is left before it. */
  function RepoPart(host: string, sep: char, lead: string, owner: string, c: string): Option<ScpParts> {
    if c == [] || SlashIndex(c) < |c| then None
    else if |c| >= 5 && EndsWithGit(c) then Some(ScpParts(host, sep, lead, owner, c[..|c| - 4], ".git"))
    else Some(ScpParts(host, sep, lead, owner, c, []))
  }

  /** `s` spells the canonical parts `p`, bare or after `git@` or `ssh://git@`. */
  predicate SpeltBy(s: string, p: ScpParts) {
    Canonical(p) && (Spell(p) == s || "git@" + Spell(p) == s || "ssh://git@" + Spell(p) == s)
  }

  /** The expression tries its prefix alternatives in order: `ssh://git@`,
      `git@`, none. A name it gives is that of parts the remote spells. */
  function ScpName(s: string): (r: Option<string>)
    ensures r.Some? ==> exists p :: SpeltBy(s, p) && r.value == ScpRepoName(p)
  {
    if "ssh://git@" <= s && ScpTail(s[10..]).Some? then
      PrefixedSpelling("ssh://git@", s);
      Some(ScpRepoName(ScpTail(s[10..]).value))
    else if "git@" <= s && ScpTail(s[4..]).Some? then
      PrefixedSpelling("git@", s);
      Some(ScpRepoName(ScpTail(s[4..]).value))
    else if ScpTail(s).Some? then
      ScpTailSound(s);
      Some(ScpRepoName(ScpTail(s).value))
    else None
  }

  /** `getRepoNameFromRemoteUrl`: the URL form when `new URL` accepts the
      remote, the SCP form otherwise, and undefined (None) when neither
      applies. */
  function RepoNameFromRemoteUrl(remoteUrl: string, parseUrl: string -> Option<UrlParts>): (r: Option<string>)
    ensures parseUrl(remoteUrl).Some? ==> r.Some? && parseUrl(remoteUrl).value.hostname <= r.value
    ensures parseUrl(remoteUrl).None? && r.Some? ==> exists p :: SpeltBy(remoteUrl, p) && r.value == ScpRepoName(p)
  {
    match parseUrl(remoteUrl)
    case Some(url) => Some(url.hostname + StripGitSuffix(url.pathname))
    case None => ScpName(remoteUrl)
  }

  lemma {:induction false} HostEndAfter(x: string, y: string)
    requires NoHostDelimiter(x) && y != [] && (y[0] == ':' || y[0] == '/')
    ensures HostEnd(x + y) == |x|
  {
    if x == [] {
      assert x + y == y;
    } else {
      TailOfAppend(x, y);
      NoHostDelimiterTail(x);
      HostEndAfter(x[1..], y);
    }
  }

  lemma TailOfAppend(x: string, y: string)
    requires x != []
    ensures (x + y)[0] == x[0] && (x + y)[1..] == x[1..] + y
  {
  }

  lemma NoHostDelimiterTail(x: string)
    requires x != [] && NoHostDelimiter(x)
    ensures NoHostDelimiter(x[1..])
  {
    assert forall i :: 0 <= i < |x| - 1 ==> x[1..][i] == x[i + 1];
  }

  lemma {:induction false} SlashIndexAfter(x: string, y: string)
    requires NoSlash(x) && y != [] && y[0] == '/'
    ensures SlashIndex(x + y) == |x|
  {
    if x == [] {
      assert x + y == y;
    } else {
      assert (x + y)[1..] == x[1..] + y;
      assert NoSlash(x[1..]) by { assert forall i :: 0 <= i < |x| - 1 ==> x[1..][i] == x[i + 1]; }
      SlashIndexAfter(x[1..], y);
    }
  }

  lemma {:induction false} SlashIndexNone(x: string)
    requires NoSlash(x)
    ensures SlashIndex(x) == |x|
  {
    if x != [] {
      assert NoSlash(x[1..]) by { assert forall i :: 0 <= i < |x| - 1 ==> x[1..][i] == x[i + 1]; }
      SlashIndexNone(x[1..]);
    }
  }

  lemma RepoPartSound(host: string, sep: char, lead: string, owner: string, c: string)
    requires RepoPart(host, sep, lead, owner, c).Some?
    ensures var p := RepoPart(host, sep, lead, owner, c).value;
            p.host == host && p.sep == sep && p.lead == lead && p.owner == owner
            && RepoCanonical(p.repo, p.ext) && p.repo + p.ext == c
  {
    assert c[..|c|] == c;
    if |c| >= 5 && EndsWithGit(c) {
      assert c == c[..|c| - 4] + c[|c| - 4..];
    }
  }

  lemma RepoPartComplete(host: string, sep: char, lead: string, owner: string, repo: string, ext: string)
    requires RepoCanonical(repo, ext)
    ensures RepoPart(host, sep, lead, owner, repo + ext) == Some(ScpParts(host, sep, lead, owner, repo, ext))
  {
    var c := repo + ext;
    assert NoSlash(c) by {
      forall k | 0 <= k < |c| ensures c[k] != '/' {
        if k < |repo| { assert c[k] == repo[k]; } else { assert c[k] == ext[k - |repo|]; }
      }
    }
    SlashIndexNone(c);
    if ext == ".git" {
      assert c[|c| - 4..] == ".git";
      assert c[..|c| - 4] == repo;
    } else {
      assert c == repo;
    }
  }

  lemma AfterLeadSound(host: string, sep: char, lead: string, body: string)
    requires AfterLead(host, sep, lead, body).Some?
    ensures var p := AfterLead(host, sep, lead, body).value;
            p.host == host && p.sep == sep && p.lead == lead
            && p.owner != [] && NoSlash(p.owner)
            && RepoCanonical(p.repo, p.ext) && p.owner + ("/" + (p.repo + p.ext)) == body
  {
    var j := SlashIndex(body);
    RepoPartSound(host, sep, lead, body[..j], body[j + 1..]);
    assert body == body[..j] + ("/" + body[j + 1..]);
  }

  lemma AfterLeadComplete(host: string, sep: char, lead: string, owner: string, repo: string, ext: string)
    requires owner != [] && NoSlash(owner) && RepoCanonical(repo, ext)
    ensures AfterLead(host, sep, lead, owner + ("/" + (repo + ext))) == Some(ScpParts(host, sep, lead, owner, repo, ext))
  {
    var body := owner + ("/" + (repo + ext));
    SlashIndexAfter(owner, "/" + (repo + ext));
    assert body[..|owner|] == owner;
    assert body[|owner| + 1..] == repo + ext;
    RepoPartComplete(host, sep, lead, owner, repo, ext);
  }

  lemma AfterHostSound(host: string, sep: char, rest: string)
    requires AfterHost(host, sep, rest).Some?
    ensures var p := AfterHost(host, sep, rest).value;
            p.host == host && p.sep == sep && (p.lead == [] || p.lead == "/")
            && p.owner != [] && NoSlash(p.owner)
            && RepoCanonical(p.repo, p.ext) && p.lead + (p.owner + ("/" + (p.repo + p.ext))) == rest
  {
    if rest != [] && rest[0] == '/' {
      AfterLeadSound(host, sep, "/", rest[1..]);
      assert rest == "/" + rest[1..];
    } else {
      AfterLeadSound(host, sep, [], rest);
      assert rest == [] + rest;
    }
  }

  /** Everything the expression splits is spelt back by its parts, and the
      parts are canonical. */
  lemma ScpTailSound(r: string)
    requires ScpTail(r).Some?
    ensures Canonical(ScpTail(r).value) && Spell(ScpTail(r).value) == r
  {
    var i := HostEnd(r);
    var host, sep, rest := r[..i], r[i], r[i + 1..];
    assert r == host + ([sep] + rest);
    AfterHostSound(host, sep, rest);
  }

  /** Every canonical decomposition is the one the expression finds, so the
      decomposition is unique. */
  lemma ScpTailComplete(p: ScpParts)
    requires Canonical(p)
    ensures ScpTail(Spell(p)) == Some(p)
  {
    var body := p.owner + ("/" + (p.repo + p.ext));
    var rest := p.lead + body;
    var r := Spell(p);
    HostEndAfter(p.host, [p.sep] + rest);
    assert r[..|p.host|] == p.host;
    assert r[|p.host|] == p.sep;
    assert r[|p.host| + 1..] == rest;
    AfterLeadComplete(p.host, p.sep, p.lead, p.owner, p.repo, p.ext);
    if p.lead == [] {
      assert rest == body;
      assert rest[0] == p.owner[0];
    } else {
      assert rest[0] == '/';
      assert rest[1..] == body;
    }
  }

  // ---------------------------------------------------------------------
  // The remote forms `getRepoNameFromRemoteUrl` reads, for any host, owner and repository

  /** `git@<host>:<owner>/<repo>.git` normalises to `<host>/<owner>/<repo>`. */
  lemma ScpFormName(host: string, owner: string, repo: string, parseUrl: string -> Option<UrlParts>)
    requires host != [] && NoHostDelimiter(host)
    requires owner != [] && NoSlash(owner) && repo != [] && NoSlash(repo)
    requires parseUrl("git@" + host + ":" + owner + "/" + repo + ".git").None?
    ensures RepoNameFromRemoteUrl("git@" + host + ":" + owner + "/" + repo + ".git", parseUrl)
         == Some(host + "/" + owner + "/" + repo)
  {
    var prefix := "git@";
    var p := ScpParts(host, ':', [], owner, repo, ".git");
    var s := prefix + Spell(p);
    assert "git@" + host + ":" + owner + "/" + repo + ".git" == s;
    ScpTailComplete(p);
    PrefixedName(prefix, Spell(p));
    NameWithoutLead(p);
  }

  lemma NameWithoutLead(p: ScpParts)
    requires p.lead == []
    ensures ScpRepoName(p) == p.host + "/" + p.owner + "/" + p.repo
  {
    assert p.host + "/" + p.lead == p.host + "/";
  }

  /** A remote that starts `git@` (and so not `ssh://git@`) and whose rest
      the expression splits is named after that split. */
  lemma PrefixedName(prefix: string, r: string)
    requires prefix == "git@" && ScpTail(r).Some?
    ensures ScpName(prefix + r) == Some(ScpRepoName(ScpTail(r).value))
  {
    var s := prefix + r;
    assert !("ssh://git@" <= s) by { assert s[0] == 'g'; }
    assert prefix <= s && s[|prefix|..] == r;
  }

  /** `ssh://git@<host>/<owner>/<repo>` normalises to `<host>/<owner>/<repo>`
      both when `new URL` accepts it (hostname `<host>`, pathname
      `/<owner>/<repo>`) and when `new URL` rejects it and the expression
      reads it. */
  lemma SshFormName(host: string, owner: string, repo: string, parseUrl: string -> Option<UrlParts>)
    requires host != [] && NoHostDelimiter(host)
    requires owner != [] && NoSlash(owner) && repo != [] && NoSlash(repo) && !EndsWithGit(repo)
    requires var parsed := parseUrl("ssh://git@" + host + "/" + owner + "/" + repo);
             parsed.None? || parsed == Some(UrlParts(host, "/" + owner + "/" + repo))
    ensures RepoNameFromRemoteUrl("ssh://git@" + host + "/" + owner + "/" + repo, parseUrl)
         == Some(host + "/" + owner + "/" + repo)
  {
    if parseUrl("ssh://git@" + host + "/" + owner + "/" + repo).Some? {
      SshUrlName(host, owner, repo);
    } else {
      SshScpName(host, owner, repo, parseUrl);
    }
  }

  /** The URL reading of an `ssh://` remote whose repository has no `.git`. */
  lemma SshUrlName(host: string, owner: string, repo: string)
    requires !EndsWithGit(repo)
    ensures host + StripGitSuffix("/" + owner + "/" + repo) == host + "/" + owner + "/" + repo
  {
    assert "/" + owner + "/" + repo == ("/" + owner) + ("/" + repo);
    NoGitAfterSlash("/" + owner, repo);
  }

  /** A `.git` ending cannot reach back over a `/`. */
  lemma NoGitAfterSlash(a: string, repo: string)
    requires !EndsWithGit(repo)
    ensures !EndsWithGit(a + ("/" + repo))
  {
    var t := a + ("/" + repo);
    if |repo| >= 4 {
      assert t[|t| - 4..] == repo[|repo| - 4..];
    } else if |t| >= 4 {
      assert t[|t| - |repo| - 1] == '/';
      assert t[|t| - 4..][3 - |repo|] == '/';
    }
  }

  /** The expression's reading of an `ssh://` remote `new URL` rejects. */
  lemma SshScpName(host: string, owner: string, repo: string, parseUrl: string -> Option<UrlParts>)
    requires host != [] && NoHostDelimiter(host)
    requires owner != [] && NoSlash(owner) && repo != [] && NoSlash(repo) && !EndsWithGit(repo)
    requires parseUrl("ssh://git@" + host + "/" + owner + "/" + repo).None?
    ensures RepoNameFromRemoteUrl("ssh://git@" + host + "/" + owner + "/" + repo, parseUrl)
         == Some(host + "/" + owner + "/" + repo)
  {
    var prefix := "ssh://git@";
    var p := ScpParts(host, '/', [], owner, repo, []);
    var tail := host + "/" + owner + "/" + repo;
    assert Spell(p) == tail by { SpellWithoutLead(host, owner, repo); }
    assert "ssh://git@" + host + "/" + owner + "/" + repo == prefix + tail by {
      NestedPrefix(prefix, host, owner, repo);
    }
    assert prefix <= prefix + tail && (prefix + tail)[|prefix|..] == tail by {
      AfterPrefix(prefix, tail);
    }
    ScpTailComplete(p);
    NameWithoutLead(p);
  }

  lemma SpellWithoutLead(host: string, owner: string, repo: string)
    ensures Spell(ScpParts(host, '/', [], owner, repo, [])) == host + "/" + owner + "/" + repo
  {
  }

  lemma NestedPrefix(prefix: string, host: string, owner: string, repo: string)
    ensures prefix + host + "/" + owner + "/" + repo == prefix + (host + "/" + owner + "/" + repo)
  {
  }

  lemma AfterPrefix(prefix: string, rest: string)
    ensures prefix <= prefix + rest && (prefix + rest)[|prefix|..] == rest
  {
  }

  /** A remote that `new URL` accepts as `https://<host>/<owner>/<repo>.git`
      normalises to `<host>/<owner>/<repo>`. */
  lemma UrlFormName(remoteUrl: string, host: string, path: string, parseUrl: string -> Option<UrlParts>)
    requires parseUrl(remoteUrl) == Some(UrlParts(host, path + ".git"))
    ensures RepoNameFromRemoteUrl(remoteUrl, parseUrl) == Some(host + path)
  {
    var s := path + ".git";
    assert s[|s| - 4..] == ".git";
    assert s[..|s| - 4] == path;
  }

  /** A remote that is not a URL and that spells no canonical parts, neither
      bare nor after `git@` or `ssh://git@`, is not a Zoekt repository
      name. */
  lemma ScpRejectsOtherShapes(s: string, parseUrl: string -> Option<UrlParts>)
    requires parseUrl(s).None?
    requires forall p :: Canonical(p) ==>
               Spell(p) != s && "git@" + Spell(p) != s && "ssh://git@" + Spell(p) != s
    ensures RepoNameFromRemoteUrl(s, parseUrl).None?
  {
    if "ssh://git@" <= s && ScpTail(s[10..]).Some? {
      PrefixedSpelling("ssh://git@", s);
    } else if "git@" <= s && ScpTail(s[4..]).Some? {
      PrefixedSpelling("git@", s);
    } else if ScpTail(s).Some? {
      ScpTailSound(s);
    }
  }

  /** What the expression splits after a prefix is spelt back after it. */
  lemma PrefixedSpelling(prefix: string, s: string)
    requires prefix <= s && ScpTail(s[|prefix|..]).Some?
    ensures Canonical(ScpTail(s[|prefix|..]).value) && prefix + Spell(ScpTail(s[|prefix|..]).value) == s
  {
    PrefixSplit(prefix, s);
    ScpTailSound(s[|prefix|..]);
  }

  lemma PrefixSplit(prefix: string, s: string)
    requires prefix <= s
    ensures s == prefix + s[|prefix|..]
  {
  }

  // ---------------------------------------------------------------------
  // Names of the open repositories

  /** `if (remote.fetchUrl)`: present and non-empty. */
  predicate HasFetchUrl(r: Remote) {
    r.fetchUrl.Some? && r.fetchUrl.value != []
  }

  /** The name a remote contributes to the list: only a truthy name is pushed. */
  function RemoteName(r: Remote, parseUrl: string -> Option<UrlParts>): seq<string> {
    if HasFetchUrl(r) then
      match RepoNameFromRemoteUrl(r.fetchUrl.value, parseUrl)
      case Some(n) => if n != [] then [n] else []
      case None => []
    else []
  }

  /** The names pushed for a list of remotes, in order. */
  function RemoteNames(rs: seq<Remote>, parseUrl: string -> Option<UrlParts>): (names: seq<string>)
    ensures |names| <= |rs|
  {
    if rs == [] then [] else RemoteNames(rs[..|rs| - 1], parseUrl) + RemoteName(rs[|rs| - 1], parseUrl)
  }

  /** The names pushed for a list of repositories, repository by repository. */
  function RepoNamesOf(repos: seq<Repository>, parseUrl: string -> Option<UrlParts>): seq<string> {
    if repos == [] then []
    else RepoNamesOf(repos[..|repos| - 1], parseUrl) + RemoteNames(repos[|repos| - 1].remotes, parseUrl)
  }

  /** What `getRepoNamesFromGitApi` returns for a git API. */
  function AllRepoNames(api: Option<seq<Repository>>, parseUrl: string -> Option<UrlParts>): seq<string> {
    if api.Some? && |api.value| > 0 then RepoNamesOf(api.value, parseUrl) else []
  }

  /** `getRepoNamesFromGitApi`: every usable remote of every repository, in
      repository-then-remote order. */
  method GetRepoNamesFromGitApi(api: Option<seq<Repository>>, parseUrl: string -> Option<UrlParts>)
    returns (repoList: seq<string>)
    ensures repoList == AllRepoNames(api, parseUrl)
  {
    repoList := [];
    if api.Some? && |api.value| > 0 {
      var repositories := api.value;
      for i := 0 to |repositories|
        invariant repoList == RepoNamesOf(repositories[..i], parseUrl)
      {
        var remotes := repositories[i].remotes;
        ghost var done := repoList;
        assert RemoteNames(remotes[..0], parseUrl) == [] by { assert remotes[..0] == []; }
        assert done + [] == done;
        for k := 0 to |remotes|
          invariant repoList == done + RemoteNames(remotes[..k], parseUrl)
        {
          var remote := remotes[k];
          ghost var before := repoList;
          if remote.fetchUrl.Some? && remote.fetchUrl.value != [] {
            var repoName := RepoNameFromRemoteUrl(remote.fetchUrl.value, parseUrl);
            if repoName.Some? && repoName.value != [] {
              repoList := repoList + [repoName.value];
            }
          }
          RemoteNameCases(remote, parseUrl);
          assert repoList == before + RemoteName(remote, parseUrl);
          RemoteNamesSnoc(remotes, k, parseUrl);
          AppendAssoc(done, RemoteNames(remotes[..k], parseUrl), RemoteName(remote, parseUrl));
        }
        assert remotes[..|remotes|] == remotes;
        RepoNamesSnoc(repositories, i, parseUrl);
      }
      assert repositories[..|repositories|] == repositories;
    }
  }

  lemma RemoteNameCases(r: Remote, parseUrl: string -> Option<UrlParts>)
    ensures !HasFetchUrl(r) ==> RemoteName(r, parseUrl) == []
    ensures HasFetchUrl(r) ==>
              var n := RepoNameFromRemoteUrl(r.fetchUrl.value, parseUrl);
              RemoteName(r, parseUrl) == if n.Some? && n.value != [] then [n.value] else []
  {
  }

  lemma RemoteNamesSnoc(rs: seq<Remote>, k: nat, parseUrl: string -> Option<UrlParts>)
    requires k < |rs|
    ensures RemoteNames(rs[..k + 1], parseUrl) == RemoteNames(rs[..k], parseUrl) + RemoteName(rs[k], parseUrl)
  {
    assert rs[..k + 1][..k] == rs[..k];
  }

  lemma RepoNamesSnoc(repos: seq<Repository>, i: nat, parseUrl: string -> Option<UrlParts>)
    requires i < |repos|
    ensures RepoNamesOf(repos[..i + 1], parseUrl) == RepoNamesOf(repos[..i], parseUrl) + RemoteNames(repos[i].remotes, parseUrl)
  {
    assert repos[..i + 1][..i] == repos[..i];
  }

  lemma AppendAssoc(a: seq<string>, b: seq<string>, c: seq<string>)
    ensures (a + b) + c == a + (b + c)
  {
  }

  function TotalRemotes(repos: seq<Repository>): nat {
    if repos == [] then 0 else TotalRemotes(repos[..|repos| - 1]) + |repos[|repos| - 1].remotes|
  }

  /** The list never has more names than there are remotes. */
  lemma {:induction false} RepoNamesBound(repos: seq<Repository>, parseUrl: string -> Option<UrlParts>)
    ensures |RepoNamesOf(repos, parseUrl)| <= TotalRemotes(repos)
  {
    if repos != [] {
      RepoNamesBound(repos[..|repos| - 1], parseUrl);
    }
  }

  // ---------------------------------------------------------------------
  // Finding the repository that serves a Zoekt repository

  /** `.filter(r => r.fetchUrl).map(r => getRepoNameFromRemoteUrl(r.fetchUrl))` */
  function FetchNames(rs: seq<Remote>, parseUrl: string -> Option<UrlParts>): seq<Option<string>> {
    if rs == [] then []
    else if HasFetchUrl(rs[0]) then [RepoNameFromRemoteUrl(rs[0].fetchUrl.value, parseUrl)] + FetchNames(rs[1..], parseUrl)
    else FetchNames(rs[1..], parseUrl)
  }

  /** The predicate `findTargetRepo` passes to `find`. */
  predicate Serves(repo: Repository, id: string, parseUrl: string -> Option<UrlParts>) {
    Some(id) in FetchNames(repo.remotes, parseUrl)
  }

  /** `Array.prototype.find`: the index of the first repository that serves `id`. */
  function FindIndex(repos: seq<Repository>, id: string, parseUrl: string -> Option<UrlParts>): (r: Option<nat>)
    ensures r.Some? ==> r.value < |repos| && Serves(repos[r.value], id, parseUrl)
    ensures r.Some? ==> forall j :: 0 <= j < r.value ==> !Serves(repos[j], id, parseUrl)
    ensures r.None? ==> forall j :: 0 <= j < |repos| ==> !Serves(repos[j], id, parseUrl)
  {
    if repos == [] then None
    else if Serves(repos[0], id, parseUrl) then Some(0)
    else
      var rest := repos[1..];
      assert forall j :: 0 <= j < |rest| ==> rest[j] == repos[j + 1];
      match FindIndex(rest, id, parseUrl)
      case Some(k) => Some(k + 1)
      case None => None
  }

  /** `findTargetRepo`: the first open repository with a remote that
      normalises to `id`; none without a git API. */
  function FindTargetRepo(api: Option<seq<Repository>>, id: string, parseUrl: string -> Option<UrlParts>): (r: Option<Repository>)
    ensures r.Some? ==> api.Some? && r.value in api.value && Serves(r.value, id, parseUrl)
    ensures r.Some? ==> exists i :: 0 <= i < |api.value| && api.value[i] == r.value
                           && forall j :: 0 <= j < i ==> !Serves(api.value[j], id, parseUrl)
    ensures r.None? && api.Some? ==> forall j :: 0 <= j < |api.value| ==> !Serves(api.value[j], id, parseUrl)
  {
    var repositories := if api.Some? then api.value else [];
    match FindIndex(repositories, id, parseUrl)
    case Some(i) => Some(repositories[i])
    case None => None
  }

  lemma {:induction false} RemoteNamesHas(rs: seq<Remote>, id: string, parseUrl: string -> Option<UrlParts>)
    requires id != []
    ensures id in RemoteNames(rs, parseUrl) <==> Some(id) in FetchNames(rs, parseUrl)
    decreases |rs|
  {
    if rs != [] {
      RemoteNamesFront(rs, parseUrl);
      RemoteNamesHas(rs[1..], id, parseUrl);
    }
  }

  /** `RemoteNames` read from the front. */
  lemma {:induction false} RemoteNamesFront(rs: seq<Remote>, parseUrl: string -> Option<UrlParts>)
    requires rs != []
    ensures RemoteNames(rs, parseUrl) == RemoteName(rs[0], parseUrl) + RemoteNames(rs[1..], parseUrl)
    decreases |rs|
  {
    if |rs| > 1 {
      var init := rs[..|rs| - 1];
      RemoteNamesFront(init, parseUrl);
      assert init[1..] == rs[1..][..|rs[1..]| - 1];
      assert rs[1..][|rs[1..]| - 1] == rs[|rs| - 1];
    } else {
      assert rs[1..] == [];
    }
  }

  lemma {:induction false} RepoNamesHas(repos: seq<Repository>, id: string, parseUrl: string -> Option<UrlParts>)
    requires id != []
    ensures id in RepoNamesOf(repos, parseUrl) <==> exists j :: 0 <= j < |repos| && Serves(repos[j], id, parseUrl)
  {
    if repos != [] {
      var init := repos[..|repos| - 1];
      RepoNamesHas(init, id, parseUrl);
      RemoteNamesHas(repos[|repos| - 1].remotes, id, parseUrl);
      if exists j :: 0 <= j < |repos| && Serves(repos[j], id, parseUrl) {
        var j :| 0 <= j < |repos| && Serves(repos[j], id, parseUrl);
        if j < |repos| - 1 { assert init[j] == repos[j]; }
      }
      if exists j :: 0 <= j < |init| && Serves(init[j], id, parseUrl) {
        var j :| 0 <= j < |init| && Serves(init[j], id, parseUrl);
        assert repos[j] == init[j];
      }
    }
  }

  /** `findTargetRepo(id)` finds a repository exactly when `id` is among the
      names `getRepoNamesFromGitApi` lists, for every non-empty `id`. */
  lemma FindTargetRepoIffListed(api: Option<seq<Repository>>, id: string, parseUrl: string -> Option<UrlParts>)
    requires id != []
    ensures FindTargetRepo(api, id, parseUrl).Some? <==> id in AllRepoNames(api, parseUrl)
  {
    if api.Some? {
      RepoNamesHas(api.value, id, parseUrl);
    }
  }

  /** The equivalence does not extend to the empty name: `new URL("a:")`
      has an empty host and path, so that remote serves `""`, which the list
      leaves out. */
  lemma EmptyNameServedButNotListed()
    ensures var parseUrl := (s: string) => if s == "a:" then Some(UrlParts([], [])) else None;
            var api := Some([Repository(FileUri("/work"), [Remote(Some("a:"))])]);
            FindTargetRepo(api, [], parseUrl).Some? && [] !in AllRepoNames(api, parseUrl)
  {
    var parseUrl := (s: string) => if s == "a:" then Some(UrlParts([], [])) else None;
    var remotes := [Remote(Some("a:"))];
    var repo := Repository(FileUri("/work"), remotes);
    assert parseUrl("a:") == Some(UrlParts([], []));
    assert RepoNameFromRemoteUrl("a:", parseUrl) == Some([]);
    assert FetchNames(remotes[1..], parseUrl) == [];
    assert FetchNames(remotes, parseUrl) == [Some([])];
    assert Serves(repo, [], parseUrl);
    assert RemoteNames(remotes[..0], parseUrl) == [];
    assert RemoteNames(remotes, parseUrl) == [];
    assert [repo][..0] == [];
    assert RepoNamesOf([repo], parseUrl) == [];
  }
}
