/** The older copy of the git helpers (src/utils/git.ts). Its
    `getRepoNameFromRemoteUrl` and `findTargetRepo` are the same text as in
    src/utils/gitUtils.ts and are modelled once, in `GitUtils`; what differs
    is the name list, which reads only the first repository, and
    `getUriForFile`, which prefers a matching repository over the workspace
    folders and falls back to a plain file URI. */
module GitLegacy {
  import opened Wrappers
  import opened Uris
  import opened GitUtils
  import FileUtils

  /** What this copy of `getRepoNamesFromGitApi` returns: the names of the
      first repository's remotes only, which are the first names the newer
      copy lists. */
  function FirstRepoNames(api: Option<seq<Repository>>, parseUrl: string -> Option<UrlParts>): (names: seq<string>)
    ensures names <= AllRepoNames(api, parseUrl)
    ensures api.Some? && |api.value| > 0 ==> |names| <= |api.value[0].remotes|
  {
    if api.Some? && |api.value| > 0 then
      RepoNamesFront(api.value, parseUrl);
      RemoteNames(api.value[0].remotes, parseUrl)
    else []
  }

  /** `getRepoNamesFromGitApi` of src/utils/git.ts. */
  method GetRepoNamesFromGitApi(api: Option<seq<Repository>>, parseUrl: string -> Option<UrlParts>)
    returns (repoList: seq<string>)
    ensures repoList == FirstRepoNames(api, parseUrl)
  {
    repoList := [];
    if api.Some? && |api.value| > 0 {
      var repository := api.value[0];
      var remotes := repository.remotes;
      assert RemoteNames(remotes[..0], parseUrl) == [] by { assert remotes[..0] == []; }
      for k := 0 to |remotes|
        invariant repoList == RemoteNames(remotes[..k], parseUrl)
      {
        var remote := remotes[k];
        if remote.fetchUrl.Some? && remote.fetchUrl.value != [] {
          var repoName := RepoNameFromRemoteUrl(remote.fetchUrl.value, parseUrl);
          if repoName.Some? && repoName.value != [] {
            repoList := repoList + [repoName.value];
          }
        }
        RemoteNamesSnoc(remotes, k, parseUrl);
      }
      assert remotes[..|remotes|] == remotes;
    }
  }

  lemma {:induction false} RepoNamesFront(repos: seq<Repository>, parseUrl: string -> Option<UrlParts>)
    requires repos != []
    ensures RepoNamesOf(repos, parseUrl) == RemoteNames(repos[0].remotes, parseUrl) + RepoNamesOf(repos[1..], parseUrl)
    decreases |repos|
  {
    if |repos| > 1 {
      var init := repos[..|repos| - 1];
      RepoNamesFront(init, parseUrl);
      var a := RemoteNames(repos[0].remotes, parseUrl);
      var b := RepoNamesOf(init[1..], parseUrl);
      var c := RemoteNames(repos[|repos| - 1].remotes, parseUrl);
      assert RepoNamesOf(repos[1..], parseUrl) == b + c by {
        assert init[1..] == repos[1..][..|repos[1..]| - 1];
        assert repos[1..][|repos[1..]| - 1] == repos[|repos| - 1];
      }
      assert RepoNamesOf(repos, parseUrl) == (a + b) + c by {
        assert init[0] == repos[0];
      }
      AppendAssoc(a, b, c);
    } else {
      assert repos[..0] == [];
      assert repos[1..] == [];
    }
  }

  /** Unlike the newer copy, this one can find a repository whose name it
      does not list: a match in the second repository. */
  lemma LaterRepositoryFoundButNotListed()
    ensures var parseUrl := (s: string) => if s == "https://h/o/r" then Some(UrlParts("h", "/o/r")) else None;
            var api := Some([Repository(FileUri("/a"), []), Repository(FileUri("/b"), [Remote(Some("https://h/o/r"))])]);
            FindTargetRepo(api, "h/o/r", parseUrl).Some? && "h/o/r" !in FirstRepoNames(api, parseUrl)
  {
    var parseUrl := (s: string) => if s == "https://h/o/r" then Some(UrlParts("h", "/o/r")) else None;
    var remotes := [Remote(Some("https://h/o/r"))];
    var second := Repository(FileUri("/b"), remotes);
    var api := Some([Repository(FileUri("/a"), []), second]);
    assert parseUrl("https://h/o/r") == Some(UrlParts("h", "/o/r"));
    assert StripGitSuffix("/o/r") == "/o/r";
    assert "h" + "/o/r" == "h/o/r";
    assert RepoNameFromRemoteUrl("https://h/o/r", parseUrl) == Some("h/o/r");
    assert FetchNames(remotes[1..], parseUrl) == [];
    assert Serves(second, "h/o/r", parseUrl);
    assert second in api.value;
  }

  /** `getUriForFile` of src/utils/git.ts: the root of the repository that
      serves `repository` when there is one (no folder is probed), else the
      first workspace folder that has the file, else `Uri.file(fileName)`.
      `probes` counts the `stat` calls. */
  method GetUriForFile(fileName: string, repository: string,
                       api: Option<seq<Repository>>, parseUrl: string -> Option<UrlParts>,
                       folders: seq<Uri>, present: Uri -> bool)
    returns (uri: Uri, probes: nat)
    ensures match FindTargetRepo(api, repository, parseUrl)
            case Some(target) => uri == Joined(target.rootUri, fileName) && probes == 0
            case None =>
              match FileUtils.FirstHit(folders, present, fileName)
              case Some(i) => uri == Joined(folders[i], fileName) && probes == i + 1
              case None => uri == FileUri(fileName) && probes == |folders|
  {
    var targetRepo := FindTargetRepo(api, repository, parseUrl);
    if targetRepo.Some? {
      return Joined(targetRepo.value.rootUri, fileName), 0;
    }
    probes := 0;
    for i := 0 to |folders|
      invariant probes == i
      invariant forall j :: 0 <= j < i ==> !present(Joined(folders[j], fileName))
    {
      var fileUri := Joined(folders[i], fileName);
      probes := probes + 1;
      if present(fileUri) {
        FileUtils.FirstHitIs(folders, present, fileName, i);
        return fileUri, probes;
      }
    }
    uri := FileUri(fileName);
  }
}
