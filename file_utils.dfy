/** Locating a repository-relative file in the open workspace
    (src/utils/fileUtils.ts). The workspace folders are an input, and
    `workspace.fs.stat` is an input predicate: a probe of a URI succeeds when
    it holds and throws otherwise. */
module FileUtils {
  import opened Wrappers
  import opened Uris

  /** The index of the first folder in which `fileName` exists. */
  function FirstHit(folders: seq<Uri>, present: Uri -> bool, fileName: string): (r: Option<nat>)
    ensures r.Some? ==> r.value < |folders| && present(Joined(folders[r.value], fileName))
    ensures r.Some? ==> forall j :: 0 <= j < r.value ==> !present(Joined(folders[j], fileName))
    ensures r.None? <==> forall j :: 0 <= j < |folders| ==> !present(Joined(folders[j], fileName))
  {
    if folders == [] then None
    else if present(Joined(folders[0], fileName)) then Some(0)
    else
      match FirstHit(folders[1..], present, fileName)
      case Some(k) => Some(k + 1)
      case None => None
  }

  /** `getUriForFile`: probes the folders in order and returns the first
      `joinPath(folder, fileName)` that exists, or null (None). A failed probe
      is swallowed and the search goes on; `probes` counts the `stat` calls. */
  method GetUriForFile(fileName: string, folders: seq<Uri>, present: Uri -> bool)
    returns (r: Option<Uri>, probes: nat)
    ensures match FirstHit(folders, present, fileName)
            case Some(i) => r == Some(Joined(folders[i], fileName)) && probes == i + 1
            case None => r == None && probes == |folders|
  {
    probes := 0;
    for i := 0 to |folders|
      invariant probes == i
      invariant forall j :: 0 <= j < i ==> !present(Joined(folders[j], fileName))
    {
      var fileUri := Joined(folders[i], fileName);
      probes := probes + 1;
      if present(fileUri) {
        FirstHitIs(folders, present, fileName, i);
        return Some(fileUri), probes;
      }
    }
    r := None;
  }

  /** The first folder that has the file is the one `FirstHit` names. */
  lemma {:induction false} FirstHitIs(folders: seq<Uri>, present: Uri -> bool, fileName: string, i: nat)
    requires i < |folders| && present(Joined(folders[i], fileName))
    requires forall j :: 0 <= j < i ==> !present(Joined(folders[j], fileName))
    ensures FirstHit(folders, present, fileName) == Some(i)
  {
    if i > 0 {
      FirstHitIs(folders[1..], present, fileName, i - 1);
    }
  }
}
