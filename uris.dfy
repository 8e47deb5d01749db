/** The part of `vscode.Uri` the extension depends on: how a URI was built
    (`Uri.file`, `Uri.joinPath`, `Uri.parse`) and the scheme it ends up with. */
module Uris {

  datatype Uri =
    | FileUri(path: string)               // `Uri.file(path)`
    | Joined(base: Uri, relative: string) // `Uri.joinPath(base, relative)`
    | Parsed(text: string)                // `Uri.parse(text)`

  /** The index of the first `:`, `/`, `?` or `#` in `text`, or its length. */
  function FirstDelimiter(text: string): (r: nat)
    ensures r <= |text|
    ensures forall i :: 0 <= i < r ==> text[i] !in ":/?#"
    ensures r < |text| ==> text[r] in ":/?#"
  {
    if text == [] || text[0] in ":/?#" then 0 else 1 + FirstDelimiter(text[1..])
  }

  /** The scheme `Uri.parse` reads: the non-empty text before the first `:`,
      provided no `/`, `?` or `#` comes before it; otherwise none. */
  function SchemeOf(text: string): (r: string)
    ensures forall i :: 0 <= i < |r| ==> r[i] !in ":/?#"
    ensures r != [] ==> r + ":" <= text
  {
    var i := FirstDelimiter(text);
    if 0 < i < |text| && text[i] == ':' then text[..i] else []
  }

  /** `uri.scheme`: `file` for `Uri.file`, the base's for `Uri.joinPath`,
      and for `Uri.parse` the parsed scheme, or `file` when there is none. */
  function Scheme(u: Uri): (r: string)
    ensures r != [] && forall i :: 0 <= i < |r| ==> r[i] !in ":/?#"
    ensures u.Parsed? && r != "file" ==> r + ":" <= u.text
  {
    match u
    case FileUri(_) => "file"
    case Joined(base, _) => Scheme(base)
    case Parsed(text) => var s := SchemeOf(text); if s == [] then "file" else s
  }

  /** A URL written as `<scheme>:<rest>` with a delimiter-free, non-empty
      scheme is parsed to that scheme. */
  lemma {:induction false} SchemeOfPrefix(scheme: string, rest: string)
    requires scheme != []
    requires forall i :: 0 <= i < |scheme| ==> scheme[i] !in ":/?#"
    ensures SchemeOf(scheme + ":" + rest) == scheme
  {
    DelimiterAfter(scheme, ":" + rest);
    assert scheme + ":" + rest == scheme + (":" + rest);
  }

  lemma {:induction false} DelimiterAfter(x: string, y: string)
    requires forall i :: 0 <= i < |x| ==> x[i] !in ":/?#"
    requires y != [] && y[0] in ":/?#"
    ensures FirstDelimiter(x + y) == |x|
  {
    if x == [] {
      assert x + y == y;
    } else {
      assert (x + y)[0] == x[0];
      assert (x + y)[1..] == x[1..] + y;
      DelimiterAfter(x[1..], y);
    }
  }
}
