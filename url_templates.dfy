/** Evaluation of the URL templates a Zoekt search response carries per
    repository (src/utils/urlTemplates.ts). Two grammars: a Go-template call
    `{{URLJoinPath arg ...}}` whose arguments are joined with `/`, and plain
    text in which the markers `{{.Version}}` and `{{.Path}}` are replaced.
    A separate line-fragment template, with the marker `{{.LineNumber}}`,
    may be appended. */
module UrlTemplates {
  import opened Wrappers
  import opened Strings
  import UriComponent
  import JsonLiteral

  const VersionMarker := "{{.Version}}"
  const PathMarker := "{{.Path}}"
  const LineNumberMarker := "{{.LineNumber}}"
  const JoinKeyword := "URLJoinPath"

  /** A quoted argument of a join-style template that JSON.parse rejects. */
  datatype TemplateError = BadArgument(token: string, reason: JsonLiteral.JsonError)

  predicate NoLineTerminator(s: string) {
    forall i :: 0 <= i < |s| ==> !IsLineTerminator(s[i])
  }

  /** Neither the first nor the last character is whitespace. */
  predicate Trimmed(a: string) {
    a == [] || (!IsSpace(a[0]) && !IsSpace(a[|a| - 1]))
  }

  /** The `args` group of `/^{{\s*URLJoinPath\s+(?<args>.*?)\s*}}$/` on `t`,
      or None when the expression does not match. A match is braced, holds
      the keyword and a whitespace character besides its arguments, and its
      arguments are one line without whitespace at either end. */
  function JoinArgs(t: string): (r: Option<string>)
    ensures r.Some? ==> |t| >= 4 && t[..2] == "{{" && t[|t| - 2..] == "}}"
    ensures r.Some? ==> |r.value| + |JoinKeyword| + 5 <= |t|
    ensures r.Some? ==> NoLineTerminator(r.value) && Trimmed(r.value)
  {
    if |t| >= 4 && t[..2] == "{{" && t[|t| - 2..] == "}}" then ArgsAfterOpen(TrimStart(t[2..|t| - 2]))
    else None
  }

  /** The rest of the match once `{{` and the whitespace after it are consumed. */
  function ArgsAfterOpen(x: string): (r: Option<string>)
    ensures r.Some? ==> |r.value| + |JoinKeyword| + 1 <= |x|
    ensures r.Some? ==> NoLineTerminator(r.value) && Trimmed(r.value)
  {
    if JoinKeyword <= x then ArgsAfterKeyword(x[|JoinKeyword|..]) else None
  }

  /** The rest of the match after the keyword: at least one whitespace
      character, then the arguments up to the trailing whitespace. */
  function ArgsAfterKeyword(rest: string): (r: Option<string>)
    ensures r.Some? ==> |r.value| + 1 <= |rest|
    ensures r.Some? ==> NoLineTerminator(r.value) && Trimmed(r.value)
  {
    if rest != [] && IsSpace(rest[0]) then
      var args := TrimEnd(TrimStart(rest));
      TrimEndSplits(TrimStart(rest));
      if NoLineTerminator(args) then Some(args) else None
    else None
  }

  /** `t` is `{{`, optional whitespace, `URLJoinPath`, at least one
      whitespace character, the arguments `a`, optional whitespace and `}}`;
      `a` has no line terminator and neither starts nor ends with whitespace
      (the greedy `\s+` and the lazy `.*?` leave none there). */
  predicate JoinShape(t: string, w1: string, w2: string, a: string, w3: string) {
    && t == "{{" + w1 + JoinKeyword + w2 + a + w3 + "}}"
    && AllSpace(w1) && AllSpace(w2) && w2 != [] && AllSpace(w3)
    && NoLineTerminator(a)
    && (a == [] || (!IsSpace(a[0]) && !IsSpace(a[|a| - 1])))
  }

  /** Every way of writing a join-style template is recognised, with its
      arguments. */
  lemma JoinArgsComplete(t: string, w1: string, w2: string, a: string, w3: string)
    requires JoinShape(t, w1, w2, a, w3)
    ensures JoinArgs(t) == Some(a)
  {
    var inner := w1 + (JoinKeyword + (w2 + a + w3));
    assert t == "{{" + inner + "}}";
    assert t[..2] == "{{" && t[|t| - 2..] == "}}" && t[2..|t| - 2] == inner;
    TrimStartSkipsSpace(w1, JoinKeyword + (w2 + a + w3));
    AfterOpenComplete(w2 + a + w3);
    AfterKeywordComplete(w2, a, w3);
  }

  lemma AfterOpenComplete(rest: string)
    ensures TrimStart(JoinKeyword + rest) == JoinKeyword + rest
    ensures ArgsAfterOpen(JoinKeyword + rest) == ArgsAfterKeyword(rest)
  {
    assert (JoinKeyword + rest)[0] == 'U';
    assert JoinKeyword <= JoinKeyword + rest;
    assert (JoinKeyword + rest)[|JoinKeyword|..] == rest;
  }

  lemma AfterKeywordComplete(w2: string, a: string, w3: string)
    requires AllSpace(w2) && w2 != [] && AllSpace(w3) && NoLineTerminator(a)
    requires a == [] || (!IsSpace(a[0]) && !IsSpace(a[|a| - 1]))
    ensures ArgsAfterKeyword(w2 + a + w3) == Some(a)
  {
    assert (w2 + a + w3)[0] == w2[0];
    assert w2 + a + w3 == w2 + (a + w3);
    TrimStartSkipsSpace(w2, a + w3);
    if a == [] {
      assert a + w3 == w3 + [];
      TrimStartSkipsSpace(w3, []);
    } else {
      assert (a + w3)[0] == a[0];
      TrimEndSkipsSpace(a, w3);
    }
  }

  /** Whatever is recognised is a join-style template with those arguments. */
  lemma JoinArgsSound(t: string) returns (w1: string, w2: string, w3: string)
    requires JoinArgs(t).Some?
    ensures JoinShape(t, w1, w2, JoinArgs(t).value, w3)
  {
    var inner := t[2..|t| - 2];
    Braces(t);
    var afterOpen := TrimStart(inner);
    TrimStartSplits(inner);
    w1 := inner[..|inner| - |afterOpen|];
    assert inner == w1 + afterOpen;
    assert JoinArgs(t) == ArgsAfterOpen(afterOpen);
    var rest := afterOpen[|JoinKeyword|..];
    assert ArgsAfterOpen(afterOpen) == ArgsAfterKeyword(rest);
    assert afterOpen == JoinKeyword + rest;
    var a;
    w2, a, w3 := AfterKeywordSound(rest);
    Assemble(t, inner, w1, w2, a, w3);
  }

  lemma Assemble(t: string, inner: string, w1: string, w2: string, a: string, w3: string)
    requires t == "{{" + inner + "}}" && inner == w1 + (JoinKeyword + (w2 + a + w3))
    ensures t == "{{" + w1 + JoinKeyword + w2 + a + w3 + "}}"
  {
  }

  lemma AfterKeywordSound(rest: string) returns (w2: string, a: string, w3: string)
    requires ArgsAfterKeyword(rest).Some?
    ensures ArgsAfterKeyword(rest) == Some(a)
    ensures rest == w2 + a + w3
    ensures AllSpace(w2) && w2 != [] && AllSpace(w3) && NoLineTerminator(a)
    ensures a == [] || (!IsSpace(a[0]) && !IsSpace(a[|a| - 1]))
  {
    var trimmed := TrimStart(rest);
    TrimStartSplits(rest);
    w2 := rest[..|rest| - |trimmed|];
    assert rest == w2 + trimmed;
    a := TrimEnd(trimmed);
    TrimEndSplits(trimmed);
    w3 := trimmed[|a|..];
    assert trimmed == a + w3;
    assert w2 != [] by { assert IsSpace(rest[0]); }
    if a != [] {
      assert a[0] == trimmed[0];
    }
  }

  lemma Braces(t: string)
    requires |t| >= 4 && t[..2] == "{{" && t[|t| - 2..] == "}}"
    ensures t == "{{" + t[2..|t| - 2] + "}}"
  {
    assert t == t[..2] + t[2..|t| - 2] + t[|t| - 2..];
  }

  /** `s.split("/").map(encodeURIComponent).join("/")`. */
  function EncodePath(s: string): string {
    Join(EncodeAll(Split(s, '/')), "/")
  }

  function EncodeAll(parts: seq<string>): (r: seq<string>)
    ensures |r| == |parts|
    ensures forall i :: 0 <= i < |r| ==> r[i] == UriComponent.EncodeUriComponent(parts[i])
  {
    if parts == [] then [] else [UriComponent.EncodeUriComponent(parts[0])] + EncodeAll(parts[1..])
  }

  /** Encoding a version or path keeps its slashes: the encoded text splits
      at `/` into exactly the encoded segments of the original. */
  lemma EncodePathKeepsSegments(s: string)
    ensures Split(EncodePath(s), '/') == EncodeAll(Split(s, '/'))
  {
    var parts := EncodeAll(Split(s, '/'));
    SplitJoin(parts, '/');
  }

  /** One argument of a join-style template: `.Version`, `.Path` (when the
      template language has it) or a JSON literal. */
  function Segment(token: string, version: string, path: Option<string>): Result<string, TemplateError> {
    if token == ".Version" then Success(EncodePath(version))
    else if path.Some? && token == ".Path" then Success(EncodePath(path.value))
    else
      match JsonLiteral.ParseToken(token)
      case Success(v) => Success(v)
      case Failure(e) => Failure(BadArgument(token, e))
  }

  /** The arguments mapped in order; the first that throws ends the map. */
  function Segments(tokens: seq<string>, version: string, path: Option<string>): Result<seq<string>, TemplateError> {
    if tokens == [] then Success([])
    else
      var head :- Segment(tokens[0], version, path);
      var tail :- Segments(tokens[1..], version, path);
      Success([head] + tail)
  }

  /** The substitution grammar: `{{.Version}}` replaced first, then `{{.Path}}`. */
  function Substitute(t: string, version: string, path: string): string {
    ReplaceAll(ReplaceAll(t, VersionMarker, version), PathMarker, path)
  }

  /** The optional suffix: present only for a non-empty fragment template and
      a given line number. */
  function LineFragment(lineNumberTemplate: Option<string>, lineNumber: Option<int>): string {
    if lineNumberTemplate.Some? && lineNumberTemplate.value != [] && lineNumber.Some? then
      ReplaceAll(lineNumberTemplate.value, LineNumberMarker, Decimal(lineNumber.value))
    else []
  }

  /** The join-style expansion of the arguments `args`: split on runs of
      whitespace, each argument evaluated, the values joined with `/`. */
  function JoinStyle(args: string, version: string, path: Option<string>): Result<string, TemplateError> {
    var segments :- Segments(Words(args), version, path);
    Success(Join(segments, "/"))
  }

  /** The file URL before the line fragment. */
  function FileUrl(template: string, version: string, path: string): Result<string, TemplateError> {
    match JoinArgs(template)
    case Some(args) => JoinStyle(args, version, Some(path))
    case None => Success(Substitute(template, version, path))
  }

  /** `evaluateFileUrlTemplate`; a Failure stands for the exception JSON.parse
      throws, which only join-style arguments can raise. The file URL comes
      first, and something is appended after it only when both a fragment
      template and a line number are given. */
  function EvaluateFileUrlTemplate(template: string, version: string, path: string,
                                   lineNumberTemplate: Option<string>, lineNumber: Option<int>): (r: Result<string, TemplateError>)
    ensures r.Failure? ==> JoinArgs(template).Some?
    ensures r.Success? ==> FileUrl(template, version, path).Success? && FileUrl(template, version, path).value <= r.value
    ensures lineNumberTemplate.None? || lineNumber.None? ==> r == FileUrl(template, version, path)
  {
    var url :- FileUrl(template, version, path);
    assert url + [] == url;
    Success(url + LineFragment(lineNumberTemplate, lineNumber))
  }

  /** `evaluateCommitUrlTemplate`: the same grammars with only `.Version`.
      Only join-style arguments can fail, and a substitution-style template
      without a version marker comes back unchanged. */
  function EvaluateCommitUrlTemplate(template: string, version: string): (r: Result<string, TemplateError>)
    ensures r.Failure? ==> JoinArgs(template).Some?
    ensures JoinArgs(template).None? && !Occurs(template, VersionMarker) ==> r == Success(template)
  {
    match JoinArgs(template)
    case Some(args) => JoinStyle(args, version, None)
    case None =>
      var url := ReplaceAll(template, VersionMarker, version);
      assert !Occurs(template, VersionMarker) ==> url == template by {
        if !Occurs(template, VersionMarker) {
          ReplaceAllAbsent(template, VersionMarker, version);
        }
      }
      Success(url)
  }

  // ---------------------------------------------------------------------
  // Join style

  /** The template of the module's doc comment, `{{URLJoinPath "<base>"
      "<segment>" .Version .Path}}`, expands to
      `<base>/<segment>/<version>/<path>` with version and path encoded
      segment by segment. */
  lemma JoinStyleExpands(base: string, segment: string, version: string, path: string)
    requires NoSpace(base) && NoSpace(segment)
    ensures EvaluateFileUrlTemplate(
              "{{URLJoinPath " + JsonLiteral.Quote(base) + " " + JsonLiteral.Quote(segment) + " .Version .Path}}",
              version, path, None, None)
         == Success(base + "/" + segment + "/" + EncodePath(version) + "/" + EncodePath(path))
  {
    var qb, qs := JsonLiteral.Quote(base), JsonLiteral.Quote(segment);
    JsonLiteral.QuoteNoSpace(base);
    JsonLiteral.QuoteNoSpace(segment);
    var r := base + "/" + segment + "/" + EncodePath(version) + "/" + EncodePath(path);
    QuotedTemplateArgs(qb, qs);
    QuotedArgsExpand(base, segment, version, path);
    assert r + [] == r;
  }

  /** The arguments of the doc-comment template are read back whole. */
  lemma QuotedTemplateArgs(qb: string, qs: string)
    requires NoSpace(qb) && NoSpace(qs) && qb != [] && qs != []
    ensures JoinArgs("{{URLJoinPath " + qb + " " + qs + " .Version .Path}}") == Some(qb + " " + qs + " .Version .Path")
  {
    var a := qb + " " + qs + " .Version .Path";
    QuotedArgsShape(qb, qs);
    JoinTemplate("{{URLJoinPath " + qb + " " + qs + " .Version .Path}}", a);
  }

  /** The arguments of the doc-comment template join to the expected URL. */
  lemma QuotedArgsExpand(base: string, segment: string, version: string, path: string)
    requires NoSpace(base) && NoSpace(segment)
    ensures JoinStyle(JsonLiteral.Quote(base) + " " + JsonLiteral.Quote(segment) + " .Version .Path", version, Some(path))
         == Success(base + "/" + segment + "/" + EncodePath(version) + "/" + EncodePath(path))
  {
    var qb, qs := JsonLiteral.Quote(base), JsonLiteral.Quote(segment);
    JsonLiteral.QuoteNoSpace(base);
    JsonLiteral.QuoteNoSpace(segment);
    QuotedArgsWords(qb, qs);
    QuotedSegments(base, segment, version, path);
    JoinFour(base, segment, EncodePath(version), EncodePath(path));
  }

  lemma JoinTemplate(t: string, a: string)
    requires t == "{{URLJoinPath " + a + "}}"
    requires NoLineTerminator(a) && a != [] && !IsSpace(a[0]) && !IsSpace(a[|a| - 1])
    ensures JoinArgs(t) == Some(a)
  {
    var e: string := [];
    assert t == "{{" + e + JoinKeyword + " " + a + e + "}}";
    JoinArgsComplete(t, e, " ", a, e);
  }

  lemma JoinFour(x1: string, x2: string, x3: string, x4: string)
    ensures Join([x1, x2, x3, x4], "/") == x1 + "/" + x2 + "/" + x3 + "/" + x4
  {
    var xs := [x1, x2, x3, x4];
    assert xs[1..] == [x2, x3, x4] && xs[1..][1..] == [x3, x4] && xs[1..][1..][1..] == [x4];
    assert Join([x3, x4], "/") == x3 + "/" + x4;
    assert Join([x2, x3, x4], "/") == x2 + "/" + (x3 + "/" + x4);
    assert Join(xs, "/") == x1 + "/" + (x2 + "/" + (x3 + "/" + x4));
  }

  lemma QuotedArgsShape(qb: string, qs: string)
    requires NoSpace(qb) && NoSpace(qs) && qb != [] && qs != []
    ensures var a := qb + " " + qs + " .Version .Path";
            NoLineTerminator(a) && !IsSpace(a[0]) && !IsSpace(a[|a| - 1])
  {
    var a := qb + " " + qs + " .Version .Path";
    forall i | 0 <= i < |a| ensures !IsLineTerminator(a[i]) {
      if i < |qb| { assert a[i] == qb[i]; }
      else if i == |qb| { }
      else if i < |qb| + 1 + |qs| { assert a[i] == qs[i - |qb| - 1]; }
    }
    assert a[0] == qb[0];
  }

  /** Four whitespace-free words separated by single spaces split back into
      those words. */
  lemma FourWords(x1: string, x2: string, x3: string, x4: string)
    requires NoSpace(x1) && NoSpace(x2) && NoSpace(x3) && NoSpace(x4)
    requires x2 != [] && x3 != [] && x4 != []
    ensures Words(x1 + " " + x2 + " " + x3 + " " + x4) == [x1, x2, x3, x4]
  {
    var s3 := x3 + " " + x4;
    var s2 := x2 + " " + s3;
    var s1 := x1 + " " + s2;
    assert !IsSpace(x4[0]) && !IsSpace(x3[0]) && !IsSpace(x2[0]);
    WordsSingle(x4);
    WordsAfterSpace(x3, x4, [x4], s3);
    WordsAfterSpace(x2, s3, [x3, x4], s2);
    WordsAfterSpace(x1, s2, [x2, x3, x4], s1);
    SpacedFour(x1, x2, x3, x4);
  }

  lemma SpacedFour(x1: string, x2: string, x3: string, x4: string)
    ensures x1 + " " + x2 + " " + x3 + " " + x4 == x1 + " " + (x2 + " " + (x3 + " " + x4))
  {
  }

  lemma WordsAfterSpace(x: string, y: string, ys: seq<string>, s: string)
    requires NoSpace(x) && y != [] && !IsSpace(y[0]) && Words(y) == ys
    requires s == x + " " + y
    ensures Words(s) == [x] + ys && s[0] == (x + " ")[0]
  {
    var sp := " ";
    assert AllSpace(sp);
    WordsCons(x, sp, y);
  }

  lemma QuotedArgsWords(qb: string, qs: string)
    requires NoSpace(qb) && NoSpace(qs) && qs != []
    ensures Words(qb + " " + qs + " .Version .Path") == [qb, qs, ".Version", ".Path"]
  {
    var v, p := ".Version", ".Path";
    assert NoSpace(v) && NoSpace(p);
    FourWords(qb, qs, v, p);
    assert qb + " " + qs + " " + v + " " + p == qb + " " + qs + " .Version .Path";
  }

  /** Arguments that each evaluate to a value give the sequence of values. */
  lemma {:induction false} SegmentsOfValues(tokens: seq<string>, values: seq<string>, version: string, path: Option<string>)
    requires |tokens| == |values|
    requires forall i :: 0 <= i < |tokens| ==> Segment(tokens[i], version, path) == Success(values[i])
    ensures Segments(tokens, version, path) == Success(values)
  {
    if tokens != [] {
      SegmentsOfValues(tokens[1..], values[1..], version, path);
      assert [values[0]] + values[1..] == values;
    }
  }

  lemma QuotedSegments(base: string, segment: string, version: string, path: string)
    ensures Segments([JsonLiteral.Quote(base), JsonLiteral.Quote(segment), ".Version", ".Path"], version, Some(path))
         == Success([base, segment, EncodePath(version), EncodePath(path)])
  {
    var qb, qs := JsonLiteral.Quote(base), JsonLiteral.Quote(segment);
    assert Segment(qb, version, Some(path)) == Success(base) by { QuotedSegment(base, version, path); }
    assert Segment(qs, version, Some(path)) == Success(segment) by { QuotedSegment(segment, version, path); }
    var tokens := [qb, qs, ".Version", ".Path"];
    var values := [base, segment, EncodePath(version), EncodePath(path)];
    forall i | 0 <= i < 4
      ensures Segment(tokens[i], version, Some(path)) == Success(values[i])
    {
      if i == 0 {
        assert tokens[i] == qb && values[i] == base;
      } else if i == 1 {
        assert tokens[i] == qs && values[i] == segment;
      } else if i == 2 {
        assert tokens[i] == ".Version" && values[i] == EncodePath(version);
      } else {
        assert tokens[i] == ".Path" && values[i] == EncodePath(path);
      }
    }
    SegmentsOfValues(tokens, values, version, Some(path));
  }

  /** A quoted JSON string is one segment: its value. */
  lemma QuotedSegment(value: string, version: string, path: string)
    ensures Segment(JsonLiteral.Quote(value), version, Some(path)) == Success(value)
  {
    var q := JsonLiteral.Quote(value);
    JsonLiteral.ParseTokenQuoted(value);
    assert q != ".Version" && q != ".Path" by {
      assert q[0] == '"';
    }
  }

  /** A version or path made of unreserved characters is used verbatim. */
  lemma EncodeSingleSegment(s: string)
    requires forall i :: 0 <= i < |s| ==> UriComponent.IsUnreserved(s[i])
    ensures EncodePath(s) == s
  {
    assert '/' !in s by { assert !UriComponent.IsUnreserved('/'); }
    SplitNoSeparator(s, '/');
    UriComponent.EncodeUnreserved(s);
  }

  /** A join-style argument that JSON.parse rejects makes the evaluation fail. */
  lemma {:induction false} BadArgumentFails(tokens: seq<string>, i: nat, version: string, path: Option<string>)
    requires i < |tokens|
    requires tokens[i] != ".Version" && !(path.Some? && tokens[i] == ".Path")
    requires JsonLiteral.ParseToken(tokens[i]).Failure?
    ensures Segments(tokens, version, path).Failure?
  {
    if i > 0 {
      BadArgumentFails(tokens[1..], i - 1, version, path);
    }
  }

  // ---------------------------------------------------------------------
  // Substitution style

  predicate NoBrace(s: string) {
    forall i :: 0 <= i < |s| ==> s[i] != '{'
  }

  lemma NoBraceAbsent(s: string, pat: string)
    requires NoBrace(s) && pat != [] && pat[0] == '{'
    ensures !Occurs(s, pat)
    decreases |s|
  {
    if s != [] {
      NoBraceAbsent(s[1..], pat);
    }
  }

  /** With brace-free surrounding text, version and path, each marker is
      replaced by its value and nothing else changes. */
  lemma SubstitutionExpands(pre: string, mid: string, suf: string, version: string, path: string)
    requires NoBrace(pre) && NoBrace(mid) && NoBrace(suf) && NoBrace(version) && NoBrace(path)
    ensures EvaluateFileUrlTemplate(pre + VersionMarker + mid + PathMarker + suf, version, path, None, None)
         == Success(pre + version + mid + path + suf)
  {
    var t := pre + VersionMarker + mid + PathMarker + suf;
    var r := pre + version + mid + path + suf;
    SubstitutionTemplateNotJoin(pre, mid, suf);
    SubstitutesBoth(pre, mid, suf, version, path);
    assert r + [] == r;
  }

  lemma SubstitutionTemplateNotJoin(pre: string, mid: string, suf: string)
    requires NoBrace(pre)
    ensures JoinArgs(pre + VersionMarker + mid + PathMarker + suf).None?
  {
    NotJoinStyle(pre, VersionMarker + mid + PathMarker + suf);
    assert pre + VersionMarker + mid + PathMarker + suf == pre + (VersionMarker + mid + PathMarker + suf);
  }

  lemma SubstitutesBoth(pre: string, mid: string, suf: string, version: string, path: string)
    requires NoBrace(pre) && NoBrace(mid) && NoBrace(suf) && NoBrace(version)
    ensures Substitute(pre + VersionMarker + mid + PathMarker + suf, version, path) == pre + version + mid + path + suf
  {
    VersionReplaced(pre, mid, suf, version);
    PathReplaced(pre + version + mid, suf, path);
    assert (pre + version + mid) + PathMarker + suf == pre + version + mid + PathMarker + suf;
  }

  /** The first pass replaces the one version marker and leaves the path
      marker behind it alone. */
  lemma VersionReplaced(pre: string, mid: string, suf: string, version: string)
    requires NoBrace(pre) && NoBrace(mid) && NoBrace(suf)
    ensures ReplaceAll(pre + VersionMarker + mid + PathMarker + suf, VersionMarker, version)
         == pre + version + mid + PathMarker + suf
  {
    var post := mid + PathMarker + suf;
    assert !Occurs(post, VersionMarker) by {
      assert post == mid + (PathMarker + suf);
      OccursSkip(mid, PathMarker + suf, VersionMarker);
      PathMarkerIsNotVersion(suf);
    }
    ReplaceOnce(pre, VersionMarker, post, version);
    assert pre + VersionMarker + mid + PathMarker + suf == pre + VersionMarker + post;
    assert pre + version + post == pre + version + mid + PathMarker + suf;
  }

  /** The second pass replaces the one path marker. */
  lemma PathReplaced(head: string, suf: string, path: string)
    requires NoBrace(head) && NoBrace(suf)
    ensures ReplaceAll(head + PathMarker + suf, PathMarker, path) == head + path + suf
  {
    NoBraceAbsent(suf, PathMarker);
    ReplaceOnce(head, PathMarker, suf, path);
  }

  /** A template that does not open with `{{` followed by whitespace or the
      keyword is not join-style. */
  lemma NotJoinStyle(pre: string, rest: string)
    requires NoBrace(pre) && |rest| >= 3 && rest[..3] == "{{."
    ensures JoinArgs(pre + rest).None?
  {
    var t := pre + rest;
    if pre != [] {
      assert |t| < 2 || t[..2][0] == pre[0];
    } else if |t| >= 4 && t[..2] == "{{" && t[|t| - 2..] == "}}" {
      assert t == rest;
      assert |t| > 4 by { assert t[2] == '.' && t[|t| - 2..][0] == t[|t| - 2]; }
      var inner := t[2..|t| - 2];
      assert inner[0] == '.';
      assert TrimStart(inner) == inner;
    }
  }

  lemma PathMarkerIsNotVersion(suf: string)
    requires NoBrace(suf)
    ensures !Occurs(PathMarker + suf, VersionMarker)
  {
    var z := PathMarker + suf;
    assert !(VersionMarker <= z) by { assert z[3] == 'P'; }
    assert z[1..] == ['{'] + (".Path}}" + suf);
    assert !(VersionMarker <= z[1..]) by { assert z[1..][1] == '.'; }
    assert z[1..][1..] == ".Path}}" + suf;
    assert NoBrace(".Path}}" + suf);
    NoBraceAbsent(".Path}}" + suf, VersionMarker);
  }

  /** `https://example.com/{{.Version}}/{{.Path}}` with `v1` and `x/y`
      expands to `https://example.com/v1/x/y`. */
  lemma SubstitutionExample(host: string, version: string, path: string)
    requires host == "https://example.com/"
    requires version == "v1" && path == "x/y"
    ensures EvaluateFileUrlTemplate(host + VersionMarker + "/" + PathMarker, version, path, None, None)
         == Success(host + "v1/x/y")
  {
    assert NoBrace(host) && NoBrace("/") && NoBrace([]);
    SubstitutionExpands(host, "/", [], version, path);
    assert host + VersionMarker + "/" + PathMarker + [] == host + VersionMarker + "/" + PathMarker;
    assert host + version + "/" + path + [] == host + "v1/x/y";
  }

  /** Version is substituted before path, so a `{{.Path}}` inside the version
      is itself replaced by the path. */
  lemma VersionIsSubstitutedAgain(path: string)
    ensures EvaluateFileUrlTemplate(VersionMarker, PathMarker, path, None, None) == Success(path)
  {
    assert JoinArgs(VersionMarker).None? by {
      assert TrimStart(VersionMarker[2..|VersionMarker| - 2]) == VersionMarker[2..|VersionMarker| - 2];
    }
    ReplaceAllFront(VersionMarker, [], PathMarker);
    assert VersionMarker + [] == VersionMarker;
    ReplaceAllFront(PathMarker, [], path);
    assert PathMarker + [] == PathMarker;
    assert path + [] == path;
  }

  /** A substitution-style template without markers comes back unchanged
      when no line fragment is asked for. */
  lemma PlainTemplateUnchanged(template: string, version: string, path: string)
    requires JoinArgs(template).None?
    requires !Occurs(template, VersionMarker) && !Occurs(template, PathMarker)
    ensures EvaluateFileUrlTemplate(template, version, path, None, None) == Success(template)
  {
    ReplaceAllAbsent(template, VersionMarker, version);
    ReplaceAllAbsent(template, PathMarker, path);
    assert template + [] == template;
  }

  // ---------------------------------------------------------------------
  // Line fragment

  /** The fragment is appended after the URL, and only for a non-empty
      fragment template together with a line number; it never turns a
      failure into a success or back. */
  lemma LineFragmentAppended(template: string, version: string, path: string,
                             lineNumberTemplate: Option<string>, lineNumber: Option<int>)
    ensures var plain := EvaluateFileUrlTemplate(template, version, path, None, None);
            var full := EvaluateFileUrlTemplate(template, version, path, lineNumberTemplate, lineNumber);
            && (plain.Failure? <==> full.Failure?)
            && (plain.Failure? ==> full.error == plain.error)
            && (plain.Success? && (lineNumberTemplate.None? || lineNumberTemplate.value == [] || lineNumber.None?)
                ==> full.value == plain.value)
            && (plain.Success? && lineNumberTemplate.Some? && lineNumberTemplate.value != [] && lineNumber.Some?
                ==> full.value == plain.value + ReplaceAll(lineNumberTemplate.value, LineNumberMarker, Decimal(lineNumber.value)))
  {
    var base := FileUrl(template, version, path);
    if base.Success? {
      assert base.value + [] == base.value;
    }
  }

  /** A fragment template `<prefix>{{.LineNumber}}` with a brace-free prefix
      gives the prefix followed by the decimal line number. */
  lemma LineFragmentNumber(prefix: string, lineNumber: int)
    requires NoBrace(prefix)
    ensures LineFragment(Some(prefix + LineNumberMarker), Some(lineNumber)) == prefix + Decimal(lineNumber)
  {
    assert prefix + LineNumberMarker == prefix + (LineNumberMarker + []);
    ReplaceAllSkips(prefix, LineNumberMarker + [], LineNumberMarker, Decimal(lineNumber));
    ReplaceAllFront(LineNumberMarker, [], Decimal(lineNumber));
    assert Decimal(lineNumber) + [] == Decimal(lineNumber);
  }

  // ---------------------------------------------------------------------
  // Commit templates

  lemma {:induction false} SegmentsWithoutPath(tokens: seq<string>, version: string, path: string)
    requires forall i :: 0 <= i < |tokens| ==> tokens[i] != ".Path"
    ensures Segments(tokens, version, None) == Segments(tokens, version, Some(path))
  {
    if tokens != [] {
      SegmentsWithoutPath(tokens[1..], version, path);
    }
  }

  /** A commit template agrees with a file template without line fragment
      when nothing in it would be read as the path: no `.Path` argument in
      join style, and no `{{.Path}}` left after the version is substituted. */
  lemma CommitAgreesWithFile(template: string, version: string, path: string)
    requires match JoinArgs(template)
             case Some(args) => forall i :: 0 <= i < |Words(args)| ==> Words(args)[i] != ".Path"
             case None => !Occurs(ReplaceAll(template, VersionMarker, version), PathMarker)
    ensures EvaluateCommitUrlTemplate(template, version) == EvaluateFileUrlTemplate(template, version, path, None, None)
  {
    match JoinArgs(template)
    case Some(args) => {
      SegmentsWithoutPath(Words(args), version, path);
      var r := JoinStyle(args, version, None);
      if r.Success? {
        assert r.value + [] == r.value;
      }
    }
    case None =>
      var once := ReplaceAll(template, VersionMarker, version);
      ReplaceAllAbsent(once, PathMarker, path);
      assert once + [] == once;
  }
}
