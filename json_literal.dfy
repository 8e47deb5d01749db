/** `JSON.parse` applied to one whitespace-free token of a join-style URL
    template, and the value `Array.prototype.join` then renders for it.
    String literals follow the JSON grammar of RFC 8259, section 7; the
    literals `true`, `false` and `null` are rendered as `join` renders them. */
module JsonLiteral {
  import opened Wrappers
  import Strings

  datatype JsonError =
    | Malformed      // JSON.parse throws a SyntaxError
    | LoneSurrogate  // a `\u` escape of an unpaired surrogate, which a string of Unicode scalar values cannot hold
    | NotModelled    // a number, array or object: not evaluated by this model

  /** What `[JSON.parse(token)].join()` contributes for one token: only the
      three keywords and whole string literals evaluate, and a string
      literal's value is no longer than its body. */
  function ParseToken(token: string): (r: Result<string, JsonError>)
    ensures r.Success? ==>
              || token == "true" || token == "false" || token == "null"
              || (|token| >= 2 && token[0] == '"' && token[|token| - 1] == '"' && |r.value| <= |token| - 2)
    ensures token == "true" || token == "false" ==> r == Success(token)
    ensures r == Failure(NotModelled) ==>
              token != [] && (token[0] == '-' || Strings.IsDigit(token[0]) || token[0] == '[' || token[0] == '{')
  {
    if token == "true" then Success("true")
    else if token == "false" then Success("false")
    else if token == "null" then Success("")
    else if token != [] && token[0] == '"' then Unquote(token)
    else if token != [] && (token[0] == '-' || Strings.IsDigit(token[0]) || token[0] == '[' || token[0] == '{') then
      Failure(NotModelled)
    else Failure(Malformed)
  }

  /** The value of a JSON string literal that spans the whole token. */
  function Unquote(token: string): (r: Result<string, JsonError>)
    ensures r.Success? ==> |token| >= 2 && token[0] == '"' && token[|token| - 1] == '"' && |r.value| <= |token| - 2
    ensures r != Failure(NotModelled)
  {
    if |token| >= 2 && token[0] == '"' && token[|token| - 1] == '"' then Unescape(token[1..|token| - 1])
    else Failure(Malformed)
  }

  predicate IsHex(c: char) {
    ('0' <= c <= '9') || ('a' <= c <= 'f') || ('A' <= c <= 'F')
  }

  function HexValue(c: char): (v: nat)
    requires IsHex(c)
    ensures v < 16
  {
    if '0' <= c <= '9' then c as int - '0' as int
    else if 'a' <= c <= 'f' then c as int - 'a' as int + 10
    else c as int - 'A' as int + 10
  }

  predicate IsHex4(s: string) {
    |s| == 4 && IsHex(s[0]) && IsHex(s[1]) && IsHex(s[2]) && IsHex(s[3])
  }

  /** The UTF-16 code unit written by a `\uXXXX` escape. */
  function CodeUnit(s: string): (u: nat)
    requires IsHex4(s)
    ensures u < 0x10000
  {
    4096 * HexValue(s[0]) + 256 * HexValue(s[1]) + 16 * HexValue(s[2]) + HexValue(s[3])
  }

  /** The one-character short escapes: `\"`, `\\`, `\/`, `\b`, `\f`, `\n`, `\r`, `\t`. */
  function ShortEscape(c: char): Option<char> {
    match c
    case '"' => Some('"')
    case '\\' => Some('\\')
    case '/' => Some('/')
    case 'b' => Some('\U{0008}')
    case 'f' => Some('\U{000C}')
    case 'n' => Some('\n')
    case 'r' => Some('\r')
    case 't' => Some('\t')
    case _ => None
  }

  /** The characters of the body of a string literal, escapes decoded. */
  function Unescape(b: string): (r: Result<string, JsonError>)
    ensures r.Success? ==> |r.value| <= |b|
    ensures r != Failure(NotModelled)
    decreases |b|
  {
    if b == [] then Success([])
    else if b[0] == '"' || (b[0] as int) < 0x20 then Failure(Malformed)
    else if b[0] != '\\' then
      var rest :- Unescape(b[1..]);
      Success([b[0]] + rest)
    else if |b| < 2 then Failure(Malformed)
    else if b[1] != 'u' then
      match ShortEscape(b[1])
      case None => Failure(Malformed)
      case Some(c) =>
        var rest :- Unescape(b[2..]);
        Success([c] + rest)
    else if |b| < 6 || !IsHex4(b[2..6]) then Failure(Malformed)
    else
      var u := CodeUnit(b[2..6]);
      if 0xDC00 <= u < 0xE000 then Failure(LoneSurrogate)
      else if 0xD800 <= u < 0xDC00 then
        if |b| >= 12 && b[6] == '\\' && b[7] == 'u' && IsHex4(b[8..12])
           && 0xDC00 <= CodeUnit(b[8..12]) < 0xE000 then
          var c := (0x10000 + (u - 0xD800) * 0x400 + (CodeUnit(b[8..12]) - 0xDC00)) as char;
          var rest :- Unescape(b[12..]);
          Success([c] + rest)
        else Failure(LoneSurrogate)
      else
        var rest :- Unescape(b[6..]);
        Success([u as char] + rest)
  }

  function LowerHexDigit(n: nat): (c: char)
    requires n < 16
    ensures IsHex(c) && HexValue(c) == n
  {
    "0123456789abcdef"[n]
  }

  /** How `JSON.stringify` writes one character inside a string literal. */
  function EscapeChar(c: char): (r: string)
    ensures r != []
  {
    match c
    case '"' => "\\\""
    case '\\' => "\\\\"
    case '\U{0008}' => "\\b"
    case '\U{000C}' => "\\f"
    case '\n' => "\\n"
    case '\r' => "\\r"
    case '\t' => "\\t"
    case _ =>
      if (c as int) < 0x20 then "\\u00" + [LowerHexDigit(c as int / 16), LowerHexDigit(c as int % 16)]
      else [c]
  }

  function Escape(s: string): string {
    if s == [] then [] else EscapeChar(s[0]) + Escape(s[1..])
  }

  /** `JSON.stringify(s)` for a string `s`. */
  function Quote(s: string): string {
    "\"" + Escape(s) + "\""
  }

  lemma UnescapeStep(c: char, rest: string)
    ensures Unescape(EscapeChar(c) + rest) == (var t :- Unescape(rest); Success([c] + t))
  {
    if c == '"' || c == '\\' || c == '\U{0008}' || c == '\U{000C}' || c == '\n' || c == '\r' || c == '\t' {
      ShortEscapeStep(c, rest);
    } else if (c as int) < 0x20 {
      ControlEscapeStep(c, rest);
    } else {
      var b := EscapeChar(c) + rest;
      assert b[0] == c && b[1..] == rest;
    }
  }

  lemma ShortEscapeStep(c: char, rest: string)
    requires c == '"' || c == '\\' || c == '\U{0008}' || c == '\U{000C}' || c == '\n' || c == '\r' || c == '\t'
    ensures Unescape(EscapeChar(c) + rest) == (var t :- Unescape(rest); Success([c] + t))
  {
    var e := EscapeChar(c);
    var b := e + rest;
    assert |e| == 2 && e[0] == '\\' && ShortEscape(e[1]) == Some(c);
    assert b[0] == e[0] && b[1] == e[1] && b[2..] == rest;
  }

  lemma ControlEscapeStep(c: char, rest: string)
    requires !(c == '"' || c == '\\' || c == '\U{0008}' || c == '\U{000C}' || c == '\n' || c == '\r' || c == '\t')
    requires (c as int) < 0x20
    ensures Unescape(EscapeChar(c) + rest) == (var t :- Unescape(rest); Success([c] + t))
  {
    var e := EscapeChar(c);
    var b := e + rest;
    assert b[0] == '\\' && b[1] == 'u' && b[2..6] == e[2..6] && b[6..] == rest;
    assert CodeUnit(b[2..6]) == c as int;
  }


  /** Unquoting what `JSON.stringify` wrote gives the string back. */
  lemma {:induction false} UnquoteQuote(s: string)
    ensures Unquote(Quote(s)) == Success(s)
  {
    EscapeRoundTrip(s);
    var q := Quote(s);
    assert q[1..|q| - 1] == Escape(s);
  }

  lemma {:induction false} EscapeRoundTrip(s: string)
    ensures Unescape(Escape(s)) == Success(s)
  {
    if s != [] {
      EscapeRoundTrip(s[1..]);
      UnescapeStep(s[0], Escape(s[1..]));
      assert [s[0]] + s[1..] == s;
    }
  }

  /** A token written by `JSON.stringify` parses back to its string. */
  lemma ParseTokenQuoted(s: string)
    ensures ParseToken(Quote(s)) == Success(s)
  {
    UnquoteQuote(s);
    assert Quote(s)[0] == '"';
    assert Quote(s) != "true" && Quote(s) != "false" && Quote(s) != "null" by {
      assert Quote(s)[0] != "true"[0];
    }
  }

  /** A string without whitespace is quoted without whitespace, so its
      literal survives a split on `/\s+/` as one token. */
  lemma {:induction false} QuoteNoSpace(s: string)
    requires Strings.NoSpace(s)
    ensures Strings.NoSpace(Quote(s))
  {
    EscapeNoSpace(s);
  }

  lemma {:induction false} EscapeNoSpace(s: string)
    requires Strings.NoSpace(s)
    ensures Strings.NoSpace(Escape(s))
  {
    if s != [] {
      EscapeNoSpace(s[1..]);
      assert !Strings.IsSpace(s[0]);
      EscapeCharNoSpace(s[0]);
      NoSpaceAppend(EscapeChar(s[0]), Escape(s[1..]));
    }
  }

  lemma EscapeCharNoSpace(c: char)
    requires !Strings.IsSpace(c)
    ensures Strings.NoSpace(EscapeChar(c))
  {
    var e := EscapeChar(c);
    assert forall i :: 0 <= i < |e| ==> ('!' <= e[i] <= '~' || e[i] == c) by {
      if !(c == '"' || c == '\\' || c == '\U{0008}' || c == '\U{000C}' || c == '\n' || c == '\r' || c == '\t')
         && (c as int) < 0x20 {
        var h1, h2 := LowerHexDigit(c as int / 16), LowerHexDigit(c as int % 16);
        assert e == "\\u00" + [h1, h2];
      }
    }
  }

  lemma NoSpaceAppend(a: string, b: string)
    requires Strings.NoSpace(a) && Strings.NoSpace(b)
    ensures Strings.NoSpace(a + b)
  {
    forall i | 0 <= i < |a + b| ensures !Strings.IsSpace((a + b)[i]) {
      if i >= |a| { assert (a + b)[i] == b[i - |a|]; }
    }
  }
}
