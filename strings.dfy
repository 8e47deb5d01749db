/** The JavaScript string operations the extension relies on, stated over
    `seq<char>`: the `\s` class of its regular expressions, `trimStart`,
    `trimEnd`, `split` on a character and on `/\s+/`, `join`, `replaceAll`
    with a literal pattern, and `toString` of an integer. */
module Strings {

  /** The `\s` class of ECMAScript regular expressions: the WhiteSpace and
      LineTerminator code points. */
  predicate IsSpace(c: char) {
    || c == ' ' || c == '\t' || c == '\n' || c == '\r'
    || c == '\U{000B}' || c == '\U{000C}' || c == '\U{00A0}' || c == '\U{1680}'
    || ('\U{2000}' <= c <= '\U{200A}')
    || c == '\U{2028}' || c == '\U{2029}' || c == '\U{202F}' || c == '\U{205F}'
    || c == '\U{3000}' || c == '\U{FEFF}'
  }

  /** The characters that `.` in an ECMAScript regular expression (without
      the `s` flag) does not match. */
  predicate IsLineTerminator(c: char) {
    c == '\n' || c == '\r' || c == '\U{2028}' || c == '\U{2029}'
  }

  predicate AllSpace(s: string) {
    forall i :: 0 <= i < |s| ==> IsSpace(s[i])
  }

  predicate NoSpace(s: string) {
    forall i :: 0 <= i < |s| ==> !IsSpace(s[i])
  }

  /** `s` with its leading run of whitespace removed. */
  function TrimStart(s: string): (r: string)
    ensures |r| <= |s|
    ensures r == [] || !IsSpace(r[0])
    ensures s != [] && IsSpace(s[0]) ==> |r| < |s|
  {
    if s != [] && IsSpace(s[0]) then TrimStart(s[1..]) else s
  }

  /** `s` with its trailing run of whitespace removed. */
  function TrimEnd(s: string): (r: string)
    ensures |r| <= |s|
    ensures r == [] || !IsSpace(r[|r| - 1])
  {
    if s != [] && IsSpace(s[|s| - 1]) then TrimEnd(s[..|s| - 1]) else s
  }

  /** What `TrimStart` removes is a run of whitespace in front of what it keeps. */
  lemma {:induction false} TrimStartSplits(s: string)
    ensures var r := TrimStart(s); r == s[|s| - |r|..] && AllSpace(s[..|s| - |r|])
  {
    if s != [] && IsSpace(s[0]) {
      TrimStartSplits(s[1..]);
      var r := TrimStart(s);
      assert s[..|s| - |r|] == [s[0]] + s[1..][..|s| - 1 - |r|];
    }
  }

  /** What `TrimEnd` removes is a run of whitespace behind what it keeps. */
  lemma {:induction false} TrimEndSplits(s: string)
    ensures var r := TrimEnd(s); r == s[..|r|] && AllSpace(s[|r|..])
  {
    if s != [] && IsSpace(s[|s| - 1]) {
      TrimEndSplits(s[..|s| - 1]);
      var r := TrimEnd(s);
      assert s[|r|..] == s[..|s| - 1][|r|..] + [s[|s| - 1]];
    }
  }

  lemma {:induction false} TrimStartSkipsSpace(w: string, x: string)
    requires AllSpace(w)
    ensures TrimStart(w + x) == TrimStart(x)
  {
    if w != [] {
      assert (w + x)[0] == w[0];
      assert (w + x)[1..] == w[1..] + x;
      TrimStartSkipsSpace(w[1..], x);
    } else {
      assert w + x == x;
    }
  }

  lemma {:induction false} TrimEndSkipsSpace(x: string, w: string)
    requires AllSpace(w)
    ensures TrimEnd(x + w) == TrimEnd(x)
  {
    if w != [] {
      assert (x + w)[|x + w| - 1] == w[|w| - 1];
      assert (x + w)[..|x + w| - 1] == x + w[..|w| - 1];
      TrimEndSkipsSpace(x, w[..|w| - 1]);
    } else {
      assert x + w == x;
    }
  }

  /** `p` occurs somewhere in `s` as a contiguous substring. */
  predicate Occurs(s: string, p: string)
    decreases |s|
  {
    p <= s || (s != [] && Occurs(s[1..], p))
  }

  /** `String.prototype.replaceAll` with a literal, non-empty pattern and a
      replacement function: occurrences are found left to right, without
      overlapping, and each is replaced by `rep` verbatim. */
  function ReplaceAll(s: string, pat: string, rep: string): (r: string)
    requires pat != []
    decreases |s|
  {
    if s == [] then []
    else if pat <= s then rep + ReplaceAll(s[|pat|..], pat, rep)
    else [s[0]] + ReplaceAll(s[1..], pat, rep)
  }

  /** A prefix that cannot begin the pattern anywhere is copied unchanged. */
  lemma {:induction false} ReplaceAllSkips(x: string, y: string, pat: string, rep: string)
    requires pat != []
    requires forall i :: 0 <= i < |x| ==> x[i] != pat[0]
    ensures ReplaceAll(x + y, pat, rep) == x + ReplaceAll(y, pat, rep)
  {
    if x != [] {
      assert !(pat <= x + y) by { assert (x + y)[0] == x[0]; }
      assert (x + y)[1..] == x[1..] + y;
      ReplaceAllSkips(x[1..], y, pat, rep);
      assert [x[0]] + x[1..] == x;
    } else {
      assert x + y == y;
    }
  }

  /** Replacing a pattern that does not occur changes nothing. */
  lemma {:induction false} ReplaceAllAbsent(s: string, pat: string, rep: string)
    requires pat != []
    requires !Occurs(s, pat)
    ensures ReplaceAll(s, pat, rep) == s
    decreases |s|
  {
    if s != [] {
      ReplaceAllAbsent(s[1..], pat, rep);
    }
  }

  /** A prefix that cannot begin the pattern adds no occurrence. */
  lemma {:induction false} OccursSkip(x: string, y: string, pat: string)
    requires pat != []
    requires forall i :: 0 <= i < |x| ==> x[i] != pat[0]
    ensures Occurs(x + y, pat) == Occurs(y, pat)
  {
    if x != [] {
      assert !(pat <= x + y) by { assert (x + y)[0] == x[0]; }
      assert (x + y)[1..] == x[1..] + y;
      OccursSkip(x[1..], y, pat);
    } else {
      assert x + y == y;
    }
  }

  /** A single occurrence, after a prefix that cannot begin it, is the one
      that is replaced. */
  lemma ReplaceOnce(pre: string, pat: string, post: string, rep: string)
    requires pat != []
    requires forall i :: 0 <= i < |pre| ==> pre[i] != pat[0]
    requires !Occurs(post, pat)
    ensures ReplaceAll(pre + pat + post, pat, rep) == pre + rep + post
  {
    assert pre + pat + post == pre + (pat + post);
    ReplaceAllSkips(pre, pat + post, pat, rep);
    ReplaceAllFront(pat, post, rep);
    ReplaceAllAbsent(post, pat, rep);
  }

  /** An occurrence at the front is replaced and scanning resumes after it. */
  lemma ReplaceAllFront(pat: string, y: string, rep: string)
    requires pat != []
    ensures ReplaceAll(pat + y, pat, rep) == rep + ReplaceAll(y, pat, rep)
  {
    assert pat <= pat + y;
    assert (pat + y)[|pat|..] == y;
  }

  /** `s.split(c)` for a one-character separator. */
  function Split(s: string, c: char): (r: seq<string>)
    ensures |r| >= 1
    ensures forall i :: 0 <= i < |r| ==> c !in r[i]
  {
    if s == [] then [[]]
    else
      var rest := Split(s[1..], c);
      if s[0] == c then [[]] + rest else [[s[0]] + rest[0]] + rest[1..]
  }

  /** `parts.join(sep)`. */
  function Join(parts: seq<string>, sep: string): string {
    if |parts| == 0 then []
    else if |parts| == 1 then parts[0]
    else parts[0] + sep + Join(parts[1..], sep)
  }

  /** Joining the pieces of a split with the separator restores the string. */
  lemma {:induction false} JoinSplit(s: string, c: char)
    ensures Join(Split(s, c), [c]) == s
  {
    if s != [] {
      JoinSplit(s[1..], c);
      var rest := Split(s[1..], c);
      if s[0] != c && |rest| > 1 {
        assert Join(rest, [c]) == rest[0] + [c] + Join(rest[1..], [c]);
      }
    }
  }

  lemma {:induction false} SplitNoSeparator(a: string, c: char)
    requires c !in a
    ensures Split(a, c) == [a]
  {
    if a != [] {
      SplitNoSeparator(a[1..], c);
      assert [a[0]] + a[1..] == a;
    }
  }

  lemma {:induction false} SplitAfterPiece(a: string, rest: string, c: char)
    requires c !in a
    ensures Split(a + [c] + rest, c) == [a] + Split(rest, c)
  {
    if a == [] {
      assert a + [c] + rest == [c] + rest;
      assert ([c] + rest)[1..] == rest;
    } else {
      assert (a + [c] + rest)[0] == a[0];
      assert (a + [c] + rest)[1..] == a[1..] + [c] + rest;
      SplitAfterPiece(a[1..], rest, c);
      assert [a[0]] + a[1..] == a;
    }
  }

  /** Splitting a join of separator-free pieces gives the pieces back. */
  lemma {:induction false} SplitJoin(parts: seq<string>, c: char)
    requires |parts| >= 1
    requires forall i :: 0 <= i < |parts| ==> c !in parts[i]
    ensures Split(Join(parts, [c]), c) == parts
  {
    if |parts| == 1 {
      SplitNoSeparator(parts[0], c);
    } else {
      SplitJoin(parts[1..], c);
      SplitAfterPiece(parts[0], Join(parts[1..], [c]), c);
      assert [parts[0]] + parts[1..] == parts;
    }
  }

  /** `s.split(/\s+/)`: the pieces between maximal runs of whitespace; a
      leading or trailing run yields an empty first or last piece. */
  function Words(s: string): (r: seq<string>)
    ensures |r| >= 1
    decreases |s|
  {
    if s == [] then [[]]
    else if IsSpace(s[0]) then [[]] + Words(TrimStart(s))
    else
      var rest := Words(s[1..]);
      [[s[0]] + rest[0]] + rest[1..]
  }

  /** No piece holds whitespace. */
  lemma {:induction false} WordsHaveNoSpace(s: string)
    ensures forall i :: 0 <= i < |Words(s)| ==> NoSpace(Words(s)[i])
    decreases |s|
  {
    if s == [] {
    } else if IsSpace(s[0]) {
      WordsHaveNoSpace(TrimStart(s));
    } else {
      WordsHaveNoSpace(s[1..]);
      var rest := Words(s[1..]);
      assert NoSpace([s[0]] + rest[0]);
    }
  }

  lemma {:induction false} WordsSingle(x: string)
    requires NoSpace(x)
    ensures Words(x) == [x]
  {
    if x != [] {
      WordsSingle(x[1..]);
      assert [x[0]] + x[1..] == x;
    }
  }

  /** A word followed by a run of whitespace is split off as one piece. */
  lemma {:induction false} WordsCons(x: string, w: string, y: string)
    requires NoSpace(x) && w != [] && AllSpace(w)
    requires y == [] || !IsSpace(y[0])
    ensures Words(x + w + y) == [x] + Words(y)
  {
    if x == [] {
      assert x + w + y == w + y;
      TrimStartSkipsSpace(w, y);
    } else {
      assert (x + w + y)[1..] == x[1..] + w + y;
      WordsCons(x[1..], w, y);
      assert [x[0]] + x[1..] == x;
    }
  }

  predicate IsDigit(c: char) {
    '0' <= c <= '9'
  }

  function DigitChar(d: nat): (c: char)
    requires d < 10
    ensures IsDigit(c)
  {
    ['0', '1', '2', '3', '4', '5', '6', '7', '8', '9'][d]
  }

  /** Decimal digits of `n`, most significant first, without leading zeros. */
  function NatDigits(n: nat): (r: string)
    ensures r != [] && forall i :: 0 <= i < |r| ==> IsDigit(r[i])
    ensures r[0] == '0' ==> n == 0
  {
    if n < 10 then [DigitChar(n)] else NatDigits(n / 10) + [DigitChar(n % 10)]
  }

  /** `n.toString()` for a safe integer (magnitude below 2^53). */
  function Decimal(n: int): string {
    if n < 0 then "-" + NatDigits(-n) else NatDigits(n)
  }

  /** Reads a string of decimal digits back as a number. */
  function ParseDigits(s: string): nat
    requires forall i :: 0 <= i < |s| ==> IsDigit(s[i])
  {
    if s == [] then 0 else 10 * ParseDigits(s[..|s| - 1]) + DigitValue(s[|s| - 1])
  }

  function DigitValue(c: char): (d: nat)
    requires IsDigit(c)
    ensures d < 10
  {
    c as int - '0' as int
  }

  /** The digits produced for a number read back as that number. */
  lemma {:induction false} ParseNatDigits(n: nat)
    ensures ParseDigits(NatDigits(n)) == n
  {
    if n >= 10 {
      ParseNatDigits(n / 10);
      var s := NatDigits(n / 10) + [DigitChar(n % 10)];
      assert s[..|s| - 1] == NatDigits(n / 10);
    }
  }
}
