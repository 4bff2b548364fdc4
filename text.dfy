/** The ECMAScript string builtins the core relies on, over `seq<char>`:
    the `\s` class and `trim()` (both use the same whitespace set),
    `\d`, `[a-zA-Z]`, `toLowerCase()` on ASCII letters, `endsWith`,
    `split('\n')` and decimal formatting of a counter. */
module Text {

  /** The characters that `\s` matches and that `trim()` removes: the
      ECMAScript WhiteSpace and LineTerminator code points. */
  predicate IsSpace(c: char) {
    || c == '\t' || c == '\n' || c == '\U{000B}' || c == '\U{000C}' || c == '\r'
    || c == ' ' || c == '\U{00A0}' || c == '\U{1680}'
    || ('\U{2000}' <= c <= '\U{200A}')
    || c == '\U{2028}' || c == '\U{2029}' || c == '\U{202F}' || c == '\U{205F}'
    || c == '\U{3000}' || c == '\U{FEFF}'
  }

  /** `[a-zA-Z]` */
  predicate IsAsciiLetter(c: char) {
    ('a' <= c <= 'z') || ('A' <= c <= 'Z')
  }

  /** `\d`, which is ASCII only. */
  predicate IsDigit(c: char) {
    '0' <= c <= '9'
  }

  predicate IsStar(c: char) {
    c == '*'
  }

  predicate AllSpace(s: string) {
    forall i :: 0 <= i < |s| ==> IsSpace(s[i])
  }

  /** No whitespace at either end: what `trim()` returns. */
  predicate IsTrimmed(s: string) {
    |s| == 0 || (!IsSpace(s[0]) && !IsSpace(s[|s| - 1]))
  }

  predicate HasNoNewline(s: string) {
    forall i :: 0 <= i < |s| ==> s[i] != '\n'
  }

  /** Lower-cases the ASCII capitals and keeps every other character. */
  function LowerChar(c: char): (r: char)
    ensures IsAsciiLetter(c) ==> 'a' <= r <= 'z'
    ensures !IsAsciiLetter(c) ==> r == c
  {
    if 'A' <= c <= 'Z' then (c as int + 32) as char else c
  }

  /** `toLowerCase()`, with case folding restricted to ASCII. */
  function Lower(s: string): (r: string)
    ensures |r| == |s|
  {
    if s == [] then [] else Lower(s[..|s| - 1]) + [LowerChar(s[|s| - 1])]
  }

  /** `toLowerCase()` works character by character. */
  lemma {:induction false} LowerAt(s: string)
    ensures forall i :: 0 <= i < |s| ==> Lower(s)[i] == LowerChar(s[i])
    decreases |s|
  {
    if s != [] {
      LowerAt(s[..|s| - 1]);
    }
  }

  /** Length of the longest prefix of `s` whose characters all satisfy `p`:
      what a greedy `p*` at the start of `s` consumes. */
  function PrefixRun(p: char -> bool, s: string): (n: nat)
    ensures n <= |s|
    ensures n < |s| ==> !p(s[n])
  {
    if |s| > 0 && p(s[0]) then 1 + PrefixRun(p, s[1..]) else 0
  }

  /** Every character of the run satisfies `p`. */
  lemma {:induction false} PrefixRunAll(p: char -> bool, s: string)
    ensures forall i :: 0 <= i < PrefixRun(p, s) ==> p(s[i])
    decreases |s|
  {
    if |s| > 0 && p(s[0]) {
      PrefixRunAll(p, s[1..]);
    }
  }

  /** Length of the longest suffix of `s` whose characters all satisfy `p`. */
  function SuffixRun(p: char -> bool, s: string): (n: nat)
    ensures n <= |s|
    ensures n < |s| ==> !p(s[|s| - n - 1])
  {
    if |s| > 0 && p(s[|s| - 1]) then 1 + SuffixRun(p, s[..|s| - 1]) else 0
  }

  lemma {:induction false} SuffixRunAll(p: char -> bool, s: string)
    ensures forall i :: |s| - SuffixRun(p, s) <= i < |s| ==> p(s[i])
    decreases |s|
  {
    if |s| > 0 && p(s[|s| - 1]) {
      SuffixRunAll(p, s[..|s| - 1]);
    }
  }

  /** Extending a slice by one element. */
  lemma SliceSnoc<T>(s: seq<T>, i: nat, j: nat)
    requires i <= j < |s|
    ensures s[i..j + 1] == s[i..j] + [s[j]]
  {
  }

  /** A slice up to the end. */
  lemma SliceToEnd<T>(s: seq<T>, i: nat)
    requires i <= |s|
    ensures s[i..] == s[i..|s|]
  {
  }

  /** `trimStart()` */
  function TrimStart(s: string): (r: string)
    ensures |r| <= |s| && r == s[|s| - |r|..]
    ensures |r| > 0 ==> !IsSpace(r[0])
  {
    s[PrefixRun(IsSpace, s)..]
  }

  /** `trimEnd()` */
  function TrimEnd(s: string): (r: string)
    ensures |r| <= |s| && r == s[..|r|]
    ensures |r| > 0 ==> !IsSpace(r[|r| - 1])
  {
    s[..|s| - SuffixRun(IsSpace, s)]
  }

  /** `trim()`: drops the leading and the trailing whitespace. */
  function Trim(s: string): (r: string)
    ensures IsTrimmed(r)
    ensures |r| <= |s|
    ensures IsTrimmed(s) ==> r == s
  {
    var t := TrimStart(s);
    var r := TrimEnd(t);
    assert |r| > 0 ==> !IsSpace(r[0]) by {
      if |r| > 0 { assert r[0] == t[0]; }
    }
    r
  }

  /** What `trim()` removes: the result is the input with an all-whitespace
      prefix and an all-whitespace suffix cut off. Since the result has no
      whitespace at either end, no longer prefix or suffix could have been
      cut, so these are the whole leading and trailing runs. */
  lemma TrimCuts(s: string)
    ensures exists i, j :: 0 <= i <= j <= |s| && Trim(s) == s[i..j] && AllSpace(s[..i]) && AllSpace(s[j..])
  {
    var i := PrefixRun(IsSpace, s);
    var t := TrimStart(s);
    var n := |TrimEnd(t)|;
    PrefixRunAll(IsSpace, s);
    assert AllSpace(s[..i]);
    TrimEndCut(t);
    assert t == s[i..];
    assert s[i..][..n] == s[i..i + n];
    assert s[i..][n..] == s[i + n..];
  }

  /** `trimEnd()` cuts an all-whitespace suffix. */
  lemma TrimEndCut(t: string)
    ensures AllSpace(t[|TrimEnd(t)|..])
  {
    SuffixRunAll(IsSpace, t);
  }

  /** `trim()` gives the empty string exactly for all-whitespace input. */
  lemma TrimEmpty(s: string)
    ensures Trim(s) == [] <==> AllSpace(s)
  {
    var t := TrimStart(s);
    PrefixRunAll(IsSpace, s);
    SuffixRunAll(IsSpace, t);
  }

  /** A greedy run over characters that all satisfy `p` extends past them. */
  lemma {:induction false} PrefixRunAfter(p: char -> bool, ws: string, s: string)
    requires forall i :: 0 <= i < |ws| ==> p(ws[i])
    ensures PrefixRun(p, ws + s) == |ws| + PrefixRun(p, s)
    decreases |ws|
  {
    if ws != [] {
      assert (ws + s)[0] == ws[0];
      assert (ws + s)[1..] == ws[1..] + s;
      PrefixRunAfter(p, ws[1..], s);
    } else {
      assert ws + s == s;
    }
  }

  /** Whitespace put before a string does not change its trimmed form. */
  lemma TrimAfterSpaces(ws: string, s: string)
    requires AllSpace(ws)
    ensures Trim(ws + s) == Trim(s)
  {
    PrefixRunAfter(IsSpace, ws, s);
    assert TrimStart(ws + s) == (ws + s)[|ws| + PrefixRun(IsSpace, s)..] == TrimStart(s);
  }

  /** `s.endsWith(suffix)` */
  predicate EndsWith(s: string, suffix: string) {
    |suffix| <= |s| && s[|s| - |suffix|..] == suffix
  }

  /** `lines.join('\n')`; the empty list joins to the empty string. */
  function Join(lines: seq<string>): string
  {
    if |lines| == 0 then ""
    else if |lines| == 1 then lines[0]
    else Join(lines[..|lines| - 1]) + "\n" + lines[|lines| - 1]
  }

  /** `s.split('\n')`: the pieces between newlines, in order; a string with k
      newlines has k + 1 pieces, so "" gives [""] and "a\n" gives ["a", ""]. */
  function SplitLines(s: string): (lines: seq<string>)
    ensures |lines| >= 1
  {
    if s == [] then [""]
    else
      var init := SplitLines(s[..|s| - 1]);
      var c := s[|s| - 1];
      if c == '\n' then init + [""]
      else init[..|init| - 1] + [init[|init| - 1] + [c]]
  }

  /** No piece of a split holds a newline. */
  lemma {:induction false} SplitLinesNoNewline(s: string)
    ensures forall k :: 0 <= k < |SplitLines(s)| ==> HasNoNewline(SplitLines(s)[k])
    decreases |s|
  {
    if s != [] {
      SplitLinesNoNewline(s[..|s| - 1]);
    }
  }

  /** Joining the pieces of a split gives the string back. */
  lemma {:induction false} JoinSplitLines(s: string)
    ensures Join(SplitLines(s)) == s
    decreases |s|
  {
    if s != [] {
      var x := s[..|s| - 1];
      var c := s[|s| - 1];
      JoinSplitLines(x);
      assert s == x + [c];
      if c == '\n' {
        JoinNewPiece(SplitLines(x));
      } else {
        JoinExtendLast(SplitLines(x), c);
      }
    }
  }

  /** A new empty last piece adds a newline to the join. */
  lemma JoinNewPiece(lines: seq<string>)
    requires |lines| >= 1
    ensures Join(lines + [""]) == Join(lines) + "\n"
  {
    assert (lines + [""])[..|lines|] == lines;
  }

  /** A character added to the last piece is added to the join. */
  lemma JoinExtendLast(lines: seq<string>, c: char)
    requires |lines| >= 1
    ensures Join(lines[..|lines| - 1] + [lines[|lines| - 1] + [c]]) == Join(lines) + [c]
  {
    var n := |lines|;
    var extended := lines[..n - 1] + [lines[n - 1] + [c]];
    assert extended[..n - 1] == lines[..n - 1];
  }

  /** Every line followed by a newline: the text that `+= line + "\n"`
      builds up. */
  function Terminated(lines: seq<string>): string
  {
    if lines == [] then ""
    else Terminated(lines[..|lines| - 1]) + lines[|lines| - 1] + "\n"
  }

  lemma {:induction false} TerminatedAppend(a: seq<string>, b: seq<string>)
    ensures Terminated(a + b) == Terminated(a) + Terminated(b)
    decreases |b|
  {
    if b != [] {
      var n := |b|;
      assert (a + b)[..|a + b| - 1] == a + b[..n - 1];
      TerminatedAppend(a, b[..n - 1]);
    } else {
      assert a + b == a;
    }
  }

  /** Appending a newline-free piece extends the last line of the split. */
  lemma {:induction false} SplitExtendsLastLine(x: string, piece: string)
    requires HasNoNewline(piece)
    ensures var before := SplitLines(x);
            SplitLines(x + piece) == before[..|before| - 1] + [before[|before| - 1] + piece]
    decreases |piece|
  {
    var before := SplitLines(x);
    var n := |before|;
    if piece == [] {
      assert x + piece == x;
      assert before[..n - 1] + [before[n - 1] + piece] == before by {
        assert before[n - 1] + piece == before[n - 1];
      }
    } else {
      var m := |piece|;
      var init := piece[..m - 1];
      var c := piece[m - 1];
      assert piece == init + [c];
      SplitExtendsLastLine(x, init);
      SplitExtendsByOne(x, init, c);
    }
  }

  /** One more newline-free character extends the last line once more. */
  lemma SplitExtendsByOne(x: string, init: string, c: char)
    requires c != '\n'
    requires var before := SplitLines(x);
             SplitLines(x + init) == before[..|before| - 1] + [before[|before| - 1] + init]
    ensures var before := SplitLines(x);
            SplitLines(x + (init + [c])) == before[..|before| - 1] + [before[|before| - 1] + (init + [c])]
  {
    var before := SplitLines(x);
    var y := x + init;
    var mid := SplitLines(y);
    calc {
      SplitLines(x + (init + [c]));
      { assert x + (init + [c]) == y + [c]; }
      SplitLines(y + [c]);
      { SplitLinesSnocChar(y, c); }
      mid[..|mid| - 1] + [mid[|mid| - 1] + [c]];
      { ExtendLastTwice(before, init, c); }
      before[..|before| - 1] + [before[|before| - 1] + (init + [c])];
    }
  }

  /** A character other than a newline extends the last piece. */
  lemma SplitLinesSnocChar(y: string, c: char)
    requires c != '\n'
    ensures var before := SplitLines(y);
            SplitLines(y + [c]) == before[..|before| - 1] + [before[|before| - 1] + [c]]
  {
    assert (y + [c])[..|y + [c]| - 1] == y;
  }

  /** Extending the last piece twice is extending it once by both parts. */
  lemma ExtendLastTwice(before: seq<string>, init: string, c: char)
    requires |before| >= 1
    ensures var n := |before|;
            var mid := before[..n - 1] + [before[n - 1] + init];
            mid[..|mid| - 1] + [mid[|mid| - 1] + [c]] == before[..n - 1] + [before[n - 1] + (init + [c])]
  {
    var n := |before|;
    var mid := before[..n - 1] + [before[n - 1] + init];
    assert mid[..n - 1] == before[..n - 1];
    assert mid[n - 1] + [c] == before[n - 1] + (init + [c]);
  }

  /** Splitting text made of newline-terminated lines gives those lines back,
      followed by the empty piece after the final newline. */
  lemma {:induction false} SplitTerminated(lines: seq<string>)
    requires forall k :: 0 <= k < |lines| ==> HasNoNewline(lines[k])
    ensures SplitLines(Terminated(lines)) == lines + [""]
    decreases |lines|
  {
    if lines != [] {
      var n := |lines|;
      var init := lines[..n - 1];
      var last := lines[n - 1];
      SplitTerminated(init);
      var x := Terminated(init);
      SplitExtendsLastLine(x, last);
      assert SplitLines(x + last) == init + ["" + last];
      assert "" + last == last;
      assert lines == init + [last];
      assert lines[..n - 1] == init;
      assert Terminated(lines) == (x + last) + "\n";
      assert (x + last + "\n")[..|x + last + "\n"| - 1] == x + last;
    }
  }

  function DigitChar(d: nat): (c: char)
    requires d < 10
    ensures IsDigit(c)
  {
    ('0' as int + d) as char
  }

  /** The number a string of decimal digits denotes, most significant first. */
  function DigitsValue(s: string): int {
    if s == [] then 0 else 10 * DigitsValue(s[..|s| - 1]) + (s[|s| - 1] as int - '0' as int)
  }

  /** Decimal form of a natural number, as template literals print it: digits
      only, no leading zero, denoting `n`. */
  function NatToString(n: nat): (s: string)
    ensures |s| >= 1
    ensures forall i :: 0 <= i < |s| ==> IsDigit(s[i])
    ensures |s| > 1 ==> s[0] != '0'
    ensures DigitsValue(s) == n
  {
    if n < 10 then [DigitChar(n)]
    else
      var init := NatToString(n / 10);
      var s := init + [DigitChar(n % 10)];
      assert s[..|s| - 1] == init && s[0] == init[0];
      s
  }
}
