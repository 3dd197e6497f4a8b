/**
 * The PHP string built-ins the module relies on, on strings modelled as
 * sequences of characters: `trim`, `rtrim` with one character, `strtolower`,
 * `str_replace` of one character, `strcspn`/`substr`, `htmlspecialchars`
 * with ENT_QUOTES, `preg_split('/\r\n?|\n/')`, and the decimal form of a
 * non-negative integer as PHP prints it.
 */
module PhpStrings {

  predicate StartsWith(s: string, p: string) {
    |p| <= |s| && s[..|p|] == p
  }

  predicate HasChar(s: string, c: char) {
    exists i :: 0 <= i < |s| && s[i] == c
  }

  // ---------------------------------------------------------------- trim

  /** The characters PHP's `trim` strips by default: space, TAB, LF, CR, NUL and VT. */
  predicate IsTrimChar(c: char) {
    c == ' ' || c == '\t' || c == '\n' || c == '\r' || c == '\0' || c == '\U{0B}'
  }

  /** Number of trim characters at the start of `s`. */
  function LeadingTrim(s: string): (n: nat)
    ensures n <= |s|
  {
    if s == [] || !IsTrimChar(s[0]) then 0 else 1 + LeadingTrim(s[1..])
  }

  /** Number of trim characters at the end of `s`. */
  function TrailingTrim(s: string): (n: nat)
    ensures n <= |s|
  {
    if s == [] || !IsTrimChar(s[|s| - 1]) then 0 else 1 + TrailingTrim(s[..|s| - 1])
  }

  lemma {:induction false} LeadingTrimSpec(s: string)
    ensures forall i :: 0 <= i < LeadingTrim(s) ==> IsTrimChar(s[i])
    ensures LeadingTrim(s) < |s| ==> !IsTrimChar(s[LeadingTrim(s)])
    decreases |s|
  {
    if s != [] && IsTrimChar(s[0]) {
      LeadingTrimSpec(s[1..]);
    }
  }

  lemma {:induction false} TrailingTrimSpec(s: string)
    ensures forall i :: |s| - TrailingTrim(s) <= i < |s| ==> IsTrimChar(s[i])
    ensures TrailingTrim(s) < |s| ==> !IsTrimChar(s[|s| - 1 - TrailingTrim(s)])
    decreases |s|
  {
    if s != [] && IsTrimChar(s[|s| - 1]) {
      TrailingTrimSpec(s[..|s| - 1]);
    }
  }

  /** PHP `trim($s)`. */
  function Trim(s: string): (r: string)
    ensures |r| <= |s|
  {
    var a := LeadingTrim(s);
    var t := s[a..];
    t[..|t| - TrailingTrim(t)]
  }

  /** `trim` keeps the slice between the leading and the trailing trim characters. */
  lemma TrimSlice(s: string)
    ensures LeadingTrim(s) + |Trim(s)| <= |s|
    ensures Trim(s) == s[LeadingTrim(s)..LeadingTrim(s) + |Trim(s)|]
    ensures Trim(s) == s[LeadingTrim(s)..][..|s[LeadingTrim(s)..]| - TrailingTrim(s[LeadingTrim(s)..])]
  {
  }

  /**
   * What `trim` keeps: the longest slice of `s` that neither starts nor ends
   * with a trim character, everything cut off around it being trim characters.
   */
  lemma TrimSpec(s: string)
    ensures Trim(s) == [] || (!IsTrimChar(Trim(s)[0]) && !IsTrimChar(Trim(s)[|Trim(s)| - 1]))
    ensures LeadingTrim(s) + |Trim(s)| <= |s|
    ensures Trim(s) == s[LeadingTrim(s)..LeadingTrim(s) + |Trim(s)|]
    ensures forall i :: 0 <= i < LeadingTrim(s) ==> IsTrimChar(s[i])
    ensures forall i :: LeadingTrim(s) + |Trim(s)| <= i < |s| ==> IsTrimChar(s[i])
  {
    var a := LeadingTrim(s);
    var t := s[a..];
    var b := TrailingTrim(t);
    var r := Trim(s);
    TrimSlice(s);
    LeadingTrimSpec(s);
    TrailingTrimSpec(t);
    assert r != [] ==> r[0] == t[0] && r[|r| - 1] == t[|t| - 1 - b];
    assert forall i :: a + |r| <= i < |s| ==> s[i] == t[i - a];
  }

  lemma TrimIdempotent(s: string)
    ensures Trim(Trim(s)) == Trim(s)
  {
    var r := Trim(s);
    TrimSpec(s);
    assert LeadingTrim(r) == 0;
    assert TrailingTrim(r[LeadingTrim(r)..]) == 0;
  }

  // --------------------------------------------------------------- rtrim

  /** PHP `rtrim($s, c)` for a single character `c`: every trailing `c` is removed. */
  function RTrimChar(s: string, c: char): (r: string)
    ensures |r| <= |s| && r == s[..|r|]
    ensures r == [] || r[|r| - 1] != c
    ensures forall i :: |r| <= i < |s| ==> s[i] == c
  {
    if s != [] && s[|s| - 1] == c then RTrimChar(s[..|s| - 1], c) else s
  }

  // ----------------------------------------------------------- strcspn

  /** PHP `strcspn($s, c)` for one character: the length of the prefix free of `c`. */
  function Strcspn(s: string, c: char): (n: nat)
    ensures n <= |s|
    ensures n < |s| ==> s[n] == c
  {
    if s == [] || s[0] == c then 0 else 1 + Strcspn(s[1..], c)
  }

  /** No `c` occurs before the position `strcspn` returns. */
  lemma {:induction false} StrcspnSpec(s: string, c: char)
    ensures forall i :: 0 <= i < Strcspn(s, c) ==> s[i] != c
    decreases |s|
  {
    if s != [] && s[0] != c {
      StrcspnSpec(s[1..], c);
      assert forall i :: 1 <= i < Strcspn(s, c) ==> s[i] == s[1..][i - 1];
    }
  }

  // -------------------------------------------------------- strtolower

  /** ASCII lower-casing, as `strtolower` does (locale-independent since PHP 8.2). */
  function LowerChar(c: char): char {
    if 'A' <= c <= 'Z' then (c as int + 32) as char else c
  }

  function StrToLower(s: string): (r: string)
    ensures |r| == |s|
  {
    seq(|s|, i requires 0 <= i < |s| => LowerChar(s[i]))
  }

  // -------------------------------------------------------- str_replace

  /** PHP `str_replace(a, b, $s)` for one-character needle and replacement. */
  function ReplaceChar(s: string, a: char, b: char): (r: string)
    ensures |r| == |s|
    ensures a != b ==> !HasChar(r, a)
    ensures forall i :: 0 <= i < |s| && s[i] != a ==> r[i] == s[i]
  {
    seq(|s|, i requires 0 <= i < |s| => if s[i] == a then b else s[i])
  }

  // ---------------------------------------------------- htmlspecialchars

  function EscapeChar(c: char): string {
    if c == '&' then "&amp;"
    else if c == '<' then "&lt;"
    else if c == '>' then "&gt;"
    else if c == '"' then "&quot;"
    else if c == '\'' then "&#039;"
    else [c]
  }

  /** PHP `htmlspecialchars($s, ENT_QUOTES)` (double encoding on, as by default). */
  function HtmlSpecialChars(s: string): string {
    if s == [] then [] else EscapeChar(s[0]) + HtmlSpecialChars(s[1..])
  }

  predicate IsHtmlSpecial(c: char) {
    c == '<' || c == '>' || c == '"' || c == '\''
  }

  /** The escaped text holds no raw `<`, `>`, `"` or `'`. */
  lemma {:induction false} HtmlSpecialCharsSafe(s: string)
    ensures forall i :: 0 <= i < |HtmlSpecialChars(s)| ==> !IsHtmlSpecial(HtmlSpecialChars(s)[i])
  {
    if s != [] {
      HtmlSpecialCharsSafe(s[1..]);
      var e, rest := EscapeChar(s[0]), HtmlSpecialChars(s[1..]);
      assert forall i :: 0 <= i < |e| ==> !IsHtmlSpecial(e[i]);
      assert HtmlSpecialChars(s) == e + rest;
    }
  }

  /** The decoder of the five entities `htmlspecialchars` produces (`htmlspecialchars_decode`). */
  function HtmlDecode(s: string): string
    decreases |s|
  {
    if s == [] then []
    else if StartsWith(s, "&amp;") then "&" + HtmlDecode(s[5..])
    else if StartsWith(s, "&lt;") then "<" + HtmlDecode(s[4..])
    else if StartsWith(s, "&gt;") then ">" + HtmlDecode(s[4..])
    else if StartsWith(s, "&quot;") then "\"" + HtmlDecode(s[6..])
    else if StartsWith(s, "&#039;") then "'" + HtmlDecode(s[6..])
    else [s[0]] + HtmlDecode(s[1..])
  }

  lemma NotPrefixAt(s: string, p: string, i: nat)
    requires i < |p| && i < |s| && s[i] != p[i]
    ensures !StartsWith(s, p)
  {
    if |p| <= |s| {
      assert s[..|p|][i] == s[i];
    }
  }

  lemma PrefixOf(p: string, rest: string)
    ensures StartsWith(p + rest, p) && (p + rest)[|p|..] == rest
  {
    assert (p + rest)[..|p|] == p;
  }

  lemma DecodeEscapedChar(c: char, rest: string)
    ensures HtmlDecode(EscapeChar(c) + rest) == [c] + HtmlDecode(rest)
  {
    var e := EscapeChar(c);
    var s := e + rest;
    PrefixOf(e, rest);
    if c == '&' {
    } else if c == '<' {
      NotPrefixAt(s, "&amp;", 1);
    } else if c == '>' {
      NotPrefixAt(s, "&amp;", 1);
      NotPrefixAt(s, "&lt;", 1);
    } else if c == '"' {
      NotPrefixAt(s, "&amp;", 1);
      NotPrefixAt(s, "&lt;", 1);
      NotPrefixAt(s, "&gt;", 1);
    } else if c == '\'' {
      NotPrefixAt(s, "&amp;", 1);
      NotPrefixAt(s, "&lt;", 1);
      NotPrefixAt(s, "&gt;", 1);
      NotPrefixAt(s, "&quot;", 1);
    } else {
      NotPrefixAt(s, "&amp;", 0);
      NotPrefixAt(s, "&lt;", 0);
      NotPrefixAt(s, "&gt;", 0);
      NotPrefixAt(s, "&quot;", 0);
      NotPrefixAt(s, "&#039;", 0);
    }
  }

  /** Decoding the escaped text gives back the original text. */
  lemma {:induction false} HtmlEscapeRoundTrip(s: string)
    ensures HtmlDecode(HtmlSpecialChars(s)) == s
  {
    if s != [] {
      DecodeEscapedChar(s[0], HtmlSpecialChars(s[1..]));
      HtmlEscapeRoundTrip(s[1..]);
      assert [s[0]] + s[1..] == s;
    }
  }

  // ----------------------------------------------------------- preg_split

  predicate IsBreak(c: char) {
    c == '\r' || c == '\n'
  }

  /** PHP `preg_split('/\r\n?|\n/', $s)`: the pieces between line breaks, empty ones kept. */
  function SplitLines(s: string): (r: seq<string>)
    ensures |r| >= 1
    decreases |s|
  {
    if s == [] then [""]
    else if s[0] == '\n' then [""] + SplitLines(s[1..])
    else if s[0] == '\r' then
      if |s| > 1 && s[1] == '\n' then [""] + SplitLines(s[2..]) else [""] + SplitLines(s[1..])
    else
      var t := SplitLines(s[1..]);
      [[s[0]] + t[0]] + t[1..]
  }

  /** The pieces joined back with LF. */
  function JoinLines(xs: seq<string>): string
    requires |xs| >= 1
  {
    if |xs| == 1 then xs[0] else xs[0] + "\n" + JoinLines(xs[1..])
  }

  /** `s` with every CR LF and every lone CR written as LF. */
  function NormalizeBreaks(s: string): string
    decreases |s|
  {
    if s == [] then []
    else if s[0] == '\r' then
      if |s| > 1 && s[1] == '\n' then "\n" + NormalizeBreaks(s[2..]) else "\n" + NormalizeBreaks(s[1..])
    else [s[0]] + NormalizeBreaks(s[1..])
  }

  predicate NoBreak(s: string) {
    forall i :: 0 <= i < |s| ==> !IsBreak(s[i])
  }

  /** No piece holds a line break. */
  lemma {:induction false} SplitLinesPiecesHaveNoBreak(s: string)
    ensures forall k :: 0 <= k < |SplitLines(s)| ==> NoBreak(SplitLines(s)[k])
    decreases |s|
  {
    if s == [] {
    } else if s[0] == '\n' {
      SplitLinesPiecesHaveNoBreak(s[1..]);
    } else if s[0] == '\r' {
      if |s| > 1 && s[1] == '\n' {
        SplitLinesPiecesHaveNoBreak(s[2..]);
      } else {
        SplitLinesPiecesHaveNoBreak(s[1..]);
      }
    } else {
      SplitLinesPiecesHaveNoBreak(s[1..]);
      var t := SplitLines(s[1..]);
      assert NoBreak([s[0]] + t[0]) by {
        assert NoBreak(t[0]);
      }
    }
  }

  lemma ConcatAssoc3(a: string, b: string, c: string)
    ensures a + b + c == a + (b + c)
  {
  }

  lemma ConcatAssoc(a: string, b: string, c: string, d: string)
    ensures a + b + c + d == a + (b + c + d)
  {
  }

  /** A break-free character joins onto the first piece. */
  lemma JoinLinesCons(c: char, t: seq<string>)
    requires |t| >= 1
    ensures JoinLines([[c] + t[0]] + t[1..]) == [c] + JoinLines(t)
  {
    var r := [[c] + t[0]] + t[1..];
    assert |r| == |t| && r[0] == [c] + t[0] && r[1..] == t[1..];
    if |t| > 1 {
      ConcatAssoc([c], t[0], "\n", JoinLines(t[1..]));
    }
  }

  /** A leading break becomes one LF between an empty piece and the rest. */
  lemma JoinLinesBreak(t: seq<string>)
    requires |t| >= 1
    ensures JoinLines([""] + t) == "\n" + JoinLines(t)
  {
    var r := [""] + t;
    assert |r| > 1 && r[0] == "" && r[1..] == t;
    var rest := JoinLines(t);
    assert "" + "\n" + rest == "\n" + rest;
  }

  /** Joining the pieces with LF gives back the text with its line breaks normalised to LF. */
  lemma {:induction false} SplitLinesJoin(s: string)
    ensures JoinLines(SplitLines(s)) == NormalizeBreaks(s)
    decreases |s|
  {
    if s == [] {
    } else if s[0] == '\n' {
      SplitLinesJoin(s[1..]);
      JoinLinesBreak(SplitLines(s[1..]));
    } else if s[0] == '\r' {
      if |s| > 1 && s[1] == '\n' {
        SplitLinesJoin(s[2..]);
        JoinLinesBreak(SplitLines(s[2..]));
      } else {
        SplitLinesJoin(s[1..]);
        JoinLinesBreak(SplitLines(s[1..]));
      }
    } else {
      SplitLinesJoin(s[1..]);
      JoinLinesCons(s[0], SplitLines(s[1..]));
    }
  }

  lemma {:induction false} NormalizeWithoutCR(s: string)
    requires forall i :: 0 <= i < |s| ==> s[i] != '\r'
    ensures NormalizeBreaks(s) == s
    decreases |s|
  {
    if s != [] {
      NormalizeWithoutCR(s[1..]);
      assert [s[0]] + s[1..] == s;
    }
  }

  /** A text without CR is exactly its pieces joined with LF. */
  lemma SplitLinesJoinNoCR(s: string)
    requires forall i :: 0 <= i < |s| ==> s[i] != '\r'
    ensures JoinLines(SplitLines(s)) == s
  {
    SplitLinesJoin(s);
    NormalizeWithoutCR(s);
  }

  lemma {:induction false} SplitLinesPrepend(c: char, s: string)
    requires !IsBreak(c)
    ensures SplitLines([c] + s) == [[c] + SplitLines(s)[0]] + SplitLines(s)[1..]
  {
    var cs := [c] + s;
    assert cs[0] == c && cs[1..] == s;
  }

  lemma {:induction false} SplitLinesOfLine(x: string, rest: string)
    requires NoBreak(x)
    ensures SplitLines(x + rest) == [x + SplitLines(rest)[0]] + SplitLines(rest)[1..]
    decreases |x|
  {
    if x == [] {
      var t := SplitLines(rest);
      assert x + rest == rest;
      assert x + t[0] == t[0];
      assert [t[0]] + t[1..] == t;
    } else {
      assert x + rest == [x[0]] + (x[1..] + rest);
      SplitLinesOfLine(x[1..], rest);
      SplitLinesPrepend(x[0], x[1..] + rest);
      assert [x[0]] + (x[1..] + SplitLines(rest)[0]) == x + SplitLines(rest)[0];
    }
  }

  /** Splitting lines joined with LF gives back the lines, when none holds a line break. */
  lemma {:induction false} JoinLinesSplit(xs: seq<string>)
    requires |xs| >= 1
    requires forall k :: 0 <= k < |xs| ==> NoBreak(xs[k])
    ensures SplitLines(JoinLines(xs)) == xs
  {
    if |xs| == 1 {
      SplitLinesOfLine(xs[0], "");
      assert xs[0] + "" == xs[0];
      assert xs[0] + SplitLines("")[0] == xs[0];
    } else {
      JoinLinesSplit(xs[1..]);
      var rest := "\n" + JoinLines(xs[1..]);
      assert JoinLines(xs) == xs[0] + rest;
      SplitLinesOfLine(xs[0], rest);
      assert rest[0] == '\n' && rest[1..] == JoinLines(xs[1..]);
      assert SplitLines(rest) == [""] + xs[1..];
      assert xs[0] + "" == xs[0];
      assert [xs[0]] + xs[1..] == xs;
    }
  }

  // -------------------------------------------------------------- decimals

  predicate IsDigit(c: char) {
    '0' <= c <= '9'
  }

  predicate AllDigits(s: string) {
    forall i :: 0 <= i < |s| ==> IsDigit(s[i])
  }

  function DigitChar(d: nat): (c: char)
    requires d < 10
    ensures IsDigit(c) && c as int - '0' as int == d
  {
    ('0' as int + d) as char
  }

  /** The decimal form of `n`, as PHP writes an integer into a string. */
  function Dec(n: nat): (r: string)
    ensures |r| >= 1 && AllDigits(r)
    ensures (r[0] == '0') == (n == 0)
    decreases n
  {
    if n < 10 then [DigitChar(n)] else Dec(n / 10) + [DigitChar(n % 10)]
  }

  /** The value of a string of decimal digits. */
  function DigitsValue(s: string): nat
    requires AllDigits(s)
  {
    if s == [] then 0 else DigitsValue(s[..|s| - 1]) * 10 + (s[|s| - 1] as int - '0' as int)
  }

  /** Reading back a decimal gives the number. */
  lemma {:induction false} DecValue(n: nat)
    ensures DigitsValue(Dec(n)) == n
    decreases n
  {
    if n >= 10 {
      DecValue(n / 10);
      var d := Dec(n);
      assert d[..|d| - 1] == Dec(n / 10);
    }
  }

  lemma DecInjective(a: nat, b: nat)
    requires Dec(a) == Dec(b)
    ensures a == b
  {
    DecValue(a);
    DecValue(b);
  }

  /** Two keys of the same shape, `p + Dec(a) + s` and `p + Dec(b) + s`, are equal only for a == b. */
  lemma DecInContext(p: string, a: nat, b: nat, s: string)
    requires p + Dec(a) + s == p + Dec(b) + s
    ensures a == b
  {
    var x, y := p + Dec(a) + s, p + Dec(b) + s;
    assert |Dec(a)| == |Dec(b)|;
    assert Dec(a) == x[|p|..|p| + |Dec(a)|];
    assert Dec(b) == y[|p|..|p| + |Dec(b)|];
    DecInjective(a, b);
  }
}
