/**
 * `http_build_query($data, 'arg', '&', PHP_QUERY_RFC3986)`: each pair is
 * written `name=value`, pairs are joined by `&`, and names and values are
 * percent-encoded as in section 2.1 of RFC 3986, except for the unreserved
 * characters of section 2.3 (ALPHA, DIGIT, `-`, `.`, `_`, `~`). A name that
 * PHP stores as an integer key is written after the prefix `arg`, unencoded.
 *
 * Strings stand for PHP's UTF-8 byte strings: a character outside ASCII is
 * encoded byte by byte. The partner of the encoder is the parser of the
 * query string it produces, which gives back the pairs as bytes.
 */
module UrlEncoding {
  import opened PhpStrings
  import opened PhpArray

  type Byte = b: int | 0 <= b < 256

  /** The UTF-8 encoding of one character. */
  function Utf8(c: char): (r: seq<Byte>)
    ensures 1 <= |r| <= 4
    ensures (|r| == 1) == (c as int < 0x80)
  {
    var n := c as int;
    if n < 0x80 then [n]
    else if n < 0x800 then [0xC0 + n / 64, 0x80 + n % 64]
    else if n < 0x10000 then [0xE0 + n / 4096, 0x80 + n / 64 % 64, 0x80 + n % 64]
    else [0xF0 + n / 262144, 0x80 + n / 4096 % 64, 0x80 + n / 64 % 64, 0x80 + n % 64]
  }

  function Utf8Bytes(s: string): seq<Byte> {
    if s == [] then [] else Utf8(s[0]) + Utf8Bytes(s[1..])
  }

  lemma {:induction false} Utf8BytesConcat(a: string, b: string)
    ensures Utf8Bytes(a + b) == Utf8Bytes(a) + Utf8Bytes(b)
    decreases |a|
  {
    if a == [] {
      assert a + b == b;
    } else {
      assert (a + b)[0] == a[0] && (a + b)[1..] == a[1..] + b;
      Utf8BytesConcat(a[1..], b);
    }
  }

  // ------------------------------------------------------------ encoding

  /** The unreserved characters of section 2.3 of RFC 3986. */
  predicate IsUnreserved(c: char) {
    ('A' <= c <= 'Z') || ('a' <= c <= 'z') || ('0' <= c <= '9') || c == '-' || c == '.' || c == '_' || c == '~'
  }

  function HexDigit(d: nat): (c: char)
    requires d < 16
    ensures IsUnreserved(c)
  {
    if d < 10 then ('0' as int + d) as char else ('A' as int + d - 10) as char
  }

  predicate IsHex(c: char) {
    ('0' <= c <= '9') || ('A' <= c <= 'F') || ('a' <= c <= 'f')
  }

  function HexValue(c: char): (d: nat)
    requires IsHex(c)
    ensures d < 16
  {
    if '0' <= c <= '9' then c as int - '0' as int
    else if 'A' <= c <= 'F' then c as int - 'A' as int + 10
    else c as int - 'a' as int + 10
  }

  lemma HexRoundTrip(d: nat)
    requires d < 16
    ensures IsHex(HexDigit(d)) && HexValue(HexDigit(d)) == d
  {
  }

  /** `%XX` with upper-case hexadecimal digits. */
  function PercentBytes(bs: seq<Byte>): string {
    if bs == [] then [] else ['%', HexDigit(bs[0] / 16), HexDigit(bs[0] % 16)] + PercentBytes(bs[1..])
  }

  function EncodeChar(c: char): string {
    if IsUnreserved(c) then [c] else PercentBytes(Utf8(c))
  }

  /** PHP `rawurlencode`. */
  function RawUrlEncode(s: string): string {
    if s == [] then [] else EncodeChar(s[0]) + RawUrlEncode(s[1..])
  }

  /** A character `rawurlencode` may produce. */
  predicate EncodedChar(c: char) {
    IsUnreserved(c) || c == '%'
  }

  predicate AllEncoded(s: string) {
    forall i :: 0 <= i < |s| ==> EncodedChar(s[i])
  }

  lemma {:induction false} PercentBytesEncoded(bs: seq<Byte>)
    ensures AllEncoded(PercentBytes(bs))
    decreases |bs|
  {
    if bs != [] {
      PercentBytesEncoded(bs[1..]);
    }
  }

  /** The output of `rawurlencode` holds only unreserved characters and `%`: never `&` or `=`. */
  lemma {:induction false} RawUrlEncodeAlphabet(s: string)
    ensures AllEncoded(RawUrlEncode(s))
    decreases |s|
  {
    if s != [] {
      RawUrlEncodeAlphabet(s[1..]);
      if !IsUnreserved(s[0]) {
        PercentBytesEncoded(Utf8(s[0]));
      }
    }
  }

  predicate AllUnreserved(s: string) {
    forall i :: 0 <= i < |s| ==> IsUnreserved(s[i])
  }

  /** Text made of unreserved characters is left as it is. */
  lemma {:induction false} RawUrlEncodeUnreserved(s: string)
    requires AllUnreserved(s)
    ensures RawUrlEncode(s) == s
    decreases |s|
  {
    if s != [] {
      RawUrlEncodeUnreserved(s[1..]);
      assert [s[0]] + s[1..] == s;
    }
  }

  // ------------------------------------------------------------ decoding

  /** Percent-decoding to bytes; any other character stands for its UTF-8 bytes. */
  function PercentDecode(s: string): seq<Byte> {
    if s == [] then []
    else if |s| >= 3 && s[0] == '%' && IsHex(s[1]) && IsHex(s[2]) then
      [HexValue(s[1]) * 16 + HexValue(s[2])] + PercentDecode(s[3..])
    else Utf8(s[0]) + PercentDecode(s[1..])
  }

  /** `%XX` decodes to the byte it writes. */
  lemma PercentByteDecode(b: Byte, tail: string)
    ensures PercentDecode(['%', HexDigit(b / 16), HexDigit(b % 16)] + tail) == [b] + PercentDecode(tail)
  {
    var s := ['%', HexDigit(b / 16), HexDigit(b % 16)] + tail;
    HexRoundTrip(b / 16);
    HexRoundTrip(b % 16);
    assert s[1] == HexDigit(b / 16) && s[2] == HexDigit(b % 16);
    assert s[3..] == tail;
  }

  lemma {:induction false} PercentBytesDecode(bs: seq<Byte>, rest: string)
    ensures PercentDecode(PercentBytes(bs) + rest) == bs + PercentDecode(rest)
    decreases |bs|
  {
    if bs == [] {
      assert PercentBytes(bs) + rest == rest;
    } else {
      var b := bs[0];
      var tail := PercentBytes(bs[1..]) + rest;
      calc {
        PercentDecode(PercentBytes(bs) + rest);
        { assert PercentBytes(bs) + rest == ['%', HexDigit(b / 16), HexDigit(b % 16)] + tail; }
        PercentDecode(['%', HexDigit(b / 16), HexDigit(b % 16)] + tail);
        { PercentByteDecode(b, tail); }
        [b] + PercentDecode(tail);
        { PercentBytesDecode(bs[1..], rest); }
        [b] + (bs[1..] + PercentDecode(rest));
        { assert [b] + bs[1..] == bs; }
        bs + PercentDecode(rest);
      }
    }
  }

  /** Decoding what `rawurlencode` produced gives back the UTF-8 bytes of the text. */
  lemma {:induction false} RawUrlEncodeDecode(s: string, rest: string)
    ensures PercentDecode(RawUrlEncode(s) + rest) == Utf8Bytes(s) + PercentDecode(rest)
    decreases |s|
  {
    if s == [] {
      assert RawUrlEncode(s) + rest == rest;
    } else {
      var tail := RawUrlEncode(s[1..]) + rest;
      assert RawUrlEncode(s) + rest == EncodeChar(s[0]) + tail;
      RawUrlEncodeDecode(s[1..], rest);
      if IsUnreserved(s[0]) {
        assert ([s[0]] + tail)[1..] == tail;
      } else {
        PercentBytesDecode(Utf8(s[0]), tail);
      }
    }
  }

  lemma RawUrlDecodes(s: string)
    ensures PercentDecode(RawUrlEncode(s)) == Utf8Bytes(s)
  {
    RawUrlEncodeDecode(s, "");
    assert RawUrlEncode(s) + "" == RawUrlEncode(s);
  }

  // -------------------------------------------------------- query strings

  /** Digits whose value does not exceed `limit`. */
  predicate InIntRange(digits: string, limit: nat)
    requires AllDigits(digits)
  {
    DigitsValue(digits) <= limit
  }

  /** A name PHP stores as an integer array key: a canonical decimal of a 64-bit integer. */
  predicate IsIntegerKey(k: string) {
    || k == "0"
    || (|k| >= 1 && AllDigits(k) && k[0] != '0' && InIntRange(k, 0x7FFF_FFFF_FFFF_FFFF))
    || (|k| >= 2 && k[0] == '-' && AllDigits(k[1..]) && k[1] != '0' && InIntRange(k[1..], 0x8000_0000_0000_0000))
  }

  /** The name written for a pair: integer keys get the numeric prefix `arg`. */
  function QueryName(k: string): string {
    if IsIntegerKey(k) then "arg" + k else k
  }

  function EncodeName(k: string): string {
    if IsIntegerKey(k) then "arg" + k else RawUrlEncode(k)
  }

  function EncodePair(p: (string, string)): string {
    EncodeName(p.0) + "=" + RawUrlEncode(p.1)
  }

  function EncodePairs(data: Entries<string>): seq<string> {
    seq(|data|, i requires 0 <= i < |data| => EncodePair(data[i]))
  }

  function Join(xs: seq<string>, sep: char): string {
    if xs == [] then [] else if |xs| == 1 then xs[0] else xs[0] + [sep] + Join(xs[1..], sep)
  }

  /** `http_build_query($data, 'arg', '&', PHP_QUERY_RFC3986)`. */
  function HttpBuildQuery(data: Entries<string>): string {
    Join(EncodePairs(data), '&')
  }

  /** Splitting at every `sep`. */
  function SplitOn(s: string, sep: char): (r: seq<string>)
    ensures |r| >= 1
  {
    if s == [] then [[]]
    else
      var t := SplitOn(s[1..], sep);
      if s[0] == sep then [[]] + t else [[s[0]] + t[0]] + t[1..]
  }

  predicate Lacks(s: string, c: char) {
    forall i :: 0 <= i < |s| ==> s[i] != c
  }

  lemma {:induction false} SplitOnPrepend(x: string, rest: string, sep: char)
    requires Lacks(x, sep)
    ensures SplitOn(x + rest, sep) == [x + SplitOn(rest, sep)[0]] + SplitOn(rest, sep)[1..]
    decreases |x|
  {
    if x == [] {
      var t := SplitOn(rest, sep);
      assert x + rest == rest;
      assert x + t[0] == t[0];
      assert [t[0]] + t[1..] == t;
    } else {
      assert (x + rest)[0] == x[0] && (x + rest)[1..] == x[1..] + rest;
      SplitOnPrepend(x[1..], rest, sep);
      assert [x[0]] + (x[1..] + SplitOn(rest, sep)[0]) == x + SplitOn(rest, sep)[0];
    }
  }

  /** Splitting a join of `sep`-free pieces gives the pieces back. */
  lemma {:induction false} SplitOnJoin(xs: seq<string>, sep: char)
    requires |xs| >= 1
    requires forall i :: 0 <= i < |xs| ==> Lacks(xs[i], sep)
    ensures SplitOn(Join(xs, sep), sep) == xs
    decreases |xs|
  {
    if |xs| == 1 {
      SplitOnPrepend(xs[0], "", sep);
      assert xs[0] + "" == xs[0];
      assert xs == [xs[0]];
    } else {
      SplitOnJoin(xs[1..], sep);
      var rest := [sep] + Join(xs[1..], sep);
      assert Join(xs, sep) == xs[0] + rest;
      SplitOnPrepend(xs[0], rest, sep);
      assert SplitOn(rest, sep) == [[]] + xs[1..];
      assert xs[0] + [] == xs[0];
      assert [xs[0]] + xs[1..] == xs;
    }
  }

  /** A pair's name and value, split at the first `=`. */
  function SplitPair(p: string): (string, string) {
    var n := Strcspn(p, '=');
    if n < |p| then (p[..n], p[n + 1..]) else (p, "")
  }

  lemma SplitPairOf(a: string, b: string)
    requires Lacks(a, '=')
    ensures SplitPair(a + "=" + b) == (a, b)
  {
    var p := a + "=" + b;
    StrcspnOf(a, "=" + b, '=');
    assert p == a + ("=" + b);
    assert p[..|a|] == a;
    assert p[|a| + 1..] == b;
  }

  lemma {:induction false} StrcspnOf(a: string, rest: string, c: char)
    requires Lacks(a, c) && rest != [] && rest[0] == c
    ensures Strcspn(a + rest, c) == |a|
    decreases |a|
  {
    if a == [] {
      assert a + rest == rest;
    } else {
      assert (a + rest)[1..] == a[1..] + rest;
      StrcspnOf(a[1..], rest, c);
    }
  }

  /** Reading a query string back into decoded (name, value) pairs. */
  function ParseQuery(q: string): seq<(seq<Byte>, seq<Byte>)> {
    if q == [] then []
    else
      var pieces := SplitOn(q, '&');
      seq(|pieces|, i requires 0 <= i < |pieces| =>
        (PercentDecode(SplitPair(pieces[i]).0), PercentDecode(SplitPair(pieces[i]).1)))
  }

  lemma EncodeNameEncoded(k: string)
    ensures AllEncoded(EncodeName(k))
    ensures PercentDecode(EncodeName(k)) == Utf8Bytes(QueryName(k))
  {
    if IsIntegerKey(k) {
      assert AllUnreserved("arg" + k) by {
        if k != "0" && k[0] == '-' {
          assert forall i :: 1 <= i < |k| ==> k[1..][i - 1] == k[i];
        }
      }
      RawUrlEncodeUnreserved("arg" + k);
      RawUrlDecodes("arg" + k);
    } else {
      RawUrlEncodeAlphabet(k);
      RawUrlDecodes(k);
    }
  }

  /** Encoded text holds neither separator of a query string. */
  lemma EncodedLacks(s: string)
    requires AllEncoded(s)
    ensures Lacks(s, '&') && Lacks(s, '=')
  {
    forall i | 0 <= i < |s| ensures s[i] != '&' && s[i] != '=' {
      assert EncodedChar(s[i]);
    }
  }

  lemma LacksJoined(a: string, b: string, c: char)
    requires Lacks(a, c) && Lacks(b, c) && c != '='
    ensures Lacks(a + "=" + b, c)
  {
    var e := a + "=" + b;
    forall i | 0 <= i < |e| ensures e[i] != c {
      if i < |a| {
        assert e[i] == a[i];
      } else if i > |a| {
        assert e[i] == b[i - |a| - 1];
      }
    }
  }

  lemma EncodedPair(p: (string, string))
    ensures Lacks(EncodePair(p), '&')
    ensures SplitPair(EncodePair(p)) == (EncodeName(p.0), RawUrlEncode(p.1))
  {
    var a := EncodeName(p.0);
    var b := RawUrlEncode(p.1);
    EncodeNameEncoded(p.0);
    RawUrlEncodeAlphabet(p.1);
    EncodedLacks(a);
    EncodedLacks(b);
    assert EncodePair(p) == a + "=" + b;
    LacksJoined(a, b, '&');
    SplitPairOf(a, b);
  }

  /**
   * The query string gives back every pair, in order: the name (with the
   * `arg` prefix for integer keys) and the value, as UTF-8 bytes.
   */
  lemma ParseBuiltQuery(data: Entries<string>)
    ensures |ParseQuery(HttpBuildQuery(data))| == |data|
    ensures forall i :: 0 <= i < |data| ==>
      ParseQuery(HttpBuildQuery(data))[i] == (Utf8Bytes(QueryName(data[i].0)), Utf8Bytes(data[i].1))
  {
    var xs := EncodePairs(data);
    if data != [] {
      forall i | 0 <= i < |xs| ensures Lacks(xs[i], '&') {
        EncodedPair(data[i]);
      }
      SplitOnJoin(xs, '&');
      var q := HttpBuildQuery(data);
      assert q != [] by {
        var e := xs[0];
        assert e == EncodeName(data[0].0) + "=" + RawUrlEncode(data[0].1);
        JoinStartsWith(xs, '&');
      }
      forall i | 0 <= i < |data|
        ensures ParseQuery(q)[i] == (Utf8Bytes(QueryName(data[i].0)), Utf8Bytes(data[i].1))
      {
        EncodedPair(data[i]);
        EncodeNameEncoded(data[i].0);
        RawUrlDecodes(data[i].1);
      }
    }
  }

  lemma JoinStartsWith(xs: seq<string>, sep: char)
    requires |xs| >= 1
    ensures |Join(xs, sep)| >= |xs[0]|
  {
  }

  /** No pairs give the empty query string. */
  lemma EmptyQuery()
    ensures HttpBuildQuery([]) == ""
    ensures ParseQuery("") == []
  {
  }
}
