/**
 * The named-placeholder formatter `injectContext` (src/WebGetter.php) and
 * `_injectContext` (src/Erebot/Module/WebGetter.php), which are the same code.
 *
 * A template that names context entries as `$(key)` followed by a
 * conversion letter is evaluated by doubling every `%`, rewriting each
 * `$(key)` into the positional specifier `%N$` (N being the key's 1-based
 * position in the context) with one `strtr` pass, and handing the result to
 * `vsprintf` with the context's values in key order.
 */
module Formatter {
  import opened Wrappers
  import opened PhpStrings
  import opened PhpArray

  /** A context value: a string, or the list of strings an XPath query produced. */
  datatype Value = Str(s: string) | Arr(items: seq<string>)

  /** The context, a PHP array from keys to values; positions matter. */
  type Context = Entries<Value>

  /** The formatter's second argument: `null`, a scalar, or an array. */
  datatype Args = NoArgs | Scalar(s: string) | Assoc(entries: Context)

  /** How `vsprintf` prints a value: an array prints as "Array". */
  function AsString(v: Value): string {
    match v
    case Str(s) => s
    case Arr(_) => "Array"
  }

  // ------------------------------------------------------------- strtr

  type Table = seq<(string, string)>

  predicate IsMatch(s: string, table: Table, i: nat)
    requires i < |table|
  {
    table[i].0 != [] && StartsWith(s, table[i].0)
  }

  function LongestFrom(s: string, table: Table, j: nat, best: Option<nat>): (r: Option<nat>)
    requires j <= |table|
    requires best.Some? ==> best.value < |table| && IsMatch(s, table, best.value)
    ensures r.Some? ==> r.value < |table| && IsMatch(s, table, r.value)
    decreases |table| - j
  {
    if j == |table| then best
    else if IsMatch(s, table, j) && (best.None? || |table[j].0| > |table[best.value].0|) then
      LongestFrom(s, table, j + 1, Some(j))
    else
      LongestFrom(s, table, j + 1, best)
  }

  /** The entry of `table` whose (non-empty) key is the longest prefix of `s`; see `LongestMatchSpec`. */
  function LongestMatch(s: string, table: Table): (r: Option<nat>)
    ensures r.Some? ==> r.value < |table| && IsMatch(s, table, r.value)
  {
    LongestFrom(s, table, 0, None)
  }

  lemma {:induction false} LongestFromSpec(s: string, table: Table, j: nat, best: Option<nat>)
    requires j <= |table|
    requires best.Some? ==> best.value < j && IsMatch(s, table, best.value)
    requires best.Some? ==> forall i :: 0 <= i < j && IsMatch(s, table, i) ==> |table[i].0| <= |table[best.value].0|
    requires best.None? ==> forall i :: 0 <= i < j ==> !IsMatch(s, table, i)
    ensures var r := LongestFrom(s, table, j, best);
      && (r.Some? ==> forall i :: 0 <= i < |table| && IsMatch(s, table, i) ==> |table[i].0| <= |table[r.value].0|)
      && (r.None? ==> forall i :: 0 <= i < |table| ==> !IsMatch(s, table, i))
    decreases |table| - j
  {
    if j < |table| {
      if IsMatch(s, table, j) && (best.None? || |table[j].0| > |table[best.value].0|) {
        LongestFromSpec(s, table, j + 1, Some(j));
      } else {
        LongestFromSpec(s, table, j + 1, best);
      }
    }
  }

  /** No matching key is longer than the one found; none is found only when no key matches. */
  lemma LongestMatchSpec(s: string, table: Table)
    ensures var r := LongestMatch(s, table);
      && (r.Some? ==> forall i :: 0 <= i < |table| && IsMatch(s, table, i) ==> |table[i].0| <= |table[r.value].0|)
      && (r.None? ==> forall i :: 0 <= i < |table| ==> !IsMatch(s, table, i))
  {
    LongestFromSpec(s, table, 0, None);
  }

  /**
   * PHP `strtr($s, $table)`: scanning left to right, the longest key found
   * at the current position is replaced and scanning resumes after it, so
   * replaced text is never rescanned; elsewhere one character is copied.
   */
  function StrTr(s: string, table: Table): string
    decreases |s|
  {
    if s == [] then []
    else match LongestMatch(s, table)
      case None => [s[0]] + StrTr(s[1..], table)
      case Some(j) => table[j].1 + StrTr(s[|table[j].0|..], table)
  }

  /** Every `%` written twice. */
  function DoublePercent(s: string): string {
    if s == [] then [] else (if s[0] == '%' then "%%" else [s[0]]) + DoublePercent(s[1..])
  }

  lemma StartsWithHead(s: string, p: string)
    requires StartsWith(s, p) && p != []
    ensures s[0] == p[0]
  {
    assert s[..|p|][0] == s[0];
  }

  /** `strtr($msg, array('%' => '%%'))` doubles every `%`. */
  lemma {:induction false} DoublePercentIsStrTr(s: string)
    ensures StrTr(s, [("%", "%%")]) == DoublePercent(s)
    decreases |s|
  {
    var t: Table := [("%", "%%")];
    if s != [] {
      DoublePercentIsStrTr(s[1..]);
      LongestMatchSpec(s, t);
      if s[0] == '%' {
        assert s[..1] == "%";
        assert IsMatch(s, t, 0);
        assert LongestMatch(s, t) == Some(0);
      } else {
        if IsMatch(s, t, 0) {
          StartsWithHead(s, "%");
        }
        assert LongestMatch(s, t) == None;
      }
    }
  }

  // ----------------------------------------------------------- vsprintf

  /** Why PHP's `vsprintf` rejects a format (PHP 8 throws ValueError or ArgumentCountError). */
  datatype FormatError =
    | MissingSpecifier      // `%` at the end of the format
    | ArgumentNumberZero    // `%0$`
    | TooFewArguments       // a directive names an argument that was not passed
    | Unsupported(c: char)  // flags, width, or a conversion other than `s`: outside this model

  /** Number of leading decimal digits. */
  function DigitRun(s: string): (n: nat)
    ensures n <= |s|
    ensures forall i :: 0 <= i < n ==> IsDigit(s[i])
    ensures n < |s| ==> !IsDigit(s[n])
  {
    if s == [] || !IsDigit(s[0]) then 0 else 1 + DigitRun(s[1..])
  }

  /** A directive's argument index, the text after its argument part, and the next sequential index. */
  datatype Directive = Directive(arg: nat, rest: string, next: nat)

  /** `%N$...` names argument N (counted from 1); a bare `%...` takes the next argument in turn. */
  function ParseDirective(f: string, next: nat): (r: Result<Directive, FormatError>)
    requires |f| >= 2 && f[0] == '%'
    ensures r.Ok? ==> |r.value.rest| < |f|
  {
    var d := DigitRun(f[1..]);
    if 0 < d && 1 + d < |f| && f[1 + d] == '$' then
      var n := DigitsValue(f[1..1 + d]);
      if n == 0 then Err(ArgumentNumberZero) else Ok(Directive(n - 1, f[2 + d..], next))
    else
      Ok(Directive(next, f[1..], next + 1))
  }

  function Prepend(p: string, r: Result<string, FormatError>): Result<string, FormatError> {
    match r
    case Ok(x) => Ok(p + x)
    case Err(e) => Err(e)
  }

  /** PHP's formatted printing restricted to `%%`, `%s` and `%N$s`. */
  function Format(f: string, args: seq<string>, next: nat): Result<string, FormatError>
    decreases |f|
  {
    if f == [] then Ok([])
    else if f[0] != '%' then Prepend([f[0]], Format(f[1..], args, next))
    else if |f| == 1 then Err(MissingSpecifier)
    else if f[1] == '%' then Prepend("%", Format(f[2..], args, next))
    else match ParseDirective(f, next)
      case Err(e) => Err(e)
      case Ok(dir) =>
        if dir.rest == [] then Err(MissingSpecifier)
        else if dir.arg >= |args| then Err(TooFewArguments)
        else if dir.rest[0] != 's' then Err(Unsupported(dir.rest[0]))
        else Prepend(args[dir.arg], Format(dir.rest[1..], args, dir.next))
  }

  /** PHP `vsprintf($format, $args)`. */
  function VSprintf(f: string, args: seq<string>): Result<string, FormatError> {
    Format(f, args, 0)
  }

  // ------------------------------------------------------ injectContext

  /** The named form `$(key)`. */
  function Marker(k: string): string {
    "$(" + k + ")"
  }

  /** The positional form `%N$` for the entry at 0-based position i. */
  function Positional(i: nat): string {
    "%" + Dec(i + 1) + "$"
  }

  /** `array_combine($mapKeys, $mapValues)`: each key's marker paired with its position. */
  function Placeholders(ctx: Context): Table {
    seq(|ctx|, i requires 0 <= i < |ctx| => (Marker(ctx[i].0), Positional(i)))
  }

  /** `array_values($args)`, as `vsprintf` prints them. */
  function Values(ctx: Context): seq<string> {
    seq(|ctx|, i requires 0 <= i < |ctx| => AsString(ctx[i].1))
  }

  /** `injectContext($msg, $args)`. */
  function InjectContext(msg: string, args: Args): (r: Result<string, FormatError>)
    ensures args.NoArgs? ==> r == Ok(msg)
    ensures args.Assoc? && args.entries == [] ==> r == Ok(msg)
    ensures args.Scalar? ==> r == VSprintf(msg, [args.s])
  {
    match args
    case NoArgs => Ok(msg)
    case Scalar(v) => VSprintf(msg, [v])
    case Assoc(ctx) =>
      if ctx == [] then Ok(msg)
      else VSprintf(StrTr(StrTr(msg, [("%", "%%")]), Placeholders(ctx)), Values(ctx))
  }

  // ------------------------------------------------ facts about Format

  lemma PrependPrepend(a: string, b: string, r: Result<string, FormatError>)
    ensures Prepend(a, Prepend(b, r)) == Prepend(a + b, r)
  {
    if r.Ok? {
      assert a + (b + r.value) == (a + b) + r.value;
    }
  }

  /** `%%` prints one `%`. */
  lemma FormatPercent(tail: string, args: seq<string>, next: nat)
    ensures Format("%%" + tail, args, next) == Prepend("%", Format(tail, args, next))
  {
    var f := "%%" + tail;
    assert f[0] == '%' && f[1] == '%' && f[2..] == tail;
  }

  /** Any other character than `%` prints as itself. */
  lemma FormatLiteral(c: char, tail: string, args: seq<string>, next: nat)
    requires c != '%'
    ensures Format([c] + tail, args, next) == Prepend([c], Format(tail, args, next))
  {
    var f := [c] + tail;
    assert f[0] == c && f[1..] == tail;
  }

  /** A directive that parses and ends in `s` prints the argument it names. */
  lemma FormatString(f: string, args: seq<string>, next: nat, dir: Directive)
    requires |f| >= 2 && f[0] == '%' && f[1] != '%'
    requires ParseDirective(f, next) == Ok(dir)
    requires dir.rest != [] && dir.rest[0] == 's' && dir.arg < |args|
    ensures Format(f, args, next) == Prepend(args[dir.arg], Format(dir.rest[1..], args, dir.next))
  {
  }

  /** The first character of a doubled text prints as itself. */
  lemma FormatDoubledHead(t: string, rest: string, args: seq<string>, next: nat)
    requires t != []
    ensures Format(DoublePercent(t) + rest, args, next) == Prepend([t[0]], Format(DoublePercent(t[1..]) + rest, args, next))
  {
    var tail := DoublePercent(t[1..]) + rest;
    if t[0] == '%' {
      assert DoublePercent(t) + rest == "%%" + tail;
      FormatPercent(tail, args, next);
    } else {
      assert DoublePercent(t) + rest == [t[0]] + tail;
      FormatLiteral(t[0], tail, args, next);
    }
  }

  /** A doubled text formats back to itself, whatever follows it. */
  lemma {:induction false} FormatDoubled(t: string, rest: string, args: seq<string>, next: nat)
    ensures Format(DoublePercent(t) + rest, args, next) == Prepend(t, Format(rest, args, next))
    decreases |t|
  {
    var r := Format(rest, args, next);
    if t == [] {
      assert DoublePercent(t) + rest == rest;
      if r.Ok? {
        assert t + r.value == r.value;
      }
    } else {
      FormatDoubledHead(t, rest, args, next);
      FormatDoubled(t[1..], rest, args, next);
      PrependPrepend([t[0]], t[1..], r);
      assert [t[0]] + t[1..] == t;
    }
  }

  lemma {:induction false} DigitRunOf(digits: string, tail: string)
    requires AllDigits(digits)
    requires tail == [] || !IsDigit(tail[0])
    ensures DigitRun(digits + tail) == |digits|
    decreases |digits|
  {
    if digits == [] {
      assert digits + tail == tail;
    } else {
      assert (digits + tail)[1..] == digits[1..] + tail;
      DigitRunOf(digits[1..], tail);
    }
  }

  lemma SliceOfConcat(a: string, b: string, c: string)
    ensures (a + b + c)[|a|..|a| + |b|] == b
    ensures (a + b + c)[|a|..] == b + c
    ensures (a + b + c)[|a| + |b|..] == c
  {
  }

  /** `%N$s` parses as a reference to argument N, followed by `s`. */
  lemma ParsePositional(i: nat, rest: string, next: nat)
    ensures var f := Positional(i) + "s" + rest;
      |f| >= 2 && f[0] == '%' && f[1] != '%' &&
      ParseDirective(f, next) == Ok(Directive(i, "s" + rest, next))
  {
    var ds := Dec(i + 1);
    var f := Positional(i) + "s" + rest;
    var d := |ds|;
    var tail := "$s" + rest;
    assert f == "%" + ds + tail;
    SliceOfConcat("%", ds, tail);
    assert f[1..] == ds + tail;
    assert 0 < d && DigitRun(f[1..]) == d && f[1] != '%' by {
      DigitRunOf(ds, tail);
    }
    assert f[1 + d] == '$' && f[2 + d..] == "s" + rest;
    assert DigitsValue(f[1..1 + d]) == i + 1 by {
      DecValue(i + 1);
    }
  }

  /** `%N$s` prints the N-th argument. */
  lemma FormatPositional(i: nat, rest: string, args: seq<string>, next: nat)
    requires i < |args|
    ensures Format(Positional(i) + "s" + rest, args, next) == Prepend(args[i], Format(rest, args, next))
  {
    var dir := Directive(i, "s" + rest, next);
    ParsePositional(i, rest, next);
    FormatString(Positional(i) + "s" + rest, args, next, dir);
    assert dir.rest[1..] == rest;
  }

  // ------------------------------------------------ facts about StrTr

  predicate NoDollar(s: string) {
    forall i :: 0 <= i < |s| ==> s[i] != '$'
  }

  predicate KeysStartWithDollar(table: Table) {
    forall j :: 0 <= j < |table| ==> table[j].0 != [] && table[j].0[0] == '$'
  }

  /** Text without `$` passes through `strtr` unchanged when every key starts with `$`. */
  lemma {:induction false} StrTrSkipsText(a: string, b: string, table: Table)
    requires NoDollar(a) && KeysStartWithDollar(table)
    ensures StrTr(a + b, table) == a + StrTr(b, table)
    decreases |a|
  {
    if a == [] {
      assert a + b == b;
    } else {
      var s := a + b;
      LongestMatchSpec(s, table);
      forall j | 0 <= j < |table| ensures !IsMatch(s, table, j) {
        if IsMatch(s, table, j) {
          StartsWithHead(s, table[j].0);
        }
      }
      assert s[1..] == a[1..] + b;
      StrTrSkipsText(a[1..], b, table);
      assert [a[0]] + a[1..] == a;
    }
  }

  /** `strtr` changes nothing in a text where no key occurs. */
  lemma {:induction false} StrTrIdentity(s: string, table: Table)
    requires forall i, j :: 0 <= i < |s| && 0 <= j < |table| ==> !IsMatch(s[i..], table, j)
    ensures StrTr(s, table) == s
    decreases |s|
  {
    if s != [] {
      assert s[0..] == s;
      LongestMatchSpec(s, table);
      forall i, j | 0 <= i < |s[1..]| && 0 <= j < |table| ensures !IsMatch(s[1..][i..], table, j) {
        assert s[1..][i..] == s[i + 1..];
      }
      StrTrIdentity(s[1..], table);
      assert [s[0]] + s[1..] == s;
    }
  }

  /** A key may contain neither `%` nor `)`: true of every key this module builds. */
  predicate PlainKey(k: string) {
    forall i :: 0 <= i < |k| ==> k[i] != '%' && k[i] != ')'
  }

  ghost predicate PlainKeys(ctx: Context) {
    forall i :: 0 <= i < |ctx| ==> PlainKey(ctx[i].0)
  }

  /** Where a marker with a plain key starts, the first `)` after the `$(` closes it. */
  lemma MarkerShape(s: string, k: string)
    requires PlainKey(k) && StartsWith(s, Marker(k))
    ensures |s| >= |k| + 3
    ensures forall i :: 0 <= i < |k| ==> s[2 + i] == k[i] && s[2 + i] != ')'
    ensures s[2 + |k|] == ')'
  {
    var m := Marker(k);
    forall i | 0 <= i < |k| ensures s[2 + i] == k[i] {
      assert s[..|m|][2 + i] == s[2 + i];
      assert m[2 + i] == k[i];
    }
    assert s[..|m|][2 + |k|] == s[2 + |k|];
  }

  /** With plain keys, at most one key's marker starts at a given point. */
  lemma MarkerPrefixUnique(s: string, k: string, k': string)
    requires PlainKey(k) && PlainKey(k')
    requires StartsWith(s, Marker(k)) && StartsWith(s, Marker(k'))
    ensures k == k'
  {
    MarkerShape(s, k);
    MarkerShape(s, k');
    assert |k| == |k'|;
  }

  lemma PlaceholdersStartWithDollar(ctx: Context)
    ensures KeysStartWithDollar(Placeholders(ctx))
  {
  }

  /** `strtr` rewrites `$(k)` into the positional specifier of `k`'s position. */
  lemma StrTrMarker(k: string, rest: string, ctx: Context, j: nat)
    requires UniqueKeys(ctx) && PlainKeys(ctx)
    requires j < |ctx| && ctx[j].0 == k
    ensures StrTr(Marker(k) + rest, Placeholders(ctx)) == Positional(j) + StrTr(rest, Placeholders(ctx))
  {
    var table := Placeholders(ctx);
    var s := Marker(k) + rest;
    assert s[..|Marker(k)|] == Marker(k);
    assert IsMatch(s, table, j);
    var r := LongestMatch(s, table);
    LongestMatchSpec(s, table);
    assert r.Some?;
    MarkerPrefixUnique(s, k, ctx[r.value].0);
    assert r.value == j;
    assert s[|Marker(k)|..] == rest;
  }

  // ----------------------------------------- templates built from pieces

  /** A template as a sequence of literal text and `$(key)s` references. */
  datatype Piece = Text(t: string) | Ref(key: string)

  function PieceText(p: Piece): string {
    match p
    case Text(t) => t
    case Ref(k) => Marker(k) + "s"
  }

  function Template(ps: seq<Piece>): string {
    if ps == [] then [] else PieceText(ps[0]) + Template(ps[1..])
  }

  function ValueOf(ctx: Context, k: string): string {
    match Get(ctx, k)
    case Some(v) => AsString(v)
    case None => ""
  }

  /** What the template means: its text with every reference replaced by the referenced value. */
  function Rendered(ps: seq<Piece>, ctx: Context): string {
    if ps == [] then []
    else
      (match ps[0]
       case Text(t) => t
       case Ref(k) => ValueOf(ctx, k)) + Rendered(ps[1..], ctx)
  }

  /** The template after `%` doubling. */
  function Doubled(ps: seq<Piece>): string {
    if ps == [] then [] else DoubledPiece(ps[0]) + Doubled(ps[1..])
  }

  function DoubledPiece(p: Piece): string {
    match p
    case Text(t) => DoublePercent(t)
    case Ref(k) => Marker(k) + "s"
  }

  function PositionOf(ctx: Context, k: string): nat {
    match Find(ctx, k)
    case Some(i) => i
    case None => 0
  }

  /** The template after `%` doubling and the rewriting of markers. */
  function Positioned(ps: seq<Piece>, ctx: Context): string {
    if ps == [] then []
    else
      (match ps[0]
       case Text(t) => DoublePercent(t)
       case Ref(k) => Positional(PositionOf(ctx, k)) + "s") + Positioned(ps[1..], ctx)
  }

  /** Literal text holds no `$`, every reference names a key of the context, keys are plain and unique. */
  ghost predicate WellFormed(ps: seq<Piece>, ctx: Context) {
    && UniqueKeys(ctx)
    && PlainKeys(ctx)
    && (forall i :: 0 <= i < |ps| && ps[i].Text? ==> NoDollar(ps[i].t))
    && (forall i :: 0 <= i < |ps| && ps[i].Ref? ==> HasKey(ctx, ps[i].key) && PlainKey(ps[i].key))
  }

  lemma WellFormedTail(ps: seq<Piece>, ctx: Context)
    requires ps != [] && WellFormed(ps, ctx)
    ensures WellFormed(ps[1..], ctx)
  {
    forall i | 0 <= i < |ps[1..]| ensures ps[1..][i] == ps[i + 1] {}
  }

  lemma {:induction false} DoublePercentConcat(a: string, b: string)
    ensures DoublePercent(a + b) == DoublePercent(a) + DoublePercent(b)
    decreases |a|
  {
    if a == [] {
      assert a + b == b;
    } else {
      assert (a + b)[0] == a[0] && (a + b)[1..] == a[1..] + b;
      DoublePercentConcat(a[1..], b);
    }
  }

  lemma {:induction false} DoublePercentNoPercent(s: string)
    requires forall i :: 0 <= i < |s| ==> s[i] != '%'
    ensures DoublePercent(s) == s
    decreases |s|
  {
    if s != [] {
      DoublePercentNoPercent(s[1..]);
      assert [s[0]] + s[1..] == s;
    }
  }

  lemma {:induction false} DoublePercentNoDollar(s: string)
    requires NoDollar(s)
    ensures NoDollar(DoublePercent(s))
    decreases |s|
  {
    if s != [] {
      DoublePercentNoDollar(s[1..]);
      var h: string := if s[0] == '%' then "%%" else [s[0]];
      assert DoublePercent(s) == h + DoublePercent(s[1..]);
    }
  }

  /** A reference's text holds no `%`, so doubling a piece's text gives its doubled form. */
  lemma PieceDoubled(p: Piece)
    requires p.Ref? ==> PlainKey(p.key)
    ensures DoublePercent(PieceText(p)) == DoubledPiece(p)
  {
    if p.Ref? {
      DoublePercentNoPercent(Marker(p.key) + "s");
    }
  }

  lemma {:induction false} TemplateDoubled(ps: seq<Piece>, ctx: Context)
    requires WellFormed(ps, ctx)
    ensures DoublePercent(Template(ps)) == Doubled(ps)
    decreases |ps|
  {
    if ps != [] {
      WellFormedTail(ps, ctx);
      calc {
        DoublePercent(Template(ps));
        DoublePercent(PieceText(ps[0]) + Template(ps[1..]));
        { DoublePercentConcat(PieceText(ps[0]), Template(ps[1..])); }
        DoublePercent(PieceText(ps[0])) + DoublePercent(Template(ps[1..]));
        { assert ps[0].Ref? ==> PlainKey(ps[0].key);
          PieceDoubled(ps[0]);
          TemplateDoubled(ps[1..], ctx); }
        DoubledPiece(ps[0]) + Doubled(ps[1..]);
      }
    }
  }

  lemma {:induction false} DoubledPositioned(ps: seq<Piece>, ctx: Context)
    requires WellFormed(ps, ctx)
    ensures StrTr(Doubled(ps), Placeholders(ctx)) == Positioned(ps, ctx)
    decreases |ps|
  {
    var table := Placeholders(ctx);
    PlaceholdersStartWithDollar(ctx);
    if ps == [] {
    } else {
      WellFormedTail(ps, ctx);
      DoubledPositioned(ps[1..], ctx);
      match ps[0]
      case Text(t) =>
        assert NoDollar(ps[0].t);
        DoublePercentNoDollar(t);
        StrTrSkipsText(DoublePercent(t), Doubled(ps[1..]), table);
      case Ref(k) =>
        assert HasKey(ctx, ps[0].key);
        var j := PositionOf(ctx, k);
        var rest := Doubled(ps[1..]);
        calc {
          StrTr(Doubled(ps), table);
          StrTr(Marker(k) + "s" + rest, table);
          { ConcatAssoc3(Marker(k), "s", rest); }
          StrTr(Marker(k) + ("s" + rest), table);
          { StrTrMarker(k, "s" + rest, ctx, j); }
          Positional(j) + StrTr("s" + rest, table);
          { StrTrSkipsText("s", rest, table); }
          Positional(j) + ("s" + StrTr(rest, table));
          { ConcatAssoc3(Positional(j), "s", StrTr(rest, table)); }
          Positional(j) + "s" + Positioned(ps[1..], ctx);
        }
    }
  }

  lemma {:induction false} PositionedRenders(ps: seq<Piece>, ctx: Context, next: nat)
    requires WellFormed(ps, ctx)
    ensures Format(Positioned(ps, ctx), Values(ctx), next) == Ok(Rendered(ps, ctx))
    decreases |ps|
  {
    if ps == [] {
    } else {
      WellFormedTail(ps, ctx);
      PositionedRenders(ps[1..], ctx, next);
      var rest := Positioned(ps[1..], ctx);
      match ps[0]
      case Text(t) =>
        FormatDoubled(t, rest, Values(ctx), next);
      case Ref(k) =>
        assert HasKey(ctx, ps[0].key);
        var j := PositionOf(ctx, k);
        assert Positional(j) + "s" + rest == Positioned(ps, ctx);
        FormatPositional(j, rest, Values(ctx), next);
        assert Values(ctx)[j] == ValueOf(ctx, k);
    }
  }

  // --------------------------------------------------- the formatter's contract

  /** A scalar behaves as `sprintf($msg, $scalar)`: `%s` takes it, `%%` prints `%`. */
  lemma InjectScalar(before: string, v: string, after: string)
    requires NoDollar(before) && forall i :: 0 <= i < |before| ==> before[i] != '%'
    requires forall i :: 0 <= i < |after| ==> after[i] != '%'
    ensures InjectContext(before + "%s" + after, Scalar(v)) == Ok(before + v + after)
  {
    var g := "%s" + after;
    assert Format(g, [v], 0) == Ok(v + after) by {
      var dir := Directive(0, "s" + after, 1);
      assert g[1..] == "s" + after;
      assert ParseDirective(g, 0) == Ok(dir);
      FormatString(g, [v], 0, dir);
      assert dir.rest[1..] == after;
      assert Format(after, [v], 1) == Ok(after) by {
        DoublePercentNoPercent(after);
        FormatDoubled(after, "", [v], 1);
        assert DoublePercent(after) + "" == after;
        assert after + "" == after;
      }
    }
    calc {
      InjectContext(before + "%s" + after, Scalar(v));
      Format(before + "%s" + after, [v], 0);
      { DoublePercentNoPercent(before);
        ConcatAssoc3(before, "%s", after); }
      Format(DoublePercent(before) + g, [v], 0);
      { FormatDoubled(before, g, [v], 0); }
      Prepend(before, Format(g, [v], 0));
      Ok(before + (v + after));
      { ConcatAssoc3(before, v, after); }
      Ok(before + v + after);
    }
  }

  /**
   * Every reference `$(k)s` in a template prints the value of `k`, literal
   * text (with any `%`) prints as itself, and unreferenced keys are ignored.
   */
  lemma InjectRendersTemplate(ps: seq<Piece>, ctx: Context)
    requires ctx != [] && WellFormed(ps, ctx)
    ensures InjectContext(Template(ps), Assoc(ctx)) == Ok(Rendered(ps, ctx))
  {
    DoublePercentIsStrTr(Template(ps));
    TemplateDoubled(ps, ctx);
    DoubledPositioned(ps, ctx);
    PositionedRenders(ps, ctx, 0);
  }

  /** A template in which no key's marker occurs after `%` doubling renders to itself. */
  lemma InjectWithoutMarkers(t: string, ctx: Context)
    requires ctx != []
    requires forall i, j :: 0 <= i < |DoublePercent(t)| && 0 <= j < |ctx| ==> !StartsWith(DoublePercent(t)[i..], Marker(ctx[j].0))
    ensures InjectContext(t, Assoc(ctx)) == Ok(t)
  {
    DoublePercentIsStrTr(t);
    var table := Placeholders(ctx);
    StrTrIdentity(DoublePercent(t), table);
    FormatDoubled(t, "", Values(ctx), 0);
    assert DoublePercent(t) + "" == DoublePercent(t);
    assert t + "" == t;
  }

  /** In particular a template without `$` renders to itself: "100%" stays "100%". */
  lemma InjectPlainText(t: string, ctx: Context)
    requires ctx != [] && NoDollar(t)
    ensures InjectContext(t, Assoc(ctx)) == Ok(t)
  {
    DoublePercentNoDollar(t);
    var d := DoublePercent(t);
    forall i, j | 0 <= i < |d| && 0 <= j < |ctx| ensures !StartsWith(d[i..], Marker(ctx[j].0)) {
      if StartsWith(d[i..], Marker(ctx[j].0)) {
        StartsWithHead(d[i..], Marker(ctx[j].0));
      }
    }
    InjectWithoutMarkers(t, ctx);
  }

  /** The template `"$(b)s-$(a)s"` as pieces. */
  lemma ExampleTemplate(ps: seq<Piece>)
    requires ps == [Ref("b"), Text("-"), Ref("a")]
    ensures Template(ps) == "$(b)s-$(a)s"
  {
    assert Template(ps[2..]) == "$(a)s";
    assert Template(ps[1..]) == "-$(a)s";
  }

  /** Over `[a => "A", b => "B"]` its rendering is `"B-A"`. */
  lemma ExampleRendered(ps: seq<Piece>, ctx: Context)
    requires ps == [Ref("b"), Text("-"), Ref("a")] && ctx == [("a", Str("A")), ("b", Str("B"))]
    ensures Rendered(ps, ctx) == "B-A"
  {
    assert ctx[0].0 == "a" && ctx[1].0 == "b";
    assert Find(ctx[1..], "b") == Some(0);
    assert ValueOf(ctx, "b") == "B";
    assert ValueOf(ctx, "a") == "A";
    assert Rendered(ps[2..], ctx) == "A";
    assert Rendered(ps[1..], ctx) == "-A";
  }

  lemma ExampleWellFormed(ps: seq<Piece>, ctx: Context)
    requires ps == [Ref("b"), Text("-"), Ref("a")] && ctx == [("a", Str("A")), ("b", Str("B"))]
    ensures WellFormed(ps, ctx)
  {
    assert ctx[0].0 == "a" && ctx[1].0 == "b";
    assert UniqueKeys(ctx);
    assert PlainKeys(ctx);
    assert HasKey(ctx, "a") && HasKey(ctx, "b");
  }

  /** `"$(b)s-$(a)s"` over `[a => "A", b => "B"]` is `"B-A"`. */
  lemma InjectSelectsByPosition()
    ensures InjectContext("$(b)s-$(a)s", Assoc([("a", Str("A")), ("b", Str("B"))])) == Ok("B-A")
  {
    var ctx: Context := [("a", Str("A")), ("b", Str("B"))];
    var ps := [Ref("b"), Text("-"), Ref("a")];
    ExampleTemplate(ps);
    ExampleRendered(ps, ctx);
    ExampleWellFormed(ps, ctx);
    InjectRendersTemplate(ps, ctx);
  }
}
