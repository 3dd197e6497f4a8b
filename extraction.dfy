/**
 * Turning the response into context variables: `processResponse`
 * (src/WebGetter.php) and `_processResponse` (src/Erebot/Module/WebGetter.php).
 * For `i = 1, 2, …` while `<index>.vars.<i>` is configured, the XPath
 * expression it holds is formatted against the context built so far,
 * evaluated on the document, and the result is stored under `vars.<i>`.
 * The HTML parser and the XPath engine are not modelled: a document is the
 * function from an expression to its result, plus the encoding the document
 * declares.
 */
module Extraction {
  import opened Wrappers
  import opened PhpStrings
  import opened PhpArray
  import opened Config
  import opened Formatter

  /**
   * What evaluating an expression gives, each node reduced to its `textContent`.
   * `DOMXPath::query` gives only a node list or `false`; `evaluate` may also
   * give a single node or a scalar.
   */
  datatype XPathResult =
    | NodeList(texts: seq<string>)
    | SingleNode(text: string)
    | StringResult(s: string)   // a scalar result, as the string PHP makes of it
    | Failed                    // `false`: the expression was rejected

  /** The parsed response body; `encoding` is "" when the document declares none. */
  datatype Document = Document(query: string -> XPathResult, encoding: string)

  /** `Utils::toUTF8(text, encoding)`, or None when it throws. */
  type Converter = (string, string) -> Option<string>

  /** The two variants differ only in what they make of a result. */
  datatype Variant = Namespaced | Legacy

  // ------------------------------------------------ the namespaced variant

  /** `$domdoc->encoding ? $domdoc->encoding : 'UTF-8'`. */
  function DocEncoding(declared: string): (e: string)
    ensures e != ""
    ensures declared != "" && declared != "0" ==> e == declared
    ensures declared == "" || declared == "0" ==> e == "UTF-8"
  {
    if declared == "" || declared == "0" then "UTF-8" else declared
  }

  /** A node's text: HTML-escaped, then trimmed unless the trigger is marked `pre`. */
  function CleanText(text: string, pre: bool): string {
    var escaped := HtmlSpecialChars(text);
    if pre then escaped else Trim(escaped)
  }

  /** A cleaned text holds no raw markup character and, without `pre`, no surrounding blanks. */
  lemma CleanTextSafe(text: string, pre: bool)
    ensures forall i :: 0 <= i < |CleanText(text, pre)| ==> !IsHtmlSpecial(CleanText(text, pre)[i])
    ensures !pre ==> Trim(CleanText(text, pre)) == CleanText(text, pre)
  {
    var e := HtmlSpecialChars(text);
    HtmlSpecialCharsSafe(text);
    if !pre {
      TrimSlice(e);
      TrimIdempotent(e);
      var a := LeadingTrim(e);
      forall i | 0 <= i < |Trim(e)| ensures !IsHtmlSpecial(Trim(e)[i]) {
        assert Trim(e)[i] == e[a + i];
      }
    }
  }

  /** The node texts the list loop keeps: cleaned, and only the non-empty ones. */
  function CleanNodes(texts: seq<string>, pre: bool): seq<string>
    decreases |texts|
  {
    if texts == [] then []
    else
      var c := CleanText(texts[|texts| - 1], pre);
      CleanNodes(texts[..|texts| - 1], pre) + (if c != "" then [c] else [])
  }

  /** The inner loop over the nodes of a list. */
  method CleanNodeList(texts: seq<string>, pre: bool) returns (r: seq<string>)
    ensures r == CleanNodes(texts, pre)
  {
    r := [];
    var j := 0;
    while j < |texts|
      invariant 0 <= j <= |texts|
      invariant r == CleanNodes(texts[..j], pre)
    {
      assert texts[..j + 1][..j] == texts[..j];
      var textContent := HtmlSpecialChars(texts[j]);
      if !pre {
        textContent := Trim(textContent);
      }
      if textContent != "" {
        r := r + [textContent];
      }
      j := j + 1;
    }
    assert texts[..|texts|] == texts;
  }

  /** The non-empty strings of `xs`, in order. */
  function NonEmpty(xs: seq<string>): (r: seq<string>)
    ensures forall k :: 0 <= k < |r| ==> r[k] != ""
    ensures |r| <= |xs|
  {
    if xs == [] then [] else (if xs[0] != "" then [xs[0]] else []) + NonEmpty(xs[1..])
  }

  lemma {:induction false} NonEmptySnoc(xs: seq<string>, x: string)
    ensures NonEmpty(xs + [x]) == NonEmpty(xs) + (if x != "" then [x] else [])
    decreases |xs|
  {
    if xs != [] {
      assert (xs + [x])[1..] == xs[1..] + [x];
      NonEmptySnoc(xs[1..], x);
    } else {
      assert NonEmpty([x]) == (if x != "" then [x] else []) + NonEmpty([]);
    }
  }

  lemma NonEmptyMembers(xs: seq<string>)
    ensures forall x :: x in NonEmpty(xs) <==> x in xs && x != ""
  {
  }

  /** Every node text cleaned, in order. */
  function Cleaned(texts: seq<string>, pre: bool): (r: seq<string>)
    ensures |r| == |texts|
    decreases |texts|
  {
    if texts == [] then [] else Cleaned(texts[..|texts| - 1], pre) + [CleanText(texts[|texts| - 1], pre)]
  }

  lemma {:induction false} CleanedAt(texts: seq<string>, pre: bool, k: nat)
    requires k < |texts|
    ensures Cleaned(texts, pre)[k] == CleanText(texts[k], pre)
    decreases |texts|
  {
    if k < |texts| - 1 {
      var front := texts[..|texts| - 1];
      CleanedAt(front, pre, k);
      assert front[k] == texts[k];
    }
  }

  /**
   * The list loop keeps, in order, exactly the node texts that are not empty
   * once cleaned.
   */
  lemma {:induction false} CleanNodesFilters(texts: seq<string>, pre: bool)
    ensures CleanNodes(texts, pre) == NonEmpty(Cleaned(texts, pre))
    decreases |texts|
  {
    if texts != [] {
      var front := texts[..|texts| - 1];
      CleanNodesFilters(front, pre);
      NonEmptySnoc(Cleaned(front, pre), CleanText(texts[|texts| - 1], pre));
    }
  }

  /** A text is kept exactly when it is the non-empty cleaned text of some node. */
  lemma CleanNodesMembers(texts: seq<string>, pre: bool)
    ensures forall x :: x in CleanNodes(texts, pre) <==> x != "" && exists k :: 0 <= k < |texts| && CleanText(texts[k], pre) == x
  {
    var cleaned := Cleaned(texts, pre);
    CleanNodesFilters(texts, pre);
    NonEmptyMembers(cleaned);
    forall x ensures x in cleaned <==> exists k :: 0 <= k < |texts| && CleanText(texts[k], pre) == x {
      if x in cleaned {
        var k :| 0 <= k < |cleaned| && cleaned[k] == x;
        CleanedAt(texts, pre, k);
      }
      if exists k :: 0 <= k < |texts| && CleanText(texts[k], pre) == x {
        var k :| 0 <= k < |texts| && CleanText(texts[k], pre) == x;
        CleanedAt(texts, pre, k);
      }
    }
  }

  /** Conversion of each item with `toUTF8`: all of them, or, when one fails, none. */
  function ConvertEach(items: seq<string>, encoding: string, convert: Converter): Option<seq<string>> {
    if items == [] then Some([])
    else match (convert(items[0], encoding), ConvertEach(items[1..], encoding, convert))
      case (Some(x), Some(xs)) => Some([x] + xs)
      case _ => None
  }

  /** The `array_map` of `toUTF8` in its `try`: a failure leaves the list as it was. */
  function ConvertAll(items: seq<string>, encoding: string, convert: Converter): seq<string> {
    match ConvertEach(items, encoding, convert)
    case Some(xs) => xs
    case None => items
  }

  /** Either every item is converted, or some item fails and the list is kept unchanged. */
  lemma {:induction false} ConvertAllSpec(items: seq<string>, encoding: string, convert: Converter)
    ensures |ConvertAll(items, encoding, convert)| == |items|
    ensures (forall k :: 0 <= k < |items| ==> convert(items[k], encoding).Some?) ==>
      forall k :: 0 <= k < |items| ==> ConvertAll(items, encoding, convert)[k] == convert(items[k], encoding).value
    ensures (exists k :: 0 <= k < |items| && convert(items[k], encoding).None?) ==>
      ConvertAll(items, encoding, convert) == items
    decreases |items|
  {
    ConvertEachSpec(items, encoding, convert);
  }

  lemma {:induction false} ConvertEachSpec(items: seq<string>, encoding: string, convert: Converter)
    ensures ConvertEach(items, encoding, convert).Some? <==> forall k :: 0 <= k < |items| ==> convert(items[k], encoding).Some?
    ensures ConvertEach(items, encoding, convert).Some? ==>
      |ConvertEach(items, encoding, convert).value| == |items| &&
      forall k :: 0 <= k < |items| ==> ConvertEach(items, encoding, convert).value[k] == convert(items[k], encoding).value
    decreases |items|
  {
    if items != [] {
      ConvertEachSpec(items[1..], encoding, convert);
      assert forall k :: 1 <= k < |items| ==> items[k] == items[1..][k - 1];
    }
  }

  /** `switch (count($res))`: nothing is "", one item is that item, more stay a list. */
  function Collapse(items: seq<string>): (v: Value)
    ensures v.Arr? ==> v.items == items && |items| >= 2
    ensures v.Str? ==> |items| <= 1 && v.s == (if items == [] then "" else items[0])
  {
    if |items| == 0 then Str("") else if |items| == 1 then Str(items[0]) else Arr(items)
  }

  /** The list the code goes on with after looking at the kind of result. */
  function Selected(res: XPathResult, pre: bool): seq<string> {
    match res
    case NodeList(texts) => CleanNodes(texts, pre)
    case SingleNode(text) => [CleanText(text, pre)]
    case StringResult(s) => [s]
    case Failed => [""]
  }

  /** The value one expression would give if the string branch kept its string. */
  function ExtractValue(res: XPathResult, pre: bool, encoding: string, convert: Converter): Value {
    Collapse(ConvertAll(Selected(res, pre), encoding, convert))
  }

  /**
   * The value as the code computes it: the string branch keeps `$res` a
   * string, `array_map` then yields null on it, and `count(null)` is 0, so
   * the value becomes "".
   */
  function ExtractAsWritten(res: XPathResult, pre: bool, encoding: string, convert: Converter): Value {
    if res.StringResult? then Str("") else ExtractValue(res, pre, encoding, convert)
  }

  /** The results `DOMXPath::query` can give. */
  predicate IsQueryResult(res: XPathResult) {
    res.NodeList? || res.Failed?
  }

  /** On every result `query` can give, the code as written and the corrected branch agree. */
  lemma QueryResultsAgree(res: XPathResult, pre: bool, encoding: string, convert: Converter)
    ensures IsQueryResult(res) ==> ExtractAsWritten(res, pre, encoding, convert) == ExtractValue(res, pre, encoding, convert)
    ensures !IsQueryResult(res) ==> res.SingleNode? || res.StringResult?
  {
  }

  /** As written, a string result is lost, whatever it is. */
  lemma StringResultLost(s: string, pre: bool, encoding: string, convert: Converter)
    ensures ExtractAsWritten(StringResult(s), pre, encoding, convert) == Str("")
    ensures s != "" && convert(s, encoding) == Some(s) ==>
      ExtractAsWritten(StringResult(s), pre, encoding, convert) != ExtractValue(StringResult(s), pre, encoding, convert)
  {
    ConvertAllSpec([s], encoding, convert);
  }

  /** Corrected, a string result is stored, converted when the conversion succeeds. */
  lemma StringResultKept(s: string, pre: bool, encoding: string, convert: Converter)
    ensures ExtractValue(StringResult(s), pre, encoding, convert) == Str(convert(s, encoding).GetOr(s))
  {
    ConvertAllSpec([s], encoding, convert);
  }

  /**
   * A node list gives "" when no node has text, the one text when one has,
   * and otherwise the list of the non-empty cleaned texts in order, each
   * converted.
   */
  lemma NodeListValue(texts: seq<string>, pre: bool, encoding: string, convert: Converter)
    ensures var kept := NonEmpty(Cleaned(texts, pre));
      var v := ExtractAsWritten(NodeList(texts), pre, encoding, convert);
      && (kept == [] ==> v == Str(""))
      && (|kept| == 1 ==> v == Str(ConvertAll(kept, encoding, convert)[0]))
      && (|kept| >= 2 ==> v == Arr(ConvertAll(kept, encoding, convert)))
  {
    CleanNodesFilters(texts, pre);
    ConvertAllSpec(NonEmpty(Cleaned(texts, pre)), encoding, convert);
  }

  /** A single node gives its cleaned text, converted when that succeeds. */
  lemma SingleNodeValue(text: string, pre: bool, encoding: string, convert: Converter)
    ensures ExtractAsWritten(SingleNode(text), pre, encoding, convert) == Str(convert(CleanText(text, pre), encoding).GetOr(CleanText(text, pre)))
  {
    ConvertAllSpec([CleanText(text, pre)], encoding, convert);
  }

  // --------------------------------------------------- the legacy variant

  /** The node texts joined with `.=`. */
  function Concat(texts: seq<string>): string
    decreases |texts|
  {
    if texts == [] then "" else Concat(texts[..|texts| - 1]) + texts[|texts| - 1]
  }

  lemma {:induction false} ConcatAppend(a: seq<string>, b: seq<string>)
    ensures Concat(a + b) == Concat(a) + Concat(b)
    decreases |b|
  {
    if b != [] {
      assert (a + b)[..|a + b| - 1] == a + b[..|b| - 1];
      ConcatAppend(a, b[..|b| - 1]);
    } else {
      assert a + b == a;
    }
  }

  /** The `foreach` that joins the texts of a node list. */
  method ConcatTexts(texts: seq<string>) returns (r: string)
    ensures r == Concat(texts)
  {
    r := "";
    for j := 0 to |texts|
      invariant r == Concat(texts[..j])
    {
      assert texts[..j + 1][..j] == texts[..j];
      r := r + texts[j];
    }
    assert texts[..|texts|] == texts;
  }

  /** What `_processResponse` stores: the text of the result, converted only when an encoding is configured. */
  function LegacyExtract(res: XPathResult, encoding: Option<string>, convert: Converter): string {
    var text := match res
      case NodeList(texts) => Concat(texts)
      case SingleNode(t) => t
      case StringResult(s) => s
      case Failed => "";
    match encoding
    case None => text
    case Some(e) => convert(text, e).GetOr(text)
  }

  /** The legacy variant flattens a list into one string, each text in its place, neither escaped nor trimmed. */
  lemma LegacyListValue(texts: seq<string>, encoding: Option<string>, convert: Converter)
    ensures encoding.None? ==> LegacyExtract(NodeList(texts), encoding, convert) == Concat(texts)
    ensures forall k :: 0 <= k < |texts| ==> Concat(texts) == Concat(texts[..k]) + texts[k] + Concat(texts[k + 1..])
  {
    forall k | 0 <= k < |texts|
      ensures Concat(texts) == Concat(texts[..k]) + texts[k] + Concat(texts[k + 1..])
    {
      ConcatAt(texts, k);
    }
  }

  lemma ConcatAt(texts: seq<string>, k: nat)
    requires k < |texts|
    ensures Concat(texts) == Concat(texts[..k]) + texts[k] + Concat(texts[k + 1..])
  {
    var front := texts[..k + 1];
    assert texts == front + texts[k + 1..];
    ConcatAppend(front, texts[k + 1..]);
    assert front[..|front| - 1] == texts[..k];
  }

  // ----------------------------------------------------- the variable loop

  /** The context key of variable i. */
  function VarKey(i: nat): string {
    "vars." + Dec(i)
  }

  lemma VarKeyInjective(a: nat, b: nat)
    requires VarKey(a) == VarKey(b)
    ensures a == b
  {
    assert "vars." + Dec(a) + "" == "vars." + Dec(b) + "";
    DecInContext("vars.", a, b, "");
  }

  function PreKey(index: nat): string {
    Dec(index) + ".pre"
  }

  /** Expressions 1 .. j-1 are configured. */
  ghost predicate VarsExist(cfg: Config, index: nat, j: nat) {
    forall i :: 1 <= i < j ==> KeyOf(Var(index), i) in cfg
  }

  /** The n such that expressions 1 .. n-1 are configured and n is not. */
  function VarCount(cfg: Config, index: nat): (n: nat)
    ensures n >= 1 && KeyOf(Var(index), n) !in cfg && VarsExist(cfg, index, n)
  {
    var n := RunEnd(cfg, Var(index), 1);
    assert VarsExist(cfg, index, n) by {
      forall i | 1 <= i < n ensures KeyOf(Var(index), i) in cfg {
        assert Present(cfg, Var(index), i);
      }
    }
    n
  }

  /** The loop stops at the first missing expression, which is the count. */
  lemma VarCountAt(cfg: Config, index: nat, i: nat)
    requires 1 <= i <= VarCount(cfg, index) && KeyOf(Var(index), i) !in cfg
    ensures i == VarCount(cfg, index)
  {
  }

  /** The value variable i takes, given the result of its expression. */
  function Extracted(variant: Variant, cfg: Config, index: nat, doc: Document, encoding: Option<string>, convert: Converter, res: XPathResult): Value {
    match variant
    case Namespaced => ExtractAsWritten(res, PreKey(index) in cfg, encoding.GetOr(DocEncoding(doc.encoding)), convert)
    case Legacy => Str(LegacyExtract(res, encoding, convert))
  }

  /** One expression: formatted against the context, then evaluated on the document. */
  function Evaluate(variant: Variant, cfg: Config, index: nat, doc: Document, encoding: Option<string>, convert: Converter, template: string, ctx: Context): Result<Value, FormatError> {
    match InjectContext(template, Assoc(ctx))
    case Err(e) => Err(e)
    case Ok(expr) => Ok(Extracted(variant, cfg, index, doc, encoding, convert, doc.query(expr)))
  }

  /** What one expression gives against the context so far. */
  type Evaluator = (string, Context) -> Result<Value, FormatError>

  /**
   * The context expression i is evaluated against: the start context with
   * variables 1 .. i-1 stored, or the first failure. `Before`, `After` and
   * `ValueOf` are defined together, one variable at a time.
   */
  function Before(cfg: Config, index: nat, eval: Evaluator, ctx0: Context, i: nat): Result<Context, FormatError>
    requires 1 <= i && VarsExist(cfg, index, i)
    decreases i, 0
  {
    if i == 1 then Ok(ctx0) else After(cfg, index, eval, ctx0, i - 1)
  }

  /** The context once variable i is stored. */
  function After(cfg: Config, index: nat, eval: Evaluator, ctx0: Context, i: nat): Result<Context, FormatError>
    requires 1 <= i && VarsExist(cfg, index, i + 1)
    decreases i, 2
  {
    match Before(cfg, index, eval, ctx0, i)
    case Err(e) => Err(e)
    case Ok(ctx) =>
      match ValueOf(cfg, index, eval, ctx0, i)
      case Err(e) => Err(e)
      case Ok(v) => Ok(Put(ctx, VarKey(i), v))
  }

  /** The value of variable i: expression i evaluated against `Before(i)`. */
  function ValueOf(cfg: Config, index: nat, eval: Evaluator, ctx0: Context, i: nat): Result<Value, FormatError>
    requires 1 <= i && VarsExist(cfg, index, i + 1)
    decreases i, 1
  {
    match Before(cfg, index, eval, ctx0, i)
    case Err(e) => Err(e)
    case Ok(ctx) => eval(cfg[KeyOf(Var(index), i)], ctx)
  }

  function EvaluatorOf(variant: Variant, cfg: Config, index: nat, doc: Document, encoding: Option<string>, convert: Converter): Evaluator {
    (t, ctx) => Evaluate(variant, cfg, index, doc, encoding, convert, t, ctx)
  }

  /** The context the loop leaves, or the formatting failure that stopped it. */
  function ProcessResult(variant: Variant, cfg: Config, index: nat, doc: Document, encoding: Option<string>, convert: Converter, ctx0: Context): Result<Context, FormatError> {
    Before(cfg, index, EvaluatorOf(variant, cfg, index, doc, encoding, convert), ctx0, VarCount(cfg, index))
  }

  /** Once a failure has stopped the loop, it is the result. */
  lemma {:induction false} ErrorStays(cfg: Config, index: nat, eval: Evaluator, ctx0: Context, j: nat, k: nat)
    requires 1 <= j <= k && VarsExist(cfg, index, k)
    requires Before(cfg, index, eval, ctx0, j).Err?
    ensures Before(cfg, index, eval, ctx0, k) == Before(cfg, index, eval, ctx0, j)
    decreases k - j
  {
    if j < k {
      ErrorStays(cfg, index, eval, ctx0, j, k - 1);
    }
  }

  /** The type dispatch and conversion of lines 389-449 of src/WebGetter.php, as written. */
  method Extract(res: XPathResult, pre: bool, encoding: string, convert: Converter) returns (v: Value)
    ensures v == ExtractAsWritten(res, pre, encoding, convert)
    ensures IsQueryResult(res) ==> v == ExtractValue(res, pre, encoding, convert)
  {
    if res.StringResult? {
      // `count` of a string is 1, `array_map` gives null on it, and `count(null)` is 0
      return Str("");
    }
    var selected: seq<string> := [""];
    match res {
      case SingleNode(text) =>
        selected := [CleanText(text, pre)];
      case NodeList(texts) =>
        selected := CleanNodeList(texts, pre);
      case _ =>
    }
    v := Collapse(ConvertAll(selected, encoding, convert));
  }

  /** One turn of the loop of `processResponse`: format expression i, evaluate it, store the value. */
  method ProcessVariable(cfg: Config, index: nat, doc: Document, encoding: Option<string>, convert: Converter, ctx0: Context, i: nat, ctx: Context)
    returns (r: Result<Context, FormatError>)
    requires 1 <= i < VarCount(cfg, index)
    requires Before(cfg, index, EvaluatorOf(Namespaced, cfg, index, doc, encoding, convert), ctx0, i) == Ok(ctx)
    ensures r.Ok? ==> Before(cfg, index, EvaluatorOf(Namespaced, cfg, index, doc, encoding, convert), ctx0, i + 1) == r
    ensures r.Err? ==> ProcessResult(Namespaced, cfg, index, doc, encoding, convert, ctx0) == r
  {
    ghost var eval := EvaluatorOf(Namespaced, cfg, index, doc, encoding, convert);
    var expr := InjectContext(cfg[KeyOf(Var(index), i)], Assoc(ctx));
    assert ValueOf(cfg, index, eval, ctx0, i) == Evaluate(Namespaced, cfg, index, doc, encoding, convert, cfg[KeyOf(Var(index), i)], ctx);
    if expr.Err? {
      ErrorStays(cfg, index, eval, ctx0, i + 1, VarCount(cfg, index));
      return Err(expr.error);
    }
    var v := Extract(doc.query(expr.value), PreKey(index) in cfg, encoding.GetOr(DocEncoding(doc.encoding)), convert);
    return Ok(Put(ctx, VarKey(i), v));
  }

  /** `processResponse`: lines 380-451 of src/WebGetter.php. */
  method ProcessResponse(cfg: Config, index: nat, doc: Document, encoding: Option<string>, convert: Converter, ctx0: Context)
    returns (r: Result<Context, FormatError>)
    ensures r == ProcessResult(Namespaced, cfg, index, doc, encoding, convert, ctx0)
  {
    ghost var n := VarCount(cfg, index);
    ghost var eval := EvaluatorOf(Namespaced, cfg, index, doc, encoding, convert);
    var ctx := ctx0;
    var i := 1;
    while KeyOf(Var(index), i) in cfg
      invariant 1 <= i <= n
      invariant Before(cfg, index, eval, ctx0, i) == Ok(ctx)
      decreases n - i
    {
      var step := ProcessVariable(cfg, index, doc, encoding, convert, ctx0, i, ctx);
      if step.Err? {
        return step;
      }
      ctx := step.value;
      i := i + 1;
    }
    VarCountAt(cfg, index, i);
    return Ok(ctx);
  }

  /** The type dispatch and conversion of lines 437-455 of src/Erebot/Module/WebGetter.php. */
  method LegacyExtractText(res: XPathResult, encoding: Option<string>, convert: Converter) returns (text: string)
    ensures text == LegacyExtract(res, encoding, convert)
  {
    match res {
      case SingleNode(t) =>
        text := t;
      case NodeList(texts) =>
        text := ConcatTexts(texts);
      case StringResult(s) =>
        text := s;
      case Failed =>
        text := "";
    }
    if encoding.Some? {
      var converted := convert(text, encoding.value);
      if converted.Some? {
        text := converted.value;
      }
    }
  }

  /** One turn of the loop of `_processResponse`. */
  method LegacyProcessVariable(cfg: Config, index: nat, doc: Document, encoding: Option<string>, convert: Converter, ctx0: Context, i: nat, ctx: Context)
    returns (r: Result<Context, FormatError>)
    requires 1 <= i < VarCount(cfg, index)
    requires Before(cfg, index, EvaluatorOf(Legacy, cfg, index, doc, encoding, convert), ctx0, i) == Ok(ctx)
    ensures r.Ok? ==> Before(cfg, index, EvaluatorOf(Legacy, cfg, index, doc, encoding, convert), ctx0, i + 1) == r
    ensures r.Err? ==> ProcessResult(Legacy, cfg, index, doc, encoding, convert, ctx0) == r
  {
    ghost var eval := EvaluatorOf(Legacy, cfg, index, doc, encoding, convert);
    var expr := InjectContext(cfg[KeyOf(Var(index), i)], Assoc(ctx));
    assert ValueOf(cfg, index, eval, ctx0, i) == Evaluate(Legacy, cfg, index, doc, encoding, convert, cfg[KeyOf(Var(index), i)], ctx);
    if expr.Err? {
      ErrorStays(cfg, index, eval, ctx0, i + 1, VarCount(cfg, index));
      return Err(expr.error);
    }
    var text := LegacyExtractText(doc.query(expr.value), encoding, convert);
    return Ok(Put(ctx, VarKey(i), Str(text)));
  }

  /** `_processResponse`: lines 427-457 of src/Erebot/Module/WebGetter.php. */
  method LegacyProcessResponse(cfg: Config, index: nat, doc: Document, encoding: Option<string>, convert: Converter, ctx0: Context)
    returns (r: Result<Context, FormatError>)
    ensures r == ProcessResult(Legacy, cfg, index, doc, encoding, convert, ctx0)
  {
    ghost var n := VarCount(cfg, index);
    ghost var eval := EvaluatorOf(Legacy, cfg, index, doc, encoding, convert);
    var ctx := ctx0;
    var i := 1;
    while KeyOf(Var(index), i) in cfg
      invariant 1 <= i <= n
      invariant Before(cfg, index, eval, ctx0, i) == Ok(ctx)
      decreases n - i
    {
      var step := LegacyProcessVariable(cfg, index, doc, encoding, convert, ctx0, i, ctx);
      if step.Err? {
        return step;
      }
      ctx := step.value;
      i := i + 1;
    }
    VarCountAt(cfg, index, i);
    return Ok(ctx);
  }

  // ------------------------------------------------------------ properties

  /** Whether some variable 1 .. j-1 has key k. */
  ghost predicate IsVarKeyBelow(k: string, j: nat) {
    exists i :: 1 <= i < j && VarKey(i) == k
  }

  /** A successful turn stores the value of variable j in the context before it. */
  lemma StepShape(cfg: Config, index: nat, eval: Evaluator, ctx0: Context, j: nat)
    requires 1 <= j && VarsExist(cfg, index, j + 1)
    requires Before(cfg, index, eval, ctx0, j + 1).Ok?
    ensures Before(cfg, index, eval, ctx0, j).Ok? && ValueOf(cfg, index, eval, ctx0, j).Ok?
    ensures Before(cfg, index, eval, ctx0, j + 1).value
      == Put(Before(cfg, index, eval, ctx0, j).value, VarKey(j), ValueOf(cfg, index, eval, ctx0, j).value)
  {
  }

  /** While the loop succeeds, variable i < j is stored under `vars.<i>` with its value. */
  lemma {:induction false} StoredValue(cfg: Config, index: nat, eval: Evaluator, ctx0: Context, i: nat, j: nat)
    requires 1 <= i < j && VarsExist(cfg, index, j)
    requires Before(cfg, index, eval, ctx0, j).Ok?
    ensures ValueOf(cfg, index, eval, ctx0, i).Ok?
    ensures Get(Before(cfg, index, eval, ctx0, j).value, VarKey(i)) == Some(ValueOf(cfg, index, eval, ctx0, i).value)
    decreases j
  {
    StepShape(cfg, index, eval, ctx0, j - 1);
    var prev := Before(cfg, index, eval, ctx0, j - 1).value;
    PutGet(prev, VarKey(j - 1), ValueOf(cfg, index, eval, ctx0, j - 1).value);
    if i < j - 1 {
      StoredValue(cfg, index, eval, ctx0, i, j - 1);
      if VarKey(i) == VarKey(j - 1) {
        VarKeyInjective(i, j - 1);
      }
    }
  }

  /** While the loop succeeds, every key other than `vars.<1>` .. `vars.<j-1>` keeps its value. */
  lemma {:induction false} StoredOthers(cfg: Config, index: nat, eval: Evaluator, ctx0: Context, j: nat)
    requires 1 <= j && VarsExist(cfg, index, j)
    requires Before(cfg, index, eval, ctx0, j).Ok?
    ensures forall k :: !IsVarKeyBelow(k, j) ==> Get(Before(cfg, index, eval, ctx0, j).value, k) == Get(ctx0, k)
    decreases j
  {
    if j > 1 {
      StepShape(cfg, index, eval, ctx0, j - 1);
      StoredOthers(cfg, index, eval, ctx0, j - 1);
      var prev := Before(cfg, index, eval, ctx0, j - 1).value;
      var ctx := Before(cfg, index, eval, ctx0, j).value;
      PutGet(prev, VarKey(j - 1), ValueOf(cfg, index, eval, ctx0, j - 1).value);
      forall k | !IsVarKeyBelow(k, j) ensures Get(ctx, k) == Get(prev, k) {
        assert VarKey(j - 1) != k;
        assert !IsVarKeyBelow(k, j - 1);
      }
    }
  }

  /** While the loop succeeds, keys stay unique. */
  lemma {:induction false} StoredUnique(cfg: Config, index: nat, eval: Evaluator, ctx0: Context, j: nat)
    requires 1 <= j && VarsExist(cfg, index, j)
    requires Before(cfg, index, eval, ctx0, j).Ok?
    requires UniqueKeys(ctx0)
    ensures UniqueKeys(Before(cfg, index, eval, ctx0, j).value)
    decreases j
  {
    if j > 1 {
      StepShape(cfg, index, eval, ctx0, j - 1);
      StoredUnique(cfg, index, eval, ctx0, j - 1);
      PutUnique(Before(cfg, index, eval, ctx0, j - 1).value, VarKey(j - 1), ValueOf(cfg, index, eval, ctx0, j - 1).value);
    }
  }

  /**
   * After a successful loop every configured variable i is stored under
   * `vars.<i>`, with the value its expression gets when formatted against
   * the context holding variables 1 .. i-1; every other key keeps its
   * value; keys stay unique.
   */
  lemma ProcessStoresVariables(variant: Variant, cfg: Config, index: nat, doc: Document, encoding: Option<string>, convert: Converter, ctx0: Context)
    requires ProcessResult(variant, cfg, index, doc, encoding, convert, ctx0).Ok?
    ensures var eval := EvaluatorOf(variant, cfg, index, doc, encoding, convert);
      forall i :: 1 <= i < VarCount(cfg, index) ==>
        Before(cfg, index, eval, ctx0, i).Ok? &&
        Evaluate(variant, cfg, index, doc, encoding, convert, cfg[KeyOf(Var(index), i)], Before(cfg, index, eval, ctx0, i).value).Ok? &&
        Get(ProcessResult(variant, cfg, index, doc, encoding, convert, ctx0).value, VarKey(i)) ==
          Some(Evaluate(variant, cfg, index, doc, encoding, convert, cfg[KeyOf(Var(index), i)], Before(cfg, index, eval, ctx0, i).value).value)
    ensures forall k :: !IsVarKeyBelow(k, VarCount(cfg, index)) ==>
      Get(ProcessResult(variant, cfg, index, doc, encoding, convert, ctx0).value, k) == Get(ctx0, k)
    ensures UniqueKeys(ctx0) ==> UniqueKeys(ProcessResult(variant, cfg, index, doc, encoding, convert, ctx0).value)
  {
    var n := VarCount(cfg, index);
    var eval := EvaluatorOf(variant, cfg, index, doc, encoding, convert);
    StoredOthers(cfg, index, eval, ctx0, n);
    if UniqueKeys(ctx0) {
      StoredUnique(cfg, index, eval, ctx0, n);
    }
    forall i | 1 <= i < n
      ensures Before(cfg, index, eval, ctx0, i).Ok? &&
        Evaluate(variant, cfg, index, doc, encoding, convert, cfg[KeyOf(Var(index), i)], Before(cfg, index, eval, ctx0, i).value).Ok? &&
        Get(ProcessResult(variant, cfg, index, doc, encoding, convert, ctx0).value, VarKey(i)) ==
          Some(Evaluate(variant, cfg, index, doc, encoding, convert, cfg[KeyOf(Var(index), i)], Before(cfg, index, eval, ctx0, i).value).value)
    {
      StoredValue(cfg, index, eval, ctx0, i, n);
      assert Before(cfg, index, eval, ctx0, i).Ok?;
      assert ValueOf(cfg, index, eval, ctx0, i) == eval(cfg[KeyOf(Var(index), i)], Before(cfg, index, eval, ctx0, i).value);
    }
  }

  /** A failed loop stops at some expression i, after 1 .. i-1 succeeded, with the error expression i gives. */
  lemma {:induction false} FailureAt(cfg: Config, index: nat, eval: Evaluator, ctx0: Context, j: nat)
    requires 1 <= j && VarsExist(cfg, index, j)
    requires Before(cfg, index, eval, ctx0, j).Err?
    ensures exists i :: (1 <= i < j && Before(cfg, index, eval, ctx0, i).Ok? &&
      eval(cfg[KeyOf(Var(index), i)], Before(cfg, index, eval, ctx0, i).value) == Err(Before(cfg, index, eval, ctx0, j).error))
    decreases j
  {
    var prev := Before(cfg, index, eval, ctx0, j - 1);
    if prev.Err? {
      FailureAt(cfg, index, eval, ctx0, j - 1);
    } else {
      assert Before(cfg, index, eval, ctx0, j) == After(cfg, index, eval, ctx0, j - 1);
      assert ValueOf(cfg, index, eval, ctx0, j - 1) == eval(cfg[KeyOf(Var(index), j - 1)], prev.value);
    }
  }

  /** An evaluation fails exactly when formatting its expression fails, with that error. */
  lemma EvaluateErr(variant: Variant, cfg: Config, index: nat, doc: Document, encoding: Option<string>, convert: Converter, t: string, ctx: Context)
    ensures EvaluatorOf(variant, cfg, index, doc, encoding, convert)(t, ctx).Err? <==> InjectContext(t, Assoc(ctx)).Err?
    ensures EvaluatorOf(variant, cfg, index, doc, encoding, convert)(t, ctx).Err? ==>
      InjectContext(t, Assoc(ctx)) == Err(EvaluatorOf(variant, cfg, index, doc, encoding, convert)(t, ctx).error)
  {
  }

  /** The loop fails exactly at the first expression that fails to format. */
  lemma ProcessFailure(variant: Variant, cfg: Config, index: nat, doc: Document, encoding: Option<string>, convert: Converter, ctx0: Context)
    requires ProcessResult(variant, cfg, index, doc, encoding, convert, ctx0).Err?
    ensures var eval := EvaluatorOf(variant, cfg, index, doc, encoding, convert);
      exists i :: (1 <= i < VarCount(cfg, index) && Before(cfg, index, eval, ctx0, i).Ok? &&
        InjectContext(cfg[KeyOf(Var(index), i)], Assoc(Before(cfg, index, eval, ctx0, i).value))
          == Err(ProcessResult(variant, cfg, index, doc, encoding, convert, ctx0).error))
  {
    var n := VarCount(cfg, index);
    var eval := EvaluatorOf(variant, cfg, index, doc, encoding, convert);
    FailureAt(cfg, index, eval, ctx0, n);
    var i :| 1 <= i < n && Before(cfg, index, eval, ctx0, i).Ok? &&
      eval(cfg[KeyOf(Var(index), i)], Before(cfg, index, eval, ctx0, i).value) == Err(Before(cfg, index, eval, ctx0, n).error);
    EvaluateErr(variant, cfg, index, doc, encoding, convert, cfg[KeyOf(Var(index), i)], Before(cfg, index, eval, ctx0, i).value);
  }

  /** An evaluation that only yields strings keeps a context of strings. */
  lemma {:induction false} StringsStay(cfg: Config, index: nat, eval: Evaluator, ctx0: Context, j: nat)
    requires 1 <= j && VarsExist(cfg, index, j)
    requires Before(cfg, index, eval, ctx0, j).Ok?
    requires forall p :: 0 <= p < |ctx0| ==> ctx0[p].1.Str?
    requires forall i :: 1 <= i < j && ValueOf(cfg, index, eval, ctx0, i).Ok? ==> ValueOf(cfg, index, eval, ctx0, i).value.Str?
    ensures forall p :: 0 <= p < |Before(cfg, index, eval, ctx0, j).value| ==> Before(cfg, index, eval, ctx0, j).value[p].1.Str?
    decreases j
  {
    if j > 1 {
      StepShape(cfg, index, eval, ctx0, j - 1);
      StringsStay(cfg, index, eval, ctx0, j - 1);
      PutValues(Before(cfg, index, eval, ctx0, j - 1).value, VarKey(j - 1), ValueOf(cfg, index, eval, ctx0, j - 1).value);
    }
  }

  /** The legacy variant only ever stores strings: joined lists, never arrays. */
  lemma LegacyStoresStrings(cfg: Config, index: nat, doc: Document, encoding: Option<string>, convert: Converter, ctx0: Context)
    requires ProcessResult(Legacy, cfg, index, doc, encoding, convert, ctx0).Ok?
    requires forall p :: 0 <= p < |ctx0| ==> ctx0[p].1.Str?
    ensures forall p :: 0 <= p < |ProcessResult(Legacy, cfg, index, doc, encoding, convert, ctx0).value| ==>
      ProcessResult(Legacy, cfg, index, doc, encoding, convert, ctx0).value[p].1.Str?
  {
    var n := VarCount(cfg, index);
    var eval := EvaluatorOf(Legacy, cfg, index, doc, encoding, convert);
    forall i | 1 <= i < n && ValueOf(cfg, index, eval, ctx0, i).Ok? ensures ValueOf(cfg, index, eval, ctx0, i).value.Str? {
    }
    StringsStay(cfg, index, eval, ctx0, n);
  }

  /** Every value of `Put(m, k, v)` is v or a value of m. */
  lemma PutValues(m: Context, k: string, v: Value)
    ensures forall p :: 0 <= p < |Put(m, k, v)| ==> Put(m, k, v)[p].1 == v || Put(m, k, v)[p].1 in ValuesOf(m)
  {
    var r := Put(m, k, v);
    forall p | 0 <= p < |r| ensures r[p].1 == v || r[p].1 in ValuesOf(m) {
      if r[p].1 != v {
        assert r[p] == m[p];
      }
    }
  }

  ghost function ValuesOf(m: Context): set<Value> {
    set p | 0 <= p < |m| :: m[p].1
  }
}
