/**
 * What the namespaced `handleRequest` (src/WebGetter.php) does with the
 * context once the response has been processed: with `.pre`, scalar
 * `vars.*` entries are split into lines; the list-valued `vars.*` entries
 * must share one length; then the format is rendered once, or once per row
 * of the zipped lists, and the non-empty results are sent.
 */
module Rendering {
  import opened Wrappers
  import opened PhpStrings
  import opened PhpArray
  import opened Config
  import opened Formatter
  import opened Request
  import opened Triggers
  import opened Extraction

  /** `substr($name, 0, 5) == 'vars.'`. */
  predicate IsVarName(name: string) {
    |name| >= 5 && name[..5] == "vars."
  }

  /** The fixed replies (their translation is not modelled). */
  const NothingToSend: string := "Oops, nothing to send!"
  const VaryingLengths: string := "Multiple arrays with varying lengths found"

  // ------------------------------------------------------ splitting lines

  /** `preg_split('/\r\n?|\n/', $value)` on a scalar `vars.*` entry. */
  function SplitEntry(e: (string, Value)): (string, Value) {
    if IsVarName(e.0) && e.1.Str? then (e.0, Arr(SplitLines(e.1.s))) else e
  }

  function SplitVars(ctx: Context): Context {
    seq(|ctx|, p requires 0 <= p < |ctx| => SplitEntry(ctx[p]))
  }

  /** The reference loop of lines 551-558, rewriting the entries in place. */
  method SplitScalars(ctx: Context) returns (r: Context)
    ensures r == SplitVars(ctx)
  {
    r := ctx;
    var p := 0;
    while p < |r|
      invariant |r| == |ctx| && 0 <= p <= |r|
      invariant forall q :: 0 <= q < p ==> r[q] == SplitEntry(ctx[q])
      invariant forall q :: p <= q < |r| ==> r[q] == ctx[q]
    {
      var (name, value) := r[p];
      if IsVarName(name) && value.Str? {
        r := r[p := (name, Arr(SplitLines(value.s)))];
      }
      p := p + 1;
    }
  }

  /**
   * Entry p keeps its key; a `vars.*` entry becomes a list whose lines hold
   * no break and join back, with `\n`, to the original text (every CR LF and
   * lone CR read as LF); every other entry is unchanged.
   */
  lemma SplitVarsAt(ctx: Context, p: nat)
    requires p < |ctx|
    ensures |SplitVars(ctx)| == |ctx| && SplitVars(ctx)[p].0 == ctx[p].0
    ensures IsVarName(ctx[p].0) ==> SplitVars(ctx)[p].1.Arr?
    ensures IsVarName(ctx[p].0) && ctx[p].1.Str? ==>
      var lines := SplitVars(ctx)[p].1.items;
      |lines| >= 1 && JoinLines(lines) == NormalizeBreaks(ctx[p].1.s) &&
      forall k :: 0 <= k < |lines| ==> NoBreak(lines[k])
    ensures !(IsVarName(ctx[p].0) && ctx[p].1.Str?) ==> SplitVars(ctx)[p] == ctx[p]
  {
    if IsVarName(ctx[p].0) && ctx[p].1.Str? {
      SplitLinesJoin(ctx[p].1.s);
      SplitLinesPiecesHaveNoBreak(ctx[p].1.s);
    }
  }

  /** Splitting keeps the keys, in order, so they stay unique. */
  lemma SplitVarsKeys(ctx: Context)
    requires UniqueKeys(ctx)
    ensures UniqueKeys(SplitVars(ctx))
  {
    var r := SplitVars(ctx);
    forall i, j | 0 <= i < j < |r| ensures r[i].0 != r[j].0 {
      assert r[i].0 == ctx[i].0 && r[j].0 == ctx[j].0;
    }
  }

  // ------------------------------------------------------ the list check

  /** A list-valued `vars.*` entry. */
  predicate IsList(e: (string, Value)) {
    IsVarName(e.0) && e.1.Arr?
  }

  /** `count($v)` on a context value. */
  function Length(v: Value): nat {
    match v
    case Arr(items) => |items|
    case Str(_) => 1
  }

  /** `count($context[$k])`. */
  function LengthOf(ctx: Context, k: string): nat {
    match Get(ctx, k)
    case Some(v) => Length(v)
    case None => 0
  }

  /** `$multiples`, or the early return when a list's length differs from the first list's. */
  datatype Multiples = Lists(names: seq<string>) | Mismatch

  /** The `$multiples` loop over entries 0 .. j-1. */
  function MultiplesUpTo(ctx: Context, j: nat): Multiples
    requires j <= |ctx|
    decreases j
  {
    if j == 0 then Lists([])
    else match MultiplesUpTo(ctx, j - 1)
      case Mismatch => Mismatch
      case Lists(names) =>
        if !IsList(ctx[j - 1]) then Lists(names)
        else if names != [] && LengthOf(ctx, ctx[j - 1].0) != LengthOf(ctx, names[0]) then Mismatch
        else Lists(names + [ctx[j - 1].0])
  }

  function MultiplesOf(ctx: Context): Multiples {
    MultiplesUpTo(ctx, |ctx|)
  }

  lemma {:induction false} MismatchStays(ctx: Context, j: nat, k: nat)
    requires j <= k <= |ctx| && MultiplesUpTo(ctx, j).Mismatch?
    ensures MultiplesUpTo(ctx, k).Mismatch?
    decreases k - j
  {
    if j < k {
      MismatchStays(ctx, j, k - 1);
    }
  }

  /** Lines 560-572. */
  method FindMultiples(ctx: Context) returns (m: Multiples)
    ensures m == MultiplesOf(ctx)
  {
    var names: seq<string> := [];
    var p := 0;
    while p < |ctx|
      invariant 0 <= p <= |ctx|
      invariant MultiplesUpTo(ctx, p) == Lists(names)
    {
      var (name, value) := ctx[p];
      if IsVarName(name) && value.Arr? {
        if |names| > 0 && LengthOf(ctx, name) != LengthOf(ctx, names[0]) {
          MismatchStays(ctx, p + 1, |ctx|);
          return Mismatch;
        }
        names := names + [name];
      }
      p := p + 1;
    }
    return Lists(names);
  }

  /** The keys of the list entries among entries 0 .. j-1, in order. */
  function ListNamesUpTo(ctx: Context, j: nat): seq<string>
    requires j <= |ctx|
    decreases j
  {
    if j == 0 then []
    else ListNamesUpTo(ctx, j - 1) + (if IsList(ctx[j - 1]) then [ctx[j - 1].0] else [])
  }

  /** All list entries among entries 0 .. j-1 have one length. */
  ghost predicate SameLengths(ctx: Context, j: nat)
    requires j <= |ctx|
  {
    forall p, q :: 0 <= p < j && 0 <= q < j && IsList(ctx[p]) && IsList(ctx[q]) ==>
      |ctx[p].1.items| == |ctx[q].1.items|
  }

  lemma {:induction false} FirstList(ctx: Context, j: nat) returns (p: nat)
    requires j <= |ctx| && ListNamesUpTo(ctx, j) != []
    ensures p < j && IsList(ctx[p]) && ctx[p].0 == ListNamesUpTo(ctx, j)[0]
    decreases j
  {
    if ListNamesUpTo(ctx, j - 1) != [] {
      p := FirstList(ctx, j - 1);
    } else {
      p := j - 1;
    }
  }

  lemma {:induction false} NoListsBelow(ctx: Context, j: nat, p: nat)
    requires p < j <= |ctx| && ListNamesUpTo(ctx, j) == []
    ensures !IsList(ctx[p])
    decreases j
  {
    if p < j - 1 {
      NoListsBelow(ctx, j - 1, p);
    }
  }

  /** One entry more: the list check over 0 .. j follows from the check over 0 .. j-1. */
  lemma SameLengthsStep(ctx: Context, j: nat, p0: nat)
    requires j < |ctx| && p0 < j && IsList(ctx[p0]) && SameLengths(ctx, j)
    ensures SameLengths(ctx, j + 1) <==> !IsList(ctx[j]) || |ctx[j].1.items| == |ctx[p0].1.items|
  {
    if !IsList(ctx[j]) || |ctx[j].1.items| == |ctx[p0].1.items| {
      forall p, q | 0 <= p < j + 1 && 0 <= q < j + 1 && IsList(ctx[p]) && IsList(ctx[q])
        ensures |ctx[p].1.items| == |ctx[q].1.items|
      {
        assert |ctx[p].1.items| == |ctx[p0].1.items|;
        assert |ctx[q].1.items| == |ctx[p0].1.items|;
      }
    }
  }

  lemma SameLengthsSkip(ctx: Context, j: nat)
    requires j < |ctx| && (!IsList(ctx[j]) || ListNamesUpTo(ctx, j) == [])
    requires SameLengths(ctx, j)
    ensures SameLengths(ctx, j + 1)
  {
    forall p, q | 0 <= p < j + 1 && 0 <= q < j + 1 && IsList(ctx[p]) && IsList(ctx[q])
      ensures |ctx[p].1.items| == |ctx[q].1.items|
    {
      if p == j && q < j {
        NoListsBelow(ctx, j, q);
      } else if q == j && p < j {
        NoListsBelow(ctx, j, p);
      }
    }
  }

  /**
   * The list check passes exactly when every list-valued `vars.*` entry has
   * the same length, and `$multiples` is then the keys of those entries in
   * context order.
   */
  lemma {:induction false} MultiplesSpec(ctx: Context, j: nat)
    requires UniqueKeys(ctx) && j <= |ctx|
    ensures MultiplesUpTo(ctx, j).Lists? <==> SameLengths(ctx, j)
    ensures MultiplesUpTo(ctx, j).Lists? ==> MultiplesUpTo(ctx, j).names == ListNamesUpTo(ctx, j)
    decreases j
  {
    if j > 0 {
      MultiplesSpec(ctx, j - 1);
      var m := MultiplesUpTo(ctx, j - 1);
      var e := ctx[j - 1];
      if m.Mismatch? {
        assert !SameLengths(ctx, j - 1);
        assert !SameLengths(ctx, j);
      } else if !IsList(e) || m.names == [] {
        SameLengthsSkip(ctx, j - 1);
      } else {
        var p0 := FirstList(ctx, j - 1);
        GetAt(ctx, j - 1);
        GetAt(ctx, p0);
        assert LengthOf(ctx, e.0) == |e.1.items|;
        assert LengthOf(ctx, m.names[0]) == |ctx[p0].1.items|;
        SameLengthsStep(ctx, j - 1, p0);
      }
    }
  }

  /** The mismatch reply is given exactly when two list-valued `vars.*` entries differ in length. */
  lemma MismatchIff(ctx: Context)
    requires UniqueKeys(ctx)
    ensures MultiplesOf(ctx).Mismatch? <==>
      exists p, q :: 0 <= p < |ctx| && 0 <= q < |ctx| && IsList(ctx[p]) && IsList(ctx[q]) &&
        |ctx[p].1.items| != |ctx[q].1.items|
  {
    MultiplesSpec(ctx, |ctx|);
  }

  // ------------------------------------------------------------ the rows

  /** Element i of a list (`null`, printed as "", past its end); a scalar as it is. */
  function RowValue(v: Value, i: nat): Value {
    match v
    case Str(s) => Str(s)
    case Arr(items) => Str(if i < |items| then items[i] else "")
  }

  /** The context of row i. */
  function Row(ctx: Context, i: nat): Context {
    seq(|ctx|, p requires 0 <= p < |ctx| => (ctx[p].0, RowValue(ctx[p].1, i)))
  }

  /** Lines 596-603: a fresh array filled key by key from the old context. */
  method BuildRow(ctx: Context, i: nat) returns (row: Context)
    requires UniqueKeys(ctx)
    ensures row == Row(ctx, i)
  {
    row := [];
    var p := 0;
    while p < |ctx|
      invariant 0 <= p <= |ctx| && |row| == p
      invariant forall q :: 0 <= q < p ==> row[q] == (ctx[q].0, RowValue(ctx[q].1, i))
    {
      var key := ctx[p].0;
      GetAt(ctx, p);
      var v := Get(ctx, key).value;
      assert forall q :: 0 <= q < |row| ==> row[q].0 == ctx[q].0 != key;
      PutSpec(row, key, RowValue(v, i));
      row := Put(row, key, RowValue(v, i));
      p := p + 1;
    }
  }

  /**
   * Row i has the keys of the context in their order; a list gives its
   * element i, a scalar is copied; no list is left.
   */
  lemma RowShape(ctx: Context, i: nat)
    requires UniqueKeys(ctx)
    ensures |Row(ctx, i)| == |ctx| && UniqueKeys(Row(ctx, i))
    ensures forall p :: 0 <= p < |ctx| ==> Row(ctx, i)[p].0 == ctx[p].0 && Row(ctx, i)[p].1.Str?
    ensures forall p :: 0 <= p < |ctx| && ctx[p].1.Str? ==> Row(ctx, i)[p].1 == ctx[p].1
    ensures forall p :: 0 <= p < |ctx| && ctx[p].1.Arr? && i < |ctx[p].1.items| ==>
      Row(ctx, i)[p].1 == Str(ctx[p].1.items[i])
  {
    var r := Row(ctx, i);
    forall a, b | 0 <= a < b < |r| ensures r[a].0 != r[b].0 {
      assert r[a].0 == ctx[a].0 && r[b].0 == ctx[b].0;
    }
  }

  /** What the format gives for row i: `parseString` fails without `.format`. */
  function RowOutput(cfg: Config, index: nat, ctx: Context, i: nat): Result<string, RequestError> {
    match ParseString(cfg, FormatKey(index))
    case Err(e) => Err(BadConfig(e))
    case Ok(t) =>
      match InjectContext(t, Assoc(Row(ctx, i)))
      case Err(e) => Err(BadFormat(e))
      case Ok(out) => Ok(out)
  }

  /** `$fmt->render`, which the model takes as given. */
  type Render = string -> string

  /** The messages sent so far and the exception that stopped the handler, if any. */
  datatype Sending = Sending(sent: seq<string>, error: Option<RequestError>)

  /** What the loop sends for the outputs `outs`, in order: an empty output is skipped, a failure ends the handler. */
  function Emit(outs: seq<Result<string, RequestError>>, render: Render): Sending
    decreases |outs|
  {
    if outs == [] then Sending([], None)
    else
      var s := Emit(outs[..|outs| - 1], render);
      if s.error.Some? then s
      else match outs[|outs| - 1]
        case Err(e) => Sending(s.sent, Some(e))
        case Ok(out) => if out == "" then s else Sending(s.sent + [render(out)], None)
  }

  /** The outputs of rows 0 .. j-1. */
  function RowOutputs(cfg: Config, index: nat, ctx: Context, j: nat): (outs: seq<Result<string, RequestError>>)
    ensures |outs| == j
  {
    seq(j, i requires 0 <= i => RowOutput(cfg, index, ctx, i))
  }

  /** The row loop over rows 0 .. j-1. */
  function RowsUpTo(cfg: Config, index: nat, ctx: Context, render: Render, j: nat): Sending {
    Emit(RowOutputs(cfg, index, ctx, j), render)
  }

  /** One row further: an error stops the rows, an empty output sends nothing, any other is rendered and sent. */
  lemma RowsStep(cfg: Config, index: nat, ctx: Context, render: Render, j: nat)
    requires RowsUpTo(cfg, index, ctx, render, j).error.None?
    ensures RowOutput(cfg, index, ctx, j).Err? ==>
      RowsUpTo(cfg, index, ctx, render, j + 1) == Sending(RowsUpTo(cfg, index, ctx, render, j).sent, Some(RowOutput(cfg, index, ctx, j).error))
    ensures RowOutput(cfg, index, ctx, j) == Ok("") ==>
      RowsUpTo(cfg, index, ctx, render, j + 1) == RowsUpTo(cfg, index, ctx, render, j)
    ensures RowOutput(cfg, index, ctx, j).Ok? && RowOutput(cfg, index, ctx, j).value != "" ==>
      RowsUpTo(cfg, index, ctx, render, j + 1) ==
      Sending(RowsUpTo(cfg, index, ctx, render, j).sent + [render(RowOutput(cfg, index, ctx, j).value)], None)
  {
    assert RowOutputs(cfg, index, ctx, j + 1)[..j] == RowOutputs(cfg, index, ctx, j);
  }

  /** Once a failure has stopped the loop, later outputs change nothing. */
  lemma {:induction false} EmitErrorStays(outs: seq<Result<string, RequestError>>, more: seq<Result<string, RequestError>>, render: Render)
    requires Emit(outs, render).error.Some?
    ensures Emit(outs + more, render) == Emit(outs, render)
    decreases |more|
  {
    if more == [] {
      assert outs + more == outs;
    } else {
      var m := more[..|more| - 1];
      assert (outs + more)[..|outs + more| - 1] == outs + m;
      EmitErrorStays(outs, m, render);
    }
  }

  lemma RowsErrorStays(cfg: Config, index: nat, ctx: Context, render: Render, j: nat, k: nat)
    requires j <= k && RowsUpTo(cfg, index, ctx, render, j).error.Some?
    ensures RowsUpTo(cfg, index, ctx, render, k) == RowsUpTo(cfg, index, ctx, render, j)
  {
    var outs := RowOutputs(cfg, index, ctx, k);
    assert outs == outs[..j] + outs[j..];
    assert outs[..j] == RowOutputs(cfg, index, ctx, j);
    EmitErrorStays(outs[..j], outs[j..], render);
  }

  /** The positions of the non-empty outputs of `outs`, in increasing order. */
  function MessageRows(outs: seq<Result<string, RequestError>>): seq<nat>
    decreases |outs|
  {
    if outs == [] then []
    else
      var o := outs[|outs| - 1];
      MessageRows(outs[..|outs| - 1]) + (if o.Ok? && o.value != "" then [|outs| - 1] else [])
  }

  /** `MessageRows` lists exactly the positions whose output is not empty, each once, in increasing order. */
  lemma {:induction false} MessageRowsSpec(outs: seq<Result<string, RequestError>>)
    ensures forall k :: 0 <= k < |MessageRows(outs)| ==>
      MessageRows(outs)[k] < |outs| && outs[MessageRows(outs)[k]].Ok? && outs[MessageRows(outs)[k]].value != ""
    ensures forall k1, k2 :: 0 <= k1 < k2 < |MessageRows(outs)| ==> MessageRows(outs)[k1] < MessageRows(outs)[k2]
    ensures forall i :: 0 <= i < |outs| && outs[i].Ok? && outs[i].value != "" ==> i in MessageRows(outs)
    decreases |outs|
  {
    if outs != [] {
      var init := outs[..|outs| - 1];
      MessageRowsSpec(init);
      assert forall i :: 0 <= i < |init| ==> outs[i] == init[i];
    }
  }

  /** Without a failure, every output is a string and message k is the k-th non-empty output, rendered. */
  lemma {:induction false} EmitSent(outs: seq<Result<string, RequestError>>, render: Render)
    requires Emit(outs, render).error.None?
    ensures forall i :: 0 <= i < |outs| ==> outs[i].Ok?
    ensures |Emit(outs, render).sent| == |MessageRows(outs)|
    ensures forall k :: 0 <= k < |MessageRows(outs)| ==>
      MessageRows(outs)[k] < |outs| && Emit(outs, render).sent[k] == render(outs[MessageRows(outs)[k]].value)
    decreases |outs|
  {
    if outs != [] {
      var init := outs[..|outs| - 1];
      EmitSent(init, render);
      MessageRowsSpec(init);
      assert forall i :: 0 <= i < |init| ==> outs[i] == init[i];
    }
  }

  /** A failure is that of the first output that fails; the messages of the outputs before it stay sent. */
  lemma {:induction false} EmitFailure(outs: seq<Result<string, RequestError>>, render: Render)
    requires Emit(outs, render).error.Some?
    ensures exists i :: 0 <= i < |outs| && outs[i] == Err(Emit(outs, render).error.value) &&
              Emit(outs[..i], render).error.None? &&
              Emit(outs, render).sent == Emit(outs[..i], render).sent
    decreases |outs|
  {
    var init := outs[..|outs| - 1];
    if Emit(init, render).error.Some? {
      EmitFailure(init, render);
      var i :| 0 <= i < |init| && init[i] == Err(Emit(init, render).error.value) &&
        Emit(init[..i], render).error.None? && Emit(init, render).sent == Emit(init[..i], render).sent;
      assert init[..i] == outs[..i];
    } else {
      assert outs[..|outs| - 1] == init;
    }
  }

  /** Without a failure, no message is sent exactly when every output is empty. */
  lemma EmitNoneSent(outs: seq<Result<string, RequestError>>, render: Render)
    requires Emit(outs, render).error.None?
    ensures Emit(outs, render).sent == [] <==> forall i :: 0 <= i < |outs| ==> outs[i] == Ok("")
  {
    EmitSent(outs, render);
    MessageRowsSpec(outs);
    if Emit(outs, render).sent != [] {
      var i := MessageRows(outs)[0];
      assert !(outs[i] == Ok(""));
    }
  }

  /** Without a failure, no row message is sent exactly when every row's output is empty. */
  lemma RowsNoneSent(cfg: Config, index: nat, ctx: Context, render: Render, j: nat)
    requires RowsUpTo(cfg, index, ctx, render, j).error.None?
    ensures RowsUpTo(cfg, index, ctx, render, j).sent == [] <==>
      forall i :: 0 <= i < j ==> RowOutput(cfg, index, ctx, i) == Ok("")
  {
    var outs := RowOutputs(cfg, index, ctx, j);
    EmitNoneSent(outs, render);
    assert forall i :: 0 <= i < j ==> outs[i] == RowOutput(cfg, index, ctx, i);
  }

  // ------------------------------------------------------------ the reply

  /** What the handler sends once the context is complete (lines 551-618). */
  function Reply(cfg: Config, index: nat, ctx: Context, render: Render): Sending {
    var c := if PreKey(index) in cfg then SplitVars(ctx) else ctx;
    match MultiplesOf(c)
    case Mismatch => Sending([VaryingLengths], None)
    case Lists(names) =>
      if names == [] then
        match ParseString(cfg, FormatKey(index))
        case Err(e) => Sending([], Some(BadConfig(e)))
        case Ok(t) =>
          match InjectContext(t, Assoc(c))
          case Err(e) => Sending([], Some(BadFormat(e)))
          case Ok(out) => Sending([if out == "" then NothingToSend else render(out)], None)
      else
        var s := RowsUpTo(cfg, index, c, render, LengthOf(c, names[0]));
        if s.error.None? && s.sent == [] then Sending([NothingToSend], None) else s
  }

  /** Unless the formatter throws, the reply is never silent: at least one message goes out. */
  lemma ReplyAnswers(cfg: Config, index: nat, ctx: Context, render: Render)
    ensures Reply(cfg, index, ctx, render).error.None? ==> |Reply(cfg, index, ctx, render).sent| >= 1
  {
  }

  /** With `.pre`, no `vars.*` entry is left a scalar, so every one of them takes part in the rows. */
  lemma PreLeavesLists(cfg: Config, index: nat, ctx: Context, p: nat)
    requires PreKey(index) in cfg && p < |ctx| && IsVarName(ctx[p].0)
    ensures IsList(SplitVars(ctx)[p])
  {
    SplitVarsAt(ctx, p);
  }

  /** Lists of different lengths: exactly one message, the mismatch diagnostic. */
  lemma ReplyMismatch(cfg: Config, index: nat, ctx: Context, render: Render)
    requires UniqueKeys(ctx)
    requires var c := if PreKey(index) in cfg then SplitVars(ctx) else ctx;
      exists p, q :: 0 <= p < |c| && 0 <= q < |c| && IsList(c[p]) && IsList(c[q]) && |c[p].1.items| != |c[q].1.items|
    ensures Reply(cfg, index, ctx, render) == Sending([VaryingLengths], None)
  {
    var c := if PreKey(index) in cfg then SplitVars(ctx) else ctx;
    if PreKey(index) in cfg {
      SplitVarsKeys(ctx);
    }
    MismatchIff(c);
  }

  /**
   * Without lists, one message: "Oops, nothing to send!" when the format
   * renders to "", the rendered output otherwise.
   */
  lemma ReplySingle(cfg: Config, index: nat, ctx: Context, render: Render)
    requires UniqueKeys(ctx) && FormatKey(index) in cfg
    requires var c := if PreKey(index) in cfg then SplitVars(ctx) else ctx;
      forall p :: 0 <= p < |c| ==> !IsList(c[p])
    requires var c := if PreKey(index) in cfg then SplitVars(ctx) else ctx;
      InjectContext(cfg[FormatKey(index)], Assoc(c)).Ok?
    ensures var c := if PreKey(index) in cfg then SplitVars(ctx) else ctx;
      var out := InjectContext(cfg[FormatKey(index)], Assoc(c)).value;
      Reply(cfg, index, ctx, render) == Sending([if out == "" then NothingToSend else render(out)], None)
  {
    var c := if PreKey(index) in cfg then SplitVars(ctx) else ctx;
    if PreKey(index) in cfg {
      SplitVarsKeys(ctx);
    }
    MultiplesSpec(c, |c|);
    assert ListNamesUpTo(c, |c|) == [] by {
      if ListNamesUpTo(c, |c|) != [] {
        var p := FirstList(c, |c|);
      }
    }
  }

  /**
   * With lists of one length n, rows 0 .. n-1 are rendered in order; when
   * none of them is sent and nothing failed, "Oops, nothing to send!" is
   * sent once instead, and it is never sent besides a row.
   */
  lemma ReplyRows(cfg: Config, index: nat, ctx: Context, render: Render, p0: nat)
    requires UniqueKeys(ctx)
    requires var c := if PreKey(index) in cfg then SplitVars(ctx) else ctx;
      p0 < |c| && IsList(c[p0]) && SameLengths(c, |c|)
    ensures var c := if PreKey(index) in cfg then SplitVars(ctx) else ctx;
      var s := RowsUpTo(cfg, index, c, render, |c[p0].1.items|);
      Reply(cfg, index, ctx, render) == (if s.error.None? && s.sent == [] then Sending([NothingToSend], None) else s)
  {
    var c := if PreKey(index) in cfg then SplitVars(ctx) else ctx;
    if PreKey(index) in cfg {
      SplitVarsKeys(ctx);
    }
    MultiplesSpec(c, |c|);
    var names := MultiplesOf(c).names;
    assert names != [] by {
      if names == [] {
        NoListsBelow(c, |c|, p0);
      }
    }
    var p := FirstList(c, |c|);
    GetAt(c, p);
    assert LengthOf(c, names[0]) == |c[p].1.items| == |c[p0].1.items|;
  }
}
