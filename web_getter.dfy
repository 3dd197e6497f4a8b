/**
 * The namespaced module (src/WebGetter.php): the trigger table it keeps
 * and the messages it sends. `reload` fills the table; `handleRequest`
 * builds the request for the trigger that fired, checks the response's
 * content type, extracts the variables and sends the reply.
 */
module WebGetter {
  import opened Wrappers
  import opened PhpStrings
  import opened PhpArray
  import opened Config
  import opened Formatter
  import opened UrlEncoding
  import opened Request
  import opened Extraction
  import opened Triggers
  import opened RequestContext
  import opened Rendering
  import opened Handling

  /** `Requests::request`: the response, or the message of the exception it throws. */
  type Transport = HttpRequest -> Result<Response, string>

  /** Everything a request does, as one function of its inputs and the trigger table. */
  function Handle(cfg: Config, indexes: map<string, nat>, locale: Locale, text: TextWrapper,
                  fetch: Transport, convert: Converter, render: Render): Handled
  {
    var trigger := TriggerOf(text);
    if trigger !in indexes then Handled([], Some(Undispatched))
    else
      var index := indexes[trigger];
      var ctx := ContextOf(locale, text);
      match RequestOf(cfg, index, t => InjectContext(t, Assoc(ctx)))
      case Err(e) => Handled([], Some(Raised(e)))
      case Ok(request) => Respond(cfg, index, ctx, fetch(request), convert, render)
  }

  /** What follows the transfer (lines 519-618): the content-type check, the extraction and the reply. */
  function Respond(cfg: Config, index: nat, ctx: Context, fetched: Result<Response, string>,
                   convert: Converter, render: Render): Handled
  {
    match fetched
    case Err(message) => Handled([], Some(TransportFailed(message)))
    case Ok(response) =>
      if !AcceptedMime(MimeType(response.contentType)) then Handled([InvalidResponse], None)
      else
        match ProcessResult(Namespaced, cfg, index, response.doc, EncodingOf(cfg, index), convert, ctx)
        case Err(e) => Handled([], Some(Raised(BadFormat(e))))
        case Ok(enriched) =>
          var s := Reply(cfg, index, enriched, render);
          Handled(s.sent, if s.error.Some? then Some(Raised(s.error.value)) else None)
  }

  /**
   * The rows loop (lines 595-613): row i's context, the format applied to
   * it, and the rendered output when it is not empty. An exception from
   * the formatter ends the loop; the lines rendered before it were sent.
   */
  method RenderRows(cfg: Config, index: nat, c: Context, render: Render, n: nat)
    returns (lines: seq<string>, error: Option<RequestError>)
    requires UniqueKeys(c)
    ensures Sending(lines, error) == RowsUpTo(cfg, index, c, render, n)
  {
    lines := [];
    var i := 0;
    while i < n
      invariant 0 <= i <= n
      invariant RowsUpTo(cfg, index, c, render, i) == Sending(lines, None)
    {
      var output := RowMessage(cfg, index, c, i);
      RowsStep(cfg, index, c, render, i);
      if output.Err? {
        RowsErrorStays(cfg, index, c, render, i + 1, n);
        return lines, Some(output.error);
      }
      if output.value != "" {
        lines := lines + [render(output.value)];
      }
      i := i + 1;
    }
    error := None;
  }

  /** The body of the rows loop (lines 596-607): row i's context, then the format applied to it. */
  method RowMessage(cfg: Config, index: nat, c: Context, i: nat) returns (output: Result<string, RequestError>)
    requires UniqueKeys(c)
    ensures output == RowOutput(cfg, index, c, i)
  {
    var row := BuildRow(c, i);
    var format := ParseString(cfg, FormatKey(index));
    if format.Err? {
      return Err(BadConfig(format.error));
    }
    var injected := InjectContext(format.value, Assoc(row));
    if injected.Err? {
      return Err(BadFormat(injected.error));
    }
    return Ok(injected.value);
  }

  class WebGetter {
    /** `$this->indexes`: the lower-cased trigger to its entry. */
    var indexes: map<string, nat>
    /** The messages sent, in order. */
    var sent: seq<string>

    constructor ()
      ensures indexes == map[] && sent == []
    {
      indexes := map[];
      sent := [];
    }

    /** `reload`: with the handler flag, the table is rebuilt; a failure leaves the entries read before it. */
    method Reload(cfg: Config, registry: Registry, handlers: bool) returns (error: Option<ReloadError>)
      modifies this
      ensures handlers ==> Scan(indexes, error) == ReloadResult(cfg, registry)
      ensures !handlers ==> indexes == old(indexes) && error == None
      ensures sent == old(sent)
    {
      error := None;
      if handlers {
        indexes, error := ScanTriggers(cfg, registry);
      }
    }

    /** Lines 551-618: split, check the lists, and send the rendered rows. */
    method SendReply(cfg: Config, index: nat, ctx: Context, render: Render) returns (error: Option<RequestError>)
      requires UniqueKeys(ctx)
      modifies this
      ensures indexes == old(indexes)
      ensures sent == old(sent) + Reply(cfg, index, ctx, render).sent
      ensures error == Reply(cfg, index, ctx, render).error
    {
      var c := ctx;
      if PreKey(index) in cfg {
        c := SplitScalars(ctx);
        SplitVarsKeys(ctx);
      }
      var multiples := FindMultiples(c);
      if multiples.Mismatch? {
        sent := sent + [VaryingLengths];
        return None;
      }
      if |multiples.names| == 0 {
        error := SendSingle(cfg, index, c, render);
      } else {
        error := SendRows(cfg, index, c, render, LengthOf(c, multiples.names[0]));
      }
    }

    /** Lines 574-587: no lists, so the format is applied once. */
    method SendSingle(cfg: Config, index: nat, c: Context, render: Render) returns (error: Option<RequestError>)
      modifies this
      ensures indexes == old(indexes)
      ensures ParseString(cfg, FormatKey(index)).Err? ==>
        sent == old(sent) && error == Some(BadConfig(ParseString(cfg, FormatKey(index)).error))
      ensures ParseString(cfg, FormatKey(index)).Ok? ==>
        var out := InjectContext(ParseString(cfg, FormatKey(index)).value, Assoc(c));
        if out.Err? then sent == old(sent) && error == Some(BadFormat(out.error))
        else error == None && sent == old(sent) + [if out.value == "" then NothingToSend else render(out.value)]
    {
      var format := ParseString(cfg, FormatKey(index));
      if format.Err? {
        return Some(BadConfig(format.error));
      }
      var output := InjectContext(format.value, Assoc(c));
      if output.Err? {
        return Some(BadFormat(output.error));
      }
      if output.value == "" {
        sent := sent + [NothingToSend];
      } else {
        sent := sent + [render(output.value)];
      }
      return None;
    }

    /** Lines 589-618: one message per row whose output is not empty, and the fallback when there is none. */
    method SendRows(cfg: Config, index: nat, c: Context, render: Render, n: nat) returns (error: Option<RequestError>)
      requires UniqueKeys(c)
      modifies this
      ensures indexes == old(indexes)
      ensures var s := RowsUpTo(cfg, index, c, render, n);
        error == s.error &&
        sent == old(sent) + (if s.error.None? && s.sent == [] then [NothingToSend] else s.sent)
    {
      var lines;
      lines, error := RenderRows(cfg, index, c, render, n);
      sent := sent + lines;
      if error.None? && |lines| == 0 {
        sent := sent + [NothingToSend];
      }
    }

    /** `handleRequest` (lines 469-619). */
    method HandleRequest(cfg: Config, locale: Locale, text: TextWrapper, fetch: Transport, convert: Converter, render: Render)
      returns (abort: Option<Abort>)
      modifies this
      ensures indexes == old(indexes)
      ensures sent == old(sent) + Handle(cfg, old(indexes), locale, text, fetch, convert, render).sent
      ensures abort == Handle(cfg, old(indexes), locale, text, fetch, convert, render).abort
    {
      var trigger := TriggerOf(text);
      if trigger !in indexes {
        return Some(Undispatched);
      }
      var index := indexes[trigger];
      var ctx := PrepareContext(locale, text);
      var request := BuildRequest(cfg, index, t => InjectContext(t, Assoc(ctx)));
      if request.Err? {
        return Some(Raised(request.error));
      }
      var response := fetch(request.value);
      ContextLookups(locale, text);
      abort := Answer(cfg, index, ctx, response, convert, render);
    }

    /** Lines 519-618: check the content type, extract the variables, and reply. */
    method Answer(cfg: Config, index: nat, ctx: Context, response: Result<Response, string>,
                  convert: Converter, render: Render) returns (abort: Option<Abort>)
      requires UniqueKeys(ctx)
      modifies this
      ensures indexes == old(indexes)
      ensures sent == old(sent) + Respond(cfg, index, ctx, response, convert, render).sent
      ensures abort == Respond(cfg, index, ctx, response, convert, render).abort
    {
      if response.Err? {
        return Some(TransportFailed(response.error));
      }
      if !AcceptedMime(MimeType(response.value.contentType)) {
        sent := sent + [InvalidResponse];
        return None;
      }
      var encoding: Option<string> := None;
      if EncodingKey(index) in cfg {
        encoding := Some(cfg[EncodingKey(index)]);
      }
      var enriched := ProcessResponse(cfg, index, response.value.doc, encoding, convert, ctx);
      if enriched.Err? {
        return Some(Raised(BadFormat(enriched.error)));
      }
      ProcessStoresVariables(Namespaced, cfg, index, response.value.doc, encoding, convert, ctx);
      var error := SendReply(cfg, index, enriched.value, render);
      if error.Some? {
        return Some(Raised(error.value));
      }
      return None;
    }
  }

  // ------------------------------------------------------------ properties

  /** A response of any other content type gets exactly "Invalid response received", and nothing else happens. */
  lemma InvalidMimeReply(cfg: Config, indexes: map<string, nat>, locale: Locale, text: TextWrapper,
                         fetch: Transport, convert: Converter, render: Render)
    requires TriggerOf(text) in indexes
    requires var ctx := ContextOf(locale, text);
      var r := RequestOf(cfg, indexes[TriggerOf(text)], t => InjectContext(t, Assoc(ctx)));
      r.Ok? && fetch(r.value).Ok? && !AcceptedMime(MimeType(fetch(r.value).value.contentType))
    ensures Handle(cfg, indexes, locale, text, fetch, convert, render) == Handled([InvalidResponse], None)
  {
  }

  /** The exception of a failed fetch is not caught: nothing is sent. */
  lemma TransportFailureAborts(cfg: Config, indexes: map<string, nat>, locale: Locale, text: TextWrapper,
                               fetch: Transport, convert: Converter, render: Render)
    requires TriggerOf(text) in indexes
    requires var ctx := ContextOf(locale, text);
      var r := RequestOf(cfg, indexes[TriggerOf(text)], t => InjectContext(t, Assoc(ctx)));
      r.Ok? && fetch(r.value).Err?
    ensures Handle(cfg, indexes, locale, text, fetch, convert, render).sent == []
    ensures Handle(cfg, indexes, locale, text, fetch, convert, render).abort.Some?
  {
  }

  /** A request that no exception ends always answers: at least one message is sent. */
  lemma NeverSilent(cfg: Config, indexes: map<string, nat>, locale: Locale, text: TextWrapper,
                    fetch: Transport, convert: Converter, render: Render)
    ensures Handle(cfg, indexes, locale, text, fetch, convert, render).abort.None? ==>
      |Handle(cfg, indexes, locale, text, fetch, convert, render).sent| >= 1
  {
    var trigger := TriggerOf(text);
    if trigger in indexes {
      var ctx := ContextOf(locale, text);
      var request := RequestOf(cfg, indexes[trigger], t => InjectContext(t, Assoc(ctx)));
      if request.Ok? {
        var fetched := fetch(request.value);
        if fetched.Ok? && AcceptedMime(MimeType(fetched.value.contentType)) {
          var r := ProcessResult(Namespaced, cfg, indexes[trigger], fetched.value.doc, EncodingOf(cfg, indexes[trigger]), convert, ctx);
          if r.Ok? {
            ReplyAnswers(cfg, indexes[trigger], r.value, render);
          }
        }
      }
    }
  }

  /**
   * Once the variables are extracted, the reply is given against a context
   * with unique keys, so the list check and the rows behave as the
   * rendering lemmas state.
   */
  lemma EnrichedContextUnique(cfg: Config, index: nat, doc: Document, encoding: Option<string>, convert: Converter,
                              locale: Locale, text: TextWrapper)
    requires ProcessResult(Namespaced, cfg, index, doc, encoding, convert, ContextOf(locale, text)).Ok?
    ensures UniqueKeys(ProcessResult(Namespaced, cfg, index, doc, encoding, convert, ContextOf(locale, text)).value)
  {
    ContextLookups(locale, text);
    ProcessStoresVariables(Namespaced, cfg, index, doc, encoding, convert, ContextOf(locale, text));
  }
}
