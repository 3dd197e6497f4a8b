/**
 * The legacy module (src/Erebot/Module/WebGetter.php): the same trigger
 * table, a request built on `HTTP_Request2`, and a reply of exactly one
 * message, the format applied to the enriched context.
 */
module LegacyWebGetter {
  import opened Wrappers
  import opened PhpStrings
  import opened PhpArray
  import opened Config
  import opened Formatter
  import opened Request
  import opened Extraction
  import opened Triggers
  import opened RequestContext
  import opened Handling

  /** `$request->send()`: the response, or the message of the `HTTP_Request2_Exception` it throws. */
  type LegacyTransport = LegacyDescriptor -> Result<Response, string>

  /** The message sent when the request fails. */
  const FetchFailedPrefix: string := "An error occurred while retrieving the information ("

  function FetchFailed(message: string): string {
    FetchFailedPrefix + message + ")"
  }

  /** Everything a legacy request does, as one function of its inputs and the trigger table. */
  function LegacyHandle(cfg: Config, indexes: map<string, nat>, locale: Locale, text: TextWrapper,
                        fetch: LegacyTransport, convert: Converter): Handled
  {
    var trigger := TriggerOf(text);
    if trigger !in indexes then Handled([], Some(Undispatched))
    else
      var index := indexes[trigger];
      var ctx := ContextOf(locale, text);
      match LegacyRequestOf(cfg, index, t => InjectContext(t, Assoc(ctx)))
      case Err(e) => Handled([], Some(Raised(e)))
      case Ok(request) => LegacyAnswer(cfg, index, ctx, fetch(request), convert)
  }

  /** What follows the transfer (lines 520-555): the error message, the content-type check, or the reply. */
  function LegacyAnswer(cfg: Config, index: nat, ctx: Context, fetched: Result<Response, string>, convert: Converter): Handled {
    match fetched
    case Err(message) => Handled([FetchFailed(message)], None)
    case Ok(response) =>
      if !AcceptedMime(MimeType(response.contentType)) then Handled([InvalidResponse], None)
      else
        match ProcessResult(Legacy, cfg, index, response.doc, EncodingOf(cfg, index), convert, ctx)
        case Err(e) => Handled([], Some(Raised(BadFormat(e))))
        case Ok(enriched) =>
          match ParseString(cfg, FormatKey(index))
          case Err(e) => Handled([], Some(Raised(BadConfig(e))))
          case Ok(t) =>
            match InjectContext(t, Assoc(enriched))
            case Err(e) => Handled([], Some(Raised(BadFormat(e))))
            case Ok(out) => Handled([out], None)
  }

  class LegacyWebGetter {
    /** `$this->_indexes`: the lower-cased trigger to its entry. */
    var indexes: map<string, nat>
    /** The messages sent, in order. */
    var sent: seq<string>

    constructor ()
      ensures indexes == map[] && sent == []
    {
      indexes := map[];
      sent := [];
    }

    /** `_reload`: with the handler flag, the table is rebuilt; a failure leaves the entries read before it. */
    method Reload(cfg: Config, registry: Registry, handlers: bool) returns (error: Option<ReloadError>)
      modifies this
      ensures handlers ==> Scan(indexes, error) == ReloadResult(cfg, registry)
      ensures !handlers ==> indexes == old(indexes) && error == None
      ensures sent == old(sent)
    {
      error := None;
      if handlers {
        indexes, error := ScanTriggers(cfg, registry);
      }
    }

    /** `handleRequest` (lines 475-556). */
    method HandleRequest(cfg: Config, locale: Locale, text: TextWrapper, fetch: LegacyTransport, convert: Converter)
      returns (abort: Option<Abort>)
      modifies this
      ensures indexes == old(indexes)
      ensures sent == old(sent) + LegacyHandle(cfg, old(indexes), locale, text, fetch, convert).sent
      ensures abort == LegacyHandle(cfg, old(indexes), locale, text, fetch, convert).abort
    {
      var trigger := TriggerOf(text);
      if trigger !in indexes {
        return Some(Undispatched);
      }
      var index := indexes[trigger];
      var ctx := PrepareContext(locale, text);
      var request := BuildLegacyRequest(cfg, index, t => InjectContext(t, Assoc(ctx)));
      if request.Err? {
        return Some(Raised(request.error));
      }
      var response := fetch(request.value.Descriptor());
      abort := Answer(cfg, index, ctx, response, convert);
    }

    /** Lines 520-555: report a failed transfer, check the content type, extract, and send the one reply. */
    method Answer(cfg: Config, index: nat, ctx: Context, response: Result<Response, string>, convert: Converter)
      returns (abort: Option<Abort>)
      modifies this
      ensures indexes == old(indexes)
      ensures sent == old(sent) + LegacyAnswer(cfg, index, ctx, response, convert).sent
      ensures abort == LegacyAnswer(cfg, index, ctx, response, convert).abort
    {
      if response.Err? {
        sent := sent + [FetchFailed(response.error)];
        return None;
      }
      if !AcceptedMime(MimeType(response.value.contentType)) {
        sent := sent + [InvalidResponse];
        return None;
      }
      var encoding: Option<string> := None;
      if EncodingKey(index) in cfg {
        encoding := Some(cfg[EncodingKey(index)]);
      }
      var enriched := LegacyProcessResponse(cfg, index, response.value.doc, encoding, convert, ctx);
      if enriched.Err? {
        return Some(Raised(BadFormat(enriched.error)));
      }
      var format := ParseString(cfg, FormatKey(index));
      if format.Err? {
        return Some(Raised(BadConfig(format.error)));
      }
      var output := InjectContext(format.value, Assoc(enriched.value));
      if output.Err? {
        return Some(Raised(BadFormat(output.error)));
      }
      sent := sent + [output.value];
      return None;
    }
  }

  // ------------------------------------------------------------ properties

  /** A failed transfer is reported in exactly one message, and nothing is aborted. */
  lemma FetchErrorReported(cfg: Config, index: nat, ctx: Context, message: string, convert: Converter)
    ensures LegacyAnswer(cfg, index, ctx, Err(message), convert) == Handled([FetchFailed(message)], None)
  {
  }

  /** The message carries the exception's text, between the fixed words and a closing parenthesis. */
  lemma FetchFailedCarries(message: string)
    ensures |FetchFailed(message)| == |FetchFailedPrefix| + |message| + 1
    ensures FetchFailed(message)[|FetchFailedPrefix|..|FetchFailedPrefix| + |message|] == message
    ensures FetchFailed(message)[..|FetchFailedPrefix|] == FetchFailedPrefix
  {
  }

  /** The legacy handler sends exactly one message unless an exception ends it, and then none. */
  lemma OneMessageUnlessAborted(cfg: Config, indexes: map<string, nat>, locale: Locale, text: TextWrapper,
                                fetch: LegacyTransport, convert: Converter)
    ensures LegacyHandle(cfg, indexes, locale, text, fetch, convert).abort.None? <==>
      |LegacyHandle(cfg, indexes, locale, text, fetch, convert).sent| == 1
    ensures LegacyHandle(cfg, indexes, locale, text, fetch, convert).abort.Some? ==>
      LegacyHandle(cfg, indexes, locale, text, fetch, convert).sent == []
  {
    var trigger := TriggerOf(text);
    if trigger in indexes {
      var ctx := ContextOf(locale, text);
      var request := LegacyRequestOf(cfg, indexes[trigger], t => InjectContext(t, Assoc(ctx)));
      if request.Ok? {
        AnswerOneMessage(cfg, indexes[trigger], ctx, fetch(request.value), convert);
      }
    }
  }

  /** After the transfer: one message, or an exception and none. */
  lemma AnswerOneMessage(cfg: Config, index: nat, ctx: Context, fetched: Result<Response, string>, convert: Converter)
    ensures LegacyAnswer(cfg, index, ctx, fetched, convert).abort.None? <==> |LegacyAnswer(cfg, index, ctx, fetched, convert).sent| == 1
    ensures LegacyAnswer(cfg, index, ctx, fetched, convert).abort.Some? ==> LegacyAnswer(cfg, index, ctx, fetched, convert).sent == []
  {
  }

  /** A response of any other content type gets exactly "Invalid response received". */
  lemma LegacyInvalidMime(cfg: Config, indexes: map<string, nat>, locale: Locale, text: TextWrapper,
                          fetch: LegacyTransport, convert: Converter)
    requires TriggerOf(text) in indexes
    requires var ctx := ContextOf(locale, text);
      var r := LegacyRequestOf(cfg, indexes[TriggerOf(text)], t => InjectContext(t, Assoc(ctx)));
      r.Ok? && fetch(r.value).Ok? && !AcceptedMime(MimeType(fetch(r.value).value.contentType))
    ensures LegacyHandle(cfg, indexes, locale, text, fetch, convert) == Handled([InvalidResponse], None)
  {
  }
}
