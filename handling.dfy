/**
 * What both `handleRequest` variants share: the response as the handler
 * sees it, the content-type check, the input encoding, the trigger lookup,
 * and the ways a request ends.
 */
module Handling {
  import opened Wrappers
  import opened PhpStrings
  import opened Config
  import opened Request
  import opened Extraction
  import opened RequestContext

  /** A response: its `content-type` header ("" when absent) and the document parsed from its body. */
  datatype Response = Response(contentType: string, doc: Document)

  const InvalidResponse: string := "Invalid response received"

  /** `substr($mimeType, 0, strcspn($mimeType, ';'))`. */
  function MimeType(contentType: string): string {
    contentType[..Strcspn(contentType, ';')]
  }

  /** The content type is the header up to its first `;`, or all of it when there is none. */
  lemma MimeTypeCut(contentType: string)
    ensures contentType[..|MimeType(contentType)|] == MimeType(contentType)
    ensures forall i :: 0 <= i < |MimeType(contentType)| ==> MimeType(contentType)[i] != ';'
    ensures |MimeType(contentType)| < |contentType| ==> contentType[|MimeType(contentType)|] == ';'
  {
    StrcspnSpec(contentType, ';');
  }

  /** The four types a response may have. */
  predicate AcceptedMime(m: string) {
    m in ["application/xml", "text/xml", "text/html", "application/xhtml+xml"]
  }

  /** Parameters go through `"<index>.encoding"`. */
  function EncodingKey(index: nat): string {
    Dec(index) + ".encoding"
  }

  /** The configured input encoding, if any. */
  function EncodingOf(cfg: Config, index: nat): Option<string> {
    if EncodingKey(index) in cfg then Some(cfg[EncodingKey(index)]) else None
  }

  /** `strtolower($text[0])`: the table key of the message's first word. */
  function TriggerOf(text: TextWrapper): string {
    if |text.tokens| > 0 then StrToLower(text.tokens[0]) else ""
  }

  /** Why a request ended before its reply: no table entry, an exception, or a failed fetch. */
  datatype Abort =
    | Undispatched
    | Raised(error: RequestError)
    | TransportFailed(message: string)

  /** The messages a request sent, and how it ended when it did not finish. */
  datatype Handled = Handled(sent: seq<string>, abort: Option<Abort>)
}
