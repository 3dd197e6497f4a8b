# Erebot WebGetter, modelled in Dafny

Erebot's WebGetter module answers an IRC trigger (say `!tv`) by fetching a
configured web page, picking values out of it with XPath expressions and
sending a formatted reply. Each numbered entry `N` of the module's
configuration has these keys:

- `N.trigger`, `N.url` and `N.format`;
- optional GET and POST pairs `N.get.i.name` / `N.get.i.value` and `N.post.i.*`;
- XPath selections `N.vars.i`;
- the switches `N.pre`, `N.encoding` and `N.user-agent`.

The repository ships the module twice, and the model covers both:

- `src/WebGetter.php` is the namespaced module. It uses `Requests`, can
  reply with one line per row of extracted lists, and checks that those
  lists have equal lengths.
- `src/Erebot/Module/WebGetter.php` is the legacy module. It uses
  `HTTP_Request2`, concatenates node lists, and always replies with a
  single line.

The model follows the code module by module:

| Dafny module | what it holds |
|---|---|
| `Config` | the module's parameters as a map from name to string, and `parseString` / `parseInt` |
| `PhpStrings` | the string operations the code relies on: `trim`, `strcspn`, `strtolower`, `rtrim`, `htmlspecialchars`, line splitting, decimal keys |
| `PhpArray` | ordered PHP arrays with string keys: `$a[$k] = $v` keeps the position of an existing key and appends a new one |
| `Formatter` | `injectContext`: `strtr` with `%` doubled, the placeholders `$(key)` rewritten to `%i$`, then `vsprintf` over `%%`, `%s` and `%i$s` |
| `UrlEncoding` | `rawurlencode` over UTF-8 and `http_build_query(..., 'arg', '&', PHP_QUERY_RFC3986)`, with a decoder that undoes both |
| `Triggers` | `reload` / `_reload`: the scan of the trigger entries and the trigger table it leaves |
| `RequestContext` | `prepareContext` / `_prepareContext` |
| `Request` | the GET and POST pair loops, the query merge, the request and its options, and the legacy `HTTP_Request2` object (class `LegacyRequest`) |
| `Extraction` | `processResponse` / `_processResponse`: the variable loop and each XPath result's conversion to a value |
| `Rendering` | the namespaced reply: the `.pre` split, the list-length check, the row loop and the fallback message |
| `Handling` | what both `handleRequest` variants share: content type, encoding, trigger lookup, outcomes |
| `WebGetter` | the namespaced module (class `WebGetter`) and its request as one function `Handle` |
| `LegacyWebGetter` | the legacy module (class `LegacyWebGetter`) and `LegacyHandle` |

An operation that loops in the source is a method with a loop. Each such
method is proved equal to an index-recursive specification function:
`ScanTriggers` against `ScanUpTo`, `CollectPairs` against `PairsUpTo`,
`ProcessResponse` against `Before`, `RenderRows` against `Emit`.
Properties are proved about those functions.

The modules' objects are classes with `modifies` frames, each tied to a
function of its inputs:

- `WebGetter` and `LegacyWebGetter` keep the trigger table and the list of
  messages sent.
- `LegacyRequest` is the `HTTP_Request2` object that the legacy helpers
  mutate.

An exception the source does not catch is an outcome (`Abort`). It is one
of three things:

- a missing `.format`, or an invalid integer, which is `parseString` /
  `parseInt` throwing;
- a PHP 8 `vsprintf` error;
- a `Requests` transport failure.

Messages sent before the exception stay sent.

## Model

| member | source | states |
|---|---|---|
| Config.ParseString | src/WebGetter.php:75 | `parseString` succeeds exactly when the parameter exists, and then returns its value |
| Config.ParseInt | src/WebGetter.php:498 | `parseInt('timeout', 8)`: an absent parameter gives the default, an unparsable one the error, and any other its value |
| Config.RunEnd | src/WebGetter.php:62 | the scan over `1.trigger`, `2.trigger`, … stops at the first missing index, and every index before it is present |
| Config.RunIsFirstGap | src/WebGetter.php:62 | the stopping index is the first gap, whatever other indexes appear after it |
| Triggers.ScanTriggers | src/WebGetter.php:62-93 | the reload loop leaves exactly the table and the error that `ReloadResult` defines |
| Triggers.ScanOkIff | src/WebGetter.php:62-93 | the scan up to j succeeds exactly when every entry below j has a URL and a format and registers its trigger |
| Triggers.ScanTable | src/WebGetter.php:92 | without an error, each entry below j has its lower-cased, trimmed trigger name in the table, pointing to that entry or a later one; each table key is the name of the entry it points to |
| Triggers.ScanError | src/WebGetter.php:63-90 | an error comes from one entry i below j; the entries before i all passed; the table holds the entries before i |
| Triggers.ReloadSucceedsIff | src/WebGetter.php:62-93 | `reload` throws nothing exactly when each entry has a URL, a format, and a trigger that registers |
| Triggers.ReloadTable | src/WebGetter.php:92 | after a successful reload, every entry's name is in the table, at that entry or a later one with the same name, and every table entry points back to its own name |
| Triggers.ReloadFirstError | src/Erebot/Module/WebGetter.php:65-96 | a failed reload reports the first failing entry, and the table holds the entries before it |
| WebGetter.WebGetter.Reload | src/WebGetter.php:49-106 | with `RELOAD_HANDLERS`, the table and the error are the scan's result; without it, nothing changes; no message is sent |
| LegacyWebGetter.LegacyWebGetter.Reload | src/Erebot/Module/WebGetter.php:48-112 | the same for `_reload` |
| RequestContext.PrepareContext | src/WebGetter.php:246-266 | the loop builds exactly `ContextOf`: the five base entries, then each word after the first under its position |
| RequestContext.ContextLookups | src/WebGetter.php:250-264 | keys are unique; `language`, `region`, `locale`, `locale2` (the locale with `_` replaced by `-`), `0` (the rest of the text) and each word `i` hold what the source puts there |
| RequestContext.ContextOrder | src/Erebot/Module/WebGetter.php:248-269 | the order is the five base keys, then "1", "2", … in the order of the words |
| RequestContext.ContextKeysPlain | src/WebGetter.php:250-264 | no key holds `%` or `)`, so every key is a usable placeholder |
| Formatter.InjectContext | src/WebGetter.php:205-213 | no arguments, or an empty array, leave the message untouched; a scalar argument goes through `sprintf` |
| Formatter.InjectScalar | src/WebGetter.php:211-213 | with a scalar argument, `before%safter` becomes `before`, the value, then `after` |
| Formatter.DoublePercentIsStrTr | src/WebGetter.php:217 | `strtr($msg, ['%' => '%%'])` doubles each `%` and changes nothing else |
| Formatter.LongestMatchSpec | src/WebGetter.php:230 | `strtr` with an array replaces the longest key that matches at each position |
| Formatter.FormatDoubled | src/WebGetter.php:217-231 | `vsprintf` turns a doubled text back into the original, so literal `%` survive the formatter |
| Formatter.StrTrMarker | src/WebGetter.php:221-230 | with unique and plain keys, `$(k)` becomes `%i$`, where i is the 1-based position of k in the context |
| Formatter.TemplateDoubled | src/WebGetter.php:217 | doubling a template of text and `$(k)s` pieces doubles the text pieces only |
| Formatter.DoubledPositioned | src/WebGetter.php:221-230 | the placeholder `strtr` rewrites each `$(k)s` to its positional directive and leaves the text pieces unchanged |
| Formatter.PositionedRenders | src/WebGetter.php:231 | `vsprintf` over the positional template yields the text with each placeholder replaced by its key's value |
| Formatter.InjectRendersTemplate | src/WebGetter.php:205-232 | `injectContext` of a well-formed template is the template with each `$(k)s` replaced by the value of k |
| Formatter.InjectWithoutMarkers | src/WebGetter.php:217-231 | a message without any of the context's placeholders comes back unchanged |
| Formatter.InjectPlainText | src/Erebot/Module/WebGetter.php:221-233 | a message without `$` comes back unchanged, `%` included |
| Formatter.InjectSelectsByPosition | src/WebGetter.php:221-231 | a worked instance: `$(b)s-$(a)s` over `a => A, b => B` gives `B-A`; the placeholders select by key, not by order |
| UrlEncoding.RawUrlEncodeAlphabet | src/WebGetter.php:296 | `rawurlencode` output holds only unreserved characters and `%XX` escapes |
| UrlEncoding.RawUrlEncodeUnreserved | src/WebGetter.php:296 | unreserved text is left unchanged |
| UrlEncoding.RawUrlDecodes | src/WebGetter.php:296 | percent-decoding the encoding gives back the UTF-8 bytes of the text |
| UrlEncoding.EncodeNameEncoded | src/WebGetter.php:296 | every encoded name is in the encoded alphabet and decodes to the name's bytes, with `arg` in front of an integer-like name |
| UrlEncoding.EncodedPair | src/WebGetter.php:296 | an encoded pair has no `&`, and splits at its first `=` into the encoded name and value |
| UrlEncoding.ParseBuiltQuery | src/WebGetter.php:296 | the query built from n pairs splits back into n pairs that decode, in order, to each pair's name and value bytes |
| UrlEncoding.EmptyQuery | src/WebGetter.php:296 | no pairs give the empty query |
| Request.CollectPairs | src/WebGetter.php:284-297 | the GET/POST loop gives exactly `Pairs`: each pair's formatted value stored under its name, or the first formatting failure |
| Request.PairsStep | src/WebGetter.php:287-294 | one iteration adds pair i under its name, or its failure becomes the loop's result |
| Request.UpToOk | src/WebGetter.php:287-294 | collecting succeeds exactly when every value formats |
| Request.UpToFirstError | src/WebGetter.php:287-294 | a failure is that of the first value that fails to format |
| Request.UpToUnique | src/WebGetter.php:293 | collected keys stay unique |
| Request.UpToLast | src/WebGetter.php:293 | a name's value is that of the last pair with that name |
| Request.UpToKeyFrom | src/WebGetter.php:293 | every key comes from the start array or from some pair's name |
| Request.UpToOther | src/WebGetter.php:293 | keys that no pair names keep their value from the start array |
| Request.PairsFormatted | src/WebGetter.php:284-297 | on success, every value formatted and the keys are unique |
| Request.PairsLastWins | src/WebGetter.php:293 | on success, each name holds the value of its last pair |
| Request.PairsKeys | src/WebGetter.php:293 | on success, every key is some pair's name |
| Request.PairsKeepOthers | src/Erebot/Module/WebGetter.php:339 | entries that no pair names are left as they were |
| Request.PairsFailure | src/WebGetter.php:287-294 | collecting fails exactly when some value fails, and with the first failure |
| Request.BuildQuery | src/WebGetter.php:284-297 | `getParams` / `getPostData` return the built query of the collected pairs, or the failure |
| Request.ParseUriRoundTrip | src/WebGetter.php:492 | splitting a URL into base, query and fragment and joining them gives the URL back |
| Request.HeadQueryRoundTrip | src/WebGetter.php:500 | the part before `?` and the part after it put together give the URL back |
| Request.BuiltQueryEnd | src/WebGetter.php:501 | a built query never ends in `&` |
| Request.MergeQueryOrder | src/WebGetter.php:500-501 | the merged query is the GET pairs, then `&` and the URL's own query when it has one |
| Request.MergeQueryWithoutParams | src/WebGetter.php:501 | without GET pairs, `rtrim` keeps the leading `&` in front of the URL's own query |
| Request.MethodOf | src/WebGetter.php:489 | POST exactly when `N.post.1.name` is configured |
| Request.UserAgentOf | src/WebGetter.php:503-510 | no `user-agent` leaves the library default; an empty one sends none; any other is sent |
| Request.BuildRequest | src/WebGetter.php:487-518 | the request equals `RequestOf`: URL, merged query, POST body, verb and options, or the first error |
| Request.RequestOptions | src/WebGetter.php:495-510 | no certificate or host-name checks, a timeout of `parseInt('timeout', 8)`, the user agent as configured, and POST iff `.post.1.name` |
| Request.LegacyOptionsOf | src/Erebot/Module/WebGetter.php:295-302 | redirects followed, SSL checks off, timeouts defaulting to 8 and 3 |
| Request.LegacyRequest.AddGetParams | src/Erebot/Module/WebGetter.php:330-341 | the query variables become `Pairs` over the old ones; nothing else changes; a failure is returned |
| Request.LegacyRequest.AddPostParams | src/Erebot/Module/WebGetter.php:365-376 | the same for the POST parameters |
| Request.LegacyRequest.SetCookieJar | src/Erebot/Module/WebGetter.php:304 | the cookie jar is on; nothing else changes |
| Request.PrepareLegacyRequest | src/Erebot/Module/WebGetter.php:287-306 | a missing URL, a failing URL template, or bad timeouts are errors, in that order; otherwise a fresh request with the formatted URL |
| Request.BuildLegacyRequest | src/Erebot/Module/WebGetter.php:497-505 | the request built by the legacy handler has exactly the description `LegacyRequestOf` gives, or its error |
| Request.LegacyRequestShape | src/Erebot/Module/WebGetter.php:287-376 | the built request has the formatted URL, POST iff `.post.1.name`, the fixed options and timeout defaults, a cookie jar, and the collected GET and POST pairs |
| Extraction.CleanTextSafe | src/WebGetter.php:389-398 | a node text goes through `htmlspecialchars` and, without `.pre`, `trim`; the result has no special HTML characters and is already trimmed |
| Extraction.CleanNodeList | src/WebGetter.php:400-416 | the node-list loop keeps the cleaned texts that are not empty, in order |
| Extraction.CleanNodesMembers | src/WebGetter.php:403-415 | a text is kept exactly when it is the non-empty cleaning of some node |
| Extraction.ConvertAllSpec | src/WebGetter.php:429-439 | `toUTF8` applies to every item when all convert; when one fails, the exception is swallowed and the items stay as they were |
| Extraction.Collapse | src/WebGetter.php:441-449 | no items give "", one item gives that item, and more stay a list |
| Extraction.NodeListValue | src/WebGetter.php:399-449 | a node list yields "", its single kept text, or the list of kept texts, converted |
| Extraction.SingleNodeValue | src/WebGetter.php:389-398 | a single node yields its cleaned text, converted |
| Extraction.Extract | src/WebGetter.php:388-449 | the method computes the value of the code as written (`ExtractAsWritten`), which on every result `query` gives is the corrected `ExtractValue` |
| Extraction.QueryResultsAgree | src/WebGetter.php:382-449 | on a node list or `false`, the only results `DOMXPath::query` gives, the code as written and the corrected string branch store the same value |
| Extraction.LegacyExtractText | src/Erebot/Module/WebGetter.php:435-454 | the legacy value is the node's text, or the texts of a node list concatenated, then converted when an encoding is set |
| Extraction.LegacyListValue | src/Erebot/Module/WebGetter.php:438-442 | the concatenation holds each node's text at its place |
| Extraction.ProcessResponse | src/WebGetter.php:380-451 | the variable loop gives exactly `ProcessResult` for the namespaced variant |
| Extraction.LegacyProcessResponse | src/Erebot/Module/WebGetter.php:427-457 | the same for the legacy variant |
| Extraction.ProcessStoresVariables | src/WebGetter.php:450 | each `vars.i` holds the value extracted with the context of the variables before it; other keys keep their values; unique keys stay unique |
| Extraction.ProcessFailure | src/WebGetter.php:382-387 | a failure is that of the first XPath template that fails to format |
| Extraction.LegacyStoresStrings | src/Erebot/Module/WebGetter.php:456 | the legacy loop never stores a list: each variable holds the text of its result (a scalar taken as its printed text) |
| Extraction.StringResultLost | src/WebGetter.php:418-450 | as written, a string XPath result is stored as "" |
| Extraction.StringResultKept | src/WebGetter.php:418-450 | the corrected extraction stores the string, converted |
| Rendering.SplitScalars | src/WebGetter.php:551-558 | the `.pre` loop gives exactly `SplitVars` |
| Rendering.SplitVarsAt | src/WebGetter.php:551-558 | keys and order are kept; a scalar `vars.*` becomes its lines, which join back to the text with breaks normalised and contain no break; arrays and other keys are unchanged |
| Rendering.SplitVarsKeys | src/WebGetter.php:552 | unique keys stay unique |
| Rendering.PreLeavesLists | src/WebGetter.php:551-558 | with `.pre`, every `vars.*` entry is a list |
| Rendering.FindMultiples | src/WebGetter.php:560-572 | the loop gives exactly `MultiplesOf`: the list names in order, or the mismatch |
| Rendering.MultiplesSpec | src/WebGetter.php:560-572 | no mismatch exactly when all lists have the length of the first; the names found are the list keys in order |
| Rendering.MismatchIff | src/WebGetter.php:563-569 | a mismatch is reported exactly when two lists differ in length |
| Rendering.BuildRow | src/WebGetter.php:596-603 | the row loop gives exactly `Row`: each list replaced by its i-th item, or "" past its end; scalars unchanged |
| Rendering.RowShape | src/WebGetter.php:596-603 | the row has the context's keys in order, a scalar's value, or the i-th item of a list |
| Rendering.RowsStep | src/WebGetter.php:595-613 | one row further: a failure stops the rows, an empty output sends nothing, any other output is rendered and sent |
| Rendering.RowsErrorStays | src/WebGetter.php:605-608 | once a row has failed, later rows change nothing |
| Rendering.EmitSent | src/WebGetter.php:608-613 | without a failure, every row formatted, and message k is the rendered output of the k-th row with a non-empty output |
| Rendering.MessageRowsSpec | src/WebGetter.php:608-613 | the rows that send are exactly those with a non-empty output, each once, in increasing order |
| Rendering.EmitFailure | src/WebGetter.php:605-608 | a failure is that of the first failing row, and the messages of the rows before it stay sent |
| Rendering.RowsNoneSent | src/WebGetter.php:608-617 | without a failure, no row message is sent exactly when every row's output is empty |
| Rendering.ReplyMismatch | src/WebGetter.php:563-569 | lists of different lengths: exactly one message, "Multiple arrays with varying lengths found" |
| Rendering.ReplySingle | src/WebGetter.php:574-587 | without lists: the format errors, or one message, the rendered output or "Oops, nothing to send!" when it is empty |
| Rendering.ReplyRows | src/WebGetter.php:589-618 | with equal-length lists: the row loop over each index of the first list's length, then "Oops, nothing to send!" if nothing went out |
| Rendering.ReplyAnswers | src/WebGetter.php:560-618 | unless the formatter throws, the reply sends at least one message |
| Handling.MimeTypeCut | src/WebGetter.php:532-533 | the content type compared is the header up to its first `;` |
| WebGetter.RenderRows | src/WebGetter.php:595-613 | the row loop produces exactly the lines and the error `RowsUpTo` defines |
| WebGetter.RowMessage | src/WebGetter.php:596-607 | a row's output is the format applied to that row's context, or the error |
| WebGetter.WebGetter.SendReply | src/WebGetter.php:551-618 | the messages appended and the error are those of `Reply`; the table is unchanged |
| WebGetter.WebGetter.SendSingle | src/WebGetter.php:574-587 | a missing format or a formatting error aborts with nothing sent; otherwise one message goes out |
| WebGetter.WebGetter.SendRows | src/WebGetter.php:589-618 | the row messages, then the fallback when none went out and nothing failed |
| WebGetter.WebGetter.Answer | src/WebGetter.php:519-618 | what follows the transfer: the transport exception, the content-type check, the extraction and the reply, as `Respond` defines |
| WebGetter.WebGetter.HandleRequest | src/WebGetter.php:469-619 | the messages appended and the outcome are those of `Handle`; the table is unchanged |
| WebGetter.InvalidMimeReply | src/WebGetter.php:532-540 | a content type outside the four XML/HTML types gets exactly "Invalid response received" |
| WebGetter.TransportFailureAborts | src/WebGetter.php:512-518 | a transport failure is not caught: nothing is sent and the handler aborts |
| WebGetter.NeverSilent | src/WebGetter.php:469-619 | a request that no exception ends always sends at least one message |
| WebGetter.EnrichedContextUnique | src/WebGetter.php:491-549 | the context the reply sees has unique keys |
| LegacyWebGetter.LegacyWebGetter.HandleRequest | src/Erebot/Module/WebGetter.php:475-556 | the messages appended and the outcome are those of `LegacyHandle`; the table is unchanged |
| LegacyWebGetter.LegacyWebGetter.Answer | src/Erebot/Module/WebGetter.php:520-555 | what follows the transfer, as `LegacyAnswer` defines |
| LegacyWebGetter.FetchErrorReported | src/Erebot/Module/WebGetter.php:520-530 | a failed transfer is caught and reported in one message; nothing aborts |
| LegacyWebGetter.FetchFailedCarries | src/Erebot/Module/WebGetter.php:524-528 | that message is the fixed text, the exception's message, and `)` |
| LegacyWebGetter.LegacyInvalidMime | src/Erebot/Module/WebGetter.php:531-537 | a content type outside the four accepted ones gets exactly "Invalid response received" |
| LegacyWebGetter.OneMessageUnlessAborted | src/Erebot/Module/WebGetter.php:475-556 | the legacy handler sends exactly one message unless an exception ends it, and then none |
| LegacyWebGetter.AnswerOneMessage | src/Erebot/Module/WebGetter.php:520-555 | the same, from the transfer on |
| PhpStrings.TrimSpec | src/WebGetter.php:75 | `trim` removes exactly the leading and trailing whitespace of PHP's set |
| PhpStrings.TrimIdempotent | src/WebGetter.php:75 | trimming twice is trimming once |
| PhpStrings.StrcspnSpec | src/WebGetter.php:533 | `strcspn` is the length of the prefix without the character |
| PhpStrings.HtmlSpecialCharsSafe | src/WebGetter.php:390-394 | `htmlspecialchars` output holds no `<`, `>`, `"` or `'` |
| PhpStrings.HtmlEscapeRoundTrip | src/WebGetter.php:390-394 | decoding the entities gives the text back |
| PhpStrings.SplitLinesJoin | src/WebGetter.php:554 | the `preg_split` lines on `\r\n`, `\r` or `\n` joined with `\n` give the text with its breaks normalised |
| PhpStrings.SplitLinesPiecesHaveNoBreak | src/WebGetter.php:554 | no line holds a break |
| PhpStrings.DecInjective | src/WebGetter.php:62 | distinct indexes give distinct parameter names |
| PhpArray.PutSpec | src/WebGetter.php:293 | `$a[$k] = $v` replaces the value of an existing key in place and appends a new key at the end |
| PhpArray.PutGet | src/WebGetter.php:293 | after `$a[$k] = $v`, k reads v and every other key reads as before |
| PhpArray.PutUnique | src/WebGetter.php:293 | assignment keeps keys unique |

## Left out

- HTTP transfer: `Requests::request` and `HTTP_Request2::send` are a parameter, a function from the request to a response or an exception message. The response is its `content-type` header, with "" when the header is absent, and the parsed document.
- DOM parsing and XPath: `loadHTML` and `query`/`evaluate` are a parameter that gives each expression's result. The result is a node list's texts, one node's text, a string, or a failure. `$domdoc->encoding` is a field that may be empty.
- Extraction.Extract / Extraction.ProcessResponse: the one document function serves both variants, so the namespaced loop may be handed a single node or a string, which `DOMXPath::query` (src/WebGetter.php:382) never gives. On those the model follows the dead branches as written (lines 390-399 and 418-419, a string ending as ""); Extraction.QueryResultsAgree shows the correction of the string branch changes nothing on the results `query` gives.
- Extraction.LegacyExtractText / Extraction.LegacyListValue: the `foreach` over `(array) $res` (src/Erebot/Module/WebGetter.php:440) is taken to visit the node list's nodes in order. What PHP's cast of a `DOMNodeList` object actually yields is not modelled.
- Extraction.LegacyStoresStrings: legacy `evaluate()` can give a float, a boolean, or `false` for a rejected expression, and the source stores that value unchanged (src/Erebot/Module/WebGetter.php:456). The model takes each such value as the text `%s` would print for it, so "holds only strings" is a fact of the model, not of the source.
- `Erebot\Utils::toUTF8`, `Locale::parseLocale` and `getTokens(1)` are foreign code: their results are parameters.
- Translation (`$fmt->_`) is the identity on the fixed English messages, with the `<var>` substitution written out. `$fmt->render` is a parameter. The logger is left out. Registering a trigger with the trigger registry is a parameter that accepts or refuses it.
- IRC: the reply target (channel or private sender) and `sendMessage` are left out. The messages sent are a list on the module object.
- The event handler and its `TextWildcard` filters that `reload` installs are left out. A message whose trigger is not in the table is modelled as an abort (`Undispatched`). In PHP the lookup would give a notice and a null index.
- `getHelp` is outside the modelled core.
- `vsprintf` is modelled for `%%`, `%s` and `%N$s` only. Other conversions, flags, widths and precisions are reported as errors. So are too few arguments and a `%` at the end, as PHP 8 throws for them.
- Extraction.CleanTextSafe: `htmlspecialchars` is modelled as escaping UTF-8 text whatever `$docEncoding` says (src/WebGetter.php:391-394, 404-408). That matches PHP for a character set it does not support, which falls back to UTF-8. With a supported multibyte set (Shift_JIS, EUC-JP, Big5 and the like) the UTF-8 `textContent` can be an invalid sequence; PHP then returns "", and line 412 drops the node. That case is not modelled.
- `Erebot\URI` normalisation is left out. The URL is split at its first `?` and `#` and joined back verbatim. `Net_URL2`'s handling of a query already in the legacy URL is left out too. There, the query variables are kept as a separate array of pairs.
- PHP version differences are left out, except that a `vsprintf` error aborts, as an exception does.
- `parseInt` is modelled as accepting decimal digits with an optional leading `-`. The exact syntax of the configuration layer, which is not part of this model, is left out.
- The formatter is passed to the request builders as a parameter, `Fmt`. The handlers instantiate it with `injectContext` over the request context.
- Rendering.BuildRow and WebGetter.WebGetter.SendReply require a context with unique keys. A PHP array has that property by construction; here it is proved of every context the handler builds (WebGetter.EnrichedContextUnique).
- Packaging, stubs and installer scripts are outside the core.
- The cookie jar is a flag: its contents are not modelled.

## Findings

| source | as written | input that shows it | evidently intended | confidence | as-written member | corrected member |
|---|---|---|---|---|---|---|
| src/WebGetter.php:418-450 | a dead branch with no observable effect: the `is_string` branch would hand a string to `count`, `array_map` and the `switch`, which never keep it (`array_map` over a non-array gives `NULL`, so the variable ends up ""; PHP 8 throws a `TypeError` instead). `DOMXPath::query` (line 382) only gives a `DOMNodeList` or `false`, so no input reaches it; a string-valued expression such as `string(//title)` gives an empty node list and "" through lines 400-416 | none through `query`; a `$res` that is the string "abc" at line 418 would be stored as "" | store the string, converted to UTF-8 like the other results | not executed | Extraction.ExtractAsWritten / Extraction.StringResultLost | Extraction.ExtractValue / Extraction.StringResultKept; Extraction.QueryResultsAgree shows the two agree on every result `query` gives, so the handler model keeps the code as written |
