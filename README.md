# go-tcp-server, modelled in Dafny

This project models `go-tcp-server`, a generic TCP request/response framework, and proves properties of the model. It covers:

- **The separator-based wire format.** The escaping codec turns `%` and the separator bytes into `%hh`. On top of it sit two versions of the three-part message grammar (`introduction | headers | body`). The raw version keeps hex-keyed header maps. The typed version works over the model's value types. A split function cuts the byte stream into messages.
- **The default protocol.** This is a message format composed with the conversions between messages and requests or responses. It includes the message, request and response builders and the value types (header key, header value, introduction, action, status).
- **The control flow over a connection.**
  - The default connection handler reads, parses, handles, marshals and writes. It repeats until the stream ends, a handler asks to stop, the context is done or something fails.
  - The TCP client sends a request and reads one response.
  - The request router dispatches to a handler.
  - The two middleware folds wrap handlers.

Modules and files:

| file | module | models |
|---|---|---|
| `wrappers.dfy` | `Wrappers` | `Option`, `Result` |
| `bytes.dfy` | `Bytes` | the byte-slice library calls: `Index`, `Split`, `SplitN`, `Join`, `ReplaceAll` |
| `hex.dfy` | `Hex` | `hex.EncodeToString` and `hex.DecodeString` |
| `ordering.dfy` | `Ordering` | `bytes.Compare` order; the sort of the header lines as a function with a uniqueness lemma |
| `collections.dfy` | `Collections` | map iteration as an arbitrary enumeration of the key set |
| `errors.dfy` | `Errors` | error chains and the stop sentinel `ErrHandlingStopIsRequired` |
| `separation.dfy` | `Separation` | `SeparationParams` and the conditions the round trips need |
| `escaping.dfy` | `Escaping` | `escaping.go` |
| `message.dfy` | `RawMessage` | `message.go` |
| `value_types.dfy` | `ValueTypes` | `value-types/*.go` |
| `models.dfy` | `Models` | the builders, `request.go` and `response.go` |
| `message_format.dfy` | `MessageFormat` | `message_format.go` |
| `protocol.dfy` | `SeparatorProtocol` | `protocol.go` |
| `base_protocol.dfy` | `BaseProtocol` | `base_protocol.go` |
| `network.dfy` | `Network` | the connection as a log of calls; the scanner as a cursor over tokens |
| `server.dfy` | `Server` | contexts and the handler function types |
| `connection_handler.dfy` | `ConnectionHandling` | `default_connection_handler.go` |
| `tcp_client.dfy` | `TcpClient` | `tcp_client.go` |
| `request_router.dfy` | `RequestRouting` | `request_router.go` |
| `middleware.dfy` | `Middlewares` | `request_middleware.go`, `connection_middleware.go` |

How the model is built:

- **Loops become methods.** The source's loops are methods with loop invariants, proved equal to a specification function:
  - escaping and unescaping;
  - parsing the header lines;
  - collecting the header lines;
  - the connection loop;
  - the middleware folds.

  The properties of those functions are proved as lemmas.
- **Objects the source updates in place become classes.** These are the builders, the router, the client, the connection and the scanner.
- **The connection is a log.** Every call on the connection (read deadline, write deadline, write, close) is appended to its `log`. Each kind of call fails or succeeds as the connection's `faults` say. The scanner holds the tokens still to come and the error it reports once they run out.
- **A handler error is not carried in the returned error.** On a handler error that is not the stop sentinel, `default_connection_handler.go:103` wraps `err`, which is nil there; the model follows the code. `ConnectionHandling.DefaultConnectionHandler.HandlerFailureIsFatal` states that the error carries no cause.

## Model

| member | source | states |
|---|---|---|
| Escaping.EscapeSeparators | protocols/separator-based/escaping.go:9-26 | the loops compute `Escape`: `%` is turned into `%25` first, then every occurrence of each separator, in list order, into `%hh` per byte |
| Escaping.EscapeByte | protocols/separator-based/escaping.go:13-20 | an escaped byte is `%` and two lower-case hexadecimal digits whose value is the byte |
| Escaping.UnescapeSeparators | protocols/separator-based/escaping.go:28-58 | the index-driven loop computes `Unescape` |
| Escaping.UnescapeEscape | protocols/separator-based/escaping.go:9-58 | if every separator is non-empty and holds neither `%` nor a hexadecimal digit, unescaping an escaped text gives the text back |
| Escaping.EscapeRemovesSeparators | protocols/separator-based/escaping.go:12-23 | under the same condition, no separator occurs anywhere in the escaped text |
| Escaping.EscapeExampleDummy | protocols/separator-based/escaping.go:10 | with no separators, `dummy` is returned unchanged |
| Escaping.EscapeOnlyPercent | protocols/separator-based/escaping.go:10 | with no separators, escaping only replaces each `%` by `%25` |
| Escaping.EscapeExamplePercent | protocols/separator-based/escaping.go:9-26 | `:=23%` escapes to `%3a%3d23%25` with the separator `:=`: `%` is escaped first, and the separator still is |
| Escaping.EscapeFree | protocols/separator-based/escaping.go:9-26 | a text without `%` and without the first byte of any separator is left unchanged |
| Escaping.EncodedExample | protocols/separator-based/escaping.go:13-20 | the separator `:=` is encoded as `%3a%3d` |
| Escaping.EscapeExampleSeparator | protocols/separator-based/escaping.go:9-26 | `a:=b` with the separator `:=` escapes to `a%3a%3db` |
| Escaping.EscapeOneOccurrence | protocols/separator-based/escaping.go:12-23 | one occurrence of a separator between texts free of it is replaced by its encoding, the rest unchanged |
| Escaping.UnescapeNoPercent | protocols/separator-based/escaping.go:30-36 | a text without `%` is unescaped to itself |
| Escaping.UnescapeTruncated | protocols/separator-based/escaping.go:38-40 | a `%` with fewer than two bytes after it fails with the not-enough-bytes error |
| Escaping.UnescapeInvalidDigits | protocols/separator-based/escaping.go:42-51 | a `%` followed by a byte that is not a hexadecimal digit fails with the invalid-escape error |
| Escaping.UnescapeExampleInvalid | protocols/separator-based/escaping.go:42-51 | `%xx` fails to unescape |
| Escaping.UnescapeLength | protocols/separator-based/escaping.go:30-54 | on success the output is shorter than the input by twice the number of `%` |
| Escaping.UnescapeEmpty | protocols/separator-based/escaping.go:28-58 | on success the output is empty exactly when the input is |
| Separation.EscapedField | protocols/separator-based/escaping.go:9-58 | for well-formed separators an escaped field unescapes back and holds none of the three separator bytes |
| RawMessage.ParseMessage | protocols/separator-based/message.go:21-108 | the header loop computes `Parse`: three parts, a non-empty escaped introduction, headers cut at the first key-value separator with hex-encoded keys, a later key overwriting an earlier one, and the body |
| RawMessage.ParseHeadersPrefixFails | protocols/separator-based/message.go:48-92 | once a header line fails, the whole header list fails with that line's error |
| RawMessage.ParseTooFewParts | protocols/separator-based/message.go:27-32 | fewer than three parts fail with the part count as the error |
| RawMessage.ParseEmptyIntroduction | protocols/separator-based/message.go:35-37 | for any non-empty part separator, an empty escaped introduction fails before any unescaping, whatever the other parts hold |
| RawMessage.HeaderWithoutSeparator | protocols/separator-based/message.go:57-62 | a header line without the key-value separator fails with its index |
| RawMessage.HeaderEmptyKey | protocols/separator-based/message.go:64-67 | for any non-empty key-value separator, a header line that starts with it is rejected as an empty key, before anything is unescaped |
| RawMessage.HeaderEmptyValue | protocols/separator-based/message.go:77-80 | with a one-byte key-value separator, a header line that ends with its first separator is rejected as an empty value once its key unescapes |
| RawMessage.ParseHeaderLineCases | protocols/separator-based/message.go:53-90 | each failure of a header line with its error (no separator, empty escaped key, key escape, empty escaped value, value escape), and success exactly when none applies |
| RawMessage.ParseHeadersLineFails | protocols/separator-based/message.go:49-91 | one failing header line makes the whole header list fail |
| RawMessage.ParseHeadersLastWins | protocols/separator-based/message.go:90 | the map holds the value of the last line that parses to a key: a later duplicate key overwrites an earlier one |
| RawMessage.ParseBadEscape | protocols/separator-based/message.go:39-100 | an introduction, a header line or a body that does not unescape makes the parse fail |
| RawMessage.MultiByteSeparatorQuirk | protocols/separator-based/message.go:77 | with the two-byte key-value separator `:=`, the line `k:=v` parses to the value `=v`, because the value starts one byte after the separator's position |
| RawMessage.HeaderLineParses | protocols/separator-based/message.go:53-90 | a marshalled header line with non-empty key and value parses back to the hex-encoded key and the value |
| RawMessage.EscapedHeaderLine | protocols/separator-based/message.go:125-131 | the marshalled header line is the escaped key and the escaped value, joined by the key-value separator |
| RawMessage.CollectHeaderLines | protocols/separator-based/message.go:118-132 | the loop fails exactly when some stored key is not hexadecimal text; otherwise it holds one line per stored key, in map order |
| RawMessage.MarshalMessage | protocols/separator-based/message.go:110-146 | the result is the escaped introduction, the header lines sorted byte-wise and the escaped body, joined by the part separator; a non-hexadecimal stored key is an error |
| RawMessage.MarshalIntroductionOnly | protocols/separator-based/message.go:137-145 | a message with no headers and an empty body marshals as the introduction followed by two part separators |
| RawMessage.ParseMarshal | protocols/separator-based/message.go:21-146 | for well-formed separators, a message with a non-empty introduction, non-empty lower-case hexadecimal keys and non-empty values is parsed back from its marshalled form |
| Ordering.Sort | protocols/separator-based/message.go:133-135 | the sorted lines are ordered by `bytes.Compare` and are a permutation of the input |
| Ordering.SortIgnoresOrder | protocols/separator-based/message.go:133-135 | the sort's result does not depend on the order the map is visited in |
| Hex.DecodeEncode | protocols/default/models/value-types/header_key.go:19-42 | decoding the hexadecimal text of bytes gives the bytes back |
| Hex.EncodeInjective | protocols/default/models/value-types/header_key.go:19 | two byte strings have the same hexadecimal text exactly when they are equal |
| ValueTypes.NewHeaderKey | protocols/default/models/value-types/header_key.go:13-22 | an empty key is rejected; a non-empty key is stored as its lower-case hexadecimal text and decodes back to itself |
| ValueTypes.MustNewHeaderKey | protocols/default/models/value-types/header_key.go:24-34 | on the inputs where it does not panic, it returns what `NewHeaderKey` constructs |
| ValueTypes.HeaderKey.ToBytes | protocols/default/models/value-types/header_key.go:36-43 | decoding fails exactly when the stored text is not hexadecimal; stored lower-case text decodes to bytes that encode back to it |
| ValueTypes.HeaderKeyInjective | protocols/default/models/value-types/header_key.go:13-22 | two keys are equal exactly when their raw bytes are |
| ValueTypes.HeaderKeyExample | protocols/default/models/value-types/header_key.go:19 | `dummy` is stored as `64756d6d79` |
| ValueTypes.HeaderKeyInvalid | protocols/default/models/value-types/header_key.go:37-40 | the stored text `invalid` does not decode |
| ValueTypes.NewHeaderValue | protocols/default/models/value-types/header_value.go:12-21 | an empty value is rejected; a non-empty one is stored unchanged |
| ValueTypes.MustNewHeaderValue | protocols/default/models/value-types/header_value.go:23-33 | on the inputs where it does not panic, it returns what `NewHeaderValue` constructs |
| ValueTypes.NewIntroduction | protocols/default/models/value-types/introduction.go:11-24 | an empty introduction is rejected; a non-empty one is stored and returned unchanged |
| ValueTypes.NewAction | protocols/default/models/value-types/action.go:11-24 | an empty action is rejected; a non-empty one is stored and returned unchanged |
| ValueTypes.NewStatus | protocols/default/models/value-types/status.go:11-24 | an empty status is rejected; a non-empty one is stored and returned unchanged |
| Models.PresentHeaders | protocols/default/models/message_builder.go:49-52 | headers that are present but empty become absent; otherwise they are kept |
| Models.PresentBody | protocols/default/models/message_builder.go:54-57 | a body that is present but empty becomes absent; otherwise it is kept |
| Models.BuiltMessage | protocols/default/models/message_builder.go:41-69 | building fails exactly when the introduction was never set; otherwise it holds the introduction and the headers and body, with empty ones made absent |
| Models.MessageBuilder.constructor | protocols/default/models/message_builder.go:16-18 | a new builder has no field set |
| Models.MessageBuilder.SetIntroduction | protocols/default/models/message_builder.go:20-25 | sets the introduction only and returns the same builder |
| Models.MessageBuilder.SetHeaders | protocols/default/models/message_builder.go:27-32 | sets the headers only and returns the same builder |
| Models.MessageBuilder.SetBody | protocols/default/models/message_builder.go:34-39 | sets the body only and returns the same builder |
| Models.MessageBuilder.Build | protocols/default/models/message_builder.go:41-69 | returns `BuiltMessage` of the builder's fields and leaves the builder unchanged |
| Models.BuiltRequest | protocols/default/models/request_builder.go:41-69 | building fails exactly when the action was never set; otherwise empty headers and body are made absent |
| Models.RequestBuilder.constructor | protocols/default/models/request_builder.go:16-18 | a new builder has no field set |
| Models.RequestBuilder.SetAction | protocols/default/models/request_builder.go:20-25 | sets the action only and returns the same builder |
| Models.RequestBuilder.SetHeaders | protocols/default/models/request_builder.go:27-32 | sets the headers only and returns the same builder |
| Models.RequestBuilder.SetBody | protocols/default/models/request_builder.go:34-39 | sets the body only and returns the same builder |
| Models.RequestBuilder.Build | protocols/default/models/request_builder.go:41-69 | returns `BuiltRequest` of the builder's fields and leaves the builder unchanged |
| Models.BuiltResponse | protocols/default/models/response_builder.go:41-69 | building fails exactly when the status was never set; otherwise empty headers and body are made absent |
| Models.ResponseBuilder.constructor | protocols/default/models/response_builder.go:16-18 | a new builder has no field set |
| Models.ResponseBuilder.SetStatus | protocols/default/models/response_builder.go:20-25 | sets the status only and returns the same builder |
| Models.ResponseBuilder.SetHeaders | protocols/default/models/response_builder.go:27-32 | sets the headers only and returns the same builder |
| Models.ResponseBuilder.SetBody | protocols/default/models/response_builder.go:34-39 | sets the body only and returns the same builder |
| Models.ResponseBuilder.Build | protocols/default/models/response_builder.go:41-69 | returns `BuiltResponse` of the builder's fields and leaves the builder unchanged |
| Models.NewRequestFromMessage | protocols/default/models/request.go:16-30 | fails exactly when the introduction is empty; otherwise the action is the introduction and headers and body are copied |
| Models.RequestMessage | protocols/default/models/request.go:44-69 | fails exactly when the action is empty; otherwise the introduction is the action, and headers and body pass through the builder's normalisation |
| Models.Request.ToMessage | protocols/default/models/request.go:44-69 | driving a message builder with the present fields gives `RequestMessage` |
| Models.NewResponseFromMessage | protocols/default/models/response.go:16-30 | fails exactly when the introduction is empty; otherwise the status is the introduction and headers and body are copied |
| Models.ResponseMessage | protocols/default/models/response.go:44-69 | fails exactly when the status is empty; otherwise the introduction is the status, and headers and body are normalised |
| Models.Response.ToMessage | protocols/default/models/response.go:44-69 | driving a message builder with the present fields gives `ResponseMessage` |
| Models.RequestRoundTrip | protocols/default/models/request.go:16-69 | a request with a non-empty action and no present-but-empty parts is rebuilt from its message |
| Models.ResponseRoundTrip | protocols/default/models/response.go:16-69 | a response with a non-empty status and no present-but-empty parts is rebuilt from its message |
| Models.MessageRoundTrip | protocols/default/models/request.go:16-69 | a normalised message with a non-empty introduction is rebuilt from the request and from the response made of it |
| MessageFormat.Construct | protocols/separator-based/message_format.go:49-56 | a constructor's error is wrapped with the step's kind, and its value is passed on |
| MessageFormat.ParseHeaderLines | protocols/separator-based/message_format.go:58-112 | the header loop computes `ParseFields`: each line cut at the first key-value separator, key and value unescaped and checked non-empty, a later key overwriting an earlier one |
| MessageFormat.ParseMessage | protocols/separator-based/message_format.go:26-135 | the method computes `Parse`: three parts, an introduction that is non-empty after unescaping, the headers, the body, and the builder's normalisation |
| MessageFormat.ParseAgreesWithRaw | protocols/separator-based/message_format.go:26-135 | the typed parse succeeds exactly when the raw parse does, and yields the raw message in the model's types |
| MessageFormat.CollectHeaderLines | protocols/separator-based/message_format.go:147-162 | the loop fails exactly when a key does not decode; otherwise it holds one escaped line per key |
| MessageFormat.MarshalMessage | protocols/separator-based/message_format.go:137-176 | the result is the raw marshalling of the message's fields, absent headers and body giving empty parts; a key that does not decode is an error |
| MessageFormat.TypedRawHeaders | protocols/separator-based/message_format.go:58-112 | converting typed headers to raw ones and back is the identity |
| MessageFormat.ParseMarshal | protocols/separator-based/message_format.go:26-176 | for well-formed separators, a normalised message with non-empty fields and lower-case hexadecimal keys is parsed back from its marshalled form |
| MessageFormat.ParseExampleEmptyParts | protocols/separator-based/message_format.go:58-126 | `dummy` followed by two vertical-bar part separators parses to a message with absent headers and body |
| MessageFormat.MarshalExampleEmptyParts | protocols/separator-based/message_format.go:167-175 | a message with only an introduction `dummy` marshals to `dummy` followed by two vertical-bar part separators |
| MessageFormat.MarshalIntroductionOnly | protocols/separator-based/message_format.go:167-175 | a message with only an introduction marshals as the introduction followed by two part separators |
| MessageFormat.MultiByteSeparatorQuirk | protocols/separator-based/message_format.go:93 | with the key-value separator `:=`, the line `k:=v` parses to the value `=v` |
| MessageFormat.ParseEmptyIntroduction | protocols/separator-based/message_format.go:41-56 | for any non-empty part separator, an empty introduction is rejected by the introduction constructor |
| MessageFormat.HeaderFieldCases | protocols/separator-based/message_format.go:65-108 | each failure of a header with its error (no separator, key escape, key empty once unescaped, value escape, value empty once unescaped), and success exactly when none applies |
| MessageFormat.ParseFieldsLineFails | protocols/separator-based/message_format.go:61-111 | one failing header makes the whole header list fail |
| MessageFormat.ParseBadEscape | protocols/separator-based/message_format.go:41-120 | an introduction, a header or a body that does not unescape makes the parse fail |
| SeparatorProtocol.InitialScannerBufferSize | protocols/separator-based/protocol.go:37-39 | the initial buffer size is 4096 |
| SeparatorProtocol.MaxTokenSize | protocols/separator-based/protocol.go:41-43 | the largest token is 65536 bytes |
| SeparatorProtocol.ExtractToken | protocols/separator-based/protocol.go:45-64 | a token exactly when the data holds the separator: the bytes before its first occurrence, advancing past it; without one, a request for more data unless the input has ended; at the end, the rest as the final token, none when the rest is empty |
| SeparatorProtocol.ExtractIgnoresLatest | protocols/separator-based/protocol.go:51-63 | once the separator has arrived, the result does not depend on whether more data may follow |
| SeparatorProtocol.Tokens | protocols/separator-based/protocol.go:45-64 | repeated extraction over the whole input yields tokens free of the separator |
| SeparatorProtocol.TokensOfJoined | protocols/separator-based/protocol.go:45-64 | non-empty pieces free of a one-byte separator, joined by it, are extracted back, with or without a trailing separator |
| SeparatorProtocol.TokensExample | protocols/separator-based/protocol.go:45-64 | `dummy #0`, `dummy #1` and `dummy #2`, separated by newlines, are extracted as those three tokens, with or without a trailing newline |
| SeparatorProtocol.ParseRequest | protocols/separator-based/protocol.go:66-78 | succeeds exactly when the message parses; the action is the introduction, and headers and body are copied; errors are wrapped |
| SeparatorProtocol.ParseResponse | protocols/separator-based/protocol.go:80-92 | the same, with the introduction as the status |
| SeparatorProtocol.MarshalRequest | protocols/separator-based/protocol.go:94-108 | fails exactly when a header key is not hexadecimal text, with the message error wrapped |
| SeparatorProtocol.MarshalResponse | protocols/separator-based/protocol.go:110-124 | the same for a response |
| SeparatorProtocol.RequestRoundTrip | protocols/separator-based/protocol.go:66-108 | for single-byte, pairwise distinct separators that are neither `%` nor hexadecimal digits, a request with a non-empty action, non-empty lower-case hexadecimal stored keys and non-empty values is parsed back from its marshalled bytes |
| SeparatorProtocol.ResponseRoundTrip | protocols/separator-based/protocol.go:80-124 | under the same separator conditions, a response with a non-empty status, non-empty lower-case hexadecimal stored keys and non-empty values is parsed back from its marshalled bytes |
| BaseProtocol.InitialScannerBufferSize | protocols/default/base_protocol.go:28-30 | the initial buffer size is 4 * 1024 |
| BaseProtocol.MaxTokenSize | protocols/default/base_protocol.go:32-34 | the largest token is 64 * 1024 bytes |
| BaseProtocol.ParseRequest | protocols/default/base_protocol.go:36-56 | a format error is wrapped; an empty introduction fails the request's construction; otherwise the action is the introduction and headers and body are the message's |
| BaseProtocol.ParseResponse | protocols/default/base_protocol.go:58-78 | the same with the status |
| BaseProtocol.MarshalRequest | protocols/default/base_protocol.go:80-99 | an empty action fails before the format is called; otherwise the format's error is wrapped or its bytes returned unchanged |
| BaseProtocol.MarshalResponse | protocols/default/base_protocol.go:101-120 | the same with the status |
| BaseProtocol.RequestRoundTrip | protocols/default/base_protocol.go:36-99 | for a format that round-trips the request's message, parsing the marshalled request gives it back |
| BaseProtocol.ResponseRoundTrip | protocols/default/base_protocol.go:58-120 | the same for a response |
| BaseProtocol.SeparatorFormatRoundTrips | protocols/separator-based/message_format.go:26-176 | for single-byte, pairwise distinct separators that are neither `%` nor hexadecimal digits, the separator-based format parses back every message with a non-empty introduction, no present-but-empty headers or body, non-empty lower-case hexadecimal stored keys and non-empty values (`MessageFormat.Marshallable`) |
| BaseProtocol.SeparatorRequestRoundTrip | protocols/default/base_protocol.go:36-99 | with the separator-based format and the same separator conditions, a request with a non-empty action, no present-but-empty headers or body, non-empty lower-case hexadecimal stored keys and non-empty values survives marshalling and parsing |
| Errors.Wrap | default_connection_handler.go:153-154 | wrapping an error keeps it a stop request exactly when it was one |
| Errors.Plain | default_connection_handler.go:103 | an error that wraps nothing is never a stop request |
| Network.Connection.SetReadDeadline | default_connection_handler.go:59-64 | records the deadline call and answers with the connection's fault for it |
| Network.Connection.SetWriteDeadline | default_connection_handler.go:113-118 | records the deadline call and answers with the connection's fault for it |
| Network.Connection.Write | default_connection_handler.go:120-122 | records the write and answers with the connection's fault for it |
| Network.Connection.Close | tcp_client.go:121-127 | records the close and answers with the connection's fault for it |
| Network.Scanner.FromInput | default_connection_handler.go:138-143 | a scanner over a fully arrived input yields the tokens of repeated extraction, then a clean end |
| Network.Scanner.Scan | default_connection_handler.go:66-75 | yields the next token and advances, or reports the end and its error and stays put |
| Server.WithoutCancel | default_connection_handler.go:86 | the handling context is never done and has no deadline |
| Server.WithTimeout | default_connection_handler.go:88-96 | the timeout is exactly the earlier of the parent's and the new one (the new one when the parent has none); cancellation is inherited |
| ConnectionHandling.DefaultConnectionHandler.HandlingContext | default_connection_handler.go:84-96 | the handler runs detached from cancellation, with the handling timeout exactly when one is set |
| ConnectionHandling.DefaultConnectionHandler.Cycle | default_connection_handler.go:54-132 | one token is taken exactly when a read happens; a pass without error has read and handled a token |
| ConnectionHandling.DefaultConnectionHandler.HandleRequest | default_connection_handler.go:54-132 | the connection's calls, the scanner's position and the error are those of `Cycle` for the next token |
| ConnectionHandling.DefaultConnectionHandler.RunContinues | default_connection_handler.go:145-159 | a pass without error serves one token and the loop goes on with the rest |
| ConnectionHandling.DefaultConnectionHandler.HandleConnection | default_connection_handler.go:134-163 | the loop's calls, scanner position and error are those of `Run`: stop when the context is done, go on after a success, end quietly on a stop request, fail otherwise |
| ConnectionHandling.DefaultConnectionHandler.DeadlinesOnlyWhenConfigured | default_connection_handler.go:59-122 | in every pass, the read deadline is set first and only with a read timeout, the write deadline only with a write timeout and right before the write, and at most one response is written |
| ConnectionHandling.DefaultConnectionHandler.ReplyInOrder | default_connection_handler.go:106-122 | after the read deadline, the reply sets the write deadline and then writes, at most once |
| ConnectionHandling.DefaultConnectionHandler.EndOfStreamStops | default_connection_handler.go:66-162 | a clean end of the stream is a stop request with nothing written, and the loop then ends without an error |
| ConnectionHandling.DefaultConnectionHandler.ReadFailureIsFatal | default_connection_handler.go:66-158 | a read error ends the loop with that error wrapped |
| ConnectionHandling.DefaultConnectionHandler.ReadDeadlineFailureIsFatal | default_connection_handler.go:59-64 | a failed read deadline ends the pass with that error before any token is taken or anything written, and the loop ends with it |
| ConnectionHandling.DefaultConnectionHandler.WriteDeadlineFailureWritesNothing | default_connection_handler.go:113-118 | with a failing write deadline every pass ends with an error and writes nothing; a ready response ends the pass with the deadline's error |
| ConnectionHandling.DefaultConnectionHandler.ParseFailureIsFatal | default_connection_handler.go:77-82 | a parse error ends the pass before the handler runs, and is not a stop request |
| ConnectionHandling.DefaultConnectionHandler.HandlerFailureIsFatal | default_connection_handler.go:102-104 | a handler error that is not a stop request ends the pass with nothing written, and the handler's error is not in the chain |
| ConnectionHandling.DefaultConnectionHandler.MarshalFailureWritesNothing | default_connection_handler.go:106-111 | a marshal error ends the pass before the write deadline and the write |
| ConnectionHandling.DefaultConnectionHandler.StopRequestReplies | default_connection_handler.go:102-156 | a handler that asks to stop still has its response written, exactly once, and the loop then ends without an error |
| ConnectionHandling.DefaultConnectionHandler.CancelledBeforeReading | default_connection_handler.go:146-149 | a context done at the top of a pass ends the loop with an error before anything is read |
| ConnectionHandling.DefaultConnectionHandler.ServesEveryRequest | default_connection_handler.go:134-163 | on a faultless connection, every request that parses, is handled and marshals is answered with exactly one write, and the stream's end closes the loop without error |
| ConnectionHandling.Writes | default_connection_handler.go:120-122 | counts the writes: zero exactly when no call is a write |
| ConnectionHandling.WritesAppend | default_connection_handler.go:153-159 | the writes of successive passes add up |
| TcpClient.AllSteps | tcp_client.go:82-98 | a full exchange sets the write deadline only with a write timeout, writes, then sets the read deadline only with a read timeout |
| TcpClient.Send | tcp_client.go:74-119 | a marshal error makes no call; otherwise the calls are a prefix of the full exchange; at most one token is taken, and a success has taken one |
| TcpClient.TCPClient.FromConnection | tcp_client.go:56-72 | the client holds the connection, the scanner and the options |
| TcpClient.TCPClient.SendRequest | tcp_client.go:74-119 | the connection's calls, the scanner's position and the result are those of `Send` for the next token |
| TcpClient.TCPClient.Close | tcp_client.go:121-127 | closes the connection, and fails exactly when closing does, with that error wrapped |
| TcpClient.MarshalFailureSendsNothing | tcp_client.go:77-80 | a request that does not marshal makes no call and takes no token |
| TcpClient.WriteFailureReadsNothing | tcp_client.go:82-91 | a failed write deadline or write sets no read deadline and takes no token; a failed write deadline also means nothing is written |
| TcpClient.ReadDeadlineAfterWrite | tcp_client.go:93-98 | the read deadline is set only with a read timeout, and only right after a successful write |
| TcpClient.EndOfStreamAsksToStop | tcp_client.go:104-108 | the end of the stream without a response is an error that asks to stop |
| TcpClient.ReadFailureReported | tcp_client.go:100-103 | a read error is returned wrapped, and is a stop request only when the error is one |
| TcpClient.ResponseIsParsedToken | tcp_client.go:111-118 | after a full exchange the result is exactly the parsed token, a parse error wrapped |
| RequestRouting.Route | request_router.go:63-71 | the handler registered under the route's hexadecimal text, else the not-found handler if set |
| RequestRouting.RouteAfterRegistering | request_router.go:36-73 | after registering a handler, the same route, byte for byte, goes to it; every other route goes where it went before |
| RequestRouting.RouteWithoutRoutes | request_router.go:64-71 | with no route registered, every route goes to the not-found handler if set |
| RequestRouting.RequestRouter.constructor | request_router.go:27-34 | a new router has no routes and no not-found handler |
| RequestRouting.RequestRouter.SetRouteHandler | request_router.go:36-41 | registers the handler under the route's hexadecimal text, replacing an earlier one, and changes nothing else |
| RequestRouting.RequestRouter.SetNotFoundHandler | request_router.go:43-47 | sets the not-found handler and leaves the routes as they were |
| RequestRouting.RequestRouter.HandleRequest | request_router.go:49-74 | an extractor error is returned wrapped; a route that leads nowhere is an error; otherwise the chosen handler's response and error are returned as they are |
| Middlewares.ApplyRequestMiddlewares | request_middleware.go:7-16 | the loop returns the handler with the middlewares applied in list order, the last one outermost |
| Middlewares.ApplyConnectionMiddlewares | connection_middleware.go:5-14 | the same for connection handlers |
| Middlewares.WrappedEmpty | request_middleware.go:7-15 | with no middlewares the handler is returned unchanged |
| Middlewares.WrappedAppend | request_middleware.go:11-13 | applying two lists one after the other is applying their concatenation |
| Middlewares.WrappedLast | request_middleware.go:11-13 | the last middleware of the list wraps all the others |
| Middlewares.WrapFromIsWrapped | request_middleware.go:11-13 | the fold read from the innermost middleware on gives the same handler |
| Middlewares.LastMiddlewareRunsFirst | request_middleware.go:11-13 | middlewares listed as 23 then 42 run as 42 first, then 23 |
| Middlewares.RequestResultPropagates | request_middleware.go:7-16 | through middlewares that delegate, the inner handler's response and error come back unchanged |
| Middlewares.ConnectionResultPropagates | connection_middleware.go:5-14 | through delegating connection middlewares, the inner handler's error comes back unchanged |

## Left out

- The TCP server (`tcp_server.go`): the accept loop, one goroutine per connection, the wait group, the stop flag and the listener. It is concurrency, which this model does not cover.
- Dialing and listening (`NewTCPClient`, `NewTCPServer`), and the bytes actually read from and written to a socket. These are I/O. A connection is the ordered log of the calls made on it, and each kind of call fails or succeeds as a fixed per-connection fault says.
- The clock. `time.Now()` is not modelled, and a deadline is recorded by the timeout it was computed from.
- `bufio.Scanner` internals: the initial buffer, growth up to the maximum token size, and the too-long-token error. A scanner is the sequence of tokens still to come plus the error it reports at the end. Its sizes appear only as the protocols' constants.
- SeparatorProtocol.Tokens: requires a non-empty separator. With an empty one the extraction would never advance, so the scanner would not terminate.
- Empty separators in the byte-slice library calls. Go splits around each UTF-8 sequence; the model splits per byte, which differs only on non-ASCII data.
- Context machinery. A context is reduced to the first loop pass at which it is found done, plus its timeout. Cancellation and deadline expiry are not told apart. The handling context's own expiry inside a user handler is the handler's business.
- ConnectionHandling.DefaultConnectionHandler.HandleConnection: takes the scanner as a parameter instead of building it from the connection. Its construction with the protocol's split function is `Network.Scanner.FromInput`.
- TcpClient.TCPClient.FromConnection: takes the scanner as a parameter instead of building it from the connection with the protocol's split function and sizes, so nothing ties the tokens the client reads to the connection's input.
- Go's zero values. An operation that returns a zero value alongside an error returns only the error (`Result.Err`). The router's zero response is an explicit constant of the router.
- TcpClient.TCPClient.SendRequest: returns `Result` in place of the pair (zero response, error).
- `errors.Join` of one non-nil error is modelled as that error.
- Exact error texts. An error is its kind, its wrapped cause and whether it is the stop sentinel.
- ValueTypes.MustNewHeaderKey: the panic on an empty key is modelled as a precondition.
- ValueTypes.MustNewHeaderValue: the panic on an empty value is modelled as a precondition.
- The sort of the header lines (`slices.SortStableFunc` with `bytes.Compare`) is modelled as a function on values, not as an in-place sort. Lines that compare equal are equal byte strings, so stability does not change the result.
- User request handlers, connection handlers, route extractors, middlewares and the protocol's parse and marshal functions are pure functions. Their own side effects are not modelled.
- `common.go`, the function-to-interface adapters (`request_handler.go`, `connection_handler.go`), the plain record files (`message.go` of the models, `headers.go`, `body.go`, the separator-based `common.go`) and the generated mocks. They hold no logic beyond types, which appear as datatypes.
