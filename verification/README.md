# Verification of the remote-attestation service provider

A Dafny model of the server side of an SGX remote-attestation service, and proofs about it. It covers
the six hand-written parts of `service-provider/` that need no SGX hardware to reason about:

- **HTTP responses** (`HttpParser`, `HttpTheorems`, `HttpMessage`, `HttpRoundTrip`, `HttpReading`,
  `HttpGrammar`, `HttpFramings`, `HttpCases`, `HttpReply`, `HttpRfc`): the incremental parser as a class with the
  source's state switch, proved equal to a step function; then feed independence, the reachable-state
  invariant and length accounting (`HttpTheorems`), the grammar of the texts it completes on and what it
  makes of them (`HttpGrammar`), and which responses of RFC 7230 it reads as the RFC means them (`HttpRfc`).
- **JSON** (`Json`, `JsonParser`, `JsonTheorems`, `JsonTexts`, `JsonExponents`): value, printer and
  recursive-descent parser with its shared offset, error paths included; the round trip with its exact
  condition, and what is loaded of the texts of RFC 8259.
- **Message framing** (`HexUtil`, `MsgIO`, `Framing`, `Stdio`): the hex codec with its growing buffer,
  the socket reader and writer over a transport that takes and delivers bytes in pieces of its own
  choosing, and the stdio reader.
- **The attestation server** (`Crypto`, `Ias`, `Attestation`, `Session`, `SessionTheorems`, `SessionWires`,
  `SessionReads`, `SessionEnds`, `HonestClient`, `ServiceProvider`): subscription keys, requests, report verification,
  the report decision, and `main`'s loop over any number of sessions, with `wbuffer`, `rbuffer` and the
  selected key surviving from one to the next. `Session` says what one session and a run come to,
  `ServiceProvider` has the methods. `SessionTheorems` says which sessions release the ciphertext,
  `SessionWires` on whose wire the bytes go, `SessionReads` what the sessions read, `SessionEnds` how they
  end and what they ask the service for, and `HonestClient` what a client can rely on.
- **Requests and certificates** (`RequestBody`, `CertChain`, `Proxy`): the request body and what a JSON
  parser makes of it, URL decoding, the certificate split, proxy URLs.
- **Header blocks** (`HeaderBlocks`, `Agent`): which header block libcurl delivered last, and the answer
  a request gets from the bytes delivered.

`CText` holds the C library's character classes and number conversions. Methods have the source's loops
and fields and are proved against functions; the lemmas are about those functions. Texts are sequences
of characters whose codes stand for bytes.

What the environment does is a parameter. A transport is the list of what its next calls do (take so
many bytes, deliver these bytes, be interrupted, fail). The attestation service is the list of its
answers. The session key generated for a client, the one-time pads and the certificate store are
given. CMAC, SHA-256, ECDSA, Diffie-Hellman, AES, base64 and X.509 are total functions about which only
the result sizes are known. Clients are arbitrary.

Where a C++ program would read or write outside an object, or die of an uncaught exception, the model
says so as a result of its own (`Overrun`, `Thrown`, `LengthError`, `Crash`, `Aborted`) and claims nothing
about what follows.

Where the code and what is said about it differ, the model follows the code:

- README-old.md:435 and the comment at service-provider/sp.cpp:1616-1636 say CONFIGURATION_NEEDED is
  trusted unless strict trust is asked for; that code is commented out. GROUP_OUT_OF_DATE has a branch of
  its own that the comment does not mention (`Attestation.TrustAsDocumented`).
- Of the responses RFC 7230 allows, the parser reads a part as the RFC means them (`HttpRfc.ReadExactly`
  says which). It wants a reason phrase, in ASCII, and takes the line's `\r` for one that is missing; one
  space after the colon of a field, none at the end of the line and no tab between; a Content-Length of at
  most INT_MAX (`HttpRfc.LengthRead`); `chunked` as the only coding of a field; chunk extensions and
  trailers of letters, digits and spaces. It waits for a body after 304 and its like when the fields
  announce one. Folded fields lose the space that section 3.2.4 has a user agent put between their lines
  (`HttpRoundTrip.FoldsLoseSpaces`). Beyond the theorem: a response without length or chunks is
  complete after its header block, where section 3.3.3 has its body last until the connection closes; and
  `keepAlive` follows the first Connection field as a whole, not the list of options that section 6.1 of
  the RFC makes of all of them.
- Of the texts of RFC 8259 the JSON parser loads all without exponents, but keeps \uXXXX as it stands and
  keys in escaped form, and takes a number with nothing behind it for Null (`JsonTexts.LoadOfText`). It
  reads an escape that the RFC does not have as a backslash.
- `url_decode` takes all that strtoul converts, white space or a sign before a hex digit included
  (`CertChain.HexPairExactly`), and `get_proxy` a port with a sign (`Proxy.ProxyOfUrl`).
- The exponent loop of the JSON parser starts one character late. An exponent without a plus sign loses
  its first digit, and one of a single digit throws (`JsonExponents.ExponentExactly`).
- `MsgIO::read` returns 1 on an empty line, with no message and without consuming the line. The line can
  then block every later read, or be read as part of a frame (`Framing.EmptyLineBlocks`). A read also waits
  for a delivery when a whole frame is buffered already (`Framing.DrainExactly`).
- The start of msg4 for an untrusted client is queued but never sent; it reaches the next client that gets
  as far as msg2 (`SessionTheorems.FirstLineReceived`). Where a send fails, `MsgIO::send` leaves in wbuffer
  whatever it could not transmit, the answer to a trusted client included, and the next client to get as
  far as msg2 receives it (`SessionWires.FailedSends`, `SessionWires.EarlierLineExactly`).
- What a client sends beyond its messages stays in rbuffer and is where the next client's messages are
  looked for (`SessionReads.RunReads`, `SessionReads.LeftoverFirst`).

## Model

| member | source | states |
|---|---|---|
| HttpParser.HttpResponseParser.StatusLineByte | service-provider/httpparser/httpresponseparser.h:61-230 | One byte of the status line moves the parser and the response exactly as `StatusLineStep` says, for each of its 14 states. |
| HttpParser.HttpResponseParser.HeaderByte | service-provider/httpparser/httpresponseparser.h:231-370 | The same for a byte of the header block: names, values, folded lines, Content-Length and Transfer-Encoding noted at each line end, keep-alive decided at the blank line. |
| HttpParser.HttpResponseParser.BodyByte | service-provider/httpparser/httpresponseparser.h:371-528 | The same for a byte of the body: sized content, chunk sizes, extensions, data and trailers. |
| HttpParser.HttpResponseParser.FindConnection | service-provider/httpparser/httpresponseparser.h:333-351 | The loop over the header fields finds the first one named Connection, in any case of letters, or none. |
| HttpParser.HttpResponseParser.Parse | service-provider/httpparser/httpresponseparser.h:42-59 | `parse` on a text ends in the state, response and verdict of `Run`, from any state in which `headers.back()` is safe, and ends in such a state. |
| HttpParser.HasHeaderKept | service-provider/httpparser/httpresponseparser.h:231-320 | Whatever the byte, `headers.back()` is only ever used on a list that has an element. |
| HttpTheorems.FeedIndependence | service-provider/httpparser/httpresponseparser.h:42-59 | Any byte string cut into any pieces, empty ones included, gives the same parser, response and verdict as one call, up to the first terminal verdict. |
| HttpTheorems.PrefixIncomplete | service-provider/httpparser/httpresponseparser.h:53-59 | A text that completes on its last byte is incomplete after each proper prefix. |
| HttpTheorems.RunInv | service-provider/httpparser/httpresponseparser.h:164-506 | In every reachable state: status is 100 to 999 and the reason non-empty once read; in Post the content and what is owed add up to the declared length; a chunk has bytes left exactly in ChunkData; chunkSizeStr is empty outside the size line; all header names and values are of legal characters. Completion delivers exactly the declared length. |
| HttpTheorems.RunConserves | service-provider/httpparser/httpresponseparser.h:321-379 | Over any input, the content received and the bytes still owed are what was there before plus everything the input announced, by Content-Length or by chunk sizes. |
| HttpRoundTrip.RoundTrip | service-provider/httpparser/httpresponseparser.h:53-533 | Every response of the parser's own grammar that has a reason (any header fields, folds, sized or chunked body, extensions, trailers) completes on its last byte, not before, with version, code, reason, headers, content and keep-alive as written. |
| HttpRoundTrip.RoundTripExactly | service-provider/httpparser/httpresponseparser.h:196-220 | A response of this grammar is read back if and only if its reason phrase is not empty. |
| HttpRoundTrip.ProperPrefix | service-provider/httpparser/httpresponseparser.h:53-533 | Every proper prefix of such a response leaves the parser waiting for more. |
| HttpRoundTrip.FoldsLoseSpaces | service-provider/httpparser/httpresponseparser.h:231-270 | The lines of a folded field are joined without a space: the value is the one RFC 7230, section 3.2.4, gives it if and only if the field is not folded. |
| HttpRfc.ReadExactly | service-provider/httpparser/httpresponseparser.h:53-533 | Every response of RFC 7230 (sections 3.1.2, 3.2, 3.3.3 and 4.1, no folds) completes on its last byte with the code, reason, header values, content it has there if and only if: the reason is not empty and ASCII; every field has one space before its value, nothing after it and no tab in it; atoi takes every Content-Length for the length of the body; a field says "chunked" exactly where the body comes in chunks; and extensions and trailers are letters, digits and spaces with one equals sign at most. |
| HttpRfc.LengthRead | service-provider/httpparser/httpresponseparser.h:300-303 | A decimal Content-Length is taken as it stands if and only if it is at most 2147483647; one beyond the largest long is taken as -1. |
| CText.EqualNoCaseExactly | service-provider/httpparser/httpresponseparser.h:300-307 | Names compare equal exactly if they have one length and at every place the same character or the two cases of one letter. |
| HttpCases.CaseIndependence | service-provider/httpparser/httpresponseparser.h:271-330 | Two responses of the parser's grammar that differ only in the letter case of field names, and of the word chunked, complete alike: same code, reason, content and keep-alive, and headers that differ only so. |
| CText.StrtolHexExactly | service-provider/httpparser/httpresponseparser.h:433 | A chunk size is the value of the hex digits at its front, or of those behind 0x, up to the largest long. |
| CText.StrtolExactly | service-provider/httpparser/httpresponseparser.h:302 | strtol reads white space, one sign at most, and the digits that follow at once; nothing without a digit. |
| CText.ConversionsOf | service-provider/httpparser/httpresponseparser.h:302 | atoi keeps the 32 lower bits of a long, -1 and 0 stand for what is too large or too small for one; stol throws exactly for those. |
| HttpGrammar.CompletesExactly | service-provider/httpparser/httpresponseparser.h:53-533 | For every byte string: the parser completes if and only if the string starts with a text of the grammar, which has digits of any number in version and code, a reason that may start with a CR, folded fields, any byte after the CR of the empty line where a body follows, sizes of letters and digits that strtol takes for the length of the chunk, simple extensions and trailers. |
| HttpGrammar.StartsWithText | service-provider/httpparser/httpresponseparser.h:42-59 | The completed string is then consumed to the end of that text, no further, and read as what the text stands for. |
| HttpGrammar.MessageIsText | service-provider/httpparser/httpresponseparser.h:53-533 | The responses of `HttpRoundTrip.RoundTrip` are texts of the grammar with the same meaning. |
| HttpFramings.BothFramings | service-provider/httpparser/httpresponseparser.h:353-446 | Sent with its length or in any legal chunks, with any extensions and trailers, a body gives the same content, under the same headers but for the framing one. |
| HttpFramings.CutIsLegal | service-provider/httpparser/httpresponseparser.h:380-446 | However a body is cut into non-empty pieces, hexadecimal sizes make legal chunks of them that carry it whole. |
| HeaderBlocks.AgentCurl.HeaderCallback | service-provider/agent_curl.cpp:204-236 | After every header line, header_len is the length of all lines so far and header_pos that of the lines before the last block. |
| HeaderBlocks.AgentCurl.Transfer | service-provider/agent_curl.cpp:204-243 | After any header lines and then any pieces of body, the text from header_pos on is the last block with what follows it, then the body. |
| HeaderBlocks.LastOfBlocks | service-provider/agent_curl.cpp:210-233 | For any blocks separated by runs of blank lines, the last block starts with the first line after the last such run. |
| HeaderBlocks.LastBlockPush | service-provider/agent_curl.cpp:215-230 | One more line moves the start of the last block exactly if it is not blank and follows a blank one. |
| Agent.Perform | service-provider/agent_curl.cpp:146-202 | A whole request: transfer, then parse of the text from header_pos on; anything but completion is no answer. |
| Agent.AnswerOfResponse | service-provider/agent_curl.cpp:198-233 | Over real header lines, any blocks of non-empty lines each closed by empty ones, and however the body is cut: a request is answered if and only if the last block and the body start with a text of the parser's grammar, and then with its code, headers and content. |
| Agent.ReplyIsAnswered | service-provider/agent_curl.cpp:198-233 | Behind the blocks of any proxies, a response of RFC 7230 that the parser reads right, in header lines as libcurl delivers them, is the answer: its code, header values and content. |
| Json.JsonEscape | service-provider/json.hpp:30-45 | The loop yields `Escape` of the text. |
| Json.EscapeIsEscaped | service-provider/json.hpp:30-45 | Escaped text is recognised as such, and undoing the escapes gives the original. |
| Json.EscapeUnescape | service-provider/json.hpp:30-45 | Text in escaped form is the escape of what its escapes stand for. |
| Json.EscapedIffImage | service-provider/json.hpp:30-45 | A text is in escaped form if and only if json_escape can produce it. |
| Json.FindInsert | service-provider/json.hpp:237-239 | After storing under a key, that key finds the value and every other key what it found before. |
| Json.InsertSorted | service-provider/json.hpp:237-239 | Storing keeps the entries in the order of their keys. |
| Json.Dump | service-provider/json.hpp:339-380 | `dump` yields the specified text at every depth, for every tab. |
| JsonParser.ConsumeWs | service-provider/json.hpp:446-448 | Stops at the first character that is no white space, or reports a read past the end. |
| JsonParser.ParseString | service-provider/json.hpp:515-551 | Reads the literal that `StringAt` specifies: escapes decoded, \uXXXX kept as text, a bad one ends the literal with an empty value; a missing quote is a read past the end. |
| JsonParser.ParseNumber | service-provider/json.hpp:553-601 | Reads what `NumberAt` specifies; a number needs a delimiter after it, which the end of the text is not; stol out of range throws. |
| JsonParser.ParseExponent | service-provider/json.hpp:570-585 | The exponent loop returns what `ExponentAt` says; `JsonExponents` says what that is. |
| JsonExponents.ExponentText | service-provider/json.hpp:571-582 | Of the digits of an exponent all are read after a plus sign; otherwise all but the first, behind the minus sign if there is one. |
| JsonExponents.ExponentExactly | service-provider/json.hpp:571-585 | For any sign and digits: what is read converts to the exponent that stands there if and only if a plus sign precedes it, or it has two digits or more and the first is a zero. |
| JsonExponents.NumberWithExponent | service-provider/json.hpp:553-601 | A number with an exponent keeps its mantissa and the exponent as read, or throws, by the conversions of the two. |
| JsonExponents.SingleDigitThrows | service-provider/json.hpp:571-585 | A single-digit exponent without a plus sign makes std::stol throw. |
| JsonExponents.OneE5 | service-provider/json.hpp:585 | The number 1e5 is an example. |
| JsonParser.EntryAt | service-provider/json.hpp:459-481 | One round of the object loop never moves back, and one that goes on has consumed at least a character. |
| JsonParser.ItemAt | service-provider/json.hpp:496-509 | The same for one round of the array loop. |
| JsonParser.ParseEntry | service-provider/json.hpp:459-481 | One round of the object loop does what `EntryAt` says. |
| JsonParser.ParseObject | service-provider/json.hpp:450-484 | The object loop terminates on every text and builds what `ObjectAt` says. |
| JsonParser.ParseItem | service-provider/json.hpp:496-509 | One round of the array loop does what `ItemAt` says; an error empties the array. |
| JsonParser.ParseArray | service-provider/json.hpp:486-513 | The array loop terminates on every text and builds what `ArrayAt` says. |
| JsonParser.ParseNext | service-provider/json.hpp:627-643 | The dispatch terminates on every text; the offset never decreases. |
| JsonTheorems.ParsedWellFormed | service-provider/json.hpp:627-643 | Whatever the text and offset, error paths included, a parsed value has sorted keys in escaped form at every depth and integers that fit a long. |
| JsonTheorems.StringFromEscape | service-provider/json.hpp:515-551 | parse_string undoes json_escape (RFC 8259, section 7). |
| JsonTheorems.NextOfDump | service-provider/json.hpp:339-380 | Wherever a value was printed, parse_next reads it back and stops right after it; an integer needs a delimiter there. |
| JsonTheorems.TopLevelNumber | service-provider/json.hpp:586-589 | A bare number at top level loads as Null. |
| JsonTheorems.LoadOfDumpExactly | service-provider/json.hpp:339-380 | For every float-free value, depth and white space tab: loading the dump gives the value back if and only if its keys are in escaped form and it is not a bare number. |
| JsonTheorems.ReDumpStable | service-provider/json.hpp:646-649 | Whatever text loads as a float-free value other than a bare number, dumping and loading again gives the same value. |
| JsonTexts.LoadOfText | service-provider/json.hpp:446-649 | Every text of RFC 8259 without exponents, with any white space, escapes and repeated keys, is loaded as the value it means, of equal keys the last; \uXXXX stays as it is, keys are kept in escaped form, and a number with nothing behind it is loaded as Null. |
| JsonTexts.NumberExactly | service-provider/json.hpp:553-601 | What comes of a number by the character behind it: its value before white space, a comma or a closing bracket, Null before any other; stol throws for an integer that is no long. |
| HexUtil.HexBuffer.Hexstring | service-provider/hexutil.c:63-89 | The static buffer is at least as large as before, holds the encoding and a NUL after it, and grows in whole kilobytes. |
| HexUtil.FromHexstring | service-provider/hexutil.c:26-42 | The destination receives the bytes of the digit pairs up to one of which nothing is read; 1 is returned exactly if there is none such. Nothing else is written. |
| HexUtil.DecodeEncode | service-provider/hexutil.c:63-89 | Decoding the encoding of any bytes gives them back. |
| HexUtil.EncodeDecode | service-provider/hexutil.c:26-42 | Encoding what hex digits decode to gives the digits in lower case. |
| HexUtil.EncodeAt | service-provider/hexutil.c:63-89 | Each byte gives two digits in lower case, its upper four bits first. |
| HexUtil.ScannedExactly | service-provider/hexutil.c:26-42 | Digit pairs are read up to one that starts with a character sscanf converts nothing at; which characters those are. |
| MsgIO.MsgIO.SendPartial | service-provider/msgio.cpp:378-386 | What is appended, the text of hexstring's buffer up to its NUL, is the encoding, whatever the buffer held before. |
| MsgIO.MsgIO.Send | service-provider/msgio.cpp:346-376 | What went on the wire followed by wbuffer is what was there before, the encoding and a newline; which part went is `SendOutcome`. |
| MsgIO.MsgIO.Flush | service-provider/msgio.cpp:358-375 | The send loop over short writes, interruptions and failures does what `SendOutcome` says and terminates. |
| MsgIO.SendConserves | service-provider/msgio.cpp:358-375 | Over any plan of the transport nothing is lost, repeated or reordered; something stays behind only if a call failed. |
| MsgIO.MsgIO.Read | service-provider/msgio.cpp:281-344 | The receive loop returns the result, rbuffer and remaining deliveries of `ReadOutcome`; a frame has even positive length, sz is that length, and hex text is decoded. |
| MsgIO.ReadConserves | service-provider/msgio.cpp:294-341 | Whatever arrives, what was buffered and received is the frame with its terminator followed by what is buffered and still to come. |
| Framing.DrainIsPrefix | service-provider/msgio.cpp:294-341 | Successive reads of uniformly terminated frames, over deliveries and interrupted calls, return them in order, none lost in between, none repeated, and none after an empty one. |
| Framing.DrainExactly | service-provider/msgio.cpp:297-320 | With either terminator, all frames come out if and only if none is empty and, after every delivery, no more of them are unfinished than deliveries are left; each read waits for one before it looks at rbuffer. |
| Framing.EndToEnd | service-provider/msgio.cpp:281-386 | Parts queued one by one and sent over any short writes, received in any fragments and with any interruptions, are read as one message with all their bytes and sz twice their number, if there is a byte; otherwise as the empty line. |
| Framing.EmptyLineBlocks | service-provider/msgio.cpp:309-341 | With an empty line of either kind in front, no later read returns a frame if and only if nothing more is delivered, or the first CR LF of all that is buffered and to come is missing, in front, or at an odd place; otherwise the empty line is read as part of a frame. |
| Stdio.StdioReader.ReadMsg | service-provider/msgio.cpp:408-474 | On input without NUL, read_msg returns what `ReadMsgOutcome` says; on any input the buffer is not overrun. |
| Stdio.StdioReader.ReadLine | service-provider/msgio.cpp:421-451 | The growing loop collects a line of any length, and ends with bread below the buffer size. |
| Stdio.ReadersAgree | service-provider/msgio.cpp:281-474 | Over any line without NUL and any fragmentation and interruptions, both readers give the same result if and only if the line is not empty. |
| Proxy.Connection.GetProxyUrl | service-provider/iasrequest.cpp:131-147 | The URL of server and port, port 80 left out. |
| Proxy.GetProxy | service-provider/sp.cpp:1783-1851 | get_proxy reads server and port as `ProxyOf` says, or fails. |
| Proxy.ProxyRoundTrip | service-provider/sp.cpp:1783-1851 | Server and port come back from their URL if and only if the server is lower case, has no colon, does not start with a slash and, with port 80, has none at all. |
| Proxy.ProxyOfUrl | service-provider/sp.cpp:1783-1851 | From scheme://host[:port][/path], in any case of letters, get_proxy takes the host in lower case and the port, signed or not and modulo 2^32, or 443 for https and 80 for http; it fails for a port of 2^64 or more. |
| CertChain.UrlDecode | service-provider/iasrequest.cpp:686-720 | The decoding loop yields `UrlDecoded`, None where it throws. |
| CertChain.DecodeOfEncoding | service-provider/iasrequest.cpp:686-720 | Whichever characters an encoder escapes, in whichever case, with plus for a space, decoding gives the text back (RFC 3986, section 2.1). |
| CertChain.EveryTextEncodable | service-provider/iasrequest.cpp:686-720 | Every byte string has such an encoding. |
| CertChain.HexPairExactly | service-provider/iasrequest.cpp:697-708 | An escape is what strtoul makes of its two characters in base 16, white space and sign included, where it converts all of them; anything else throws. |
| CertChain.SplitChain | service-provider/iasrequest.cpp:503-529 | The split loop terminates; the pieces join to the whole, each after the first starts with -----BEGIN, and none contains it further in. |
| CertChain.SplitUnique | service-provider/iasrequest.cpp:503-529 | There is only one such split. |
| CertChain.PemChainSplits | service-provider/iasrequest.cpp:503-529 | A chain of certificates in PEM is split into just those certificates. |
| RequestBody.BuildBody | service-provider/iasrequest.cpp:412-426 | The loop builds `Body` of the payload. |
| RequestBody.BodyLoadsBack | service-provider/iasrequest.cpp:412-426 | For every payload, also the empty one, with names in escaped form and values without quotes or (other than in \uXXXX) backslashes, JSON::Load of the body is an object with exactly its entries. |
| RequestBody.OneParamExactly | service-provider/sp.cpp:1516 | For a payload of one parameter, which is all the server sends: the body loads back as it if and only if the name is in escaped form and the value is such a text. |
| RequestBody.OneParamText | service-provider/iasrequest.cpp:412-426 | The text of the body for one parameter. |
| Ias.Connection.constructor | service-provider/iasrequest.cpp:75-87 | A text of 32 characters given for either key can be read back, whatever the pads; any other leaves no key. The primary key is selected. |
| Ias.Connection.SetSubscriptionKey | service-provider/iasrequest.cpp:150-182 | A text of 32 characters is the key that can be read back, for every pad; what is kept is text and pad in exclusive or, and the caller's copy is zeroed. Any other text leaves no key; the other key is unchanged. |
| Ias.Connection.GetSubscriptionKey | service-provider/iasrequest.cpp:185-204 | Returns exactly the key that was set for the selected id. |
| Ias.Connection.Sigrl | service-provider/iasrequest.cpp:334-383 | One request with the selected key; the status, and the content if it is 200. |
| Ias.Connection.Report | service-provider/iasrequest.cpp:385-682 | One request posting the body; the status is `ReportStatus` of the answer, with the content if it is 200. |
| Ias.ReportStatusExactly | service-provider/iasrequest.cpp:469-648 | The status is 200 if and only if the answer is 200, its certificate header decodes and splits into certificates that all load and verify up to the signing CA, and the first one's key verifies the signature header over exactly the content. |
| Ias.ReportStatusOtherwise | service-provider/iasrequest.cpp:457-648 | The status of every other answer: 0 for none, that of the answer if it is not 200, 1001 exactly without a certificate chain that verifies, and behind one 1002 and 1000 for signature and public key. |
| Ias.HeaderMissing | service-provider/httpparser/response.h:69-80 | A header is absent exactly if its text is empty. |
| Ias.HeadersPush | service-provider/httpparser/response.h:69-80 | The text has the value of every header of the name, in any case of letters, on a line of its own and in their order. |
| Ias.SigrlPathExactly | service-provider/iasrequest.cpp:346-352 | The path names the API version and the group, its four bytes most significant first in eight hex digits. |
| Attestation.TouchChangesNoLookup | service-provider/json.hpp:237-239 | A lookup by operator[] changes the result of no other lookup, though it may insert a Null or replace the value; it adds its own key and no other. |
| Attestation.ReportObject.At | service-provider/json.hpp:237-239 | One lookup: its effect on the value, its result, and that all lookups see the same afterwards. |
| Attestation.ReportObject.Verbose | service-provider/sp.cpp:1541-1587 | All lookups of the verbose server together change no lookup, and add "version" only from API version 3 on. |
| Attestation.DecideReport | service-provider/sp.cpp:1541-1735 | With verbose on or off, the verdict and msg4 are those of the decision table over the report as it was. |
| Attestation.GetAttestationReport | service-provider/sp.cpp:1494-1779 | The report is asked for with the quote, once; the verdict is that of the table, or a rejection if the report's status is not 200. |
| Attestation.TrustAsDocumented | service-provider/sp.cpp:1616-1704 | For every quote status, strict or not: the status given is the documented one if and only if the quote status is neither CONFIGURATION_NEEDED nor GROUP_OUT_OF_DATE; whether the client is trusted is as documented unless it is the former and trust is not strict. |
| Attestation.PibOfHex | service-provider/sp.cpp:1706-1726 | A blob of hex digits: its bytes after the four of a header fill the 101 of the PIB, with zeros behind them; the program is beyond what is modelled exactly if the header is not whole or more than 117 bytes follow it. Without a blob the PIB is zeros. |
| ServiceProvider.Provider.GetSigrl | service-provider/sp.cpp:1420-1492 | The retry loop makes the requests, selects the key and obtains the list that `Fetch` says, at most two requests. |
| ServiceProvider.Provider.ProcessMsg01 | service-provider/sp.cpp:1143-1366 | Reads msg0 and msg1 and either refuses, or yields the session's keys, msg2 and the SigRL as specified. |
| ServiceProvider.Provider.CheckMsg3 | service-provider/sp.cpp:772-1044 | Reads msg3 and checks it in the order of the source; asks for the report only if the MAC verifies and the groups match. |
| ServiceProvider.Provider.AnswerMsg3 | service-provider/sp.cpp:1058-1119 | Status and PIB are queued; only for a trusted status is the ciphertext added and everything sent. |
| ServiceProvider.Provider.Serve | service-provider/sp.cpp:714-765 | One round of the loop: what is transmitted, the requests with their keys, and the server left behind are those of `SessionOf`. |
| ServiceProvider.Provider.ServerLoop | service-provider/sp.cpp:714-765 | The whole run over any clients is `Run`: each client's bytes, all requests with the key of their id, and the state at the end. Where no send fails, a client is sent a second line if and only if all the conditions of `Authorised` hold of its session. |
| Session.Fetch | service-provider/sp.cpp:1444-1478 | One or two keys are tried, two only from the primary to the secondary one, and the secondary one is never left. |
| SessionTheorems.FetchExactly | service-provider/sp.cpp:1446-1488 | The SigRL is the base64 decoding of the content of the answer 200 to the first request, or to the second if the first, under the primary key, was answered 401; otherwise there is none. |
| SessionTheorems.WholeRunSafety | service-provider/sp.cpp:714-1119 | In every run, over any clients, answers and transports: a session comes to release the ciphertext if and only if, on the bytes of that session's messages, group id 0 was named, a secret was agreed on with Ga, a SigRL was obtained, Ga is repeated, the MAC under its SMK verifies over all that follows it, the groups match, the report is genuine with the right version, a trusted quote status and a PIB that fits, report_data is the digest of Ga, Gb and VK followed by zeros, and the quote has the signer and product asked for, at least the version, and no debug flag unless allowed. |
| SessionWires.WholeRunQueues | service-provider/sp.cpp:745-1119 | The same of what is queued: a session queues a second line, its status, PIB and ciphertext, if and only if all the conditions hold of it. |
| SessionWires.WholeRunWires | service-provider/sp.cpp:745-1119 | Where no send fails, the same of the bytes transmitted: a client receives a second line if and only if all the conditions hold of its session, and the line is its own answer. |
| SessionWires.ConservedAt | service-provider/sp.cpp:745-1117 | At the start of every session, with whatever transports: what has been transmitted followed by wbuffer is the first wbuffer and all that was queued. |
| SessionWires.Placed | service-provider/sp.cpp:745-1117 | Where in the text of a run the bytes of each session stand that it transmits, queues, finds in wbuffer and leaves there. |
| SessionWires.OnOwnWire | service-provider/msgio.cpp:346-376 | Whatever its transport, what a session queues, the line with the ciphertext included, is wholly on its own client's wire if and only if it leaves nothing in wbuffer. |
| SessionWires.LineHeldExactly | service-provider/msgio.cpp:358-375 | wbuffer holds the end of a line at the start of a session if and only if an earlier session's last line has not been transmitted to its end. |
| SessionWires.LineHeldByFailure | service-provider/msgio.cpp:361-366 | For that a send has to have failed in an earlier session. |
| SessionWires.EarlierLineExactly | service-provider/msgio.cpp:346-376 | The end of an earlier session's last line is on a session's wire only if wbuffer held the end of a line; and if so, when the session reaches msg2 and its sends do not fail. |
| SessionWires.FailedSends | service-provider/msgio.cpp:361-366 | An example: a trusted client has received its msg2, the send of its answer fails, and the next client to reach msg2 receives all of that answer. |
| SessionReads.RunReads | service-provider/msgio.cpp:281-344 | Over any run, the first rbuffer and all that arrives are the frames the sessions read, in order and each with its terminator, followed by rbuffer at the end. |
| SessionReads.SessionFrames | service-provider/msgio.cpp:281-344 | The same of one session. |
| SessionReads.LeftoverFirst | service-provider/msgio.cpp:308 | A session's first frame is a prefix of what rbuffer held, or starts with all of it; with an empty rbuffer its frames are what its own client sent. |
| SessionReads.OwnFramesExactly | service-provider/msgio.cpp:308 | Where all frames of a session are hex digits, they and the new rbuffer are what its own client sent if and only if rbuffer was empty at its start. |
| SessionReads.OwnFramesUnseen | service-provider/msgio.cpp:340 | Of other frames that is not so: what is left of an earlier client can go into a frame that the client's own bytes would also make. |
| SessionReads.LeftoverEmptyLine | service-provider/msgio.cpp:316 | With an empty line left in rbuffer, the session of the next client that delivers anything and ends its lines with LF alone goes on with an unset message; nothing is known of what follows (`Aborted`). |
| SessionTheorems.WholeRunRelease | service-provider/sp.cpp:1075-1119 | What is released is the first block of the plaintext under the SK of that session's own secret, and the last request, path and body as text, asked for a report on that session's quote. |
| SessionTheorems.SessionKeys | service-provider/sp.cpp:1446-1477 | A session makes at most three requests and uses up as many answers, of which the report is the last; the key changes exactly if the first SigRL request, under the primary key, is answered 401. |
| SessionTheorems.KeyFailover | service-provider/sp.cpp:1446-1477 | Over any run, requests go from the primary to the secondary key at most once and never back, and use up the answers one by one. |
| SessionWires.RunConserves | service-provider/sp.cpp:745-765 | Over any run, all that was transmitted followed by wbuffer is the initial wbuffer and all that was queued. |
| SessionTheorems.LeftBehind | service-provider/sp.cpp:1058-1117 | Where no send fails, a session leaves in wbuffer what it found if it did not reach msg2, status and PIB if its client was not trusted, and otherwise nothing. |
| SessionTheorems.Received | service-provider/sp.cpp:745-765 | Where no send fails, what a session's client receives. |
| SessionTheorems.FirstLineReceived | service-provider/sp.cpp:745-750 | Where no send fails, the first line a client receives is its own msg2, with the size and the bytes of the list that the service supplied, if and only if no answer to an earlier untrusted client is still in wbuffer; otherwise that answer stands before it. |
| SessionTheorems.TrustedClientReceives | service-provider/sp.cpp:1058-1117 | Where no send fails, a trusted client receives after msg2 one line with status, PIB and ciphertext, and wbuffer is left empty. |
| SessionTheorems.Msg2Parts | service-provider/sp.cpp:1298-1332 | The bytes of msg2: Gb, SPID, quote type, KDF 1, the service's signature over Gb and Ga, the MAC over the first 148 bytes under the SMK, and the length of the SigRL as a 32-bit number. |
| SessionTheorems.SentExactly | service-provider/sp.cpp:750 | The list that is sent is the SigRL, cut to a length of 32 bits. |
| SessionTheorems.Msg4Parts | service-provider/protocol.h:38-51 | The bytes of msg4: the status, 0 to 3, in four bytes, and the PIB; a client is trusted exactly if the number is at least 2. |
| SessionTheorems.HonestMsg3 | service-provider/sp.cpp:852-939 | A msg3 built with the session's Ga, group and SMK passes, with its quote as sent. |
| SessionTheorems.VerdictExactly | service-provider/sp.cpp:1592-1704 | The verdict is for trust exactly if the report is genuine and holds version, quote status and a PIB that fits. |
| SessionEnds.WholeRunEndings | service-provider/sp.cpp:714-1119 | In every run: a client is told a status exactly if its msg3 is sound, the report on its quote is genuine JSON of the version asked for with a PIB, and its report data binds the session; which status, and which PIB. The server ends in a session exactly if msg1, msg3 or the report is cut short, and otherwise goes on to the next client. |
| SessionEnds.ToldExactly | service-provider/sp.cpp:949-1061 | The same of one session: the status is that of the quote status, or not trusted for another enclave than the one asked for. |
| SessionEnds.StatusForExactly | service-provider/sp.cpp:1638-1704 | The decision table, read from the entries of the report, for every quote status. |
| SessionEnds.VerdictCases | service-provider/sp.cpp:1494-1735 | A report is rejected exactly if it is not genuine, or is JSON of another version; otherwise there are status and PIB, or no PIB to be had. |
| SessionEnds.AbortedExactly | service-provider/sp.cpp:772-1366 | Which messages and reports the server ends at: those that stop before what it looks at next. |
| SessionEnds.OpeningExactly | service-provider/sp.cpp:1180-1288 | Which msg0 and msg1 open a session, and at which the server ends. |
| SessionEnds.QuoteExactly | service-provider/sp.cpp:800-939 | The same for msg3 up to the group in its quote. |
| SessionEnds.WholeRunRequests | service-provider/sp.cpp:1420-1540 | In every run, all that a session asks for, as text: the SigRL of the group that its msg1 names, and a report on the quote in its msg3; and nothing unless msg1 opens it. |
| HonestClient.HonestClientIsTrusted | service-provider/sp.cpp:714-1119 | An honest client, whatever fragments its two messages arrive in, is sent on its own wire msg2 with the SigRL and, on a line of its own, msg4 with its status and PIB and the ciphertext under the SK it shares with the service, and leaves both buffers empty; if no send fails and the service supplies a SigRL and a report that holds on a quote that binds the session and is from the enclave asked for. |
| CText.SignedPrefixOfDecimal | service-provider/json.hpp:372-373 | The number conversions undo to_string, for every integer. |

## Left out

- The value of floating-point JSON numbers: a float keeps the characters it was read from, and `std::stod` out of range is not modelled. Dumping floats is not part of the model.
- JSON values are values here: the in-place map and list objects, and the references `operator[]` returns, are modelled by what a lookup leaves behind (`Touch`).
- HexUtil.FromHexstring: where `sscanf` reads something other than two hex digits (white space, a sign, a single digit) nothing is said of the bytes. A PIB of such text, and a frame of anything but hex digits, end a run of the session model (`Aborted`).
- HeaderBlocks.AgentCurl.Transfer: all header lines come before the body. Header lines that libcurl delivers after body data, such as the trailers of a chunked body, are not part of this model.
- Sockets, accept, files, stdio itself, libcurl and OpenSSL: only what passes through the buffers is kept. The wget agent is not part of this model.
- Signals: nothing in the source handles SIGPIPE, so that a send failing with EPIPE ends the process. `SendFailed` stands for the other errors of send.
- Memory exhaustion, and `realloc` failing.
- The pointers handed to the parser after a transfer come from two different buffers (agent_curl.cpp:198-199); the model parses the text from header_pos on.
- A Content-Length that makes `reserve` throw ends the program before there is an answer; `Agent.AnswerOf` says so, but the session model has no such answer.
- SGX structure layouts are those of the SDK's headers, which are not in the repository; they appear as byte offsets in `Session`.
- The stdio mode of the server: `Stdio` models its reader, `ServiceProvider` the socket server.
- Log and debug output, and the verbose details of msg3 and the advisories; of the verbose server only the lookups in the report are kept.
- The attributes of a request other than its key, path and body: host, scheme and proxy.
- Option parsing, the client, the app and the enclave.
- Session.Recognised: MRENCLAVE is not checked, as in the source.
- RequestBody.BodyLoadsBack: for payloads of more than one parameter this is a sufficient condition, not a necessary one. `RequestBody.OneParamExactly` has the exact condition for one parameter, the only payload the server sends.
