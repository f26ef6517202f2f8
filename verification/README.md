# Cyper, modelled and proved

A Dafny model of the stateful and encoding cores of the HTTP client `cyper` and of the graceful shutdown in
`cyper-axum`. `dafny verify dfyconfig.toml` checks the whole project.

The network, the server, the clock, random numbers and foreign libraries appear as parameters: an arbitrary server
function, arbitrary lists of body frames, an arbitrary codec that meets a written contract, arbitrary interleavings.
Each operation that updates something in place is a method proved against a function of its inputs or of the old
state; the main results are lemmas about those functions, over every input, run or interleaving.

| modules | what they hold |
|---|---|
| `Prelude`, `Text` | byte strings, substring search, trimming, splitting, decimal numbers |
| `PercentEncoding`, `PartHeaders`, `BodyStream`, `MultipartReader`, `Multipart` | a form: encode sets, header blocks, bodies, the stream, the predicted length |
| `DispositionReader`, `FormReader`, `WireExamples` | a reader written from the standards, and exactly which forms it gets back; forms spelled out byte for byte |
| `Codecs`, `Decompression`, `DecodingAgrees`, `ResponseDecoding` | the codec contract, the streaming decoder, independence from frames, the response headers |
| `HeaderMaps`, `Redirect`, `RedirectEngine`, `RedirectRuns` | header maps and their merge, redirect rules, the loop, what holds over whole runs |
| `AltSvc`, `AltSvcGrammar`, `AltSvcRoundTrip`, `KnownHosts` | the Alt-Svc parser, which texts it accepts and what they say, its printer, the cache of known hosts and its history |
| `Steps`, `Http3Pool`, `GracefulShutdown` | runs of step systems, and the two concurrent protocols as such |

## Conventions

- Bytes are written as characters below 256. Names and file names are the bytes of their UTF-8 text. Lengths that the
  source keeps in 64 bits are `u64`, and additions to them wrap, as in a release build.
- Reading back is stated against independent readers: `MultipartReader` follows section 5.1.1 of RFC 2046, and
  `DispositionReader` reads the parameters of section 4.2 of RFC 7578 in two ways, because that section leaves the
  quoting of `name` open. `QuotedPair` follows the parameter grammar (a backslash quotes, an unquoted value ends at
  `;`); `Verbatim` takes the quoted name as it stands up to the next quote. Both percent-decode the name.
- A codec is a pair of functions. `Codecs.Lawful` is the contract they are held to, over a meaning that says what fed
  bytes decode to and where a stream ends. `DecodingAgrees.BytewiseLawful` shows a whole family of codecs that meet it.
- The step systems interleave at the granularity of the locks and awaits of the source. `Steps.Run` and each system's
  `Reachable` range over all sequences of steps.

## What turned out not to hold

For each of these promises the model has the exact condition under which it holds, and an input that breaks it.

- **Path-segment names.** That encode set leaves `\` and `;` alone. A name with a backslash and nothing to encode goes
  out as a quoted string in which the backslash quotes the next character, and a name with a semicolon and something
  to encode goes out unquoted and is cut at the semicolon. Condition: `DispositionReader.DispositionRoundTrip`; inputs:
  `DispositionReader.PathSegmentNamesLost`. Under attr-char no name is lost.
- **"Nothing has been percent encoded."** The comment at `cyper/src/multipart.rs:534` says so of a borrowed result, but
  a name of one byte that has to be encoded is borrowed too, hence `name="%22"`; this is why the reader percent-decodes
  both forms. Condition: `PercentEncoding.BorrowedIff`; input: `PercentEncoding.EncodedAndBorrowed`.
- **Custom part headers.** A header may be named `--boundary…`; its line then reads as a delimiter. Nothing else in a
  header block can. Condition: `FormReader.BoundaryInBlock`; inputs: `FormReader.BoundaryNamedFieldLost`, with the name of
  `FormReader.BoundaryNamedField`.
- **Length prediction** of truthful lengths is exact below 2^64 and wrong from there on. Condition:
  `Multipart.Form.ComputeLength`; input: `Multipart.HugeFormMispredicted`.
- **HTTP/3 dials that fail.** The key stays in `connecting` after a dial that failed or was dropped, so it is never
  dialled again; `Http3Pool.LostForGood` says what that means for everyone who asks later. Condition:
  `Http3Pool.DialledAgainIff`; input: `Http3Pool.DialCanBeLost`.
- **HTTP/3 pool entries** can be replaced while alive, if another dial for the key fits between a miss and the dial it
  leads to. Condition, by the pool's state when the dial begins: `Http3Pool.MayReplaceIff` and, for each way on from
  there, `Http3Pool.DialReplacesIff`; input: `Http3Pool.ReplacedAfterLateDial`. With the miss and the start of the dial
  back to back it cannot happen: `Http3Pool.NeverReplaced`.
- **Default headers** with several values for one name: only the first is sent. Condition:
  `RedirectEngine.DefaultsSentWholeIff`; input: `RedirectEngine.SecondDefaultLost`.
- **The redirect limit** is looked at before the status, so any 3xx response with a usable location, a 304 or 300
  included, is the redirect error once the limit is used up; below the limit it is returned as it is. Condition:
  `RedirectRuns.FailureHidesResponse`; input: `RedirectRuns.NotModifiedAtLimit`.
- **Locations that cannot be sent to.** A server can make the redirect loop panic by a location that resolves to a URL
  that does not parse as a URI (`cyper/src/client.rs:195-201`) or, where known hosts are looked up, to one without a
  host (`cyper/src/client.rs:226`). Condition, under every policy: `RedirectRuns.PanicsExactly`; inputs:
  `RedirectRuns.PanicOnNoUri` and `RedirectRuns.PanicOnNoHost`.
- **Several Content-Encoding values:** only the first listed is decoded, and all of them are removed. Condition:
  `ResponseDecoding.FirstIsAllIff`; input: `ResponseDecoding.TwoCodings`.

## Model

| member | source | states |
|---|---|---|
| PercentEncoding.ChunksFlatten | cyper/src/multipart.rs:572-580 | the pieces the encoder yields (encoded bytes, runs left alone) assemble to the byte-by-byte encoding |
| PercentEncoding.BorrowedIff | cyper/src/multipart.rs:531-543 | the encoder borrows exactly when nothing is encoded or the text is a single byte, and its text is the encoding either way |
| PercentEncoding.EncodedAndBorrowed | cyper/src/multipart.rs:531-537 | a quotation mark alone is encoded and borrowed |
| PercentEncoding.LeftAlone | cyper/src/multipart.rs:493-518 | exactly which bytes each encoding leaves alone, listed |
| PercentEncoding.EncodedByte | cyper/src/multipart.rs:572-580 | an encoded byte is `%` and its two upper-case digits, any other byte itself |
| PercentEncoding.EncodedIsAscii | cyper/src/multipart.rs:572-580 | encoded text is ASCII, for every text and either encoding |
| PercentEncoding.EncodedAlphabet | cyper/src/multipart.rs:493-518 | encoded text holds only `%` and bytes outside the encode set |
| PercentEncoding.EncodedMember | cyper/src/multipart.rs:493-518 | a byte other than `%` and alphanumerics is in the encoded text if and only if it is in the text and not in the set |
| PercentEncoding.DecodeEncode | cyper/src/multipart.rs:503-518 | percent-decoding inverts both encode sets on every text, since `%` is in both |
| PartHeaders.FourPassesAreOne | cyper/src/multipart.rs:549-553 | the four chained `replace` passes are a single-pass escape, for every file name |
| PartHeaders.EscapedByte | cyper/src/multipart.rs:549-553 | exactly backslash, quote, CR and LF get a backslash |
| PartHeaders.WriteName | cyper/src/multipart.rs:528-543 | the quoted or the extended `name` parameter, chosen by what the text needs rather than by what was borrowed, and all in ASCII |
| PartHeaders.AppendFileName | cyper/src/multipart.rs:547-556 | the buffer gains the `filename` parameter in singly escaped quotes, or nothing |
| PartHeaders.AppendMime | cyper/src/multipart.rs:558-561 | the buffer gains a Content-Type line exactly if there is a media type |
| PartHeaders.AppendFields | cyper/src/multipart.rs:563-568 | the buffer gains one line for each custom field, in order |
| PartHeaders.EncodeHeaders | cyper/src/multipart.rs:527-570 | the buffer built by appending is the list of header lines joined by CRLF |
| WireExamples.TextField | cyper/tests/multipart.rs:8-12 | the bytes of a form with one text field, for every name that needs no encoding and every text |
| WireExamples.FileField | cyper/tests/multipart.rs:123-126 | the header block of a file field with one further header, spelled out |
| WireExamples.AccentedName | cyper/src/multipart.rs:538-542 | a name outside ASCII goes out encoded, in the extended form |
| DispositionReader.QuotedRoundTrip | cyper/src/multipart.rs:547-556 | the closing quote is the first unescaped one, and unescaping gives every file name back |
| DispositionReader.DispositionRoundTrip | cyper/src/multipart.rs:527-556 | for every name and file name a reader of the line gets both back if and only if the name is recoverable under its quoting rules |
| DispositionReader.AttrCharAlwaysRecoverable | cyper/src/multipart.rs:506-518 | under attr-char every name is recoverable by both readers |
| DispositionReader.PathSegmentNamesLost | cyper/src/multipart.rs:493-503 | two names that a reader of the parameter grammar does not get back under path-segment |
| MultipartReader.PartsRegroup | cyper/src/multipart.rs:162-174 | the CRLF after each value is the start of the next delimiter, so the body is delimiters and part texts |
| MultipartReader.ReadFirstPart | cyper/src/multipart.rs:178-204 | reading one part gives exactly that part and goes on after it, or something different in its place, according to whether it is readable |
| MultipartReader.MultipartRoundTrip | cyper/src/multipart.rs:149-204 | for every list of parts the reader gets back all blocks and values in order if and only if no block has a blank line and no line of a block or value starts with the boundary |
| MultipartReader.BrokenOffUnread | cyper/src/multipart.rs:149-204 | a body that breaks off in a value, its parts readable, is read as no body at all |
| FormReader.DispositionFeeds | cyper/src/multipart.rs:527-556 | no line feed in the disposition line follows a carriage return, for any name and any file name |
| FormReader.BlockHasNoBlankLine | cyper/src/multipart.rs:191-198 | for every name and every metadata the block has no blank line, so the first one in a part is the separator |
| FormReader.BoundaryInBlock | cyper/src/multipart.rs:527-570 | no line of a header block starts with the boundary if and only if no custom field is named so |
| FormReader.BlockRoundTrip | cyper/src/multipart.rs:527-570 | name, file name, media type and custom fields are all read back from the block if and only if the name is recoverable |
| FormReader.FormRoundTrip | cyper/src/multipart.rs:149-204 | from the bytes of any form the reader gets back every field with its name, file name, media type, fields and value, in order, if and only if every field is receivable |
| FormReader.FailedFormUnread | cyper/src/multipart.rs:149-204 | what was sent of a form when a value failed is not taken for a form, if nothing in the fields up to that value looks like a delimiter |
| FormReader.BoundaryNamedFieldLost | cyper/src/multipart.rs:563-568 | every form in which some custom header is named like the boundary is not received as meant |
| FormReader.BoundaryNamedField | cyper/src/multipart.rs:563-568 | such a name is a legal header name, with any value |
| BodyStream.KnownLengthIsExact | cyper/src/body.rs:106-121 | a length known without reading is the number of bytes read, and a clone reads the same |
| BodyStream.Body.PollFrame | cyper/src/body.rs:25-39 | a frame is the first of those left and the rest stays; an error comes once, after the frames before it; bytes come once, and empty bytes never |
| BodyStream.Body.IntoStream | cyper/src/multipart.rs:202 | polling yields all frames in order, and ends in an error if and only if the body does |
| BodyStream.WrapAsyncReadAt | cyper/src/body.rs:58-72 | for reads of any size the loop ends and the chunks are the whole file, or up to a failing read a beginning of it |
| Multipart.FilePart | cyper/src/multipart.rs:271-291 | a file part declares the length of the file if it is known; it yields the file, so the declaration is true, or fails after a beginning of it |
| Multipart.HexRoundTrip | cyper/src/multipart.rs:591 | fixed-width hexadecimal gives the number back |
| Multipart.BoundaryShape | cyper/src/multipart.rs:583-592 | a boundary is 67 characters of lower-case hex and hyphens, and the four random numbers can be read off it |
| Multipart.Form.New | cyper/src/multipart.rs:59-63 | a new form is empty, with a well-shaped boundary and path-segment encoding |
| Multipart.Form.AddPart | cyper/src/multipart.rs:370-376 | the part is added at the end |
| Multipart.Form.PartStream | cyper/src/multipart.rs:178-204 | the chunks of a part concatenate to delimiter line, block, blank line, value and CRLF; a failing value is the end of them |
| Multipart.Form.IntoStream | cyper/src/multipart.rs:149-175 | the chunks of a form concatenate to its parts in order and the closing delimiter; they end in an error if and only if some value does, and then break off in the first such value; the form is emptied |
| Multipart.LengthStep | cyper/src/multipart.rs:413-419 | one step of the formula adds what the part adds to the stream, up to what its declared length gets wrong |
| Multipart.Form.ComputeLength | cyper/src/multipart.rs:339-430 | none if and only if some part is a stream without a declared length; otherwise the stream's length plus what is over-declared modulo 2^64, hence exact for truthful lengths if and only if below 2^64; the headers of the measured parts are kept |
| Multipart.HugeFormMispredicted | cyper/src/multipart.rs:399-430 | a stream part with a true declared length of 2^64 - 1, whose form's predicted length is not its length |
| Decompression.Decoder.EnsureSpare | cyper/src/decompression.rs:34-37 | a codec call always has at least MIN_SPARE room |
| Decompression.Decoder.Drain | cyper/src/decompression.rs:43-58 | finishing ends, appends just what the codec writes, and leaves nothing pending; an error means unsound data |
| Decompression.Decoder.DecodeOnce | cyper/src/decompression.rs:34-42 | one call within the room, with its output appended and nothing else changed |
| Decompression.Decoder.DecodeImpl | cyper/src/decompression.rs:25-73 | the nested loops end; the codec has been fed just the consumed bytes and all it wrote is in the buffer; sound data never fails and nothing stays pending |
| Decompression.Decoder.DecodeAll | cyper/src/decompression.rs:76-90 | succeeds only with all input consumed or the codec at its end, and returns exactly what the codec wrote |
| Decompression.Decoder.DecodeIncoming | cyper/src/decompression.rs:92-107 | for any cut into frames, empty ones and trailers included, the non-empty pieces concatenate to the output of the stream in the body, or, if the body breaks, in the part before the break |
| DecodingAgrees.DecodeEveryWay | cyper/src/decompression.rs:76-107 | for any lawful codec and any body, two cuts into frames and the whole body at once all decode to the same bytes |
| DecodingAgrees.BytewiseLawful | cyper/src/decompression.rs:38-71 | codecs for any growing output function, any notion of end and any step size meet the contract, so it is not empty |
| DecodingAgrees.DecodeRuns | cyper/src/decompression.rs:92-107 | a run-length codec as an instance: however the body is cut, its pieces concatenate to the expansion of the body |
| ResponseDecoding.Decode | cyper/src/body.rs:209-229 | a body still arriving or received whole is replaced by its decoding, and the length reported is the new body's |
| ResponseDecoding.FitHeaders | cyper/src/body.rs:247-253 | the encoding is removed and the length replaced or removed; nothing else changes |
| ResponseDecoding.Decompress | cyper/src/body.rs:231-260 | decoding happens exactly for a supported first encoding; then what is received is the decoded stream, the encoding is gone and the length is the new one or gone; every other header, and in every other case everything, stays |
| ResponseDecoding.DecodedLengthIsExact | cyper/src/body.rs:231-260 | a length field left after decoding parses to the number of bytes received |
| ResponseDecoding.FirstIsAllIff | cyper/src/body.rs:234-244 | undoing the first listed coding undoes them all, for all codecs and bodies, if and only if one is listed |
| ResponseDecoding.TwoCodings | cyper/src/body.rs:231-260 | a body coded twice comes out still coded, with no encoding in its headers |
| HeaderMaps.LaterItemsReplayed | cyper/src/util.rs:49-54 | items without a name append to the last named entry, in order |
| HeaderMaps.IterReplayed | cyper/src/util.rs:36-56 | replaying the flattened items of any names sets each of them to all its values in order and no other |
| HeaderMaps.ReplaceHeaders | cyper/src/util.rs:30-57 | every name of the source has exactly the source's values afterwards, every other name what it had; a nameless item never comes first |
| RedirectEngine.PrepareHeaders | cyper/src/client.rs:93-109 | the caller's values come first, then the first default of a name, then the stored cookie under `cookie` only; nothing else is sent |
| RedirectEngine.DefaultsSentWholeIff | cyper/src/client.rs:93-97 | a name only the defaults have is sent with all their values if and only if there is one |
| RedirectEngine.SecondDefaultLost | cyper/src/client.rs:93-97 | two defaults for one name, of which the second is not sent |
| RedirectEngine.CarryHeaders | cyper/src/client.rs:153-168 | credentials go when the host or effective port changes, and Referer is set anew or removed, never kept from an earlier hop |
| RedirectEngine.ApplyStatus | cyper/src/client.rs:170-193 | what each status does to method, headers and body, and that the fallback to a default body is never reached |
| RedirectEngine.PrepareNext | cyper/src/client.rs:153-207 | the loop's variables stay in step with the last request made from them |
| RedirectEngine.TakeResponse | cyper/src/client.rs:126-211 | one round of the loop comes to the verdict on the response and leaves variables and URL history in step with the next request |
| RedirectEngine.SendNext | cyper/src/client.rs:207 | a further request makes the run longer by itself and by its response, if one comes |
| RedirectEngine.ExecuteImpl | cyper/src/client.rs:111-212 | against any server the requests and responses form a run from the first request; the previous URLs and the current one are always the URLs requested; the result is the last response, or the error or the panic it called for; within the limit the loop ends by itself |
| RedirectRuns.SameOriginIs | cyper/src/redirect.rs:239-240 | the rule on credentials compares hosts and effective ports, with the defaults of http, ws, https, wss and ftp |
| RedirectRuns.NextUrlIs | cyper/src/client.rs:126-141 | a response has a next URL if and only if it is of the 3xx kind and has a location that resolves |
| RedirectRuns.FollowedResponses | cyper/src/client.rs:126-207 | each further request of a run answers a 301, 302, 303, 307 or 308, at the URL its location resolves to |
| RedirectRuns.PoliciesDecide | cyper/src/redirect.rs:123-145 | with redirects off every response is returned; a caller's rule is asked and obeyed |
| RedirectRuns.MethodOverRun | cyper/src/client.rs:170-176 | over any run the method is GET once a 301 or 302 has been followed, and otherwise the original one |
| RedirectRuns.BodyOverRun | cyper/src/client.rs:177-193 | over any run the body is empty once a 301, 302 or 303 has been followed, otherwise the original bytes; a stream is sent at most once |
| RedirectRuns.HeadersOverRun | cyper/src/client.rs:153-181 | over any run each header but Referer is the first request's, except the five credential headers after leaving an origin and the three content headers after a 301, 302 or 303; none is gained |
| RedirectRuns.CredentialsStayHome | cyper/src/redirect.rs:237-249 | a request still carrying Authorization, Cookie, Cookie2, Proxy-Authorization or WWW-Authenticate means that everything requested so far had one host and effective port |
| RedirectRuns.RefererOverRun | cyper/src/client.rs:160-168 | with referers on, each followed request's Referer is made from the request right before it; with them off, it is the first request's |
| RedirectRuns.RefererShows | cyper/src/redirect.rs:251-261 | with referers on there is one if and only if the hop is not from https to http and the URL can be written; it is the previous URL without user name, password and fragment |
| RedirectRuns.RedirectBound | cyper/src/redirect.rs:123-135 | with limit n at most n + 1 requests are sent, with redirects off one |
| RedirectRuns.FailsExactlyAtLimit | cyper/src/redirect.rs:123-135 | the redirect error comes if and only if n + 1 requests have been sent and a further usable redirect arrives |
| RedirectRuns.JudgedByFollowable | cyper/src/client.rs:126-207 | under every policy, which responses of a run are errors, are followed, or panic, in terms of the first body and the response alone |
| RedirectRuns.EndsWithoutFollowing | cyper/src/client.rs:126-188 | under every policy a response is returned if and only if it has no usable location, the policy stops, the status is not followed, or a stream would be needed again |
| RedirectRuns.FailureHidesResponse | cyper/src/redirect.rs:123-135 | had the limit been higher, the response it failed on would have been returned if and only if it is not one to follow |
| RedirectRuns.NotModifiedAtLimit | cyper/src/client.rs:126-188 | a 304 with a location: the redirect error at the limit, returned below it |
| RedirectRuns.PanicsExactly | cyper/src/client.rs:195-207 | under every policy the loop panics if and only if a redirect it would follow leads to a URL that is no URI, or has no host where known hosts are looked up |
| RedirectRuns.PanicOnNoUri | cyper/src/client.rs:195-201 | a run from a URL that can be sent, panicking on a redirect to one that is no URI |
| RedirectRuns.PanicOnNoHost | cyper/src/client.rs:223-226 | a redirect to a mail address panics where known hosts are looked up, and is sent on where not |
| RedirectRuns.RunsAgree | cyper/src/client.rs:87-212 | a run is determined by the first request and the world |
| AltSvc.Parse | cyper/src/altsvc.rs:43-101 | the nested loops give the recursive meaning of the field, with the first error on errors |
| AltSvcGrammar.ParamRead | cyper/src/altsvc.rs:57-97 | a parameter is applied if and only if it is well-formed, with the change its kind makes; otherwise the error is its fault |
| AltSvcGrammar.AcceptedIff | cyper/src/altsvc.rs:43-101 | a field value is accepted if and only if it is `clear` or every parameter in it is well-formed |
| AltSvcGrammar.RejectedIff | cyper/src/altsvc.rs:62-93 | the error is that of the first parameter with a fault: no single `=`, an `ma` or `persist` that is no number of its type, no single `:`, or a port that is none |
| AltSvcGrammar.AcceptedSays | cyper/src/altsvc.rs:48-100 | an accepted value has one service for each text between commas that is not blank; it persists if any parameter says so, and the last age and the last authority count |
| AltSvcGrammar.StrayParameter | cyper/src/altsvc.rs:82-88 | a faulty parameter after a good one fails the whole value |
| AltSvcGrammar.TrimQuotesIs | cyper/src/altsvc.rs:83 | exactly the quotes at both ends of a value are dropped |
| Text.TrimIs | cyper/src/altsvc.rs:51 | exactly the white space at both ends is dropped |
| Text.WhitespaceIs | cyper/src/altsvc.rs:51 | which characters are white space, listed |
| Text.SplitJoins | cyper/src/altsvc.rs:49 | the pieces of a text, joined by the separator, are the text |
| Text.ParseUnsignedIs | cyper/src/altsvc.rs:70 | an unsigned number is digits after a plus sign or none, below the limit of its type |
| Text.ParseI32Is | cyper/src/altsvc.rs:74-76 | a signed number may have either sign, and has 32 bits |
| AltSvcRoundTrip.ServiceRoundTrip | cyper/src/altsvc.rs:54-97 | one printed service is read back with its port and max-age |
| AltSvcRoundTrip.PrintThenParse | cyper/src/altsvc.rs:43-101 | every spellable list, printed and parsed, comes back, 64-bit and 16-bit numbers included |
| AltSvcRoundTrip.ParserRange | cyper/src/altsvc.rs:43-101 | what the parser can return is exactly what can be spelled |
| AltSvcRoundTrip.ParsePrintParse | cyper/src/altsvc.rs:43-101 | parse, print, parse is parse on every accepted input |
| Text.ParsePrinted | cyper/src/altsvc.rs:68-71 | a printed number within the integer type's range parses to itself |
| KnownHosts.KnownHostsCache.TryInsert | cyper/src/altsvc.rs:123-138 | accepts HTTP/3 on the same host and port 443 only, and then replaces the host's entry by one that lasts max-age or a day |
| KnownHosts.KnownHostsCache.Find | cyper/src/altsvc.rs:140-149 | true if and only if there is an entry that has not expired; an expired one is evicted and nothing else changes |
| KnownHosts.KnownHostsCache.Clear | cyper/src/altsvc.rs:151-153 | forgets the host |
| KnownHosts.KnownHostsCache.LearnFirst | cyper/src/client.rs:251-257 | the first usable service is remembered, and no other host is touched |
| KnownHosts.KnownHostsCache.Learn | cyper/src/client.rs:244-257 | remembers the first usable service of a response, clears on `clear`, ignores a bad field, and touches no other host |
| KnownHosts.KnownHostsCache.Route | cyper/src/client.rs:228-237 | HTTP/3 by version, or because no port was given and the host is known |
| KnownHosts.LookupAnswersHistory | cyper/src/altsvc.rs:122-154 | over every history with a forward clock a lookup is true if and only if the last word on the host was `h3` on the host and port 443, no more whole seconds ago than its max-age or a day |
| KnownHosts.EvictionIsInvisible | cyper/src/altsvc.rs:140-149 | leaving earlier lookups out of the history never changes an answer |
| Http3Pool.Channels.Open | cyper/src/http3.rs:356 | a new channel has nothing queued and its sender at work |
| Http3Pool.Channels.Report | cyper/src/http3.rs:357-360 | the driver queues the error it ended with, or nothing if the receiver is gone |
| Http3Pool.Channels.Leave | cyper/src/http3.rs:357-361 | the sender goes; what it queued stays |
| Http3Pool.Channels.TryRecv | cyper/src/http3.rs:289 | a queued message is taken even from a sender that is gone; else the sender's state is told |
| Http3Pool.Channels.DropReceiver | cyper/src/http3.rs:341-342 | with the receiver goes what was queued |
| Http3Pool.Pool.IsInvalid | cyper/src/http3.rs:288-294 | invalid on a message or a lost sender, and the message is taken |
| Http3Pool.Pool.Connecting | cyper/src/http3.rs:326-334 | the key is marked, and it is told whether it was already |
| Http3Pool.Pool.TryPool | cyper/src/http3.rs:336-348 | hands out the pooled client if its channel is quiet and touches its idle time, else drops it; what becomes of the channels; other keys stay |
| Http3Pool.Pool.NewConnection | cyper/src/http3.rs:350-374 | opens the channel, pools the connection, drops the one it replaces with its receiver, unmarks the key, and tells whether it was marked |
| Http3Pool.Pool.GetPooledClient | cyper/src/http3.rs:391-400 | which of client, in progress and failure comes out; the key's own entry, the marks and the channels afterwards; other keys stay |
| Http3Pool.ConnectingExactly | cyper/src/http3.rs:326-400 | in every interleaving the marked keys are exactly those with a dial in flight and those whose dial came to nothing, one holder each |
| Http3Pool.StoreFindsKey | cyper/src/http3.rs:367-371 | in every interleaving the `existed` assertion holds, and afterwards nobody holds the key |
| Http3Pool.ServedForKey | cyper/src/http3.rs:391-400 | in every interleaving a client is handed out under the key it was connected for |
| Http3Pool.QuietIffAlive | cyper/src/http3.rs:288-294 | in every interleaving the channel of a pooled connection is quiet if and only if its driver has neither sent nor gone |
| Http3Pool.HeardIffHeld | cyper/src/http3.rs:336-374 | in every interleaving a channel has its receiver if and only if its connection is pooled or about to be |
| Http3Pool.MessageTakenLeavesPool | cyper/src/http3.rs:336-374 | in every interleaving a message is taken or dropped only with a connection that leaves the pool by that step and can never be pooled again |
| Http3Pool.PooledIsAlive | cyper/src/http3.rs:336-348 | in every interleaving a task that asks is served if and only if a connection made for its key is pooled with its driver at work |
| Http3Pool.LostForGood | cyper/src/http3.rs:397-399 | after a dial came to nothing its key is never dialled again on any run, and only a connection pooled already can still be handed out |
| Http3Pool.DialledAgainIff | cyper/src/http3.rs:391-400 | some run from here dials the key if and only if no dial for it has come to nothing |
| Http3Pool.DialCanBeLost | cyper/src/http3.rs:397-399 | a run from the start after which a key can never be dialled |
| Http3Pool.ReplacesLiveIff | cyper/src/http3.rs:367 | on every run from a dial in flight to its storing, a live connection is replaced if and only if it was pooled then and its driver has not ended since |
| Http3Pool.DialReplacesIff | cyper/src/http3.rs:397-399 | the same by the pool's state just before the dial begins |
| Http3Pool.MayReplaceIff | cyper/src/http3.rs:397-399 | a task about to dial can come to replace a live connection if and only if its key is unmarked and pooled alive |
| Http3Pool.ReplacedAfterLateDial | cyper/src/http3.rs:391-400 | a state reached from the start from which a live pooled connection can be replaced |
| Http3Pool.NeverReplaced | cyper/src/http3.rs:391-400 | if a miss and the start of its dial are not interleaved, no stored connection replaces a pooled one |
| GracefulShutdown.ConnectionTask | cyper-axum/src/lib.rs:450-468 | the loop tells its connection to shut down once if it sees the signal before the end, and else never |
| GracefulShutdown.ToldOnceAfterSignal | cyper-axum/src/lib.rs:450-468 | in every run of the server a connection has been told exactly once if its task saw the signal before the end, else never, and the signal is seen only once it has fired |
| GracefulShutdown.ReplayTask | cyper-axum/src/lib.rs:442-469 | the loop, run on what any task has woken up for in any run of the server, does what that task did |
| GracefulShutdown.ReceiversCountTasks | cyper-axum/src/lib.rs:405-474 | in every run the close channel's receivers number the unfinished connections, and one more while the acceptor is in its loop |
| GracefulShutdown.FinishesWithNoTaskLeft | cyper-axum/src/lib.rs:473-482 | the server can finish if and only if it waits and no connection is left |
| GracefulShutdown.AcceptedAfterSignal | cyper-axum/src/lib.rs:408-469 | a run in which a connection is accepted after the signal and ends without having been told |
| GracefulShutdown.NothingSpawnedAfterLeaving | cyper-axum/src/lib.rs:408-473 | after the acceptor has left its loop no connection is added on any run |
| GracefulShutdown.RunsAreBounded | cyper-axum/src/lib.rs:388-483 | a run has at most as many steps as there was work, and four more for each connection accepted |
| GracefulShutdown.NeverStuck | cyper-axum/src/lib.rs:408-482 | after the signal the server has finished if and only if no step that shuts it down is possible |
| GracefulShutdown.ShutdownFinishes | cyper-axum/src/lib.rs:388-483 | if connections end once told and no more are accepted, the server finishes, within a bound computed from its state |

## Left out

- Sockets, TLS, QUIC, hyper, polling, wakers, cancellation of the accepting future: foreign; only their outcomes appear.
- Stream bodies after an error: whoever reads a body stops at its first error, so nothing is said of items behind it.
- FormRoundTrip: NoOp encoding is not claimed to be recoverable, because it writes the name as it is.
- FormRoundTrip: an empty form has an empty body, which no multipart reader accepts.
- ComputeLength: additions wrap at 2^64; a build with overflow checks panics there instead.
- WrapAsyncReadAt: a read before the end of the file returns at least one byte, and the file does not change meanwhile.
- DecodeIncoming: truncated or corrupt streams and codec errors on the last bytes of a frame are deliberately not reported by the source, so no error detection is claimed; the decoded bytes are stated for bodies the codec has nothing to complain about at any point.
- DecodeIncoming: pieces are given as a list, not one by one as the consumer asks for them.
- ExecuteImpl: `rounds` bounds the observation of custom policies, for which the source promises no bound; under a limit it plays no part.
- ExecuteImpl: storing response cookies, proxy headers, the Accept header and the Alt-Used header do not change what is carried from hop to hop and are not part of the requests here.
- ExecuteImpl: a first URL that is no URI panics in `execute` (`cyper/src/client.rs:47-51`); here it does at the first sending.
- Url: parsing and joining of URLs are parameters; only the parts that the rules look at are modelled.
- GetPooledClient: the idle time is recorded and never read by the source, so nothing is claimed about expiry.
- LostForGood: the source never retries after a failed dial, so eventual connection is not claimed.
- NeverStuck: that an accepted connection comes to be spawned takes `make_service` to become ready and to answer (`cyper-axum/src/lib.rs:423-433`); that is assumed here, and in ShutdownFinishes.
- ShutdownFinishes: `accept` may keep winning against the signal in `select!`, so connections accepted after the signal enter the bound rather than being excluded.
- Real gzip, zlib, brotli and zstd, SHA-1, base64, the cookie store, charset decoding and serde: library internals.
- Forwarding wrappers, proxies, DNS, WebSocket upgrades, the nyquest adapters, builders and Debug output: plumbing that would only add easy members.
