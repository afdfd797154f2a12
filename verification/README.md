# A verified model of iohttp's protocol core

A Dafny model of the parts of iohttp where a wrong step costs most: the HTTP/1.1 wire
layer, routing, the connection and completion handlers, the rate limiter, the multipart
splitter and the base64 decoder. Each component comes in the same three layers.

* A specification on values (`...Spec.dfy`): what the C code computes, branch by branch.
* Theorems about it (`...Theorems.dfy` and the files named after what they show).
* The code as it runs, in place on arrays, objects and cursors, proved equal to the specification.

So every theorem is also one about the in-place code.

| component | files |
|---|---|
| chunked decoder | `ChunkedSpec`, `ChunkedTheorems`, `ChunkedSoundness`, `ChunkedDecoder` |
| message parser | `ParserSpec`, `ParserTheorems`, `ParserPrompt`, `Parser` |
| request reader, response writer | `Http1Spec`, `Http1`, `ResponseSpec`, `ResponseTheorems`, `ResponseWriter` |
| radix trie | `RadixSpec`, `RadixShape`, `RadixContents`, `RadixLookup`, `RadixPersistence`, `RadixReach`, `RadixExactness`, `RadixSlashes`, `RadixStatic`, `RadixTrie` |
| paths and dispatch | `PathSpec`, `Path`, `DispatchSpec`, `Router` |
| receive handler | `ReceiveSpec`, `Conversation`, `Receive` |
| connections | `ConnSpec`, `ConnTheorems`, `ConnRuns`, `Stranding`, `EventLoop` |
| received bytes to queued responses | `Wire`, `Endpoint` |
| rate limiter | `RateSpec`, `RateTheorems`, `RateMap`, `RateLimiter` |
| multipart forms | `MultipartSpec`, `MultipartTheorems`, `MultipartHeaders`, `MultipartForms`, `Multipart` |
| base64 | `Base64Spec` (also holds `Base64Theorems`), `Base64` |
| shared definitions | `Bytes`, `Options` |

`dafny verify dfyconfig.toml` checks the whole project.

## What the code does not do

Some properties one would expect are false of the code. The model keeps the code as it is; a
lemma gives the failing inputs and another one says when the property holds.

* The chunked decoder's overhead guard looks only at calls that end incomplete, so it can make the
  splitting of an input visible (`GuardMakesSplitVisible`); `SplitVerdictExact` says exactly when.
  The comment beside the guard speaks of 80 percent, the code of three quarters; the model follows the code.
* The trie does not record where a static segment ends. A path may leave out any slashes between the static
  segments of a registered static pattern (`MissingSlashIsAccepted`), and may have one inside a segment where
  another pattern parts from it (`ExtraSlashIsAccepted`), whatever else was inserted. For patterns of every kind
  with distinct routes, lookup finds only instances if and only if nothing can be found below a static child of a
  static node (`OnlyInstancesExactly`); for static patterns that means that all have one segment and no two
  different ones start alike (`OnlyInstancesIffSimple`). In any case lookup is described by the derivations in the
  trie (`LookupFirst`), and what it finds by patterns with their slashes erased (`FoundWasRegistered`).
* The header limit is applied to all bytes received, also to those behind a complete request, so how bytes
  arrive can matter beyond the limit (`PipelinedBytesRefused`, with an instance in `PipelinedExample`);
  `SplitExactly` says exactly when it does not. The default limit of 8192 equals the size of the receive buffer
  and is never exceeded (`DefaultLimitRefusesNone`): the effect needs a smaller configured limit.
* Bytes behind an answered request are moved to the front of the buffer, and forgotten when the connection is
  kept alive (`KeepAliveForgets`). So a request is lost when it arrives together with the one before it
  (`PipelinedRequestLost`), and also when only its first bytes do (`BegunRequestLost`, with an instance in
  `BegunExample`). Of whole requests, received in any fragments, all are answered if and only if all bytes are
  received, each request ends where a receive ends, every response fits, every request but the last asks to keep the
  connection and gets a status below 400, and no request is longer than the receive buffer (`AnsweredExactly`).
* A request longer than the 8192 bytes of the receive buffer is never answered, also under a larger header limit
  (`LongRequestLost`, with an instance in `LongExample`): the full buffer makes the next receive come back empty,
  which closes the connection.
* A request with a Transfer-Encoding is dispatched with an empty body; its chunks count as bytes behind it
  (`ChunkedBodyIgnored`, with an instance in `ChunkedExample`). Nothing calls the chunked decoder's wrapper.
* The header limit and the receive buffer bound header and body together: a body limit beyond them has no effect
  (`DispatchedExactly`).
* A handler's response of more than 8192 bytes is not sent and leaves its connection with nothing in flight:
  exactly then (`Stranding.StrandsExactly`, with a run in `StrandingRun`), and until shutdown or a fired timeout of
  its own (`StrandedUntilShutdown`). As long as all responses fit, it never happens (`FittingNeverStrands`).
* A Content-Length is accumulated without an overflow check: from 2^64 on it wraps (`ContentLengthWraps`), and
  `ContentLengthExact` says for which digits it does not.
* Keys of 128 bytes and more never match the bucket that was made for them. The rate limit holds for them
  if and only if the burst is 0 or at least 1024, the number of slots; for shorter keys it always holds
  (`GuaranteedExactly`, with the failing runs in `LongKeyEscapes`).
* The last header line of a multipart part loses its last byte, whatever the lines are (`HeaderLinesRead`).
  For a Content-Disposition line with quoted values that byte is a quote and nothing is lost (`FormRecovered`,
  `NamesRecovered`). The Content-Type announced comes back exactly if and only if the last line is no Content-Type
  line, or ends in a blank, or it and what was announced before it have no value (`TypeRecoveredExactly`).
* The search for a file name also looks into the name (`SpelledExample`). What a part has for a file name, or that
  it has none, is read exactly if and only if its name does not spell `filename=`, or by the coincidences that
  `FilenameSafe` lists (`NamesRecovered`, and `FilenameAbsent` for parts without one).

## Model

| member | source | states |
|---|---|---|
| ChunkedTheorems.SplitInvariance | src/http/picohttpparser.c:565-735 | from any decoder state, when the call on `a` asks for more, a second call on `b` gives the return value, undecoded bytes, body (concatenated), machine state and byte total of one call on `a + b` |
| ChunkedTheorems.SplitVerdictExact | src/http/picohttpparser.c:718-735 | two calls and one call return the same if and only if the guard is quiet after the first fragment, or scanning the second finds an error, or the second is incomplete too and the guard fires on the totals of both |
| ChunkedSoundness.GuardMakesSplitVisible | src/http/picohttpparser.c:725-733 | a family of valid messages with long extensions that one call completes and two calls reject |
| ChunkedTheorems.FeedIsDecode | src/http/picohttpparser.c:565-735 | any fragmentation of an input, with the guard quiet between fragments, decodes like the whole input |
| ChunkedTheorems.SizeNeverWraps | src/http/picohttpparser.c:574-606 | in every reachable state one more of at most 16 hex digits stays below 2^64, so the 64-bit size is the hexadecimal number |
| ChunkedTheorems.RunKeepsReachable | src/http/picohttpparser.c:573-716 | the bounds tying digit count, pending bytes and state survive every input |
| ChunkedTheorems.EncodingIsAccepted | src/http/picohttpparser.c:574-720 | scanning any chunk list with extensions, trailers and trailing bytes `t` yields the concatenated data, completes, and consumes all but `t` |
| ChunkedSoundness.AcceptedIsEncoding | src/http/picohttpparser.c:574-720 | conversely every input the decoder completes on is such an encoding followed by the bytes left over |
| ChunkedSoundness.DecodeInvertsEncoding | src/http/picohttpparser.c:565-735 | a fresh decoder returns the number of trailing bytes, the concatenated chunks and exactly the trailing bytes |
| ChunkedSoundness.DecodeExact | src/http/picohttpparser.c:565-735 | a call succeeds if and only if its input is an encoding plus trailing bytes, and every way of reading it so gives the same body and rest |
| ChunkedSoundness.HexDigitsIsSize | src/http/picohttpparser.c:552-606 | every size below 2^64 has a hexadecimal field of at most 16 digits that the decoder reads as that size |
| ChunkedDecoder.Decoder.constructor | src/http/ioh_http1.c:288-296 | the decoder starts in the fresh state that the exactness theorems are about |
| ChunkedDecoder.Decoder.Scan | src/http/picohttpparser.c:573-716 | the fallthrough switch over the in-place buffer stops with dst at most src at most bufsz, the machine, consumed count and verdict of the specification, and its body at the front of the buffer |
| ChunkedDecoder.Decoder.CopyChunkData | src/http/picohttpparser.c:645-663 | chunk data is moved down unchanged, up to the end of the chunk or of the input |
| ChunkedDecoder.Decoder.Decode | src/http/picohttpparser.c:565-735 | the in-place call computes the specified call: decoder fields, return value, decoded bytes then undecoded bytes at the front of the buffer, nothing behind them changed |
| ChunkedDecoder.Decoder.DecodeBody | src/http/ioh_http1.c:298-313 | the wrapper returns the trailing byte count, `-EAGAIN` for more input and `-EINVAL` for an error, with the same buffer and decoder |
| ParserTheorems.ParseRequestFinal | src/http/picohttpparser.c:254-441 | any verdict of the request parser other than "need more" is unchanged, with the same slices, by every extension of the input |
| ParserTheorems.ParseRequestNeedsAll | src/http/picohttpparser.c:254-441 | when parsing consumes n bytes, every prefix shorter than n asks for more |
| ParserTheorems.ParseResponseFinal | src/http/picohttpparser.c:443-517 | the same finality for responses |
| ParserTheorems.ParseResponseNeedsAll | src/http/picohttpparser.c:443-517 | the same minimality for responses |
| ParserPrompt.RequestPrompt | src/http/picohttpparser.c:254-441 | what is parsed from a longer input is parsed, with the same slices, from every prefix that holds it: a request is recognised with its last byte |
| ParserPrompt.ResponsePrompt | src/http/picohttpparser.c:443-517 | the same for responses |
| ParserPrompt.HeadersPrompt | src/http/picohttpparser.c:309-365 | the same for the header section, from any position |
| ParserTheorems.ParseHeadersFinal | src/http/picohttpparser.c:309-365 | the header loop's verdict, slices and end position are unchanged by appended bytes |
| Parser.GetTokenToEol | src/http/picohttpparser.c:137-204 | the scan by eight bytes at a time returns the token, end position and verdict of the one-byte scan |
| Parser.ParseToken | src/http/picohttpparser.c:254-287 | the cursor loop finds the token of the specification, or its failure |
| Parser.ParseHttpVersion | src/http/picohttpparser.c:290-307 | accepts exactly "HTTP/1." and a digit, asking for more on short input |
| Parser.ParseHeaders | src/http/picohttpparser.c:309-365 | the loop over header lines, with folding, trimming and the header limit, gives the specified slices |
| Parser.ParseRequest | src/http/picohttpparser.c:367-441 | the imperative parser computes the specified request, for which finality, minimality and the round trip are proved |
| Parser.ParseResponse | src/http/picohttpparser.c:443-517 | the same for responses |
| Http1Spec.Http1Final | src/http/ioh_http1.c:44-225 | an outcome of the reader other than `-EAGAIN`, its error or its request record, is unchanged when bytes are appended |
| Http1Spec.Http1NeedsAll | src/http/ioh_http1.c:44-225 | a request of n bytes yields `-EAGAIN` on every shorter prefix |
| Http1Spec.ContentLengthExact | src/http/ioh_http1.c:35-42 | the unchecked 64-bit accumulation is the decimal number if and only if the digits without leading zeros are at most 19, or 20 that come before those of 2^64 |
| Http1Spec.ContentLengthWraps | src/http/ioh_http1.c:35-42 | an announced length of 2^64 is read as zero |
| Http1Spec.ContentLengthUnique | src/http/ioh_http1.c:117-140 | with at most one Content-Length field, all digits, the record's length is that field's number, and zero without one |
| Http1Spec.KeepAliveExact | src/http/ioh_http1.c:189-222 | keep-alive is what the last recognised Connection option says, and without one what the version says |
| Http1Spec.PathSplits | src/http/ioh_http1.c:95-106 | path, question mark and query make up the target, and the path holds no question mark |
| Http1.IsChunkedLast | src/http/ioh_http1.c:142-171 | the search accepts exactly the values in which nothing but blanks follows the first "chunked" |
| Http1.ScanFields | src/http/ioh_http1.c:107-187 | the scan passes exactly the header sections without name-less lines, conflicting or malformed lengths, chunked out of last place, both framings, or a missing Host, and yields the announced length |
| Http1.ParseHttp1Request | src/http/ioh_http1.c:44-225 | the reader as it runs gives the specified outcome |
| ResponseTheorems.ResponseRoundTrip | src/http/ioh_http1.c:227-286 | parsing a serialized response of status 100 to 999 with token names and trimmed control-free values gives back status, reason and header list in order with the automatic Content-Length, and what follows the consumed bytes is exactly the body |
| ResponseTheorems.RequestRoundTrip | src/http/picohttpparser.c:367-441 | parsing a printed request gives back method, target and header list, and stops at its last byte |
| ResponseTheorems.Http1RoundTrip | src/http/ioh_http1.c:44-225 | the reader reports a printed acceptable request with its method, path, query, header list, length and keep-alive flag, consuming exactly its bytes |
| ResponseSpec.DecimalRoundTrip | src/http/ioh_http1.c:35-42 | a printed Content-Length reads back as the number |
| ResponseSpec.ReasonIsReason | src/http/ioh_response.c:320-390 | every status has a printable, non-empty reason phrase that does not start with a blank |
| ResponseWriter.AppendHeaders | src/http/ioh_http1.c:247-268 | header lines are appended in order if and only if they fit with a NUL |
| ResponseWriter.SerializeResponse | src/http/ioh_http1.c:227-286 | succeeds if and only if the whole response fits; then the buffer starts with it and is otherwise unchanged |
| RadixShape.InsertShape | src/router/ioh_radix.c:203-414 | insertion, whatever its result, keeps the shape and overwrites no handler: children static, then parameter, then wildcard; static edges non-empty, slash-free, with distinct first characters in order; one parameter and one wildcard child; wildcards are leaves with a handler |
| RadixShape.BuildShape | src/router/ioh_radix.c:418-456 | the shape holds after every sequence of successful and failed insertions |
| RadixShape.AddChildOrdered | src/router/ioh_radix.c:63-99 | inserting a child at its sorted place keeps the children ordered |
| RadixShape.SplitShape | src/router/ioh_radix.c:125-162 | splitting an edge keeps the shape |
| RadixContents.InsertKeys | src/router/ioh_radix.c:203-414 | insertion adds exactly the pattern it was given if it reports success, and loses and adds nothing otherwise (patterns with slashes erased) |
| RadixContents.BuildKeys | src/router/ioh_radix.c:443-456 | a trie holds exactly what its successful insertions registered |
| RadixContents.SplitKeys | src/router/ioh_radix.c:125-162 | splitting an edge moves no route |
| RadixLookup.LookupFirst | src/router/ioh_radix.c:504-592 | lookup returns the lexicographically first derivation in the trie, with its captures, and nothing if and only if there is none with at most eight captures |
| RadixLookup.StaticFirst | src/router/ioh_radix.c:466-502 | the same for the search among static children |
| RadixPersistence.InsertGrows | src/router/ioh_radix.c:203-414 | no insertion, successful or not, loses a registered pattern |
| RadixPersistence.InsertRegisters | src/router/ioh_radix.c:203-414 | a successful insertion registers its pattern and handler |
| RadixPersistence.RegisteredForever | src/router/ioh_radix.c:443-456 | a pattern whose insertion succeeded stays registered through all later insertions and splits |
| RadixPersistence.InstancesFound | src/router/ioh_radix.c:594-608 | every instance of a registered pattern with at most eight captures is found, whatever was inserted later |
| RadixPersistence.OwnTextFound | src/router/ioh_radix.c:594-608 | the text of an all-static pattern finds its own handler and captures nothing |
| RadixPersistence.FoundWasRegistered | src/router/ioh_radix.c:594-608 | a found route was registered by a successful insertion whose pattern, slashes erased, matches the path with exactly the reported captures |
| RadixReach.CoversExactly | src/router/ioh_radix.c:504-592 | below a node, with a given number of captures left, every path is found if and only if a chain of parameters, each with a route of its own, ends beside a wildcard |
| RadixReach.CanFindExactly | src/router/ioh_radix.c:504-592 | something is found below a node on some path if and only if some route lies within the captures left, a wildcard counting only if the parameter beside it does not take every path |
| RadixExactness.ClearFindsInstances | src/router/ioh_radix.c:466-592 | if nothing can be found below a static child of a static node, whatever is found belongs to a pattern the path is an instance of |
| RadixExactness.OnlyInstancesExactly | src/router/ioh_radix.c:443-608 | after any insertions of any patterns, successful or not, with distinct routes, lookup finds only instances if and only if nothing can be found, with the captures left, below a static child of a static node |
| RadixSlashes.FoundAtBoundaries | src/router/ioh_radix.c:466-502 | a path that spells a static key of the trie, with slashes only where nodes end, finds that key's route without captures |
| RadixSlashes.DivergenceIsBoundary | src/router/ioh_radix.c:125-162 | where two registered keys part, a node ends, whatever the order of insertion |
| RadixSlashes.SlashesForgotten | src/router/ioh_radix.c:466-502 | in every trie that insertions build, a registered static pattern is found on every path that spells it with slashes at any of its own places or where another registered pattern parts from it |
| RadixSlashes.MissingSlashIsAccepted | src/router/ioh_radix.c:485-498 | in every trie, a registered static pattern is found on every path that leaves out any of its slashes, and of these paths only its own text is an instance |
| RadixSlashes.ExtraSlashIsAccepted | src/router/ioh_radix.c:485-498 | in every trie, a registered one-segment pattern is found with a slash put where another registered pattern parts from it, although that path is no instance |
| RadixStatic.BlurredExactly | src/router/ioh_radix.c:203-277 | static patterns build a trie without such a node if and only if each one tried has a single segment and no two different ones start alike |
| RadixStatic.OnlyInstancesIffSimple | src/router/ioh_radix.c:443-608 | so for static patterns with distinct routes that condition on the patterns decides whether lookup finds only instances |
| RadixTrie.Node.AddChild | src/router/ioh_radix.c:63-99 | the in-place insertion into the child array is the sorted one |
| RadixTrie.Node.SplitStaticNode | src/router/ioh_radix.c:125-162 | replacing a child by an intermediate node above it is the specified split, all other nodes untouched |
| RadixTrie.Node.InsertStaticSegment | src/router/ioh_radix.c:203-277 | the mutating insertion of a static segment is the specified one |
| RadixTrie.Node.InsertRecursive | src/router/ioh_radix.c:281-414 | the same for any pattern |
| RadixTrie.Node.LookupRecursive | src/router/ioh_radix.c:504-592 | the backtracking search over shared match storage gives the specified result, and a failed search leaves the captures as it found them |
| RadixTrie.Trie.InsertPattern | src/router/ioh_radix.c:443-456 | inserting into the object is the specified insertion, and the shape is kept |
| RadixTrie.Trie.LookupPath | src/router/ioh_radix.c:594-608 | lookup in the object is the specified lookup |
| PathSpec.ResolveSucceeds | src/router/ioh_router.c:64-107 | resolving "." and ".." succeeds if and only if no prefix of the segments climbs above the root or lies deeper than 256 |
| PathSpec.ResolveKeepsSurvivors | src/router/ioh_router.c:64-107 | the stack holds exactly the names that no later ".." takes back, in order |
| PathSpec.NormalizeExact | src/router/ioh_router.c:40-130 | normalization succeeds if and only if the path starts with a slash, has no NUL, neither climbs nor gets too deep and the result fits with its NUL; the result joins the surviving segments |
| PathSpec.NormalizeIsNormal | src/router/ioh_router.c:40-130 | the result has no empty, "." or ".." segment and no trailing slash but for the root |
| PathSpec.NormalizeIdempotent | src/router/ioh_router.c:40-130 | normalizing the result changes nothing |
| Path.ScanPath | src/router/ioh_router.c:64-107 | the loop over start and length arrays leaves the resolved stack |
| Path.NormalizePath | src/router/ioh_router.c:40-130 | the buffer receives the specified normal form and a NUL, and nothing behind it changes |
| DispatchSpec.DispatchRespectsNormalization | src/router/ioh_router.c:442-574 | a path without "%00" and without a trailing slash is dispatched like its normal form, for every method |
| DispatchSpec.DispatchTrailingSlash | src/router/ioh_router.c:471-496 | with a trailing slash, the path is redirected to its normal form if and only if some method's trie matches that, and is else dispatched like it |
| DispatchSpec.RedirectsOnce | src/router/ioh_router.c:471-496 | a redirect target is never redirected again, whatever the method |
| DispatchSpec.RedirectLeadsSomewhere | src/router/ioh_router.c:471-496 | some method's trie matches a redirect target |
| DispatchSpec.NotAllowedExact | src/router/ioh_router.c:498-574 | "method not allowed" if and only if this method (and GET for HEAD) has no match and another one has |
| DispatchSpec.FoundExact | src/router/ioh_router.c:498-534 | "found" if and only if the method's own trie, or for HEAD without a match that of GET, matches with captures that fit, and then with that route and those captures |
| DispatchSpec.AllowedIsListed | src/router/ioh_router.c:536-570 | the allowed-methods text is the comma-separated list of matching methods |
| DispatchSpec.AllowedListExact | src/router/ioh_router.c:536-570 | that list holds exactly the other methods whose tries match |
| DispatchSpec.NormalHasNoEncodedNul | src/router/ioh_router.c:134-150 | normalization cannot bring an encoded NUL about |
| Router.StabilizeParamValues | src/router/ioh_router.c:423-440 | captured values are copied one behind the other, each with a NUL, if and only if they all fit |
| Router.Router.AddRoute | src/router/ioh_router.c:152-175 | a route goes into its own method's trie only, created on first use |
| Router.Router.Dispatch | src/router/ioh_router.c:442-574 | dispatch over the objects gives the specified result |
| ReceiveSpec.DecisionFinal | src/core/ioh_server.c:744-804 | within the header limit, more bytes change no decision of the receive handler: same request, same body, same byte count, or same refusal |
| ReceiveSpec.DispatchPrompt | src/core/ioh_server.c:755-795 | a request is dispatched exactly when the last byte of its header and body has arrived, and a longer buffer gives the same dispatch |
| ReceiveSpec.SplitReceives | src/core/ioh_server.c:628-804 | any number of receives with any non-empty fragments, within the header limit and the 8192 bytes of the buffer, ends in the decision on all the bytes at once |
| ReceiveSpec.SplitExactly | src/core/ioh_server.c:744-753 | of bytes that the buffer can hold: a split is invisible if and only if the first part decides nothing, or the whole is within the header limit, or the first part is beyond it |
| ReceiveSpec.PipelinedBytesRefused | src/core/ioh_server.c:744-753 | under a limit below the buffer's size, a complete request is dispatched when it arrives alone and refused as too large when bytes behind it exceed the limit |
| ReceiveSpec.PipelinedExample | src/core/ioh_server.c:744-753 | an instance: a GET request of 27 bytes, a limit of 27, and one byte behind it |
| ReceiveSpec.DefaultLimitRefusesNone | src/core/ioh_server.c:744-753 | with the default limit of 8192, or any larger one, nothing in the 8192-byte buffer is refused as too large |
| ReceiveSpec.DispatchedExactly | src/core/ioh_server.c:744-795 | a request with a header of n and a body of c bytes is dispatched, in whatever non-empty fragments its bytes arrive in the buffer, if and only if c is within the body limit and n + c within both the header limit and the 8192 bytes of the buffer; then with exactly its body |
| Conversation.AnsweredExactly | src/core/ioh_server.c:615-845 | for whole requests and any receives that can happen (on an open connection, within the room of its buffer, an empty one closing it): all are answered, in order and with their responses, if and only if all bytes are received, every request ends where a receive ends, every response fits, every request but the last keeps the connection and is answered with a status below 400, and no request is longer than the buffer |
| Conversation.AnsweredIsAligned | src/core/ioh_server.c:791-845 | one half of it, by counting bytes: what is neither kept nor used for an answer is lost for good |
| Conversation.AlignedIsAnswered | src/core/ioh_server.c:615-845 | the other half: after every receive, the requests that have ended are answered and what has come of the next one is kept |
| Conversation.LongRequestLost | src/core/ioh_server.c:219-228 | a request longer than the buffer is never answered, whatever part of it receives bring and whatever the header limit |
| Conversation.LongExample | src/core/ioh_server.c:615-626 | an instance: of a request of 9026 bytes under a limit of 20000 the buffer takes 8192, the next receive is empty, and the connection is closed without an answer |
| Conversation.PipelinedExactly | src/core/ioh_server.c:791-845 | requests that one receive brings are all answered if and only if there is none, or a single one whose response fits |
| Conversation.PipelinedRequestLost | src/core/ioh_server.c:791-845 | of two complete requests in one receive only the first is answered, and nothing of the second is kept |
| Conversation.BegunRequestLost | src/core/ioh_server.c:791-845 | when the first bytes of a request arrive with the end of the one before it, they are forgotten and the two are not both answered |
| Conversation.BegunExample | src/core/ioh_server.c:791-845 | an instance: a small request sent twice, answered in two receives of their own, and not if one byte of the second arrives with the first |
| Conversation.SeparateAnswered | src/core/ioh_server.c:755-845 | requests that each arrive in a receive of their own are all answered if and only if the responses fit, all but the last keep the connection open, and none is longer than the buffer |
| ReceiveSpec.ChunkedBodyIgnored | src/core/ioh_server.c:755-795 | a request with a Transfer-Encoding is dispatched with an empty body as soon as its header is complete, and uses no byte behind it |
| ReceiveSpec.ChunkedExample | src/core/ioh_server.c:755-795 | an instance, with any chunks behind it |
| ReceiveSpec.OutcomeIsEnabled | src/core/ioh_server.c:755-804 | every decision, with any response of the application, leads to an outcome that the step system allows, with the remaining byte count within the buffer |
| ReceiveSpec.ErrorResponseReadable | src/core/ioh_server.c:324-338 | a client reads an error response back with its status, reason and message |
| ReceiveSpec.ErrorResponsesFit | src/core/ioh_server.c:323-337 | the three error responses of the receive handler fit their buffer of 512 bytes, so a refusal is always sent |
| Receive.HandleReceived | src/core/ioh_server.c:744-804 | the handler makes the specified decision and moves exactly the bytes behind a dispatched request to the front of the buffer |
| Receive.SerializeAnswer | src/core/ioh_server.c:431-443 | the application's response is sent as serialized if it takes at most 8192 bytes, and not at all otherwise |
| Receive.OutcomeOfReceive | src/core/ioh_server.c:744-804 | the handler with the serializer gives the outcome of the specification, and leaves in the buffer the bytes behind a dispatched request, or else what it held |
| ConnTheorems.StepKeeps | src/core/ioh_server.c:573-870 | every accept, completion, drain and shutdown keeps the invariant: counts, distinct ids, the operations in flight of each connection, and its byte logs |
| ConnRuns.PoolBookkeeping | src/core/ioh_conn.c:117-166 | in every run `active_count` is the number of slots in use, live ids are distinct and issued, free slots are cleared, and receive and send positions stay in bounds |
| ConnRuns.CompletionTouchesOwn | src/core/ioh_server.c:250-261 | a completion changes only the live connection it names, its operations and its logs |
| ConnRuns.DeadForever | src/core/ioh_conn.c:117-166 | an id that is no longer live is never live again |
| ConnRuns.LateCompletionIsolated | src/core/ioh_server.c:805-870 | a completion that arrives after its connection was freed, any run later and also after a doubled close, changes no slot and no count |
| ConnRuns.ReceiveNeverBusy | src/core/ioh_server.c:263-267 | when a receive completes on a live connection no send is in flight, so `arm_send` is never refused |
| ConnRuns.SendConservation | src/core/ioh_server.c:263-322 | at most one send per live connection is in flight, `send_active` says exactly whether, it carries exactly the bytes not yet taken, and bytes queued are bytes taken plus the rest |
| ConnRuns.SentIsPrefixOfQueued | src/core/ioh_server.c:805-851 | of every connection ever accepted, live or gone, the kernel has taken a prefix of what was queued |
| ConnRuns.AllSentBeforeMovingOn | src/core/ioh_server.c:816-850 | after a send without error either the rest is submitted, or everything queued has been taken before keep-alive or close |
| ConnRuns.KeepAliveForgets | src/core/ioh_server.c:816-845 | in every run, a completed send shortens the receive buffer if and only if it takes the last byte of a response, the connection is kept alive and bytes stand behind the request; then all of them are dropped and a full buffer is received anew |
| ConnRuns.OnlyUnserializableStrands | src/core/ioh_server.c:430-443 | in every run a live connection with nothing in flight had a response that could not be serialized |
| Stranding.StrandsExactly | src/core/ioh_server.c:431-443 | in every run a completed receive leaves its connection with nothing in flight if and only if it completes a request, the response serializes to more than 8192 bytes, and no close is pending |
| Stranding.FittingNeverStrands | src/core/ioh_server.c:431-443 | in every run in which all responses fit, every live connection has something in flight |
| Stranding.OversizedStrands | src/core/ioh_server.c:431-443 | for every complete request and every larger response, accepting a connection and receiving the request strands it |
| Stranding.StrandingRun | src/core/ioh_server.c:431-443 | such a run of two events exists, with a small request and a body of 8192 bytes |
| ConnRuns.StrandedUntilShutdown | src/core/ioh_server.c:573-870 | such a connection keeps its slot through every run without shutdown or a fired timeout of its own |
| EventLoop.Loop.Alloc | src/core/ioh_conn.c:117-149 | takes the first free slot with a fresh id, or reports that the pool is full and changes nothing |
| EventLoop.Loop.FindConnById | src/core/ioh_server.c:250-261 | finds the first live connection with the id, or none if and only if there is none |
| EventLoop.Loop.TransitionTo | src/core/ioh_conn.c:193-213 | a transition outside the table is refused and changes nothing |
| EventLoop.Loop.ArmSend | src/core/ioh_server.c:263-322 | refused while a send is in flight, else submits the whole response |
| EventLoop.Loop.OnRecv | src/core/ioh_server.c:615-804 | the receive handler makes the specified step |
| EventLoop.Loop.OnSend | src/core/ioh_server.c:805-851 | the send handler makes the specified step, with its resubmission of the rest |
| EventLoop.Loop.OnClose | src/core/ioh_server.c:852-858 | the close handler makes the specified step |
| EventLoop.Loop.OnTimeout | src/core/ioh_server.c:859-870 | the timeout handler makes the specified step |
| EventLoop.Loop.CloseAll | src/core/ioh_server.c:992-1008 | immediate shutdown frees every live slot and leaves the count at what was not live |
| EventLoop.Loop.Handle | src/core/ioh_server.c:573-870 | any enabled event makes the specified step, so the theorems about runs hold of the loop |
| Wire.AdvanceKeeps | src/core/ioh_server.c:573-870 | with the bytes in the buffers: everything the kernel can deliver is a completion the handlers allow for, and keeps the invariant that ties each connection, its buffer and its log to its conversation |
| Wire.RunProjects | src/core/ioh_server.c:573-870 | a run with its bytes is a run of the connection layer, so the theorems about those hold of it |
| Wire.RunGoesOn | src/core/ioh_server.c:615-628 | in every run, whatever the kernel can deliver next is a completion that the handlers allow for: bytes always fit behind those in the buffer |
| Wire.QueuedIsConversation | src/core/ioh_server.c:615-851 | in every run, for every connection ever accepted, what was queued is exactly what its conversation over the receives it handled gives, these are non-empty receives within its buffer on an open conversation, and the kernel has taken a prefix of what was queued |
| Wire.RequestsServed | src/core/ioh_server.c:615-851 | in every run, a connection whose receives bring whole requests that end where receives end, with responses that fit, has exactly the responses to these requests queued, in order |
| Endpoint.Endpoint.constructor | src/core/ioh_conn.c:67-95 | an empty pool with a buffer of its own for each slot |
| Endpoint.Endpoint.OnData | src/core/ioh_server.c:615-804 | a receive into a slot's buffer, the decision on it, the serialized answer and the completion handler together make the specified step, and each buffer then starts with its connection's bytes |
| Endpoint.Endpoint.OnOther | src/core/ioh_server.c:573-870 | every other completion makes the specified step and leaves the buffers right |
| Endpoint.Endpoint.Handle | src/core/ioh_server.c:573-870 | any input the kernel can deliver makes the specified step, so the theorems about runs with bytes hold of the server as it runs |
| RateTheorems.TokenBucketGuarantee | src/middleware/ioh_ratelimit.c:64-99 | for every key shorter than 128 bytes, every run of checks of any keys and every window, the number allowed is at most burst plus rate times the window's length |
| RateTheorems.TokensStayInRange | src/middleware/ioh_ratelimit.c:64-99 | in every reachable table tokens are between zero and the burst |
| RateTheorems.TakeUsesCap | src/middleware/ioh_ratelimit.c:64-99 | refilling and taking a token uses up at least one unit of what the bucket can still allow in a window |
| RateTheorems.FindStable | src/middleware/ioh_ratelimit.c:39-62 | a key that has a bucket keeps that bucket, and checks of other keys do not change it |
| RateTheorems.LongKeyTakesFreshSlot | src/middleware/ioh_ratelimit.c:39-62 | a key of 128 bytes or more never matches a bucket: each check takes a free slot and is allowed exactly if there is one and the burst is positive |
| RateMap.LongKeyEscapes | src/middleware/ioh_ratelimit.c:39-62 | for every such key and every burst from 1 to 1023, 1024 checks at one instant are all allowed, which exceeds the bound |
| RateMap.GuaranteedExactly | src/middleware/ioh_ratelimit.c:39-99 | for any key, the bound holds in every run and window if and only if the key is shorter than 128 bytes, or the burst is 0, or it is at least 1024 |
| RateMap.FindFailsExactly | src/middleware/ioh_ratelimit.c:39-62 | lookup fails if and only if the key is absent and all 1024 slots are used |
| RateMap.KnownKeyFound | src/middleware/ioh_ratelimit.c:39-62 | a known key is found at its own slot, which ends its probe path |
| RateMap.OneSlotPerKey | src/middleware/ioh_ratelimit.c:39-62 | a key occupies at most one slot |
| RateMap.ReachablePaths | src/middleware/ioh_ratelimit.c:39-62 | in every reachable table every slot on a key's probe path before its own is used by another key (keys equal to the cut form of a long key aside) |
| RateMap.CheckRefinesMap | src/middleware/ioh_ratelimit.c:82-99 | a check on the table has the verdict of a check on a map of at most 1024 keys, and the results correspond |
| RateMap.TableIsMap | src/middleware/ioh_ratelimit.c:39-99 | every run on keys shorter than 128 bytes has the verdicts of that map, in order |
| RateLimiter.HashKey | src/middleware/ioh_ratelimit.c:30-37 | shifting and adding in 32 bits is multiplication by 33 modulo 2^32, reduced to a slot |
| RateLimiter.StrNCmp | src/middleware/ioh_ratelimit.c:57-59 | comparing 128 bytes of a terminated buffer with a string is equality of the strings |
| RateLimiter.Limiter.FindBucket | src/middleware/ioh_ratelimit.c:39-62 | the probing loop finds the specified slot and fills it if it is free |
| RateLimiter.Limiter.CheckKey | src/middleware/ioh_ratelimit.c:82-99 | the in-place check changes the table as specified, with the specified verdict |
| RateLimiter.Limiter.Reset | src/middleware/ioh_ratelimit.c:148-154 | a reset leaves the empty table of which the guarantee starts |
| MultipartForms.FormRecovered | src/http/ioh_multipart.c:218-346 | a form whose parts have any quote-free names and any header lines around their dispositions, printed with an empty preamble or one of whole lines without the delimiter, any epilogue, and a boundary whose delimiter occurs in no data: within the limits every name and every piece of data comes back exactly and in order, with the file name and the type as its header lines are read; beyond the limits the result is "too big" |
| MultipartForms.SeparatorFound | src/http/ioh_multipart.c:273-278 | header lines that are not empty end exactly where the first blank line stands |
| MultipartTheorems.HeaderParsed | src/http/ioh_multipart.c:63-179 | a single Content-Disposition line with quote-free values gives its name exactly, although the scan drops its last byte, and what stands behind the first `filename=` for the file name |
| MultipartHeaders.FilenameAbsent | src/http/ioh_multipart.c:63-179 | a part without a file name, its disposition at any place among its header lines, is read as one without if and only if its name does not spell `filename=`, or ends with it while the disposition is the last line |
| MultipartHeaders.EveryBlockIsLines | src/http/ioh_multipart.c:116-179 | every header block is a list of lines without a line break inside, joined by line breaks |
| MultipartHeaders.HeaderLinesRead | src/http/ioh_multipart.c:116-179 | for every such list, all lines but the last are applied whole and in order, and the last without its final byte |
| MultipartHeaders.TypeRecoveredExactly | src/http/ioh_multipart.c:122-176 | for any header lines: the type they announce comes back exactly if and only if the last line is no Content-Type line, or ends in a blank, or has no value while the lines before it announce an empty one |
| MultipartHeaders.NamesRecovered | src/http/ioh_multipart.c:63-179 | for every quote-free name and file name, wherever the disposition line stands among the header lines: the name comes back exactly, and the file name, or that there is none, if and only if the name does not spell `filename=` or is one of the listed coincidences |
| MultipartHeaders.FilenameReadExactly | src/http/ioh_multipart.c:63-111 | what the search for `filename=` finds behind a name and a file name, whole or without the last byte, is the file name if and only if that condition on them holds |
| MultipartHeaders.SpelledExample | src/http/ioh_multipart.c:63-111 | an instance: with the name `filename=x` and the file name `y`, the file name read is `x` and a quote |
| MultipartTheorems.LimitsRespected | src/http/ioh_multipart.c:269-343 | whatever the input and the result, the parts stored respect every limit and none holds the delimiter |
| Multipart.FindBytes | src/http/ioh_multipart.c:41-57 | returns the first occurrence of the needle, or none if and only if there is none |
| Multipart.ExtractParam | src/http/ioh_multipart.c:63-111 | finds the value behind the first case-insensitive key, quoted or not |
| Multipart.ReadPartHeaders | src/http/ioh_multipart.c:116-179 | the loop over header lines fills the part as specified |
| Multipart.ParseMultipart | src/http/ioh_multipart.c:218-346 | the parts array and count are filled with the specified parts, also when parsing stops with an error |
| Base64Theorems.DecodeEncode | src/middleware/ioh_auth.c:36-75 | decoding the padded or the unpadded encoding of any byte string that fits gives it back |
| Base64Theorems.EncodingExactly | src/middleware/ioh_auth.c:36-75 | a text is the encoding of x if and only if it consists of alphabet symbols, decodes to x, leaves no bits over and has no lone last symbol |
| Base64Theorems.DecodeLength | src/middleware/ioh_auth.c:48-72 | for any text decoding succeeds if and only if its n symbols are in the alphabet and floor(3n/4) is below the buffer size, and then gives exactly floor(3n/4) bytes |
| Base64Spec.StepSound | src/middleware/ioh_auth.c:57-71 | between symbols fewer than eight bits are pending and the accumulator is below 2^bits; six bits go in per symbol and eight come out per byte |
| Base64Spec.AlphabetIsBijection | src/middleware/ioh_auth.c:22-31 | table and alphabet invert each other, and the rule that zero is valid only for A accepts exactly the alphabet |
| Base64.PushSymbol | src/middleware/ioh_auth.c:64-70 | the 32-bit shift, write and mask make the specified step and never wrap |
| Base64.DecodeInto | src/middleware/ioh_auth.c:36-75 | returns -1 exactly on failure, else leaves the decoded bytes and a NUL in the buffer; no byte beyond is written |

## Left out

- RadixExactness.OnlyInstancesExactly: assumes distinct routes, because a route registered under two patterns does not tell which one was meant; without that only `ClearFindsInstances` is claimed.
- ConnTheorems.StepKeeps: the answer to a request is an outcome of the environment here, any of four kinds; that the receive handler with its serializer gives one of these is `OutcomeIsEnabled`, and with the bytes themselves `Wire.AdvanceKeeps`. TLS and PROXY connections are not modelled.
- Lengths and byte counts beyond the range of C's `int`, to which some results are cast.
- Allocation failure, null arguments, and exhaustion of submission entries.
- Shutdown called from inside the completion loop, and reuse of file descriptors by the kernel.
- Wrap-around of connection ids after 2^32 accepts.
- The rate limiter's doubles and clock are idealised as reals; its state is one table, not one per thread.
- The SSE4.2 branch of `findchar_fast`, and `is_complete`, which iohttp never reaches because it passes a last length of zero.
- `phr_parse_headers` and `phr_decode_chunked_is_in_data`: no new behaviour.
- Trie priorities, which do not affect lookup, and route introspection.
- Slices are modelled by their text and position, not by addresses; freeing of nodes and buffers is not modelled, and a receive buffer belongs to its slot instead of being allocated with each connection.
- `ioh_multipart_boundary`: one call of the parameter search that is modelled.
- TLS, HTTP/2, HTTP/3, QUIC, WebSocket, PROXY decoding, io_uring set-up and timers: thin layers over other libraries or the kernel.
- The request arena, static files, compression, CORS, cookies, logging, health and configuration code: file access, calls into other libraries, or functions of a single branch.
