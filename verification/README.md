# PulseGate, verified

A Dafny model of the decision logic of PulseGate, an HTTP/1.1 gateway, with proofs of what
it is for: messages keep their meaning however their bytes arrive and however they are
re-framed, caching and rate limiting are fast forms of simple rules, and the pool, the
session registry, the circuit breaker and the atomic counters keep their promises over every
run and every interleaving.

`dafny verify dfyconfig.toml` checks the whole project.

## How the model is built

- Bytes are the `char`s with the same code, so `std::string` becomes `string`. Integers are
  unbounded; where the width matters (`std::size_t` parsing, saturating charges, 16 hex
  digits) it is written out. `double` is `real`. Times are `int` ticks, or `real` seconds in
  the rate limiter, and always come in as arguments.
- Code that changes fields step by step is a class (`Buffer`, `HttpResponseParser`,
  `HttpParser`, `HttpSession`, `ProxySession`, `TokenBucket`, `RateLimiter`, `ResponseCache`,
  `CachedRoute`, `CircuitBreaker`, `UpstreamPoolPolicy`, `UpstreamPool`, `SessionRegistry`,
  `SessionControl`). Each method is proved equal to a function on values, and the theorems
  are about those functions.
- Protocols between threads, strands and timers are transition systems: a state, an action
  per atomic access or handler, and theorems about every state of every run. Messages run in
  any order, timers fire at any time, weak exchanges fail spuriously, relaxed loads are stale.

| files | subject |
|---|---|
| Bytes, Headers, Messages, Buffer, Grammar | byte strings, header lists, messages, the byte buffer, the grammar of single lines |
| ResponseParser, ResponseFraming, ResponseParserObject, ResponseExact | the response parser, fragmentation, bodies and limits |
| RequestParser, RequestFraming, RequestParserObject, RequestExact, Residue, Session, ReadLoop | the request parser, pipelines, the read loop |
| Printers, ResponseRoundTrip, ResponseTheorems, RequestRoundTrip, ForwardExact | printers against parsers, and which headers travel |
| Streaming, StreamEndings, Proxy | re-framing a response while it arrives |
| TokenBucket, RateLimiter, EvictionExact, LimiterExact | rate limiting |
| ResponseCache, CacheExact, Vary, Router, RouterExact, HitExact | the response cache |
| PoolPolicy, PoolProtocol, PoolTheorems, PoolFresh, PoolStop, UpstreamPool | the upstream pool and its leases |
| Lifecycle, Drain, DrainExact, SessionObjects | sessions, the registry and graceful drain |
| Admission, CircuitBreaker | the atomic counters and the breaker |

## Where a property needed a condition

Some properties hold only under a condition the code does not check. Each is stated as an
equivalence, so the condition is exact.

- Fragmentation: a status line or request line of exactly the maximum length is accepted when
  it arrives whole and rejected when a read ends after its CR, because the pending CR is
  counted (`ResponseFraming.FragmentationIndependence`, `RequestFraming.FragmentationIndependence`;
  a concrete line in `ResponseTheorems.BoundaryExample`).
- Re-framing: a streamed 204 or 304 response does not decode to itself, because it is given a
  chunked body; nor does a status that `std::to_string` prints with other than three
  characters, such as 7, which the status-line parser reads from "007"
  (`ResponseTheorems.StreamedResponseDecodes`).
- Head first: `forwardResponse` asks whether the headers are complete after each parse, and a
  parser in the error state answers no (src/http/http_response_parser.cpp:142-145), but the
  body decoded before the error is sent all the same. When head, some chunks and an error come
  in one parse, the chunks go downstream without a head (`StreamEndings.BareChunk`), and in no
  other case (`StreamEndings.HeadComesFirstExactly`).
- Reuse: the repository's README.md:126-127 asks that a connection is not reused after a
  response that declares `Connection: close`. The parser sets `close_connection` only for a
  body ended by the stream (src/http/http_response_parser.cpp:242), so the declaration is not
  heard (`ResponseExact.CloseIsNotHeard`); a connection is reported reusable exactly when its
  response was complete before the stream ended (`ResponseExact.ReuseExactly`).
- Printing: a printed 204 or 304 response with a body does not parse back
  (`ResponseTheorems.PrintedResponseParsesBack`).
- Eviction of idle clients shows whenever the burst is at least one token and more than the
  time to live refills (`EvictionExact.InvisibleExactly`).
- Cache keys: with two or more varying headers, empty header values make different requests
  share a key (`VaryKeys.KeyIsExact`), and a hit then goes to a request that the Vary of the
  response rules out, unless all but one of those headers are Authorization and Cookie, which
  no request that is looked up carries (`HitExact.HitsRespectVaryExactly`).
- Stopping the pool: the stop loop passes `completeWaiter` a reference to the front slot of
  the waiter queue (src/http/upstream_pool.cpp:194-197), `std::erase` overwrites that slot with
  the next waiter, and line 149 then calls the handler found there. With two or more waiters
  the first is never answered and the last is answered twice. The last round reads a
  destroyed slot, which is undefined; the model takes it to hold what it held. Every handler
  is called at most once in every run if and only if at most one waiter may queue
  (`PoolStop.NeverTwiceExactly`), and in a given run exactly unless the first stop finds two
  (`PoolStop.CompletesOnce`, `PoolStop.DoubledExactly`). A loop that copies the pointer first
  keeps the promise (`PoolStop.CopyingCompletesOnce`).
- The read loop: the session constructor accepts limits under which the next read does not
  fit. The safe limits are exactly those with room for one read beside the longest rest of an
  unfinished request, which is given in closed form (`Session.RoomExactly`,
  `RequestResidue.ResidueIsExact`, and for runs of the loop `ReadLoop.LoopRoomExactly`).

## Model

| member | source | states |
|---|---|---|
| `Bytes.FindCrlfPrefix` | src/net/buffer.cpp:79-88 | bytes that arrive later never move a CRLF already found |
| `Bytes.SizeRoundTrip` | src/http/http_response.cpp:33-34 | printing a size and reading it back, in base 10 or 16, gives the size |
| `Bytes.HexLength` | src/http/http_response_parser.cpp:98-107 | every size prints within the 16 digits a chunk-size line may have |
| `Headers.SetIsUpdate` | src/http/headers.cpp:32-41 | `set` leaves exactly one value under its name and every other name's values as they were |
| `Headers.ContainsTokenIsMembership` | src/http/headers.cpp:91-107 | the scan finds a token exactly when a trimmed comma-separated member equals it, ignoring case |
| `Headers.ScanForToken` | src/http/headers.cpp:91-107 | the loop over the shrinking view decides that membership |
| `Headers.ParseHeaderLine` | src/http/http_parser.cpp:181-197 | an accepted header line has a valid lower-case name and a valid trimmed value |
| `Grammar.ValidNameIsToken` | src/http/headers.cpp:81-83 | a header name is accepted exactly when it is visible ASCII without delimiters and not empty, the token of section 5.6.2 of RFC 9110 |
| `Grammar.ValidValueIsOneLine` | src/http/headers.cpp:85-89 | a value is accepted exactly when it has no CR, LF or NUL |
| `Grammar.TrimExactly` | src/http/http_parser.cpp:17-25 | trimming takes away exactly the spaces and tabs at both ends |
| `Grammar.LowerExactly` | src/http/headers.cpp:73-79 | lower case maps the 26 capitals and nothing else |
| `Grammar.ValuesExactly` | src/http/headers.cpp:58-67 | the values of a name are those of the headers of that name, in order |
| `Grammar.PartsExactly` | src/http/headers.cpp:91-107 | the members of a list are the texts between its commas |
| `Grammar.DigitsExactly` | src/http/http_parser.cpp:223 | which characters are digits, and what each counts |
| `Grammar.SizeExactly` | src/http/http_parser.cpp:222-225 | a size is read from digits only, most significant first, and only if it fits 64 bits |
| `Grammar.HeaderLineExactly` | src/http/http_parser.cpp:181-197 | every header line: accepted exactly when a token precedes the first colon and the trimmed rest is one line |
| `Grammar.MethodsExactly` | src/http/http_request.cpp:5-25 | the six method names, any other name being unknown, and printed as UNKNOWN |
| `Grammar.RequestLineExactly` | src/http/http_parser.cpp:153-179 | every line of three words: accepted exactly for a token, a target without blanks, controls or DEL, and version 1.0 or 1.1 |
| `Grammar.NoRequestLine` | src/http/http_parser.cpp:153-162 | a line of fewer words is no request line |
| `Grammar.StatusTextExactly` | src/http/http_response_parser.cpp:185-190 | three characters are a status exactly when they are three digits, or a minus and two digits |
| `Grammar.StatusLineExactly` | src/http/http_response_parser.cpp:180-197 | every line of a version, three characters and a reason: accepted exactly for HTTP/1.x, a status and a reason that is not empty and one line |
| `Grammar.NoStatusLine` | src/http/http_response_parser.cpp:180-184 | a line without the second space in its place is no status line |
| `Grammar.ChunkSizeExactly` | src/http/http_response_parser.cpp:98-107 | a chunk size is at most sixteen hexadecimal digits before any extension |
| `ByteBuffer.Buffer.Prepare` | src/net/buffer.cpp:29-40 | succeeds for a positive request with nothing prepared exactly when readable + n fits the maximum, and never changes the readable bytes |
| `ByteBuffer.Buffer.CompactOrGrow` | src/net/buffer.cpp:99-127 | moving and growing keep the readable bytes and the size limit |
| `ByteBuffer.Buffer.Commit` | src/net/buffer.cpp:42-48 | appends exactly the written prefix of the prepared span |
| `ByteBuffer.Buffer.Consume` | src/net/buffer.cpp:50-61 | drops exactly the first bytes, or fails and changes nothing |
| `ByteBuffer.Buffer.Append` | src/net/buffer.cpp:69-77 | succeeds exactly when the whole input fits; otherwise the buffer is filled to its maximum with a prefix |
| `ByteBuffer.Buffer.LocateCrlf` | src/net/buffer.cpp:79-88 | finds the first CRLF of the readable bytes |
| `ByteBuffer.Buffer.TakeString` | src/net/buffer.cpp:90-97 | returns and drops the first bytes |
| `ResponseParser.FramingIsUnambiguous` | src/http/http_response_parser.cpp:211-256 | a final response that may have a body is accepted exactly when its framing headers are unambiguous, and a coding beside a length, or an unknown coding, fails whatever the status |
| `ResponseParser.Step` | src/http/http_response_parser.cpp:37-131 | one pass keeps the invariant, shortens the input or stops, and consumes only a prefix |
| `ResponseFraming.RunAppend` | src/http/http_response_parser.cpp:37-131 | parsing `a` and then `b` agrees with parsing `a + b`: same leftover on completion, same failure, same continuation, but for the length boundary |
| `ResponseFraming.FragmentationIndependence` | src/http/http_response_parser.cpp:37-140 | for every byte stream, all splits give the same result, response and leftover if and only if no status line of exactly the maximum length is met or the stream is too large anyway |
| `ResponseFraming.CompletedRunIsOneShot` | src/http/http_response_parser.cpp:37-140 | a fragmented run that completes equals the one-shot parse, with no premise |
| `ResponseFraming.NoSuchLineIsSafe` | src/http/http_response_parser.cpp:75-84 | a condition on the bytes alone: if no line of the stream has exactly the maximum length, no split matters |
| `ResponseParserObject.HttpResponseParser.Parse` | src/http/http_response_parser.cpp:37-131 | the parser object, working in place on the buffer, computes the same fields, leftover and result as the function |
| `ResponseParserObject.HttpResponseParser.EndHeaders` | src/http/http_response_parser.cpp:211-256 | the in-place framing decision equals the function |
| `ResponseParserObject.HttpResponseParser.EndOfStream` | src/http/http_response_parser.cpp:133-140 | end of stream completes only a body delimited by it |
| `ResponseExact.ResponseFramingExactly` | src/http/http_response_parser.cpp:211-256 | for every final response that may have a body: which body follows its head, and what each refusal is called |
| `ResponseExact.EofBodyIsEverything` | src/http/http_response_parser.cpp:66-72 | with neither coding nor length, every byte after the head up to the end of the stream is the body, or it is refused as over the limit; and the connection is not reused |
| `ResponseExact.EndOfStreamExactly` | src/http/http_response_parser.cpp:133-140 | the end of the stream completes a body that it ends and is premature for every other message |
| `ResponseExact.CountedBodyExactly` | src/http/http_response_parser.cpp:246-255 | an announced body is exactly that many bytes, what follows is left, fewer bytes wait, and an announcement over the limit is refused |
| `ResponseExact.FixedBodyExactly` | src/http/http_response_parser.cpp:41-54 | a counted body takes exactly the bytes still missing, in any piece |
| `ResponseExact.ChunkedBodyExactly` | src/http/http_response_parser.cpp:55-65 | a chunked body is the contents of its chunks, one after the other |
| `ResponseExact.ChunkExactly` | src/http/http_response_parser.cpp:55-65 | a chunk that does not end in CRLF, or does not fit beside those before it, is refused; any other is appended |
| `ResponseExact.PartialChunkWaits` | src/http/http_response_parser.cpp:56 | a chunk without its last byte is left unread |
| `ResponseExact.TrailersAreDropped` | src/http/http_response_parser.cpp:112-121 | trailers are read past and leave the response as it is |
| `ResponseExact.InterimIsSkipped` | src/http/http_response_parser.cpp:220-227 | an interim response is skipped with its headers: what follows is read as if it had never been there |
| `ResponseExact.UpgradeIsRefused` | src/http/http_response_parser.cpp:228-230 | a 101 response is refused |
| `ResponseExact.NoBodyEndsAtHead` | src/http/http_response_parser.cpp:231-234 | the answer to a HEAD request, and a 204 or 304, ends with its head, whatever length it announces |
| `ResponseExact.AcceptedWithinLimits` | src/http/http_response_parser.cpp:199-209 | no response gets past its headers, for any bytes, with more headers, header bytes or body than the limits allow |
| `ResponseExact.OversizedIsRefused` | src/http/http_response_parser.cpp:75-112 | a status line or a head over its limit, and one header too many, are refused as too large |
| `ResponseExact.ReuseExactly` | src/http/http_response_parser.cpp:149-151 | a connection is reported reusable exactly when its response was complete before the end of the stream |
| `ResponseExact.CloseIsNotHeard` | src/http/http_response_parser.cpp:149-151 | also when the response declares that it closes the connection |
| `RequestParser.Step` | src/http/http_parser.cpp:51-127 | one pass keeps the invariant; a pass that asks for more leaves a bounded rest |
| `RequestFraming.RunAppend` | src/http/http_parser.cpp:51-127 | parsing in two calls against one, for every cut |
| `RequestFraming.FragmentationIndependence` | src/http/http_parser.cpp:51-151 | for every pipeline of requests, all splits give the same requests and leftover if and only if no request line of exactly the maximum length decides |
| `RequestFraming.ShortLinesAreSafe` | src/http/http_parser.cpp:70-93 | a condition on the bytes alone: if all lines of the pipeline are shorter than the maximum, no split matters |
| `RequestFraming.PipelineKeepsRequests` | src/http/http_parser.cpp:137-151 | n complete requests in a row come out as those n requests, in order, and then the rest is served |
| `RequestParserObject.HttpParser.Parse` | src/http/http_parser.cpp:51-127 | the parser object computes the same fields, leftover and result as the function |
| `RequestExact.RequestFramingExactly` | src/http/http_parser.cpp:199-231 | at the blank line a request is accepted exactly when HTTP/1.1 has a Host, there is no Transfer-Encoding, and no Content-Length or exactly one that is a size within the limit; how many body bytes follow; and what each refusal is called |
| `RequestExact.RequestExactly` | src/http/http_parser.cpp:51-127 | for every head within the limits, one header a line in normal form, and any bytes after it: it is refused with that code, or the body is exactly the announced bytes and the rest is left for the next request, or more is needed |
| `RequestExact.CompletedIsFramed` | src/http/http_parser.cpp:51-127 | whatever bytes arrive, a completed request has that framing and exactly the announced body |
| `RequestExact.AcceptedWithinLimits` | src/http/http_parser.cpp:181-197 | no request is completed, for any bytes, with more headers, header bytes or body than the limits allow |
| `RequestExact.OversizedExactly` | src/http/http_parser.cpp:70-107 | a line over its limit and one header too many are refused as too large; an unfinished line is refused exactly when it exceeds what may still come |
| `RequestResidue.ResidueIsExact` | src/http/http_parser.cpp:51-127 | the longest rest an unfinished request leaves unread, in closed form from the limits: the bound holds for every input and is the least that does |
| `RequestResidue.RunPays` | src/http/http_parser.cpp:51-127 | from any state reached, whenever more is needed the unread bytes are within that residue |
| `RequestResidue.LongHeaderWaits` | src/http/http_parser.cpp:74-93 | a header line that fills the head after the shortest request line waits for more |
| `RequestResidue.LongBodyWaits` | src/http/http_parser.cpp:61-68 | for every body length that a head within the limits can announce, all but its last byte waits |
| `Session.RoomExactly` | src/http/http_server.cpp:215-222 | after every unfinished request the next read fits if and only if the buffer has room for the residue and one read |
| `ReadLoop.LoopRoomExactly` | src/http/http_server.cpp:329-367 | some run of the read loop, in reads of at most one chunk that each fit, ends with a full buffer if and only if there is no such room; with reads of one byte and request lines limited to the shortest, the residue is that of the request line alone |
| `Session.ValidNeedNotBeRoomy` | src/http/http_server.cpp:215-222 | limits the constructor accepts that are not safe |
| `Session.TakesConserves` | src/http/http_server.cpp:349-365 | what was read and what stays in the socket is what arrived, in order |
| `Session.HttpSession.ReadMore` | src/http/http_server.cpp:341-366 | a read fails exactly when the chunk does not fit, waits only when nothing arrived, sees the close only when it is next, and otherwise appends the next piece or its first part |
| `Session.HttpSession.ReadRequest` | src/http/http_server.cpp:329-367 | the loop takes the arriving pieces in order and no more than it needs; request, error and unread rest are those of parsing them; it waits only when nothing is left; the buffer is full exactly when the next read does not fit, and never within safe limits |
| `Printers.AppendHeaders` | src/http/http_response.cpp:7-42 | the printing loop writes exactly the kept headers, in order, one line each |
| `Printers.SerializeResponse` | src/http/http_response.cpp:7-42 | the string the appending code builds is the specified one, or the error for an invalid response |
| `Printers.HeaderLineRoundTrip` | src/http/http_response.cpp:20-31 | a printed header line parses back to the header in normal form |
| `ResponseTheorems.PrintedResponseParsesBack` | src/http/http_response.cpp:7-42 | parsing a printed response followed by any bytes gives back status, reason, headers and body and leaves exactly those bytes, if and only if a 204 or 304 has no body |
| `ResponseTheorems.StreamedResponseDecodes` | src/http/reverse_proxy.cpp:57-100 | head, chunk frames and terminator decode to the same status, reason, end-to-end headers and body, if and only if the status prints as three characters and is not 204 or 304 |
| `ResponseTheorems.BoundaryExample` | src/http/http_response_parser.cpp:75-84 | a concrete status line accepted whole and rejected when split after its CR |
| `ResponseRoundTrip.StatusLineRoundTrip` | src/http/http_response_parser.cpp:180-197 | a printed status line parses to the same status and reason |
| `ResponseRoundTrip.ChunksRoundTrip` | src/http/reverse_proxy.cpp:94-100 | any sequence of chunk frames decodes to the concatenation of their contents |
| `Streaming.CompletedRunIsFaithful` | src/http/reverse_proxy.cpp:372-450 | a forwarding run that completes emitted the streamed form of the response that a plain read loop would parse |
| `Streaming.StreamingPreservesMeaning` | src/http/reverse_proxy.cpp:372-450 | for every upstream stream, whatever part of it is in the buffer already and every split of the rest into reads, the emitted bytes decode to the one-shot parse of the upstream bytes, exactly for the statuses that can be streamed; reuse is reported only for a complete, length- or chunk-delimited message with nothing left over |
| `Proxy.ProxySession.ForwardResponse` | src/http/reverse_proxy.cpp:372-450 | the loop over the session's own parser and buffer takes the arriving reads in order and no more than it needs, its outcome and writes are that function of them, it waits only when nothing is left, and it stops with a full buffer only when the next read does not fit |
| `Proxy.ProxySession.TakesConserves` | src/http/reverse_proxy.cpp:416-448 | the reads and what stays in the socket are the bytes, end and cancellation that arrived, in order |
| `Proxy.ProxySession.PumpDownstream` | src/http/reverse_proxy.cpp:378-396 | the head is written once, before any body, and then exactly the new part of the body |
| `Proxy.ProxySession.CloseStream` | src/http/reverse_proxy.cpp:397-409 | the terminator is written and reuse reported as the function says |
| `StreamEndings.EveryEndingIsAccounted` | src/http/reverse_proxy.cpp:372-450 | however a run ends, what it read and what it wrote: only a complete response gets its terminator; a failure, a stop and a wait have sent all that was decoded; failure codes and reuse are those of a plain read loop; only a client that takes no more writes is given up on |
| `StreamEndings.HeadComesFirstExactly` | src/http/reverse_proxy.cpp:378-396 | what goes downstream begins with the head, except exactly when a parse fails in the very call that found the headers complete after decoding some of the body |
| `StreamEndings.BareChunk` | src/http/reverse_proxy.cpp:378-419 | the exception, for every chunked head, chunk and bad chunk size read in one piece: the chunk is written without a head |
| `RequestRoundTrip.ForwardedRequestParsesBack` | src/http/reverse_proxy.cpp:111-139 | re-parsing a forwarded request gives the same method, target and body, the end-to-end headers in order and the six rebuilt ones, and leaves nothing of it |
| `RequestRoundTrip.ForwardingIsIdempotent` | src/http/reverse_proxy.cpp:39-49 | forwarding again leaves the end-to-end headers, and the bytes sent, unchanged |
| `ForwardExact.TravelsExactly` | src/http/reverse_proxy.cpp:39-50 | a header travels exactly when its name is none of thirteen, written out, and no trimmed member of any Connection value equals it, ignoring case; order and multiplicity are kept |
| `ForwardExact.AuthorityExactly` | src/http/reverse_proxy.cpp:51-55 | the upstream host is put in brackets exactly if it has a colon |
| `ForwardExact.UpstreamReadsExactly` | src/http/reverse_proxy.cpp:111-139 | the headers the upstream reads, one by one: those that travel, and the six written afresh |
| `ForwardExact.ClientReadsExactly` | src/http/reverse_proxy.cpp:57-92 | the headers the client of a streamed response reads, one by one: those that travel, and the three written afresh |
| `ForwardExact.SerializeExactly` | src/http/http_response.cpp:7-31 | printing is refused exactly for a status that is not three digits, a reason that is empty or not one line, or a header to be written that is no token and one line |
| `ForwardExact.KeptExactly` | src/http/http_response.cpp:20-31 | all headers are printed but Content-Length and Connection, which are written afresh |
| `ForwardExact.HeadAnswerIsTheHead` | src/http/http_response.cpp:33-42 | the answer to a HEAD request is the same head with the length of the body left out |
| `TokenBuckets.BucketIsWindowRule` | src/http/rate_limiter.cpp:28-55 | over every run of calls at any times, `allow` refuses exactly when granting would overdraw some window since an earlier call or the creation, or the window of the call alone |
| `TokenBuckets.RetryAfterIsLeast` | src/http/rate_limiter.cpp:38-48 | with no grant in between, the wait is the least whole number of milliseconds that succeeds |
| `TokenBuckets.NeverAboveBurst` | src/http/rate_limiter.cpp:28-36 | a request above the burst never succeeds |
| `TokenBuckets.TokenBucket.AllowNow` | src/http/rate_limiter.cpp:28-36 | the object's update is the function |
| `TokenBuckets.TokenBucket.RetryAfterNow` | src/http/rate_limiter.cpp:38-48 | the object's update and answer are the function |
| `RateLimiting.CheckKeepsInv` | src/http/rate_limiter.cpp:98-133 | the counter stays the exact number of stored keys, within the limit, each key in its shard |
| `RateLimiting.EvictionIsInvisible` | src/http/rate_limiter.cpp:98-155 | with times in order, every decision not flagged as out of space is that of an unbounded table that never evicts, for any shard count and hash |
| `EvictionExact.ShortTtlShows` | src/http/rate_limiter.cpp:146-155 | with a shorter time to live, one client can always tell the difference |
| `EvictionExact.InvisibleExactly` | src/http/rate_limiter.cpp:98-155 | eviction is invisible if and only if the burst is below one token or the time to live refills it |
| `RateLimiting.RateLimiter.PruneExpired` | src/http/rate_limiter.cpp:146-155 | erasing while iterating, in any order, leaves exactly the clients not idle for the time to live, and counts each erasure |
| `RateLimiting.RateLimiter.CheckClient` | src/http/rate_limiter.cpp:98-133 | the object's update and decision are the function, and keep its invariant |
| `LimiterExact.EachClientIsJudgedAlone` | src/http/rate_limiter.cpp:98-133 | every answer not flagged is the one that the client's own earlier requests give, whatever other clients did, no name standing for `unknown`; a refusal names the least wait in milliseconds after which a token is there |
| `LimiterExact.OwnDecides` | src/http/rate_limiter.cpp:98-133 | the same of the table without eviction |
| `LimiterExact.FullExactly` | src/http/rate_limiter.cpp:104-119 | a request is turned away for lack of space exactly when its client is not stored or idle, and the keys left fill the table; it is told one second |
| `Caching.ComputeCharge` | src/http/response_cache.cpp:195-211 | the overflow-checked sum never wraps and is the exact size, capped |
| `Caching.LimitsAreTheBudget` | src/http/response_cache.cpp:94-99 | the shard limits sum to the byte budget, and each holds a maximal entry |
| `CacheExact.SharesAreEven` | src/http/response_cache.cpp:94-99 | the limits of two shards differ by at most one byte, the earlier having more |
| `CacheExact.ChargeExactly` | src/http/response_cache.cpp:195-211 | an entry is charged key, reason, body and both parts of each header |
| `Caching.Fitting` | src/http/response_cache.cpp:131-133 | the longest most-recently-used run that fits: it fits, and every longer one does not |
| `Caching.RunIsFaithful` | src/http/response_cache.cpp:102-141 | after every run each shard holds last-stored entries only, each key once, in order of last use, within its limit |
| `Caching.HitIsLastStored` | src/http/response_cache.cpp:102-120 | a hit returns the last accepted store of the key, before its expiry |
| `Caching.LastStoredIsLast` | src/http/response_cache.cpp:122-141 | that store is in the run, and no later accepted store of the key is |
| `Caching.MissHasReason` | src/http/response_cache.cpp:102-141 | if the last stored entry is gone, a lookup saw it expired, or a store pushed it out because it and everything used later did not fit beside the new entry |
| `CacheExact.HitExactly` | src/http/response_cache.cpp:102-141 | over every run a lookup finds a response exactly when the last accepted store of the key stored it less than the time to live ago, no lookup since saw it expired and no store since pushed it out |
| `CacheExact.StoreThenLookup` | src/http/response_cache.cpp:122-141 | a store is accepted exactly when it fits its shard, and is then found until its time to live has passed; a refused one changes nothing |
| `Caching.WithinBudget` | src/http/response_cache.cpp:94-141 | over every run the whole cache stays within its byte budget |
| `Caching.ResponseCache.Get` | src/http/response_cache.cpp:102-120 | the lookup on list, index and byte count is the function, and keeps them in agreement |
| `Caching.ResponseCache.Put` | src/http/response_cache.cpp:122-141 | the store is the function: the new entry, then exactly the longest most-recently-used run of others that fits |
| `Caching.ResponseCache.EvictUntil` | src/http/response_cache.cpp:131-133 | evicting from the back stops at exactly that run |
| `Caching.ResponseCache.Erase` | src/http/response_cache.cpp:213-218 | takes one node out of list, index and byte count |
| `VaryKeys.Accept` | src/http/response_cache.cpp:76-92 | an accepted configuration has valid, lower-case, distinct varying headers, exactly the configured ones |
| `VaryKeys.EncodeIsInjective` | src/http/response_cache.cpp:67-72 | different field lists never give the same key text |
| `VaryKeys.MakeKey` | src/http/response_cache.cpp:168-189 | the appending loops build the key |
| `VaryKeys.SplitsExactly` | src/http/response_cache.cpp:169-173 | every target splits in exactly one way into a path without question mark and a query |
| `VaryKeys.FixedFieldsExactly` | src/http/response_cache.cpp:169-181 | the fixed fields of two keys are equal exactly for one host, ignoring case, one path, no path being `/`, and one query |
| `VaryKeys.EqualKeysAreAlike` | src/http/response_cache.cpp:168-189 | equal keys mean equal lower-cased host, path, query and values of every varying header, if there is at most one such header or one of the requests has no empty value under them |
| `VaryKeys.AlikeSharesKey` | src/http/response_cache.cpp:168-189 | the converse |
| `VaryKeys.Collision` | src/http/response_cache.cpp:182-187 | for any two varying headers, two requests with one key that differ under both |
| `VaryKeys.KeyIsExact` | src/http/response_cache.cpp:168-189 | keys separate all requests that differ if and only if at most one varying header is configured |
| `Routing.VaryIsCovered` | src/http/response_cache.cpp:47-65 | the scanning loops decide that every name in every Vary value is a configured header |
| `RouterExact.LookedUpExactly` | src/http/response_cache.cpp:155-158 | a request is looked up exactly if it is a GET or HEAD with neither Authorization nor Cookie |
| `RouterExact.DirectiveExactly` | src/http/response_cache.cpp:26-36 | a member of a Cache-Control value is a directive by the text before any `=`, trimmed and ignoring case |
| `RouterExact.SensitiveExactly` | src/http/response_cache.cpp:38-45 | a response is sensitive exactly if it sets a cookie or has no-store or private in any Cache-Control value |
| `RouterExact.StoredExactly` | src/http/response_cache.cpp:160-166 | a response is stored exactly if it is a 200 not yet written, smaller than an entry may be, not sensitive, and varies on configured headers only |
| `Routing.HitIsStored` | src/http/router.cpp:145-186 | over every interleaving of lookups and fills, a hit serves an unexpired response that an earlier cacheable GET with the same key stored |
| `HitExact.HitIsJustified` | src/http/router.cpp:145-186 | that GET agrees with the served request on host, path, query and every header the response varies on, if at most one varying header is other than Authorization and Cookie or the request has no empty value under them |
| `HitExact.WrongHit` | src/http/router.cpp:152-161 | for any two other varying headers, a store and a lookup whose hit differs in a header the response varies on |
| `HitExact.HitsRespectVaryExactly` | src/http/router.cpp:145-186 | every hit of every run is right if and only if at most one varying header is other than Authorization and Cookie, given room for those entries |
| `Routing.CachedRoute.BeforeHandler` | src/http/router.cpp:145-163 | the route answers from the cache exactly on a hit of a cacheable request, marked HIT |
| `Routing.CachedRoute.AfterHandler` | src/http/router.cpp:169-189 | the response is stored and marked MISS exactly when it may be stored and fits, and else marked BYPASS |
| `Routing.MarkedStatus` | src/http/router.cpp:155-158 | the marked response has exactly that X-Cache and X-Request-Id value |
| `PoolPolicy.AcquireKeepsLedger` | src/http/upstream_pool.cpp:58-81 | acquiring keeps every id in one place, the busy count exact and the limits; it fails only with all connections busy |
| `PoolPolicy.ReleaseKeepsLedger` | src/http/upstream_pool.cpp:83-92 | so does a release |
| `PoolPolicy.DiscardKeepsLedger` | src/http/upstream_pool.cpp:94-98 | so does a discard, after which the id is nowhere |
| `PoolPolicy.AcquireExactly` | src/http/upstream_pool.cpp:58-81 | the most recently returned connection is taken that is open, below its reuse limit, and neither too old nor idle too long; a new one is opened only if there is none, and nothing only if then the limit is reached |
| `PoolPolicy.ReleaseExactly` | src/http/upstream_pool.cpp:83-92 | a returned connection is kept exactly when it is open, below its reuse and age limits and there is room, and then as the newest |
| `PoolPolicy.PrunedKeepsReusable` | src/http/upstream_pool.cpp:100-102 | pruning takes away exactly the connections that are closed, used up, too old or idle too long |
| `PoolPolicy.PrunedInOrder` | src/http/upstream_pool.cpp:100-102 | and leaves the others in order |
| `PoolPolicy.NoneStaleIsGranted` | src/http/upstream_pool.cpp:58-81 | what is handed out is a new connection or an idle one that is not stale |
| `PoolTheorems.RunKeepsInv` | src/http/upstream_pool.cpp:134-213 | the pool invariant, with the stop loop as written or copying, holds in every state of every run |
| `PoolTheorems.OnePlace` | src/http/upstream_pool.cpp:8-118 | no id is in two of idle list, lease, reply and queued return; busy is the number held; busy + idle and idle keep their limits; no id is handed out more than `max_reuses` times |
| `PoolTheorems.OneHolder` | src/http/upstream_pool.cpp:8-47 | two leases or messages never carry the same connection |
| `PoolFresh.IdleWasPutBack` | src/http/upstream_pool.cpp:83-92 | over every run, each idle connection was returned by an owner, at the time it carries |
| `PoolFresh.GrantedIsFresh` | src/http/upstream_pool.cpp:58-118 | over every run, a connection handed out is new, or was returned less than the idle time ago, opened less than the lifetime ago, and used less often than the limit |
| `PoolFresh.AcquireAnswers` | include/pulsegate/http/upstream_pool.h:114-163 | each answer to an acquire and exactly when it is given: aborted, a connection, no space, or a place at the back of the queue |
| `PoolFresh.TimerExactly` | include/pulsegate/http/upstream_pool.h:152-161 | a timer takes its waiter out of the queue, answers it, and leaves the others in order |
| `PoolTheorems.NeverAgain` | src/http/upstream_pool.cpp:164-181 | from the discard call on, queued or done, the connection is never handed out again |
| `PoolTheorems.CallsAccounted` | include/pulsegate/http/upstream_pool.h:107-166 | every acquire is in exactly one of queued, waiting, answered, called or destroyed, and in one more if a stop answered it twice |
| `PoolStop.CompletesOnce` | src/http/upstream_pool.cpp:143-199 | as long as the first stop to run finds at most one waiter, every acquire is in exactly one place and its handler is called at most once |
| `PoolStop.DoubledExactly` | src/http/upstream_pool.cpp:188-199 | some handler was answered twice exactly when the first stop to run found two or more waiters, and never more than one handler is |
| `PoolStop.SlipForgetsTheFirst` | src/http/upstream_pool.cpp:143-150 | such a stop answers the last waiter twice, and the handler of the first is never called in any continuation |
| `PoolStop.NeverTwiceExactly` | src/http/upstream_pool.cpp:188-199 | over all runs of the code as written no handler is called twice if and only if `max_waiters` is at most one |
| `PoolStop.CopyingCompletesOnce` | src/http/upstream_pool.cpp:152-162 | with a stop loop that copies the front pointer, as this loop does, every handler is called at most once in every run |
| `PoolTheorems.WaitersBounded` | include/pulsegate/http/upstream_pool.h:133-162 | the waiters never exceed their limit and each has its timer |
| `PoolTheorems.StopsForGood` | src/http/upstream_pool.cpp:188-199 | once stopping there is no waiter, and none is ever added |
| `PoolTheorems.ReleaseServesFront` | src/http/upstream_pool.cpp:134-162 | a returned connection always serves the waiter at the front |
| `UpstreamPools.UpstreamPoolPolicy.AcquireLease` | src/http/upstream_pool.cpp:58-81 | the popping loop is the function |
| `UpstreamPools.UpstreamPoolPolicy.ReleaseReusable` | src/http/upstream_pool.cpp:83-92 | the release is the function |
| `UpstreamPools.UpstreamPoolPolicy.DiscardLease` | src/http/upstream_pool.cpp:94-98 | the discard is the function |
| `UpstreamPools.UpstreamPoolPolicy.PruneIdle` | src/http/upstream_pool.cpp:100-102 | the filtering loop is the function |
| `UpstreamPools.UpstreamPool.CompleteWaiter` | src/http/upstream_pool.cpp:143-150 | called with a copy of the pointer, it completes a waiter once; a lease for a completed one is abandoned |
| `UpstreamPools.UpstreamPool.CompleteFront` | src/http/upstream_pool.cpp:143-150 | called with a reference to the front slot, it marks the front waiter done and answers the next one, or itself if it was the last |
| `UpstreamPools.UpstreamPool.SatisfyOneWaiter` | src/http/upstream_pool.cpp:152-162 | the handler is the protocol's step |
| `UpstreamPools.UpstreamPool.HandleAcquire` | include/pulsegate/http/upstream_pool.h:114-163 | the posted acquire handler is the protocol's step |
| `UpstreamPools.UpstreamPool.HandleRelease` | src/http/upstream_pool.cpp:134-141 | the posted release handler is the protocol's step |
| `UpstreamPools.UpstreamPool.HandleDiscard` | src/http/upstream_pool.cpp:164-181 | the posted discard handler is the protocol's step and wakes nobody |
| `UpstreamPools.UpstreamPool.HandleStop` | src/http/upstream_pool.cpp:188-199 | the stop handler as written is the protocol's step |
| `UpstreamPools.UpstreamPool.AbortWaiters` | src/http/upstream_pool.cpp:194-197 | the stop loop as written ends and marks every waiter done; it answers all but the first, and the last twice |
| `UpstreamPools.UpstreamPool.AbortWaitersCopying` | src/http/upstream_pool.cpp:194-197 | the same loop with a copied pointer aborts every waiter once, in order |
| `UpstreamPools.UpstreamPool.HandleStopCopying` | src/http/upstream_pool.cpp:188-199 | the stop handler with that loop is the protocol's step |
| `UpstreamPools.UpstreamPool.HandleTimer` | include/pulsegate/http/upstream_pool.h:152-161 | the timer handler is the protocol's step |
| `UpstreamPools.UpstreamPool.HandleCleanup` | src/http/upstream_pool.cpp:201-213 | the cleanup handler is the protocol's step |
| `SessionLife.StepIsSound` | src/http/http_server.cpp:252-367 | every coroutine step keeps the session sound: closed is for good, recorded exactly when closed, and under a reason |
| `SessionLife.LeavingGoesOn` | src/http/http_server.cpp:317-322 | a draining or closed session that has begun its response begins no other |
| `DrainExact.DrainedWaitsNoMore` | src/http/http_server.cpp:427-437 | a drain message that finds a started session suspended closes it if it was waiting for its client, and no such session that is still open ever waits for its client again |
| `DrainExact.ReasonSticks` | src/http/http_server.cpp:439-465 | a reason once given stays, but that a malformed request overrides it |
| `DrainExact.ClosingReasonIsCounted` | src/http/http_server.cpp:439-465 | over every run, a session is counted under the reason it was closed with |
| `DrainExact.DrainedReaderIsCounted` | src/http/http_server.cpp:427-437 | a session closed by the drain message while waiting is counted under the server's shutdown |
| `Draining.RunKeepsInv` | src/http/http_server.cpp:126-197 | the registry, the counts and the checks stay consistent in every state of every run |
| `Draining.NobodyAdmitted` | src/http/http_server.cpp:126-133 | once the registry is draining no session is admitted |
| `Draining.OneMoreResponse` | src/http/http_server.cpp:252-327 | from the moment a session drains it writes at most one more response: the one under way, or one it begins |
| `Draining.BoundFromTheCall` | src/http/http_server.cpp:239-242 | counted from the drain call, a session begins at most one response for each turn it has before the message is delivered, and one more if it is suspended between responses then |
| `Draining.OneMoreFromTheCall` | src/http/http_server.cpp:239-242 | with at most one turn before the delivery, it begins at most one more response ever, besides one under way |
| `Draining.LateMessageServesMore` | src/http/http_server.cpp:239-242 | in the free order of the model, with the message delayed past several turns, a told session begins two |
| `Draining.EverySessionTold` | src/http/http_server.cpp:147-155 | after the drain call every registered session is leaving or has the message on its way |
| `Draining.CountedOnce` | src/http/http_server.cpp:135-145 | every admitted session is either registered or counted exactly once, under one real reason, and the registry keeps its limit |
| `Draining.CallbackIsRight` | src/http/http_server.cpp:564-582 | the callback fires at most once, only with every admitted session closed; it reports true only if all were gone at a moment before the deadline, and false only after it |
| `SessionObjects.SessionRegistry.TryAdd` | src/http/http_server.cpp:126-133 | admits exactly when not draining, not full and the id is new |
| `SessionObjects.SessionRegistry.RecordRejected` | src/http/http_server.cpp:135-138 | the counters are the number of logged counts of each reason |
| `SessionObjects.SessionRegistry.Remove` | src/http/http_server.cpp:140-145 | only the first removal of an id counts |
| `SessionObjects.SessionRegistry.BeginDrain` | src/http/http_server.cpp:147-155 | sets the flag and tells exactly the registered sessions |
| `SessionObjects.SessionControl.CloseInExecutor` | src/http/http_server.cpp:439-465 | closes once, keeps the first reason and leaves the registry under it |
| `SessionObjects.SessionControl.BeginDrainInExecutor` | src/http/http_server.cpp:427-437 | drains, or closes if it was reading |
| `SessionObjects.SessionControl.Leave` | src/http/http_server.cpp:324-326 | the end of the coroutine leaves the session closed and unregistered |
| `InFlightAdmission.CounterIsHolders` | src/http/reverse_proxy.cpp:549-565 | for any number of threads, stale loads and spurious failures, the counter is the number of holders, between zero and the limit, and a request is turned away only if the counter has been at the limit |
| `InFlightAdmission.PastIsHistory` | src/http/reverse_proxy.cpp:549-553 | the values a load may report are those the counter has had |
| `KeyAdmission.KeysWithinLimit` | src/http/rate_limiter.cpp:103-155 | at every step, also between erase and decrement and when storing throws, stored keys <= counter <= limit |
| `KeyAdmission.QuietCounterIsExact` | src/http/rate_limiter.cpp:103-155 | with no thread inside, the counter is the number of stored keys |
| `CircuitBreaking.ClosedBelowThreshold` | src/http/circuit_breaker.cpp:28-45 | over every run, closed exactly while fewer failures than the threshold came since the last success |
| `CircuitBreaking.OpenAdmitsNothing` | src/http/circuit_breaker.cpp:14-26 | once open, nothing is admitted and nothing changes until a success or a call at the retry time |
| `CircuitBreaking.OpenedBy` | src/http/circuit_breaker.cpp:36-45 | an open breaker was opened by the threshold-th failure or by one in a half-open episode, a cooldown before its retry time |
| `CircuitBreaking.EpisodeBound` | src/http/circuit_breaker.cpp:14-50 | within one half-open episode the admissions are at most the probe budget plus the neutral outcomes |
| `CircuitBreaking.EpisodeAdmitsExactly` | src/http/circuit_breaker.cpp:14-50 | within an episode a request is admitted exactly when fewer probes than the budget are outstanding |
| `CircuitBreaking.HalfOpenIsEpisode` | src/http/circuit_breaker.cpp:14-26 | every half-open state lies in such an episode |
| `CircuitBreaking.AdmittedExactly` | src/http/circuit_breaker.cpp:14-26 | over every run a request is admitted exactly when the breaker is closed, or open with the cooldown since the opening failure over, or half open with a probe left |
| `CircuitBreaking.TransitionsExactly` | src/http/circuit_breaker.cpp:14-60 | over every run, what each call does to the state: when it closes, opens and with which retry time, and that the call that leaves the open state is the first probe |
| `CircuitBreaking.CircuitBreaker.AllowRequest` | src/http/circuit_breaker.cpp:14-26 | the object's update and answer are the step |
| `CircuitBreaking.CircuitBreaker.RecordSuccess` | src/http/circuit_breaker.cpp:28-34 | the object's update is the step |
| `CircuitBreaking.CircuitBreaker.RecordFailure` | src/http/circuit_breaker.cpp:36-45 | the object's update is the step |
| `CircuitBreaking.CircuitBreaker.RecordNeutral` | src/http/circuit_breaker.cpp:47-50 | the object's update is the step |

## Left out

- Sockets, resolvers, executors, strands, timers and threads themselves: they appear as byte arrivals, message orders and free choices.
- YAML and command-line configuration, metrics, logging, MIME types, the sync server and the route table: easy or bound to libraries.
- Health hysteresis and configuration reload: easier than what is here.
- Rounding of `double` in the token bucket, and wrap-around of 64-bit counters and ids.
- A chunk size within two of the largest `std::size_t`: the sum in src/http/http_response_parser.cpp:56 wraps there; the model waits for more bytes.
- The response fields left by a status line that is rejected half way: the model keeps the fields of before; only the error is observable.
- The pool promises neither first-come service over all callers nor a wake-up for every freed slot: `discard` wakes nobody (src/http/upstream_pool.cpp:164-181).
- The rounding of the circuit breaker's Retry-After header (src/http/reverse_proxy.cpp:592-597).
- A residue bound for the response parser: its chunk states have none.
- The rate limiter without per-client buckets is one token bucket and gets no model of its own.
- Several clock readings inside one pool handler are one value.
- Linked-list nodes and iterators of the cache: a node is identified with its key and entry, which are unique in the list; the hit, miss and eviction statistics are not kept.
- References into containers are modelled only in the stop loop of the pool, where they matter.
- Aliasing of header lists: they are values inside their message.
- Exceptions of constructors and of non-positive token counts are preconditions, except for the cache configuration (`VaryKeys.Accept`) and the buffer, whose errors are results.
- Draining.OneMoreResponse: counts from the moment the drain message reaches the session. From the server's call on, the bound is in the turns the session has before the delivery (`Draining.BoundFromTheCall`); how many those can be depends on the executor, which is not part of this model.
- HitExact.HitsRespectVaryExactly: is about every request `Router::handle` may be given; for varying headers such as Transfer-Encoding or Content-Length, the requests of its wrong hits are ones that `HttpParser` rejects. It asks that the small entries of its wrong hits fit in their shards; for a cache without that room only the direction of `HitExact.HitIsJustified` is stated.
