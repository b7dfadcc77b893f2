# Verified model of the DPDK network stack and its HTTP servers

This project models, in Dafny, the parts of the repository whose correctness spans whole runs: the
buffered HTTP/1.1 request parsers and their connection loops, the response serializer and the raw
benchmark client, the shared ARP cache and its injection into each queue's device, the ownership of
packet buffers, the socket set with everything that owns a slot of it, TCP shutdown, the echo pair
and the RSS redirection table. Code that updates state in place is a class with methods proved
against specification functions; the laws are lemmas about those functions and run-driving methods.

| file | what it holds |
|---|---|
| `Bytes.dfy`, `Text.dfy` | bytes, `trim`, `lines`, UTF-8 validity, integer parsing and printing |
| `HttpMessage.dfy`, `HttpSpec.dfy` | messages and the request parser as a function of the whole byte stream |
| `HttpParser.dfy` | the buffer-and-reads implementation of both parsers |
| `HttpChunked.dfy` | chunked bodies: exact language, round trip, trailers |
| `HttpConnection.dfy`, `HttpReset.dfy` | both keep-alive loops, pipelining, and what the resetting loop loses |
| `HttpResponse.dfy`, `RawClient.dfy`, `HttpFraming.dfy` | serializer, raw client, their agreement |
| `HttpHead.dfy` | a concrete head parser that meets the assumptions on `httparse`, and requests and responses read back with it |
| `ArpFrame.dfy`, `ArpProtocol.dfy`, `ArpDraining.dfy` | ARP frames, the shared cache as an interleaved protocol, runs that drain a batch |
| `Injection.dfy`, `ArpInjection.dfy` | injection into a batch, the order of delivery, and how the protocol and this injection agree |
| `Mbufs.dfy`, `Device.dfy` | packet buffers, NIC queues, the smoltcp device |
| `TcpState.dfy`, `SendFuture.dfy` | connection states and shutdown, sending |
| `Sockets.dfy`, `SocketRuns.dfy` | socket ownership and reactor, listeners and dropped streams over whole runs |
| `Echo.dfy`, `Reta.dfy` | echo server and client, redirection table |

## Assumptions

- A read delivers between one byte and the size of its slice, and none only at the end of the stream;
  a stream ends cleanly or with an error that every later read repeats. An I/O error in the middle of
  a stream is the same as a stream that ends there.
- `httparse` and the constructors of the `http` crate are parameters (`HttpSpec.Library`). The head
  parser is assumed never to revise a verdict when more bytes follow, and to consume a non-empty
  prefix; what is said of the amounts that the kimojio loop forgets also assumes that it recognises a
  head at its last byte. `HttpHead.BlankLineStable` and `HttpHead.BlankLinePrompt` give an instance.
- The threads that share the ARP cache interleave at their atomic accesses, and every read sees the
  latest write. The version counter wraps at 2^64 in the model. ARP replies from the network reach
  queue 0 only, so all other traffic of the other queues teaches the stack no address.
- The hardware takes or gives any number of packets up to what is asked; any allocation may be
  refused. `Nic` counts refusals, bursts that found or took nothing, packets asked for and offered, so
  that a method cannot satisfy its contract by not trying.
- smoltcp moves sockets along the TCP state diagram (`TcpState.Moves`); `listen` on a fresh socket
  fails for port 0 only; an egress transmits any part of the resets that are due, since the device may
  refuse tokens; `recv` shows any non-empty part of the receive buffer; tasks run only while the reactor
  yields.
- `usize` has 64 bits. `Vec::with_capacity` panics above `isize::MAX`, which the model shows as the
  outcome `CapacityOverflow`.

## What the proofs found

- A receive batch left at 63 packets with two or more ARP entries due is stuck as long as no allocation
  fails: every `receive` pushes one ARP frame, fails on the second and hands the first one out, so none of
  the 63 packets is delivered and the version is not committed (`Injection.StuckForever`,
  `Device.ReceiveWhileStuck`); `Injection.CommitsOrStarves` says exactly when this happens. A refused first
  allocation lets one of the 63 out.
- The token that comes with a received packet is issued without looking for space. Replying panics exactly
  when the flush of a full batch sent nothing and a buffer is to be had (`Device.ReceiveThenReply`); a run
  in which every flush of a full batch sends something never panics (`Device.Drive`), and
  `Device.FillThenReply` is a run in which a single flush decides.
- The shared ARP cache can leave a consumer queue with an outdated address although the current version
  is committed and nothing is going on: frames are popped newest first, so an older frame for the same
  address that still lies in the batch is processed last (`ArpDraining.StackEndsStale`).
  `ArpProtocol.QuietConsumerIsCurrent` says exactly when the drained table is the current map.
- The comment on `receive` calls the order of the batch first-in-first-out. The code pops the newest
  packet first, so arrival order is kept for packets that differ only if the batch holds at most one
  (`Injection.DrainsNewestFirst`, `Injection.OrderKeptIff`).
- The kimojio connection loop forgets whatever is buffered behind a request. How much is a function of
  the stream and of the sizes of the reads (`HttpConnection.HandleConnection`); requests that arrive in
  one read with another one are lost (`HttpReset.BufferedRequestsAreLost`, `HttpReset.BufferedRun`),
  and none are lost if and only if every request ends where a read ends (`HttpReset.NothingForgotten`,
  `HttpReset.LosesNothingIff`).
- Of the trailer fields of a chunked body only the first line is read, in place of the blank line; what
  follows the body is left intact if and only if there are none (`HttpChunked.TrailersLeak`).
- A chunk size or Content-Length above `isize::MAX` panics the connection's task before a byte of the
  body is read (`HttpConnection.HugeLengthPanics`; `HttpChunked.RoundTrip` is an equivalence for that
  reason).
- `abort()` followed by dropping the stream removes the socket at once, so the reset is never sent
  (`Sockets.AbortThenDrop`, `Sockets.Reactor.DropStream`). A stream dropped while still active has one
  egress left: its reset is lost if and only if that egress does not transmit it, because the cleanup
  looks at the state only (`SocketRuns.DropThenIterate`, `Sockets.Reactor.Iterate`).
- The documentation of the listener says that some socket is always ready for a SYN. A SYN takes a socket
  out of LISTEN, and only an accept or a connection that falls back brings one in. So in every run since
  the bind some socket is ready if and only if there have been fewer SYNs than max(1, backlog), accepts and
  fallen-back connections together (`SocketRuns.ReadyIffBacklogLeft`); as many SYNs as the backlog in one
  burst leave none (`SocketRuns.BurstExhausts`). And a pool whose sockets have all died before they were
  accepted never recovers: every later accept fails until the listener is dropped
  (`SocketRuns.DeadForGood`).
- The echo server closes in CLOSE-WAIT whatever it has pending. A waiting client can then get all of its
  data if and only if that call was shown everything and had room for all of it
  (`Echo.CloseCallDecides`); what is left behind never comes back (`Echo.StrandedStays`).

## Model

| member | source | states |
|---|---|---|
| `HttpParser.HttpParser.ParseRequest` | dpdk-net-test/src/app/custom_http.rs:193-219 | on every read schedule and for both parser flavours the result is that of one pure function of the whole pending stream, a request leaves exactly the bytes after it pending, and no read is made that the request does not need |
| `HttpParser.HttpParser.ParseHeaders` | dpdk-net-test/src/app/custom_http.rs:222-274 | re-parsing after every read decides the head as one look at the first 64 KB of the stream does, through buffer growth, the size limit, a clean close and a broken stream |
| `HttpParser.HttpParser.ReadMore` | dpdk-net-test/src/app/custom_http.rs:277-289 | a full buffer doubles up to 64 KB and then fails; otherwise one read moves bytes from the reader to the buffer without changing the pending stream |
| `HttpParser.HttpParser.CollectHeaders` | dpdk-net-test/src/app/custom_http.rs:244-252 | there is a header map if and only if every name and value is good; a name is in it if and only if some field has it, with the value of the last such field |
| `HttpSpec.HeadersExact` | dpdk-net-test/src/app/custom_http.rs:244-252 | the same of the pure header map, whose only error is the invalid header |
| `HttpSpec.ConvertExact` | dpdk-net-test/src/app/custom_http.rs:233-254 | which of the three errors a complete head is rejected with: method, version and fields are looked at in this order |
| `HttpSpec.RequestFromHead` | dpdk-net-test/src/app/custom_http.rs:193-255 | a request carries exactly the method, target, version and fields of its head, with the defaults for a missing target and method, and nothing else |
| `HttpSpec.BadHead` | dpdk-net-test/src/app/custom_http.rs:230-252 | a head that is refused is refused for its own reason, whatever follows it and however the stream ends |
| `HttpSpec.TooLarge` | dpdk-net-test/src/app/custom_http.rs:277-283 | 64 KB that are not yet a head are rejected as too large, whatever follows |
| `HttpSpec.TargetCheckedLast` | dpdk-net-test/src/app/custom_http.rs:200-218 | the target is rejected only after the body has been read, and a body error comes first |
| `HttpSpec.Truncated` | dpdk-net-test/src/app/custom_http.rs:255-302 | a request cut after any number of its bytes is the end of the stream: the error of the stream, a clean close before its first byte, and otherwise a closed connection |
| `HttpParser.HttpParser.ReadLine` | dpdk-net-test/src/app/custom_http.rs:352-378 | the text before the first line feed of the pending stream without one carriage return, however many reads the line spans |
| `HttpParser.HttpParser.ReadExact` | dpdk-net-test/src/app/custom_http.rs:305-321 | buffer first, then reader: the first n pending bytes, or the end-of-stream error, or the capacity panic |
| `HttpParser.HttpParser.ReadDirect` | dpdk-net-test/src/app/custom_http.rs:390-396 | one `read_exact` into the resized vector returns prefix and exactly the missing bytes |
| `HttpParser.HttpParser.ReadPieces` | dpdk-net-test/src/app/kimojio_server.rs:435-446 | the loop over pieces of at most 8192 bytes returns the same as the direct read |
| `HttpParser.HttpParser.ReadChunkedBody` | dpdk-net-test/src/app/custom_http.rs:324-349 | the chunk loop over the buffer computes the chunked decoding of the pending stream |
| `HttpParser.HttpParser.Reset` | dpdk-net-test/src/app/kimojio_server.rs:450-452 | exactly the buffered bytes disappear from the pending stream |
| `HttpConnection.TwoSchedules` | dpdk-net-test/src/app/custom_http.rs:175-219 | two parsers over equal streams with any two read schedules both return the pure parse of the stream and leave the same bytes |
| `HttpSpec.LastFieldWins` | dpdk-net-test/src/app/custom_http.rs:244-252 | of several fields with one name the last one determines the header value |
| `HttpSpec.ParseRequestExtends` | dpdk-net-test/src/app/custom_http.rs:193-302 | a request parses identically from any longer stream with any ending, and the extra bytes are left for the next request |
| `HttpSpec.ParseRequestShrinks` | dpdk-net-test/src/app/custom_http.rs:193-219 | every request consumes at least one byte, so the connection loop ends |
| `HttpChunked.Accepts` | dpdk-net-test/src/app/custom_http.rs:324-349 | every coded body is decoded to its payload and leaves exactly what follows it |
| `HttpChunked.AcceptsOnly` | dpdk-net-test/src/app/custom_http.rs:324-349 | nothing else is accepted: whatever decodes is a coded body followed by what is left |
| `HttpChunked.RoundTrip` | dpdk-net-test/src/app/custom_http.rs:324-397 | decoding an encoded list of non-empty chunks gives their concatenation and the suffix if and only if no chunk exceeds `isize::MAX` |
| `HttpChunked.EncodedChunkRead` | dpdk-net-test/src/app/custom_http.rs:331-345 | what becomes of one encoded chunk by size: decoded, capacity panic, or size overflow |
| `HttpChunked.SizeExact` | dpdk-net-test/src/app/custom_http.rs:331-333 | a size line gives `n` if and only if what stands before its first semicolon, without white space around it and without one plus sign, spells `n` in hexadecimal, in any case and with any leading zeros, below 2^64 |
| `HttpChunked.ExtendedChunkRead` | dpdk-net-test/src/app/custom_http.rs:329-346 | a chunk whose size line carries an extension is read as the one without it |
| `HttpChunked.TrailersLeak` | dpdk-net-test/src/app/custom_http.rs:334-338 | any chunks with any trailer fields decode to the payload and leave everything after the first trailer line; the suffix is left exactly if and only if there are no trailers |
| `HttpConnection.HandleConnection` | dpdk-net-test/src/app/custom_http.rs:533-601 | handler calls, bytes written and result are those of the pure connection function, whose replies all answer well in the sense of `ServeWell`; a failing write ends the run inside that very reply with the writer's error; the tokio loop forgets nothing, the kimojio loop exactly what the stream and the sizes of the reads determine |
| `HttpConnection.ServeWell` | dpdk-net-test/src/app/custom_http.rs:552-599 | a reply on a kept connection is the handler's response; one that ends the connection has `close` as its only Connection value and is the handler's in all else; besides there is one 400 reply, closing, if and only if the stream is malformed or breaks |
| `HttpConnection.CutRequestIgnored` | dpdk-net-test/src/app/custom_http.rs:545-573 | when the last of a stream of keep-alive requests is cut anywhere, the others are answered, the cut one is never handed over and nothing is said of it |
| `HttpConnection.Forget` | dpdk-net-test/src/app/kimojio_server.rs:585-586 | the kimojio loop drops exactly the buffered bytes from the stream after each kept-alive request, the tokio loop none |
| `HttpConnection.Pipelined` | dpdk-net-test/src/app/custom_http.rs:545-600 | on any concatenation of requests the handler runs once per request in order, replies in the same order, up to and including the first that is not keep-alive; otherwise the connection goes on with the tail |
| `HttpConnection.Converse` | dpdk-net-test/src/app/custom_http.rs:533-601 | the tokio loop itself on any concatenation of requests calls, answers and ends in that way, and a failing write cuts exactly this short |
| `HttpConnection.HugeLengthPanics` | dpdk-net-test/src/app/custom_http.rs:305-321 | a fixed body panics the task without an answer if and only if its announced length exceeds `isize::MAX` |
| `HttpConnection.WellFormedDelimits` | dpdk-net-test/src/app/custom_http.rs:193-302 | a head of at most 64 KB followed by the fixed, chunked or absent body it announces is exactly one request |
| `HttpConnection.ServeAllOpen` | dpdk-net-test/src/app/custom_http.rs:545-600 | a stream of keep-alive requests is answered completely and ends cleanly |
| `HttpConnection.NoDrops` | dpdk-net-test/src/app/kimojio_server.rs:531-588 | the two loops agree on every run in which nothing is buffered at a reset |
| `HttpConnection.ForgottenIsNeverSent` | dpdk-net-test/src/app/kimojio_server.rs:585-586 | a run that drops what is buffered behind a request is the run on the stream without those bytes |
| `HttpReset.BufferedRequestsAreLost` | dpdk-net-test/src/app/kimojio_server.rs:541-587 | when one read delivers several requests, what the kimojio loop forgets is all but the first one, which alone is handed over, while the tokio loop hands over all of them |
| `HttpReset.BufferedRun` | dpdk-net-test/src/app/kimojio_server.rs:522-588 | the kimojio loop itself makes the calls of the run that forgets what its read sizes determine, and one call if one read delivers everything |
| `HttpReset.NothingForgotten` | dpdk-net-test/src/app/kimojio_server.rs:531-588 | on a pipelined stream the kimojio loop forgets nothing if and only if every request ends where a read ends |
| `HttpReset.BoundaryDrops` | dpdk-net-test/src/app/kimojio_server.rs:531-588 | with drops that end at request boundaries exactly the requests not skipped are handed over, and all of them if and only if every drop is 0 |
| `HttpReset.LosesNothingIff` | dpdk-net-test/src/app/kimojio_server.rs:531-588 | the two loops make the same calls if and only if every request ends where a read ends, as long as drops end at request boundaries |
| `HttpConnection.ReachLeast` | dpdk-net-test/src/app/kimojio_server.rs:585-586 | the function that says how far the reads reach when a request is complete gives the total of the shortest prefix of the reads that covers it |
| `HttpMessage.ContentLengthReads` | dpdk-net-test/src/app/custom_http.rs:122-129 | a printed length is read back, and one that overflows reads as absent |
| `HttpMessage.ChunkedInAnyCase` | dpdk-net-test/src/app/custom_http.rs:132-138 | `chunked` is found in any case and among other codings |
| `HttpMessage.ChunkedIff` | dpdk-net-test/src/app/custom_http.rs:132-138 | and by nothing else: a body is chunked if and only if the transfer coding is visible text with `chunked` in any case inside |
| `HttpMessage.ConnectionDecides` | dpdk-net-test/src/app/custom_http.rs:141-149 | a Connection header keeps the connection if and only if it spells keep-alive in any case; without one exactly HTTP/1.1 keeps it, whatever the rest of the request |
| `HttpMessage.SetFieldSets` | dpdk-net-test/src/app/custom_http.rs:585-589 | marking a response `close` leaves exactly one Connection value and every other field in order |
| `HttpMessage.SetFieldPlace` | dpdk-net-test/src/app/custom_http.rs:585-589 | the value stands where the first old one stood, or at the end if there was none |
| `HttpResponse.SerializeResponse` | dpdk-net-test/src/app/custom_http.rs:401-435 | the appended buffer is the head lines, each with its line break, a blank line and the body |
| `RawClient.FindHeaderEnd` | tests/dpdk-bench-client/src/raw_client.rs:215-222 | the position after the first blank line, or none if there is no blank line |
| `RawClient.HeaderEndStable` | tests/dpdk-bench-client/src/raw_client.rs:142-148 | once the end of the head is in the bytes read so far, more bytes do not move it |
| `RawClient.ParseContentLength` | tests/dpdk-bench-client/src/raw_client.rs:226-236 | the first Content-Length line decides, in any case, well-formed or not |
| `RawClient.ReadResponse` | tests/dpdk-bench-client/src/raw_client.rs:126-186 | on every schedule the loop succeeds exactly when the stream holds the declared response, has then read at least that and nothing it did not count, holds exactly the bytes it read, and never reads into an empty slice |
| `RawClient.FrameEndExact` | tests/dpdk-bench-client/src/raw_client.rs:142-166 | a response has an end as soon as there is a blank line: after as many more bytes as the first Content-Length line before it asks for, none if it is malformed or there is none |
| `HttpFraming.SerializedFrames` | dpdk-net-test/src/app/custom_http.rs:401-435 | the client recovers from the serialized bytes the exact head and body split, the head lines, the body itself and its length |
| `HttpHead.WrittenResponseReads` | dpdk-net-test/src/app/custom_http.rs:401-435 | read back line by line, the status line has version, status and reason, the other lines are exactly the handler's fields in order with the length added if it was not set, and the rest is the body |
| `HttpFraming.VersionTextTells` | dpdk-net-test/src/app/custom_http.rs:152-160 | the text of a version tells it from every other version, but HTTP/0.9 is written as HTTP/1.1 |
| `HttpFraming.StatusLineReads` | dpdk-net-test/src/app/custom_http.rs:405-411 | the status line splits back into version, status and reason |
| `HttpFraming.Deliver` | tests/dpdk-bench-client/src/raw_client.rs:121-187 | a serialized response, however fragmented, is counted to its last byte, and what the client then holds after the head is the body |
| `HttpHead.BlankLineStable` | dpdk-net-test/src/app/custom_http.rs:227-230 | the assumption that the head parser never revises a verdict is met by a concrete parser |
| `HttpHead.BlankLinePrompt` | dpdk-net-test/src/app/custom_http.rs:227-230 | so is the assumption that a head is recognised at its last byte |
| `HttpHead.WrittenRequestReads` | dpdk-net-test/src/app/custom_http.rs:193-302 | with that parser a written request, followed by anything, parses back to its method, URI, version and body, with exactly the written fields as headers, and leaves what follows |
| `Text.PrintParses` | dpdk-net-test/src/app/custom_http.rs:331-332 | printing and parsing a machine-size number are inverse, in decimal and hexadecimal |
| `Text.ParseExact` | dpdk-net-test/src/app/custom_http.rs:122-129 | a text parses to `n` if and only if it spells `n`: its digits without leading zeros, in any case and after an optional plus sign, are the shortest spelling of `n`, which is below 2^64 |
| `Text.TrimExact` | dpdk-net-test/src/app/custom_http.rs:331-332 | trimming takes off white space at both ends, all of it and nothing else |
| `Text.EqualIgnoreCaseExact` | dpdk-net-test/src/app/custom_http.rs:141-149 | texts are equal ignoring case if and only if they differ at most in the case of ASCII letters |
| `ArpFrame.InjectedFrameParses` | dpdk-net/src/device/arp_cache.rs:149-220 | a built frame, padded or not, parses back to the entry it was built from |
| `ArpFrame.ReplyIff` | dpdk-net/src/device/arp_cache.rs:149-175 | a packet yields an entry if and only if it has at least 42 bytes, ARP's EtherType, operation reply, and the entry as its sender; every other packet yields none |
| `ArpFrame.FrameLayout` | dpdk-net/src/device/arp_cache.rs:191-220 | every field of a built frame, target included, is at its place in the layout of RFC 826 |
| `ArpFrame.BuildArpReply` | dpdk-net/src/device/arp_cache.rs:191-220 | the field-by-field writes produce the ARP reply layout |
| `Device.SharedArpCache.Insert` | dpdk-net/src/device/arp_cache.rs:84-108 | the map is the last-writer-wins fold of all inserts and the version counts them, also for unchanged addresses |
| `ArpProtocol.RunKeeps` | dpdk-net/src/device/arp_cache.rs:84-138 | the protocol invariant holds after every interleaving of one producer and any number of consumers |
| `ArpProtocol.FullSnapshotCovers` | dpdk-net/src/device/dpdk_device.rs:157-200 | the snapshot a consumer last injected in full contains at least the inserts its committed version counts |
| `ArpProtocol.MapIsFold` | dpdk-net/src/device/dpdk_device.rs:134-144 | the map is the last-writer-wins fold of the ARP replies among all packets queue 0 has scanned |
| `ArpProtocol.FoldExact` | dpdk-net/src/device/arp_cache.rs:84-108 | the map has exactly the addresses of the entries, each with the MAC of its last entry |
| `ArpProtocol.RepliesExact` | dpdk-net/src/device/dpdk_device.rs:134-144 | each reply of a batch is published once, with its sender and in order, and no other packet is |
| `ArpProtocol.OthersPublishNothing` | dpdk-net/src/device/dpdk_device.rs:134-144 | nothing is published of a batch of other traffic and ARP requests |
| `ArpProtocol.QuietConsumerIsCurrent` | dpdk-net/src/device/dpdk_device.rs:171-262 | a consumer at the cache's version with the producer idle has injected exactly the current map, unless a multiple of 2^64 inserts went by; what the stack knows after draining the batch is the current map if and only if the lowest frame per address under the pushed ones carries the current MAC |
| `ArpDraining.ReceivesDrain` | dpdk-net/src/device/dpdk_device.rs:248-266 | receiving until the batch is empty leaves the stack with exactly that drained table |
| `ArpDraining.StackEndsStale` | dpdk-net/src/device/dpdk_device.rs:157-262 | a run after which the current version is committed, the batch is drained and the stack holds an old MAC |
| `ArpDraining.CleanBatchAgrees` | dpdk-net/src/device/dpdk_device.rs:183-196 | with only other traffic under the pushed frames nothing can be outdated |
| `Injection.InjectExact` | dpdk-net/src/device/dpdk_device.rs:181-199 | the version is committed if and only if the whole snapshot fits and nothing fails; on the old batch sits one parsable frame per entry that went in, in order; if that is not all, the version is kept and the batch is full or an allocation or copy failed |
| `Injection.StuckForever` | dpdk-net/src/device/dpdk_device.rs:186-196 | 63 waiting packets and two or more entries due: no later receive commits the version or delivers any of the packets |
| `Injection.CommitsOrStarves` | dpdk-net/src/device/dpdk_device.rs:183-262 | a snapshot is committed within two receives if it fits or has at most one entry, and otherwise never |
| `Injection.DrainsNewestFirst` | dpdk-net/src/device/dpdk_device.rs:248-266 | a batch drained without injections reaches the stack in exactly the reverse order of arrival |
| `Injection.OrderKeptIff` | dpdk-net/src/device/dpdk_device.rs:150-156 | arrival order is kept if and only if the batch is its own reverse; for packets that differ, if and only if it holds at most one |
| `ArpInjection.ConsumerInjects` | dpdk-net/src/device/dpdk_device.rs:171-262 | the protocol's pushes, commit or failure and pop, uninterrupted, do to the frames what the pure injection and pop do to the packets, and teach the stack the popped packet's entry |
| `Device.DpdkDevice.InjectFromSharedCache` | dpdk-net/src/device/dpdk_device.rs:157-200 | the loop computes the injection function, with every entry that fits unless an allocation is refused; queue 0, a device without a cache and a version already seen inject nothing |
| `Device.DpdkDevice.InjectRxPacket` | dpdk-net/src/device/dpdk_device.rs:222-235 | the packet is on top of the batch or nothing changed, and a failure means a full batch, a refused allocation or a packet too large |
| `Device.DpdkDevice.PollRx` | dpdk-net/src/device/dpdk_device.rs:125-146 | the transmit batch is offered first, an empty batch is refilled in arrival order, and queue 0 publishes exactly the ARP replies among the new packets; without any, map and version stay as they are |
| `Device.DpdkDevice.FlushTx` | dpdk-net/src/device/dpdk_device.rs:206-210 | up to 64 packets are offered, what was sent leaves from the front, the rest stays in order |
| `Device.DpdkDevice.Receive` | dpdk-net/src/device/dpdk_device.rs:248-266 | the newest packet after refill and injection goes into the token; state, cache and transmit batch are those of the pure functions; queue 0 and a device without a cache hand out the newest received packet and inject nothing |
| `Device.DpdkDevice.Transmit` | dpdk-net/src/device/dpdk_device.rs:268-289 | a full batch, and no other, is offered to the hardware; a token is given exactly when there is space then, and refused only after a burst that took nothing |
| `Device.DpdkDevice.ConsumeTx` | dpdk-net/src/device/dpdk_device.rs:304-330 | lost exactly on a refused allocation, queued with space, panic with a full batch, and no buffer leaks in any case |
| `Device.DpdkDevice.ConsumeRx` | dpdk-net/src/device/dpdk_device.rs:26-34 | the packet's buffer is freed once |
| `Device.ReceiveWhileStuck` | dpdk-net/src/device/dpdk_device.rs:248-266 | the device in the stuck state hands out an ARP frame and stays as it is |
| `Device.Perform` | dpdk-net/src/device/dpdk_device.rs:125-330 | each action adds to the queued, arrived and delivered packets exactly what its outcome says, and every outcome that is a miss comes with a refused allocation, an empty burst or a blocked one |
| `Device.ReceiveThenReply` | dpdk-net/src/device/dpdk_device.rs:248-330 | the reply panics if and only if the flush of a full batch sent nothing, there was a packet, and a buffer was obtained |
| `Device.FillThenReply` | dpdk-net/src/device/dpdk_device.rs:248-330 | a run that fills the batch and replies to a packet panics exactly if its one flush sends nothing |
| `Device.Drive` | dpdk-net/src/device/dpdk_device.rs:125-330 | in every run every buffer is in exactly one place, the packets of the script are queued in order and reach the hardware in that order, all of them if there was no shortage; every packet received or injected is waiting or was delivered once; a run in which every flush of a full batch sends something never panics |
| `Mbufs.Rx` | dpdk-net/src/api/rte/queue.rs:45-72 | received packets follow the old ones in order, within capacity, and no buffer is lost or duplicated |
| `Mbufs.Tx` | dpdk-net/src/api/rte/queue.rs:119-147 | the sent packets are handed over in order and removed, the others stay; no buffer is owned twice |
| `Mbufs.TxOne` | dpdk-net/src/api/rte/queue.rs:155-168 | the packet is gone exactly when the hardware took it |
| `Mbufs.PacketBuffer.CopyFromSlice` | dpdk-net/src/api/rte/mbuf.rs:205-213 | through reset and append the buffer ends up with exactly the data if and only if that fits 16 bits and the room after a reset, and empty otherwise, whatever it held |
| `Mbufs.Nic.Free` | dpdk-net/src/api/rte/mbuf.rs:216-222 | a freed buffer returns to the pool; the precondition, met at every call, rules out a second free |
| `TcpState.ShutdownOnce` | dpdk-net/src/runtime/tokio_compat.rs:158-189 | over every run `poll_shutdown` calls `close` at most once, then at most three state changes follow, a ready poll is final, and dropping no longer aborts |
| `TcpState.CloseIsForGood` | dpdk-net/src/socket/tcp.rs:128-172 | after `close()` the state stays a shut-down one with a rank that never grows, and dropping never aborts |
| `TcpState.PolledStaysShutDown` | dpdk-net/src/runtime/tokio_compat.rs:158-189 | once polled for shutdown a stream is shut down in every later state, whatever happens before and after |
| `TcpState.PollExact` | dpdk-net/src/runtime/tokio_compat.rs:158-189 | a poll calls `close` if and only if the stream is not shut down, leaves it as a close does, and is ready exactly when the state is final |
| `TcpState.DropExact` | dpdk-net/src/socket/tcp.rs:147-172 | a dropped stream is aborted if and only if it is active, becomes an orphan if and only if it is closing, and is removed if and only if it has finished |
| `Sockets.Perform` | dpdk-net/src/socket/tcp.rs:26-391 | every action leaves exactly the slots, owners and orphans that its step function says and keeps the partition |
| `Sockets.Drive` | dpdk-net/src/socket/tcp.rs:26-391 | every run ends in the state that the steps of the script determine; each live slot has exactly one owner among streams, listener pools, orphans and UDP sockets, every owned handle is live, and every pool has max(1, backlog) sockets |
| `Sockets.Reactor.Exclusive` | dpdk-net/src/socket/tcp.rs:147-172 | no handle is inside two objects, whatever slots have been reused |
| `Sockets.Reactor.HandleLive` | dpdk-net/src/socket/tcp.rs:76-94 | every handle an object holds finds a slot of the right kind that is not an orphan |
| `Sockets.Reactor.Connect` | dpdk-net/src/socket/tcp.rs:31-58 | a failed connect adds nothing, a successful one adds one stream on the first free slot, in SYN-SENT, and changes no other slot |
| `Sockets.Reactor.BindWithBacklog` | dpdk-net/src/socket/tcp.rs:209-248 | max(1, backlog) distinct sockets, all listening, on the successive first free slots, no other slot changed; a failing bind leaves no socket behind |
| `Sockets.Reactor.Accept` | dpdk-net/src/socket/tcp.rs:317-391 | the first established socket moves, still established, into a new stream and a fresh listening socket takes its place; every slot in use stays as it is; the error means exactly that the whole pool has finished, waiting exactly that none is established and some has not, and then nothing changes |
| `Sockets.Reactor.DropStream` | dpdk-net/src/socket/tcp.rs:147-172 | removal, orphaning or abort by state, and when a reset that is due is lost |
| `Sockets.Reactor.DropListener` | dpdk-net/src/socket/tcp.rs:288-301 | exactly the pool's slots are freed |
| `Sockets.Reactor.DropUdp` | dpdk-net/src/socket/udp.rs:109-116 | exactly the socket's slot is freed |
| `Sockets.Reactor.PollShutdownStream` | dpdk-net/src/runtime/tokio_compat.rs:158-189 | the poll acts on the owned slot as the pure shutdown step does, and on no other |
| `Sockets.Reactor.CleanupOrphaned` | dpdk-net/src/runtime/reactor.rs:67-81 | the orphans left are the order-preserving filter of the unfinished ones, exactly the finished ones' slots are freed, and the resets still due on those are lost |
| `Sockets.KeptInOrder` | dpdk-net/src/runtime/reactor.rs:67-81 | that filter looks at each orphan by itself, drops exactly the finished ones and keeps the order |
| `Sockets.Reactor.Iterate` | dpdk-net/src/runtime/reactor.rs:198-239 | at most max(1, batch) ingress calls, then one egress and one cleanup; a reset due on an orphan is lost if and only if that egress does not transmit it |
| `Sockets.AbortThenDrop` | dpdk-net/src/socket/tcp.rs:140-157 | abort and drop free the slot at once; the reset is lost exactly when there was a peer to send it to |
| `SocketRuns.DropThenIterate` | dpdk-net/src/runtime/reactor.rs:67-81 | after dropping an active stream and one iteration the slot is free; the reset is lost if and only if there was a peer and the egress did not transmit it |
| `SocketRuns.ListenerRun` | dpdk-net/src/socket/tcp.rs:174-391 | in every run that keeps the listener, the number of its sockets out of LISTEN changes by SYNs, accepts and connections that fall back and by nothing else, some socket is ready if and only if it is below max(1, backlog), and as long as one is no accept fails |
| `SocketRuns.ReadyNeverFails` | dpdk-net/src/socket/tcp.rs:371-388 | an accept never fails while some socket of the pool can take a SYN |
| `SocketRuns.ReadyIffBacklogLeft` | dpdk-net/src/socket/tcp.rs:174-181 | in every run from the bind on some socket is listening if and only if the SYNs are fewer than max(1, backlog), accepts and fallen-back connections together |
| `SocketRuns.BurstExhausts` | dpdk-net/src/socket/tcp.rs:174-181 | a burst of SYNs on a fresh listener leaves a listening socket if and only if it is shorter than the pool |
| `SocketRuns.DeadForGood` | dpdk-net/src/socket/tcp.rs:359-391 | once the whole pool is closed or in TIME-WAIT, every later accept in every run fails until the listener is dropped |
| `SendFuture.TcpSendFuture.PollOnce` | dpdk-net/src/socket/tcp.rs:405-431 | as much as there is space for is enqueued; the enqueued bytes are the first `offset` of the data, completion means that the last byte just went in, failure that the socket cannot send |
| `SendFuture.PollMany` | dpdk-net/src/socket/tcp.rs:401-432 | over any polls the future succeeds if and only if the space up to the end of the connection suffices for non-empty data, fails if and only if it does not and the connection ends, and has enqueued as much as there was space for |
| `Echo.EchoServer.Process` | dpdk-net-test/src/manual/tcp_echo.rs:146-202 | a call does exactly the step of the pure server; what was received on a connection is what was sent back followed by what is pending, and pending data never outlives its connection |
| `Echo.StepEchoes` | dpdk-net-test/src/manual/tcp_echo.rs:151-186 | that step takes in all that `recv` shows and sends back the oldest unsent bytes, as many as there is space for |
| `Echo.StepIdles` | dpdk-net-test/src/manual/tcp_echo.rs:187-199 | without a connection a call forgets what was pending, keeps the count, and listens again with empty buffers exactly on a closed socket |
| `Echo.StepStates` | dpdk-net-test/src/manual/tcp_echo.rs:151-183 | a call on an active socket counts a new connection once and closes exactly in CLOSE-WAIT |
| `Echo.EchoClient.Process` | dpdk-net-test/src/manual/tcp_echo.rs:338-401 | a call does exactly the step of the pure client; the socket has been given the data up to the offset, all that came out is received, and Complete is entered exactly by a waiting client that has everything expected |
| `Echo.ClientStepsTo` | dpdk-net-test/src/manual/tcp_echo.rs:338-401 | where a call takes the client: on a socket that is not open it ends Closed or Complete, and on an open one it goes on exactly when the connection, the data sent or the data received allow it |
| `Echo.ClientMovesData` | dpdk-net-test/src/manual/tcp_echo.rs:351-385 | a call sends all that is accepted while connected and takes all that is shown while waiting, and nothing in other states |
| `Echo.Conservation` | dpdk-net-test/src/manual/tcp_echo.rs:146-202 | in every state of a live connection, closing ones included, received, returning, pending, outgoing and unsent bytes together are the client's data |
| `Echo.StepOk` | dpdk-net-test/src/manual/tcp_echo.rs:146-401 | every action of any party keeps both streams whole and in order |
| `Echo.StrandedStays` | dpdk-net-test/src/manual/tcp_echo.rs:181-183 | once the server has closed, in every later run the client receives a prefix of what was sent back, so all of its data only if nothing was left |
| `Echo.CloseCallDecides` | dpdk-net-test/src/manual/tcp_echo.rs:158-183 | after the call in CLOSE-WAIT a waiting client can get all of its data if and only if everything had arrived, the call was shown all of it and the send buffer had room for it and what was pending |
| `Echo.VerifyIffAllBack` | dpdk-net-test/src/manual/tcp_echo.rs:326-333 | the client's check succeeds exactly when all data has come back |
| `Echo.Drive` | dpdk-net-test/src/manual/tcp_echo.rs:320-401 | every run ends in the state that its steps determine; a client that completed and queued nothing since verifies its echo, and what was received on a connection is what was sent back on it followed by what is pending |
| `Echo.ExchangeCompletes` | dpdk-net-test/src/manual/tcp_echo.rs:338-401 | on a fresh connection, data that fits the send buffers comes back complete within one round |
| `Reta.EthDev.Configure` | dpdk-net/src/api/rte/eth.rs:561-593 | entry i of the table is i modulo the queue count, through groups of 64 |
| `Reta.EthDev.QueryAll` | dpdk-net/src/api/rte/eth.rs:619-653 | reading back through the groups returns the whole table |
| `Reta.Balanced` | dpdk-net/src/api/rte/eth.rs:578-587 | queue q gets R/n entries, plus one exactly when q is below R mod n |
| `Reta.ConfigureAndQuery` | dpdk-net/src/api/rte/eth.rs:557-653 | after configuration and read-back what was read is the device's table and the loads of any two queues differ by at most one |

## Left out

- Memory exhaustion below `isize::MAX`: a vector that the allocator refuses aborts the program; the model lets every such allocation succeed.
- `httparse`, the `http` crate, smoltcp and DPDK internals: parameters and environment relations, with the assumptions listed above.
- Rust's relaxed memory ordering: the version load is Relaxed; the protocol is proved for sequentially consistent interleavings.
- The second read loop of the raw client (tests/dpdk-bench-client/src/raw_client.rs:170-184): the first loop ends only with the declared body complete or undeclared, so it never runs; timeouts, statistics and URL parsing are plumbing.
- Wakers, timers and the liveness of executors: no claim that a poll is ever repeated.
- Neighbour entries that smoltcp expires: the table of the ARP protocol keeps every address it has learned.
- `Mbuf::extend` truncates a length to 16 bits: packets are assumed to fit the buffer, which the device constructor's check on the MTU is for. `prepend`, `adj`, `trim` and null pointers from a burst are not modelled.
- HttpReset.LosesNothingIff: a drop that ends inside a request is left to the head parser, which may skip blank lines or make another request of the remainder; `HttpReset.NothingForgotten` holds for all drops.
- HttpConnection.ForgottenIsNeverSent: one direction only; whether the rest of a partly forgotten request is again a request depends on the head parser.
- HttpFraming.SerializedFrames: a Content-Length set by the handler is taken to be spelled as plain decimal digits, because `to_string` spells it so.
- The statistics counters of the echo pair, `poll_read`, `poll_write` and `TcpRecvFuture`: easy members.
- hyper-based and tokio servers, benchmarks, UDP packet building, configuration builders, device discovery and deployment scripts: configuration and I/O.
