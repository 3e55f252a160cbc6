# Proofs about net.ll's protocol code

net.ll is a small C network library for the Raspberry Pi Pico W (RP2040), the ESP32 and a Linux
simulator. This project models the parts of it that keep state or parse bytes, and proves what they
do over every input, every way the network can slice a stream, and every run of interleaved clients.

| files | component |
|---|---|
| `Dhcp*.dfy` | the access point's DHCP server: option area, lease clock, protocol steps, byte-level server, replies, uninitialised memory, runs, refusals, traffic, lease time |
| `Dns*.dfy` | the access point's DNS responder, and an RFC 1035 decoder that reads its replies |
| `Http*.dfy` | both HTTP servers (Simulator and RP2040): length scan, framers, request line, routes, responses, independence of slicing, agreement, end-to-end round trip, delivery to the download client, and inputs on which these fail |
| `Download.dfy` | the Simulator client that strips a response header and streams the body to a file |
| `Netsh*.dfy` | the Simulator's WiFi scan: a line-driven parser that fills a capped array |
| `Bytes.dfy`, `CText.dfy` | octets and words; C strings and the C library searches over them |

## How the model is laid out

Each component that changes fields or buffers in place is a class or a method over arrays, written
branch by branch as the C code is. Its contract ties it to a pure function of the inputs (`Respond`,
`Serve`, `Run`, `Parse` and so on), and the lemmas prove what the design promises of that function:
decoders that invert it, invariants of whole runs, independence of slicing, agreement of two
implementations.

The environment is explicit:

* A socket is a script of recv results (a chunk, an interruption, a failure; the end of the script or
  an empty chunk is a close) and a script of send results, with a log of the bytes on the wire. A chunk
  larger than the room offered is handed over in pieces.
* Real time is an unbounded number of milliseconds; the DHCP server sees it modulo 2^32. Every packet
  comes with one clock reading per lease slot, because the slot search reads the clock in its loop.
* Uninitialised memory is an input: the stack contents under a received packet, the header buffer of a
  download, the unset `CustomHeader` of a response. Theorems quantify over it or say what they need.
* Machine arithmetic is written out: the 16-bit expiry, the signed 32-bit comparison, the 8-bit slot
  subtraction, size_t of 32 and 64 bits.

## Where the code and its description differ

The model follows the code. The following are proved, not only noted.

* `ContentLengthOf` is handed the whole buffer, not the header block: it scans on past the blank line, into
  whatever body bytes have arrived (`HttpWitnesses.SlicingMatters`). So does the search for the request
  line (`HttpWitnesses.LateLineIsSliced`). Hence the answer can depend on how recv sliced the stream;
  `HttpSegmentation.IndependentIffSettled` says exactly when the framer's verdict does, and
  `HttpIndependence.AlwaysServedAlikeIff` when the server's answer does.
* The NUL that ends the body is written after the endpoint is chosen and before its callback runs, so a path
  that lies behind the body is matched whole and handed over cut (`HttpServer.PathIsCut`).
* The RP2040 server adds header and body length in 32 bits, so an oversized length near 2^32 can pass its
  size check (`HttpWitnesses.HugeGetDiverges`). The Simulator's subtraction cannot wrap.
* An early close is answered by the Simulator (413 without a header, else the request with the bytes it
  has) and silently dropped by the RP2040 server (`HttpAgreement.ServersAgree`).
* The comment on `ReadRequest` speaks of answering 413 when a request cannot fit; 413 is also the answer to a failed
  recv and to a close before the header is complete (`HttpIndependence.TooLargeIff`).
* Setting the default endpoint is refused when the table of ordinary ones is full, and stopping the server
  forgets the ordinary endpoints but not the default one (`HttpRoutes.Registry.SetDefault`,
  `HttpRoutes.Registry.Stop`).
* A client may hold two DHCP slots if it asks for an address it was not last offered
  (`DhcpRuns.TwoSlotsWithoutCompliance`); `DhcpRuns.DistinctRunIffNoSecond` gives the exact condition. An
  all-zero hardware address marks a free slot, so ownership claims exclude it.
* A DNS query that ends before its question does is answered with stack bytes in place of the rest, four of
  them for a bare header (`DnsServer.BareHeaderShowsStack`). Likewise a DHCP packet whose option list runs
  past its end is judged by what the stack held; `DnsServer.JunkIsIrrelevantIff` and
  `DhcpJunk.JunkNeverShowsIff` are the exact conditions.
* A lease that nobody reclaims for 2^31 ms after its deadline reads as running again
  (`DhcpRefusals.RunningInRealTime`).
* The header buffer of a download is 8192 bytes, but a header block longer than 4097 bytes can already cost
  a body byte. The buffer is searched before it holds a NUL, so a header left over in it can be taken for
  the response's own (`Download.StaleBlankLineExample`). `Download.LosslessIffHeaderFits` is the exact
  condition for both.
* The content type is printed as it is, so one with a line break can announce a length of its own
  (`HttpResponse.ForgedResponseAnnouncesFive`); `HttpResponse.LengthRoundTripIff` is the exact condition.
* The custom header is printed without a line end, so one that does not bring its own leaves the response
  without a blank line after its header (`HttpDelivery.CustomLineNeedsItsEnd`). A length without a body is
  announced all the same (`HttpDelivery.AnnouncedIsSentIff`).

## Model

| member | source | states |
|---|---|---|
| DhcpOptions.OptFind | src/lib/Platform/RP2040/dhcpserver.c:146-154 | The option walk over the real buffer returns the same offset as the recursive walk `FindFrom`, in bounds and terminating for arbitrary bytes (including an END-less area, where it reads one byte past the 308). |
| DhcpOptions.OptWriteN | src/lib/Platform/RP2040/dhcpserver.c:156-162 | Writes one code, length, value triple at the cursor, advances past it, and leaves every other byte of the buffer as it was. |
| DhcpOptions.OptWriteU8 | src/lib/Platform/RP2040/dhcpserver.c:164-170 | The same for a one-byte value. |
| DhcpOptions.OptWriteU32 | src/lib/Platform/RP2040/dhcpserver.c:172-181 | The same for a 32-bit value, whose shifted and truncated bytes are its network-order bytes. |
| DhcpOptions.OptionRoundTrip | src/lib/Platform/RP2040/dhcpserver.c:146-181 | For any list of options without code 255 and any sought code: after writing the list and END over arbitrary contents, the search returns the first entry with the code with its exact value bytes, and nothing if and only if no entry carries it. |
| DhcpLeases.ExpiryIsExact | src/lib/Platform/RP2040/dhcpserver.c:229-234 | A lease stamped at t is judged expired at t + d if and only if (d - L - s) mod 2^32 is in [1, 2^31], where L is 86,400,000 and s the rounding of the 16-bit expiry; for every t, however the counter wraps. |
| DhcpLeases.LeaseRunsOneDay | src/lib/Platform/RP2040/dhcpserver.c:271 | Hence never expired during the day, nor up to the rounded-up deadline, and always expired from 86,400,000 + 65,536 ms to 86,400,000 + 2^31 ms. |
| DhcpLeases.SlotNamesAddress | src/lib/Platform/RP2040/dhcpserver.c:252-260 | The prefix comparison, the 8-bit subtraction and the range check accept exactly the eight addresses the server hands out, each for its own slot. |
| DhcpProtocol.DiscoverMeaning | src/lib/Platform/RP2040/dhcpserver.c:215-242 | On every table and clock: the offer is the lowest slot with the MAC, else the lowest free or expired one, else silence; no expiry changes; a MAC is cleared exactly in the lowest free-or-expired slot if that comes before the first match, and nowhere else. |
| DhcpProtocol.RequestMeaning | src/lib/Platform/RP2040/dhcpserver.c:246-272 | A REQUEST is acknowledged exactly when it names a slot that is free or the sender's own, then that slot and no other is stamped; otherwise nothing changes. |
| DhcpProtocol.HolderChangesThroughZero | src/lib/Platform/RP2040/dhcpserver.c:229-235 | In any step, a nonzero holder of a slot can only be replaced by zero, and only by a DISCOVER that judged that slot expired. |
| DhcpServer.Server.constructor | src/lib/Platform/RP2040/dhcpserver.c:314-317 | A server starts from the all-zero lease table. |
| DhcpServer.Server.FindOffer | src/lib/Platform/RP2040/dhcpserver.c:216-241 | The slot search with its in-loop clearing, on the lease array in place, computes the offered slot and the table of the closed form. |
| DhcpServer.Server.Commit | src/lib/Platform/RP2040/dhcpserver.c:261-271 | The in-place grant of a REQUEST changes exactly the slot it should. |
| DhcpServer.Server.BuildReply | src/lib/Platform/RP2040/dhcpserver.c:301-308 | Writing the options over the request's own options yields the first 240 bytes unchanged, then exactly the six options and END. |
| DhcpServer.Server.ReadHostName | src/lib/Platform/RP2040/dhcpserver.c:274-287 | Copies at most 31 bytes of option 12 out of the buffer, or nothing if the option is absent, in bounds for arbitrary option lists. |
| DhcpServer.Server.Process | src/lib/Platform/RP2040/dhcpserver.c:183-312 | One packet through the imperative server changes the lease array, emits bytes and logs a host name exactly as the pure functions `Respond` and `Logged` say, for every packet, stack contents, table and clock; the host name is that of the incoming options, although the reply is built over them. |
| DhcpReply.ReplyDecodes | src/lib/Platform/RP2040/dhcpserver.c:202-308 | Every reply is 274 bytes, echoes xid, flags, giaddr and chaddr, carries the offered (for an ACK: the requested) address, and its options decode with the server's own walk to type, server id, mask, router, DNS and 86400 s, and to nothing else. |
| DhcpReply.RequestUnderstood | src/lib/Platform/RP2040/dhcpserver.c:205-260 | A request whose END-terminated options fit the window is understood as its sender meant it, whatever padding follows and whatever the stack held. |
| DhcpReply.HostNameUnderstood | src/lib/Platform/RP2040/dhcpserver.c:274-287 | The host name kept of such a request is the one its sender gave, cut to 31 bytes. |
| DhcpReply.JunkIsIrrelevant | src/lib/Platform/RP2040/dhcpserver.c:197-308 | For such requests neither the reply, the new lease table nor the logged name depends on uninitialised memory, although the reply is built in the receive buffer. |
| DhcpJunk.JunkNeverShowsIff | src/lib/Platform/RP2040/dhcpserver.c:183-312 | For every packet: the reply, the new lease table and the logged name are the same whatever the stack held, for every server, lease table and clock, if and only if the packet is too short to be looked at, or the walk for the message type and the type were received, and for a REQUEST those for the address, and for an address that some server grants those for the host name. |
| DhcpRuns.LeasesAreExclusive | src/lib/Platform/RP2040/dhcpserver.c:215-272 | Over every run of interleaved clients with nondecreasing time: after an ACK of a nonzero MAC at T no other MAC is acknowledged the same slot up to T + 86,400,000 ms plus the rounding of the expiry. |
| DhcpRuns.ExclusivityIsSharp | src/lib/Platform/RP2040/dhcpserver.c:229-234 | From one millisecond later on, for 2^31 of them, it can be: for each such time there is a three-message run that gives the slot to someone else. |
| DhcpRuns.HeldUntil | src/lib/Platform/RP2040/dhcpserver.c:215-272 | Until that deadline the slot keeps its holder and an expiry stamped at the grant or at a renewal by the holder, through any messages from anyone. |
| DhcpRuns.HeldIsLatestOffer | src/lib/Platform/RP2040/dhcpserver.c:216-271 | In every run in which clients with a nonzero MAC only request the address they were last offered, each slot a MAC holds is its latest offer. |
| DhcpRuns.DistinctIffNoSecond | src/lib/Platform/RP2040/dhcpserver.c:256-271 | On a table whose nonzero holders are distinct, a step keeps them distinct if and only if it is not a REQUEST by a client that already holds a slot for a slot that is free. |
| DhcpRuns.DistinctRunIffNoSecond | src/lib/Platform/RP2040/dhcpserver.c:216-271 | Over every run, no MAC ever holds two slots if and only if no message is such a REQUEST. |
| DhcpRuns.NoMacHoldsTwoSlots | src/lib/Platform/RP2040/dhcpserver.c:216-271 | So no MAC holds two slots if clients only request what they were last offered. |
| DhcpRuns.TwoSlotsWithoutCompliance | src/lib/Platform/RP2040/dhcpserver.c:256-271 | Without that hypothesis it fails: two REQUESTs give one MAC two slots. |
| DhcpRuns.EightClientsAreServed | src/lib/Platform/RP2040/dhcpserver.c:216-240 | With at most eight distinct MACs in a run without such a REQUEST, every DISCOVER gets an offer. |
| DhcpRuns.EightCompliantClientsAreServed | src/lib/Platform/RP2040/dhcpserver.c:216-240 | In particular if clients only request what they were last offered. |
| DhcpRuns.OfferIsHonoured | src/lib/Platform/RP2040/dhcpserver.c:215-296 | After an offer, any DISCOVERs at any times and any REQUESTs by others for other addresses leave the slot free or the client's own, and its REQUEST for the offer is acknowledged with that slot. |
| DhcpRuns.PacketsRefineEvents | src/lib/Platform/RP2040/dhcpserver.c:183-312 | Arbitrary packets drive the lease table exactly as the run of protocol events read from them, so the run theorems hold of real traffic. |
| DhcpRefusals.SlotShowsGrant | src/lib/Platform/RP2040/dhcpserver.c:214-271 | At every point of every run a slot is as free as at the start, or shows the MAC and the stamp of its latest grant, the MAC less if a DISCOVER has reclaimed the slot since. |
| DhcpRefusals.RefusedIff | src/lib/Platform/RP2040/dhcpserver.c:214-242 | In every run with nondecreasing time a DISCOVER gets no offer if and only if the latest grant of each slot went to another client, was not reclaimed, and reads as running at the time the slot is looked at. |
| DhcpRefusals.RunningInRealTime | src/lib/Platform/RP2040/dhcpserver.c:229-234 | It does up to the deadline, does not for 2^31 ms after it, and does again for the 2^31 ms after those, as the 32-bit clock has wrapped on it. |
| DhcpTraffic.ReplyIsOutcome | src/lib/Platform/RP2040/dhcpserver.c:183-312 | Each packet's reply bytes are the answer to what its event came to in that run. |
| DhcpTraffic.GrantIsAck | src/lib/Platform/RP2040/dhcpserver.c:246-308 | Every grant in the run is, on the wire, a reply that a client decodes as an ACK of that slot's address to its own hardware address. |
| DhcpTraffic.AckIsGrant | src/lib/Platform/RP2040/dhcpserver.c:246-308 | Conversely, every such reply is a grant in the run, at the packet's time, of the slot the address names. |
| DhcpTraffic.RequestIsAcknowledged | src/lib/Platform/RP2040/dhcpserver.c:246-308 | A well-formed REQUEST for one of the eight addresses that is free or the sender's own is answered by a reply that decodes as an ACK of that address, after any earlier traffic. |
| DhcpTraffic.AddressesAreExclusive | src/lib/Platform/RP2040/dhcpserver.c:183-312 | At byte level, over any traffic: two ACKs that a client decodes from the replies, for the same address and less than a day apart, carry the same hardware address if the first is nonzero. |
| DhcpLeaseTime.LeaseIsADay | src/lib/Platform/RP2040/dhcpserver.c:266-306 | The lease time a client decodes from any reply, option 51 in network order, is 86400 s. |
| DhcpLeaseTime.LeaseTimeIsKept | src/lib/Platform/RP2040/dhcpserver.c:183-312 | Whatever number n of seconds an ACK carries there, no other hardware address is acknowledged the address in the n * 1000 ms after it. |
| DhcpLeaseTime.LeaseTimeIsSharp | src/lib/Platform/RP2040/dhcpserver.c:183-312 | From at most n * 1000 + 65536 ms after it the address can be acknowledged to another, by traffic of three packets, for each of 2^31 ms. |
| DhcpTraffic.WireOfferIsOffer | src/lib/Platform/RP2040/dhcpserver.c:215-243 | A reply that a client decodes as an OFFER to its hardware address is the offer of the slot its address names, to a DISCOVER of that client. |
| DhcpTraffic.OfferIsWireOffer | src/lib/Platform/RP2040/dhcpserver.c:215-308 | Conversely every offered slot is such a reply. |
| DhcpTraffic.WireOfferIsHonoured | src/lib/Platform/RP2040/dhcpserver.c:215-308 | At byte level: after a client decodes an offer, its REQUEST for that address is answered by a decodable ACK of it, after any traffic in which nobody else asks for the address. |
| DhcpTraffic.WireClientsAreServed | src/lib/Platform/RP2040/dhcpserver.c:216-308 | At byte level: with at most eight clients, none of which asks for a second slot, every DISCOVER is answered by a decodable OFFER. |
| DnsServer.SkipName | src/lib/Platform/RP2040/dnsserver.c:151-170 | The label walk over the buffer stops where the recursive `Walk` does, in bounds and terminating for arbitrary bytes. |
| DnsServer.Server.BuildReply | src/lib/Platform/RP2040/dnsserver.c:182-214 | The in-place answer and header rewrite produce id, new header, question and answer, as one value. |
| DnsServer.Server.Process | src/lib/Platform/RP2040/dnsserver.c:103-218 | One datagram through the imperative responder gives exactly the reply of the pure function `Respond`, all array accesses in bounds for arbitrary datagrams. |
| DnsServer.ReplyFitsBuffer | src/lib/Platform/RP2040/dnsserver.c:173-201 | For arbitrary bytes a reply ends at offset 287 at the latest in the 300-byte buffer, also when the last label runs past the received data. |
| DnsServer.JunkIsIrrelevantIff | src/lib/Platform/RP2040/dnsserver.c:110-214 | For every datagram: the reply is the same whatever the stack held, if and only if there is none or the question it echoes was received whole. |
| DnsServer.BareHeaderShowsStack | src/lib/Platform/RP2040/dnsserver.c:110-214 | It was not for a query that is only a header: the reply echoes four bytes of the stack. |
| DnsMessage.NameRoundTrip | src/lib/Platform/RP2040/dnsserver.c:151-170 | An RFC 1035 name decoder inverts the encoding of every list of labels of 1 to 63 bytes. |
| DnsMessage.WalkStopsAfterName | src/lib/Platform/RP2040/dnsserver.c:154-170 | The server's walk over an encoded name stops right after its terminator. |
| DnsMessage.AnsweredIffNameFits | src/lib/Platform/RP2040/dnsserver.c:173-177 | A standard query is answered if and only if its encoded name takes at most 255 bytes; a longer one always carries the walk past the limit, also when it is cut off by the 300-byte buffer. |
| DnsMessage.OtherMessagesAreIgnored | src/lib/Platform/RP2040/dnsserver.c:111-149 | A cut header, a response, another opcode or no question gets no answer. |
| DnsMessage.LongLabelIsIgnored | src/lib/Platform/RP2040/dnsserver.c:159-166 | Nor does a length byte above 63 after any labels, such as a compression pointer. |
| DnsMessage.QueryIsAnswered | src/lib/Platform/RP2040/dnsserver.c:119-214 | The reply to such a query is byte for byte the query's id, the fixed header, the first question and the answer. |
| DnsMessage.ReplyDecodes | src/lib/Platform/RP2040/dnsserver.c:182-214 | An RFC 1035 message decoder reads from the reply the query's id, flags 0x8480, the first question unchanged, and one answer whose compression pointer resolves to the asked name, of type A, class IN, TTL 60, with the server's address; and nothing else. |
| HttpHeaders.ContentLengthOf | src/lib/Platform/Simulator/HttpServer.c:123-151 | The line scan, blank skipping and digit loop compute `ContentLength`, in size_t arithmetic of either word size. |
| HttpHeaders.NameInAnyCase | src/lib/Platform/Simulator/HttpServer.c:127 | The field name is matched exactly if each of its 15 characters is that of "content-length:" or of "CONTENT-LENGTH:". |
| HttpHeaders.NumberIsValue | src/lib/Platform/Simulator/HttpServer.c:135-138 | A run of digits reads as its decimal value modulo the word size. |
| HttpHeaders.NarrowLength | src/lib/Platform/RP2040/HttpServer.c:154-182 | What the 32-bit scan reads is what the 64-bit scan reads, modulo 2^32, on every text. |
| HttpHeaders.ScanSkipsLines | src/lib/Platform/Simulator/HttpServer.c:126-148 | The scan passes over any run of lines that do not start with the field name. |
| HttpHeaders.ScanReadsField | src/lib/Platform/Simulator/HttpServer.c:127-141 | At a Content-Length line, each letter of the name in either case, spaces and tabs before the number, the scan reads the number written there, or zero where none is. |
| HttpHeaders.LengthIsStable | src/lib/Platform/Simulator/HttpServer.c:123-151 | A header block that contains its own Content-Length line announces the same length whatever bytes are buffered after it. |
| HttpSocket.RecvTakesFromStream | src/lib/Platform/Simulator/HttpServer.c:164-178 | recv takes its bytes off the front of the peer's stream and reports the end as it is. |
| HttpFramer.FillBuffer | src/lib/Platform/Simulator/HttpServer.c:156-200 | The recv loop over the static buffer, with EINTR, close, errors and the capacity check, stops as the pure `Loop` over the script says. |
| HttpFramer.ReadRequest | src/lib/Platform/Simulator/HttpServer.c:156-210 | The in-place framer returns the header end, body length and buffer contents of `ReadAll`, for every recv script. |
| HttpSegmentation.SlicingDoesNotMatter | src/lib/Platform/Simulator/HttpServer.c:156-210 | On a stream whose length is settled, the verdict, header end and body bytes are read off the concatenated stream, however recv slices it and wherever EINTR falls. |
| HttpSegmentation.LoopEnds | src/lib/Platform/Simulator/HttpServer.c:163-209 | For every recv script with a header: the loop ends as the stream, its ending and the length seen by one of its prefixes say (too large, complete, cut short, failed). |
| HttpSegmentation.SliceEnds | src/lib/Platform/Simulator/HttpServer.c:163-209 | Any prefix that holds the header can be the one. |
| HttpSegmentation.IndependentIffSettled | src/lib/Platform/Simulator/HttpServer.c:123-210 | All slicings of a stream give the framer the same verdict, header end and body if and only if the header block has its own Content-Length line or no bufferable prefix that reaches past it reads as a nonzero length. |
| HttpSegmentation.RequestCompletes | src/lib/Platform/Simulator/HttpServer.c:163-200 | On such a stream that holds a whole request that fits, the loop never stops for want of bytes. |
| HttpIndependence.LaterBytesDoNotMatter | src/lib/Platform/Simulator/HttpServer.c:226-327 | A request line found within the request is found there whatever is buffered after it, and the answer is the same. |
| HttpIndependence.SettledIsServed | src/lib/Platform/Simulator/HttpServer.c:156-327 | On a settled stream whose request line is in the request, or nowhere in what can be buffered, the answer is that of the request alone, whatever the slicing. |
| HttpIndependence.ServedAlikeIffSettled | src/lib/Platform/Simulator/HttpServer.c:156-327 | On a stream whose length is settled, for any endpoints: all slicings get the same answer if and only if the request does not fit, is not all there, holds its request line, or no request line shows in what can be buffered. |
| HttpIndependence.AlwaysServedAlikeIff | src/lib/Platform/Simulator/HttpServer.c:123-327 | For every stream: all slicings get the same answer, whatever the endpoints, if and only if length and request line are settled so, or every slicing is a 400. |
| HttpIndependence.TooLargeIff | src/lib/Platform/Simulator/HttpServer.c:156-210 | On a settled stream the answer is 413 exactly without a header, when the announced body does not fit, or when recv fails before all of it is there. |
| HttpRequestLine.ParseRequestLine | src/lib/Platform/Simulator/HttpServer.c:228-255 | The in-place split writes NULs at the separators of `SplitLine` and nowhere else, returns the offsets after them, and on failure leaves the buffer as described, the method possibly already cut off. |
| HttpRequestLine.SplitThenJoin | src/lib/Platform/Simulator/HttpServer.c:229-254 | On success the original buffer is method, space, path, optional ? and query, one of space, CR or LF, and the untouched rest; the tokens contain no delimiter. |
| HttpRequestLine.JoinThenSplit | src/lib/Platform/Simulator/HttpServer.c:229-254 | Conversely, any delimiter-free triple, printed with any delimiter and any rest, splits into itself. |
| HttpRequestLine.PunchElsewhere | src/lib/Platform/Simulator/HttpServer.c:235-247 | Nothing but the two or three separators changes. |
| HttpRequestLine.SplitReadsBack | src/lib/Platform/Simulator/HttpServer.c:235-253 | The C strings at the returned pointers are exactly those tokens. |
| HttpRoutes.Registry.Register | src/lib/Platform/Simulator/HttpServer.c:386-397 | Appends an endpoint, or refuses it for a missing path or callback or a full table of eight. |
| HttpRoutes.Registry.SetDefault | src/lib/Platform/Simulator/HttpServer.c:373-384 | Replaces the default endpoint, under the same conditions, without touching the others. |
| HttpRoutes.Registry.Stop | src/lib/Platform/Simulator/HttpServer.c:427-434 | Forgets the endpoints and keeps the default one. |
| HttpRoutes.Registry.MatchRoute | src/lib/Platform/Simulator/HttpServer.c:257-273 | Returns what `Select` says of the table, and whether the path exists at all. |
| HttpRoutes.SelectMeaning | src/lib/Platform/Simulator/HttpServer.c:257-273 | That is the endpoint with the lowest index that has the path and the method, else the default one. |
| HttpRoutes.RegistrationIsStable | src/lib/Platform/Simulator/HttpServer.c:257-273 | One more registration only answers requests that no earlier endpoint answers. |
| HttpResponse.WriteAll | src/lib/Platform/Simulator/HttpServer.c:64-82 | The send loop puts on the wire and reports what the pure `SendAll` says of the script of send results. |
| HttpResponse.SendAllMeaning | src/lib/Platform/Simulator/HttpServer.c:64-82 | That is as many bytes as the script takes before its first failure, up to all of them. |
| HttpResponse.WriteResponse | src/lib/Platform/Simulator/HttpServer.c:84-112 | The writer appends to the wire exactly the bytes of `Written`; a header of 256 bytes or more is not sent at all. |
| HttpResponse.WireHoldsPrefix | src/lib/Platform/Simulator/HttpServer.c:84-112 | For every script of send results the wire holds a prefix of header then body, and success means all of both, and only that. |
| HttpResponse.LengthRoundTripIff | src/lib/Platform/Simulator/HttpServer.c:88-97 | Fed back to the server's own header scan, the emitted header announces BodyLength, for every response and either word size, if and only if the text above the length line announces no length or that one. |
| HttpResponse.LengthRoundTrip | src/lib/Platform/Simulator/HttpServer.c:88-97 | In particular for every content type without a line break. |
| HttpResponse.ForgedTypeAnnounces | src/lib/Platform/Simulator/HttpServer.c:88-97 | A content type that carries a length line after a line break makes the header announce that length. |
| HttpResponse.ForgedResponseAnnouncesFive | src/lib/Platform/Simulator/HttpServer.c:88-97 | A concrete response of no body that announces five bytes. |
| HttpResponse.HeaderIsFormatted | src/lib/Platform/Simulator/HttpServer.c:86-97 | The header text is, line by line, the version, code and phrase (given for 400, 404, 405, 413 and 500, else OK), type, length, connection and custom header of the response. |
| HttpResponse.WrittenDelivers | src/lib/Platform/Simulator/HttpServer.c:64-112 | For every script of send results the wire holds a prefix of that header and of the first BodyLength bytes of the body, all of both if every send makes progress. |
| HttpDelivery.CodeIsRead | src/lib/Platform/Simulator/HttpServer.c:86-97 | Every header starts with the version and decimal digits that make the code. |
| HttpDelivery.StatusIsRead | src/lib/Platform/Simulator/HttpServer.c:115-121 | A bare status, if the uninitialised custom header holds no text, splits at its first blank line into its phrase, of the length it announces. |
| HttpDelivery.StatusIsShort | src/lib/Platform/Simulator/HttpServer.c:99-101 | Its header always fits the header buffer. |
| HttpDelivery.HeaderEndsOnceIff | src/lib/Platform/Simulator/HttpServer.c:86-97 | For every response: the first blank line of the header text is its last four bytes if and only if the content type with its line end holds none, and the custom header between line ends holds none before its end. |
| HttpDelivery.CustomLineNeedsItsEnd | src/lib/Platform/Simulator/HttpServer.c:86-97 | So a custom header of one line must bring its own CRLF: without it there is no blank line to end the header, with it, or with no custom header, there is. |
| HttpDelivery.SplitFindsBodyIff | src/lib/Platform/Simulator/HttpServer.c:84-112 | A client that splits the bytes of the response at the first blank line gets exactly the first BodyLength bytes of the body if and only if that is so. |
| HttpDelivery.AnnouncedIsSentIff | src/lib/Platform/Simulator/HttpServer.c:84-112 | For a content type without a line break, the length the header announces is the number of body bytes sent, if and only if there is a body or the length is zero. |
| HttpDelivery.ServedIsDownloaded | src/lib/Platform/Simulator/HttpClient.c:241-282 | Server to client, for every script of send and recv results: what the writer sent in full is downloaded as exactly the body if the header ends at its first blank line; if it does not, it is not, as long as the block up to the first blank line fits the header buffer. |
| HttpServer.AnswerMeaning | src/lib/Platform/Simulator/HttpServer.c:257-326 | Read off the endpoint table: the request goes to the first endpoint with its path that is registered for GET if the token is "GET", or for POST if it is "POST"; else to the default one; without either, 405 exactly if some endpoint has the path and 404 exactly if none has. |
| HttpServer.PathIsCut | src/lib/Platform/Simulator/HttpServer.c:275-326 | A path that runs on behind the body is matched whole, and given to the callback up to the NUL that ends the body. |
| HttpServer.StaleBytesDoNotMatter | src/lib/Platform/Simulator/HttpServer.c:226-327 | What an earlier request left in the static buffer behind the final NUL changes nothing. |
| HttpServer.DispatchBuffer | src/lib/Platform/Simulator/HttpServer.c:275-326 | Parsing, routing and cutting out the body in place agree with `Dispatch` on the buffer before: the same status, or the same route with the same method, path, query and body bytes. |
| HttpServer.Server.ServeConnection | src/lib/Platform/Simulator/HttpServer.c:297-327 | One connection, from recv script to wire: the verdict is `Serve` of the script. A callback is given the request and a response of status 200, type text/html and no body; the wire grows by a prefix of the header and body of the response it leaves, by all of both if every send makes progress, and by nothing if the header takes 256 bytes. A bare status is sent likewise, with its phrase as plain text. |
| HttpMessage.HeadAnnounces | src/lib/Platform/Simulator/HttpServer.c:123-151 | A printed header block announces the value of its first Content-Length line, or zero. |
| HttpRoundTrip.StreamIsSettled | src/lib/Platform/Simulator/HttpServer.c:123-210 | Every printed request makes a settled stream; trailing bytes are harmless if it announces its length. |
| HttpRoundTrip.RequestRoundTrip | src/lib/Platform/Simulator/HttpServer.c:156-327 | Any request printed as method, path, optional query, version, NUL-free headers, blank line and body, of at most 2047 bytes, reaches under every slicing the first registered match, else the default route, else 405 or 404, with method, path, query and body bytes intact. |
| HttpRoundTrip.RequestRoundTripRp2040 | src/lib/Platform/RP2040/HttpServer.c:289-383 | The same on the RP2040, for recv scripts without EINTR. |
| HttpWitnesses.SlicingMatters | src/lib/Platform/Simulator/HttpServer.c:123-151 | The conditions are needed: a request without Content-Length followed by bytes that read as a Content-Length line is framed and answered differently under different slicings, because the length scan runs past the blank line. |
| HttpWitnesses.BareGetIsSliced | src/lib/Platform/Simulator/HttpServer.c:123-151 | A concrete stream of that kind. |
| HttpWitnesses.LateLineIsSliced | src/lib/Platform/Simulator/HttpServer.c:228-242 | A concrete stream whose length is settled and which every server, whatever its endpoints, answers by how it is sliced, because the search for the request line runs past the blank line. |
| HttpRp2040.ConnectionContext.CompleteHeaders | src/lib/Platform/RP2040/HttpServer.c:195-206 | Records the header end and the 32-bit length once the blank line has arrived. |
| HttpRp2040.ConnectionContext.ReadRequest | src/lib/Platform/RP2040/HttpServer.c:341-376 | The RP2040's own recv loop ends as the pure `Run` over the script says: dropped, oversized or ready, with the same buffer and lengths. |
| HttpRp2040.ConnectionContext.ServeConnection | src/lib/Platform/RP2040/HttpServer.c:341-383 | One connection from recv script to wire: the same, with nothing sent when it is dropped. |
| HttpRp2040.SendBytes | src/lib/Platform/RP2040/HttpServer.c:86-105 | The chunked send loop agrees with `SendChunks` on result, wire and remaining script. |
| HttpRp2040.SendChunksMeaning | src/lib/Platform/RP2040/HttpServer.c:86-105 | That is as many bytes as the script takes, at most one segment a call, before its first failure or interruption, up to all of them. |
| HttpRp2040.SentPartsHoldPrefix | src/lib/Platform/RP2040/HttpServer.c:107-136 | Here too the wire holds a prefix of header then body, and success means all of both. |
| HttpRp2040.BodyNulInBounds | src/lib/Platform/RP2040/HttpServer.c:309-316 | The NUL after the body stays inside the 2048-byte buffer for every script, also when the length sum wraps. |
| HttpAgreement.LoopsMirror | src/lib/Platform/RP2040/HttpServer.c:341-380 | From any common state the two recv loops end alike: same bytes, header and body, except for early closes and wrapped sums. |
| HttpAgreement.ServersAgree | src/lib/Platform/RP2040/HttpServer.c:289-383 | For every EINTR-free script whose stream has a settled length, the two servers give the same 413, 400, 404, 405 or callback request if and only if: without a header, the stream fills the buffer; with one, an oversized length does not wrap the 32-bit sum and a body that fits is all sent. |
| HttpAgreement.AlwaysAgreeIff | src/lib/Platform/RP2040/HttpServer.c:289-383 | For every stream, settled or not: the servers agree on all its EINTR-free slicings if and only if that holds for every length that a bufferable prefix announces. |
| HttpAgreement.ModestLengthsAgree | src/lib/Platform/RP2040/HttpServer.c:341-383 | In particular they agree on every stream that announces less than 2^31 bytes and holds them if they fit. |
| HttpAgreement.WrapDiverges | src/lib/Platform/RP2040/HttpServer.c:369-376 | A first recv whose length wraps the 32-bit sum is a 413 on the Simulator and never one on the RP2040. |
| HttpWitnesses.HugeLengthDiverges | src/lib/Platform/RP2040/HttpServer.c:369-376 | That happens for every printed head that announces such a length. |
| HttpWitnesses.HugeLengthIsServed | src/lib/Platform/RP2040/HttpServer.c:369-383 | If the sum wraps back into the head, the RP2040 answers the request at once with an empty body. |
| HttpWitnesses.HugeGetDiverges | src/lib/Platform/RP2040/HttpServer.c:369-383 | Concretely a GET for the root that announces 4294967295 bytes, or any of the 36 largest 32-bit lengths. |
| HttpNarrow.RunEnds | src/lib/Platform/RP2040/HttpServer.c:341-380 | For every EINTR-free script with a header the RP2040's loop ends as the stream and the 32-bit length seen by one of its prefixes say. |
| HttpNarrow.SightIsSettledIff | src/lib/Platform/RP2040/HttpServer.c:341-380 | For every stream: all EINTR-free slicings show the RP2040's loop the same header end and body, refusal or silence, if and only if all bufferable prefixes with the header announce the same 32-bit length and nothing bufferable follows a header with which that length wraps around. |
| HttpNarrowAnswers.NarrowIsServed | src/lib/Platform/RP2040/HttpServer.c:289-383 | On a stream whose 32-bit length and answer are settled, the RP2040 gives every EINTR-free slicing the answer read off the stream: 413, silence, or the dispatch of the request alone. |
| HttpNarrowAnswers.AlwaysAnsweredAlikeIff | src/lib/Platform/RP2040/HttpServer.c:289-383 | For every stream: all EINTR-free slicings get the same answer from the RP2040, or the same silence, whatever the endpoints, if and only if there is no header; or the 32-bit length is settled and the request is refused, dropped, holds its request line, shows none, or wraps with nothing bufferable after the header; or every slicing is a 400. |
| Download.Accumulate | src/lib/Platform/Simulator/HttpClient.c:253-256 | Copies what fits into the header buffer in place and drops the rest. |
| Download.ReadResponseToFile | src/lib/Platform/Simulator/HttpClient.c:241-282 | The receive loop opens the file and writes exactly what the pure `Run` says, for every script and stack contents. |
| Download.SearchOverJunk | src/lib/Platform/Simulator/HttpClient.c:172-181 | Whatever the stack held, a header that has been received is found where it is; otherwise only stale bytes after the received ones can complete one. |
| Download.NoLineFeedIsSafe | src/lib/Platform/Simulator/HttpClient.c:172-181 | Stale bytes without a line feed never do. |
| Download.DownloadIsLossless | src/lib/Platform/Simulator/HttpClient.c:241-282 | Whatever the script, the file is exactly the bytes after the first blank line of what arrives before the first close, error or interruption, if the header block takes at most 4097 bytes or all of it at most 8192, and no stale header shows; without a header no file is opened. |
| Download.FailsWithoutFile | src/lib/Platform/Simulator/HttpClient.c:263-267 | If the file cannot be opened the download fails, whatever arrives. |
| Download.LosslessIffHeaderFits | src/lib/Platform/Simulator/HttpClient.c:241-282 | For every response and stack contents: all slicings are lossless if and only if the header block takes at most 4097 bytes or the response at most 8192, and behind no received prefix without a header do the stale bytes show one. |
| Download.StaleHeaderCorrupts | src/lib/Platform/Simulator/HttpClient.c:253-272 | A stale header that shows once k bytes are received makes some slicing write the wrong file. |
| Download.StaleBlankLineCorrupts | src/lib/Platform/Simulator/HttpClient.c:253-272 | So does, for every response that does not start with a NUL, a blank line left over one byte into the buffer. |
| Download.StaleBlankLineExample | src/lib/Platform/Simulator/HttpClient.c:253-272 | A concrete response and buffer of that kind. |
| NetshScan.ValueAfterColon | src/lib/Platform/Simulator/WiFi.c:74-95 | The in-place trimming leaves, at the returned pointer, the text after the first colon without surrounding blanks. |
| NetshScan.ScanState.BeginNetwork | src/lib/Platform/Simulator/WiFi.c:198-203 | Starts a network: at most 32 bytes of the SSID, fallback authentication, no current access point. |
| NetshScan.ScanState.BeginBssid | src/lib/Platform/Simulator/WiFi.c:205-221 | Appends an access point with the octets the scan of its address reads, or zeros if it does not read six, or only detaches the current one when there is no SSID, no room or no value. |
| NetshScan.ScanState.ConsumeLine | src/lib/Platform/Simulator/WiFi.c:223-247 | One line moves the parser's fields and the network array exactly as `Consume` moves the abstract state. |
| NetshScan.ReadLine | src/lib/Platform/Simulator/WiFi.c:256-258 | One fgets puts the next line, through its line feed or as much as fits, and a NUL into the line buffer. |
| NetshScan.ParseNetshOutput | src/lib/Platform/Simulator/WiFi.c:249-270 | The whole loop over the output text fills the caller's array with the networks of `Parse`, and succeeds exactly if the process exits with status zero. |
| NetshOctets.OctetsReadBack | src/lib/Platform/Simulator/WiFi.c:134-145 | An address printed as six pairs of hexadecimal digits, in either case, is read back by the "%x:%x:%x:%x:%x:%x" scan. |
| NetshOctets.ConversionReadsBack | src/lib/Platform/Simulator/WiFi.c:137 | One conversion reads a sign, a prefix and any number of digits as the number they make in 32 bits, and fails without digits. |
| NetshOctets.SpaceIsSkipped | src/lib/Platform/Simulator/WiFi.c:137 | White space before it is skipped. |
| NetshOctets.FewOctetsAreNone | src/lib/Platform/Simulator/WiFi.c:137-140 | Fewer than six octets read as none. |
| NetshOctets.OtherSeparatorIsNone | src/lib/Platform/Simulator/WiFi.c:137-140 | So do octets that anything but a colon separates. |
| NetshKinds.KindIff | src/lib/Platform/Simulator/WiFi.c:97-132 | What each of the five kinds of lines looks like, both ways: blanks, SSID or BSSID, a space, blanks and a digit; or blanks, a label in either language, blanks and a colon. Any other line is none of them. |
| NetshKinds.FurtherTextIsIgnored | src/lib/Platform/Simulator/WiFi.c:223-247 | So a line on which further text follows the name, such as "Channel Utilization:", changes nothing. |
| NetshLines.ValueReadsBack | src/lib/Platform/Simulator/WiFi.c:74-95 | Printed after any colon-free front, between any blanks and line ends, a value is read back exactly, also when it is empty. |
| NetshLines.NoColonNoValue | src/lib/Platform/Simulator/WiFi.c:75-79 | A line has no value exactly if it has no colon. |
| NetshLines.IndexLinesReadBack | src/lib/Platform/Simulator/WiFi.c:114-132 | Printed SSID and BSSID lines with an index are told apart and read back with their values. |
| NetshLines.AuthLineReadsBack | src/lib/Platform/Simulator/WiFi.c:97-112 | A printed authentication line, in either language, is recognised as such and read back with its value. |
| NetshLines.SignalLineReadsBack | src/lib/Platform/Simulator/WiFi.c:97-112 | The same for signal lines. |
| NetshLines.ChannelLineReadsBack | src/lib/Platform/Simulator/WiFi.c:97-112 | The same for channel lines. |
| NetshLines.AuthIsNewest | src/lib/Platform/Simulator/WiFi.c:147-162 | The newest protocol mentioned anywhere in the text decides; a network is open exactly if it mentions neither WPA nor WEP. |
| NetshLines.NumberReadsBack | src/lib/Platform/Simulator/WiFi.c:165 | The conversion to int skips white space and reads a sign and digits as the number they make, whatever follows. |
| NetshLines.MeasuresReadBack | src/lib/Platform/Simulator/WiFi.c:164-174 | For every n an int can hold, a printed percentage n reads as min(n, 100) / 2 - 100, a negative one as -100, a printed channel as itself modulo 2^16. |
| NetshMeaning.ParseMeaning | src/lib/Platform/Simulator/WiFi.c:198-260 | For every sequence of lines and cap, the parser reports exactly the first cap access points the lines describe, each with the SSID, cut to 32 bytes, and the authentication in force at its line and the last signal and channel of its own block. |
| NetshMeaning.CapIsPrefix | src/lib/Platform/Simulator/WiFi.c:205-221 | Parsing with a smaller cap yields exactly the first networks of parsing with a larger one, in every field. |
| NetshRoundTrip.ScanRoundTrip | src/lib/Platform/Simulator/WiFi.c:74-270 | End to end: networks and access points printed in either language, among any other lines, come out of the scan as they were, in order, up to the size of the array: SSID (of which 32 bytes are kept), address, authentication, signal and channel. |

## Left out

- Sockets, lwIP packet buffers and control blocks, TLS, name resolution, `select` and `accept`, and the fs.ll file calls: foreign code, represented by the scripts and the logs above.
- DHCP behaviour the server does not have (NACK, RELEASE, DECLINE, renewal by ciaddr, PAD options): no conformance to RFC 2131 is claimed there.
- Console output, except which host name the DHCP server logs.
- DhcpServer.Server.Process: option lists that run past the received bytes make the code read up to 32 bytes after the message structure; those are arbitrary, and what lies there is not modelled.
- DHCP clock readings are unbounded and monotone only where a theorem asks for it; that the hardware counter equals them modulo 2^32 is an assumption.
- Sending failures of DHCP and DNS replies, which the code ignores.
- HttpServer.Server.ServeConnection: closing the socket, and a callback that keeps pointers or changes the request buffer, are not modelled; a callback is a function from route, request and prepared response to the response it leaves.
- HttpRp2040.ConnectionContext.ServeConnection: the FreeRTOS task that accepts connections, clears the context and restarts after a stop is not modelled.
- HttpRoundTrip.RequestRoundTrip: header lines are nonempty, as a blank line ends the header, and contain no NUL, which ends the C string that the scan sees.
- Download.ReadResponseToFile: the outcome of opening the file is an input, and write errors and the HTTP status are ignored, as the code ignores them; memory after the header buffer, into which the search can run on, is arbitrary but does not change during the download.
- NetshScan.ScanState.ConsumeLine: a signal, channel or octet too large for an int is read as the number it is, where the C conversion is undefined.
- NetshScan.ParseNetshOutput: starting the process, and the message printed when it fails.
- The ESP32 servers and clients: the HTTP server repeats the Simulator's logic, the client wraps a library.
- WiFi drivers, access point and station control, and scan flags on the devices: thin wrappers around vendor SDKs.
- URL splitting and request building in the clients: string concatenation beside the cores above.
