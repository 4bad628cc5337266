# Verified model of a VPN endpoint's protocol core

A Dafny model of the logic at the core of a TrustTunnel endpoint: the incremental framing of datagrams
in HTTP streams, the HTTP/3 stream and wake-up protocol, the QUIC timer cache, the UDP and ICMP
connection tables, the byte relays, ICMP messages and their checksum, the deep-link codec in Rust and
in Python, connection limits, and the source audit's marker scan. `dafny verify dfyconfig.toml` checks
the whole project.

Each component has the same shape. Functions on values specify what one step does. Where the code
updates state in place, a class holds that state and its methods are proved to do what those functions
say. Concurrent parts are state machines whose events may come in any order; the main theorems range
over every run. Where the code does not meet the obvious claim, the model keeps the code's behaviour:
a lemma states exactly when the claim holds, a failing case is given where that condition does not show
one by itself, and for three of them a further lemma shows that a small correction makes it hold always.

What the code leaves to its surroundings is a parameter or an event: the pieces that a socket delivers
and how its stream ends, how much a sink accepts, stream capacities, the clock, which sources an
authenticator accepts, whether a socket can be made, when a future is dropped. Text is held as its
UTF-8 octets. Integers are unbounded; where the width matters (the checksum's accumulator, DER lengths,
chunk sizes, the limiter's counters) it is written out.

| file | component |
|---|---|
| `UdpFraming`, `UdpPackets`, `DatagramSource` | UDP over HTTP: the decoder, its whole-stream meaning, its driver |
| `IcmpFraming` | ICMP over HTTP: fixed-size requests |
| `Http3Streams`, `QuicDeadlines` | stream table and wake-ups; the cached closest deadline |
| `UdpTables`, `IcmpListeners` | connection tables and waiters |
| `IcmpMessages`, `Checksum` | ICMP messages, reply matching, the Internet checksum |
| `ChunkSizes`, `ChunkSizeLines`, `ChunkedRelay`, `ChunkedBodies`, `SimplexPipe` | byte relays |
| `Varint`, `Base64Url`, `DeepLinkTypes`, `TlvPayload`, `UnknownTags`, `DeepLink`, `PythonDeepLink`, `DerSplit` | deep links |
| `ConnectionLimiter`, `MarkerScan` | admission; scanning |
| `Bytes`, `Hex`, `Utf8`, `NetAddress`, `Wrappers` | shared definitions |

Where the code and its documentation differ, the model follows the code:

- The UDP decoder returns the dropped head of a packet as the tail to decode next.
- A timer tick passes the forwarder a key that the forwarder reverses once more.
- The checksum folds the carry once, not until none is left.
- IPv6 extension lengths are taken for octets and are not checked against the packet; one past the end stops the endpoint.
- TLV tags are cut to their low octet, so 0x100 is taken for the version tag.
- A failed capacity query is logged without waking the sink.
- Information messages must be 20 octets long, although their reported length is 8.
- The ICMP deadline is read from the clock before the lock is taken, so registrations can arrive out of order.
- After the last chunk, the relay looks for the closing line end in the buffer once; if it arrives later, the relay waits for trailers or the end of the connection.
- A relay dropped in its last flush reads the end of the stream again when resumed, and closes its sink again.
- A tunnel is counted under the first credentials accepted on it, whatever later requests on it use.
- The Python writer leaves out an empty name, the Rust writer does not.

## Model

| member | source | states |
|---|---|---|
| UdpPackets.SegmentationIndependence | lib/src/http_udp_codec.rs:62-245 | whatever datagrams a client sends within the size limits and however the stream is cut, the decoder emits exactly those datagrams in order, addresses in canonical form, and holds back the last one exactly when its payload is empty, until a further octet arrives |
| UdpPackets.DecodesAcceptableStream | lib/src/http_udp_codec.rs:62-245 | the same for raw packet bodies: every stream of packets that pass the size and UTF-8 tests, from any idle decoder, under every segmentation |
| UdpPackets.ServedExactlyWhenAcceptable | lib/src/http_udp_codec.rs:70-79 | a packet and the acceptable ones behind it are decoded under every segmentation if and only if the packet passes the size and UTF-8 tests |
| UdpPackets.LosesWhatFollows | lib/src/http_udp_codec.rs:74-78 | behind a packet that is dropped, the decoder returns the dropped head as the tail: it emits nothing for all that follows it in the piece |
| UdpPackets.CorrectedDecodesEveryStream | lib/src/http_udp_codec.rs:74-78 | with the tail returned instead, every stream of packets, acceptable or not, is decoded under every segmentation |
| UdpPackets.CorrectedSegmentation | lib/src/http_udp_codec.rs:227-245 | the corrected decoder does to a list of pieces what it does to their concatenation, from every coherent state and on every input |
| UdpPackets.CleanSegmentation | lib/src/http_udp_codec.rs:227-245 | so does the decoder as written, on every input on which it never drops |
| UdpPackets.WithheldComesNext | lib/src/http_udp_codec.rs:171-201 | a datagram with an empty payload at the end of a piece is emitted with the next octet of any kind |
| UdpPackets.StreamWithholds | lib/src/http_udp_codec.rs:171-201 | only the last packet of a stream can be withheld, and is exactly when nothing follows its header and name |
| UdpPackets.DatagramRoundTrip | lib/src/http_udp_codec.rs:104-201 | the body a client writes for a datagram is read back as that datagram with its addresses in canonical form |
| UdpFraming.Step | lib/src/http_udp_codec.rs:62-80 | from every coherent state one turn over any non-empty input keeps the state coherent and makes the termination measure (input left, state rank, octets to drop) smaller |
| UdpFraming.Decoder.DecodeChunkOnce | lib/src/http_udp_codec.rs:62-80 | one turn does what the specification step does, including the branch that drops; no assertion, subtraction or unwrap fails |
| UdpFraming.Decoder.ProcessClientLength | lib/src/http_udp_codec.rs:82-102 | receives the length field across pieces |
| UdpFraming.Decoder.ProcessClientFixedHeader | lib/src/http_udp_codec.rs:104-143 | receives the addresses, applies the size tests and enters the name, the payload or the dropping state |
| UdpFraming.Decoder.ProcessClientAppName | lib/src/http_udp_codec.rs:145-169 | receives the application name and drops the packet when it is not UTF-8 |
| UdpFraming.Decoder.ProcessClientPayload | lib/src/http_udp_codec.rs:171-201 | receives the payload and completes the datagram |
| UdpFraming.Decoder.BufferedRead | lib/src/http_udp_codec.rs:203-222 | gives the next field exactly when buffer and input hold enough octets, and keeps the rest of the input |
| UdpFraming.Decoder.DecodeChunk | lib/src/http_udp_codec.rs:227-245 | terminates on every input and stops at the first datagram that completes, handing back the rest of the piece |
| DatagramSource.DatagramDecoder.Read | lib/src/http_downstream.rs:373-397 | returns the first of the datagrams that the whole rest of the stream holds, and end of stream exactly when there is none |
| DatagramSource.DatagramDecoder.ReadToEnd | lib/src/http_downstream.rs:373-397 | reading on to the end of the stream returns every datagram that its rest holds |
| DatagramSource.ReadStream | lib/src/http_downstream.rs:373-397 | the driver, started on any cut of a client's stream and read to its end, returns exactly the datagrams sent, without a last one whose payload is empty |
| DatagramSource.DatagramDecoder.Decode | lib/src/http_downstream.rs:380-393 | a piece is used up or its tail is queued before the pieces that follow |
| IcmpFraming.Decoder.ReadAll | lib/src/http_icmp_codec.rs:44-110 | the requests read from any pieces are those of the whole stream, and the buffer keeps its incomplete rest |
| IcmpFraming.Decoder.OnMessageChunk | lib/src/http_icmp_codec.rs:89-110 | a message is complete exactly when buffer and chunk hold 23 octets |
| IcmpFraming.RequestRoundTrip | lib/src/http_icmp_codec.rs:44-79 | a request that a client writes is read back |
| NetAddress.GetPutFixedSizeIp | lib/src/net_utils.rs:108-127 | a written address is read back in canonical form: an IPv6 address with twelve leading zero octets becomes IPv4 |
| NetAddress.PutGetFixedSizeIp | lib/src/net_utils.rs:108-127 | a read address is written back as the octets it was read from |
| Http3Streams.NoWakeupIsLost | lib/src/http3_codec.rs:216-250 | on every interleaving whose notification capacity queries succeed, a parked sink is announced in the queue, the waiting set, the event in flight or its channel, or its entry is gone |
| Http3Streams.WakeupStep | lib/src/http3_codec.rs:237-248 | a step loses a wake-up if and only if it answers a writable event for a parked, otherwise unannounced sink whose capacity query fails |
| Http3Streams.FailedQueryLosesWakeup | lib/src/http3_codec.rs:237-248 | a run from the start that reaches such a step |
| Http3Streams.CorrectedStepKeepsWakeups | lib/src/http3_codec.rs:237-248 | with a token sent on a failed query as well, every step keeps every wake-up |
| Http3Streams.CorrectedNoWakeupIsLost | lib/src/http3_codec.rs:237-248 | so no wake-up is lost on any run of the corrected codec, failed queries included |
| Http3Streams.NotifyAllIsEvents | lib/src/http3_codec.rs:216-250 | answering a writable event in one call is answering its streams one by one in the same order |
| Http3Streams.ParkedSinkCanBeReleased | lib/src/quic_multiplexer.rs:917-974 | from every reachable state without a loss, the codec can release a parked sink in a bounded number of its own steps |
| Http3Streams.StreamTable | lib/src/http3_codec.rs:98-130 | over every order of requests, closes, half drops and late messages: each direction is closed at most once, an entry is there exactly while a direction is open, and is gone once both drop messages are handled |
| Http3Streams.ClosedExactlyWhenAsked | lib/src/http3_codec.rs:98-150 | on every run, a half of a stream has been closed if and only if it was asked for: the write half by a handled shutdown for writing or for both, the read half by one for reading or for both or by the end of the request; so the end of the request leaves the write half open for the response |
| Http3Streams.ClosedForAReason | lib/src/http3_codec.rs:98-150 | on every run, a closed half goes back to the drop of that half, the end of the response or, for the read half, the peer's end of the request |
| Http3Streams.ClosedStep | lib/src/http3_codec.rs:98-130 | one event closes a half if and only if it asks for it |
| Http3Streams.TableStep | lib/src/http3_codec.rs:86-197 | every event keeps the table invariant |
| Http3Streams.ShutKeepsTable | lib/src/http3_codec.rs:98-130 | the shutdown handler closes exactly the halves that it is asked for, leaves the others and other streams as they are, and removes an entry with none left open |
| Http3Streams.MessageKeepsTable | lib/src/http3_codec.rs:86-96 | a message for a removed stream changes nothing |
| Http3Streams.Http3Codec.OnRequest | lib/src/http3_codec.rs:155-197 | a request adds an entry with both halves open |
| Http3Streams.Http3Codec.OnStreamShutdown | lib/src/http3_codec.rs:98-130 | does what the specification of a shutdown says (ShutKeepsTable and ClosedExactlyWhenAsked fix which halves that closes); reports an unknown stream |
| Http3Streams.Http3Codec.OnStreamMessage | lib/src/http3_codec.rs:86-96 | dispatches a message to the waiting set or to the shutdown handler |
| Http3Streams.Http3Codec.NotifyWritableStreams | lib/src/http3_codec.rs:216-250 | sends a token to every listed live stream with usable capacity and puts one without back in the waiting set; a failed query does neither |
| Http3Streams.Http3Codec.TakeWritable | lib/src/quic_multiplexer.rs:917-974 | takes exactly the ready streams out of the waiting set |
| Http3Streams.TokenGivenExactly | lib/src/http3_codec.rs:216-250 | a step gives a sink its token if and only if it answers for the stream with a capacity of at least 3, the stream is there and its sink is not dropped; with less the stream waits again |
| Http3Streams.ReportedExactly | lib/src/quic_multiplexer.rs:917-974 | the socket reports exactly the waiting streams that have no known capacity below 3, and keeps the others |
| QuicDeadlines.ClosestNeverLater | lib/src/quic_multiplexer.rs:641-752 | on every run the cached deadline is never later than any stored one, and is the exact minimum after every refresh |
| QuicDeadlines.RemovalExactly | lib/src/quic_multiplexer.rs:735-752 | a removal without refresh leaves the cache exact if and only if it does not take the only connections with the closest deadline |
| QuicDeadlines.QuicMultiplexer.UpdateConnectionDeadline | lib/src/quic_multiplexer.rs:641-649 | stores the deadline and recomputes the exact minimum |
| QuicDeadlines.QuicMultiplexer.ProcessTimeouts | lib/src/quic_multiplexer.rs:651-693 | fires exactly the due timers, restarts or drops them, and ends with the exact minimum |
| QuicDeadlines.QuicMultiplexer.CompleteHandshake | lib/src/quic_multiplexer.rs:339-348 | drops the deadline without refreshing the cache |
| QuicDeadlines.QuicMultiplexer.RemoveClosedConnections | lib/src/quic_multiplexer.rs:735-752 | drops the closed connections and their deadlines without refreshing the cache |
| QuicDeadlines.QuicMultiplexer.RefreshDeadline | lib/src/quic_multiplexer.rs:695-719 | re-reads one timeout and refreshes the cache, or leaves everything for an unknown connection |
| QuicDeadlines.QuicMultiplexer.Earliest | lib/src/quic_multiplexer.rs:641-649 | the minimum of the stored deadlines |
| QuicDeadlines.DeadlineStep | lib/src/quic_multiplexer.rs:641-752 | an update stores now plus the duration; a due timer is restarted or dropped; a timer that is not due, and every other connection's, stays as it is |
| UdpTables.TablesAgree | lib/src/udp_pipe.rs:85-177 | on every run without a timer tick, the pipe table and the forwarder table hold the same keys at every suspension point |
| UdpTables.ClientPacketKeepsAgreement | lib/src/udp_pipe.rs:85-118 | a failed creation changes neither table, a successful packet leaves its connection in both |
| UdpTables.StepKeepsAgreement | lib/src/udp_pipe.rs:122-177 | packets, replies, DNS completion and socket errors with their reports keep the agreement |
| UdpTables.TickKeepsAgreementExactly | lib/src/udp_pipe.rs:253-271 | a tick keeps the agreement if and only if the expired keys are closed under reversal |
| UdpTables.TickBreaksAgreement | lib/src/udp_pipe.rs:253-271 | a packet and a tick, from empty tables, that end in disagreement, for every connection that is not its own reversal |
| UdpTables.StaleStaysExactly | lib/src/udp_forwarder.rs:86-97 | a connection that only the forwarder holds stays so through an event if and only if its socket does not fail and its reversal does not expire |
| UdpTables.StaleEntryBlocksClient | lib/src/udp_forwarder.rs:172-200 | on every run that does not clear it, such a connection stays and every packet for it fails and changes nothing |
| UdpTables.CorrectedTablesAgree | lib/src/udp_pipe.rs:265-268 | with the reversed key passed on, the tables agree on every run, ticks included |
| UdpTables.CorrectedTickKeepsAgreement | lib/src/udp_pipe.rs:265-268 | a tick that passes the reversed key keeps the agreement from every state |
| UdpTables.TableIsHistory | lib/src/udp_pipe.rs:85-200 | on every run, ticks included: an entry of the pipe table is there exactly while its connection lives, its activity is the time of the last packet either way, and the count of a DNS connection is its client packets minus its replies since it was made; it leaves with the reply that makes these equal |
| UdpTables.TablesFollowEvents | lib/src/udp_pipe.rs:85-200 | without a tick, or with the corrected one, this history and both tables follow from the events alone |
| UdpTables.RecordsStep | lib/src/udp_pipe.rs:180-200 | each event changes an entry as it changes the history |
| UdpTables.UdpTunnel.OnNewUdpConnection | lib/src/udp_forwarder.rs:172-200 | adds a connection unless it exists or cannot be made |
| UdpTables.UdpTunnel.OnConnectionClosed | lib/src/udp_forwarder.rs:202-207 | removes the connection under the reversed key |
| UdpTables.UdpTunnel.LeftOnUdpPacket | lib/src/udp_pipe.rs:85-118 | finds or creates the connection for a client packet and counts it (TableIsHistory fixes the count) |
| UdpTables.UdpTunnel.SinkWrite | lib/src/udp_forwarder.rs:240-255 | a write to an unknown connection, or one whose socket fails, is an error |
| UdpTables.UdpTunnel.SinkWake | lib/src/udp_forwarder.rs:257-273 | a connection that is still there wakes the reader with its first write only; it fails only when the reader is gone |
| UdpTables.UdpTunnel.RightOnDatagram | lib/src/udp_pipe.rs:122-177 | counts a reply and closes a DNS connection with its last one (TableIsHistory fixes the count) |
| UdpTables.UdpTunnel.OnSocketError | lib/src/udp_forwarder.rs:86-97 | drops the connection and records its closure |
| UdpTables.UdpTunnel.RightOnClose | lib/src/udp_forwarder.rs:215-233 | reports a recorded closure, and the pipe forgets the connection |
| UdpTables.UdpTunnel.OnTimerTick | lib/src/udp_pipe.rs:253-271 | drops exactly the expired connections from the pipe table and passes each key on as it is |
| IcmpListeners.Listeners.Register | lib/src/icmp_forwarder.rs:417-443 | keeps waiter keys pairwise unequal under the prefix equality and every key in some deadline list; asks for a wake-up exactly when the index was empty |
| IcmpListeners.Listeners.Dispatch | lib/src/icmp_forwarder.rs:182-209 | a reply finds a waiter exactly when some key equals it, and takes it out when its queue is gone |
| IcmpListeners.Listeners.Maintain | lib/src/icmp_forwarder.rs:244-281 | afterwards the index holds exactly the deadlines later than now, every waiter has one of them, and whatever was removed was due |
| IcmpListeners.Listeners.ExpireList | lib/src/icmp_forwarder.rs:258-275 | no key of an expired list is left among the waiters, and whatever is removed equals a request of the list |
| IcmpListeners.GuardedStep | lib/src/icmp_forwarder.rs:244-281 | a step leaves a non-empty index without a lookup ahead, a sleep that ends in time or, while a notification is waited for, a permit, if and only if it inserts a deadline earlier than the one slept on |
| IcmpListeners.PermittedStep | lib/src/icmp_forwarder.rs:244-281 | with a permit counted in every phase: if and only if, in addition, there is no permit |
| IcmpListeners.DeadlinesGuarded | lib/src/icmp_forwarder.rs:417-443 | when registrations arrive in deadline order, every non-empty index is guarded on every run |
| IcmpListeners.OvertakenDeadlineIsUnguarded | lib/src/icmp_forwarder.rs:417-424 | a run in which two senders read the clock in one order and register in the other, at the end of which there is neither a sleep in time nor a permit |
| IcmpListeners.EchoEqBasics | lib/src/icmp_utils.rs:126-147 | the equality of waiter keys is reflexive and symmetric, and equal keys hash alike |
| IcmpListeners.EchoEqNotTransitive | lib/src/icmp_utils.rs:126-147 | it is not transitive |
| IcmpListeners.EchoEqCarriesExactly | lib/src/icmp_utils.rs:136-147 | two echoes equal to a third are equal if and only if their data agree beyond its length too |
| IcmpMessages.EchoReplyMatches | lib/src/icmp_utils.rs:409-528 | every echo reply with a request's identifier, sequence number and data, over IPv4 or IPv6, yields an echo equal to the request with the same hash key |
| IcmpMessages.Error4Matches | lib/src/icmp_utils.rs:409-528 | so does every accepted IPv4 error that quotes an IP header of any length and at least 8 octets of the request |
| IcmpMessages.Error6Matches | lib/src/icmp_utils.rs:762-851 | so does every accepted IPv6 error that quotes the fixed header and at least 8 octets of the request |
| IcmpMessages.ErrorMatchesOnlyItsRequest | lib/src/icmp_utils.rs:409-436 | such an IPv4 error matches no request with another identifier or sequence number |
| IcmpMessages.Error6MatchesOnlyItsRequest | lib/src/icmp_utils.rs:762-788 | nor does such an IPv6 error |
| IcmpMessages.Answers4Exactly | lib/src/icmp_utils.rs:409-436 | for every packet and request: it answers the request if and only if it is an echo reply, or an accepted error that quotes an IPv4 packet of protocol 1 with an echo request, whose octets carry the identifier and the sequence number and agree with the data as far as both go |
| IcmpMessages.Answers6Exactly | lib/src/icmp_utils.rs:762-788 | the same for ICMPv6, behind any chain of extension headers of the lengths that the walk takes |
| IcmpMessages.ReadExactly | lib/src/icmp_utils.rs:445-528 | which types, codes and lengths are read at all |
| IcmpMessages.SentEchoRoundTrip | lib/src/icmp_utils.rs:150-165 | a serialised request deserialises to itself with code 0 |
| IcmpMessages.SerializeEcho | lib/src/icmp_utils.rs:150-165 | fills the checksum in over the packet with a zero checksum |
| IcmpMessages.SentEchoVerifiesExactly | lib/src/icmp_utils.rs:150-165 | a receiver's check of a sent request passes if and only if its sum needs one fold |
| IcmpMessages.Length4Exactly | lib/src/icmp_utils.rs:391-407 | the length a message claims is that of its packet if and only if the packet is not of type 15 or 16 |
| IcmpMessages.SkipIpv6Header | lib/src/net_utils.rs:443-476 | walks the extension headers with their length field taken for octets; short packets are malformed, and a length past the end stops the endpoint |
| IcmpMessages.SingleExtensionExactly | lib/src/net_utils.rs:452-463 | with one extension header the walk agrees with section 4 of RFC 8200 if and only if it is not an options header of at least two octets |
| IcmpMessages.CrashExactly | lib/src/net_utils.rs:452-470 | for every packet, the walk stops the endpoint if and only if it comes, behind complete headers, to an options header whose length field points past the end |
| IcmpMessages.SingleCrashExactly | lib/src/net_utils.rs:452-463 | with one extension header: if and only if that one does |
| IcmpMessages.FragmentsNeverCrash | lib/src/net_utils.rs:464-470 | without options headers it never does |
| IcmpMessages.ErrorStopsExactly | lib/src/icmp_utils.rs:762-788 | an accepted IPv6 error stops the endpoint if and only if the packet it quotes has such a header |
| IcmpMessages.ShortHeaderStops | lib/src/net_utils.rs:459-460 | an error that does |
| IcmpMessages.FragmentsAgree | lib/src/net_utils.rs:464-470 | without options headers both walks agree on every packet |
| Checksum.Rfc1071Checksum | lib/src/net_utils.rs:480-490 | returns the once-folded complement of the word sum, odd lengths included, without overflow for messages up to the length bound |
| Checksum.OneFoldExactly | lib/src/net_utils.rs:480-490 | it is the checksum of section 1 of RFC 1071 if and only if low and high half of the sum fit 16 bits |
| Checksum.FilledPacketVerifiesExactly | lib/src/net_utils.rs:480-490 | a packet with the checksum filled in sums to 0xFFFF under the same condition, and only then |
| Checksum.OneFoldCanFail | lib/src/net_utils.rs:489-489 | a message on which a second carry is lost |
| ChunkedRelay.ChunkRelay.Run | lib/src/reverse_proxy.rs:254-377 | what the client gets and how the relay ends is a function of the stream, of how it ends and of the octets at hand where it stops, if and only if the sink serves the writes that takes; otherwise the sink has failed, is not closed, and has got exactly what it could accept |
| ChunkedBodies.BodyDelivered | lib/src/reverse_proxy.rs:254-377 | however the pieces are cut, a chunked body with its terminator and the end of the stream is delivered whole and closed once, with a Content-Length equal to the total exactly when the total is at most 2 MiB |
| ChunkedBodies.RelayBody | lib/src/reverse_proxy.rs:254-377 | the relay object, started on such a stream, delivers exactly that if and only if the sink serves the writes of the body; an attempt per octet is enough, and up to 2 MiB so is a sum of acceptances that reaches the length; a failed sink has got the leading part it accepted and no end of stream |
| ChunkedBodies.SinksThatSuffice | lib/src/reverse_proxy.rs:432-441 | which sinks serve the writes of a body |
| ChunkedBodies.SumIsNotEnough | lib/src/reverse_proxy.rs:432-441 | beyond 2 MiB a sum that reaches the length is not enough: what an attempt could take beyond its write is lost |
| ChunkedBodies.OpenConnectionExactly | lib/src/reverse_proxy.rs:317-332 | on a connection that stays open, the relay completes if and only if no piece ends just before the final line end or inside it; otherwise it waits |
| ChunkedBodies.LateLineEndWaits | lib/src/reverse_proxy.rs:317-332 | every body whose final line end comes as a piece of its own makes the relay wait |
| ChunkedBodies.AheadIsToTheNextCut | lib/src/reverse_proxy.rs:255-268 | pieces are read only as they are needed: what is at hand reaches to the next piece boundary |
| ChunkedRelay.ChunkRelay.WriteAll | lib/src/reverse_proxy.rs:432-441 | offers data until all is accepted; fails if and only if the acceptances run out first, with exactly their sum accepted |
| ChunkedRelay.ChunkRelay.ReadLine | lib/src/reverse_proxy.rs:299-308 | finds the first line end of the whole remaining stream, reading no more pieces than needed |
| ChunkedRelay.ChunkRelay.SkipTrailers | lib/src/reverse_proxy.rs:317-332 | succeeds if and only if a line end is at hand, a blank line follows, or the stream ends |
| ChunkedRelay.ChunkRelay.Send | lib/src/reverse_proxy.rs:358-376 | buffers up to the limit, then streams without a length; fails only with a failed sink |
| ChunkedRelay.ChunkRelay.Close | lib/src/reverse_proxy.rs:333-347 | announces the length if nothing was sent, and closes; fails only with a failed sink |
| ChunkSizes.SizeRoundTrip | lib/src/reverse_proxy.rs:310-316 | a size in lower-case hexadecimal without leading zeros, with or without a chunk extension, is read back |
| ChunkSizeLines.SizeExactly | lib/src/reverse_proxy.rs:310-316 | for every line: it announces n if and only if it is white space, a plus sign or none, hexadecimal digits in either case with the positional value n below 2^64, white space, and nothing or a UTF-8 extension behind a semicolon; white space is what the Unicode Standard lists |
| ChunkSizeLines.SizeIsPositional | lib/src/reverse_proxy.rs:310-316 | such a line announces the positional value of its digits, and none when that does not fit 64 bits |
| Hex.HexDigitExactly | lib/src/reverse_proxy.rs:315-315 | a digit has the value of its place among 0-9 a-f, in either case |
| Utf8.Utf8Exactly | lib/src/http_udp_codec.rs:152-156 | octets are taken for UTF-8 if and only if they are the encoding, given by division and remainder, of some list of Unicode scalar values |
| ChunkedBodies.HexLine | lib/src/reverse_proxy.rs:310-316 | the hexadecimal form of a size is a size line, so the bodies above exist for every list of chunks |
| SimplexPipe.RelayConserves | lib/src/pipe.rs:143-214 | over any partial writes and any timed-out and resumed exchanges: accepted octets followed by the pending chunk are the octets read, consumed equals metered equals accepted, and a finished relay has delivered everything |
| SimplexPipe.StepKeepsExactly | lib/src/pipe.rs:180-204 | a turn conserves the octets if and only if neither write nor consume fails with octets in hand; accepted is always a leading part of what was read |
| SimplexPipe.ExchangeConserves | lib/src/pipe.rs:143-214 | the same for a whole exchange; the sink is closed only with nothing pending |
| SimplexPipe.ClosedOnceExactly | lib/src/pipe.rs:143-214 | over every series of resumed exchanges the sink is closed at most once if and only if no exchange is dropped in its last flush and a later one closes it too |
| SimplexPipe.ExchangeCloses | lib/src/pipe.rs:195-212 | an exchange closes the sink at most once, and then finishes, times out or fails as its last flush does |
| SimplexPipe.UndroppedClosesOnce | lib/src/pipe.rs:205-212 | so it is closed at most once when no last flush is dropped |
| SimplexPipe.DroppedFlushClosesTwice | lib/src/pipe.rs:205-212 | an exchange dropped in its last flush and resumed closes the sink a second time |
| SimplexPipe.Relay.Exchange | lib/src/pipe.rs:143-214 | does turn by turn what the specification of an exchange says |
| SimplexPipe.Relay.Forward | lib/src/pipe.rs:180-204 | writes a chunk, meters and consumes what was accepted, and keeps the rest pending (TakesTheFirstOctets fixes how much that is) |
| SimplexPipe.TakesTheFirstOctets | lib/src/pipe.rs:182-192 | a write that accepts n octets adds exactly the first min(n, size) octets of the chunk to what the sink has, meters them, and, if they can be consumed, keeps exactly the rest |
| SimplexPipe.ObligingExchangeFinishes | lib/src/pipe.rs:143-214 | every exchange in which each write takes at least one octet, the source gives its chunks and ends, and the last flush succeeds, finishes with everything delivered, a pending chunk first |
| SimplexPipe.RelayMakesProgress | lib/src/pipe.rs:143-214 | such an exchange takes at most one turn for each octet, or empty chunk, and one to close |
| DeepLink.RoundTripExactly | deeplink/src/encode.rs:48-113 | for every configuration that can be encoded, decoding the payload gives it back if and only if its client random prefix is absent, or valid and not empty |
| DeepLink.LinkRoundTripExactly | deeplink/src/encode.rs:121-125 | the same for whole links |
| DeepLink.DecodedEncoding | deeplink/src/decode.rs:109-228 | what decoding gives otherwise: an empty prefix becomes absent, an invalid one is an error |
| DeepLink.LinkText | deeplink/src/decode.rs:236-255 | a link is read with the question mark and, as older ones, without it |
| DeepLink.HexIsValid | deeplink/src/decode.rs:176-193 | hexadecimal octets are valid prefixes, alone or with a mask |
| DeepLink.ValidPrefixExactly | deeplink/src/decode.rs:176-193 | a prefix is accepted if and only if it is an even number of hexadecimal digits, or two such texts around a slash |
| DeepLink.TextsRoundTrip | deeplink/src/decode.rs:7-24 | a text array is read back from its encoding |
| DeepLink.EncodeTlvPayload | deeplink/src/encode.rs:48-113 | writes exactly the entries of the configuration in order, or fails with the first error |
| DeepLink.EncodeStringArray | deeplink/src/encode.rs:32-40 | writes each text behind its length, or fails with the first error |
| TlvPayload.DecodeTlvPayload | deeplink/src/decode.rs:109-228 | reads the payload entry by entry as the specification does, errors in the same order |
| TlvPayload.DecodeStringArray | deeplink/src/decode.rs:7-24 | reads texts until the data ends, or fails at the first bad one |
| TlvPayload.TlvParser.NextField | deeplink/src/decode.rs:68-105 | returns the entry at the offset, the end, or the error; a tag is cut to its low octet |
| TlvPayload.OrderInsensitive | deeplink/src/decode.rs:126-228 | in any payload of well-formed entries, in whatever forms of their integers, swapping neighbours whose tags differ in the low octet changes neither success nor the configuration |
| TlvPayload.UnknownIgnored | deeplink/src/decode.rs:126-135 | inserting an entry whose tag has a low octet above 0x0D changes nothing at all |
| TlvPayload.ParsedExactly | deeplink/src/decode.rs:126-228 | which values each field takes |
| TlvPayload.EntrySets | deeplink/src/decode.rs:126-228 | what an entry makes of its field and that it leaves the others: addresses are collected, of the other fields the last entry counts |
| UnknownTags.IgnoredExactly | deeplink/src/decode.rs:126-146 | an entry can be put anywhere in any payload without a difference if and only if its low octet is above 0x0D, or is 0 with a version of at most 1 in its value |
| UnknownTags.Tag256IsTakenForVersion | deeplink/src/decode.rs:80-80 | the unknown tag 0x100 with the value 2 makes every payload fail as an unsupported version, and one that is read without it |
| TlvPayload.DecodedIsFold | deeplink/src/decode.rs:109-228 | decoding a payload is folding the effects of its entries |
| DeepLinkTypes.TagCodes | deeplink/src/types.rs:30-48 | exactly the codes up to 0x0D are tags |
| DeepLinkTypes.TagIsPlace | deeplink/src/types.rs:30-48 | each tag has the code of its place in the list of fields |
| DeepLinkTypes.MissingExactly | deeplink/src/types.rs:131-145 | which required field is reported as missing: the first that is empty, and none exactly when all are there |
| Varint.VarintRoundTrip | deeplink/src/varint.rs:13-96 | every integer up to 2^62-1 is read back from its encoding |
| Varint.EncodingIsShortest | deeplink/src/varint.rs:13-25 | no form of an integer is shorter than its encoding |
| Varint.FormAnywhere | deeplink/src/varint.rs:30-96 | a form is read wherever it stands in the data |
| Varint.FormExactly | deeplink/src/varint.rs:30-96 | octets are a form of an integer if and only if they are 1, 2, 4 or 8, big-endian, with the mark 0, 1, 2 or 3 in the two highest bits and the integer in the others |
| Base64Url.DecodeEncode | deeplink/src/encode.rs:43-45 | base64url text is decoded to the octets it encodes |
| Base64Url.EncodeDecode | deeplink/src/decode.rs:248-251 | a text that decodes is the encoding of what it decodes to: no padding, no spare bits, no single left-over character |
| Base64Url.SymbolIsPlace | deeplink/src/encode.rs:43-45 | each value has the character of its place in the base64url alphabet |
| Base64Url.SplitIsPositional | deeplink/src/encode.rs:43-45 | three octets and their four values are the same 24 bits, the most significant first; what is missing of a last group is zero |
| PythonDeepLink.SamePayloadExactly | scripts/config_to_deeplink.py:111-172 | for every valid configuration that a settings file expresses, both writers succeed or neither does, and they write the same payload if and only if the name is not an empty text |
| PythonDeepLink.EncodeConfig | scripts/config_to_deeplink.py:111-172 | writes the entries of the settings in order, or raises what comes first |
| PythonDeepLink.EncodeStringArray | scripts/config_to_deeplink.py:101-108 | writes each text behind its length |
| DerSplit.SplitBothWays | deeplink/src/cert.rs:61-89 | a successful split concatenates back to the input in non-empty SEQUENCE parts, and splitting the concatenation of any SEQUENCE blobs with up to 8 length octets returns those blobs |
| DerSplit.SplitInverts | deeplink/src/cert.rs:61-89 | the inverse, from any offset |
| DerSplit.SplitConcatenates | deeplink/src/cert.rs:61-89 | the concatenation, from any offset |
| DerSplit.HeaderRead | deeplink/src/cert.rs:30-58 | a definite length of any number of octets is read modulo 2^64 |
| DerSplit.LengthExactly | deeplink/src/cert.rs:30-58 | a length is read at an offset if and only if a definite header stands there; the indefinite form is refused |
| DerSplit.EndExactly | deeplink/src/cert.rs:61-89 | a certificate is found to end somewhere if and only if a SEQUENCE whose header says so stands there and lies within the data |
| DerSplit.NinthOctetIsLost | deeplink/src/cert.rs:53-56 | a ninth length octet is shifted out of the word |
| DerSplit.ReadAsn1Length | deeplink/src/cert.rs:30-58 | reads the short and the long form, or the error |
| DerSplit.SplitDerCerts | deeplink/src/cert.rs:61-89 | splits certificate by certificate, or fails at the first bad one |
| ConnectionLimiter.LimitsHold | lib/src/connection_limiter.rs:74-120 | over every interleaving of tunnels, requests and drops: each counter is the number of live guards of its credentials and family and within the limit in force, and with an authenticator and a limiter every task that passes authentication was spawned by a tunnel holding its guard |
| ConnectionLimiter.SlotGivenExactly | lib/src/connection_limiter.rs:74-103 | over every run, a slot is given if and only if the client is known and its live guards are below its own limit or, where it has none, below the default, if there is one |
| ConnectionLimiter.ReleaseKeepsExact | lib/src/connection_limiter.rs:105-119 | a release belongs to a counted guard: the counter is not zero, so nothing saturates |
| ConnectionLimiter.AcquireCountsExactly | lib/src/connection_limiter.rs:74-103 | a slot is counted as one more if and only if the 32-bit counter does not wrap, and with a limit it never does |
| ConnectionLimiter.ReleaseUndoesAcquire | lib/src/connection_limiter.rs:74-120 | giving a slot back restores the limiter |
| ConnectionLimiter.StepKeepsGuarded | lib/src/tunnel.rs:147-242 | every event keeps the guards of authenticated tunnels and of passing tasks |
| ConnectionLimiter.CountedUnderOwnExactly | lib/src/tunnel.rs:147-242 | over every run, a task that passes is counted under the first credentials accepted on its tunnel: under its own if and only if they are the same, and always when it passes by the server name |
| ConnectionLimiter.FirstStays | lib/src/tunnel.rs:147-187 | the first accepted source is that of the first accepted request, and stays for as long as the tunnel does |
| ConnectionLimiter.GuardIsOfTheFirst | lib/src/tunnel.rs:147-187 | a run in which a later request passes with other credentials than its tunnel is counted under |
| ConnectionLimiter.LimiterState.TryAcquire | lib/src/connection_limiter.rs:74-103 | takes a slot for known credentials below the limit in force, and only then |
| ConnectionLimiter.LimiterState.Release | lib/src/connection_limiter.rs:105-119 | gives a slot back |
| ConnectionLimiter.TunnelState.OnRequest | lib/src/tunnel.rs:147-187 | the first authenticated request takes the slot before its task is spawned, or ends the tunnel |
| ConnectionLimiter.OnTunnelRequest | lib/src/core.rs:686-738 | an SNI-authenticated tunnel starts with its guard or not at all |
| MarkerScan.ContainsMarker | scripts/audit_source_tree.py:124-136 | for every stream and every way its reads cut it, answers true if and only if some marker occurs in the whole stream |
| MarkerScan.ContainsPrivateKeyMarker | scripts/audit_source_tree.py:124-136 | the same for the audit's own markers |
| MarkerScan.SearchIsExact | scripts/audit_source_tree.py:130-133 | searching the kept overlap and the new chunk finds what searching everything read so far finds |
| MarkerScan.LimitedReader.Read | scripts/audit_source_tree.py:139-156 | delivers at most what is asked for and what remains, and fails exactly when the source ends too early |
| MarkerScan.LimitedReader.ReadToEnd | scripts/audit_source_tree.py:139-156 | reading to the end delivers exactly the declared octets and leaves the rest, or fails if and only if the source holds fewer |

## Left out

- Sockets, raw descriptors, TLS, QUIC, HTTP/2 and HTTP header parsing: other libraries' or the system's work; what they deliver is a parameter.
- SOCKS5 forwarding and the forwarded-stream chunk decoder: other components with their own conventions.
- Settings, builders, serialisation of settings, metrics and logging: plumbing.
- PEM parsing and certificate checks: certificates are DER octets here, and a certificate in a settings file is taken to be well-formed PEM.
- The outgoing datagram encoders and the relay's fixed-length bodies: single-pass code that would only add easy members.
- File classification in the audit and the SNI and address tables: branch tables.
- The two directions of a duplex relay and its overall timeout: each direction is modelled with timeouts and drops at any wait.
- A failure to open the client's response in the chunked relay: only a sink that fails while it is written to is modelled.
- Checksum.Rfc1071Checksum: is for messages of at most 131072 octets, because a longer one could overflow the 32-bit sum; echo packets are shorter.
- IcmpMessages.SerializeEcho: takes at most 65535 octets of data, as the 16-bit size field of the framing allows.
- IcmpMessages.Error6Matches: is for quoted packets without extension headers; Answers6Exactly, SingleExtensionExactly and CrashExactly say what happens with some.
- ConnectionLimiter.LimitsHold: is for runs with fewer than 2^32 tunnels at a time; AcquireCountsExactly says what happens beyond.
- ChunkedRelay.ChunkRelay.Run: an announced chunk size within 2 of 2^64 ends the relay as an overflow, where a build without overflow checks would stop a little later.
- SimplexPipe.RelayConserves: assumes that dropping a waiting read loses nothing, as the source contract demands.
- TlvPayload.OrderInsensitive: says that both decodings fail or both succeed alike; which error is reported may differ.
