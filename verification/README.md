# go-tcpip packet logic in Dafny

This project models the packet logic of go-tcpip, a small TCP/IP stack
written in Go for unikernels. Each core source file becomes one module:

- `checksum.dfy`: the Internet checksum of RFC 1071. It is an imperative
  method with its two loops, and it is proved equal to a specification
  function. That function is in turn proved equal to an independent
  ones'-complement reference for every input that cannot wrap the 32-bit
  accumulator.
- `ipv4_packet.dfy`: the IPv4 header of RFC 791, section 3.1. It covers:
  - the raw and logical headers and the conversions between them;
  - the wire layout;
  - the three ordered header checks;
  - reading a header and a packet (a `Reader` class with methods proved
    against decode functions);
  - building packets (`NewPacketTo`, and an `OutgoingPacket` class whose
    `WritePayload` updates the payload and TotalLength in place).
- `udp.dfy`: the UDP header of RFC 768 and the datagram reader with its
  length and checksum validation.
- `icmp_packet.dfy`: ICMP echo request and reply (RFC 792): reading,
  writing, constructors and checksum stamping.
- `icmp_layer.dfy`: the echo responder bound to IPv4 protocol 1.
- `arp.dfy`: ARP (RFC 826). It covers:
  - the 28-byte packet;
  - the request and reply constructors;
  - the dispatch of inbound packets and the answer to a request for our own
    address;
  - the resolver's two tables as a `Resolver` class. One table is the
    pending requests, each holding a one-shot reply signal; the other is
    the cache.
- `routing.dfy`: the router's next-hop decision. The ARP layer is a
  function parameter.
- `ethernet_demux.dfy` and `ipv4_demux.dfy`: the demultiplexer tables, as
  classes over a map.
- Shared modules:
  - `common.dfy`: fixed-width integers, errors, big-endian layouts and
    exact-length reads;
  - `bits.dfy`: Go's `|` and `&`, defined bit by bit;
  - `ethernet.dfy`: MAC addresses, EtherTypes and frames.

Go's `uint8`/`uint16`/`uint32` are bounded subtypes of `int`. Masks and
shifts are written as `%` and `/` by powers of two, and truncation as an
explicit `%`. A read through `encoding/binary` or `io.Reader` is a read of
exactly n bytes. That read returns EOF when nothing was left and
UnexpectedEOF when the input was cut short. The random identification
counter and the payload writer's output are parameters.

## Model

| member | source | states |
|---|---|---|
| Common.TakeExact | ipv4/packet.go:184-188 | A fixed-size read succeeds exactly when n bytes remain, and then returns them and the rest. Otherwise it gives EOF on empty input and UnexpectedEOF on short input. |
| Common.Reader.ReadFull | ipv4/packet.go:186 | The reader's state advances as TakeExact says. |
| Checksum.Checksum | checksum.go:4-22 | The two loops (word sum into a wrapping uint32, then carry folding), the complement and the remap compute InternetChecksum. |
| Checksum.InternetChecksum | checksum.go:17-20 | The checksum is never 0, because a complemented sum of 0 is returned as 0xFFFF. |
| Checksum.Fold | checksum.go:14-16 | After the folding loop the sum is at most 0xFFFF. |
| Checksum.FoldStep | checksum.go:15 | One folding step strictly decreases the sum and keeps its final fold. |
| Checksum.AddWord | checksum.go:6-10 | One step of the word loop keeps the wrapped total the loop reaches. |
| Checksum.AddOddByte | checksum.go:11-13 | Adding the trailing byte completes the wrapped total. |
| Checksum.OddBytePadded | checksum.go:11-13 | An odd trailing byte counts as the high byte of a zero-padded word. |
| Checksum.TrailingZeroByte | checksum.go:11-13 | Appending one zero byte to an even-length input leaves the checksum unchanged. |
| Checksum.HeaderVector | checksum_test.go:15 | The IPv4 header vector with its checksum zeroed gives 0x56DB. |
| Checksum.HeaderVectorPadded | checksum_test.go:16 | The same vector with one trailing zero byte gives 0x56DB. |
| Checksum.AllOnesVector | checksum_test.go:17 | FFFF gives 0xFFFF through the zero remap. |
| Checksum.OnesSumCongruent | checksum.go:6-13 | The ones'-complement sum and the plain word sum agree modulo 0xFFFF and are zero together. |
| Checksum.FoldCongruent | checksum.go:14-16 | Folding keeps a value modulo 0xFFFF and keeps it non-zero. |
| Checksum.WordSumFits | checksum.go:5-10 | For inputs of up to 131074 bytes the uint32 sum cannot wrap. |
| Checksum.ChecksumIsOnesComplement | checksum.go:5-17 | For inputs that cannot wrap, the result is the complement of the end-around-carry ones'-complement sum, 0 remapped. |
| Checksum.WordSumAppend | checksum.go:6-10 | Word sums split at an even offset. |
| Checksum.FieldWordSum | checksum.go:6-10 | A word-aligned field holding w adds exactly w to the sum. |
| Checksum.StampedSumsToAllOnes | checksum.go:17-20 | Once a word-aligned field holds the checksum of the data with that field zeroed, the checksum of the whole is 0xFFFF. This is the receiver's check of RFC 1071, section 1. |
| Bits.Or8Nibbles | ipv4/packet.go:149 | `(v << 4) \| ihl` on a uint8 is v*16+ihl when both fit a nibble. |
| Bits.Or16FlagsOffset | ipv4/packet.go:153 | `(flags << 13) \| offset` on a uint16 is flags*0x2000+offset when both fit their bits. |
| Ipv4Packet.AddressBytes | ipv4/packet.go:55-61 | Address.Bytes copies the four address bytes, in order. |
| Ipv4Packet.PackNibbles | ipv4/packet.go:149 | The packed VersionIHL byte has Version as its high nibble and IHL as its low nibble. |
| Ipv4Packet.PackFlags | ipv4/packet.go:153 | The packed word has Flags in bits 15-13 and FragmentOffset in bits 12-0. |
| Ipv4Packet.UnpackNibbles | ipv4/packet.go:193-194 | Splitting a VersionIHL byte and packing it again gives the byte back exactly when bit 3 is clear. |
| Ipv4Packet.UnpackFlags | ipv4/packet.go:198-199 | Splitting a FlagsFragmentOffset word and packing it again gives the word back. |
| Ipv4Packet.ToRaw | ipv4/packet.go:147-160 | Every field but Version/IHL and Flags/FragmentOffset is copied. Within their widths, Version and IHL fill the two nibbles of VersionIHL, and Flags and FragmentOffset fill bits 15-13 and 12-0. |
| Ipv4Packet.FromRaw | ipv4/packet.go:191-206 | The converted Version is below 16, IHL below 8, Flags below 8 and FragmentOffset below 0x2000. Every other field is copied, and Options are empty. |
| Ipv4Packet.FromRawCorrected | ipv4/packet.go:194 | With the 0x0F mask only IHL differs from the as-written conversion. The IHL is below 16, agrees with the as-written one modulo 8, and equals it exactly when bit 3 is clear. |
| Ipv4Packet.ConversionRoundTrip | ipv4/packet.go:147-206 | Logical to raw to logical keeps every field but Options exactly when Version<16, IHL<8, Flags<8 and FragmentOffset<0x2000. |
| Ipv4Packet.ConversionKeepsFields | ipv4/packet.go:147-206 | Within those bounds, the conversion back gives the header without its Options. |
| Ipv4Packet.NibblesKept | ipv4/packet.go:191-194 | Within those bounds, Version and IHL survive the round trip. |
| Ipv4Packet.FlagsKept | ipv4/packet.go:198-199 | Within those bounds, Flags and FragmentOffset survive the round trip. |
| Ipv4Packet.RawConversionRoundTrip | ipv4/packet.go:147-206 | Raw to logical to raw is the identity exactly when bit 3 of VersionIHL is clear. |
| Ipv4Packet.IhlMaskDropsBit3 | ipv4/packet.go:194 | An IHL from 8 to 15 comes back 8 smaller. |
| Ipv4Packet.CorrectedConversionRoundTrip | ipv4/packet.go:194 | With the 0x0F mask, the round trip keeps every 4-bit IHL. |
| Ipv4Packet.RawBytes | ipv4/packet.go:179-181 | The raw header is written as 20 big-endian bytes. |
| Ipv4Packet.ParseRaw | ipv4/packet.go:184-188 | 20 bytes read as the raw header whose layout they are. |
| Ipv4Packet.ParseRawBytes | ipv4/packet.go:179-188 | Reading back a written raw header gives that header. |
| Ipv4Packet.HeaderBytes | ipv4/packet.go:89-95 | Header.Write emits 20+\|Options\| bytes: the raw header's layout, then the Options. |
| Ipv4Packet.PacketBytes | ipv4/packet.go:258-264 | Packet.Write emits the header's bytes, then the payload. |
| Ipv4Packet.CalculateChecksum | ipv4/packet.go:117-126 | The header checksum is never 0. |
| Ipv4Packet.CalculateChecksumIgnoresField | ipv4/packet.go:117-126 | The stored Checksum does not enter the calculation. |
| Ipv4Packet.Check | ipv4/packet.go:135-144 | A header passes exactly when its IHL matches its Options, IHL*4 ≤ TotalLength and its Checksum is the calculated one. Otherwise the error is InvalidIHL, InvalidTotalLength or InvalidChecksum. |
| Ipv4Packet.CheckPrecedence | ipv4/packet.go:135-144 | An IHL/Options mismatch is reported whatever TotalLength and Checksum are. Then IHL*4 > TotalLength is reported whatever Checksum is. |
| Ipv4Packet.CheckDecidedByChecksum | ipv4/packet.go:135-144 | Past the first two tests, Check passes exactly when Checksum is the calculated one, and fails otherwise with InvalidChecksum. |
| Ipv4Packet.InvertedChecksumFails | ipv4/packet_test.go:192-195 | Inverting the Checksum of a valid header gives InvalidChecksum. |
| Ipv4Packet.CheckVectors | ipv4/packet_test.go:174-190 | The test's inconsistent IHL/Options pairs give InvalidIHL. The pair the test calls valid gives InvalidTotalLength. |
| Ipv4Packet.DecodeHeader | ipv4/packet.go:98-114 | Fewer than 20 bytes give EOF or UnexpectedEOF, and an IHL below 5 gives InvalidIHL. Otherwise a header is returned exactly when (IHL-5)*8 option bytes follow, and missing option bytes give EOF or UnexpectedEOF. The header returned is the converted raw header with those option bytes, and the input after them is left unread. |
| Ipv4Packet.NewHeader | ipv4/packet.go:98-114 | The stream method returns what DecodeHeader gives and leaves the reader where it says. |
| Ipv4Packet.CheckAndReadPayload | ipv4/packet.go:225-231 | A packet is returned only for a header that passes Check, and its payload is the next TotalLength-IHL*4 bytes. |
| Ipv4Packet.DecodePacket | ipv4/packet.go:218-232 | NewPacket returns only packets whose header passes Check and whose payload has exactly TotalLength-IHL*4 bytes. |
| Ipv4Packet.NewPacket | ipv4/packet.go:218-232 | The stream method returns what DecodePacket gives. |
| Ipv4Packet.HeaderRoundTrip | ipv4/packet.go:89-114 | A header with IHL 5 to 7, (IHL-5)*8 option bytes and fields that fit is read back from its bytes, whatever follows. |
| Ipv4Packet.PayloadRoundTrip | ipv4/packet.go:225-231 | After a header that passes Check, exactly its payload is read and the rest is left. |
| Ipv4Packet.PacketRoundTrip | ipv4/packet.go:218-264 | A well-formed packet with IHL 5 is read back from its bytes, whatever follows. |
| Ipv4Packet.OnlyIhlFiveAccepted | ipv4/packet.go:105 | As written, every accepted packet has IHL 5 and no Options. |
| Ipv4Packet.OptionsPacketRejected | ipv4/packet.go:105 | As written, a packet whose IHL is not 5 (so every well-formed packet with Options) is never read back as itself. |
| Ipv4Packet.DecodeHeaderCorrected | ipv4/packet.go:98-114 | With 4 option bytes per word, a header is accepted only when its Options fill its IHL. |
| Ipv4Packet.DecodePacketCorrected | ipv4/packet.go:218-232 | With the corrected header reader, accepted packets pass Check and carry TotalLength-IHL*4 payload bytes. |
| Ipv4Packet.CorrectedHeaderRoundTrip | ipv4/packet.go:98-114 | With the corrected reader, every header whose Options fill its IHL is read back. |
| Ipv4Packet.CorrectedPacketRoundTrip | ipv4/packet.go:218-232 | With the corrected reader, every well-formed packet, Options included, is read back from its bytes. |
| Ipv4Packet.VectorParse | ipv4/packet_test.go:72-87 | The test bytes read as the test raw header and write back as the same bytes. |
| Ipv4Packet.VectorConversions | ipv4/packet_test.go:159-167 | The test raw header and logical header convert into each other. |
| Ipv4Packet.VectorChecksum | ipv4/packet_test.go:171 | The test header's calculated checksum is 0x56DB, its stored one. |
| Ipv4Packet.VectorHeaderRoundTrip | ipv4/packet_test.go:89-103 | The test bytes read as the test header, which writes back as the same bytes and passes Check. |
| Ipv4Packet.OptionsVectorDecodes | ipv4/packet_test.go:105-130 | With IHL 6 and eight option bytes appended, the header reads with those eight bytes as Options. |
| Ipv4Packet.OptionsVectorEncodes | ipv4/packet_test.go:105-130 | That header writes back as the same bytes. |
| Ipv4Packet.VectorInvalidIhl | ipv4/packet_test.go:132-143 | With IHL 4 the header is refused with InvalidIHL. |
| Ipv4Packet.NewDefaultPacket | ipv4/packet.go:234-245 | Version 4, IHL 5, TTL 64, TotalLength 20, Identification the low 16 bits of the counter, and every other field zero. Once its checksum is stamped the header passes Check. |
| Ipv4Packet.NewPacketTo | ipv4/packet.go:237-255 | The default packet with the given Destination, Protocol and payload, and TotalLength 20+\|payload\| as a uint16. So Version 4, IHL 5, ToS 0, TTL 64, Identification the low 16 bits of the counter, zero Flags, FragmentOffset and Checksum, the zero Source, and no Options. |
| Ipv4Packet.WithHeaderChecksum | ipv4/packet_test.go:178 | A helper that stamps the header checksum, as the tests do before Check. Only the Checksum changes, and it becomes the calculated one. |
| Ipv4Packet.StampedWellFormed | ipv4/packet.go:135-144 | A header that passes the IHL and length tests passes Check once its checksum is stamped. |
| Ipv4Packet.BuiltPacketWellFormed | ipv4/packet.go:248-255 | A packet from NewPacketTo whose payload fits TotalLength is well formed once stamped. |
| Ipv4Packet.BuiltPacketRoundTrip | ipv4/packet.go:248-255 | Such a packet is read back from its bytes by NewPacket. |
| Ipv4Packet.WithPayload | ipv4/packet.go:276-283 | WritePayload replaces the payload and sets TotalLength to IHL*4+\|payload\| in uint16 arithmetic (modulo 2^16). No other header field changes. |
| Ipv4Packet.WithPayloadKeepsLength | ipv4/packet.go:276-283 | When IHL*4+\|payload\| fits 16 bits, TotalLength counts exactly the header and the payload, so the length check passes. |
| Ipv4Packet.OutgoingPacket.WritePayload | ipv4/packet.go:276-283 | The packet's new value is WithPayload of its old value. |
| Udp.HeaderBytes | udp/packet.go:37-39 | Header.Write emits 8 bytes. |
| Udp.ParseHeader | udp/packet.go:30-34 | 8 bytes read as the header whose layout they are. |
| Udp.ParseHeaderBytes | udp/packet.go:30-39 | Reading back a written header gives that header. |
| Udp.PacketBytes | udp/packet.go:73-79 | Packet.Write emits the 8 header bytes, then the payload. |
| Udp.CalculateChecksum | udp/packet.go:82-85 | The checksum is never 0. CalculateChecksumIgnoresField shows the stored Checksum does not enter it. |
| Udp.CalculateChecksumIgnoresField | udp/packet.go:82-85 | The stored Checksum does not enter the calculation. |
| Udp.Decode | udp/packet.go:48-70 | Short input gives EOF or UnexpectedEOF, and Length<8 gives InvalidLength. On success the header is the first 8 bytes, the payload is the next Length-8 bytes, and the checksum is 0 or the expected one. |
| Udp.NewPacket | udp/packet.go:48-70 | As Decode, with the checksum expected without a pseudo-header. |
| Udp.DecodeRoundTrip | udp/packet.go:48-79 | A datagram with Length 8+\|payload\| and a zero or expected checksum is read back from its bytes, whatever follows. |
| Udp.RoundTrip | udp/packet.go:48-79 | The same for NewPacket as written. |
| Udp.ChecksumValidation | udp/packet.go:64-67 | A zero Checksum skips validation. Any other Checksum than the calculated one gives InvalidChecksum. |
| Udp.PseudoHeader | udp/packet.go:82-85 | The pseudo-header of RFC 768 is 12 bytes. |
| Udp.CalculateChecksumRfc768 | udp/packet.go:82-85 | The checksum over the pseudo-header and the datagram is never 0. |
| Udp.NewPacketRfc768 | udp/packet.go:48-85 | As NewPacket, with the checksum checked over the pseudo-header. |
| Udp.RoundTripRfc768 | udp/packet.go:48-85 | A datagram with the checksum of RFC 768 is read back by that reader. |
| Udp.PseudoHeaderOmitted | udp/packet.go:82-85 | A datagram with a correct checksum by RFC 768 is refused by NewPacket as written and accepted by NewPacketRfc768. |
| Udp.WithChecksum | udp/packet.go:82-85 | Only the Checksum changes, and it becomes the calculated one. |
| Udp.StampedDatagramSumsToAllOnes | udp/packet.go:82-85 | A datagram with the calculated checksum passes the receiver's check of RFC 1071. |
| IcmpPacket.Supported | icmp/packet.go:61-67 | A packet carries echo data exactly when its Code is 0 and its Type is echo request (8) or echo reply (0). |
| IcmpPacket.EchoBytes | icmp/packet.go:143-149 | Echo data is 4+\|payload\| bytes ending with the payload. |
| IcmpPacket.Write | icmp/packet.go:101-106 | Type, Code and the big-endian Checksum, then the echo data. |
| IcmpPacket.NewEcho | icmp/packet.go:134-140 | Echo data reads when 4 bytes are present, and the payload is all remaining bytes. |
| IcmpPacket.NewPacket | icmp/packet.go:56-70 | Short input gives EOF or UnexpectedEOF, and any type/code other than (8,0) or (0,0) gives UnsupportedICMPPacket. A packet is returned exactly for 8+ bytes with a supported type/code, and it writes back as the input. |
| IcmpPacket.WriteInjective | icmp/packet.go:101-106 | Distinct packets are written differently. |
| IcmpPacket.RoundTrip | icmp/packet.go:56-70 | Every echo request or reply is read back from its bytes. |
| IcmpPacket.WithChecksum | icmp/packet.go:108-119 | Only the Checksum changes, and it becomes the checksum of the packet written with it zeroed. |
| IcmpPacket.WithChecksumIdempotent | icmp/packet.go:108-119 | Stamping twice is stamping once. |
| IcmpPacket.StampedSumsToAllOnes | icmp/packet.go:108-119 | A stamped packet passes the receiver's check of RFC 1071. |
| IcmpPacket.NewEchoRequest | icmp/packet.go:72-84 | Type 8, Code 0, exactly the given identifier, sequence and payload, and stamped. |
| IcmpPacket.NewEchoReply | icmp/packet.go:86-98 | Type 0, Code 0, exactly the given identifier, sequence and payload, and stamped. |
| IcmpPacket.EchoRoundTrip | icmp/packet.go:72-98 | Constructed requests and replies are read back from their bytes. |
| IcmpLayer.Classify | icmp/layer.go:27-43 | A payload that fails ICMP decoding is dropped. Only a decoded type 8 is answered, and an answered request writes back as the payload. |
| IcmpLayer.HandleEchoRequest | icmp/layer.go:45-52 | The reply goes to the request's source with protocol ICMP, Version 4, IHL 5 and TotalLength 20+\|payload\|. Its payload decodes to a stamped type 0, code 0 reply with the request's identifier, sequence and payload. |
| IcmpLayer.Receive | icmp/layer.go:27-52 | At most one packet is sent, and exactly one for an echo request. It goes to the source and carries a reply with the request's data. |
| Arp.Write | ipv4/arp.go:99-101 | 28 bytes in the layout 2\|2\|1\|1\|2\|6\|4\|6\|4, big-endian. |
| Arp.Parse | ipv4/arp.go:64-68 | 28 bytes read as the packet whose layout they are. |
| Arp.WriteInjective | ipv4/arp.go:99-101 | Distinct packets are written differently. |
| Arp.NewArpPacket | ipv4/arp.go:64-68 | A packet reads exactly when 28 bytes are present. It is the one written as those bytes, and fewer bytes give EOF or UnexpectedEOF. |
| Arp.RoundTrip | ipv4/arp.go:64-101 | Every packet is read back from its bytes, whatever follows. |
| Arp.NewArpRequest | ipv4/arp.go:71-82 | Ethernet/IPv4 fixed fields, Operation 1, the given sender MAC/IP and target IP, and a zero target MAC. |
| Arp.NewArpReply | ipv4/arp.go:84-96 | The same fixed fields, Operation 2, and exactly the given sender and target addresses. |
| Arp.Dispatch | ipv4/arp.go:165-183 | Fewer than 28 bytes are dropped. Operation 1 goes to request handling, Operation 2 to reply handling, and anything else is dropped. |
| Arp.AnswerRequest | ipv4/arp.go:255-270 | An answer is sent exactly when the target IP is ours. It goes to the requester's MAC with EtherType ARP and carries a reply from our MAC/IP to the requester's MAC/IP. |
| Arp.QueryFrame | ipv4/arp.go:231-236 | The query is a broadcast ARP frame carrying the request for the address. |
| Arp.LastReplyFrom | ipv4/arp.go:276-280 | A reply from the address exists exactly when one is found. |
| Arp.CacheAfter | ipv4/arp.go:272-286 | The replies handled in order only add to the cache, and only for addresses with a pending request. |
| Arp.CacheAfterPending | ipv4/arp.go:272-286 | For an address with a pending request, the cache ends with the MAC of its last reply, or with what it held before when there was none. |
| Arp.CacheAfterUnsolicited | ipv4/arp.go:272-286 | An address without a pending request never enters or changes the cache. |
| Arp.Channel.Close | ipv4/arp.go:282 | Closing requires an open channel, because a second close panics. |
| Arp.PendingRequest.constructor | ipv4/arp.go:202-205 | A new record holds a fresh, open reply signal. |
| Arp.Resolver.constructor | ipv4/arp.go:153-163 | An empty cache and no pending requests. |
| Arp.Resolver.HandleReply | ipv4/arp.go:272-286 | The reply is cached only when a request is pending for its sender. That record's signal is closed once and set to nil, other records are unchanged, and the invariant that every live signal is open and unshared is kept. |
| Arp.Resolver.Receive | ipv4/arp.go:165-183 | A request for us is answered, a reply updates the cache as HandleReply does, and anything else changes nothing. |
| Arp.Resolver.HandleReplies | ipv4/arp.go:272-286 | A sequence of replies leaves the cache as CacheAfter says and keeps the invariant. |
| Arp.Resolver.Join | ipv4/arp.go:193-210 | An existing pending record is joined. Otherwise a fresh one is created with its broadcast query, so there is at most one record per address. |
| Arp.Resolver.Leave | ipv4/arp.go:217-228 | Only the creator removes the record. The result is the cached MAC, or ErrARPTimeout. |
| Arp.Resolver.Resolve | ipv4/arp.go:185-191 | A cache hit returns the cached MAC and touches neither table. A miss ends as ArpResolve says: the result, the query frame, the cache, and the pending requests as they began. |
| Arp.Resolver.ArpResolve | ipv4/arp.go:193-229 | The result is the MAC of the last reply from the address, or ErrARPTimeout. A query is sent only by the creator of the record. The cache has taken each reply for an address pending meanwhile (the earlier ones and this one). The table of pending requests ends exactly as it began. |
| Arp.LookupAsWritten | ipv4/arp.go:223-227 | As written, a cache miss panics instead of returning. |
| Arp.TimeoutIsNeverReturned | ipv4/arp.go:223-227 | As written, ErrARPTimeout is never returned. |
| Arp.Lookup | ipv4/arp.go:223-227 | As intended: the cached MAC, or ErrARPTimeout on a miss. |
| Arp.LookupCorrectsPanic | ipv4/arp.go:223-227 | The intended lookup agrees with the written one wherever that returns, and gives ErrARPTimeout exactly where it panics. |
| Routing.AddressAnd | ipv4/routing.go:71-75 | Each byte is the bitwise AND of the two addresses' bytes. |
| Routing.IsLocal | ipv4/routing.go:71-75 | An address is local exactly when every byte agrees with the router's address on the bits the netmask keeps. |
| Routing.OwnAddressIsLocal | ipv4/routing.go:71-75 | The router's own address is local. |
| Routing.FullMaskLocal | ipv4/routing.go:71-75 | Under the all-ones netmask only the router's own address is local. |
| Routing.ZeroMaskLocal | ipv4/routing.go:71-75 | Under the zero netmask every address is local. |
| Routing.ArpRoute | ipv4/routing.go:47-51 | ARP is asked about the address. ErrARPTimeout becomes ErrNoRouteToDestinationAddress, and other results pass through. |
| Routing.Resolve | ipv4/routing.go:46-69 | The branches in order: a local address goes to ARP; otherwise the broadcast address gives MulticastIPv4 with no ARP call and no error; otherwise a gateway goes to ARP for the gateway; otherwise there is no route. |
| Routing.ArpQueriesAreNextHops | ipv4/routing.go:46-69 | ARP is asked only about the local destination or the gateway. Errors are only no-route or ARP's own, never a timeout. |
| Routing.MulticastAsWritten | ipv4/routing.go:54-57 | The prefix's last three bytes are zero, so the AND clears them. Whatever the address, the MAC is 01:00:5E:00:00:00. |
| Routing.BroadcastAsWrittenIsGroupMac | ipv4/routing.go:53-57 | As written, a non-local 255.255.255.255 resolves to 01:00:5E:00:00:00, a multicast group MAC, and never to the Ethernet broadcast address. |
| Routing.ResolveCorrected | ipv4/routing.go:46-69 | A non-local 255.255.255.255 resolves to FF:FF:FF:FF:FF:FF, and every other case is as in Resolve. |
| Routing.SubnetBroadcastIsLocal | ipv4/routing.go:71-75 | 10.0.0.255 is local to 10.0.0.1/24. |
| Routing.PublicAddressIsRemote | ipv4/routing.go:71-75 | 8.8.8.8 is not local to 10.0.0.1/24. |
| Routing.SubnetBroadcastScenario | ipv4/routing.go:47-51 | On 10.0.0.1/24, 10.0.0.255 is resolved by ARP, since the local test comes first. |
| Routing.NoGatewayScenario | ipv4/routing.go:64-66 | Without a gateway, 8.8.8.8 has no route and ARP is not asked. |
| Routing.GatewayScenario | ipv4/routing.go:59-63 | With the gateway 10.0.0.1, 8.8.8.8 is resolved by ARP for the gateway. |
| EthernetDemux.Demux.constructor | ethernet/demux.go:30-39 | A new table holds only the default output, under EtherType 0. |
| EthernetDemux.Demux.SetOutput | ethernet/demux.go:42-50 | A length-valued EtherType is refused, since the source panics. Only the given entry changes, and the default at 0 can never be replaced. |
| EthernetDemux.Demux.OutputFor | ethernet/demux.go:55-59 | A registered, non-length EtherType selects its own output. Anything else selects the output given to NewDemux. |
| EthernetDemux.Demux.ReceiveAll | ethernet/demux.go:52-64 | Every frame goes, in order, to exactly one output. A registered, non-length EtherType goes to its own output, and anything else goes to the default. |
| Ipv4Demux.Demux.constructor | ipv4/demux.go:15-24 | A new table holds only the default output, under protocol 255. |
| Ipv4Demux.Demux.SetOutput | ipv4/demux.go:27-31 | Only the given protocol's entry changes. No protocol is refused, so 255 can be overwritten. |
| Ipv4Demux.Demux.ReceiveAll | ipv4/demux.go:33-44 | Every packet goes, in order, to exactly one output. A registered protocol goes to its own output, and anything else goes to the entry at 255. |

## Left out

- Goroutines, channels, `select`, timers and locks are left out. This covers the `go` calls in the demuxes, ARP and the ICMP layer, the channel sends, and `sync.RWMutex`. Each operation is modelled as one sequential step, and the frames or packets sent are returned as values.
- The ARP query loop of `sendARPRequestAndNotify` (ipv4/arp.go:231-253) is left out, because its purpose is timing. Only the query frame it sends is modelled (`Arp.QueryFrame`). The loop also keeps querying after a reply arrives, because its `break` only leaves the `select`; that is not modelled. The timeout channel is left out too: the replies that arrive before the wait ends are a parameter of `Arp.Resolver.Resolve`.
- The ARP cache is a map with no expiry. The go-cache time-to-live and cleanup are not modelled.
- `NewDefaultPacket` draws Identification from a randomly seeded atomic counter. Here the counter's new value is a parameter.
- `NewAddress` and `Address.String` are not modelled, because they only wrap `net.ParseIP` and `fmt.Sprintf`.
- `encoding/binary` is replaced by explicit big-endian layouts. `io.Reader` reads are exact-length-or-error reads. A short `Read` of option or payload bytes without an error is not modelled. A zero-length read at end of input is not modelled either: it would give io.EOF from a `bytes.Reader`.
- The writers' I/O errors are not modelled, because every writer here writes to memory.
- `Echo.Write` passes a struct holding a slice to `binary.Write`, which `encoding/binary` refuses. As written, `WithChecksum` and the ICMP constructors would therefore panic. `IcmpPacket.EchoBytes` models the intended layout (identifier, sequence number, payload) instead.
- The test at ipv4/packet_test.go:174-180 expects `Check` to accept IHL 6 with four option bytes and TotalLength 0. The code returns ErrInvalidTotalLength for it. The model follows the code, as `Ipv4Packet.CheckVectors` states.
- `ipv4.NewDemux` ignores its `incoming` channel and never starts `receiveAll`. `Ipv4Demux.Demux.ReceiveAll` models what `receiveAll` would do if it ran.
- The channel layers are not part of this model: ethernet/layer.go, ipv4/layer.go and udp/layer.go. Neither are the NIC driver (ethernet/physical.go, ethernet/physical_unigornel.go) nor the logging.
- Names defined outside the modelled files are declared in `ethernet.dfy` and `routing.dfy`:
  - `EtherType.IsLength` is taken as ≤ 1500, the IEEE 802.3 length/type rule.
  - `EtherTypeIPv4` is 0x0800 and `EtherTypeARP` is 0x0806.
  - `MulticastIPv4` is 01:00:5E:00:00:00.
  - `ipv4.Broadcast` is 255.255.255.255.
  - `Address.And` and `Address.Equals` are bytewise.
- `ethernet.Packet.WritePayload` is taken to set the frame's payload to the bytes written. The ARP frames leave the source MAC at its zero value, as the frame literals at ipv4/arp.go:232-235 and 263-266 do.
- `IcmpLayer.HandleEchoRequest` leaves the reply's IPv4 header checksum as `NewPacketTo` leaves it. Setting it is the job of the IPv4 layer, which is not part of this model.
- Checksum.ChecksumIsOnesComplement: it is stated only for inputs of up to 131074 bytes, where the uint32 sum cannot wrap. Longer inputs exceed any IPv4 datagram.
- Udp.StampedDatagramSumsToAllOnes: it is stated only for datagrams of up to 131072 bytes, for the same reason.
- Arp.Resolver.Resolve: it does not state that concurrent resolvers of one address share one record. It states the sequential discipline: a new record only when none exists, and removal only by its creator.

## Findings

| source | as written | input that shows it | evidently intended | confidence | as-written member | corrected member |
|---|---|---|---|---|---|---|
| ipv4/packet.go:105 | reads (IHL-5)*8 option bytes | IHL 6 with 4 option bytes: 8 bytes are read, and Check then fails with InvalidIHL | (IHL-5)*4 bytes, one 32-bit word per IHL unit (RFC 791, section 3.1) | high, not executed | Ipv4Packet.OptionsPacketRejected | Ipv4Packet.CorrectedPacketRoundTrip |
| ipv4/packet.go:194 | IHL = VersionIHL & 0x07 | VersionIHL 0x48: IHL 8 reads as 0 | IHL = VersionIHL & 0x0F, the 4-bit field of RFC 791, section 3.1 | high, not executed | Ipv4Packet.IhlMaskDropsBit3 | Ipv4Packet.CorrectedConversionRoundTrip |
| ipv4/routing.go:53-57 | maps the limited broadcast address to ethernet.MulticastIPv4, ANDing the address bytes into its zero low bytes | a non-local 255.255.255.255 resolves to 01:00:5E:00:00:00, a multicast group address, so the frame is not a link-layer broadcast | the Ethernet broadcast FF:FF:FF:FF:FF:FF, which the repository defines as ethernet.Broadcast (ethernet/packet.go:7) and RFC 894 uses for IP broadcasts | medium, not executed; rests on MulticastIPv4 being 01:00:5E:00:00:00, which is declared outside the modelled files | Routing.BroadcastAsWrittenIsGroupMac | Routing.ResolveCorrected |
| udp/packet.go:82-85 | the checksum covers the datagram only | an empty datagram from 10.0.0.1 to 10.0.0.2 with the RFC 768 checksum 0xEBDB is refused with InvalidChecksum | the checksum also covers the pseudo-header of RFC 768 | high, not executed | Udp.PseudoHeaderOmitted | Udp.RoundTripRfc768 |
| ipv4/arp.go:223-227 | on a cache miss, sets ErrARPTimeout and then asserts the nil item to ethernet.MAC | any address nobody answers: the type assertion panics | return ErrARPTimeout, which the router maps to no route | high, not executed | Arp.TimeoutIsNeverReturned | Arp.LookupCorrectsPanic |
