# Verified model of gutd

gutd wraps WireGuard datagrams in a disguise (a ten-byte GUT header, QUIC, syslog or SIP) and unwraps them at the far end.
The work is done twice, by a Rust process in userspace and by C programs in the kernel.
This project models both and proves what they promise each other: round trips, agreement of the fast forms with the simple
ones, and safety over every run of the routing protocol. Verify it with `dafny verify dfyconfig.toml`.

| modules | subject |
|---|---|
| Bytes, Scan | byte strings, words, slices and stores; pattern search and decimal numbers |
| Codec, CodecLaws, WireLayout, Hello, Proxy | wire image, decapsulation, verification, byte positions; the in-place encoder and decoder |
| Base64, KernelBase64 | both base64 codecs |
| Calendar, Syslog, Sip, SipLaws, SipSize, EnvelopeText, Claims, Path, Loss | dates, envelopes, their text and recognisers, the whole path through userspace |
| Routing, RoutingLaws, RoutingTheorems, RoutingDuties, RoutingWitness, SharedAddr | the dynamic-peer protocol as interleaved steps, and the shared address cell |
| ChaCha, Masking, Checksum | key stream blocks, bulk masking, Internet checksums |
| Frames, KernelCodec, KernelHello, KernelEgress, KernelIngress, KernelTunnel | Ethernet frames, the TC egress and XDP ingress programs, and both in a row |
| Sha256, Hkdf, Gf128, GfMul, GfRing, Ghash, Gcm | streaming hash, key derivation, GF(2^128) arithmetic and GCM |
| Netlink, NlBuf, Neighbour | attribute trees, the message builder, neighbour and link messages |
| Ports, Config | port ownership, from the configuration to the dispatcher |

The key stream generator, the AES block and the SHA-256 compression function are parameters, so every statement holds for all
of them; ChaCha itself is modelled in `ChaCha` and `Masking`. Byte views are little-endian, as both halves of
the program assume. Clocks, random draws, addresses and the outcome of dropping a keepalive are parameters.

Where the code does not meet the obvious property, the model follows the code and a lemma gives the exact condition:

- `obfs_verify` is documented as unmasking in place; it works on a copy, and the model changes nothing.
- The XDP program refuses 64 bytes of ballast, which both senders can emit in QUIC mode (`KernelCodec.KernelOpensQuic`).
- It decides about the second mask by a length that includes the ballast, which matters outside WireGuard's fixed sizes
  (`KernelCodec.OtherSizesMask`).
- A refused frame keeps its headers but stays partly unmasked (`KernelIngress.GutXdpCore`).
- Long QUIC headers always differ between kernel and userspace, though not in what receivers read; an initiation sent by a server
  gets one from the kernel only (`KernelEgress.KernelWireIsWire`, `KernelEgress.LongImagesReadAlike`, `KernelEgress.ServerInitiationDiffers`).
- A GUT packet whose packet number looks like an RTP header, about one in 512, is taken for RTP and loses its first twelve bytes; rarer ones spell a SIP or
  syslog signature (`Claims.GutClaimedIff`, `Loss.ClientDeliversIff`, `Loss.TakenForRtp`, `Loss.SomePacketIsLost`).
- The year of the SIP date is a 32-bit number (`Calendar.SipDateIsGregorian`, `Calendar.SipDateOverflows`).
- The base64 scratch regions overlap for more than 298 groups; decoding is still right, because only
  consumed input is overwritten (`KernelBase64.DecodeRegionsOverlap`, `KernelBase64.B64Decode`).
- The userspace decoder leaves a hole where a third character alone is padding (`Base64.DeterminedIffTame`), and the kernel encoder
  stops at 902 bytes (`KernelBase64.KernelEncodeAgrees`).
- The syslog recogniser needs a four-digit year, a name of at most 32 bytes and no marker in it (`Syslog.CheckInvertsHeader`).
- The address fingerprint drops flow label and scope, and collides for version 6 (`SharedAddr.CollisionIff`, `SharedAddr.TrackingIsLatest`).
- In SIP mode replies go to the learned host but to a configured port (`RoutingTheorems.WireAddress`), which may be one that only
  another client behind that host used (`RoutingWitness.RepliesMayCross`).
- Rust and kernel round counts part above 21 (`ChaCha.DoubleRoundsAgree`), and masking parts above 9000 bytes (`Masking.KernelMaskAgrees`).
- The GCM counter wraps one block later than the standard's limit (`Gcm.CountersFreshIff`).
- Attribute lengths are cut to 16 bits (`Netlink.WalkInvertsEncode`, `Neighbour.VethFits`).
- A port listed by two peers would go to the one registered last (`Ports.OwnersExactIff`); validation excludes it.

## Model

| member | source | states |
|---|---|---|
| Codec.MaskKeepsNonce | src/userspace.rs:366-375 | masking leaves bytes 16..32 alone, so sender and receiver derive the same nonce from clear and masked packets |
| WireLayout.NonceBytes | src/userspace.rs:366-375 | byte j of the nonce is the XOR of packet bytes 16+j, 20+j, 24+j and 28+j; below 32 bytes the nonce is zero |
| WireLayout.GutLayout | src/userspace.rs:513-523 | byte positions of packet number, both ports and ballast code in every GUT, syslog and SIP image, the masked packet bytes, and the ballast length and bytes |
| WireLayout.ShortLayout | src/userspace.rs:525-539 | the same for the QUIC short header, with the connection id, and exactly when it is used |
| WireLayout.LongLayout | src/userspace.rs:541-760 | the same for the 1200-byte header of cookie replies and client initiations |
| WireLayout.DecapAccepts | src/userspace.rs:851-920 | for arbitrary bytes: decapsulation succeeds if and only if first byte, length and ballast allow it, with the bounds of each class |
| WireLayout.VerifyAccepts | src/userspace.rs:762-849 | for arbitrary bytes: verification succeeds if and only if packet number and connection id are the key stream bytes of the packet behind the header |
| WireLayout.KernelAccepts | src/bpf/xdp_gut_ingress.bpf.c:554-766 | the same for the kernel, with its own first byte and ballast rules |
| CodecLaws.HeaderFields | src/userspace.rs:513-760 | every written header, of all three layouts, is read back: class, ballast code, sealed ports and authentication fields |
| CodecLaws.DecapInvertsEncap | src/userspace.rs:384-507 | decapsulation returns the packet and both ports for every key stream, filler, role, mode, ballast 0..64 and packet of at least 16 bytes |
| CodecLaws.VerifyAcceptsEncap | src/userspace.rs:762-849 | a wire image verifies if and only if the packet has at least 32 bytes |
| CodecLaws.VerifiedDecapsulates | src/userspace.rs:851-920 | for arbitrary bytes, whatever verifies also decapsulates, under the same header class and to at least 32 bytes |
| CodecLaws.DecapIsLocal | src/userspace.rs:851-920 | decapsulation depends only on the n received bytes of a larger buffer |
| CodecLaws.VerifyIsLocal | src/userspace.rs:762-849 | verification depends only on the n received bytes of a larger buffer |
| Proxy.Xor16 | src/userspace.rs:377-382 | exactly sixteen bytes of the buffer are XORed with the key bytes, the rest is unchanged |
| Proxy.WriteGutHeader | src/userspace.rs:513-523 | the ten header bytes have the layout the receivers parse and nothing behind them changes |
| Proxy.WriteShortHeader | src/userspace.rs:525-539 | the sixteen header bytes have the layout the receivers parse and nothing behind them changes |
| Proxy.WriteLongHeader | src/userspace.rs:541-760 | random fill, fields, sealed frame, tag and header protection, in that order, leave the 1200 bytes that the receivers parse and nothing behind them changes |
| Proxy.WriteSealed | src/userspace.rs:706-736 | length field, sealed frame and tag stay between offset 28 and the ballast code for every server name |
| Hello.LengthField | src/userspace.rs:706-736 | the length field is the two-byte form of section 16 of RFC 9000 and says exactly what follows |
| Proxy.ProtectNumber | src/userspace.rs:748-752 | exactly the four packet number bytes are written and masked |
| Proxy.ObfsEncap | src/userspace.rs:384-507 | in place: the buffer starts with the wire image, returns its length and DCID, and is untouched behind it; below 16 bytes nothing changes |
| Proxy.ObfsDecap | src/userspace.rs:851-920 | in place: the packet ends up at the front with the right length and ports, or the buffer is untouched |
| Base64.DecodeInvertsEncode | src/proto/base64.rs:17-83 | decoding inverts encoding for every byte string (section 4 of RFC 4648) |
| Base64.GroupBits | src/proto/base64.rs:17-46 | the four sextets of a group are the 24 bits of its bytes, in order |
| Base64.GroupVectors | src/proto/base64.rs:1 | vectors of section 10 of RFC 4648 and of both ends of the alphabet |
| Base64.Encode | src/proto/base64.rs:17-46 | the buffer receives exactly the encoding and is untouched behind it |
| Base64.Decode | src/proto/base64.rs:49-83 | fails exactly on a bad length or foreign character; otherwise length and every byte are given, also where the buffer shows through |
| Base64.DeterminedIffTame | src/proto/base64.rs:49-83 | the result is independent of the former buffer contents if and only if no third character alone is padding |
| KernelBase64.B64Encode | src/bpf/gut_common.h:1923-1975 | the looped encoder writes exactly the userspace encoding of the input cut at 902 bytes |
| KernelBase64.KernelEncodeAgrees | src/bpf/gut_common.h:1923-1975 | both encoders agree if and only if the input has at most 902 bytes |
| KernelBase64.B64Decode | src/bpf/gut_common.h:2033-2056 | the looped decoder reads what was in the input region before the call even where its output runs into it |
| KernelBase64.KernelDecodeAgrees | src/bpf/gut_common.h:1977-2056 | on every valid string both decoders agree for every former buffer if and only if no third character alone and no group before the last is padded |
| KernelBase64.KernelDecodeInvertsEncode | src/bpf/gut_common.h:1889-2056 | the kernel decodes whatever either encoder writes |
| KernelBase64.EncodeRegionsDisjoint | src/bpf/gut_common.h:1595-1600 | input and output regions of the encoder are disjoint for every input up to 896 bytes |
| KernelBase64.DecodeRegionsOverlap | src/bpf/gut_common.h:1595-1600 | the decoder writes into its own input region if and only if there are more than 298 groups (895 or 896 bytes encoded) |
| Calendar.CivilStep | src/proto/syslog.rs:24-36 | for every day count the next date is the Gregorian successor: month lengths, leap years and all |
| Calendar.CivilIsGregorian | src/proto/syslog.rs:24-36 | the closed formula gives, for every n, the date reached by counting n days from 1970-01-01 |
| Calendar.SyslogDateIsGregorian | src/bpf/gut_common.h:2083-2094 | the syslog copy, which cuts the day count to 32 bits, is right if and only if the count fits |
| Calendar.SipDateIsGregorian | src/proto/sip.rs:481-493 | the SIP copy computes the year in 32-bit signed arithmetic: in checked and unchecked builds it is right if and only if the timestamp lies before the year 2147483648 |
| Calendar.SipDateIsCivil | src/proto/sip.rs:481-493 | its result is the Gregorian date with the year wrapped, or a panic exactly when the year does not fit |
| Calendar.SipDateOverflows | src/proto/sip.rs:488 | a timestamp that panics in a checked build and prints a negative year otherwise |
| Syslog.CheckHeader | src/proto/syslog.rs:58-73 | the scan returns the position behind the first marker |
| Syslog.CheckInvertsHeader | src/proto/syslog.rs:15-73 | the recogniser returns exactly the written length if and only if the year has four digits, the name at most 32 bytes and no marker starts in it |
| SipLaws.CheckInvertsHeader | src/proto/sip.rs:283-455 | for all six message kinds the recogniser returns exactly the header length, whatever body follows |
| SipLaws.CheckInvertsBareHeader | src/proto/sip.rs:116-145 | a header without body is recognised in full |
| SipLaws.CheckRtpInvertsHeader | src/proto/sip.rs:457-471 | every written RTP header is recognised |
| SipSize.ShortHeaderFits | src/proto/sip.rs:283-455 | every header over fields of ordinary size fits the 1024 bytes it is printed into |
| EnvelopeText.SipDatagramSays | src/userspace.rs:1449-1456 | the literal text a SIP datagram starts with, for each packet type and length, and every byte of the RTP header of longer transport data |
| EnvelopeText.SipLengthIsRight | src/proto/sip.rs:433-449 | the Content-Length of every SIP datagram is the number of bytes behind its blank line |
| EnvelopeText.SequenceMethod | src/proto/sip.rs:320-417 | a request repeats its method in the CSeq line; responses start with the version |
| EnvelopeText.Parties | src/proto/sip.rs:360-431 | which address, port, domain and tag stands in Via, From, To and Contact, To being tagged exactly in responses |
| EnvelopeText.SessionAddresses | src/proto/sip.rs:433-438 | origin, connection and media port of the session description |
| EnvelopeText.DateLineSays | src/proto/sip.rs:419-429 | the clock of a Date line reads back as the time of day to the microsecond |
| EnvelopeText.SyslogDatagramSays | src/proto/syslog.rs:38-52 | a syslog datagram with a four-digit year: literal texts, the name, the packet, and a stamp whose digits read back as date and time of day |
| EnvelopeText.DecMeans | src/proto/syslog.rs:38-52 | decimal text reads back as its number and has no leading zero |
| EnvelopeText.SipRecognised | src/proto/sip.rs:116-145 | a datagram is taken for SIP if and only if it starts like one of five messages and holds a blank line |
| EnvelopeText.SyslogRecognised | src/proto/syslog.rs:58-73 | a datagram is taken for syslog if and only if the marker follows the prefix within the first 68 bytes |
| EnvelopeText.RtpRecognised | src/proto/sip.rs:457-462 | a datagram is taken for RTP if and only if it has version 2 and payload type 96 |
| Path.StripRaw | src/userspace.rs:1565-1602 | bytes pass the envelope stage untouched if and only if no recogniser claims them |
| Path.QuicUnclaimed | src/userspace.rs:1565-1602 | no QUIC wire image is claimed by the syslog, SIP or RTP recogniser |
| Claims.GutClaimedIff | src/proto/sip.rs:116-145 | a recogniser claims a GUT wire image if and only if its packet number looks like RTP, or packet number and sealed ports spell a SIP or syslog signature and the blank line or marker occurs |
| Loss.TakenForRtp | src/userspace.rs:1597-1602 | every GUT packet whose packet number looks like RTP loses twelve bytes to the RTP branch |
| Loss.SomePacketIsLost | src/userspace.rs:1597-1602 | a key stream under which a WireGuard packet in GUT mode never arrives |
| Path.PlainNameReadable | src/proto/syslog.rs:15-73 | a name of at most 32 bytes without spaces is readable until the end of the year 9999 |
| Path.StripInvertsEnvelope | src/userspace.rs:1559-1602 | every envelope is stripped back to the wire image and its mode detected if and only if the wire image does not itself look like an envelope |
| Path.ClientDelivers | src/userspace.rs:1407-1506 | egress framing followed by client ingress delivers packet and ports for every packet of at least 32 bytes whose GUT header words spell no signature; only the SIP keepalive never arrives |
| Loss.ClientDeliversIff | src/userspace.rs:1559-1602 | a client receives a GUT packet if and only if its header words spell no signature, unless it looks like RTP and carries twelve or more bytes of ballast |
| Loss.MistakenYetDelivered | src/userspace.rs:1597-1602 | why the exception is needed: a packet with fourteen bytes of ballast that is taken for RTP and still arrives unchanged |
| Path.KeepaliveIsProbe | src/userspace.rs:1454-1468 | the 32-byte SIP keepalive is sent as an empty OPTIONS and classified as a probe |
| Path.ServerDelivers | src/userspace.rs:1668-1689 | the same path to a server delivers the packet and detects its mode if and only if the wire image neither looks like an envelope nor passes the QUIC check |
| RoutingLaws.RunInv | src/userspace.rs:1371-1405 | every interleaving of lock acquisitions and critical sections, for any number of threads, keeps the protocol invariant |
| RoutingTheorems.RoutingSafety | src/userspace.rs:1371-1394 | in every run each packet sent is for the client its receiver index names; its host and learned port were the latest source attributed to that client at some time after the packet was taken up, and the wire address is that one if and only if the port is kept |
| RoutingTheorems.WireAddress | src/userspace.rs:1445-1497 | the wire address is the learned one if and only if the mode is not SIP, there is nothing to put in its place, or the chosen port is the same; otherwise it is a configured port of the same host |
| RoutingTheorems.ClientMapIsLatest | src/userspace.rs:1743-1760 | in every run the client map is exactly the latest attributed source of each client |
| RoutingDuties.ArrivalsAreLearned | src/userspace.rs:1729-1760 | whatever the other threads do: once the ingress thread that took in an authenticated packet is idle again, its mode is noted on a server, the source of an initiation is learned, and that of transport data too unless its index had no bridge at some time since |
| RoutingDuties.LocalPacketsAreSent | src/userspace.rs:1371-1405 | once the egress thread that took up an addressed packet is idle again, it has been sent unless the client had no source at some time since |
| RoutingDuties.ResponsesAreBridged | src/userspace.rs:1371-1394 | once it is idle again after a response, the sender index of the response is bridged to its receiver index |
| RoutingDuties.BridgesAreResponses | src/userspace.rs:1371-1394 | in every run a bridge comes from a response taken up with exactly those indices |
| RoutingDuties.ArrivalsAreAuthentic | src/userspace.rs:1668-1740 | in every run the arrivals on record are datagrams of the schedule that authenticate, with their source and detected mode |
| RoutingDuties.InboundFields | src/userspace.rs:1743-1758 | initiations and transport data are told by the low five bits of the first byte; the index stands at 4..8 and must not be zero for an initiation |
| RoutingDuties.OutboundFields | src/userspace.rs:1371-1394 | a response names its client at 8..12 and its session at 4..8, a cookie reply or transport data its client at 4..8 |
| RoutingDuties.StripedPort | src/userspace.rs:1443-1497 | in SIP mode media goes to a port picked by its timestamp among those behind the first, everything else to the first |
| RoutingTheorems.RoutedAddressesHaveModes | src/userspace.rs:1729-1760 | on a server every routed address already has a detected mode |
| RoutingTheorems.RepliesUseDetectedMode | src/userspace.rs:1396-1405 | every reply uses the mode last detected from its destination, never the default |
| RoutingTheorems.ClientsAreIsolated | src/userspace.rs:1371-1394 | with distinct WireGuard indices, a packet only goes to hosts and learned ports used by the client its receiver index belongs to, and to exactly such an address when the port is kept |
| RoutingWitness.RepliesMayCross | src/userspace.rs:1493-1497 | a run with two clients behind one host and distinct indices in which a SIP reply for one goes to an address only the other used |
| RoutingTheorems.TwoLocks | src/userspace.rs:1753-1758 | only ingress ever holds two locks, session before client |
| RoutingTheorems.NoDeadlock | src/userspace.rs:1371-1405 | in every reachable state with a busy thread some busy thread can step |
| RoutingTheorems.Drains | src/userspace.rs:1743-1760 | from every reachable state some continuation leaves every thread idle |
| SharedAddr.LoadInvertsStore | src/userspace.rs:158-216 | a load returns the stored address if and only if it has no flow label or scope |
| SharedAddr.RawAfterStore | src/userspace.rs:218-243 | the raw value of a stored address is its fingerprint |
| SharedAddr.V6Collision | src/userspace.rs:228-243 | two different version 6 addresses share a fingerprint |
| SharedAddr.CollisionIff | src/userspace.rs:218-243 | two addresses share a fingerprint if and only if their words, folded in pairs with the port, are the same |
| SharedAddr.TrackingIsLatest | src/userspace.rs:1363-1369 | compare-and-store refines always-store over a run if and only if the run is collision-free |
| SharedAddr.V4RunsAreLatest | src/userspace.rs:1363-1369 | it does over every run of version 4 sources other than 0.0.0.0:0 |
| SharedAddr.Shared.Store | src/userspace.rs:158-190 | the cells hold the stored form of the address, whatever they held before |
| SharedAddr.Shared.Load | src/userspace.rs:192-216 | the cells are read back as the address, or as unset |
| SharedAddr.Shared.Track | src/userspace.rs:1363-1369 | the cell changes only when the fingerprint differs |
| ChaCha.ChachaBlock | src/proto/mask_balanced.rs:48-81 | the keyed block is the block function of the words read from the key |
| ChaCha.ChachaBlockFast | src/proto/mask_balanced.rs:114-138 | the precomputed block is the same function of the precomputed words |
| ChaCha.KernelBlock | src/bpf/gut_common.h:333-422 | the unrolled in-place block is the same function |
| ChaCha.QuarterVector | src/proto/mask_balanced.rs:29-42 | the quarter round on the vector of section 2.1.1 of RFC 8439 |
| ChaCha.ColumnsAct | src/proto/mask_balanced.rs:48-81 | a column round is the quarter round on each of the four columns |
| ChaCha.DiagonalsAct | src/proto/mask_balanced.rs:48-81 | a diagonal round is the quarter round on each of the four diagonals |
| ChaCha.StartLayout | src/proto/mask_balanced.rs:102-112 | a block starts from the text "expand 32-byte k", the key, counter, nonce and two zeros |
| ChaCha.BlockUnfolds | src/proto/mask_balanced.rs:48-81 | each double round is a column round and then a diagonal round, and the start is added at the end |
| ChaCha.DoubleRoundsAgree | src/bpf/gut_common.h:333-422 | Rust and kernel run the same number of double rounds if and only if the round count is at most 21 |
| Masking.MaskedTwice | src/proto/mask_balanced.rs:8-27 | masking is its own inverse at every length |
| Masking.MaskData | src/proto/mask_balanced.rs:8-27 | the loop, with every block computed from the key, is the pointwise XOR with one key stream |
| Masking.XorKs | src/bpf/gut_common.h:424-449 | word stores and masked byte stores together XOR exactly n bytes, going round the end of the buffer |
| Masking.MaskDataChacha | src/bpf/gut_common.h:488-505 | the bounded loop, with every block computed in place by the callback, masks exactly the first min(length, 9000) bytes |
| Masking.KernelMaskAgrees | src/bpf/gut_common.h:461-505 | kernel and userspace masking agree if and only if the key stream is zero beyond byte 9000 of the packet |
| Masking.BothMaskAlike | src/bpf/gut_common.h:461-505 | with at most 21 rounds kernel and userspace leave the same bytes of every packet of at most 9000 bytes |
| Checksum.OnesIsUnique | src/bpf/gut_common.h:650-657 | the end-around-carry sum is the only 16-bit value congruent modulo 65535 and zero exactly for zero |
| Checksum.FourFoldsSuffice | src/bpf/gut_common.h:650-657 | four conditional folds equal folding until small, for every 64-bit accumulator |
| Checksum.ThreeFoldsFail | src/bpf/gut_common.h:650-657 | three folds are not enough: an accumulator is exhibited |
| Checksum.CsumFold | src/bpf/gut_common.h:650-657 | the result is the complement of the end-around-carry sum |
| Checksum.FixIpv4HeaderChecksum | src/bpf/gut_common.h:659-701 | afterwards the header words sum to 0xFFFF (section 3.1 of RFC 791) and only the checksum field changed |
| Checksum.IcmpChecksum | src/tc/loader.rs:1511-1525 | the result is the complement of the sum of the 16-bit words, odd byte included, in 32-bit arithmetic |
| Checksum.IcmpVerifies | src/tc/loader.rs:1443-1450 | a message whose zeroed field is filled with its checksum sums to 0xFFFF |
| Checksum.ByteOrderIndependent | src/bpf/tc_gut_egress.bpf.c:696-697 | summing native words tests the same header as summing network words (section 2(B) of RFC 1071) |
| Checksum.NativeChecksum | src/bpf/xdp_gut_ingress.bpf.c:863-864 | folding native 32-bit words and storing in native order makes the header sum to 0xFFFF in network order |
| Frames.RewriteHeaders | src/bpf/tc_gut_egress.bpf.c:640-780 | link, IP and UDP headers are rewritten, all else stays, and a version 4 header sums to 0xFFFF |
| Frames.RewrittenReads | src/bpf/tc_gut_egress.bpf.c:640-780 | a readdressed frame parses again, with the new ports and the given payload; its IP length covers the rest of the frame, its link and IP addresses are the given ones, and every other IP header byte is kept |
| Frames.UdpHeaderBytes | src/bpf/tc_gut_egress.bpf.c:640-780 | the order and byte order of the UDP header fields |
| KernelEgress.VerdictOfMessages | src/bpf/tc_gut_egress.bpf.c:158-175 | every WireGuard message of types 1 to 4 is sent, a dropped keepalive shot, and nothing else taken up |
| KernelEgress.KernelWireIsWire | src/bpf/tc_gut_egress.bpf.c:201-383 | for every key stream, packet, role and mode, and whatever either side draws, the kernel emits the bytes of the userspace encoder if and only if it gives the packet no long header |
| KernelEgress.LongImagesReadAlike | src/bpf/gut_common.h:2447-2660 | where both write a long header the images agree on every bit a receiver reads and on everything behind the header |
| KernelHello.ReadAlike | src/bpf/gut_common.h:2447-2660 | two long headers with any fillers agree on the high nibble of byte 0, bytes 1..19, 23..28 and 1199 |
| KernelHello.LengthsDiffer | src/bpf/gut_common.h:2575-2577 | no server name makes the userspace length field say 148, as the kernel always does |
| KernelHello.KernelLongHeader | src/bpf/gut_common.h:2447-2660 | the kernel writer leaves the fields receivers read, a frame and tag sealed over the unprotected header, and a mask drawn from the sealed frame |
| KernelEgress.HeaderLengthsAgree | src/bpf/tc_gut_egress.bpf.c:227-241 | both sides choose the same header length if and only if it is not such an initiation |
| KernelEgress.ServerInitiationDiffers | src/bpf/tc_gut_egress.bpf.c:227-241 | an initiation sent by a server is longer from the kernel by 1184 bytes and already its first byte differs, for every key stream and packet |
| KernelEgress.GutEgress | src/bpf/tc_gut_egress.bpf.c:72-800 | on every plain frame: the verdict, and for a sent frame, with a long header too, the wire image, tunnel ports, outer addresses and MACs, an IP length that covers the frame and a correct IP checksum |
| KernelCodec.KernelOpensWire | src/bpf/xdp_gut_ingress.bpf.c:554-766 | the ingress program opens a userspace wire image to the packet if and only if its ballast is not 64 bytes and the second mask is unaffected by the ballast |
| KernelCodec.FixedSizesSameMask | src/bpf/xdp_gut_ingress.bpf.c:747-755 | with WireGuard's sizes for Types 1 and 2 the second mask is unaffected |
| KernelCodec.OtherSizesMask | src/bpf/xdp_gut_ingress.bpf.c:747-755 | at other sizes it is unaffected only where the key bytes are zero |
| KernelCodec.KernelOpensGut | src/bpf/xdp_gut_ingress.bpf.c:554-766 | in GUT mode every WireGuard packet opens |
| KernelCodec.KernelOpensQuic | src/bpf/xdp_gut_ingress.bpf.c:757-766 | in QUIC mode a WireGuard packet opens if and only if its ballast is below 64 |
| KernelIngress.OpenInOrder | src/bpf/xdp_gut_ingress.bpf.c:554-766 | opening is what the program computes step by step on the frame |
| KernelIngress.GutXdpCore | src/bpf/xdp_gut_ingress.bpf.c:156-899 | a plain frame to one of its ports is delivered exactly when its payload opens, with packet, ports, tunnel or own addresses, MACs and an IP length that covers the frame; the exact bytes of a refused frame are given too |
| KernelTunnel.OpenInvertsSend | src/bpf/xdp_gut_ingress.bpf.c:554-766 | opening what the kernel sends, under any of the three headers, returns packet and ports if and only if the packet survives |
| KernelTunnel.WireGuardSurvives | src/bpf/tc_gut_egress.bpf.c:254-287 | a WireGuard packet survives always in GUT mode, in QUIC mode unless 64 bytes of ballast are drawn |
| KernelTunnel.Tunnel | src/bpf/tc_gut_egress.bpf.c:72-800 | egress followed by ingress restores payload, length and ports of the frame if and only if the packet survives |
| Sha256.PadZerosIsLeast | src/crypto.rs:121-148 | the padding is the shortest that leaves room for the length (section 5.1.1 of FIPS 180-4) |
| Sha256.FoldConcat | src/crypto.rs:81-148 | a fold over whole blocks continues with what follows |
| Sha256.DigestOfOneBlock | src/crypto.rs:121-148 | the digest of up to 55 bytes is one compression of message, 0x80, zeros and the bit length |
| Sha256.InitialState | src/crypto.rs:21-24 | the initial words are the fractional square roots of the first eight primes (section 5.3.3 of FIPS 180-4) |
| Sha256.Sha256.Update | src/crypto.rs:91-119 | after any split of the input the object stands for exactly the concatenation |
| Sha256.Sha256.Finalize | src/crypto.rs:121-148 | the result is the one-shot hash of the padded message while the bit length fits 64 bits |
| Hkdf.HashParts | src/crypto.rs:150-156 | only the concatenation of the updates matters |
| Hkdf.HmacSha256 | src/crypto.rs:158-185 | section 2 of RFC 2104, with long keys hashed first |
| Hkdf.HmacShortKey | src/crypto.rs:158-185 | for every key of at most 64 bytes: the outer hash under the key XOR 0x5C of the inner hash under the key XOR 0x36, both filled up with the pad byte |
| Hkdf.HmacLongKey | src/crypto.rs:158-165 | a longer key stands for its digest |
| Hkdf.BlockMessages | src/crypto.rs:191-212 | T(1) authenticates info and the byte 1, each later T(i) the block before it, info and the byte i |
| Hkdf.OkmAt | src/crypto.rs:191-212 | output byte j is byte j mod 32 of T(j / 32 + 1) |
| Hkdf.HkdfExpand | src/crypto.rs:191-212 | every output buffer holds exactly the first bytes of T(1), T(2), ... (section 2.3 of RFC 5869) |
| Hkdf.OkmPrefix | src/crypto.rs:191-212 | a shorter request gives a prefix of a longer one |
| Gf128.ProductIsLinear | src/crypto.rs:374-394 | multiplication in GF(2^128) distributes over addition in both arguments |
| GfRing.Reduction | src/crypto.rs:384-392 | x^128 is 1 + x + x^2 + x^7 |
| GfRing.MonomialProduct | src/crypto.rs:374-394 | exponents add: x^i times x^j is x^(i+j), reduced |
| GfRing.OneIsNeutral | src/crypto.rs:374-394 | the first bit is one |
| GfRing.ProductCommutes | src/crypto.rs:374-394 | the product commutes |
| GfRing.ProductAssociates | src/crypto.rs:374-394 | the product associates, so the bit strings are a commutative ring |
| GfRing.BlockOfMonomial | src/crypto.rs:374-394 | the first bit of a block is the top bit of its first byte, the last the low bit of its last |
| Gf128.BitsOfShift | src/crypto.rs:384-392 | the byte-wise shift with carry is the shift-and-reduce of the bit string (section 6.3 of NIST SP 800-38D) |
| Gf128.BitsInjective | src/crypto.rs:374-394 | a block is determined by its bit string |
| GfMul.Multiply | src/crypto.rs:374-394 | the byte-wise loop computes the product for all inputs |
| GfMul.FourShifted | src/bpf/gut_common.h:1452-1456 | the word-wise shift is the byte-wise shift |
| GfMul.GfCtx.Step | src/bpf/gut_common.h:1442-1458 | one callback adds the shifted operand when the bit is set and shifts it once |
| GfMul.KernelMultiply | src/bpf/gut_common.h:1462-1512 | four loops over 32-bit words compute the same product for all inputs |
| Ghash.FoldIsPolynomial | src/crypto.rs:396-435 | the iterated hash is the polynomial in H whose coefficients are the blocks |
| Ghash.TimesIsPower | src/crypto.rs:396-435 | each term of that polynomial is a coefficient times a power of H |
| Ghash.FoldIsLinear | src/crypto.rs:396-435 | changing the input by d changes the hash by the hash of d |
| Ghash.ComputeGhash | src/crypto.rs:396-435 | both padded loops and the length block together hash the padded string of section 6.4 |
| Ghash.LastBlockIsLengths | src/bpf/gut_common.h:1564-1570 | the constant block is the length block of 34 and 128 bytes |
| Ghash.GhashUpdate | src/bpf/gut_common.h:1516-1522 | one update folds one more block and leaves block and tag regions alone |
| Ghash.KernelTag | src/bpf/gut_common.h:1538-1577 | the fixed 34/128-byte form leaves the general tag in its scratch region |
| Gcm.CtrInverts | src/crypto.rs:459-472 | encrypting twice under one nonce gives the plaintext |
| Gcm.CountersFreshIff | src/crypto.rs:460-463 | counter blocks are distinct from each other and from J0 if and only if there are at most 2^32 - 1 blocks |
| Gcm.TagFormula | src/crypto.rs:438-484 | the tag is the encrypted block with counter one plus the polynomial over header, ciphertext and bit lengths, all written out |
| Gcm.Encrypt | src/crypto.rs:438-484 | ciphertext by counter mode, tag by GHASH over it, for every length |
| Gcm.KernelSeal | src/bpf/gut_common.h:2607-2630 | the in-place counter loop and the fixed tag leave the ciphertext and tag of the general algorithm |
| Gcm.TagIsUnique | src/bpf/gut_common.h:1574-1577 | the two implementations therefore return the same sixteen bytes |
| Netlink.WalkIsTiling | src/netlink.rs:1204-1236 | the walk returns exactly the items that lie one behind the other in the message, each the slice its own length delimits, until none fits |
| Netlink.WalkInside | src/netlink.rs:1204-1236 | hence what it returns is no longer than the message |
| Netlink.WalkInvertsEncode | src/netlink.rs:76-160 | the walk meets exactly the attributes written, in order, if and only if each fits its 16-bit length |
| Netlink.FitsInside | src/netlink.rs:76-160 | the parts of a nest that fits fit as well |
| Netlink.TreeRoundTrip | src/netlink.rs:76-160 | walking every level recovers the whole nested tree |
| NlBuf.ClosedIsRecord | src/netlink.rs:103-114 | begin, payload, back-patched length and padding make one record |
| NlBuf.Buffer.Align4 | src/netlink.rs:91-95 | zero bytes up to the next multiple of four, none when aligned |
| NlBuf.Buffer.RtaEnd | src/netlink.rs:110-114 | the length is patched at the start and the end padded |
| NlBuf.Buffer.WriteAttr | src/netlink.rs:116-120 | the buffer grows by one record and stays aligned |
| NlBuf.Buffer.WriteStringAttr | src/netlink.rs:122-127 | the same for a string with its terminator |
| NlBuf.Buffer.WriteTree | src/netlink.rs:327-346 | nested begin and end calls write the record of the whole subtree |
| NlBuf.Buffer.FinalizeNlmsg | src/netlink.rs:129-132 | the message length is patched in front |
| Neighbour.BuildNeigh | src/netlink.rs:576-593 | the calls build the permanent-neighbour message |
| Neighbour.NeighBytes | src/netlink.rs:576-593 | the 48 bytes of that message |
| Neighbour.UsableStates | src/netlink.rs:1201-1203 | which single neighbour states are used and which refused |
| Neighbour.ParseNeigh | src/netlink.rs:1172-1242 | the loop returns the last link address exactly when the target occurs among the walked attributes |
| Neighbour.BuiltNeighbourParses | src/netlink.rs:1172-1242 | parsing a built message returns its MAC if and only if address and interface match |
| Neighbour.LengthField | src/netlink.rs:129-132 | the length in front of a message is its own |
| Neighbour.BuildVeth | src/netlink.rs:308-350 | the calls build the nested link message |
| Neighbour.VethBytes | src/netlink.rs:308-350 | its attribute numbers and nesting, written out |
| Neighbour.VethFits | src/netlink.rs:308-350 | its attributes fit if and only if the names have at most 65530 and 65487 bytes |
| Neighbour.VethReadBack | src/netlink.rs:308-350 | both names and the nesting are then recovered |
| Config.ParsePeers | src/config.rs:501-519 | one peer per [peer] block, in order, with the last value of each key; refused if and only if a value is malformed, some block is incomplete or there is none |
| Config.BlocksKeep | src/config.rs:501-519 | later lines leave finished blocks alone |
| Config.Accept | src/config.rs:658-690 | accepted if and only if such peers exist, with distinct names and disjoint ports |
| Ports.Validate | src/config.rs:662-690 | accepts if and only if there is a peer, names are unique and port lists are disjoint across peers |
| Ports.InsertAll | src/config.rs:675-688 | stops exactly when a port was seen before |
| Ports.OwnersExactIff | src/tc/loader.rs:540-558 | every port belongs to exactly the peer that lists it if and only if the lists are disjoint |
| Ports.Dispatcher.RegisterPeer | src/tc/loader.rs:540-558 | succeeds exactly when both maps have room; a full map keeps a prefix of the ports |
| Ports.RegisterAll | src/tc/loader.rs:540-558 | registering all peers succeeds exactly within both capacities, and then every port maps to its owner |
| Ports.DispatcherSeesIngressPort | src/bpf/xdp_dispatcher.bpf.c:60-108 | the dispatcher reads the port of every frame a peer program can parse |
| Ports.DispatchReads | src/bpf/xdp_dispatcher.bpf.c:60-108 | where the UDP header is found, tagged or not, with IP options or not, and nowhere else |
| Ports.DispatchReachesOwner | src/bpf/xdp_dispatcher.bpf.c:108-125 | a frame reaches the one peer that lists its port, or passes on |
| Ports.SentFrameReachesOwner | src/bpf/xdp_dispatcher.bpf.c:60-125 | a frame the egress program sent on a peer's port is handed to that peer's program |
| Config.Deploy | src/tc/loader.rs:540-558 | from configuration lines to dispatch: refused exactly when not acceptable or beyond a map, and otherwise every frame reaches the program of the one block that lists its port |

## Left out

- Sockets, batching, ioctls, neighbour probing, interface setup and program loading: input and output only.
- The AES rounds, key expansion, SHA-256 compression, and the plaintext and keys of the QUIC ClientHello: parameters here, since nothing proved depends on them.
- SIP authentication tokens: sender and checkers hash different strings, so there is no end-to-end statement.
- Weekday names: the Rust and C copies number them differently.
- The kernel's syslog and SIP paths (`GUT_MODE_B64`) beyond base64, dates and masking: the tunnel theorems cover GUT and QUIC. The tail call to the long-header program is taken to succeed.
- VLAN-tagged frames and IP options in the frame theorems: `Frames.PlainFrame` describes the untagged frames they speak about.
- Endpoint learning, session bridging and counters in the kernel maps: the programs are modelled for a static peer; the dynamic protocol is proved for userspace.
- UDP checksums written by the kernel: left to the network card by the source, and opaque bytes here.
- Failing packet helpers (`bpf_skb_change_tail` and the like): taken to succeed.
- Concurrent `SharedAddr::load` during `store`: the fields are separate atomics, so only sequential runs are claimed.
- Lock poisoning and map eviction: not part of the protocol modelled in `Routing`.
- `Path.Egress`, `Syslog.Header` and `Sip.Header` are functions on values; the copying through the output buffers of the egress loop is not modelled.
- The syntax of configuration values: `Config` starts from parsed lines, with malformed ones marked.
- Peers on several interfaces: one dispatcher is modelled, with the capacities of its two maps.
- The dump loop around the neighbour parsers: it only repeats the parse until a message matches.
- Sha256.Sha256.Finalize: stated while the bit length fits 64 bits, as the standard requires.
- KernelEgress.GutEgress: for static peers and plain frames, and the frame sent is described while its UDP length fits 16 bits.
- KernelIngress.GutXdpCore: for static peers and plain frames.
- Loss.ClientDeliversIff: leaves open which RTP look-alikes with 12 to 15 bytes of ballast arrive, since that depends on the key stream; both outcomes occur (`Loss.SomePacketIsLost`, `Loss.MistakenYetDelivered`).
- Path.ClientDelivers: one direction for all modes; the other is `Loss.ClientDeliversIff` for GUT.
- `Path.Strip` takes the bytes of `Base64.Decoded` where a received third character alone is padding; the source shows former contents of its output buffer there (`Base64.DeterminedIffTame`). No writer produces such a group.
- Config.ParsePeers: the error messages are not told apart.
- SipLaws.CheckInvertsHeader: fields must be single lines and addresses free of '=', which configuration lines and printed IP addresses are; a header beyond 1024 bytes makes the writer panic, which `Path.Readable` excludes.
- SipLaws.CheckInvertsBareHeader: the same for a header without body.
- KernelBase64.B64Decode: for an output that starts at least two bytes before the input and does not go round the buffer, as the callers' fixed offsets do.
- KernelBase64.B64Encode: for input in front of output, neither going round the buffer, as the callers' fixed offsets are.
- EnvelopeText.SyslogDatagramSays: for years of four digits; a longer year pushes the end of the line out of the header's fixed length.
- EnvelopeText.SipLengthIsRight: fields must be single lines, as for `SipLaws.CheckInvertsHeader`; media packets have no such line.
- Frames.RewrittenReads: the IP length is stated modulo 65536, as the 16-bit field holds it.
