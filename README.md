# Raw-frame ARP, IPv4 and UDP assembly, in Dafny

This project models the part of a small raw-socket networking library that
builds and parses frames. That part does not call the operating system:

- the ARP request and reply builders of arp.c. They fill the 28-byte
  Ethernet/IPv4 packet of RFC 826.
- `arp4_lookup` (arp.c). It broadcasts a request, then waits on a reused
  receive buffer for an ARP frame whose sender protocol address is the
  target, and copies out that frame's sender hardware address.
- `parse_ipv4str` (arp.c), the dotted-quad parser.
- `ipv4_payload`, `ipv4_checksum` and `send_ipv4` (ipv4.c). These write the
  fixed 20-byte header of section 3.1 of RFC 791 into a buffer, checksum it
  and place the payload after it.
- the pseudo-header `udp4_pheader_t`, `udp4_checksum` and `send_udp4`
  (udp4.c). These cover the RFC 768 pseudo-header, the checksum that
  combines two partial sums (section 2 of RFC 1071), the 8-byte UDP header
  and the hand-off to `send_ipv4`.

Modules:

- `Bytes`: the C integer widths (`byte`, `u16`, `u32`), network byte order,
  and `Copy`, a memcpy into an array.
- `Headers`: the header constants. The header files are not part of this
  model, so the values are assumed. IP_MAXLEN is taken to be 1500 and
  UDP4_MAXLEN to be IP_MAXLEN - 28. The proofs use these literal values.
- `Checksum`: an ASSUMED definition of `checksum16`, following section 1 of
  RFC 1071, and its one's-complement theory. checksum.c is not part of this
  model.
- `Link`: addresses, the record of one `send_frame` call (`Emission`), and
  Ethernet II framing.
- `Ipv4`, `Udp4`, `Arp`: the three source files.

How the imperative code is modelled:

- `send_ipv4`, `send_udp4`, `udp4_checksum`'s fold loop, `arp4_lookup` and
  `parse_ipv4str` are methods over arrays. Each is proved against a
  specification function. Lemmas then state what the source promises about
  that function.
- The digit loop nested in `parse_ipv4str` is its own method, `ReadDigits`,
  which the outer loop calls.
- The frame builders and `ipv4_payload`/`ipv4_checksum` are pure expressions
  in the source, so they are functions here.
- `send_frame` is a sink. The model returns the `Emission` it would be handed.
- `recv_frame` and the alarm are a script of `RecvEvent`s: a frame of given
  bytes, a negative error code, or the timer firing before the next check of
  the loop condition.

`arp4_lookup` is modelled as written:

- It tests the ethertype and the ARP sender protocol address in the buffer.
- It does not look at the received length, the opcode or hlen/plen.
- The receive buffer is reused and starts uninitialised, so a short frame
  is judged partly on bytes left over from earlier frames, or on whatever
  the buffer held at the start (`stale`). `Arp.StaleBytesCanMatch` shows
  such a match.
- A receive failure with code -2 returns the same value as a timeout.

The code is followed where it differs from a general description of the
library:

- There is no ARP decoder in the source. The lookup tests only the two
  fields above.
- The IPv4 length check compares the payload length, not payload plus
  header, with the capacity. This is Findings row 1.

## Model

| member | source | states |
|---|---|---|
| Bytes.BE16 | ipv4.c:64-65 | htons: two bytes, most significant first, that read back (ntohs) as the value |
| Bytes.Copy | ipv4.c:72 | memcpy: the copied range holds the source bytes and every other byte is unchanged |
| Checksum.Fold | udp4.c:30-31 | the end-around carry fold ends at most 0xFFFF, keeps the value modulo 0xFFFF, and is zero only for zero |
| Checksum.FoldOfFolds | udp4.c:27-31 | deferred carries: folding two folded partial sums equals folding the whole sum |
| Checksum.ChecksumConcat | udp4.c:27-33 | checksum16 of a concatenation equals the complement of the folded sum of the two parts' complemented checksums |
| Checksum.ChecksumVerifies | ipv4.c:60-70 | a checksum computed while its field is zero, once stored, makes the folded sum all ones and checksum16 zero |
| Link.EthernetFrame | arp.c:116-118 | the frame layout the lookup reads: destination, source, big-endian ethertype at byte 12, payload from byte 14 |
| Ipv4.PayloadOffset | ipv4.c:17-21 | the payload starts at 4*IHL bytes; for IHL under 5 the unsigned offset wraps past 2^32 |
| Ipv4.HeaderChecksum | ipv4.c:23-29 | ipv4_checksum: checksum16 over the first 4*IHL bytes of the packet; what that covers is stated by Ipv4.HeaderChecksumCoversHeader |
| Ipv4.HeaderChecksumCoversHeader | ipv4.c:23-29 | for version byte 0x45 the checksum covers exactly the 20 header bytes and nothing after them |
| Ipv4.Header | ipv4.c:60-69 | the 20 header bytes that the bzero and the field assignments leave, with the given total length and checksum; always 20 bytes long |
| Ipv4.Datagram | ipv4.c:60-72 | the header, checksummed while its checksum field is zero, followed by the payload; its layout and checksum are stated by Ipv4.DatagramLayout and Ipv4.DatagramChecksumVerifies |
| Ipv4.SendIpv4Spec | ipv4.c:51-75 | send_ipv4 with the corrected guard: -1 for a payload over IP_MAXLEN-20, else one send_frame of the datagram with ETH_P_IP; stated by Ipv4.SendIpv4Bounds |
| Ipv4.DatagramLayout | ipv4.c:60-72 | version 0x45, TOS 0, total length len+20, id 0, fragmentation 0x4000, TTL, protocol and addresses at their offsets; the payload follows at ipv4_payload |
| Ipv4.DatagramChecksumVerifies | ipv4.c:60-70 | re-summing the 20 header bytes with the stored checksum gives all ones, so ipv4_checksum of the sent header is 0 |
| Ipv4.SendIpv4Bounds | ipv4.c:59-74 | rejects exactly the payloads that overflow the buffer, accepts IP_MAXLEN-20 bytes, and sends len+20 bytes with ETH_P_IP to the given addresses |
| Ipv4.SendIpv4 | ipv4.c:51-75 | the buffer-filling procedure produces exactly the specified datagram, with every write inside the IP_MAXLEN-byte buffer |
| Ipv4.WriteHeaderFields | ipv4.c:60-69 | the field assignments on a zeroed header give the header with checksum 0 and touch nothing past it |
| Ipv4.SendIpv4AsWritten | ipv4.c:59 | the guard as written rejects only payloads over IP_MAXLEN and then emits len+20 bytes |
| Ipv4.AsWrittenGuardOverflows | ipv4.c:55-72 | for IP_MAXLEN-20 < len <= IP_MAXLEN the guard as written lets a datagram longer than the buffer through |
| Udp4.PseudoHeader | udp4.c:8-25 | 12 bytes: source, destination, a zero byte, UDP_PROTO, the UDP length in network order |
| Udp4.FoldCarries | udp4.c:30-31 | the while loop ends with sum <= 0xFFFF, keeps the sum modulo 0xFFFF, and equals Fold |
| Udp4.Udp4Checksum | udp4.c:16-34 | the combined result equals checksum16 over the pseudo-header followed by ntohs(length) segment bytes |
| Udp4.Udp4ChecksumAsWritten | udp4.c:16-34 | udp4_checksum as written: checksum16 of the pseudo-header and of ntohs(length) segment bytes, combined by CombineAsWritten; stated by Udp4.PromotedComplementLosesCarry |
| Udp4.CombineAsWritten | udp4.c:27-33 | the combination as written: the two promoted complements added with 32-bit wrap-around, folded, complemented and truncated to 16 bits; stated by Udp4.WrappedSumFoldsWrong |
| Udp4.PromotedNot | udp4.c:27-28 | `~` on the promoted 16-bit value sets the upper 16 bits and complements the lower ones |
| Udp4.PromotedComplementLosesCarry | udp4.c:27-33 | as written, the result never equals checksum16 over pseudo-header and segment |
| Udp4.WrappedSumFoldsWrong | udp4.c:27-33 | for any two partial checksums the wrapped 32-bit combination differs from the one's-complement combination |
| Udp4.StoredChecksum | udp4.c:53 | the stored checksum is never 0 and is the same one's-complement value as the computed one |
| Udp4.StoredChecksumAsWritten | udp4.c:53 | as written the computed checksum is stored unchanged, 0 included; Udp4.ZeroChecksumSentAsZero exhibits a 0 |
| Udp4.UdpHeader | udp4.c:48-51 | the 8-byte header: source port, destination port, length and checksum, each big-endian |
| Udp4.Segment | udp4.c:45-53 | the header with the checksum over pseudo-header and zero-checksum segment, then the payload; stated by Udp4.SegmentLayout and Udp4.SegmentChecksumVerifies |
| Udp4.SendUdp4Spec | udp4.c:36-59 | -1 for a payload over UDP4_MAXLEN, else send_ipv4 of the segment with UDP_PROTO; stated by Udp4.SendUdp4Delegates |
| Udp4.SegmentLayout | udp4.c:45-53 | ports and length len+8 big-endian at their offsets, non-zero checksum, payload directly after the 8-byte header |
| Udp4.SegmentChecksumVerifies | udp4.c:51-53 | pseudo-header plus segment as sent sums to all ones, so the receiver check of RFC 768 passes |
| Udp4.SendUdp4Delegates | udp4.c:43-58 | rejects exactly payloads over UDP4_MAXLEN; otherwise sends one IPv4 datagram of protocol UDP_PROTO carrying the len+8 segment |
| Udp4.SendUdp4 | udp4.c:36-59 | the buffer-filling procedure produces the specified segment and hands it to send_ipv4 |
| Udp4.WriteUdpHeader | udp4.c:48-51 | the header assignments write ports, length and checksum big-endian and nothing after the header |
| Udp4.PutChecksum | udp4.c:53 | overwrites only the checksum field |
| Udp4.ZeroChecksumSentAsZero | udp4.c:53 | as written, the segment from 0.0.0.0 to 0.0.0.0 with source port 0xFFDF, destination port 0 and no payload has computed checksum 0 and is stored with checksum 0; the corrected segment for it carries 0xFFFE |
| Udp4.ZeroChecksumSentAsAllOnes | udp4.c:53 | corrected, the segment with source port 0xFFDE, whose one's-complement checksum is 0, is stored with checksum 0xFFFF |
| Udp4.UdpHeaderWordSum | udp4.c:48-51 | the 16-bit word sum of the header is the sum of its four fields |
| Udp4.PseudoHeaderWordSum | udp4.c:21-25 | the 16-bit word sum of the pseudo-header is the sum of the address halves, UDP_PROTO and the length |
| Arp.ArpPacket | arp.c:66-78 | the 28-byte RFC 826 packet layout |
| Arp.SendArp4Request | arp.c:62-81 | htype 1, ptype IPV4_ETHERTYPE, hlen 6, plen 4, opcode ARP_REQUEST, the caller's sender addresses, zero target MAC, target IP; sent to target_macaddr with ARP_ETHERTYPE |
| Arp.SendArp4Reply | arp.c:84-103 | as the request, with opcode ARP_REPLY and target MAC target_macaddr |
| Arp.ReplyDiffersOnlyInOpcodeAndTargetMac | arp.c:94-100 | request and reply from the same arguments differ only in the opcode and the target MAC |
| Arp.Receive | arp.c:130 | recv_frame overwrites the front of the reused buffer and leaves the rest as it was |
| Arp.Matches | arp.c:135-136 | the lookup's test: the ethertype in the buffer is ARP_ETHERTYPE and the ARP sender protocol address is the target |
| Arp.SenderMac | arp.c:137 | the bytes the memcpy copies out: the ARP sender hardware address in the buffer |
| Arp.Wait | arp.c:129-144 | the receive loop on a script of events; what it returns is stated by Arp.WaitOutcome, Arp.WaitStops and Arp.WaitSkips |
| Arp.WaitOutcome | arp.c:129-144 | the event that ends the wait decides it: the timer gives -2, a failed receive its code, a matching frame its length and a MAC; a MAC is returned iff the result is non-negative |
| Arp.WaitStops | arp.c:130-141 | a failure, the timer or a matching frame as the next event ends the wait at once with that event's result |
| Arp.WaitSkips | arp.c:133-142 | a frame that does not match is skipped: the wait continues on the rest of the script with the frame left in the buffer |
| Arp.Lookup | arp.c:113-145 | a failed send returns its code, otherwise the wait decides; stated by Arp.LookupOutcome |
| Arp.LookupOutcome | arp.c:113-145 | a failed send returns its code before any receive; otherwise at least one event is consumed; a MAC is returned iff the result is non-negative |
| Arp.WaitIsFirstStop | arp.c:129-144 | the wait is decided by the first event that is a failure, the timer, or a matching frame; every frame before it is skipped |
| Arp.LongFramesJudgedOnOwnBytes | arp.c:135-136 | a frame long enough to reach the sender addresses matches iff its ethertype is ARP_ETHERTYPE and its sender IP is the target |
| Arp.ReplyResolves | arp.c:135-141 | the target host's ARP reply ends the wait at once with its full length and its hardware address |
| Arp.StaleBytesCanMatch | arp.c:116-141 | a 14-byte frame with no ARP payload matches on stale buffer bytes and yields a MAC that was never received with it |
| Arp.Arp4Lookup | arp.c:113-145 | broadcasts the request; a failed send returns its code; then returns what the wait decides, and target_mac changes only on a match |
| Arp.SkipSpace | arp.c:152 | stops at the first non-whitespace position, every position before it being whitespace |
| Arp.ReadField | arp.c:156-159 | the inner loop reads at most 3 characters and does not run past the string |
| Arp.ReadFieldValue | arp.c:156-159 | reads at most 3 digits, stops at the first non-digit, stores their decimal value modulo 256 |
| Arp.ReadDigits | arp.c:155-159 | the inner loop reads exactly what ReadField specifies |
| Arp.Fields | arp.c:154-167 | the outer loop with the step past the NUL removed; stated by Arp.FieldThenDot, Arp.FieldStops and Arp.FieldsBounds |
| Arp.Parse | arp.c:148-168 | parse_ipv4str: skip whitespace, then Fields from field 0; stated by Arp.ParseBounds, Arp.ParseDottedQuad and Arp.SkipsLeadingWhitespace |
| Arp.FieldsAsWritten | arp.c:154-167 | the outer loop as written, reporting the field read from beyond the NUL; stated by Arp.FieldsAsWrittenBounds and Arp.AsWrittenAgreesInsideString |
| Arp.ParseAsWritten | arp.c:148-168 | parse_ipv4str as written; stated by Arp.ParseBounds and Arp.ShortAddressReadsPastNul |
| Arp.FieldThenDot | arp.c:154-165 | a field ended by '.' before the last is stored and the loop moves on to the next field just after the dot |
| Arp.FieldStops | arp.c:161-167 | a field ended by another character, by the NUL, or the fourth field is stored and the loop stops with IP_ALEN - i, or IP_ALEN - (i+1) when no other character ended it |
| Arp.FieldsBounds | arp.c:154-167 | from field i on the parse returns between 0 and IP_ALEN - i and ip keeps its four bytes |
| Arp.FieldsAsWrittenBounds | arp.c:154-167 | as written, the same bounds where the parse ends inside the string, and the read past the NUL happens at a later field |
| Arp.ParseBounds | arp.c:148-168 | parse_ipv4str returns a value from 0 to IP_ALEN; as written, the read past the NUL happens after the first field |
| Arp.FieldsShift | arp.c:154-167 | the outer loop only looks at the string from where it starts |
| Arp.SkipsLeadingWhitespace | arp.c:152 | leading whitespace does not change the result |
| Arp.ParseDottedQuad | arp.c:148-168 | four bytes in dotted decimal parse back to those bytes with result 0 |
| Arp.AsWrittenAgreesInsideString | arp.c:154-167 | where the parse as written stays inside the string it agrees with the corrected one; where it leaves it, the corrected parse reports the missing fields |
| Arp.ShortAddressReadsPastNul | arp.c:154-164 | "1.2" makes the parse as written read its third field from beyond the NUL |
| Arp.ParseIpv4Str | arp.c:148-168 | the nested loops store the fields into ip and return IP_ALEN minus the field where they stopped, as Parse specifies |

## Left out

- `print_bytearray` and `arp_print` (arp.c:22-59) only write to the console.
- `get_ipv4_addr` (ipv4.c:31-46) is an ioctl on a socket.
- `send_frame` and `recv_frame` (mac.c) are raw-socket I/O. mac.c is not part of this model. Sending is recorded as an `Emission`, and the result of `send_frame` is not modelled. Receiving is a scripted sequence of events.
- `signal`, `alarm` and the volatile `timeout` flag (arp.c:105-110, 126-128, 138-139) are an asynchronous timer. Expiry is a `TimerFired` event, seen when the loop condition is checked. The script must end in a failure or the timer, because the alarm always fires in the end.
- Real time is not modelled: the three-second deadline has no duration here.
- The body of `checksum16` (checksum.c) is replaced by an assumed RFC 1071 definition. Nothing is claimed about its odd-length or byte-order handling.
- Struct packing and the header files arp.h, ipv4.h, udp4.h and mac.h are not part of this model. The RFC byte offsets and assumed constants stand in for them.
- `isspace` and `isdigit` are taken in the C locale, over ASCII.
- A C string is modelled as its characters without the NUL, and the string is assumed to contain no NUL before its end. Reading beyond the NUL is reported as `ReadsPastNul`, not as the bytes found there.
- The bytes of the `send_ipv4` and `send_udp4` buffers past those written are never sent, so they are not modelled. The buffers start zeroed here.
- `send_udp4` passes its result through from `send_ipv4`. Since `send_frame` is a sink, that result is the `Outcome` of the datagram.
- Udp4.Udp4Checksum, Ipv4.SendIpv4, Udp4.SendUdp4 and Arp.ParseIpv4Str model the corrected code of the Findings below. The code as written is modelled by the members named in the "as-written member" column.

## Findings

| source | as written | input that shows it | evidently intended | confidence | as-written member | corrected member |
|---|---|---|---|---|---|---|
| ipv4.c:59 | the guard rejects only payloads longer than IP_MAXLEN, and the header and payload are then written into an IP_MAXLEN-byte buffer | a payload of IP_MAXLEN bytes: 20 bytes are written past the buffer | reject payloads longer than IP_MAXLEN - 20 | not executed | Ipv4.AsWrittenGuardOverflows | Ipv4.SendIpv4 |
| udp4.c:27-28 | `~` is applied to checksum16's 16-bit result after promotion to int, so both addends carry 0xFFFF in the upper half; the 32-bit sum wraps and one end-around carry is lost | any segment and addresses, e.g. an 8-byte segment with zero ports between 0.0.0.0 and 0.0.0.0 | complement in 16 bits, so the result is checksum16 over the pseudo-header followed by the segment | not executed; assumes checksum16 returns uint16_t (checksum.h is not part of this model) | Udp4.PromotedComplementLosesCarry | Udp4.Udp4Checksum |
| udp4.c:53 | a computed checksum of 0 is stored as 0, which RFC 768 reads as "no checksum" | 0.0.0.0 to 0.0.0.0, source port 0xFFDF, destination port 0, no payload: the checksum as written is 0 | store 0xFFFF, the other representation of zero | not executed | Udp4.ZeroChecksumSentAsZero | Udp4.StoredChecksum |
| arp.c:154 | after a field ended by the NUL, `str++` steps past the NUL and the next field is read from memory beyond the string | "1.2" | stop at the NUL and return IP_ALEN minus the number of fields read | not executed | Arp.ShortAddressReadsPastNul | Arp.ParseIpv4Str |
