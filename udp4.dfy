/** UDP datagram assembly over IPv4 (udp4.c): the pseudo-header and checksum
    of RFC 768, the 8-byte header, and the hand-off to send_ipv4. */
module Udp4 {
  import opened Bytes
  import opened Headers
  import opened Checksum
  import opened Link
  import opened Ipv4

  /** udp4_pheader_t: source address, destination address, a zero byte, the
      protocol number UDP_PROTO and the UDP length in network byte order. */
  function PseudoHeader(src: IpAddr, dst: IpAddr, udpLength: u16): (ph: seq<byte>)
    ensures |ph| == 12
    ensures ph[..4] == src && ph[4..8] == dst
    ensures ph[8] == 0 && ph[9] == UDP_PROTO && ReadBE16(ph, 10) == udpLength
  {
    src + dst + [0, UDP_PROTO] + BE16(udpLength)
  }

  /** The number of segment bytes udp4_checksum sums: ntohs(frame->length). */
  function SegmentLength(frame: seq<byte>): u16
    requires |frame| >= 6
  {
    ReadBE16(frame, 4)
  }

  /** The carry-folding loop of udp4_checksum. It stops with a value of at most
      16 bits that keeps the sum's value modulo 0xFFFF. */
  method FoldCarries(sum: u32) returns (r: u32)
    ensures r <= 0xFFFF
    ensures r % 0xFFFF == sum % 0xFFFF
    ensures r == Fold(sum)
  {
    r := sum;
    while r / 0x1_0000 != 0
      invariant Fold(r) == Fold(sum)
      decreases r
    {
      FoldStepShrinks(r);
      r := r % 0x1_0000 + r / 0x1_0000;
    }
  }

  /** udp4_checksum with each complement taken on the 16-bit value, so that the
      two partial sums add without wrapping. The result is checksum16 over the
      pseudo-header followed by the ntohs(frame->length) segment bytes. */
  method Udp4Checksum(frame: seq<byte>, srcIp: IpAddr, dstIp: IpAddr) returns (c: u16)
    requires |frame| >= 6 && SegmentLength(frame) <= |frame|
    ensures c == Checksum16(PseudoHeader(srcIp, dstIp, SegmentLength(frame)) + frame[..SegmentLength(frame)])
  {
    var len := SegmentLength(frame);
    var ph := PseudoHeader(srcIp, dstIp, len);
    var sum: u32 := 0xFFFF - Checksum16(ph);
    sum := sum + (0xFFFF - Checksum16(frame[..len]));
    sum := FoldCarries(sum);
    c := 0xFFFF - sum;
    ChecksumConcat(ph, frame[..len]);
  }

  /** `~x` for the uint16_t that checksum16 returns, stored in a uint32_t: x is
      first promoted to int, so the complement also sets the upper 16 bits. */
  function PromotedNot(x: u16): (r: u32)
    ensures r / 0x1_0000 == 0xFFFF && r % 0x1_0000 == 0xFFFF - x
  {
    0xFFFF_FFFF - x
  }

  /** udp4_checksum as written: both promoted complements are added in 32-bit
      unsigned arithmetic (wrapping modulo 2^32), the carries are folded, and
      `~sum` is truncated to the uint16_t result. */
  function Udp4ChecksumAsWritten(frame: seq<byte>, srcIp: IpAddr, dstIp: IpAddr): u16
    requires |frame| >= 6 && SegmentLength(frame) <= |frame|
  {
    var len := SegmentLength(frame);
    CombineAsWritten(Checksum16(PseudoHeader(srcIp, dstIp, len)), Checksum16(frame[..len]))
  }

  /** Lines 27-33 of udp4_checksum on the two checksum16 results. */
  function CombineAsWritten(c1: u16, c2: u16): u16
  {
    var sum := (PromotedNot(c1) + PromotedNot(c2)) % 0x1_0000_0000;
    (0xFFFF_FFFF - Fold(sum)) % 0x1_0000
  }

  /** The wrap-around of the 32-bit sum drops one end-around carry: the folded
      sum as written is one less, in one's-complement arithmetic, than the
      correct one. So the checksum as written never equals checksum16 over the
      pseudo-header and segment, whatever the addresses and the bytes. */
  lemma PromotedComplementLosesCarry(frame: seq<byte>, srcIp: IpAddr, dstIp: IpAddr)
    requires |frame| >= 6 && SegmentLength(frame) <= |frame|
    ensures Udp4ChecksumAsWritten(frame, srcIp, dstIp)
         != Checksum16(PseudoHeader(srcIp, dstIp, SegmentLength(frame)) + frame[..SegmentLength(frame)])
  {
    var len := SegmentLength(frame);
    var ph := PseudoHeader(srcIp, dstIp, len);
    var seg := frame[..len];
    ChecksumConcat(ph, seg);
    WrappedSumFoldsWrong(Checksum16(ph), Checksum16(seg));
  }

  /** The arithmetic core of `PromotedComplementLosesCarry`: for any two
      checksums, the combination as written differs from the one's-complement
      combination of RFC 1071, section 2. */
  lemma WrappedSumFoldsWrong(c1: u16, c2: u16)
    ensures CombineAsWritten(c1, c2) != 0xFFFF - Fold((0xFFFF - c1) + (0xFFFF - c2))
  {
    var a, b := 0xFFFF - c1, 0xFFFF - c2;
    var sum := (PromotedNot(c1) + PromotedNot(c2)) % 0x1_0000_0000;
    assert sum == 0xFFFE_0000 + a + b by {
      var total := PromotedNot(c1) + PromotedNot(c2);
      assert total == 0x1_0000_0000 + (0xFFFE_0000 + a + b);
      assert total % 0x1_0000_0000 == total - 0x1_0000_0000;
    }
    var f := Fold(sum);
    assert CombineAsWritten(c1, c2) == 0xFFFF - f by {
      assert (0xFFFF_FFFF - f) % 0x1_0000 == 0xFFFF - f;
    }
    if a + b > 0 && f == Fold(a + b) {
      assert (a + b + 0xFFFE) % 0xFFFF == (a + b) % 0xFFFF by {
        assert sum == 0xFFFE * 0xFFFF + (a + b + 0xFFFE);
        ModMultipleAdd(0xFFFE, a + b + 0xFFFE);
      }
      OffByOneResidue(a + b);
      assert false;
    }
  }

  /** Adding 0xFFFE, which is -1 modulo 0xFFFF, always changes the residue. */
  lemma OffByOneResidue(x: nat)
    ensures (x + 0xFFFE) % 0xFFFF != x % 0xFFFF
  {
    var q, r := x / 0xFFFF, x % 0xFFFF;
    if r == 0 {
      assert x + 0xFFFE == q * 0xFFFF + 0xFFFE;
    } else {
      assert x + 0xFFFE == (q + 1) * 0xFFFF + (r - 1);
    }
  }

  /** The value stored in the checksum field. RFC 768 reserves a transmitted 0
      for "no checksum", so a computed 0 is sent as 0xFFFF, the other
      one's-complement representation of zero. */
  function StoredChecksum(c: u16): (s: u16)
    ensures s != 0
    ensures s % 0xFFFF == c % 0xFFFF
  {
    if c == 0 then 0xFFFF else c
  }

  /** The 8-byte UDP header: ports, length and checksum, all big-endian. */
  function UdpHeader(srcPort: u16, dstPort: u16, udpLength: u16, csum: u16): (h: seq<byte>)
    ensures |h| == UDP_HLEN
  {
    BE16(srcPort) + BE16(dstPort) + BE16(udpLength) + BE16(csum)
  }

  /** The segment send_udp4 hands to send_ipv4: the header, whose checksum is
      computed over the pseudo-header and the segment while the checksum field
      is zero, followed by the payload. */
  function Segment(srcIp: IpAddr, dstIp: IpAddr, srcPort: u16, dstPort: u16, payload: seq<byte>): seq<byte>
    requires |payload| + UDP_HLEN < 0x1_0000
  {
    var len := |payload| + UDP_HLEN;
    var zeroed := UdpHeader(srcPort, dstPort, len, 0) + payload;
    UdpHeader(srcPort, dstPort, len, StoredChecksum(Checksum16(PseudoHeader(srcIp, dstIp, len) + zeroed))) + payload
  }

  /** send_udp4: -1 for an over-long payload, otherwise whatever send_ipv4
      does with the segment, protocol UDP_PROTO and the caller's TTL. */
  function SendUdp4Spec(srcMac: MacAddr, srcIp: IpAddr, srcPort: u16,
                        dstMac: MacAddr, dstIp: IpAddr, dstPort: u16,
                        payload: seq<byte>, ttl: byte): Outcome
  {
    if |payload| > UDP4_MAXLEN then Rejected
    else SendIpv4Spec(srcMac, srcIp, dstMac, dstIp, Segment(srcIp, dstIp, srcPort, dstPort, payload), UDP_PROTO, ttl)
  }

  /** Every header field sits at its RFC 768 offset, the length counts the
      header and the payload, the checksum field is never 0, and the payload
      follows the 8-byte header. */
  lemma SegmentLayout(srcIp: IpAddr, dstIp: IpAddr, srcPort: u16, dstPort: u16, payload: seq<byte>)
    requires |payload| + UDP_HLEN < 0x1_0000
    ensures var s := Segment(srcIp, dstIp, srcPort, dstPort, payload);
      && |s| == |payload| + UDP_HLEN
      && ReadBE16(s, 0) == srcPort && ReadBE16(s, 2) == dstPort
      && ReadBE16(s, 4) == |payload| + UDP_HLEN
      && ReadBE16(s, 6) != 0
      && s[UDP_HLEN..] == payload
  {
  }

  /** Receiver check of RFC 768: summing the pseudo-header and the segment as
      sent, stored checksum included, gives all ones (checksum16 gives zero),
      also when a computed 0 was sent as 0xFFFF. */
  lemma SegmentChecksumVerifies(srcIp: IpAddr, dstIp: IpAddr, srcPort: u16, dstPort: u16, payload: seq<byte>)
    requires |payload| + UDP_HLEN < 0x1_0000
    ensures var len := |payload| + UDP_HLEN;
      Fold(WordSum(PseudoHeader(srcIp, dstIp, len) + Segment(srcIp, dstIp, srcPort, dstPort, payload))) == 0xFFFF
  {
    var len := |payload| + UDP_HLEN;
    var ph := PseudoHeader(srcIp, dstIp, len);
    var z := ph + (UdpHeader(srcPort, dstPort, len, 0) + payload);
    var c := Checksum16(z);
    var s := StoredChecksum(c);
    var sent := ph + Segment(srcIp, dstIp, srcPort, dstPort, payload);
    assert sent == z[..18] + BE16(s) + z[20..];
    WordSumPut(z, 18, s);
    var n := WordSum(z);
    var f := Fold(n);
    assert (n + s) % 0xFFFF == 0 by {
      ModAdd(f, 0xFFFF - f, n, s);
    }
    FoldUnique(n + s, 0xFFFF);
  }

  /** A payload within UDP4_MAXLEN always fits send_ipv4's guard, so send_udp4
      rejects exactly the payloads over UDP4_MAXLEN, and otherwise sends one
      IPv4 datagram of protocol UDP_PROTO carrying the segment. */
  lemma SendUdp4Delegates(srcMac: MacAddr, srcIp: IpAddr, srcPort: u16,
                          dstMac: MacAddr, dstIp: IpAddr, dstPort: u16,
                          payload: seq<byte>, ttl: byte)
    ensures var o := SendUdp4Spec(srcMac, srcIp, srcPort, dstMac, dstIp, dstPort, payload, ttl);
      && (o.Rejected? <==> |payload| > UDP4_MAXLEN)
      && (o.Sent? ==>
            && o.frame.bytes == Datagram(srcIp, dstIp, Segment(srcIp, dstIp, srcPort, dstPort, payload), UDP_PROTO, ttl)
            && |o.frame.bytes| == |payload| + UDP_HLEN + IPV4_HLEN
            && o.frame.ethertype == ETH_P_IP)
  {
    if |payload| <= UDP4_MAXLEN {
      var seg := Segment(srcIp, dstIp, srcPort, dstPort, payload);
      SegmentLayout(srcIp, dstIp, srcPort, dstPort, payload);
      SendIpv4Bounds(srcMac, srcIp, dstMac, dstIp, seg, UDP_PROTO, ttl);
    }
  }

  /** send_udp4: checks the length, copies the payload after the 8-byte header
      of a local IP_MAXLEN-byte buffer, writes the ports and the length, zeroes
      the checksum field, computes the checksum, stores it, and passes the
      len + 8 segment bytes to send_ipv4. */
  method SendUdp4(srcMac: MacAddr, srcIp: IpAddr, srcPort: u16,
                  dstMac: MacAddr, dstIp: IpAddr, dstPort: u16,
                  payload: seq<byte>, ttl: byte) returns (o: Outcome)
    ensures o == SendUdp4Spec(srcMac, srcIp, srcPort, dstMac, dstIp, dstPort, payload, ttl)
  {
    if |payload| > UDP4_MAXLEN {
      return Rejected;
    }
    var buffer := new byte[IP_MAXLEN](_ => 0);
    Copy(buffer, UDP_HLEN, payload);
    assert buffer[UDP_HLEN..][..|payload|] == payload;
    var len := |payload| + UDP_HLEN;
    WriteUdpHeader(buffer, srcPort, dstPort, len, 0);
    assert buffer[UDP_HLEN..len] == payload by {
      assert buffer[UDP_HLEN..len] == buffer[UDP_HLEN..][..|payload|];
    }
    assert buffer[..len] == buffer[..UDP_HLEN] + buffer[UDP_HLEN..len];
    var c := Udp4Checksum(buffer[..], srcIp, dstIp);
    var stored := StoredChecksum(c);
    PutChecksum(buffer, stored);
    assert buffer[..UDP_HLEN] == UdpHeader(srcPort, dstPort, len, stored) by {
      assert buffer[..UDP_HLEN] == buffer[..6] + buffer[6..8];
    }
    assert buffer[UDP_HLEN..len] == payload by {
      assert buffer[UDP_HLEN..len] == buffer[UDP_HLEN..][..|payload|];
    }
    assert buffer[..len] == buffer[..UDP_HLEN] + buffer[UDP_HLEN..len];
    assert buffer[..len] == Segment(srcIp, dstIp, srcPort, dstPort, payload);
    o := SendIpv4(srcMac, srcIp, dstMac, dstIp, buffer[..len], UDP_PROTO, ttl);
  }

  /** The header assignments of send_udp4: ports, length and checksum in network order. */
  method WriteUdpHeader(buffer: array<byte>, srcPort: u16, dstPort: u16, len: u16, csum: u16)
    requires buffer.Length >= UDP_HLEN
    modifies buffer
    ensures buffer[..UDP_HLEN] == UdpHeader(srcPort, dstPort, len, csum)
    ensures buffer[UDP_HLEN..] == old(buffer[UDP_HLEN..])
  {
    buffer[0], buffer[1] := srcPort / 0x100, srcPort % 0x100;
    buffer[2], buffer[3] := dstPort / 0x100, dstPort % 0x100;
    buffer[4], buffer[5] := len / 0x100, len % 0x100;
    buffer[6], buffer[7] := csum / 0x100, csum % 0x100;
  }

  /** `frame->checksum = ...`: overwrites only the checksum field of the header. */
  method PutChecksum(buffer: array<byte>, csum: u16)
    requires buffer.Length >= UDP_HLEN
    modifies buffer
    ensures buffer[..6] == old(buffer[..6]) && buffer[6..8] == BE16(csum)
    ensures buffer[UDP_HLEN..] == old(buffer[UDP_HLEN..])
  {
    buffer[6], buffer[7] := csum / 0x100, csum % 0x100;
  }

  /** The checksum field as written stores the computed value unchanged. */
  function StoredChecksumAsWritten(c: u16): u16
  {
    c
  }

  /** The datagram from 0.0.0.0 to 0.0.0.0, source port 0xFFDF, destination
      port 0, no payload: udp4_checksum as written computes 0 for it, and
      udp4.c:53 stores that 0, which RFC 768 reads as "no checksum". The
      corrected send never stores 0 (`StoredChecksum`); for this datagram it
      stores 0xFFFE. */
  lemma ZeroChecksumSentAsZero()
    ensures var ip: IpAddr := [0, 0, 0, 0];
      var zeroed := UdpHeader(0xFFDF, 0, UDP_HLEN, 0);
      && Udp4ChecksumAsWritten(zeroed, ip, ip) == 0
      && StoredChecksumAsWritten(Udp4ChecksumAsWritten(zeroed, ip, ip)) == 0
      && ReadBE16(Segment(ip, ip, 0xFFDF, 0, []), 6) == 0xFFFE
  {
    var ip: IpAddr := [0, 0, 0, 0];
    var zeroed := UdpHeader(0xFFDF, 0, UDP_HLEN, 0);
    var ph := PseudoHeader(ip, ip, UDP_HLEN);
    assert SegmentLength(zeroed) == UDP_HLEN && zeroed[..UDP_HLEN] == zeroed;
    PseudoHeaderWordSum(ip, ip, UDP_HLEN);
    UdpHeaderWordSum(0xFFDF, 0, UDP_HLEN, 0);
    assert Checksum16(ph) == 0xFFE6;
    assert Checksum16(zeroed) == 0x18;
    assert Fold(0xFFFF_0000) == Fold(0xFFFF);
    assert CombineAsWritten(0xFFE6, 0x18) == 0;
    WordSumAppend(ph, zeroed + []);
    assert zeroed + [] == zeroed;
    assert Fold(0x1_0000) == Fold(1);
  }

  /** The datagram from 0.0.0.0 to 0.0.0.0, source port 0xFFDE, destination
      port 0, no payload: its checksum16 over pseudo-header and segment is 0,
      and the corrected send stores 0xFFFF, the other representation of zero. */
  lemma ZeroChecksumSentAsAllOnes()
    ensures var ip: IpAddr := [0, 0, 0, 0];
      var ph := PseudoHeader(ip, ip, UDP_HLEN);
      var zeroed := UdpHeader(0xFFDE, 0, UDP_HLEN, 0);
      && Checksum16(ph + zeroed) == 0
      && ReadBE16(Segment(ip, ip, 0xFFDE, 0, []), 6) == 0xFFFF
  {
    var ip: IpAddr := [0, 0, 0, 0];
    var ph := PseudoHeader(ip, ip, UDP_HLEN);
    var zeroed := UdpHeader(0xFFDE, 0, UDP_HLEN, 0);
    PseudoHeaderWordSum(ip, ip, UDP_HLEN);
    UdpHeaderWordSum(0xFFDE, 0, UDP_HLEN, 0);
    WordSumAppend(ph, zeroed);
    assert zeroed + [] == zeroed;
  }

  /** A big-endian word in front adds its value to the word sum. */
  lemma WordSumOfWord(x: u16, rest: seq<byte>)
    ensures WordSum(BE16(x) + rest) == x + WordSum(rest)
  {
    assert (BE16(x) + rest)[2..] == rest;
  }

  /** The word sum of a UDP header is the sum of its four fields. */
  lemma UdpHeaderWordSum(srcPort: u16, dstPort: u16, udpLength: u16, csum: u16)
    ensures WordSum(UdpHeader(srcPort, dstPort, udpLength, csum)) == srcPort + dstPort + udpLength + csum
  {
    var t := BE16(csum);
    var u := BE16(udpLength) + t;
    var v := BE16(dstPort) + u;
    assert UdpHeader(srcPort, dstPort, udpLength, csum) == BE16(srcPort) + v;
    WordSumOfWord(srcPort, v);
    WordSumOfWord(dstPort, u);
    WordSumOfWord(udpLength, t);
    WordSumOfWord(csum, []);
    assert t + [] == t;
  }

  /** The word sum of the pseudo-header: the four address words, UDP_PROTO
      and the UDP length. */
  lemma PseudoHeaderWordSum(src: IpAddr, dst: IpAddr, udpLength: u16)
    ensures WordSum(PseudoHeader(src, dst, udpLength))
         == ReadBE16(src, 0) + ReadBE16(src, 2) + ReadBE16(dst, 0) + ReadBE16(dst, 2) + UDP_PROTO + udpLength
  {
    var t := BE16(udpLength);
    var u := BE16(UDP_PROTO) + t;
    var v := BE16(ReadBE16(dst, 2)) + u;
    var w := BE16(ReadBE16(dst, 0)) + v;
    BE16ReadBack(src, 0);
    BE16ReadBack(src, 2);
    BE16ReadBack(dst, 0);
    BE16ReadBack(dst, 2);
    assert PseudoHeader(src, dst, udpLength) == BE16(ReadBE16(src, 0)) + (BE16(ReadBE16(src, 2)) + w);
    WordSumOfWord(ReadBE16(src, 0), BE16(ReadBE16(src, 2)) + w);
    WordSumOfWord(ReadBE16(src, 2), w);
    WordSumOfWord(ReadBE16(dst, 0), v);
    WordSumOfWord(ReadBE16(dst, 2), u);
    WordSumOfWord(UDP_PROTO, t);
    WordSumOfWord(udpLength, []);
    assert t + [] == t;
  }
}
