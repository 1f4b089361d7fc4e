/** IPv4 header assembly (ipv4.c): the fixed 20-byte header of section 3.1 of
    RFC 791, its checksum, and the placement of the payload after it. */
module Ipv4 {
  import opened Bytes
  import opened Headers
  import opened Checksum
  import opened Link

  /** The header-length nibble of the version byte, in 32-bit words. */
  function Ihl(version: byte): nat
  {
    version % 16
  }

  /** ipv4_payload: where the payload starts, counted in bytes from the start of
      the header. The source adds `((version & 0x0F) << 2) - sizeof(ipv4_t)`,
      an `unsigned` quantity, to the address just past the fixed header; for a
      header length under five words that subtraction wraps around 2^32. */
  function PayloadOffset(version: byte): (off: nat)
    ensures Ihl(version) >= 5 ==> off == 4 * Ihl(version)
    ensures Ihl(version) < 5 ==> off == 0x1_0000_0000 + 4 * Ihl(version)
  {
    IPV4_HLEN + (4 * Ihl(version) - IPV4_HLEN) % 0x1_0000_0000
  }

  /** ipv4_checksum: checksum16 over the first 4 * IHL bytes of the packet. */
  function HeaderChecksum(pkg: seq<byte>): (c: u16)
    requires |pkg| >= 1 && |pkg| >= 4 * Ihl(pkg[0])
  {
    Checksum16(pkg[..4 * Ihl(pkg[0])])
  }

  /** For the version byte 0x45 the checksum covers exactly the 20 header
      bytes: it is fixed by them and ignores everything after them. */
  lemma HeaderChecksumCoversHeader(pkg: seq<byte>, other: seq<byte>)
    requires |pkg| >= IPV4_HLEN && pkg[0] == 0x45
    requires |other| >= IPV4_HLEN && other[..IPV4_HLEN] == pkg[..IPV4_HLEN]
    ensures HeaderChecksum(pkg) == Checksum16(pkg[..IPV4_HLEN])
    ensures HeaderChecksum(other) == HeaderChecksum(pkg)
  {
    assert other[0] == other[..IPV4_HLEN][0];
  }

  /** The header send_ipv4 writes: version/IHL 0x45, TOS 0, total length,
      identification 0, flags/fragment offset 0x4000 (don't fragment, offset
      0), TTL, protocol, checksum, source and destination. */
  function Header(totalLen: u16, ttl: byte, proto: byte, src: IpAddr, dst: IpAddr, csum: u16): (h: seq<byte>)
    ensures |h| == IPV4_HLEN
  {
    [0x45, 0] + BE16(totalLen) + [0, 0] + BE16(0x4000) + [ttl, proto] + BE16(csum) + src + dst
  }

  /** The datagram send_ipv4 hands to send_frame: the header, with the
      checksum computed while its field was zero, followed by the payload. */
  function Datagram(src: IpAddr, dst: IpAddr, payload: seq<byte>, proto: byte, ttl: byte): seq<byte>
    requires |payload| + IPV4_HLEN < 0x1_0000
  {
    var len := |payload| + IPV4_HLEN;
    Header(len, ttl, proto, src, dst, Checksum16(Header(len, ttl, proto, src, dst, 0))) + payload
  }

  /** The result of send_ipv4: -1 with nothing sent, or one frame handed to send_frame. */
  datatype Outcome = Rejected | Sent(frame: Emission)

  /** send_ipv4 with the length guard that keeps every write inside the
      IP_MAXLEN-byte buffer (see `SendIpv4AsWritten` for the guard as written). */
  function SendIpv4Spec(srcMac: MacAddr, srcIp: IpAddr, dstMac: MacAddr, dstIp: IpAddr,
                        payload: seq<byte>, proto: byte, ttl: byte): Outcome
  {
    if |payload| > IP_MAXLEN - IPV4_HLEN then Rejected
    else Sent(Emission(Datagram(srcIp, dstIp, payload, proto, ttl), srcMac, dstMac, ETH_P_IP))
  }

  /** Every field of the datagram sits at its RFC 791 offset, and the payload
      starts where ipv4_payload says it does. */
  lemma DatagramLayout(src: IpAddr, dst: IpAddr, payload: seq<byte>, proto: byte, ttl: byte)
    requires |payload| + IPV4_HLEN < 0x1_0000
    ensures var d := Datagram(src, dst, payload, proto, ttl);
      && |d| == |payload| + IPV4_HLEN
      && d[0] == 0x45 && d[1] == 0
      && ReadBE16(d, 2) == |payload| + IPV4_HLEN
      && ReadBE16(d, 4) == 0
      && ReadBE16(d, 6) == 0x4000
      && d[8] == ttl && d[9] == proto
      && d[12..16] == src && d[16..20] == dst
      && PayloadOffset(d[0]) == IPV4_HLEN
      && d[PayloadOffset(d[0])..] == payload
  {
  }

  /** Header self-check: re-summing the 20 stored header bytes, checksum
      included, gives all ones, so a receiver's checksum16 over them is zero. */
  lemma DatagramChecksumVerifies(src: IpAddr, dst: IpAddr, payload: seq<byte>, proto: byte, ttl: byte)
    requires |payload| + IPV4_HLEN < 0x1_0000
    ensures var d := Datagram(src, dst, payload, proto, ttl);
      && Fold(WordSum(d[..IPV4_HLEN])) == 0xFFFF
      && HeaderChecksum(d) == 0
  {
    var len := |payload| + IPV4_HLEN;
    var h0 := Header(len, ttl, proto, src, dst, 0);
    var c := Checksum16(h0);
    var d := Datagram(src, dst, payload, proto, ttl);
    assert d[..IPV4_HLEN] == h0[..10] + BE16(c) + h0[12..];
    ChecksumVerifies(h0, 10);
  }

  /** send_ipv4 rejects exactly the payloads that do not fit after the header
      in its buffer, accepts IP_MAXLEN - 20 bytes, and what it sends is
      len + 20 bytes long and addressed as asked, with ethertype ETH_P_IP. */
  lemma SendIpv4Bounds(srcMac: MacAddr, srcIp: IpAddr, dstMac: MacAddr, dstIp: IpAddr,
                       payload: seq<byte>, proto: byte, ttl: byte)
    ensures var o := SendIpv4Spec(srcMac, srcIp, dstMac, dstIp, payload, proto, ttl);
      && (o.Rejected? <==> |payload| + IPV4_HLEN > IP_MAXLEN)
      && (o.Sent? ==> |o.frame.bytes| == |payload| + IPV4_HLEN <= IP_MAXLEN
                      && o.frame.src == srcMac && o.frame.dst == dstMac
                      && o.frame.ethertype == ETH_P_IP)
  {
    if |payload| + IPV4_HLEN <= IP_MAXLEN {
      DatagramLayout(srcIp, dstIp, payload, proto, ttl);
    }
  }

  /** send_ipv4: checks the length, fills a local IP_MAXLEN-byte buffer field by
      field, checksums the header while its checksum field is zero, copies the
      payload to ipv4_payload(pkg) and hands len + 20 bytes to send_frame. Every
      array access is bounds-checked, so this is also the proof that no write
      leaves the buffer. */
  method SendIpv4(srcMac: MacAddr, srcIp: IpAddr, dstMac: MacAddr, dstIp: IpAddr,
                  payload: seq<byte>, proto: byte, ttl: byte) returns (o: Outcome)
    ensures o == SendIpv4Spec(srcMac, srcIp, dstMac, dstIp, payload, proto, ttl)
    ensures o.Sent? ==> |o.frame.bytes| <= IP_MAXLEN
  {
    if |payload| > IP_MAXLEN - IPV4_HLEN {
      return Rejected;
    }
    // A fresh buffer: its header part is what bzero(pkg, sizeof(ipv4_t)) clears.
    var buffer := new byte[IP_MAXLEN](_ => 0);
    var len := |payload| + IPV4_HLEN;
    WriteHeaderFields(buffer, len, ttl, proto, srcIp, dstIp);
    var csum := HeaderChecksum(buffer[..]);
    buffer[10], buffer[11] := csum / 0x100, csum % 0x100;
    assert buffer[..IPV4_HLEN] == Header(len, ttl, proto, srcIp, dstIp, csum) by {
      assert Header(len, ttl, proto, srcIp, dstIp, csum)
          == Header(len, ttl, proto, srcIp, dstIp, 0)[..10] + BE16(csum)
             + Header(len, ttl, proto, srcIp, dstIp, 0)[12..];
    }
    Copy(buffer, PayloadOffset(buffer[0]), payload);
    assert buffer[..len] == Datagram(srcIp, dstIp, payload, proto, ttl);
    o := Sent(Emission(buffer[..len], srcMac, dstMac, ETH_P_IP));
  }

  /** The field assignments of send_ipv4 on a zeroed header, before the checksum. */
  method WriteHeaderFields(buffer: array<byte>, len: u16, ttl: byte, proto: byte, src: IpAddr, dst: IpAddr)
    requires buffer.Length >= IPV4_HLEN
    requires forall i :: 0 <= i < IPV4_HLEN ==> buffer[i] == 0
    modifies buffer
    ensures buffer[..IPV4_HLEN] == Header(len, ttl, proto, src, dst, 0)
    ensures buffer[IPV4_HLEN..] == old(buffer[IPV4_HLEN..])
  {
    var h := Header(len, ttl, proto, src, dst, 0);
    buffer[0] := 0x45;
    buffer[2], buffer[3] := len / 0x100, len % 0x100;
    buffer[6], buffer[7] := 0x40, 0x00;
    buffer[8] := ttl;
    buffer[9] := proto;
    assert buffer[..12] == h[..12];
    Copy(buffer, 12, src);
    assert buffer[..16] == h[..16];
    Copy(buffer, 16, dst);
    assert buffer[..IPV4_HLEN] == h;
  }

  /** send_ipv4 with the guard of ipv4.c as written, `len > IP_MAXLEN`: it
      admits payloads of up to IP_MAXLEN bytes, and then writes len + 20 bytes. */
  function SendIpv4AsWritten(srcMac: MacAddr, srcIp: IpAddr, dstMac: MacAddr, dstIp: IpAddr,
                             payload: seq<byte>, proto: byte, ttl: byte): (o: Outcome)
    ensures o.Rejected? <==> |payload| > IP_MAXLEN
    ensures o.Sent? ==> |o.frame.bytes| == |payload| + IPV4_HLEN
  {
    if |payload| > IP_MAXLEN then Rejected
    else Sent(Emission(Datagram(srcIp, dstIp, payload, proto, ttl), srcMac, dstMac, ETH_P_IP))
  }

  /** The guard as written lets through payloads whose datagram does not fit in
      the IP_MAXLEN-byte buffer: with IP_MAXLEN payload bytes, 20 bytes land past
      its end. The corrected guard rejects that payload. */
  lemma AsWrittenGuardOverflows(srcMac: MacAddr, srcIp: IpAddr, dstMac: MacAddr, dstIp: IpAddr,
                                payload: seq<byte>, proto: byte, ttl: byte)
    requires IP_MAXLEN - IPV4_HLEN < |payload| <= IP_MAXLEN
    ensures var o := SendIpv4AsWritten(srcMac, srcIp, dstMac, dstIp, payload, proto, ttl);
      o.Sent? && |o.frame.bytes| > IP_MAXLEN
    ensures SendIpv4Spec(srcMac, srcIp, dstMac, dstIp, payload, proto, ttl).Rejected?
  {
  }
}
