/** Constants of the headers arp.h, ipv4.h, udp4.h and mac.h, which are not
    part of this model. Their values are ASSUMED: the protocol numbers and
    address lengths are the ones fixed by RFC 826, RFC 791, RFC 768 and the
    Ethernet II framing. IP_MAXLEN is assumed to be 1500, the Ethernet MTU,
    and UDP4_MAXLEN to leave room for the IPv4 and UDP headers within it. */
module Headers {

  /** Length of a hardware (Ethernet) address. */
  const ETH_ALEN: nat := 6
  /** Length of a protocol (IPv4) address. */
  const IP_ALEN: nat := 4

  /** ARP opcodes (RFC 826). */
  const ARP_REQUEST: nat := 1
  const ARP_REPLY: nat := 2

  /** Ethertypes. ETH_P_IP is the Linux name of the IPv4 ethertype. */
  const ARP_ETHERTYPE: nat := 0x0806
  const IPV4_ETHERTYPE: nat := 0x0800
  const ETH_P_IP: nat := 0x0800

  /** ARP hardware type for Ethernet. */
  const ARP_HTYPE_ETHERNET: nat := 1

  /** IP protocol number of UDP. */
  const UDP_PROTO: nat := 17

  /** sizeof(arp_t) for Ethernet/IPv4: 8 fixed bytes and two address pairs. */
  const ARP_LEN: nat := 28
  /** sizeof(macframe_t) without payload: destination, source, ethertype. */
  const ETH_HLEN: nat := 14
  /** sizeof(ipv4_t): the fixed header without options. */
  const IPV4_HLEN: nat := 20
  /** sizeof(udp_t): the fixed UDP header. */
  const UDP_HLEN: nat := 8

  /** Size of the datagram buffers of send_ipv4 and send_udp4 (assumed). */
  const IP_MAXLEN: nat := 1500
  /** Largest UDP payload send_udp4 accepts (assumed). */
  const UDP4_MAXLEN: nat := IP_MAXLEN - IPV4_HLEN - UDP_HLEN

}
