/** The link-layer boundary (mac.h and mac.c, which are not part of this
    model): hardware and protocol addresses, the record of what is handed to
    send_frame, and the Ethernet II framing of received frames. */
module Link {
  import opened Bytes
  import opened Headers

  /** macaddr_t */
  type MacAddr = s: seq<byte> | |s| == ETH_ALEN witness [0, 0, 0, 0, 0, 0]

  /** ipaddr_t */
  type IpAddr = s: seq<byte> | |s| == IP_ALEN witness [0, 0, 0, 0]

  /** broadcast_macaddr: the all-ones hardware address. */
  const BROADCAST: MacAddr := [0xFF, 0xFF, 0xFF, 0xFF, 0xFF, 0xFF]

  /** One call of send_frame(iface, bytes, |bytes|, src, dst, ethertype), as the
      sink records it. Transmission itself, and the value send_frame returns,
      are outside the model. */
  datatype Emission = Emission(bytes: seq<byte>, src: MacAddr, dst: MacAddr, ethertype: u16)

  /** macframe_t on the wire: destination, source, ethertype, then the payload. */
  function EthernetFrame(dst: MacAddr, src: MacAddr, ethertype: u16, payload: seq<byte>): (f: seq<byte>)
    ensures |f| == ETH_HLEN + |payload|
    ensures f[..6] == dst && f[6..12] == src && ReadBE16(f, 12) == ethertype
    ensures f[ETH_HLEN..] == payload
  {
    dst + src + BE16(ethertype) + payload
  }
}
