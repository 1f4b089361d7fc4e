/** ARP over Ethernet/IPv4 (arp.c): the request and reply builders of the
    packet format of RFC 826, the resolution loop of arp4_lookup, and the
    dotted-quad parser parse_ipv4str. */
module Arp {
  import opened Bytes
  import opened Headers
  import opened Link

  datatype Option<T> = None | Some(value: T)

  // ---------------------------------------------------------------------
  // Frame builders

  /** arp_t for Ethernet/IPv4: hardware type, protocol type, the two address
      lengths, the opcode, then sender and target hardware and protocol
      addresses. */
  function ArpPacket(op: u16, sha: MacAddr, spa: IpAddr, tha: MacAddr, tpa: IpAddr): (p: seq<byte>)
    ensures |p| == ARP_LEN
  {
    BE16(ARP_HTYPE_ETHERNET) + BE16(IPV4_ETHERTYPE) + [ETH_ALEN, IP_ALEN] + BE16(op) + sha + spa + tha + tpa
  }

  /** The unknown target hardware address of a request. */
  const UNKNOWN_MAC: MacAddr := [0, 0, 0, 0, 0, 0]

  /** send_arp4_request: the frame handed to send_frame. The target hardware
      address is zero, the link-layer destination is `targetMac`. */
  function SendArp4Request(srcMac: MacAddr, srcIp: IpAddr, targetMac: MacAddr, targetIp: IpAddr): (e: Emission)
    ensures |e.bytes| == ARP_LEN
    ensures ReadBE16(e.bytes, 0) == ARP_HTYPE_ETHERNET && ReadBE16(e.bytes, 2) == IPV4_ETHERTYPE
    ensures e.bytes[4] == ETH_ALEN && e.bytes[5] == IP_ALEN
    ensures ReadBE16(e.bytes, 6) == ARP_REQUEST
    ensures e.bytes[8..14] == srcMac && e.bytes[14..18] == srcIp
    ensures e.bytes[18..24] == Zeros(ETH_ALEN) && e.bytes[24..28] == targetIp
    ensures e.src == srcMac && e.dst == targetMac && e.ethertype == ARP_ETHERTYPE
  {
    Emission(ArpPacket(ARP_REQUEST, srcMac, srcIp, UNKNOWN_MAC, targetIp), srcMac, targetMac, ARP_ETHERTYPE)
  }

  /** send_arp4_reply: as the request, but with opcode ARP_REPLY and the target
      hardware address filled in. */
  function SendArp4Reply(srcMac: MacAddr, srcIp: IpAddr, targetMac: MacAddr, targetIp: IpAddr): (e: Emission)
    ensures |e.bytes| == ARP_LEN
    ensures ReadBE16(e.bytes, 6) == ARP_REPLY
    ensures e.bytes[8..14] == srcMac && e.bytes[14..18] == srcIp
    ensures e.bytes[18..24] == targetMac && e.bytes[24..28] == targetIp
    ensures e.src == srcMac && e.dst == targetMac && e.ethertype == ARP_ETHERTYPE
  {
    Emission(ArpPacket(ARP_REPLY, srcMac, srcIp, targetMac, targetIp), srcMac, targetMac, ARP_ETHERTYPE)
  }

  /** A reply and a request built from the same arguments differ only in the
      low byte of the opcode and in the target hardware address. */
  lemma ReplyDiffersOnlyInOpcodeAndTargetMac(srcMac: MacAddr, srcIp: IpAddr, targetMac: MacAddr, targetIp: IpAddr)
    ensures var rq := SendArp4Request(srcMac, srcIp, targetMac, targetIp);
      var rp := SendArp4Reply(srcMac, srcIp, targetMac, targetIp);
      && |rp.bytes| == |rq.bytes|
      && (forall k :: 0 <= k < ARP_LEN && k != 7 && !(18 <= k < 24) ==> rp.bytes[k] == rq.bytes[k])
      && rq.bytes[7] == ARP_REQUEST && rp.bytes[7] == ARP_REPLY
      && rp.bytes[18..24] == targetMac
      && rp.src == rq.src && rp.dst == rq.dst && rp.ethertype == rq.ethertype
  {
    var rq := SendArp4Request(srcMac, srcIp, targetMac, targetIp);
    var rp := SendArp4Reply(srcMac, srcIp, targetMac, targetIp);
    assert rq.bytes[..18] == rp.bytes[..18][7 := ARP_REQUEST];
    assert rq.bytes[24..] == rp.bytes[24..];
    forall k | 0 <= k < ARP_LEN && k != 7 && !(18 <= k < 24)
      ensures rp.bytes[k] == rq.bytes[k]
    {
      if k < 18 {
        assert rq.bytes[k] == rq.bytes[..18][k];
        assert rp.bytes[k] == rp.bytes[..18][k];
      } else {
        assert rq.bytes[k] == rq.bytes[24..][k - 24];
        assert rp.bytes[k] == rp.bytes[24..][k - 24];
      }
    }
  }

  // ---------------------------------------------------------------------
  // Resolution loop

  /** The receive buffer of arp4_lookup: sizeof(macframe_t) + sizeof(arp_t). */
  const RECV_LEN: nat := ETH_HLEN + ARP_LEN

  /** Where the ARP sender addresses lie in a received Ethernet frame. */
  const SHA_AT: nat := ETH_HLEN + 8
  const SPA_AT: nat := ETH_HLEN + 14

  /** One scripted outcome of the wait for a reply. `Received(data)`:
      recv_frame returned |data| and wrote `data` to the front of the buffer.
      `RecvFailed(code)`: recv_frame returned the negative `code`.
      `TimerFired`: the alarm set the timeout flag before the loop condition
      was next checked. */
  datatype RecvEvent = Received(data: seq<byte>) | RecvFailed(code: int) | TimerFired

  predicate WellFormed(e: RecvEvent)
  {
    match e
    case Received(d) => |d| <= RECV_LEN
    case RecvFailed(c) => c < 0
    case TimerFired => true
  }

  /** A finite script of receive outcomes that ends in a failure or in the
      timer: the alarm set by arp4_lookup always fires in the end. */
  predicate Script(events: seq<RecvEvent>)
  {
    && |events| > 0
    && !events[|events| - 1].Received?
    && forall i :: 0 <= i < |events| ==> WellFormed(events[i])
  }

  /** recv_frame into the reused buffer: the received bytes overwrite its front
      and the rest keeps what was there before. */
  function Receive(buf: seq<byte>, data: seq<byte>): (b: seq<byte>)
    requires |buf| == RECV_LEN && |data| <= RECV_LEN
    ensures |b| == RECV_LEN && b[..|data|] == data && b[|data|..] == buf[|data|..]
  {
    data + buf[|data|..]
  }

  /** The test of arp4_lookup on the buffer: the Ethernet type is
      ARP_ETHERTYPE and the ARP sender protocol address is the target. The
      received length, the opcode and hlen/plen are not looked at. */
  predicate Matches(buf: seq<byte>, target: IpAddr)
    requires |buf| == RECV_LEN
  {
    ReadBE16(buf, 12) == ARP_ETHERTYPE && buf[SPA_AT..SPA_AT + IP_ALEN] == target
  }

  /** The ARP sender hardware address in the buffer. */
  function SenderMac(buf: seq<byte>): MacAddr
    requires |buf| == RECV_LEN
  {
    buf[SHA_AT..SHA_AT + ETH_ALEN]
  }

  /** What arp4_lookup returns, the hardware address it copies out (if any),
      and how many scripted events it consumed. */
  datatype LookupResult = LookupResult(ret: int, mac: Option<MacAddr>, consumed: nat)

  /** How the event that ends the wait, received into buffer `b` as the n-th
      event, decides the result. */
  function Final(e: RecvEvent, b: seq<byte>, n: nat): LookupResult
    requires |b| == RECV_LEN
  {
    match e
    case TimerFired => LookupResult(-2, None, n)
    case RecvFailed(c) => LookupResult(c, None, n)
    case Received(d) => LookupResult(|d|, Some(SenderMac(b)), n)
  }

  /** The `while(!timeout)` loop of arp4_lookup on a script of events. */
  function Wait(buf: seq<byte>, target: IpAddr, events: seq<RecvEvent>): (r: LookupResult)
    requires |buf| == RECV_LEN && Script(events)
    decreases |events|
  {
    match events[0]
    case TimerFired => Final(events[0], buf, 1)
    case RecvFailed(_) => Final(events[0], buf, 1)
    case Received(d) =>
      var b := Receive(buf, d);
      if Matches(b, target) then Final(events[0], b, 1)
      else
        assert WellFormed(events[|events| - 1]);
        var r := Wait(b, target, events[1..]);
        r.(consumed := r.consumed + 1)
  }

  /** arp4_lookup: a failed send of the request ends it before anything is
      received; otherwise the wait decides. `stale` is what the uninitialised
      receive buffer holds at the start. */
  function Lookup(sendResult: int, stale: seq<byte>, target: IpAddr, events: seq<RecvEvent>): LookupResult
    requires |stale| == RECV_LEN && Script(events)
  {
    if sendResult < 0 then LookupResult(sendResult, None, 0) else Wait(stale, target, events)
  }

  /** The event that ends the wait decides the result: the timer gives -2, a
      receive failure its own negative code, a matching frame its length and
      its sender hardware address. */
  lemma {:induction false} WaitOutcome(buf: seq<byte>, target: IpAddr, events: seq<RecvEvent>)
    requires |buf| == RECV_LEN && Script(events)
    ensures var r := Wait(buf, target, events);
      && 1 <= r.consumed <= |events|
      && var e := events[r.consumed - 1];
      && (e.TimerFired? ==> r.ret == -2 && r.mac.None?)
      && (e.RecvFailed? ==> r.ret == e.code && r.mac.None?)
      && (e.Received? ==> r.ret == |e.data| && r.mac.Some?)
      && (r.mac.Some? <==> r.ret >= 0)
    decreases |events|
  {
    assert WellFormed(events[0]);
    if events[0].Received? {
      var b := Receive(buf, events[0].data);
      if !Matches(b, target) {
        assert WellFormed(events[|events| - 1]);
        var rest := events[1..];
        WaitOutcome(b, target, rest);
        var r := Wait(b, target, rest);
        assert rest[r.consumed - 1] == events[r.consumed];
        assert WellFormed(events[r.consumed]);
      }
    }
  }

  /** arp4_lookup returns a non-negative value exactly when it copies out a
      hardware address; a failed send returns its code before any receive. */
  lemma LookupOutcome(sendResult: int, stale: seq<byte>, target: IpAddr, events: seq<RecvEvent>)
    requires |stale| == RECV_LEN && Script(events)
    ensures var r := Lookup(sendResult, stale, target, events);
      && (sendResult < 0 ==> r.ret == sendResult && r.mac.None? && r.consumed == 0)
      && (sendResult >= 0 ==> 1 <= r.consumed <= |events|)
      && (r.mac.Some? <==> r.ret >= 0)
  {
    if sendResult >= 0 {
      WaitOutcome(stale, target, events);
    }
  }

  /** The buffer after the first `n` events. */
  function BufferAfter(buf: seq<byte>, events: seq<RecvEvent>, n: nat): (b: seq<byte>)
    requires |buf| == RECV_LEN && n <= |events|
    requires forall i :: 0 <= i < |events| ==> WellFormed(events[i])
    ensures |b| == RECV_LEN
    decreases n
  {
    if n == 0 then buf
    else
      var b := BufferAfter(buf, events, n - 1);
      match events[n - 1]
      case Received(d) => Receive(b, d)
      case _ => b
  }

  /** Receiving the first event and then the next `n` is receiving `n + 1`. */
  lemma {:induction false} BufferAfterShift(buf: seq<byte>, events: seq<RecvEvent>, n: nat)
    requires |buf| == RECV_LEN && 0 < |events| && n < |events|
    requires forall i :: 0 <= i < |events| ==> WellFormed(events[i])
    requires events[0].Received? && |events[0].data| <= RECV_LEN
    ensures BufferAfter(Receive(buf, events[0].data), events[1..], n) == BufferAfter(buf, events, n + 1)
    decreases n
  {
    assert WellFormed(events[0]);
    if n > 0 {
      BufferAfterShift(buf, events, n - 1);
      assert events[1..][n - 1] == events[n];
    }
  }

  /** Reference characterisation of the wait: the result is decided by the
      first event that is not the reception of a non-matching frame; every
      frame before it is skipped, and `consumed` counts up to and including it. */
  lemma {:induction false} WaitIsFirstStop(buf: seq<byte>, target: IpAddr, events: seq<RecvEvent>, k: nat)
    requires |buf| == RECV_LEN && Script(events) && k < |events|
    requires forall j :: 0 <= j < k ==>
      events[j].Received? && !Matches(BufferAfter(buf, events, j + 1), target)
    requires events[k].Received? ==> Matches(BufferAfter(buf, events, k + 1), target)
    ensures Wait(buf, target, events) == Final(events[k], BufferAfter(buf, events, k + 1), k + 1)
    decreases k
  {
    assert WellFormed(events[0]);
    if k > 0 {
      var e := events[0];
      assert e.Received? && !Matches(BufferAfter(buf, events, 1), target);
      var b := Receive(buf, e.data);
      assert BufferAfter(buf, events, 1) == b;
      var rest := events[1..];
      assert Script(rest) by { assert WellFormed(events[|events| - 1]); }
      forall j | 0 <= j < k - 1
        ensures rest[j].Received? && !Matches(BufferAfter(b, rest, j + 1), target)
      {
        BufferAfterShift(buf, events, j + 1);
        assert rest[j] == events[j + 1];
      }
      BufferAfterShift(buf, events, k);
      assert rest[k - 1] == events[k];
      WaitIsFirstStop(b, target, rest, k - 1);
    }
  }

  /** A frame long enough to hold the ARP sender addresses is judged on its own
      bytes alone: whatever the buffer held before does not matter. Frames of
      another ethertype, or from another sender address, do not end the wait. */
  lemma LongFramesJudgedOnOwnBytes(buf: seq<byte>, data: seq<byte>, target: IpAddr)
    requires |buf| == RECV_LEN && SPA_AT + IP_ALEN <= |data| <= RECV_LEN
    ensures Matches(Receive(buf, data), target)
        <==> ReadBE16(data, 12) == ARP_ETHERTYPE && data[SPA_AT..SPA_AT + IP_ALEN] == target
    ensures SenderMac(Receive(buf, data)) == data[SHA_AT..SHA_AT + ETH_ALEN]
  {
    var b := Receive(buf, data);
    assert b[..|data|] == data;
    assert b[SPA_AT..SPA_AT + IP_ALEN] == data[SPA_AT..SPA_AT + IP_ALEN];
    assert b[SHA_AT..SHA_AT + ETH_ALEN] == data[SHA_AT..SHA_AT + ETH_ALEN];
  }

  /** The reply the target host sends with send_arp4_reply ends the wait at
      once: the lookup returns the full frame length and copies out the
      target host's hardware address. */
  lemma ReplyResolves(buf: seq<byte>, hostMac: MacAddr, hostIp: IpAddr, ourMac: MacAddr, ourIp: IpAddr,
                      events: seq<RecvEvent>)
    requires |buf| == RECV_LEN && Script(events)
    requires var e := SendArp4Reply(hostMac, hostIp, ourMac, ourIp);
      events[0] == Received(EthernetFrame(e.dst, e.src, e.ethertype, e.bytes))
    ensures Wait(buf, hostIp, events) == LookupResult(RECV_LEN, Some(hostMac), 1)
  {
    var e := SendArp4Reply(hostMac, hostIp, ourMac, ourIp);
    var f := EthernetFrame(e.dst, e.src, e.ethertype, e.bytes);
    assert f[ETH_HLEN..] == e.bytes;
    assert f[SPA_AT..SPA_AT + IP_ALEN] == e.bytes[14..18];
    assert f[SHA_AT..SHA_AT + ETH_ALEN] == e.bytes[8..14];
    LongFramesJudgedOnOwnBytes(buf, f, hostIp);
  }

  /** Because the received length is ignored, a short frame of type
      ARP_ETHERTYPE is matched against bytes left in the buffer from before:
      here a 14-byte frame carrying no ARP payload at all resolves the target
      to a hardware address that was never received with it. */
  lemma StaleBytesCanMatch(target: IpAddr, ghostMac: MacAddr)
    ensures var stale := Zeros(SHA_AT) + ghostMac + target + Zeros(RECV_LEN - SPA_AT - IP_ALEN);
      var header := Zeros(12) + BE16(ARP_ETHERTYPE);
      Wait(stale, target, [Received(header), TimerFired]) == LookupResult(ETH_HLEN, Some(ghostMac), 1)
  {
    var stale := Zeros(SHA_AT) + ghostMac + target + Zeros(RECV_LEN - SPA_AT - IP_ALEN);
    var header := Zeros(12) + BE16(ARP_ETHERTYPE);
    var b := Receive(stale, header);
    assert b[12..14] == header[12..14];
    assert b[SPA_AT..SPA_AT + IP_ALEN] == stale[SPA_AT..SPA_AT + IP_ALEN] == target;
    assert b[SHA_AT..SHA_AT + ETH_ALEN] == stale[SHA_AT..SHA_AT + ETH_ALEN] == ghostMac;
  }

  /** How the first event ends the wait, when it does. */
  lemma WaitStops(buf: seq<byte>, target: IpAddr, events: seq<RecvEvent>)
    requires |buf| == RECV_LEN && Script(events)
    ensures events[0].TimerFired? ==> Wait(buf, target, events) == LookupResult(-2, None, 1)
    ensures events[0].RecvFailed? ==> Wait(buf, target, events) == LookupResult(events[0].code, None, 1)
    ensures events[0].Received? && |events[0].data| <= RECV_LEN && Matches(Receive(buf, events[0].data), target) ==>
      Wait(buf, target, events)
        == LookupResult(|events[0].data|, Some(SenderMac(Receive(buf, events[0].data))), 1)
  {
  }

  /** One turn of the wait on a frame that does not match: the rest of the
      script decides, on the buffer as that frame left it. */
  lemma WaitSkips(buf: seq<byte>, target: IpAddr, events: seq<RecvEvent>)
    requires |buf| == RECV_LEN && Script(events)
    requires events[0].Received? && |events[0].data| <= RECV_LEN
    requires !Matches(Receive(buf, events[0].data), target)
    ensures |events| > 1 && Script(events[1..])
    ensures var r := Wait(Receive(buf, events[0].data), target, events[1..]);
      Wait(buf, target, events) == r.(consumed := r.consumed + 1)
  {
    assert WellFormed(events[|events| - 1]);
  }

  /** arp4_lookup: broadcasts the request, then runs the receive loop over the
      scripted events with a reused buffer, copying the sender hardware address
      of the first matching frame to `targetMac`. On a failed send, a receive
      failure or the timer nothing is copied. */
  method Arp4Lookup(srcIp: IpAddr, srcMac: MacAddr, targetIp: IpAddr, targetMac: array<byte>,
                    sendResult: int, stale: seq<byte>, events: seq<RecvEvent>)
    returns (ret: int, request: Emission, consumed: nat)
    requires targetMac.Length == ETH_ALEN && |stale| == RECV_LEN && Script(events)
    modifies targetMac
    ensures request == SendArp4Request(srcMac, srcIp, BROADCAST, targetIp)
    ensures var r := Lookup(sendResult, stale, targetIp, events);
      && ret == r.ret && consumed == r.consumed
      && targetMac[..] == (if r.mac.Some? then r.mac.value else old(targetMac[..]))
  {
    request := SendArp4Request(srcMac, srcIp, BROADCAST, targetIp);
    if sendResult < 0 {
      return sendResult, request, 0;
    }
    var buffer := new byte[RECV_LEN](i requires 0 <= i < RECV_LEN => stale[i]);
    assert buffer[..] == stale;
    var i := 0;
    var timeout := events[0].TimerFired?;
    while !timeout
      invariant 0 <= i < |events|
      invariant timeout == events[i].TimerFired?
      invariant Script(events[i..])
      invariant var r := Wait(buffer[..], targetIp, events[i..]);
        Wait(stale, targetIp, events) == r.(consumed := r.consumed + i)
      invariant targetMac[..] == old(targetMac[..])
      decreases |events| - i
    {
      ghost var rest := events[i..];
      assert rest[0] == events[i];
      WaitStops(buffer[..], targetIp, rest);
      match events[i]
      case RecvFailed(code) =>
        return code, request, i + 1;
      case Received(data) =>
        assert WellFormed(rest[0]);
        ghost var before := buffer[..];
        Copy(buffer, 0, data);
        assert buffer[..] == Receive(before, data);
        if Matches(buffer[..], targetIp) {
          Copy(targetMac, 0, buffer[SHA_AT..SHA_AT + ETH_ALEN]);
          return |data|, request, i + 1;
        }
        WaitSkips(before, targetIp, rest);
        assert rest[1..] == events[i + 1..];
        ghost var r1 := Wait(buffer[..], targetIp, rest[1..]);
        assert Wait(before, targetIp, rest) == r1.(consumed := r1.consumed + 1);
        i := i + 1;
        timeout := events[i].TimerFired?;
    }
    WaitStops(buffer[..], targetIp, events[i..]);
    return -2, request, i + 1;
  }

  // ---------------------------------------------------------------------
  // Dotted-quad parser

  /** isspace in the C locale. */
  predicate IsSpace(c: char)
  {
    c == ' ' || 9 <= c as int <= 13
  }

  /** isdigit. */
  predicate IsDigit(c: char)
  {
    '0' <= c <= '9'
  }

  function DigitValue(c: char): nat
    requires IsDigit(c)
  {
    c as int - '0' as int
  }

  /** The decimal value of a string of digits. */
  function DecimalValue(ds: string): nat
    requires forall i :: 0 <= i < |ds| ==> IsDigit(ds[i])
  {
    if |ds| == 0 then 0 else DecimalValue(ds[..|ds| - 1]) * 10 + DigitValue(ds[|ds| - 1])
  }

  /** The leading-whitespace loop: the first position at or after `p` that is
      not whitespace (the terminating NUL is not whitespace). */
  function SkipSpace(s: string, p: nat): (q: nat)
    requires p <= |s|
    ensures p <= q <= |s|
    ensures forall j :: p <= j < q ==> IsSpace(s[j])
    ensures q == |s| || !IsSpace(s[q])
    decreases |s| - p
  {
    if p < |s| && IsSpace(s[p]) then SkipSpace(s, p + 1) else p
  }

  /** The inner loop: while fewer than 3 digits were read and the next
      character is a digit, `k *= 10; k += *str - '0'` in the uint8_t `k`.
      Returns where it stopped and `k`. */
  function ReadField(s: string, p: nat, j: nat, k: byte): (r: (nat, byte))
    requires p <= |s| && j <= 3
    ensures p <= r.0 <= |s| && r.0 - p <= 3 - j
    decreases 3 - j
  {
    if j < 3 && p < |s| && IsDigit(s[p]) then
      var k1 := (k * 10) % 0x100;
      ReadField(s, p + 1, j + 1, (k1 + DigitValue(s[p])) % 0x100)
    else (p, k)
  }

  /** What parse_ipv4str returns and what `ip` holds afterwards. */
  datatype ParseResult = ParseResult(ret: int, ip: seq<byte>)

  /** The outer loop from field `i` on, reading at `p`, with the loop stopped
      at the terminating NUL (the corrected behaviour; see `FieldsAsWritten`). */
  function Fields(s: string, p: nat, i: nat, ip: seq<byte>): ParseResult
    requires p <= |s| && i < IP_ALEN && |ip| == IP_ALEN
    decreases IP_ALEN - i
  {
    var (q, k) := ReadField(s, p, 0, 0);
    var ip' := ip[i := k];
    if q < |s| && s[q] != '.' then ParseResult(IP_ALEN - i, ip')
    else if i + 1 == IP_ALEN then ParseResult(0, ip')
    else if q == |s| then ParseResult(IP_ALEN - (i + 1), ip')
    else Fields(s, q + 1, i + 1, ip')
  }

  /** parse_ipv4str on the C string `s` followed by its NUL, with `ip` holding
      `ip0` beforehand. */
  function Parse(s: string, ip0: seq<byte>): ParseResult
    requires |ip0| == IP_ALEN
  {
    Fields(s, SkipSpace(s, 0), 0, ip0)
  }

  /** The outer loop as written: after a field ended by the NUL, `str++` steps
      past the NUL, and the next field is read from beyond the string. */
  datatype ParseAsWrittenResult = Done(result: ParseResult) | ReadsPastNul(field: nat)

  function FieldsAsWritten(s: string, p: nat, i: nat, ip: seq<byte>): ParseAsWrittenResult
    requires p <= |s| && i < IP_ALEN && |ip| == IP_ALEN
    decreases IP_ALEN - i
  {
    var (q, k) := ReadField(s, p, 0, 0);
    var ip' := ip[i := k];
    if q < |s| && s[q] != '.' then Done(ParseResult(IP_ALEN - i, ip'))
    else if i + 1 == IP_ALEN then Done(ParseResult(0, ip'))
    else if q == |s| then ReadsPastNul(i + 1)
    else FieldsAsWritten(s, q + 1, i + 1, ip')
  }

  function ParseAsWritten(s: string, ip0: seq<byte>): ParseAsWrittenResult
    requires |ip0| == IP_ALEN
  {
    FieldsAsWritten(s, SkipSpace(s, 0), 0, ip0)
  }

  /** From field `i` on, the loop returns between 0 and the number of fields
      left, and `ip` keeps its four bytes. */
  lemma {:induction false} FieldsBounds(s: string, p: nat, i: nat, ip: seq<byte>)
    requires p <= |s| && i < IP_ALEN && |ip| == IP_ALEN
    ensures var r := Fields(s, p, i, ip);
      0 <= r.ret <= IP_ALEN - i && |r.ip| == IP_ALEN
    decreases IP_ALEN - i
  {
    var (q, k) := ReadField(s, p, 0, 0);
    if q < |s| && s[q] == '.' && i + 1 < IP_ALEN {
      FieldsBounds(s, q + 1, i + 1, ip[i := k]);
    }
  }

  /** The same bounds for the loop as written, where it ends inside the
      string; the read past the NUL happens at a field after `i`. */
  lemma {:induction false} FieldsAsWrittenBounds(s: string, p: nat, i: nat, ip: seq<byte>)
    requires p <= |s| && i < IP_ALEN && |ip| == IP_ALEN
    ensures var w := FieldsAsWritten(s, p, i, ip);
      && (w.Done? ==> 0 <= w.result.ret <= IP_ALEN - i && |w.result.ip| == IP_ALEN)
      && (w.ReadsPastNul? ==> i < w.field < IP_ALEN)
    decreases IP_ALEN - i
  {
    var (q, k) := ReadField(s, p, 0, 0);
    if q < |s| && s[q] == '.' && i + 1 < IP_ALEN {
      FieldsAsWrittenBounds(s, q + 1, i + 1, ip[i := k]);
    }
  }

  /** parse_ipv4str returns a value from 0 to IP_ALEN; as written, the read
      past the NUL happens after the first field. */
  lemma ParseBounds(s: string, ip0: seq<byte>)
    requires |ip0| == IP_ALEN
    ensures var r := Parse(s, ip0); 0 <= r.ret <= IP_ALEN && |r.ip| == IP_ALEN
    ensures var w := ParseAsWritten(s, ip0);
      && (w.Done? ==> 0 <= w.result.ret <= IP_ALEN)
      && (w.ReadsPastNul? ==> 0 < w.field < IP_ALEN)
  {
    FieldsBounds(s, SkipSpace(s, 0), 0, ip0);
    FieldsAsWrittenBounds(s, SkipSpace(s, 0), 0, ip0);
  }

  /** Where the parse as written stays inside the string, it agrees with the
      corrected parse; it departs from it exactly when a NUL ends a field
      before the fourth, and the corrected parse then reports the fields that
      are missing. */
  lemma {:induction false} AsWrittenAgreesInsideString(s: string, p: nat, i: nat, ip: seq<byte>)
    requires p <= |s| && i < IP_ALEN && |ip| == IP_ALEN
    ensures var w := FieldsAsWritten(s, p, i, ip);
      var c := Fields(s, p, i, ip);
      && (w.Done? ==> w.result == c)
      && (w.ReadsPastNul? ==> 0 < c.ret == IP_ALEN - w.field)
    decreases IP_ALEN - i
  {
    var (q, k) := ReadField(s, p, 0, 0);
    if !(q < |s| && s[q] != '.') && i + 1 < IP_ALEN && q < |s| {
      AsWrittenAgreesInsideString(s, q + 1, i + 1, ip[i := k]);
    }
  }

  /** "1.2": after the second field the NUL ends it, `str++` moves past the
      NUL, and the third field is read from outside the string. The corrected
      parse stops there and reports two fields missing. */
  lemma ShortAddressReadsPastNul(ip0: seq<byte>)
    requires |ip0| == IP_ALEN
    ensures ParseAsWritten("1.2", ip0) == ReadsPastNul(2)
    ensures Parse("1.2", ip0) == ParseResult(2, ip0[0 := 1][1 := 2])
  {
    var s := "1.2";
    assert SkipSpace(s, 0) == 0;
    assert ReadField(s, 0, 0, 0) == (1, 1) by {
      assert ReadField(s, 1, 1, 1) == (1, 1);
    }
    assert ReadField(s, 2, 0, 0) == (3, 2) by {
      assert ReadField(s, 3, 1, 2) == (3, 2);
    }
  }

  /** The digits of a byte in decimal, without leading zeros. */
  function Dec(x: byte): (ds: string)
    ensures 1 <= |ds| <= 3
    ensures forall i :: 0 <= i < |ds| ==> IsDigit(ds[i])
  {
    if x < 10 then [Digit(x)]
    else if x < 100 then [Digit(x / 10), Digit(x % 10)]
    else [Digit(x / 100), Digit(x / 10 % 10), Digit(x % 10)]
  }

  function Digit(d: nat): (c: char)
    requires d < 10
    ensures IsDigit(c) && DigitValue(c) == d
  {
    ('0' as int + d) as char
  }

  /** The decimal digits of a byte are read back as that byte. */
  lemma DecValue(x: byte)
    ensures DecimalValue(Dec(x)) == x
  {
    if x < 10 {
      AppendDigit([], Digit(x));
    } else if x < 100 {
      AppendDigit([], Digit(x / 10));
      AppendDigit([Digit(x / 10)], Digit(x % 10));
    } else {
      AppendDigit([], Digit(x / 100));
      AppendDigit([Digit(x / 100)], Digit(x / 10 % 10));
      AppendDigit([Digit(x / 100), Digit(x / 10 % 10)], Digit(x % 10));
      assert [Digit(x / 100)] + [Digit(x / 10 % 10)] == [Digit(x / 100), Digit(x / 10 % 10)];
      assert Dec(x) == [Digit(x / 100), Digit(x / 10 % 10)] + [Digit(x % 10)];
      assert x / 100 * 10 + x / 10 % 10 == x / 10;
    }
  }

  /** Appending a digit multiplies the value by ten and adds the digit. */
  lemma AppendDigit(ds: string, c: char)
    requires forall i :: 0 <= i < |ds| ==> IsDigit(ds[i])
    requires IsDigit(c)
    ensures DecimalValue(ds + [c]) == DecimalValue(ds) * 10 + DigitValue(c)
  {
    assert (ds + [c])[..|ds|] == ds;
  }

  /** The inner loop reads at most three digits, stops at the first
      non-digit, and stores their decimal value modulo 256. */
  lemma ReadFieldValue(s: string, p: nat)
    requires p <= |s|
    ensures var (q, k) := ReadField(s, p, 0, 0);
      && q - p <= 3
      && (forall m :: p <= m < q ==> IsDigit(s[m]))
      && (q - p == 3 || q == |s| || !IsDigit(s[q]))
      && k == DecimalValue(s[p..q]) % 0x100
  {
    ReadFieldFrom(s, p, 0, 0);
  }

  /** The inner loop from its `j`-th step: `k` holds the value of the `j`
      digits read so far, modulo 256. */
  lemma {:induction false} ReadFieldFrom(s: string, p0: nat, j: nat, k: byte)
    requires j <= 3 && p0 + j <= |s|
    requires forall m :: p0 <= m < p0 + j ==> IsDigit(s[m])
    requires k == DecimalValue(s[p0..p0 + j]) % 0x100
    ensures var (q, k') := ReadField(s, p0 + j, j, k);
      && p0 + j <= q && q - p0 <= 3
      && (forall m :: p0 <= m < q ==> IsDigit(s[m]))
      && (q - p0 == 3 || q == |s| || !IsDigit(s[q]))
      && k' == DecimalValue(s[p0..q]) % 0x100
    decreases 3 - j
  {
    var p := p0 + j;
    if j < 3 && p < |s| && IsDigit(s[p]) {
      var d := DigitValue(s[p]);
      var v := DecimalValue(s[p0..p]);
      assert s[p0..p + 1][..j] == s[p0..p];
      assert DecimalValue(s[p0..p + 1]) == v * 10 + d;
      Mod256Step(v, d);
      ReadFieldFrom(s, p0, j + 1, ((k * 10) % 0x100 + d) % 0x100);
    }
  }

  /** One step of `k *= 10; k += digit` in a uint8_t keeps `k` equal to the
      decimal value read so far, modulo 256. */
  lemma Mod256Step(v: nat, d: nat)
    ensures (((v % 0x100) * 10) % 0x100 + d) % 0x100 == (v * 10 + d) % 0x100
  {
    var q, r := v / 0x100, v % 0x100;
    var a1, a0 := (10 * r) / 0x100, (10 * r) % 0x100;
    assert v * 10 + d == 0x100 * (10 * q + a1) + (a0 + d);
    ModShift256(10 * q + a1, a0 + d);
  }

  /** Adding a multiple of 256 does not change the value modulo 256. */
  lemma ModShift256(k: nat, x: nat)
    ensures (0x100 * k + x) % 0x100 == x % 0x100
  {
    assert 0x100 * k + x == 0x100 * (k + x / 0x100) + x % 0x100;
  }

  lemma ReadDec(s: string, p: nat, x: byte)
    requires p + |Dec(x)| <= |s| && s[p..p + |Dec(x)|] == Dec(x)
    requires p + |Dec(x)| == |s| || !IsDigit(s[p + |Dec(x)|])
    ensures ReadField(s, p, 0, 0) == (p + |Dec(x)|, x)
  {
    var n := |Dec(x)|;
    forall m | p <= m < p + n
      ensures IsDigit(s[m])
    {
      assert s[m] == s[p..p + n][m - p];
    }
    ReadFieldValue(s, p);
    assert ReadField(s, p, 0, 0).0 == p + n;
    DecValue(x);
  }

  /** A field ended by '.' before the last: the outer loop stores it and moves
      on to the next field just after the dot. */
  lemma FieldThenDot(s: string, p: nat, i: nat, ip: seq<byte>, q: nat, k: byte)
    requires p <= |s| && i + 1 < IP_ALEN && |ip| == IP_ALEN
    requires ReadField(s, p, 0, 0) == (q, k) && q < |s| && s[q] == '.'
    ensures Fields(s, p, i, ip) == Fields(s, q + 1, i + 1, ip[i := k])
  {
  }

  /** A field not ended by '.', or the last field: the outer loop stores it and
      stops, returning the number of fields from this one on when a character
      other than '.' ends it, and the number after it otherwise. */
  lemma FieldStops(s: string, p: nat, i: nat, ip: seq<byte>, q: nat, k: byte)
    requires p <= |s| && i < IP_ALEN && |ip| == IP_ALEN
    requires ReadField(s, p, 0, 0) == (q, k) && !(q < |s| && s[q] == '.' && i + 1 < IP_ALEN)
    ensures Fields(s, p, i, ip) ==
      ParseResult(if q < |s| && s[q] != '.' then IP_ALEN - i else IP_ALEN - (i + 1), ip[i := k])
  {
  }

  /** The last field `Dotted([x])`, ended by the NUL: the parse stores `x` and
      returns 0. */
  lemma LastField(s: string, p: nat, ip: seq<byte>, xs: seq<byte>)
    requires p <= |s| && |ip| == IP_ALEN && |xs| == 1 && s[p..] == Dotted(xs)
    ensures Fields(s, p, IP_ALEN - 1, ip) == ParseResult(0, ip[..IP_ALEN - 1] + xs)
  {
    assert s[p..p + |Dec(xs[0])|] == s[p..];
    ReadDec(s, p, xs[0]);
    assert ip[IP_ALEN - 1 := xs[0]] == ip[..IP_ALEN - 1] + xs;
  }

  /** The bytes `xs` written in decimal without leading zeros and joined by dots. */
  function Dotted(xs: seq<byte>): (s: string)
    requires |xs| > 0
    ensures |s| > 0 && s[0] == Dec(xs[0])[0]
    decreases |xs|
  {
    if |xs| == 1 then Dec(xs[0]) else Dec(xs[0]) + "." + Dotted(xs[1..])
  }

  /** From field `i` on, the remaining fields written as `Dotted(xs)` are stored
      in order and the loop ends with 0. */
  lemma {:induction false} FieldsOfDotted(s: string, p: nat, i: nat, ip: seq<byte>, xs: seq<byte>)
    requires p <= |s| && i < IP_ALEN && |ip| == IP_ALEN
    requires |xs| == IP_ALEN - i && s[p..] == Dotted(xs)
    ensures Fields(s, p, i, ip) == ParseResult(0, ip[..i] + xs)
    decreases IP_ALEN - i
  {
    if |xs| == 1 {
      LastField(s, p, ip, xs);
    } else {
      var p' := NextDotted(s, p, i, ip, xs);
      FieldsOfDotted(s, p', i + 1, ip[i := xs[0]], xs[1..]);
      StorePrefix(ip, i, xs);
    }
  }

  /** The first of several dotted fields: the outer loop stores it and goes on
      at the start of the others. */
  lemma NextDotted(s: string, p: nat, i: nat, ip: seq<byte>, xs: seq<byte>) returns (p': nat)
    requires p <= |s| && i + 1 < IP_ALEN && |ip| == IP_ALEN
    requires |xs| == IP_ALEN - i && s[p..] == Dotted(xs)
    ensures p' <= |s| && s[p'..] == Dotted(xs[1..])
    ensures Fields(s, p, i, ip) == Fields(s, p', i + 1, ip[i := xs[0]])
  {
    p' := SplitDotted(s, p, xs);
    FieldThenDot(s, p, i, ip, p' - 1, xs[0]);
  }

  /** The first field of `Dotted(xs)` is read as `xs[0]` and ended by a dot,
      after which the others start. */
  lemma SplitDotted(s: string, p: nat, xs: seq<byte>) returns (p': nat)
    requires p <= |s| && |xs| > 1 && s[p..] == Dotted(xs)
    ensures 0 < p' <= |s| && s[p'..] == Dotted(xs[1..])
    ensures ReadField(s, p, 0, 0) == (p' - 1, xs[0]) && s[p' - 1] == '.'
  {
    var x, rest := xs[0], Dotted(xs[1..]);
    var n := |Dec(x)|;
    assert s[p..] == Dec(x) + "." + rest;
    assert s[p..][..n] == Dec(x) && s[p..][n] == '.';
    assert s[p..p + n] == s[p..][..n];
    assert s[p + n] == s[p..][n];
    ReadDec(s, p, x);
    p' := p + n + 1;
    assert s[p'..] == s[p..][n + 1..];
  }

  /** Storing the first of `xs` at `i` and then the rest after it gives the
      first `i` entries followed by `xs`. */
  lemma StorePrefix(ip: seq<byte>, i: nat, xs: seq<byte>)
    requires i < |ip| && |xs| > 0
    ensures ip[i := xs[0]][..i + 1] + xs[1..] == ip[..i] + xs
  {
    assert ip[i := xs[0]][..i + 1] == ip[..i] + [xs[0]];
    assert xs == [xs[0]] + xs[1..];
  }

  /** Round trip: four bytes in dotted-decimal notation, without leading
      zeros, parse back to exactly those four bytes with result 0, whatever
      `ip` held before. */
  lemma ParseDottedQuad(xs: seq<byte>, ip0: seq<byte>)
    requires |xs| == IP_ALEN && |ip0| == IP_ALEN
    ensures Parse(Dotted(xs), ip0) == ParseResult(0, xs)
  {
    var s := Dotted(xs);
    assert SkipSpace(s, 0) == 0;
    assert s[0..] == s;
    FieldsOfDotted(s, 0, 0, ip0, xs);
    assert ip0[..0] + xs == xs;
  }

  /** The inner loop only looks at the string from where it starts. */
  lemma {:induction false} ReadFieldShift(t: string, p: nat, d: nat, j: nat, k: byte)
    requires d <= p <= |t| && j <= 3
    ensures ReadField(t, p, j, k).0 == ReadField(t[d..], p - d, j, k).0 + d
    ensures ReadField(t, p, j, k).1 == ReadField(t[d..], p - d, j, k).1
    decreases 3 - j
  {
    if j < 3 && p < |t| && IsDigit(t[p]) {
      assert t[d..][p - d] == t[p];
      ReadFieldShift(t, p + 1, d, j + 1, ((k * 10) % 0x100 + DigitValue(t[p])) % 0x100);
    }
  }

  /** The outer loop only looks at the string from where it starts. */
  lemma {:induction false} FieldsShift(t: string, p: nat, d: nat, i: nat, ip: seq<byte>)
    requires d <= p <= |t| && i < IP_ALEN && |ip| == IP_ALEN
    ensures Fields(t, p, i, ip) == Fields(t[d..], p - d, i, ip)
    decreases IP_ALEN - i
  {
    var q, k := FieldShift(t, p, d);
    if q < |t| && t[q] == '.' && i + 1 < IP_ALEN {
      FieldsShift(t, q + 1, d, i + 1, ip[i := k]);
    }
    FieldsAgree(t, p, t[d..], p - d, i, ip);
  }

  /** One field read at `p` and at `p - d` in `t[d..]`: the same value, and the
      same character after it. */
  lemma FieldShift(t: string, p: nat, d: nat) returns (q: nat, k: byte)
    requires d <= p <= |t|
    ensures (q, k) == ReadField(t, p, 0, 0) && d <= q <= |t|
    ensures ReadField(t[d..], p - d, 0, 0) == (q - d, k)
    ensures q < |t| ==> t[d..][q - d] == t[q]
  {
    ReadFieldShift(t, p, d, 0, 0);
    q, k := ReadField(t, p, 0, 0).0, ReadField(t, p, 0, 0).1;
  }

  /** Two places where the inner loop reads the same field and stops at the
      same character give the same parse when the rest of the two parses
      agree. */
  lemma FieldsAgree(s1: string, p1: nat, s2: string, p2: nat, i: nat, ip: seq<byte>)
    requires p1 <= |s1| && p2 <= |s2| && i < IP_ALEN && |ip| == IP_ALEN
    requires var r1, r2 := ReadField(s1, p1, 0, 0), ReadField(s2, p2, 0, 0);
      && r1.1 == r2.1
      && (r1.0 < |s1| <==> r2.0 < |s2|)
      && (r1.0 < |s1| ==> s1[r1.0] == s2[r2.0])
      && (r1.0 < |s1| && s1[r1.0] == '.' && i + 1 < IP_ALEN ==>
            Fields(s1, r1.0 + 1, i + 1, ip[i := r1.1]) == Fields(s2, r2.0 + 1, i + 1, ip[i := r1.1]))
    ensures Fields(s1, p1, i, ip) == Fields(s2, p2, i, ip)
  {
  }

  /** Leading whitespace is skipped: it does not change what is parsed. */
  lemma SkipsLeadingWhitespace(w: string, s: string, ip0: seq<byte>)
    requires |ip0| == IP_ALEN
    requires forall j :: 0 <= j < |w| ==> IsSpace(w[j])
    requires |s| == 0 || !IsSpace(s[0])
    ensures Parse(w + s, ip0) == Parse(s, ip0)
  {
    var t := w + s;
    assert SkipSpace(t, 0) == |w| by {
      assert forall j :: 0 <= j < |w| ==> t[j] == w[j];
      assert |s| > 0 ==> t[|w|] == s[0];
    }
    assert SkipSpace(s, 0) == 0;
    assert t[|w|..] == s;
    FieldsShift(t, |w|, |w|, 0, ip0);
  }

  /** The inner loop of parse_ipv4str: reads at most three digits from `p` into
      the uint8_t `k`. */
  method ReadDigits(s: string, p0: nat) returns (p: nat, k: byte)
    requires p0 <= |s|
    ensures (p, k) == ReadField(s, p0, 0, 0)
  {
    p, k := p0, 0;
    var j := 0;
    while j < 3 && p < |s| && IsDigit(s[p])
      invariant 0 <= j <= 3 && p0 <= p <= |s|
      invariant ReadField(s, p, j, k) == ReadField(s, p0, 0, 0)
    {
      k := (k * 10) % 0x100;
      k := (k + DigitValue(s[p])) % 0x100;
      j, p := j + 1, p + 1;
    }
  }

  /** parse_ipv4str, with the step past the NUL removed: skips leading
      whitespace, then reads up to four fields of at most three digits into
      `ip`, and returns IP_ALEN minus the number of the field at which it
      stopped (0 after four fields). */
  method ParseIpv4Str(ip: array<byte>, s: string) returns (ret: int)
    requires ip.Length == IP_ALEN
    requires forall j :: 0 <= j < |s| ==> s[j] != '\0'
    modifies ip
    ensures var r := Parse(s, old(ip[..])); ret == r.ret && ip[..] == r.ip
  {
    ghost var r := Parse(s, old(ip[..]));
    var p: nat := 0;
    while p < |s| && IsSpace(s[p])
      invariant p <= |s| && SkipSpace(s, p) == SkipSpace(s, 0)
    {
      p := p + 1;
    }
    ghost var cur := ip[..];
    assert Fields(s, p, 0, cur) == r;
    var i := 0;
    while i < IP_ALEN
      invariant 0 <= i <= IP_ALEN && p <= |s| && ip[..] == cur
      invariant i < IP_ALEN ==> Fields(s, p, i, cur) == r
      invariant i == IP_ALEN ==> r == ParseResult(0, cur)
      decreases IP_ALEN - i
    {
      ghost var p0, ip0 := p, cur;
      var k;
      p, k := ReadDigits(s, p);
      ip[i] := k;
      cur := cur[i := k];
      if p < |s| && s[p] != '.' {
        FieldStops(s, p0, i, ip0, p, k);
        ret := IP_ALEN - i;
        return;
      }
      if p == |s| {
        // The NUL ends the string: stop here instead of stepping past it.
        FieldStops(s, p0, i, ip0, p, k);
        ret := IP_ALEN - (i + 1);
        return;
      }
      if i + 1 < IP_ALEN {
        FieldThenDot(s, p0, i, ip0, p, k);
        assert Fields(s, p + 1, i + 1, cur) == r;
      } else {
        FieldStops(s, p0, i, ip0, p, k);
      }
      i, p := i + 1, p + 1;
    }
    ret := 0;
  }
}
