/** Machine integers of the C sources, as bounded subsets of int, and the
    network byte order used by every header field. */
module Bytes {

  /** uint8_t */
  type byte = x: int | 0 <= x < 0x100

  /** uint16_t */
  type u16 = x: int | 0 <= x < 0x1_0000

  /** uint32_t */
  type u32 = x: int | 0 <= x < 0x1_0000_0000

  /** htons: a 16-bit value as it lies on the wire, most significant byte first. */
  function BE16(x: u16): (r: seq<byte>)
    ensures |r| == 2
    ensures ReadBE16(r, 0) == x
  {
    [x / 0x100, x % 0x100]
  }

  /** ntohs of the two bytes at offset `off`. */
  function ReadBE16(s: seq<byte>, off: nat): (x: u16)
    requires off + 2 <= |s|
  {
    (s[off] as int) * 0x100 + s[off + 1] as int
  }

  /** `n` copies of the zero byte (what bzero leaves behind). */
  function Zeros(n: nat): (r: seq<byte>)
    ensures |r| == n
    ensures forall i :: 0 <= i < n ==> r[i] == 0
  {
    seq(n, _ => 0)
  }

  /** memcpy(buf + off, src, |src|): only the bytes at off .. off + |src| change. */
  method Copy(buf: array<byte>, off: nat, src: seq<byte>)
    requires off + |src| <= buf.Length
    modifies buf
    ensures buf[..] == old(buf[..off]) + src + old(buf[off + |src|..])
  {
    var i := 0;
    while i < |src|
      invariant 0 <= i <= |src|
      invariant forall j :: 0 <= j < buf.Length ==>
        buf[j] == if off <= j < off + i then src[j - off] else old(buf[j])
    {
      buf[off + i] := src[i];
      i := i + 1;
    }
    assert buf[..] == old(buf[..off]) + src + old(buf[off + |src|..]);
  }

  /** Encoding a 16-bit value and reading it back, in either order, is the identity. */
  lemma BE16ReadBack(s: seq<byte>, off: nat)
    requires off + 2 <= |s|
    ensures BE16(ReadBE16(s, off)) == s[off..off + 2]
  {
  }
}
