/** The received frame as the forwarding code sees it through its header
    overlays (router.c:92-94, 207-209): an Ethernet header, an IPv4 header,
    the eight bytes after it read as an ICMP header, and the rest.

    Multi-byte fields hold the value the bytes spell in network byte order
    (what `ntohs`/`ntohl` return). Addresses are only compared for equality
    or read through `ntohl`, so holding them decoded loses nothing. */
module Packets {
  import opened Words

  /** A 6-byte hardware address. */
  type Mac = s: seq<Byte> | |s| == 6 witness [0, 0, 0, 0, 0, 0]

  /** The ethertype of IPv4. */
  const EtherTypeIpv4: U16 := 0x0800

  /** `sizeof(struct iphdr)`: the IPv4 header without options. */
  const IpHeaderLength: nat := 20

  /** The fixed number of bytes the echo reply sends (router.c:120). */
  const ReplyLength: nat := 100

  datatype EthHeader = EthHeader(dhost: Mac, shost: Mac, etherType: U16)

  /** The fields of `struct iphdr`; version and header length share a byte. */
  datatype IpHeader = IpHeader(
    versionIhl: Byte, tos: Byte, totLen: U16, id: U16, fragOff: U16,
    ttl: Byte, protocol: Byte, check: U16, saddr: Word32, daddr: Word32)

  /** The fields of `struct icmphdr`; `rest` is the 4-byte union after the
      checksum (identifier and sequence number of an echo). */
  datatype IcmpHeader = IcmpHeader(kind: Byte, code: Byte, checksum: U16, rest: Word32)

  datatype Frame = Frame(eth: EthHeader, ip: IpHeader, icmp: IcmpHeader, payload: seq<Byte>)

  /** A 16-bit value as its two bytes in network order. */
  function Be16(x: U16): (b: seq<Byte>)
    ensures |b| == 2
  {
    [x / 0x100, x % 0x100]
  }

  /** A 32-bit value as its four bytes in network order. */
  function Be32(x: Word32): (b: seq<Byte>)
    ensures |b| == 4
  {
    Be16(x / 0x1_0000) + Be16(x % 0x1_0000)
  }

  function FromBe16(b: seq<Byte>): U16
    requires |b| == 2
  {
    b[0] as int * 0x100 + b[1] as int
  }

  function FromBe32(b: seq<Byte>): Word32
    requires |b| == 4
  {
    FromBe16(b[..2]) * 0x1_0000 + FromBe16(b[2..])
  }

  lemma Be16RoundTrip(x: U16)
    ensures FromBe16(Be16(x)) == x
  {
  }

  lemma Be32RoundTrip(x: Word32)
    ensures FromBe32(Be32(x)) == x
  {
    var b := Be32(x);
    assert b[..2] == Be16(x / 0x1_0000);
    assert b[2..] == Be16(x % 0x1_0000);
  }

  /** The IPv4 header as the 20 bytes the checksum routine reads
      (`(uint16_t *)ip_hdr`, `sizeof(struct iphdr)`). */
  function IpBytes(h: IpHeader): (b: seq<Byte>)
    ensures |b| == IpHeaderLength
  {
    [h.versionIhl, h.tos] + Be16(h.totLen) + Be16(h.id) + Be16(h.fragOff) +
    [h.ttl, h.protocol] + Be16(h.check) + Be32(h.saddr) + Be32(h.daddr)
  }

  /** Reading the header fields back from their 20 bytes. */
  function ParseIp(b: seq<Byte>): IpHeader
    requires |b| == IpHeaderLength
  {
    IpHeader(b[0], b[1], FromBe16(b[2..4]), FromBe16(b[4..6]), FromBe16(b[6..8]),
             b[8], b[9], FromBe16(b[10..12]), FromBe32(b[12..16]), FromBe32(b[16..20]))
  }

  /** The 20 bytes determine every header field, so the checksum over them
      covers the whole header. */
  lemma IpBytesRoundTrip(h: IpHeader)
    ensures ParseIp(IpBytes(h)) == h
  {
    var b := IpBytes(h);
    var front := [h.versionIhl, h.tos] + Be16(h.totLen) + Be16(h.id) + Be16(h.fragOff) +
      [h.ttl, h.protocol] + Be16(h.check) + Be32(h.saddr);
    assert b == front + Be32(h.daddr);
    assert b[2..4] == Be16(h.totLen);
    assert b[4..6] == Be16(h.id);
    assert b[6..8] == Be16(h.fragOff);
    assert b[10..12] == Be16(h.check);
    assert b[12..16] == Be32(h.saddr);
    assert b[16..20] == Be32(h.daddr);
    Be16RoundTrip(h.totLen);
    Be16RoundTrip(h.id);
    Be16RoundTrip(h.fragOff);
    Be16RoundTrip(h.check);
    Be32RoundTrip(h.saddr);
    Be32RoundTrip(h.daddr);
  }

  /** The ICMP header as its 8 bytes in the frame. */
  function IcmpBytes(h: IcmpHeader): (b: seq<Byte>)
    ensures |b| == 8
  {
    [h.kind, h.code] + Be16(h.checksum) + Be32(h.rest)
  }

  function ParseIcmp(b: seq<Byte>): IcmpHeader
    requires |b| == 8
  {
    IcmpHeader(b[0], b[1], FromBe16(b[2..4]), FromBe32(b[4..8]))
  }

  lemma IcmpBytesRoundTrip(h: IcmpHeader)
    ensures ParseIcmp(IcmpBytes(h)) == h
  {
    var b := IcmpBytes(h);
    assert b[2..4] == Be16(h.checksum);
    assert b[4..8] == Be32(h.rest);
    Be16RoundTrip(h.checksum);
    Be32RoundTrip(h.rest);
  }

  /** `htons`/`ntohs` on a little-endian host: the two bytes of a 16-bit
      value exchanged. A field's in-memory value, read as a host `uint16_t`,
      is Swap16 of the value it holds in network order. */
  function Swap16(x: U16): U16
  {
    (x % 0x100) * 0x100 + x / 0x100
  }

  /** Swap16 exchanges the two network-order bytes. */
  lemma Swap16Bytes(x: U16)
    ensures Be16(Swap16(x)) == [Be16(x)[1], Be16(x)[0]]
  {
  }

  /** The two bytes of `hi * 0x100 + lo` are `hi` and `lo`. */
  lemma BytesOf(hi: int, lo: Byte)
    ensures (hi * 0x100 + lo) / 0x100 == hi && (hi * 0x100 + lo) % 0x100 == lo
  {
  }

  /** Swap16 of the value with bytes `hi`, `lo` has bytes `lo`, `hi`. */
  lemma Swap16Of(hi: Byte, lo: Byte)
    ensures Swap16(hi * 0x100 + lo) == lo * 0x100 + hi
  {
    BytesOf(hi, lo);
  }

  lemma Swap16Involutive(x: U16)
    ensures Swap16(Swap16(x)) == x
  {
    Swap16Of(x / 0x100, x % 0x100);
    Swap16Of(x % 0x100, x / 0x100);
  }

  /** The packet buffer `buf` that the main loop receives into and edits in
      place, seen through its header overlays. */
  class Buffer {
    var eth: EthHeader
    var ip: IpHeader
    var icmp: IcmpHeader
    var payload: seq<Byte>

    function Contents(): Frame
      reads this
    {
      Frame(eth, ip, icmp, payload)
    }
  }
}
