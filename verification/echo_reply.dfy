/** ICMP_REPLY (router.c:86-121): turn the received frame, in place, into
    the echo reply sent back out of the receiving interface. */
module EchoReply {
  import opened Words
  import opened Packets

  /** `ip_hdr->ttl--` on a uint8_t: one less, 0 wrapping to 255. */
  function DecTtl(ttl: Byte): (r: Byte)
    ensures (r + 1) % 0x100 == ttl
  {
    if ttl == 0 then 0xFF else ttl - 1
  }

  /** `old_ttl - ip_hdr->ttl` passed to `htons`, which takes a uint16_t:
      the int difference reduced modulo 2^16. */
  function TtlDelta(oldTtl: Byte, newTtl: Byte): (d: U16)
    ensures (newTtl + d) % 0x1_0000 == oldTtl
  {
    if oldTtl >= newTtl then oldTtl - newTtl else 0x1_0000 + oldTtl - newTtl
  }

  /** `ip_hdr->check += htons(delta)`: the addition happens on the field's
      in-memory value (Swap16 of the network-order value on a little-endian
      host) and is truncated to 16 bits. */
  function PatchCheck(check: U16, delta: U16): (r: U16)
    ensures Swap16(r) == (Swap16(check) + Swap16(delta)) % 0x1_0000
  {
    var sum := Swap16(check) + Swap16(delta);
    var host := if sum < 0x1_0000 then sum else sum - 0x1_0000;
    assert host == sum % 0x1_0000;
    Swap16Involutive(host);
    Swap16(host)
  }

  /** The bytes the ICMP checksum is computed over: the ICMP header and
      what follows it, `tot_len - sizeof(struct iphdr)` bytes long. A length
      that does not fit the bytes present reads them all. */
  function IcmpSegment(fr: Frame): (s: seq<Byte>)
    ensures |s| <= 8 + |fr.payload|
    ensures s <= IcmpBytes(fr.icmp) + fr.payload
    ensures 0 <= fr.ip.totLen - IpHeaderLength <= 8 + |fr.payload| ==> |s| == fr.ip.totLen - IpHeaderLength
  {
    var bytes := IcmpBytes(fr.icmp) + fr.payload;
    var n := fr.ip.totLen - IpHeaderLength;
    if 0 <= n <= |bytes| then bytes[..n] else bytes
  }

  /** The frame ICMP_REPLY leaves in the buffer. Nothing outside the fields
      it edits changes: the ethertype, the bytes after the ICMP header, the
      ICMP identifier and sequence number and the other IP header fields. */
  function EchoReplyOf(fr: Frame, checksum: seq<Byte> -> U16): (r: Frame)
    ensures r.eth.etherType == fr.eth.etherType && r.payload == fr.payload
    ensures r.icmp.rest == fr.icmp.rest
    ensures r.ip.versionIhl == fr.ip.versionIhl && r.ip.tos == fr.ip.tos &&
      r.ip.totLen == fr.ip.totLen && r.ip.id == fr.ip.id &&
      r.ip.fragOff == fr.ip.fragOff && r.ip.protocol == fr.ip.protocol
  {
    var ttl := DecTtl(fr.ip.ttl);
    var eth := fr.eth.(dhost := fr.eth.shost, shost := fr.eth.dhost);
    var ip := fr.ip.(saddr := fr.ip.daddr, daddr := fr.ip.saddr, ttl := ttl,
                     check := PatchCheck(fr.ip.check, TtlDelta(fr.ip.ttl, ttl)));
    var icmp := fr.icmp.(kind := 0, code := 0, checksum := 0);
    Frame(eth, ip, icmp.(checksum := checksum(IcmpSegment(Frame(eth, ip, icmp, fr.payload)))), fr.payload)
  }

  /** ICMP_REPLY's edits, in the order the code makes them. The send of
      `ReplyLength` bytes is the caller's outcome. */
  method EchoReply(buf: Buffer, checksum: seq<Byte> -> U16)
    modifies buf
    ensures buf.Contents() == EchoReplyOf(old(buf.Contents()), checksum)
  {
    var tempEth := buf.eth.shost;
    buf.eth := buf.eth.(shost := buf.eth.dhost);
    buf.eth := buf.eth.(dhost := tempEth);

    var tempIp := buf.ip.saddr;
    buf.ip := buf.ip.(saddr := buf.ip.daddr);
    buf.ip := buf.ip.(daddr := tempIp);

    var oldTtl := buf.ip.ttl;
    buf.ip := buf.ip.(ttl := DecTtl(buf.ip.ttl));
    buf.ip := buf.ip.(check := PatchCheck(buf.ip.check, TtlDelta(oldTtl, buf.ip.ttl)));

    buf.icmp := buf.icmp.(kind := 0);
    buf.icmp := buf.icmp.(code := 0);
    buf.icmp := buf.icmp.(checksum := 0);
    buf.icmp := buf.icmp.(checksum := checksum(IcmpSegment(buf.Contents())));
  }

  /** The reply goes back where the request came from: hardware and IP
      source and destination are exchanged, so replying twice restores them. */
  lemma EchoReplySwapsEnds(fr: Frame, checksum: seq<Byte> -> U16)
    ensures var r := EchoReplyOf(fr, checksum);
      r.eth.dhost == fr.eth.shost && r.eth.shost == fr.eth.dhost &&
      r.ip.saddr == fr.ip.daddr && r.ip.daddr == fr.ip.saddr
    ensures var r2 := EchoReplyOf(EchoReplyOf(fr, checksum), checksum);
      r2.eth.dhost == fr.eth.dhost && r2.eth.shost == fr.eth.shost &&
      r2.ip.saddr == fr.ip.saddr && r2.ip.daddr == fr.ip.daddr
  {
  }

  /** The TTL is decremented as a uint8_t: one less, and 0 wraps to 255. */
  lemma EchoReplyTtl(fr: Frame, checksum: seq<Byte> -> U16)
    ensures var r := EchoReplyOf(fr, checksum);
      (fr.ip.ttl >= 1 ==> r.ip.ttl == fr.ip.ttl - 1) &&
      (fr.ip.ttl == 0 ==> r.ip.ttl == 255)
  {
  }

  /** The IP checksum field is patched with the TTL difference, that is, as
      a host uint16_t it grows by `htons(old_ttl - new_ttl)` modulo 2^16.
      For a TTL of at least 1 that adds 1 to the field's second byte in
      network order, without carry, and leaves its first byte alone. */
  lemma EchoReplyCheck(fr: Frame, checksum: seq<Byte> -> U16)
    ensures var r := EchoReplyOf(fr, checksum);
      r.ip.check == PatchCheck(fr.ip.check, TtlDelta(fr.ip.ttl, r.ip.ttl))
    ensures var r := EchoReplyOf(fr, checksum);
      fr.ip.ttl >= 1 ==>
        r.ip.check / 0x100 == fr.ip.check / 0x100 &&
        r.ip.check % 0x100 == (fr.ip.check % 0x100 + 1) % 0x100
  {
    if fr.ip.ttl >= 1 {
      DecrementPatch(fr.ip.check, fr.ip.ttl);
    }
  }

  /** The patch for a TTL decrement from `ttl >= 1`. */
  lemma DecrementPatch(check: U16, ttl: Byte)
    requires ttl >= 1
    ensures PatchCheck(check, TtlDelta(ttl, DecTtl(ttl))) / 0x100 == check / 0x100
    ensures PatchCheck(check, TtlDelta(ttl, DecTtl(ttl))) % 0x100 == (check % 0x100 + 1) % 0x100
  {
    assert TtlDelta(ttl, DecTtl(ttl)) == 1;
    IncrementSecondByte(check);
  }

  /** Adding `htons(1)` to the in-memory value of a 16-bit field. */
  lemma IncrementSecondByte(c: U16)
    ensures PatchCheck(c, 1) / 0x100 == c / 0x100
    ensures PatchCheck(c, 1) % 0x100 == (c % 0x100 + 1) % 0x100
  {
    var hi, lo := c / 0x100, c % 0x100;
    Swap16Of(hi, lo);
    Swap16Of(0, 1);
    BytesOf(hi, lo);
    if lo < 0xFF {
      Swap16Of(lo + 1, hi);
      BytesOf(hi, lo + 1);
      assert PatchCheck(c, 1) == hi * 0x100 + (lo + 1);
    } else {
      Swap16Of(0, hi);
      BytesOf(hi, 0);
      assert PatchCheck(c, 1) == hi * 0x100 + 0;
    }
  }

  /** The ICMP header becomes an Echo Reply (type 0, code 0) whatever it
      was, and its checksum is the one computed over the reply's own ICMP
      bytes with the checksum field zero. */
  lemma EchoReplyIcmp(fr: Frame, checksum: seq<Byte> -> U16)
    ensures var r := EchoReplyOf(fr, checksum);
      r.icmp.kind == 0 && r.icmp.code == 0 &&
      r.icmp.checksum == checksum(IcmpSegment(r.(icmp := r.icmp.(checksum := 0))))
  {
  }
}
