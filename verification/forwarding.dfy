/** The per-frame forwarding decision: the body of the receive loop
    (router.c:203-257), for one frame received on one interface. */
module Forwarding {
  import opened Words
  import opened Wrappers
  import opened Packets
  import opened RoutingTrie
  import opened Arp
  import opened EchoReply

  /** What the loop body takes from outside: each interface's IPv4 address
      and hardware address, and the checksum routine of the link library,
      which computes a 16-bit checksum over a byte range. */
  datatype Env = Env(
    interfaceIp: nat -> Word32,
    interfaceMac: nat -> Mac,
    checksum: seq<Byte> -> U16)

  /** Why a frame is not sent on. */
  datatype DropReason = NotIpv4 | BadChecksum | NoRoute | TtlExpired | ArpMiss

  /** What the loop body does with a frame: nothing, an echo reply of
      `len` bytes on `iface`, or the frame forwarded with its received
      length on `iface`. */
  datatype Outcome =
    | Dropped(reason: DropReason)
    | Replied(iface: nat, len: nat)
    | Transmitted(iface: nat, len: nat)

  /** The outcome together with the frame left in the buffer. */
  datatype Verdict = Verdict(outcome: Outcome, frame: Frame)

  /** The frame with its IP checksum field zeroed, as the code leaves it
      before validating. */
  function Zeroed(fr: Frame): (z: Frame)
    ensures z.ip.check == 0
    ensures z.(ip := z.ip.(check := fr.ip.check)) == fr
  {
    fr.(ip := fr.ip.(check := 0))
  }

  /** The IP header after the forwarding rewrite: TTL one less and the
      checksum recomputed over the header with its checksum field zero. */
  function Aged(ip: IpHeader, checksum: seq<Byte> -> U16): (a: IpHeader)
    requires ip.ttl >= 1
    ensures a.ttl + 1 == ip.ttl
    ensures a.check == checksum(IpBytes(a.(check := 0)))
    ensures a.(ttl := ip.ttl, check := ip.check) == ip
  {
    var aged := ip.(ttl := ip.ttl - 1, check := 0);
    aged.(check := checksum(IpBytes(aged)))
  }

  /** The decision for frame `fr` received on `iface` with length `len`,
      given the trie's route slots and the ARP table. Whatever happens, the
      bytes after the ICMP header are untouched; a dropped frame keeps its
      Ethernet header; only the echo reply changes IP addresses; a reply
      goes back out of the receiving interface, and a forwarded frame keeps
      its length and loses one hop of TTL. */
  function Decide(fr: Frame, iface: nat, len: nat, env: Env,
                  routes: map<seq<bool>, Route>, arp: seq<ArpEntry>): (v: Verdict)
    ensures v.frame.payload == fr.payload
    ensures v.outcome.Dropped? ==> v.frame.eth == fr.eth
    ensures !v.outcome.Replied? ==> v.frame.ip.saddr == fr.ip.saddr && v.frame.ip.daddr == fr.ip.daddr
    ensures v.outcome.Replied? ==> v.outcome == Replied(iface, ReplyLength)
    ensures v.outcome.Transmitted? ==> v.outcome.len == len && v.frame.ip.ttl + 1 == fr.ip.ttl
  {
    if fr.eth.etherType != EtherTypeIpv4 then Verdict(Dropped(NotIpv4), fr)
    else if env.interfaceIp(iface) == fr.ip.daddr then
      Verdict(Replied(iface, ReplyLength), EchoReplyOf(fr, env.checksum))
    else if fr.ip.check != env.checksum(IpBytes(Zeroed(fr).ip)) then
      Verdict(Dropped(BadChecksum), Zeroed(fr))
    else
      match BestOnPath(routes, fr.ip.daddr, 32)
      case None => Verdict(Dropped(NoRoute), Zeroed(fr))
      case Some(route) =>
        if fr.ip.ttl >= 1 then
          var sealed := fr.(ip := Aged(fr.ip, env.checksum));
          match FindArp(arp, route.nextHop)
          case None => Verdict(Dropped(ArpMiss), sealed)
          case Some(i) =>
            var eth := fr.eth.(dhost := arp[i].mac, shost := env.interfaceMac(route.iface));
            Verdict(Transmitted(route.iface, len), sealed.(eth := eth))
        else Verdict(Dropped(TtlExpired), Zeroed(fr))
  }

  /** The loop body for one received frame, editing the buffer in place.
      The code looks the route and the ARP entry up twice each; both
      lookups are read-only, so each is made once here. */
  method Process(buf: Buffer, iface: nat, len: nat, env: Env, trie: Trie, arp: seq<ArpEntry>)
    returns (out: Outcome)
    requires trie.Valid()
    modifies buf
    ensures Verdict(out, buf.Contents()) == Decide(old(buf.Contents()), iface, len, env, trie.routes, arp)
  {
    ghost var fr := buf.Contents();
    if buf.eth.etherType != EtherTypeIpv4 {
      return Dropped(NotIpv4);
    }
    if env.interfaceIp(iface) == buf.ip.daddr {
      EchoReply.EchoReply(buf, env.checksum);
      return Replied(iface, ReplyLength);
    }

    var check := buf.ip.check;
    buf.ip := buf.ip.(check := 0);
    assert buf.Contents() == Zeroed(fr);
    if check != env.checksum(IpBytes(buf.ip)) {
      return Dropped(BadChecksum);
    }

    var best := trie.GetBestRoute(buf.ip.daddr);
    if best.None? {
      return Dropped(NoRoute);
    }
    var route := best.value;

    if buf.ip.ttl >= 1 {
      buf.ip := buf.ip.(ttl := buf.ip.ttl - 1);
      var newCheck := env.checksum(IpBytes(buf.ip));
      buf.ip := buf.ip.(check := newCheck);
      assert buf.Contents() == fr.(ip := Aged(fr.ip, env.checksum));

      var entry := GetArpTableEntry(arp, route.nextHop);
      if entry.Some? {
        buf.eth := buf.eth.(dhost := arp[entry.value].mac);
        buf.eth := buf.eth.(shost := env.interfaceMac(route.iface));
        return Transmitted(route.iface, len);
      }
      return Dropped(ArpMiss);
    }
    return Dropped(TtlExpired);
  }

  /** A frame whose ethertype is not IPv4 is dropped untouched. */
  lemma NonIpv4Dropped(fr: Frame, iface: nat, len: nat, env: Env, routes: map<seq<bool>, Route>, arp: seq<ArpEntry>)
    requires fr.eth.etherType != EtherTypeIpv4
    ensures Decide(fr, iface, len, env, routes, arp) == Verdict(Dropped(NotIpv4), fr)
  {
  }

  /** An IPv4 frame addressed to the receiving interface gets the echo
      reply on that interface and nothing else: no checksum check, no
      lookup, no forwarding. */
  lemma SelfAddressedReplied(fr: Frame, iface: nat, len: nat, env: Env, routes: map<seq<bool>, Route>, arp: seq<ArpEntry>)
    requires fr.eth.etherType == EtherTypeIpv4 && env.interfaceIp(iface) == fr.ip.daddr
    ensures Decide(fr, iface, len, env, routes, arp) ==
      Verdict(Replied(iface, ReplyLength), EchoReplyOf(fr, env.checksum))
  {
  }

  /** The conditions under which a frame is forwarded: IPv4, not addressed
      to the receiving interface, a header checksum that matches, a route,
      a TTL of at least 1 and an ARP entry for the route's next hop. */
  predicate Forwardable(fr: Frame, iface: nat, env: Env, routes: map<seq<bool>, Route>, arp: seq<ArpEntry>)
  {
    fr.eth.etherType == EtherTypeIpv4 &&
    env.interfaceIp(iface) != fr.ip.daddr &&
    fr.ip.check == env.checksum(IpBytes(Zeroed(fr).ip)) &&
    BestOnPath(routes, fr.ip.daddr, 32).Some? &&
    fr.ip.ttl >= 1 &&
    FindArp(arp, BestOnPath(routes, fr.ip.daddr, 32).value.nextHop).Some?
  }

  /** A frame is transmitted exactly when it is forwardable. It then leaves
      on the route's interface with its received length, TTL one less (a
      TTL of 1 leaves as 0), a checksum valid for the header as sent, the
      next hop's hardware address as destination, the egress interface's
      as source, and everything else as received. */
  lemma {:induction false} TransmitExactly(fr: Frame, iface: nat, len: nat, env: Env, routes: map<seq<bool>, Route>, arp: seq<ArpEntry>)
    ensures Decide(fr, iface, len, env, routes, arp).outcome.Transmitted? <==> Forwardable(fr, iface, env, routes, arp)
    ensures Forwardable(fr, iface, env, routes, arp) ==>
      var route := BestOnPath(routes, fr.ip.daddr, 32).value;
      var entry := arp[FindArp(arp, route.nextHop).value];
      var v := Decide(fr, iface, len, env, routes, arp);
      entry.ip == route.nextHop &&
      v.outcome == Transmitted(route.iface, len) &&
      v.frame.ip.ttl == fr.ip.ttl - 1 &&
      v.frame.ip.check == env.checksum(IpBytes(v.frame.ip.(check := 0))) &&
      v.frame.ip.(ttl := fr.ip.ttl, check := fr.ip.check) == fr.ip &&
      v.frame.eth == EthHeader(entry.mac, env.interfaceMac(route.iface), fr.eth.etherType) &&
      v.frame.icmp == fr.icmp && v.frame.payload == fr.payload
  {
    if Forwardable(fr, iface, env, routes, arp) {
      var route := BestOnPath(routes, fr.ip.daddr, 32).value;
      var v := Decide(fr, iface, len, env, routes, arp);
      assert v.frame.ip == Aged(fr.ip, env.checksum);
    }
  }

  /** The frames that go nowhere. A checksum mismatch, a missing route or a
      TTL of 0 leave the frame with its IP checksum field zeroed and nothing
      else changed; an ARP miss leaves it already aged (TTL one less,
      checksum recomputed) with its hardware addresses untouched. */
  lemma {:induction false} DroppedFrames(fr: Frame, iface: nat, len: nat, env: Env, routes: map<seq<bool>, Route>, arp: seq<ArpEntry>)
    ensures var v := Decide(fr, iface, len, env, routes, arp);
      v.outcome.Dropped? && v.outcome.reason in {BadChecksum, NoRoute, TtlExpired} ==>
        v.frame == Zeroed(fr)
    ensures var v := Decide(fr, iface, len, env, routes, arp);
      v.outcome == Dropped(ArpMiss) ==>
        fr.ip.ttl >= 1 && v.frame == fr.(ip := Aged(fr.ip, env.checksum)) &&
        v.frame.ip.ttl == fr.ip.ttl - 1
    ensures var v := Decide(fr, iface, len, env, routes, arp);
      v.outcome == Dropped(TtlExpired) <==>
        fr.eth.etherType == EtherTypeIpv4 && env.interfaceIp(iface) != fr.ip.daddr &&
        fr.ip.check == env.checksum(IpBytes(Zeroed(fr).ip)) &&
        BestOnPath(routes, fr.ip.daddr, 32).Some? && fr.ip.ttl == 0
  {
  }

  /** A forwarded frame follows the longest matching prefix among the
      stored routes shorter than 32 bits: the route it leaves by covers the
      destination, and no such stored route covering it is longer. */
  lemma {:induction false} ForwardedOnLongestMatch(fr: Frame, iface: nat, len: nat, env: Env, routes: map<seq<bool>, Route>, arp: seq<ArpEntry>)
    requires Placed(routes)
    ensures Decide(fr, iface, len, env, routes, arp).outcome.Transmitted? ==>
      exists p | p in routes ::
        var r := routes[p];
        Decide(fr, iface, len, env, routes, arp).outcome.iface == r.iface &&
        Matches(r, fr.ip.daddr) && PrefixLength(r.mask) < 32 &&
        forall q | q in routes && Matches(routes[q], fr.ip.daddr) && PrefixLength(routes[q].mask) < 32 ::
          PrefixLength(routes[q].mask) <= PrefixLength(r.mask)
  {
    if Decide(fr, iface, len, env, routes, arp).outcome.Transmitted? {
      TransmitExactly(fr, iface, len, env, routes, arp);
      LookupIsLongestMatch(routes, fr.ip.daddr);
      var r := BestOnPath(routes, fr.ip.daddr, 32).value;
      assert RoutePath(r) in routes && routes[RoutePath(r)] == r;
    }
  }
}
