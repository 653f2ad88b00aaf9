# Static IPv4 forwarding engine — a Dafny model

`router.c` is a small IPv4 router dataplane. It loads a static routing table
into a binary trie keyed by destination-prefix bits. It loads a static ARP
table as well. Then it loops over received Ethernet frames. For each frame
it does one of three things:

- it drops the frame;
- it answers the frame with an ICMP echo reply on the receiving interface;
- it forwards the frame, with TTL decremented and a fresh header checksum,
  to the next hop of the longest matching route.

This project models that core:

- `words.dfy` (module `Words`) holds the C fixed-width words as bounded
  integers, the bit the trie follows at each level, and the masks the
  insertion loop accumulates.
- `routing_trie.dfy` (module `RoutingTrie`) models the trie: `add_trie_node`,
  `create_trie_table` and `get_best_route`.
  - A `Trie` class holds the set of allocated nodes and the route slot of
    each node.
  - Each node is named by the bit path from the root to it. In a tree that
    path identifies the node.
  - The three operations are methods that keep the C loops.
  - Each method is proved against specification functions: `BestOnPath` for
    lookup, and `Installed` and `TableNodes` for building.
  - The longest-prefix-match properties are lemmas about those functions.
- `arp.dfy` (module `Arp`) models `get_arp_table_entry`: a scan that is
  proved equal to a recursive first-match function.
- `packet.dfy` (module `Packets`) holds the frame seen through its
  Ethernet, IPv4 and ICMP header overlays, and the byte layouts the checksum
  routine reads.
  - The packet buffer is a `Buffer` class whose header fields the
    operations rewrite in place.
- `echo_reply.dfy` (module `EchoReply`) models `ICMP_REPLY` as a method
  making the same field edits in the same order. It is proved equal to
  `EchoReplyOf`, and lemmas state what that rewrite does to each field.
- `forwarding.dfy` (module `Forwarding`) models the body of the receive
  loop.
  - `Process` follows the C statement order on the buffer, calling the trie
    lookup, the ARP scan and the echo reply.
  - It is proved equal to the decision function `Decide`.
  - Lemmas characterise each outcome: dropped, replied, transmitted.

Things the model keeps exactly as the code has them:

- **The lookup never inspects depth 32.** `get_best_route` walks while
  `pos >= 0`, so it looks at nodes at depths 0 to 31 only. A /32 route is
  stored at depth 32, so it is never returned.
  - The usual reading of longest-prefix match would pick a /32 route for
    its own address. This model follows the code instead.
  - `LookupIsLongestMatch` states the match property as it really holds:
    it is longest-prefix match among routes shorter than 32 bits.
  - `HostRouteNeverFound` shows that a lookup of the exact address named by
    a /32 route comes back empty.
  - For routes 10.0.0.0/8, 10.0.0.0/16 and 10.0.1.5/32, the code therefore
    answers 10.0.1.5 with the /16 route, not the /32 one.
- **Multi-byte header fields hold decoded values.** Each field holds the
  value its bytes spell in network order, that is, what `ntohs` or `ntohl`
  returns. Addresses are only compared for equality, or decoded with
  `ntohl` before the trie walk, so the code's mix of raw and decoded
  comparisons is unaffected.
- **The incremental checksum patch assumes a little-endian host.**
  `ICMP_REPLY` adds `htons(old_ttl - ttl)` to the checksum field through
  its host `uint16_t` value.
  - On a little-endian host, a TTL decrement therefore adds 1 to the
    field's second byte in network order, with no carry (`EchoReplyCheck`).
  - RFC 1624 would adjust the first byte, the one that pairs with the TTL.
  - The model states what the code computes. Whether the result is a valid
    header checksum depends on the checksum routine, which is not part of
    this model.
- **The echo reply goes out whenever the destination equals the receiving
  interface's address.** The header checksum, the IP protocol field and the
  ICMP type are not checked first. So a TCP or UDP packet addressed to the
  router also has the eight bytes after its IP header rewritten as an ICMP
  echo-reply header. The model does the same, because its frame always
  carries the ICMP overlay. A TTL of 0 wraps to 255.

## Model

| member | source | states |
|---|---|---|
| Words.BitIsShift | router.c:59 | the bit the trie follows, `(x & (1 << pos)) >> pos`, is the lowest bit of `x` shifted right by `pos` |
| Words.NextMaskBits | router.c:81 | one step `(mask >> 1) \| (1 << 31)` sets the top bit and moves every other bit down by one place |
| Words.MaskBit | router.c:44-82 | the mask after `k` steps from 0 has exactly its top `k` bits set |
| Words.MaskIsContiguous | router.c:80-82 | the mask after `k` steps of `(mask >> 1) \| (1 << 31)` from 0 has exactly `k` leading 1-bits and no gap |
| Words.MaskInjective | router.c:52 | distinct step counts give distinct masks, so the insertion walk stops at exactly one depth |
| Words.TopBitsStep | router.c:59 | the bit `(x & (1 << pos)) >> pos` taken at depth `31 - pos` extends the path of `x`'s top bits by one |
| Words.TopBitsPrefix | router.c:146-152 | the path to depth `j` is a prefix of the path to any deeper depth |
| RoutingTrie.BestOnPath | router.c:137-157 | what the lookup walk remembers is either nothing or one of the stored routes |
| RoutingTrie.Installed | router.c:125-129 | inserting a table in order leaves route slots exactly at the old slots' nodes and the entries' own nodes |
| RoutingTrie.TableNodes | router.c:61-78 | inserting a table allocates every node on every entry's path, and none deeper than 32 |
| RoutingTrie.RoutePath | router.c:44-59 | a route is stored at the path of its prefix's top bits, as many as its mask's leading 1-bits |
| RoutingTrie.DefaultRouteAtRoot | router.c:44-56 | a route with mask 0 is stored at the root |
| RoutingTrie.Trie.constructor | router.c:26 | the trie starts with no head node and no routes |
| RoutingTrie.Trie.AddTrieNode | router.c:29-84 | inserting a contiguous-mask route allocates exactly the missing nodes on its path, stores it at its own node (replacing an earlier route there), leaves every other slot alone, and keeps the trie well formed |
| RoutingTrie.Trie.CreateTrieTable | router.c:125-129 | building from a table allocates the union of the entries' paths and leaves the slots that inserting the entries in order gives |
| RoutingTrie.InstalledLastWins | router.c:54 | after in-order insertion, a node holds a route iff some entry leads to it (or it held one before), and then that of the last entry leading to it |
| RoutingTrie.InstalledPlaced | router.c:52-55 | inserting contiguous-mask routes keeps each stored route at its own node |
| RoutingTrie.Trie.GetBestRoute | router.c:131-158 | lookup returns the route of the deepest node above depth 32 on the address's path that holds one, and changes nothing |
| RoutingTrie.BestOnPathIsDeepest | router.c:137-157 | the lookup result is None iff no node on the path (depths 0..31) holds a route, otherwise the deepest such node's route |
| RoutingTrie.LookupIsLongestMatch | router.c:138-155 | a returned route covers the address with a prefix shorter than 32 bits, and every covering stored route shorter than 32 bits is no longer than it |
| RoutingTrie.HostRouteNeverFound | router.c:140 | in a table holding only a /32 route, a lookup of that route's own address finds nothing |
| RoutingTrie.TableLookupIsLongestMatch | router.c:125-158 | building from a table and looking up is longest-prefix match over the table's entries shorter than 32 bits, same-prefix ties going to the last entry |
| RoutingTrie.NothingBelowMissing | router.c:140 | once a node on the path is missing, no deeper node on it holds a route, so stopping the walk there loses nothing |
| Arp.FindArp | router.c:160-168 | the first index whose entry has the queried IP, and None exactly when no entry has it |
| Arp.GetArpTableEntry | router.c:160-168 | the scan returns the first matching entry's index, or None when no entry of the table matches |
| Packets.IpBytesRoundTrip | router.c:221 | the 20 header bytes the checksum reads determine every IPv4 header field |
| Packets.IcmpBytesRoundTrip | router.c:117 | the 8 ICMP header bytes determine every ICMP header field |
| Packets.Be32RoundTrip | router.c:221 | a 32-bit value's four network-order bytes decode back to it |
| Packets.Swap16Bytes | router.c:111 | `htons` on a little-endian host exchanges the two network-order bytes of a 16-bit value |
| Packets.Swap16Involutive | router.c:217 | `ntohs` undoes `htons` |
| EchoReply.DecTtl | router.c:110 | the decremented `uint8_t` TTL is the value that one more hop, modulo 256, turns back into the old TTL |
| EchoReply.TtlDelta | router.c:111 | the delta `old_ttl - ttl`, as a `uint16_t`, is what added to the new TTL modulo 2^16 gives the old TTL back |
| EchoReply.PatchCheck | router.c:111 | the checksum field's host value grows by `htons(delta)` modulo 2^16 |
| EchoReply.IcmpSegment | router.c:117 | the ICMP checksum covers a prefix of the ICMP header and payload, `tot_len - 20` bytes long when that fits |
| EchoReply.EchoReplyOf | router.c:86-117 | the reply frame keeps the ethertype, the bytes after the ICMP header, the ICMP identifier and sequence number, and every IP field other than the addresses, TTL and checksum |
| EchoReply.EchoReply | router.c:86-121 | the buffer is rewritten into the echo reply `EchoReplyOf` |
| EchoReply.EchoReplySwapsEnds | router.c:97-106 | Ethernet and IP source and destination are exchanged, so replying twice restores them |
| EchoReply.EchoReplyTtl | router.c:109-110 | TTL becomes one less, and 0 wraps to 255 |
| EchoReply.EchoReplyCheck | router.c:108-111 | the IP checksum is the incremental patch by the TTL difference; for TTL >= 1 its first network byte is kept and its second grows by 1 modulo 256 |
| EchoReply.DecrementPatch | router.c:109-111 | a TTL decrement from at least 1 is a patch by `htons(1)` |
| EchoReply.IncrementSecondByte | router.c:111 | adding `htons(1)` to a field's host value adds 1 to its second network byte without carry |
| EchoReply.EchoReplyIcmp | router.c:113-117 | ICMP type and code become 0 whatever they were, and the checksum is the one computed over the reply's own ICMP bytes with the checksum field zero |
| Forwarding.Zeroed | router.c:217-218 | the frame checked has a zero checksum field, and putting the received checksum back restores the received frame |
| Forwarding.Aged | router.c:227-232 | the rewritten header has TTL one less, a checksum that matches it with the checksum field zero, and every other field as received |
| Forwarding.Decide | router.c:207-257 | whatever the decision, the bytes after the ICMP header are untouched; a dropped frame keeps its Ethernet header; only a reply changes the IP addresses; a reply leaves on the receiving interface with 100 bytes; a forwarded frame keeps its length and loses one hop of TTL |
| Forwarding.Process | router.c:203-257 | handling one frame in place yields the outcome and buffer contents `Decide` gives |
| Forwarding.NonIpv4Dropped | router.c:208-210 | a frame with another ethertype is dropped unchanged |
| Forwarding.SelfAddressedReplied | router.c:212-215 | an IPv4 frame for the receiving interface's address gets the echo reply on that interface, and nothing else happens |
| Forwarding.TransmitExactly | router.c:217-249 | a frame is sent iff it is IPv4, not for the receiving interface, has a matching header checksum, a route, TTL >= 1 and an ARP entry; it then leaves on the route's interface with its length, TTL one less, a valid new checksum, the next hop's MAC as destination and the egress MAC as source, everything else unchanged |
| Forwarding.DroppedFrames | router.c:217-257 | a checksum mismatch, missing route or TTL 0 leaves the frame with only the checksum field zeroed; an ARP miss leaves it aged (TTL one less, checksum recomputed); TTL 0 drops exactly the otherwise-valid frames with TTL 0 |
| Forwarding.ForwardedOnLongestMatch | router.c:223-249 | a forwarded frame leaves by the interface of a stored route that covers its destination and is the longest such route shorter than 32 bits |

## Left out

- Link I/O is not modelled: `init`, `recv_from_any_link`, `send_to_link`, `get_interface_ip`, `get_interface_mac` and `inet_addr`.
  - The interface addresses and the receiving interface are parameters (`Forwarding.Env`).
  - A send is an `Outcome` value.
  - The `DIE` on a failed receive is left out.
- The infinite receive loop is not modelled; `Process` is one iteration of it.
- The interface MAC that the loop reads for the receiving interface is never used, so it is not modelled.
- Table loading is not modelled: `read_rtable`, `parse_arp_table`, and the `malloc` and `DIE` setup. The routing and ARP tables are input sequences.
- Allocation failure of trie nodes (`DIE` after `malloc`) is left out.
- Trie pointers are not modelled. A node is named by its bit path, so aliasing and node lifetimes are outside the model.
- The `checksum` routine is not part of this model. It is a function parameter over the bytes it reads, so no property depends on its definition.
- Byte-order helpers: the model assumes a little-endian host.
  - `htons` and `ntohs` are the byte exchange `Swap16`.
  - Only the arithmetic on the checksum field depends on this.
- `RoutingTrie.Trie.AddTrieNode` requires a contiguous mask. With a gap in the mask, the C loop never meets the mask, and it shifts past bit 0 (undefined behaviour). `CreateTrieTable` passes that requirement on to every table entry.
- `EchoReply.IcmpSegment`: when `tot_len - 20` is negative or longer than the bytes present, the C code reads outside the frame. The model covers the bytes present instead.
- `Forwarding.Process` looks up the route and the ARP entry once each. The code repeats each lookup, but the repeat is read-only and returns the same result.
- Frames shorter than the Ethernet, IPv4 and ICMP headers are not modelled. The buffer always holds all three header records.
- IP options are not modelled. The header checksum covers `sizeof(struct iphdr)` bytes, as in the code.
- The 100-byte length of the echo reply is kept only as the outcome's length. The bytes beyond the frame that such a send may carry are not modelled.
