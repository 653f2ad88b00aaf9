/** The static neighbour table and its lookup (router.c:14-16, 160-168). */
module Arp {
  import opened Words
  import opened Wrappers
  import opened Packets

  /** One line of the ARP table: an IPv4 address and its hardware address. */
  datatype ArpEntry = ArpEntry(ip: Word32, mac: Mac)

  /** The position of the first entry for `ip`, or None when the table has
      none. */
  function FindArp(table: seq<ArpEntry>, ip: Word32): (r: Option<nat>)
    ensures r.None? <==> forall i | 0 <= i < |table| :: table[i].ip != ip
    ensures r.Some? ==>
      r.value < |table| && table[r.value].ip == ip &&
      forall i | 0 <= i < r.value :: table[i].ip != ip
    decreases |table|
  {
    if table == [] then None
    else if table[0].ip == ip then Some(0)
    else
      match FindArp(table[1..], ip)
      case None => None
      case Some(j) => Some(j + 1)
  }

  /** get_arp_table_entry: scan the table from the start and stop at the
      first entry whose address equals `ip`. */
  method GetArpTableEntry(table: seq<ArpEntry>, ip: Word32) returns (r: Option<nat>)
    ensures r == FindArp(table, ip)
  {
    var i := 0;
    while i < |table|
      invariant i <= |table|
      invariant forall j | 0 <= j < i :: table[j].ip != ip
    {
      if table[i].ip == ip {
        return Some(i);
      }
      i := i + 1;
    }
    return None;
  }
}
