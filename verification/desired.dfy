/** The desired-state builder: the control plane's IP -> MAC table turned
    into permanent, self-owned neighbor entries on one link. */
module DesiredState {
  import opened Wrappers
  import opened IPv4
  import opened Neighbor

  /** `getDesiredARPEntries`. Keys are kept exactly as given; the entry's
      address is whatever `parse` (standing in for `net.ParseIP`) makes of
      the key, `None` for a string with no IPv4 reading. */
  function DesiredEntries(linkIndex: int, arp: map<string, Mac>, parse: string -> Option<Ip4>): (r: Snapshot)
    ensures r.Keys == arp.Keys
    ensures forall k :: k in r ==>
      && r[k].state == NudPermanent
      && r[k].flags == NtfSelf
      && r[k].linkIndex == linkIndex
      && r[k].mac == arp[k]
      && r[k].ip == parse(k)
  {
    map k | k in arp :: Neigh(linkIndex, parse(k), arp[k], NudPermanent, NtfSelf)
  }

  /** The IP -> MAC table a snapshot describes. */
  function MacTable(s: Snapshot): (m: map<string, Mac>)
    ensures m.Keys == s.Keys
    ensures forall k :: k in m ==> m[k] == s[k].mac
  {
    map k | k in s :: s[k].mac
  }

  /** The builder loses nothing of its input: the MAC table of the built
      snapshot is the table it was built from. */
  lemma DesiredMacTableRoundTrip(linkIndex: int, arp: map<string, Mac>, parse: string -> Option<Ip4>)
    ensures MacTable(DesiredEntries(linkIndex, arp, parse)) == arp
  {
  }
}
