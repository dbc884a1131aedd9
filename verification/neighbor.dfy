/** The neighbor (ARP) entry as the netlink layer describes it, and the
    snapshot tables the reconciliation pass works on. */
module Neighbor {
  import opened Wrappers
  import opened IPv4

  /** A link-layer (hardware) address. */
  type Mac = seq<byte>

  /** Kernel neighbor state flag `NUD_PERMANENT`: never aged out. */
  const NudPermanent: int := 0x80

  /** Kernel neighbor flag `NTF_SELF`: the entry belongs to the device itself. */
  const NtfSelf: int := 0x02

  /** The fields of `netlink.Neigh` this core reads or writes. `ip` is `None`
      when the address has no 4-byte IPv4 form. */
  datatype Neigh = Neigh(linkIndex: int, ip: Option<Ip4>, mac: Mac, state: int, flags: int)

  /** A table of neighbor entries keyed by IP string. */
  type Snapshot = map<string, Neigh>

  /** `n.IP.To4().String()`: the dotted-decimal form, or Go's "<nil>" for an
      address without a 4-byte form. */
  function Key(n: Neigh): string {
    match n.ip
    case Some(a) => Dotted(a)
    case None => "<nil>"
  }
}
