/** The current-state reader: the kernel's IPv4 neighbor list for a link,
    restricted to the subnets of interest and keyed by IP string. */
module CurrentState {
  import opened Wrappers
  import opened IPv4
  import opened Neighbor

  /** The address lies in at least one of the subnets. */
  predicate InAnySubnet(ip: Option<Ip4>, nets: seq<IpNet>) {
    exists j :: 0 <= j < |nets| && Contains(nets[j], ip)
  }

  /** The inner loop over the subnets for one neighbor: every subnet that
      contains the neighbor writes it under its key, so however many match,
      the neighbor ends up stored once, under one key. */
  function RecordMatches(n: Neigh, nets: seq<IpNet>, acc: Snapshot): (r: Snapshot)
    ensures InAnySubnet(n.ip, nets) ==> r == acc[Key(n) := n]
    ensures !InAnySubnet(n.ip, nets) ==> r == acc
    decreases |nets|
  {
    if nets == [] then acc
    else
      var acc' := if Contains(nets[0], n.ip) then acc[Key(n) := n] else acc;
      assert InAnySubnet(n.ip, nets) <==> Contains(nets[0], n.ip) || InAnySubnet(n.ip, nets[1..]) by {
        if InAnySubnet(n.ip, nets[1..]) {
          var j :| 0 <= j < |nets[1..]| && Contains(nets[1..][j], n.ip);
          assert Contains(nets[j + 1], n.ip);
        }
        if InAnySubnet(n.ip, nets) && !Contains(nets[0], n.ip) {
          var j :| 0 <= j < |nets| && Contains(nets[j], n.ip);
          assert Contains(nets[1..][j - 1], n.ip);
        }
      }
      RecordMatches(n, nets[1..], acc')
  }

  /** Neighbor `i` is the last listed in-subnet neighbor whose key is `k`. */
  predicate LastMatchAt(neighs: seq<Neigh>, nets: seq<IpNet>, k: string, i: int) {
    && 0 <= i < |neighs|
    && InAnySubnet(neighs[i].ip, nets)
    && Key(neighs[i]) == k
    && forall j :: i < j < |neighs| && InAnySubnet(neighs[j].ip, nets) ==> Key(neighs[j]) != k
  }

  /** Every in-subnet neighbor's key is present. */
  predicate Complete(neighs: seq<Neigh>, nets: seq<IpNet>, r: Snapshot) {
    forall i :: 0 <= i < |neighs| && InAnySubnet(neighs[i].ip, nets) ==> Key(neighs[i]) in r
  }

  /** Every key present holds the last in-subnet neighbor listed with that key. */
  ghost predicate LastWins(neighs: seq<Neigh>, nets: seq<IpNet>, r: Snapshot) {
    forall k :: k in r ==> exists i :: LastMatchAt(neighs, nets, k, i) && r[k] == neighs[i]
  }

  /** Processing one more neighbor keeps every in-subnet key present. */
  lemma RecordMatchesComplete(neighs: seq<Neigh>, nets: seq<IpNet>, r0: Snapshot)
    requires neighs != []
    requires Complete(neighs[..|neighs| - 1], nets, r0)
    ensures Complete(neighs, nets, RecordMatches(neighs[|neighs| - 1], nets, r0))
  {
    var prefix := neighs[..|neighs| - 1];
    var last := |neighs| - 1;
    var r := RecordMatches(neighs[last], nets, r0);
    forall i | 0 <= i < |neighs| && InAnySubnet(neighs[i].ip, nets)
      ensures Key(neighs[i]) in r
    {
      if i < last {
        assert prefix[i] == neighs[i];
        assert Key(prefix[i]) in r0;
      }
    }
  }

  /** A last match in a prefix stays the last match when the next
      neighbor does not compete for its key. */
  lemma ExtendLastMatch(neighs: seq<Neigh>, nets: seq<IpNet>, k: string, i: int)
    requires neighs != []
    requires LastMatchAt(neighs[..|neighs| - 1], nets, k, i)
    requires !InAnySubnet(neighs[|neighs| - 1].ip, nets) || Key(neighs[|neighs| - 1]) != k
    ensures LastMatchAt(neighs, nets, k, i)
  {
    var prefix := neighs[..|neighs| - 1];
    assert prefix[i] == neighs[i];
    forall j | i < j < |neighs| && InAnySubnet(neighs[j].ip, nets)
      ensures Key(neighs[j]) != k
    {
      if j < |neighs| - 1 {
        assert prefix[j] == neighs[j];
      }
    }
  }

  /** Processing one more neighbor keeps every key holding the last
      in-subnet neighbor listed with it. */
  lemma RecordMatchesLastWins(neighs: seq<Neigh>, nets: seq<IpNet>, r0: Snapshot)
    requires neighs != []
    requires LastWins(neighs[..|neighs| - 1], nets, r0)
    ensures LastWins(neighs, nets, RecordMatches(neighs[|neighs| - 1], nets, r0))
  {
    var prefix := neighs[..|neighs| - 1];
    var last := |neighs| - 1;
    var n := neighs[last];
    var r := RecordMatches(n, nets, r0);
    var hit := InAnySubnet(n.ip, nets);
    assert hit ==> r == r0[Key(n) := n];
    assert !hit ==> r == r0;
    forall k | k in r
      ensures exists i :: LastMatchAt(neighs, nets, k, i) && r[k] == neighs[i]
    {
      if hit && Key(n) == k {
        assert LastMatchAt(neighs, nets, k, last);
      } else {
        assert k in r0 && r[k] == r0[k];
        var i :| LastMatchAt(prefix, nets, k, i) && r0[k] == prefix[i];
        ExtendLastMatch(neighs, nets, k, i);
        assert r[k] == neighs[i];
      }
    }
  }

  /** The outer loop over the listed neighbors, in list order. Every
      in-subnet neighbor's key is present; every key present belongs to an
      in-subnet neighbor, and holds the last such neighbor in the list. */
  function Filter(neighs: seq<Neigh>, nets: seq<IpNet>): (r: Snapshot)
    ensures Complete(neighs, nets, r)
    ensures LastWins(neighs, nets, r)
    decreases |neighs|
  {
    if neighs == [] then map[]
    else
      var r0 := Filter(neighs[..|neighs| - 1], nets);
      RecordMatchesComplete(neighs, nets, r0);
      RecordMatchesLastWins(neighs, nets, r0);
      RecordMatches(neighs[|neighs| - 1], nets, r0)
  }

  /** `getCurrentARPEntries`: a failed listing is returned as the error,
      with no table; otherwise the listed neighbors are filtered. */
  function CurrentEntries<E>(listing: Result<seq<Neigh>, E>, nets: seq<IpNet>): (r: Result<Snapshot, E>)
    ensures listing.Failure? ==> r == Failure(listing.error)
    ensures listing.Success? ==> r.Success?
    ensures listing.Success? ==> forall k :: k in r.value <==>
      exists i :: 0 <= i < |listing.value| && InAnySubnet(listing.value[i].ip, nets) && Key(listing.value[i]) == k
    ensures listing.Success? ==> LastWins(listing.value, nets, r.value)
  {
    match listing
    case Failure(e) => Failure(e)
    case Success(neighs) =>
      var r := Filter(neighs, nets);
      assert forall k :: k in r ==> exists i :: 0 <= i < |neighs| && InAnySubnet(neighs[i].ip, nets) && Key(neighs[i]) == k by {
        forall k | k in r
          ensures exists i :: 0 <= i < |neighs| && InAnySubnet(neighs[i].ip, nets) && Key(neighs[i]) == k
        {
          var i :| LastMatchAt(neighs, nets, k, i) && r[k] == neighs[i];
        }
      }
      Success(r)
  }

  /** The entry stored for an in-subnet neighbor's key carries that
      neighbor's address: since distinct addresses have distinct keys, two
      neighbors share a key only if they share an address. */
  lemma StoredEntryHasItsAddress(neighs: seq<Neigh>, nets: seq<IpNet>, i: int)
    requires 0 <= i < |neighs| && InAnySubnet(neighs[i].ip, nets)
    ensures Key(neighs[i]) in Filter(neighs, nets)
    ensures Filter(neighs, nets)[Key(neighs[i])].ip == neighs[i].ip
  {
    var r := Filter(neighs, nets);
    var k := Key(neighs[i]);
    var j :| LastMatchAt(neighs, nets, k, j) && r[k] == neighs[j];
    DottedInjective(neighs[i].ip.value, neighs[j].ip.value);
  }
}
