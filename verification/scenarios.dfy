/** A worked instance of the current-state filter: two listed neighbors
    against 10.0.0.0/24. */
module Scenarios {
  import opened Wrappers
  import opened IPv4
  import opened Neighbor
  import opened CurrentState

  /** A neighbor entry as the kernel might list it on link 3. */
  function Listed(ip: Ip4, mac: Mac): Neigh {
    Neigh(3, Some(ip), mac, 0x02, 0)
  }

  /** 10.0.0.0/24. */
  function Net10(): IpNet {
    IpNet(Ip4(10, 0, 0, 0), CidrMask(24))
  }

  lemma Net10Contains5()
    ensures Contains(Net10(), Some(Ip4(10, 0, 0, 5)))
  {
    assert CidrMask(24) == Ip4(0xFF, 0xFF, 0xFF, 0);
    assert And(10, 0xFF) == 10 && And(0, 0xFF) == 0 && And(5, 0) == 0 && And(0, 0) == 0;
    assert AgreeUnderMask([0], [5], [0]);
    assert AgreeUnderMask([0, 0], [0, 5], [0xFF, 0]);
    assert AgreeUnderMask([0, 0, 0], [0, 0, 5], [0xFF, 0xFF, 0]);
  }

  lemma Net10Excludes192()
    ensures !Contains(Net10(), Some(Ip4(192, 168, 1, 1)))
  {
    var n := Net10();
    assert Octets(n.mask)[0] == 0xFF;
    assert And(10, 0xFF) == 10;
    assert And(192, 0xFF) == 192;
    assert And(Octets(n.ip)[0], Octets(n.mask)[0]) != And(Octets(Ip4(192, 168, 1, 1))[0], Octets(n.mask)[0]);
  }

  lemma KeyOf10005(mac: Mac)
    ensures Key(Listed(Ip4(10, 0, 0, 5), mac)) == "10.0.0.5"
  {
    assert Decimal(10) == "10";
    assert OctetString(0) == "0" && OctetString(5) == "5" && OctetString(10) == "10";
    assert JoinOctets([5]) == "5";
    assert JoinOctets([0, 5]) == "0.5";
    assert JoinOctets([0, 0, 5]) == "0.0.5";
  }

  lemma FilterOfInsideOnly(inside: Neigh)
    requires inside == Listed(Ip4(10, 0, 0, 5), [1, 2, 3, 4, 5, 6])
    ensures Filter([inside], [Net10()]) == map["10.0.0.5" := inside]
  {
    var nets := [Net10()];
    Net10Contains5();
    assert Contains(nets[0], inside.ip);
    assert InAnySubnet(inside.ip, nets);
    KeyOf10005(inside.mac);
    assert [inside][..0] == [];
  }

  /** With subnet 10.0.0.0/24, a listing holding 10.0.0.5 and 192.168.1.1
      yields a table holding 10.0.0.5 only. */
  lemma FilterKeepsOnlySubnetMembers()
    ensures var inside := Listed(Ip4(10, 0, 0, 5), [1, 2, 3, 4, 5, 6]);
      var outside := Listed(Ip4(192, 168, 1, 1), [1, 2, 3, 4, 5, 7]);
      var r := Filter([inside, outside], [Net10()]);
      r.Keys == {"10.0.0.5"} && r["10.0.0.5"] == inside
  {
    var inside := Listed(Ip4(10, 0, 0, 5), [1, 2, 3, 4, 5, 6]);
    var outside := Listed(Ip4(192, 168, 1, 1), [1, 2, 3, 4, 5, 7]);
    var nets := [Net10()];
    Net10Excludes192();
    assert !InAnySubnet(outside.ip, nets);
    assert [inside, outside][..1] == [inside];
    FilterOfInsideOnly(inside);
  }
}
