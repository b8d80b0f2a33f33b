/** The IPv4 next-hop decision (ipv4/routing.go): a local destination is
    resolved by ARP, the limited broadcast address maps to a fixed MAC
    without ARP, anything else goes to the gateway when there is one. ARP is a
    parameter: the answer it would give for each address. */
module Routing {
  import opened Common
  import opened Bits
  import opened Ethernet
  import Ipv4Packet

  type Address = Ipv4Packet.Address

  /** ipv4.Broadcast, the limited broadcast address 255.255.255.255. */
  const Broadcast: Address := [255, 255, 255, 255]

  /** Address.And: the bytewise AND of two addresses. */
  function AddressAnd(a: Address, b: Address): (r: Address)
    ensures forall i :: 0 <= i < 4 ==> r[i] == And8(a[i], b[i])
  {
    [And8(a[0], b[0]), And8(a[1], b[1]), And8(a[2], b[2]), And8(a[3], b[3])]
  }

  /** The router's configuration; the gateway is optional. */
  datatype Router = Router(address: Address, netmask: Address, gateway: Option<Address>)

  /** isLocal: the destination is on our subnet when it agrees with our
      address on every bit the netmask keeps. */
  predicate IsLocal(r: Router, a: Address): (b: bool)
    ensures b <==> forall i :: 0 <= i < 4 ==> And8(r.address[i], r.netmask[i]) == And8(a[i], r.netmask[i])
  {
    AddressAnd(r.address, r.netmask) == AddressAnd(a, r.netmask)
  }

  lemma OwnAddressIsLocal(r: Router)
    ensures IsLocal(r, r.address)
  {
  }

  /** Under the all-ones netmask only our own address is local. */
  lemma FullMaskLocal(r: Router, a: Address)
    requires r.netmask == [0xFF, 0xFF, 0xFF, 0xFF]
    ensures IsLocal(r, a) <==> a == r.address
  {
    And8Ones(a[0]); And8Ones(a[1]); And8Ones(a[2]); And8Ones(a[3]);
    var o := r.address;
    And8Ones(o[0]); And8Ones(o[1]); And8Ones(o[2]); And8Ones(o[3]);
    if IsLocal(r, a) {
      assert AddressAnd(a, r.netmask) == a && AddressAnd(o, r.netmask) == o;
    }
  }

  /** Under the zero netmask every address is local. */
  lemma ZeroMaskLocal(r: Router, a: Address)
    requires r.netmask == [0, 0, 0, 0]
    ensures IsLocal(r, a)
  {
    And8Zero(a[0]); And8Zero(a[1]); And8Zero(a[2]); And8Zero(a[3]);
    var o := r.address;
    And8Zero(o[0]); And8Zero(o[1]); And8Zero(o[2]); And8Zero(o[3]);
  }

  /** The next hop: the MAC or the error, and the address ARP was asked
      about, if it was asked at all. */
  datatype Route = Route(result: Result<MAC>, arpQuery: Option<Address>)

  /** An ARP answer as the router reports it: a timeout means there is no
      route; other errors pass through. */
  function ArpRoute(arp: Address -> Result<MAC>, a: Address): (route: Route)
    ensures route.arpQuery == Some(a)
    ensures route.result != Err(ArpTimeout)
    ensures arp(a).Ok? ==> route.result == arp(a)
    ensures arp(a) == Err(ArpTimeout) ==> route.result == Err(NoRouteToDestinationAddress)
    ensures arp(a).Err? && arp(a) != Err(ArpTimeout) ==> route.result == arp(a)
  {
    Route(if arp(a) == Err(ArpTimeout) then Err(NoRouteToDestinationAddress) else arp(a), Some(a))
  }

  /** The MAC the broadcast branch computes: MulticastIPv4 with its last
      three bytes ANDed with the address's low 23 bits. Because those three
      bytes of the prefix are zero, the AND clears them: whatever the
      address, the result is 01:00:5E:00:00:00. */
  function MulticastAsWritten(a: Address): (m: MAC)
    ensures m == MulticastIPv4
  {
    Zero8And(a[3]);
    Zero8And(a[2]);
    Zero8And(And8(a[1], 0x7F));
    var mac := MulticastIPv4;
    var mac := mac[5 := And8(mac[5], a[3])];
    var mac := mac[4 := And8(mac[4], a[2])];
    mac[3 := And8(mac[3], And8(a[1], 0x7F))]
  }

  /** The if/else chain of router.Resolve, with the broadcast MAC given by
      multicast. */
  function ResolveWith(r: Router, arp: Address -> Result<MAC>, a: Address, multicast: MAC): (route: Route)
  {
    if IsLocal(r, a) then ArpRoute(arp, a)
    else if a == Broadcast then Route(Ok(multicast), None)
    else if r.gateway.Some? then ArpRoute(arp, r.gateway.value)
    else Route(Err(NoRouteToDestinationAddress), None)
  }

  /** router.Resolve as written: the local test comes first, so a local
      destination (even one equal to Broadcast) is resolved by ARP; the
      broadcast branch makes no ARP call and cannot fail; a gateway is only
      asked about for non-local destinations; without one they have no
      route. A timeout never escapes. */
  function Resolve(r: Router, arp: Address -> Result<MAC>, a: Address): (route: Route)
    ensures IsLocal(r, a) ==> route == ArpRoute(arp, a)
    ensures !IsLocal(r, a) && a == Broadcast ==> route == Route(Ok(MulticastIPv4), None)
    ensures !IsLocal(r, a) && a != Broadcast && r.gateway.Some? ==> route == ArpRoute(arp, r.gateway.value)
    ensures !IsLocal(r, a) && a != Broadcast && r.gateway.None? ==>
      route == Route(Err(NoRouteToDestinationAddress), None)
  {
    ResolveWith(r, arp, a, MulticastAsWritten(a))
  }

  /** As written, the limited broadcast address, when it is not local,
      resolves to 01:00:5E:00:00:00, an IPv4 multicast group address, and
      not to the Ethernet broadcast address. */
  lemma BroadcastAsWrittenIsGroupMac(r: Router, arp: Address -> Result<MAC>)
    requires !IsLocal(r, Broadcast)
    ensures Resolve(r, arp, Broadcast) == Route(Ok([0x01, 0x00, 0x5E, 0x00, 0x00, 0x00]), None)
    ensures Resolve(r, arp, Broadcast).result != Ok(Ethernet.Broadcast)
  {
    assert MulticastIPv4[0] != Ethernet.Broadcast[0];
  }

  /** router.Resolve with the limited broadcast address mapped to the
      Ethernet broadcast address, as RFC 894 maps IP broadcasts; every other
      destination is routed as before. */
  function ResolveCorrected(r: Router, arp: Address -> Result<MAC>, a: Address): (route: Route)
    ensures !IsLocal(r, a) && a == Broadcast ==> route == Route(Ok([0xFF, 0xFF, 0xFF, 0xFF, 0xFF, 0xFF]), None)
    ensures a != Broadcast || IsLocal(r, a) ==> route == Resolve(r, arp, a)
  {
    ResolveWith(r, arp, a, Ethernet.Broadcast)
  }

  /** ARP is asked only about the destination itself when it is local, or
      about the gateway when it is not; the route fails with a timeout
      never, and with NoRoute or ARP's own error only. */
  lemma ArpQueriesAreNextHops(r: Router, arp: Address -> Result<MAC>, a: Address)
    ensures Resolve(r, arp, a).arpQuery.Some? ==>
      (IsLocal(r, a) && Resolve(r, arp, a).arpQuery == Some(a)) ||
      (!IsLocal(r, a) && Resolve(r, arp, a).arpQuery == r.gateway)
    ensures Resolve(r, arp, a).result.Err? ==>
      Resolve(r, arp, a).result.error == NoRouteToDestinationAddress ||
      (Resolve(r, arp, a).arpQuery.Some? && Resolve(r, arp, a).result == arp(Resolve(r, arp, a).arpQuery.value))
  {
  }

  /** The router 10.0.0.1/24, with or without a gateway, and two
      destinations: 10.0.0.255 on its subnet and 8.8.8.8 off it. */
  const SubnetAddress: Address := [10, 0, 0, 1]
  const SubnetMask: Address := [255, 255, 255, 0]
  const SubnetBroadcast: Address := [10, 0, 0, 255]
  const PublicAddress: Address := [8, 8, 8, 8]

  function Subnet(gateway: Option<Address>): (r: Router)
    ensures r.address == SubnetAddress && r.netmask == SubnetMask
  {
    Router(SubnetAddress, SubnetMask, gateway)
  }

  lemma SubnetBroadcastIsLocal(gateway: Option<Address>)
    ensures IsLocal(Subnet(gateway), SubnetBroadcast)
  {
    var x := AddressAnd(SubnetAddress, SubnetMask);
    var y := AddressAnd(SubnetBroadcast, SubnetMask);
    And8Ones(10); And8Ones(0);
    And8Zero(1); And8Zero(255);
    assert x[0] == y[0] && x[1] == y[1] && x[2] == y[2] && x[3] == y[3];
    assert x == y;
  }

  lemma PublicAddressIsRemote(gateway: Option<Address>)
    ensures !IsLocal(Subnet(gateway), PublicAddress)
  {
    var x := AddressAnd(SubnetAddress, SubnetMask);
    var y := AddressAnd(PublicAddress, SubnetMask);
    And8Ones(10); And8Ones(8);
    assert x[0] != y[0];
  }

  /** On 10.0.0.1/24, 10.0.0.255 is resolved by ARP and not by the
      broadcast branch. */
  lemma SubnetBroadcastScenario(arp: Address -> Result<MAC>)
    ensures Resolve(Subnet(None), arp, SubnetBroadcast).arpQuery == Some(SubnetBroadcast)
  {
    SubnetBroadcastIsLocal(None);
  }

  /** Without a gateway, 8.8.8.8 has no route from 10.0.0.1/24. */
  lemma NoGatewayScenario(arp: Address -> Result<MAC>)
    ensures Resolve(Subnet(None), arp, PublicAddress) == Route(Err(NoRouteToDestinationAddress), None)
  {
    PublicAddressIsRemote(None);
  }

  /** With the gateway 10.0.0.1, 8.8.8.8 is resolved through the gateway. */
  lemma GatewayScenario(arp: Address -> Result<MAC>)
    ensures Resolve(Subnet(Some(SubnetAddress)), arp, PublicAddress) == ArpRoute(arp, SubnetAddress)
  {
    PublicAddressIsRemote(Some(SubnetAddress));
  }
}
