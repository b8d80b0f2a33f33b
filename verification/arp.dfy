/** ARP for IPv4 over Ethernet (ipv4/arp.go): the 28-byte packet of RFC 826,
    the request and reply constructors, the dispatch of inbound packets,
    answering requests for our own address, and the resolver's two tables
    (pending requests and the cache) as a sequence of steps. */
module Arp {
  import opened Common
  import opened Ethernet
  import Ipv4Packet

  type Address = Ipv4Packet.Address

  const OperationRequest: U16 := 1
  const OperationReply: U16 := 2
  const HardwareEthernet: U16 := 1
  const ProtocolIPv4: U16 := 0x800

  datatype ArpPacket = ArpPacket(
    hardwareType: U16,
    protocolType: U16,
    hardwareAddressLength: Byte,
    protocolAddressLength: Byte,
    operation: U16,
    senderHardwareAddress: MAC,
    senderProtocolAddress: Address,
    targetHardwareAddress: MAC,
    targetProtocolAddress: Address)

  /** ARPPacket.Write: the fields in order, big-endian, 2|2|1|1|2|6|4|6|4. */
  function Write(p: ArpPacket): (b: seq<Byte>)
    ensures |b| == 28
    ensures b[..2] == BE16(p.hardwareType) && b[2..4] == BE16(p.protocolType)
    ensures b[4] == p.hardwareAddressLength && b[5] == p.protocolAddressLength
    ensures b[6..8] == BE16(p.operation)
    ensures b[8..14] == p.senderHardwareAddress && b[14..18] == p.senderProtocolAddress
    ensures b[18..24] == p.targetHardwareAddress && b[24..28] == p.targetProtocolAddress
  {
    BE16(p.hardwareType) + BE16(p.protocolType) +
    [p.hardwareAddressLength, p.protocolAddressLength] + BE16(p.operation) +
    p.senderHardwareAddress + p.senderProtocolAddress +
    p.targetHardwareAddress + p.targetProtocolAddress
  }

  /** The packet that 28 bytes hold. */
  function Parse(b: seq<Byte>): (p: ArpPacket)
    requires |b| == 28
    ensures Write(p) == b
  {
    var p := ArpPacket(ReadBE16(b[0], b[1]), ReadBE16(b[2], b[3]), b[4], b[5], ReadBE16(b[6], b[7]),
                       b[8..14], b[14..18], b[18..24], b[24..28]);
    assert BE16(p.hardwareType) == b[..2] && BE16(p.protocolType) == b[2..4];
    assert [p.hardwareAddressLength, p.protocolAddressLength] == b[4..6];
    assert BE16(p.operation) == b[6..8];
    assert b == b[..2] + b[2..4] + b[4..6] + b[6..8] + b[8..14] + b[14..18] + b[18..24] + b[24..28];
    p
  }

  /** Distinct packets are written differently. */
  lemma WriteInjective(p: ArpPacket, q: ArpPacket)
    requires Write(p) == Write(q)
    ensures p == q
  {
    BE16Injective(p.hardwareType, q.hardwareType);
    BE16Injective(p.protocolType, q.protocolType);
    BE16Injective(p.operation, q.operation);
  }

  /** NewARPPacket: exactly 28 bytes are read; fewer give EOF (none at all)
      or UnexpectedEOF, more are left unread. */
  function NewArpPacket(s: seq<Byte>): (r: Result<ArpPacket>)
    ensures r.Ok? <==> |s| >= 28
    ensures r.Ok? ==> Write(r.value) == s[..28]
    ensures r.Err? ==> r.error == (if |s| == 0 then EOF else UnexpectedEOF)
  {
    var (b, _) := TakeExact(s, 28);
    if b.Err? then Err(b.error) else Ok(Parse(b.value))
  }

  /** Every packet is read back from its bytes, whatever follows them. */
  lemma RoundTrip(p: ArpPacket, rest: seq<Byte>)
    ensures NewArpPacket(Write(p) + rest) == Ok(p)
  {
    assert (Write(p) + rest)[..28] == Write(p);
    WriteInjective(NewArpPacket(Write(p) + rest).value, p);
  }

  /** The fixed fields of an Ethernet/IPv4 ARP packet with the given
      operation. */
  predicate EthernetIPv4(p: ArpPacket, operation: U16)
  {
    p.hardwareType == HardwareEthernet && p.protocolType == ProtocolIPv4 &&
    p.hardwareAddressLength == 6 && p.protocolAddressLength == 4 && p.operation == operation
  }

  /** NewARPRequest: the target hardware address is left zero, as it is
      what the request asks for. */
  function NewArpRequest(senderMAC: MAC, senderIP: Address, targetIP: Address): (p: ArpPacket)
    ensures EthernetIPv4(p, OperationRequest)
    ensures p.senderHardwareAddress == senderMAC && p.senderProtocolAddress == senderIP
    ensures p.targetHardwareAddress == ZeroMAC && p.targetProtocolAddress == targetIP
  {
    ArpPacket(HardwareEthernet, ProtocolIPv4, 6, 4, OperationRequest, senderMAC, senderIP, ZeroMAC, targetIP)
  }

  /** NewARPReply: every address given. */
  function NewArpReply(senderMAC: MAC, targetMAC: MAC, senderIP: Address, targetIP: Address): (p: ArpPacket)
    ensures EthernetIPv4(p, OperationReply)
    ensures p.senderHardwareAddress == senderMAC && p.senderProtocolAddress == senderIP
    ensures p.targetHardwareAddress == targetMAC && p.targetProtocolAddress == targetIP
  {
    ArpPacket(HardwareEthernet, ProtocolIPv4, 6, 4, OperationReply, senderMAC, senderIP, targetMAC, targetIP)
  }

  /** What the handler bound to EtherType ARP does with one frame payload. */
  datatype Inbound =
    | Drop(reason: Error)                   // not a readable ARP packet
    | DropUnknownOperation(packet: ArpPacket)
    | Request(packet: ArpPacket)            // handed to handleRequest
    | Reply(packet: ArpPacket)              // handed to handleReply

  /** The operation dispatch of Bind. */
  function Dispatch(payload: seq<Byte>): (d: Inbound)
    ensures d.Drop? <==> |payload| < 28
    ensures !d.Drop? ==> Write(d.packet) == payload[..28]
    ensures d.Request? <==> |payload| >= 28 && payload[6..8] == BE16(OperationRequest)
    ensures d.Reply? <==> |payload| >= 28 && payload[6..8] == BE16(OperationReply)
  {
    match NewArpPacket(payload)
    case Err(e) => Drop(e)
    case Ok(p) =>
      BE16Injective(p.operation, OperationRequest);
      BE16Injective(p.operation, OperationReply);
      if p.operation == OperationRequest then Request(p)
      else if p.operation == OperationReply then Reply(p)
      else DropUnknownOperation(p)
  }

  /** handleRequest: a request for our address is answered, unicast to the
      requester, with a reply from our MAC and address to the requester's;
      any other request gets no answer. (The frame's source is left as the
      zero MAC, as the source's frame literal leaves it.) */
  function AnswerRequest(sourceMAC: MAC, sourceIP: Address, request: ArpPacket): (f: Option<Frame>)
    ensures f.Some? <==> request.targetProtocolAddress == sourceIP
    ensures f.Some? ==> f.value.destination == request.senderHardwareAddress && f.value.etherType == EtherTypeARP
    ensures f.Some? ==> (NewArpPacket(f.value.payload) ==
      Ok(NewArpReply(sourceMAC, request.senderHardwareAddress, sourceIP, request.senderProtocolAddress)))
  {
    if request.targetProtocolAddress == sourceIP then
      var reply := NewArpReply(sourceMAC, request.senderHardwareAddress, sourceIP, request.senderProtocolAddress);
      RoundTrip(reply, []);
      assert Write(reply) + [] == Write(reply);
      Some(Frame(request.senderHardwareAddress, ZeroMAC, EtherTypeARP, Write(reply)))
    else None
  }

  /** The broadcast frame the query task sends for a new pending request. */
  function QueryFrame(sourceMAC: MAC, sourceIP: Address, address: Address): (f: Frame)
    ensures f.destination == Broadcast && f.etherType == EtherTypeARP
    ensures NewArpPacket(f.payload) == Ok(NewArpRequest(sourceMAC, sourceIP, address))
  {
    var request := NewArpRequest(sourceMAC, sourceIP, address);
    RoundTrip(request, []);
    assert Write(request) + [] == Write(request);
    Frame(Broadcast, ZeroMAC, EtherTypeARP, Write(request))
  }

  // ----- The resolver's tables --------------------------------------------

  /** The hardware address of the last reply in rs sent from address. */
  function LastReplyFrom(rs: seq<ArpPacket>, address: Address): (m: Option<MAC>)
    ensures m.Some? <==> exists i :: 0 <= i < |rs| && rs[i].senderProtocolAddress == address
  {
    if |rs| == 0 then None
    else if rs[|rs| - 1].senderProtocolAddress == address then Some(rs[|rs| - 1].senderHardwareAddress)
    else
      var m := LastReplyFrom(rs[..|rs| - 1], address);
      assert forall i :: 0 <= i < |rs| - 1 ==> rs[..|rs| - 1][i] == rs[i];
      m
  }

  /** The cache after handleReply has seen the replies rs in order, while
      the addresses in pending had a pending request: a reply is cached
      only for an address that has one. */
  function CacheAfter(cache: map<Address, MAC>, pending: set<Address>, rs: seq<ArpPacket>): (c: map<Address, MAC>)
    ensures cache.Keys <= c.Keys <= cache.Keys + pending
  {
    if |rs| == 0 then cache
    else
      var c := CacheAfter(cache, pending, rs[..|rs| - 1]);
      var r := rs[|rs| - 1];
      if r.senderProtocolAddress in pending then c[r.senderProtocolAddress := r.senderHardwareAddress] else c
  }

  /** For an address with a pending request, the cache holds the hardware
      address of its last reply, or what it held before when there was
      none. */
  lemma {:induction false} CacheAfterPending(cache: map<Address, MAC>, pending: set<Address>, rs: seq<ArpPacket>, address: Address)
    requires address in pending
    ensures address in CacheAfter(cache, pending, rs) <==> address in cache || LastReplyFrom(rs, address).Some?
    ensures LastReplyFrom(rs, address).Some? ==> CacheAfter(cache, pending, rs)[address] == LastReplyFrom(rs, address).value
    ensures LastReplyFrom(rs, address).None? && address in cache ==> CacheAfter(cache, pending, rs)[address] == cache[address]
  {
    if |rs| > 0 {
      CacheAfterPending(cache, pending, rs[..|rs| - 1], address);
    }
  }

  /** An address without a pending request never enters the cache: replies
      nobody asked for are ignored. */
  lemma {:induction false} CacheAfterUnsolicited(cache: map<Address, MAC>, pending: set<Address>, rs: seq<ArpPacket>, address: Address)
    requires address !in pending
    ensures address in CacheAfter(cache, pending, rs) <==> address in cache
    ensures address in cache ==> CacheAfter(cache, pending, rs)[address] == cache[address]
  {
    if |rs| > 0 {
      CacheAfterUnsolicited(cache, pending, rs[..|rs| - 1], address);
    }
  }

  /** Removing a key just added to a map that lacked it gives the map back. */
  lemma RemoveAdded<K, V>(m: map<K, V>, k: K, v: V)
    requires k !in m
    ensures m[k := v] - {k} == m
  {
    assert (m[k := v] - {k}).Keys == m.Keys;
  }

  /** How the last lines of arpResolve end: with a returned value, or with
      a run-time panic. */
  datatype Completion = Returned(result: Result<MAC>) | Panicked

  /** The cache lookup that ends arpResolve, as written: on a miss the
      error is set, but the type assertion on the nil item that follows
      panics, so the error is never returned. */
  function LookupAsWritten(cache: map<Address, MAC>, address: Address): (c: Completion)
    ensures c.Panicked? <==> address !in cache
    ensures c.Returned? ==> c.result == Ok(cache[address])
  {
    if address in cache then Returned(Ok(cache[address])) else Panicked
  }

  /** As written, arpResolve never returns ErrARPTimeout: a request nobody
      answered ends in a panic. */
  lemma TimeoutIsNeverReturned(cache: map<Address, MAC>, address: Address)
    ensures LookupAsWritten(cache, address) != Returned(Err(ArpTimeout))
    ensures address !in cache ==> LookupAsWritten(cache, address) == Panicked
  {
  }

  /** The lookup as intended: the cached hardware address, or ErrARPTimeout
      when no reply was cached. */
  function Lookup(cache: map<Address, MAC>, address: Address): (r: Result<MAC>)
    ensures r.Ok? <==> address in cache
    ensures r.Ok? ==> r.value == cache[address]
    ensures r.Err? ==> r.error == ArpTimeout
  {
    if address in cache then Ok(cache[address]) else Err(ArpTimeout)
  }

  /** The intended lookup returns whenever the written one does, with the
      same value, and returns ErrARPTimeout exactly where it panics. */
  lemma LookupCorrectsPanic(cache: map<Address, MAC>, address: Address)
    ensures LookupAsWritten(cache, address).Returned? ==>
      Lookup(cache, address) == LookupAsWritten(cache, address).result
    ensures LookupAsWritten(cache, address).Panicked? <==> Lookup(cache, address) == Err(ArpTimeout)
  {
  }

  /** A Go `chan struct{}` used as a one-shot signal: it can be closed once;
      closing it again would panic. */
  class Channel {
    var closed: bool

    constructor ()
      ensures !closed
    {
      closed := false;
    }

    method Close()
      requires !closed
      modifies this
      ensures closed
    {
      closed := true;
    }
  }

  /** pendingARPRequest: the signal for waiters, set to nil once closed. */
  class PendingRequest {
    var gotReply: Channel?

    constructor ()
      ensures gotReply != null && fresh(gotReply) && !gotReply.closed
    {
      gotReply := new Channel();
    }
  }

  /** defaultARP's state: our addresses, the cache (without expiry) and the
      table of pending requests, one record per address. */
  class Resolver {
    const sourceMAC: MAC
    const sourceIP: Address
    var cache: map<Address, MAC>
    var requests: map<Address, PendingRequest>

    /** The signals not yet closed-and-cleared. */
    ghost function Signals(): set<Channel>
      reads this, requests.Values
    {
      set p | p in requests.Values && p.gotReply != null :: p.gotReply
    }

    /** Every signal still referenced is open, and no two records share
        one: this is what lets handleReply close a signal without a
        double close. */
    ghost predicate Valid()
      reads this, requests.Values, Signals()
    {
      (forall p :: p in requests.Values && p.gotReply != null ==> !p.gotReply.closed) &&
      (forall p, q :: p in requests.Values && q in requests.Values && p != q && p.gotReply != null ==>
         p.gotReply != q.gotReply)
    }

    /** NewCustomARP: empty cache and no pending requests. */
    constructor (mac: MAC, ip: Address)
      ensures Valid()
      ensures sourceMAC == mac && sourceIP == ip && cache == map[] && requests == map[]
    {
      sourceMAC := mac;
      sourceIP := ip;
      cache := map[];
      requests := map[];
    }

    /** handleReply: the sender's hardware address is cached only when a
        request for the sender's address is pending; that record's signal is
        then closed, once, and cleared, so a later reply closes nothing. */
    method HandleReply(reply: ArpPacket)
      requires Valid()
      modifies this, requests.Values, Signals()
      ensures Valid()
      ensures requests == old(requests)
      ensures cache == CacheAfter(old(cache), requests.Keys, [reply])
      ensures var ip := reply.senderProtocolAddress;
        ip in requests ==> (requests[ip].gotReply == null &&
          (old(requests[ip].gotReply) != null ==> old(requests[ip].gotReply).closed))
      ensures forall p :: p in requests.Values && p != Pending(reply.senderProtocolAddress) ==>
        p.gotReply == old(p.gotReply)
      ensures Signals() <= old(Signals())
    {
      var ip := reply.senderProtocolAddress;
      if ip in requests {
        var pending := requests[ip];
        cache := cache[ip := reply.senderHardwareAddress];
        if pending.gotReply != null {
          pending.gotReply.Close();
          pending.gotReply := null;
        }
      }
    }

    /** The handler Bind registers for EtherType ARP: a request for our
        address is answered, a reply goes to handleReply, and anything else
        is dropped without effect. */
    method Receive(payload: seq<Byte>) returns (sent: seq<Frame>)
      requires Valid()
      modifies this, requests.Values, Signals()
      ensures Valid()
      ensures requests == old(requests)
      ensures Dispatch(payload).Request? ==>
        sent == (match AnswerRequest(sourceMAC, sourceIP, Dispatch(payload).packet) case Some(f) => [f] case None => [])
      ensures !Dispatch(payload).Request? ==> sent == []
      ensures Dispatch(payload).Reply? ==> cache == CacheAfter(old(cache), requests.Keys, [Dispatch(payload).packet])
      ensures !Dispatch(payload).Reply? ==> cache == old(cache)
    {
      sent := [];
      match Dispatch(payload) {
        case Request(p) =>
          var answer := AnswerRequest(sourceMAC, sourceIP, p);
          if answer.Some? {
            sent := [answer.value];
          }
        case Reply(p) =>
          HandleReply(p);
        case _ =>
      }
    }

    /** The record pending for an address, if any. */
    function Pending(address: Address): PendingRequest?
      reads this
    {
      if address in requests then requests[address] else null
    }

    /** handleReply for each of the replies, in order. */
    method HandleReplies(replies: seq<ArpPacket>)
      requires Valid()
      modifies this, requests.Values, Signals()
      ensures Valid()
      ensures requests == old(requests)
      ensures cache == CacheAfter(old(cache), requests.Keys, replies)
    {
      ghost var signals := Signals();
      for k := 0 to |replies|
        invariant Valid()
        invariant requests == old(requests)
        invariant Signals() <= signals
        invariant cache == CacheAfter(old(cache), requests.Keys, replies[..k])
      {
        HandleReply(replies[k]);
        assert replies[..k + 1][..k] == replies[..k];
      }
      assert replies[..|replies|] == replies;
    }

    /** The first half of arpResolve: join the pending request for the
        address, or create one (and the broadcast query its task sends)
        when there is none. */
    method Join(address: Address) returns (pending: PendingRequest, created: bool, query: Option<Frame>)
      requires Valid()
      modifies this
      ensures Valid()
      ensures cache == old(cache)
      ensures created <==> address !in old(requests)
      ensures requests == old(requests)[address := pending]
      ensures !created ==> pending == old(requests)[address] && query == None
      ensures created ==> fresh(pending) && pending.gotReply != null && fresh(pending.gotReply)
      ensures created ==> query == Some(QueryFrame(sourceMAC, sourceIP, address))
    {
      if address in requests {
        pending, created, query := requests[address], false, None;
      } else {
        pending := new PendingRequest();
        requests := requests[address := pending];
        created := true;
        query := Some(QueryFrame(sourceMAC, sourceIP, address));
      }
    }

    /** The second half of arpResolve, once the wait is over: the creator
        of the record, and only it, removes it; the cache then decides, and
        a miss is ErrARPTimeout (as intended; see LookupAsWritten). */
    method Leave(address: Address, created: bool) returns (r: Result<MAC>)
      requires Valid()
      modifies this
      ensures Valid()
      ensures cache == old(cache)
      ensures requests == if created then old(requests) - {address} else old(requests)
      ensures r == Lookup(cache, address)
    {
      if created {
        requests := requests - {address};
      }
      r := Lookup(cache, address);
    }

    /** Resolve: a cache hit is returned without touching the requests
        table; a miss goes to arpResolve. */
    method Resolve(address: Address, replies: seq<ArpPacket>) returns (r: Result<MAC>, sent: seq<Frame>)
      requires Valid()
      modifies this, requests.Values, Signals()
      ensures Valid()
      ensures address in old(cache) ==>
        r == Ok(old(cache)[address]) && sent == [] && cache == old(cache) && requests == old(requests)
      ensures address !in old(cache) ==>
        r == (match LastReplyFrom(replies, address) case Some(m) => Ok(m) case None => Err(ArpTimeout))
      ensures address !in old(cache) ==>
        sent == (if address in old(requests) then [] else [QueryFrame(sourceMAC, sourceIP, address)])
      ensures address !in old(cache) ==> requests == old(requests)
      ensures address !in old(cache) ==> cache == CacheAfter(old(cache), old(requests).Keys + {address}, replies)
    {
      if address in cache {
        r, sent := Ok(cache[address]), [];
      } else {
        r, sent := ArpResolve(address, replies);
      }
    }

    /** arpResolve done sequentially: the caller joins or creates the
        pending request, the replies that arrive before the wait ends are
        handled, and the caller leaves. The result is the hardware address
        of the last reply from the address, or ErrARPTimeout; the cache has
        taken the replies for every address pending meanwhile, and the
        table of pending requests ends as it began. */
    method ArpResolve(address: Address, replies: seq<ArpPacket>) returns (r: Result<MAC>, sent: seq<Frame>)
      requires Valid() && address !in cache
      modifies this, requests.Values, Signals()
      ensures Valid()
      ensures r == (match LastReplyFrom(replies, address) case Some(m) => Ok(m) case None => Err(ArpTimeout))
      ensures sent == (if address in old(requests) then [] else [QueryFrame(sourceMAC, sourceIP, address)])
      ensures requests == old(requests)
      ensures cache == CacheAfter(old(cache), old(requests).Keys + {address}, replies)
    {
      ghost var before := requests;
      var pending, created, query := Join(address);
      ghost var joined := requests;
      assert joined.Keys == before.Keys + {address};
      sent := if query.Some? then [query.value] else [];
      HandleReplies(replies);
      CacheAfterPending(old(cache), joined.Keys, replies, address);
      r := Leave(address, created);
      if created {
        RemoveAdded(before, address, pending);
      } else {
        assert joined == before;
      }
    }
  }
}
