/** The ICMP layer (icmp/layer.go): the handler it registers for protocol 1
    answers every echo request with an echo reply to the sender and drops
    everything else. Packets sent on the transmit channel are returned as a
    sequence. */
module IcmpLayer {
  import opened Common
  import Ipv4Packet
  import IcmpPacket

  /** What the handler does with one inbound IPv4 packet. */
  datatype Decision =
    | Drop(reason: Error)                      // the payload is not a readable ICMP packet
    | DropUnknownType(packet: IcmpPacket.Packet) // readable, but not an echo request
    | Answer(request: IcmpPacket.Packet)         // an echo request to answer

  /** The handler's decision: the payload is read as an ICMP packet and only
      an echo request is answered. */
  function Classify(packet: Ipv4Packet.Packet): (d: Decision)
    ensures d.Drop? <==> IcmpPacket.NewPacket(packet.payload).Err?
    ensures d.Answer? <==> IcmpPacket.NewPacket(packet.payload).Ok? &&
                           packet.payload[0] == IcmpPacket.EchoRequestType
    ensures d.Answer? ==> IcmpPacket.Write(d.request) == packet.payload
  {
    match IcmpPacket.NewPacket(packet.payload)
    case Err(e) => Drop(e)
    case Ok(p) =>
      if p.header.icmpType == IcmpPacket.EchoRequestType then Answer(p) else DropUnknownType(p)
  }

  /** handleEchoRequest: the reply carries the request's identifier,
      sequence number and payload in a stamped echo reply, inside a new
      IPv4 packet to the requester whose TotalLength counts the reply. */
  method HandleEchoRequest(source: Ipv4Packet.Address, request: IcmpPacket.Packet, counter: U32)
    returns (sent: Ipv4Packet.Packet)
    ensures sent.header.destination == source && sent.header.protocol == Ipv4Packet.ProtocolICMP
    ensures sent.header.version == 4 && sent.header.ihl == 5 && sent.header.options == []
    ensures |sent.payload| == 8 + |request.data.payload|
    ensures sent.header.totalLength == (20 + |sent.payload|) % 0x1_0000
    ensures IcmpPacket.NewPacket(sent.payload).Ok?
    ensures IcmpPacket.NewPacket(sent.payload).value.header.icmpType == IcmpPacket.EchoReplyType
    ensures IcmpPacket.NewPacket(sent.payload).value.header.code == IcmpPacket.EchoReplyCode
    ensures IcmpPacket.NewPacket(sent.payload).value.data == request.data
    ensures IcmpPacket.Stamped(IcmpPacket.NewPacket(sent.payload).value)
  {
    var data := request.data;
    var reply := IcmpPacket.NewEchoReply(data.identifier, data.sequenceNumber, data.payload);
    var p := new Ipv4Packet.OutgoingPacket(Ipv4Packet.NewPacketTo(source, Ipv4Packet.ProtocolICMP, [], counter));
    p.WritePayload(IcmpPacket.Write(reply));
    IcmpPacket.RoundTrip(reply);
    sent := p.Value();
  }

  /** The handler bound to protocol 1: exactly one packet is sent, and only
      for an echo request; it answers the packet's source with the request's
      data. */
  method Receive(packet: Ipv4Packet.Packet, counter: U32) returns (sent: seq<Ipv4Packet.Packet>)
    ensures |sent| <= 1
    ensures |sent| == 1 <==> Classify(packet).Answer?
    ensures |sent| == 1 ==> sent[0].header.destination == packet.header.source
    ensures |sent| == 1 ==> (IcmpPacket.NewPacket(sent[0].payload).Ok? &&
              IcmpPacket.NewPacket(sent[0].payload).value.header.icmpType == IcmpPacket.EchoReplyType &&
              IcmpPacket.NewPacket(sent[0].payload).value.data == Classify(packet).request.data)
  {
    var d := Classify(packet);
    match d {
      case Answer(request) =>
        var reply := HandleEchoRequest(packet.header.source, request, counter);
        sent := [reply];
      case _ =>
        sent := [];
    }
  }
}
