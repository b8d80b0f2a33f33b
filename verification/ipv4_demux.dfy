/** The IPv4 demultiplexer of ipv4/demux.go: a table from protocol number to
    output function, with the default output stored under protocol 255. */
module Ipv4Demux {
  import opened Common
  import opened Ipv4Packet

  /** The protocol number under which NewDemux stores the default output. */
  const DefaultProtocol: Protocol := 255

  /** One call `go output(packet)` made by the receive loop. */
  datatype Delivery<Output> = Delivery(output: Output, packet: Packet)

  class Demux<Output> {
    var outputs: map<Protocol, Output>

    /** Protocol 255 always has an entry, though SetOutput may replace it. */
    ghost predicate Valid()
      reads this
    {
      DefaultProtocol in outputs
    }

    /** NewDemux: a table holding only the default output, under protocol
        255. The channel of inbound packets is not kept. */
    constructor (defaultOutput: Output)
      ensures Valid()
      ensures outputs == map[DefaultProtocol := defaultOutput]
    {
      outputs := map[DefaultProtocol := defaultOutput];
    }

    /** SetOutput: no protocol is refused; only that protocol's entry
        changes, so registering 255 replaces the default. */
    method SetOutput(protocol: Protocol, output: Output)
      requires Valid()
      modifies this
      ensures Valid()
      ensures outputs == old(outputs)[protocol := output]
    {
      outputs := outputs[protocol := output];
    }

    /** The lookup of receiveAll for one packet's protocol. */
    function OutputFor(protocol: Protocol): (o: Output)
      reads this
      requires Valid()
    {
      if protocol in outputs then outputs[protocol] else outputs[DefaultProtocol]
    }

    /** receiveAll: every inbound packet, in order, is handed to exactly one
        output: its protocol's when registered, the one under 255
        otherwise. */
    method ReceiveAll(incoming: seq<Packet>) returns (deliveries: seq<Delivery<Output>>)
      requires Valid()
      ensures |deliveries| == |incoming|
      ensures forall i :: 0 <= i < |incoming| ==> deliveries[i].packet == incoming[i]
      ensures forall i :: 0 <= i < |incoming| && incoming[i].header.protocol in outputs ==>
                deliveries[i].output == outputs[incoming[i].header.protocol]
      ensures forall i :: 0 <= i < |incoming| && incoming[i].header.protocol !in outputs ==>
                deliveries[i].output == outputs[DefaultProtocol]
    {
      deliveries := [];
      for k := 0 to |incoming|
        invariant |deliveries| == k
        invariant forall i :: 0 <= i < k ==> deliveries[i] == Delivery(OutputFor(incoming[i].header.protocol), incoming[i])
      {
        var p := incoming[k];
        var output := OutputFor(p.header.protocol);
        deliveries := deliveries + [Delivery(output, p)];
      }
    }
  }
}
