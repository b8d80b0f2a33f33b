/** The Ethernet demultiplexer of ethernet/demux.go: a table from EtherType
    to output function, with the default output stored under EtherType 0. */
module EthernetDemux {
  import opened Common
  import opened Ethernet

  /** One call `go output(frame)` made by the receive loop. */
  datatype Delivery<Output> = Delivery(output: Output, frame: Frame)

  class Demux<Output> {
    var outputs: map<EtherType, Output>
    /** The output given to NewDemux. */
    ghost const defaultOutput: Output

    /** Key 0 holds the default output; since 0 is a length, no SetOutput
        can replace it. */
    ghost predicate Valid()
      reads this
    {
      0 in outputs && outputs[0] == defaultOutput
    }

    /** NewDemux: a table holding only the default output, under EtherType 0. */
    constructor (defaultOutput: Output)
      ensures Valid()
      ensures outputs == map[0 := defaultOutput] && this.defaultOutput == defaultOutput
    {
      outputs := map[0 := defaultOutput];
      this.defaultOutput := defaultOutput;
    }

    /** SetOutput: registering for a length value panics in the source, so
        callers must pass a true EtherType; only that entry changes. */
    method SetOutput(etherType: EtherType, output: Output)
      requires Valid()
      requires !IsLength(etherType)
      modifies this
      ensures Valid()
      ensures outputs == old(outputs)[etherType := output]
      ensures outputs[0] == old(outputs)[0]
    {
      outputs := outputs[etherType := output];
    }

    /** The lookup of receiveAll for one frame's EtherType. */
    function OutputFor(etherType: EtherType): (o: Output)
      reads this
      requires Valid()
      ensures etherType in outputs && !IsLength(etherType) ==> o == outputs[etherType]
      ensures etherType !in outputs || IsLength(etherType) ==> o == defaultOutput
    {
      if etherType in outputs && !IsLength(etherType) then outputs[etherType] else outputs[0]
    }

    /** receiveAll: every inbound frame, in order, is handed to exactly one
        output: its EtherType's when that is registered and not a length,
        the default output otherwise. */
    method ReceiveAll(incoming: seq<Frame>) returns (deliveries: seq<Delivery<Output>>)
      requires Valid()
      ensures |deliveries| == |incoming|
      ensures forall i :: 0 <= i < |incoming| ==> deliveries[i].frame == incoming[i]
      ensures forall i :: 0 <= i < |incoming| && incoming[i].etherType in outputs && !IsLength(incoming[i].etherType) ==>
                deliveries[i].output == outputs[incoming[i].etherType]
      ensures forall i :: 0 <= i < |incoming| && (incoming[i].etherType !in outputs || IsLength(incoming[i].etherType)) ==>
                deliveries[i].output == defaultOutput
    {
      deliveries := [];
      for k := 0 to |incoming|
        invariant |deliveries| == k
        invariant forall i :: 0 <= i < k ==> deliveries[i] == Delivery(OutputFor(incoming[i].etherType), incoming[i])
      {
        var p := incoming[k];
        var output := OutputFor(p.etherType);
        deliveries := deliveries + [Delivery(output, p)];
      }
    }
  }
}
