/** The Ethernet names the other layers use: MAC addresses, EtherTypes and
    frames (ethernet/packet.go), and the constants that are defined outside
    the modelled files. */
module Ethernet {
  import opened Common

  /** A 48-bit MAC address. */
  type MAC = s: seq<Byte> | |s| == 6 witness [0, 0, 0, 0, 0, 0]

  /** Either an EtherType or, for values up to 1500, an IEEE 802.3 length. */
  type EtherType = U16

  const Broadcast: MAC := [0xFF, 0xFF, 0xFF, 0xFF, 0xFF, 0xFF]

  /** The zero MAC, Go's zero value of ethernet.MAC. */
  const ZeroMAC: MAC := [0, 0, 0, 0, 0, 0]

  /** The IPv4 multicast prefix 01:00:5E:00:00:00. */
  const MulticastIPv4: MAC := [0x01, 0x00, 0x5E, 0x00, 0x00, 0x00]

  const EtherTypeIPv4: EtherType := 0x0800
  const EtherTypeARP: EtherType := 0x0806

  /** The IEEE 802.3 length/type rule: values up to 1500 are lengths. */
  predicate IsLength(t: EtherType)
  {
    t <= 1500
  }

  /** An Ethernet frame (ethernet.Packet). */
  datatype Frame = Frame(destination: MAC, source: MAC, etherType: EtherType, payload: seq<Byte>)
}
