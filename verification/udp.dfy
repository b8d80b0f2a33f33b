/** UDP datagrams (udp/packet.go): the 8-byte header of RFC 768, reading a
    datagram with its length and checksum validation, writing it, and its
    checksum, which as written covers the datagram only. */
module Udp {
  import opened Common
  import Checksum
  import Ipv4Packet

  type Address = Ipv4Packet.Address

  datatype Header = Header(sourcePort: U16, destinationPort: U16, length: U16, checksum: U16)

  datatype Packet = Packet(header: Header, payload: seq<Byte>)

  /** Header.Write: the four fields, big-endian. */
  function HeaderBytes(h: Header): (b: seq<Byte>)
    ensures |b| == 8
  {
    BE16(h.sourcePort) + BE16(h.destinationPort) + BE16(h.length) + BE16(h.checksum)
  }

  /** NewHeader on the 8 bytes read. */
  function ParseHeader(b: seq<Byte>): (h: Header)
    requires |b| == 8
    ensures HeaderBytes(h) == b
  {
    var h := Header(ReadBE16(b[0], b[1]), ReadBE16(b[2], b[3]), ReadBE16(b[4], b[5]), ReadBE16(b[6], b[7]));
    assert HeaderBytes(h) == b;
    h
  }

  lemma ParseHeaderBytes(h: Header)
    ensures ParseHeader(HeaderBytes(h)) == h
  {
    var b := HeaderBytes(h);
    assert b[0..2] == BE16(h.sourcePort) && b[2..4] == BE16(h.destinationPort);
    assert b[4..6] == BE16(h.length) && b[6..8] == BE16(h.checksum);
    BE16Injective(ParseHeader(b).sourcePort, h.sourcePort);
    BE16Injective(ParseHeader(b).destinationPort, h.destinationPort);
    BE16Injective(ParseHeader(b).length, h.length);
    BE16Injective(ParseHeader(b).checksum, h.checksum);
  }

  /** Packet.Write: the header, then the payload. */
  function PacketBytes(p: Packet): (b: seq<Byte>)
    ensures |b| == 8 + |p.payload| && b[..8] == HeaderBytes(p.header) && b[8..] == p.payload
  {
    HeaderBytes(p.header) + p.payload
  }

  /** The Internet checksum of prefix followed by the datagram written with
      its Checksum field zeroed. */
  function ChecksumOver(prefix: seq<Byte>, p: Packet): (c: U16)
    ensures c != 0
  {
    Checksum.InternetChecksum(prefix + PacketBytes(p.(header := p.header.(checksum := 0))))
  }

  /** Packet.CalculateChecksum: the datagram alone, with no pseudo-header. */
  function CalculateChecksum(p: Packet): (c: U16)
    ensures c != 0
  {
    Checksum.InternetChecksum(PacketBytes(p.(header := p.header.(checksum := 0))))
  }

  /** The stored Checksum does not enter the calculation. */
  lemma CalculateChecksumIgnoresField(p: Packet, c: U16)
    ensures CalculateChecksum(p.(header := p.header.(checksum := c))) == CalculateChecksum(p)
  {
    assert p.(header := p.header.(checksum := c)).(header := p.header.(checksum := 0))
        == p.(header := p.header.(checksum := 0));
  }

  const ProtocolUDP: Byte := 17

  /** The pseudo-header of RFC 768: source and destination address, a zero
      byte, the protocol number and the UDP length. */
  function PseudoHeader(source: Address, destination: Address, length: U16): (b: seq<Byte>)
    ensures |b| == 12
  {
    source + destination + [0, ProtocolUDP] + BE16(length)
  }

  /** The checksum of RFC 768, over the pseudo-header and the datagram. */
  function CalculateChecksumRfc768(p: Packet, source: Address, destination: Address): (c: U16)
    ensures c != 0
  {
    ChecksumOver(PseudoHeader(source, destination, p.header.length), p)
  }

  /** The addresses a datagram travelled between, when the checksum is to
      cover them. */
  datatype Endpoints = Endpoints(source: Address, destination: Address)

  /** The checksum a reader expects: without endpoints, the one the source
      calculates; with them, the one of RFC 768. */
  function Expected(p: Packet, endpoints: Option<Endpoints>): (c: U16)
    ensures c != 0
  {
    match endpoints
    case None => CalculateChecksum(p)
    case Some(e) => CalculateChecksumRfc768(p, e.source, e.destination)
  }

  /** The reading steps of NewPacket: the header, then Length - 8 payload
      bytes; a Length below 8 is refused, and a non-zero Checksum must be
      the expected one (zero means the sender computed none). Bytes after
      Length are left unread. */
  function Decode(s: seq<Byte>, endpoints: Option<Endpoints>): (r: Result<Packet>)
    ensures |s| < 8 ==> r == Err(if |s| == 0 then EOF else UnexpectedEOF)
    ensures |s| >= 8 && ReadBE16(s[4], s[5]) < 8 ==> r == Err(InvalidLength)
    ensures r.Ok? ==> (8 <= r.value.header.length <= |s| && HeaderBytes(r.value.header) == s[..8])
    ensures r.Ok? ==> r.value.payload == s[8..r.value.header.length]
    ensures r.Ok? ==> (r.value.header.checksum == 0 || r.value.header.checksum == Expected(r.value, endpoints))
  {
    var (header, rest) := TakeExact(s, 8);
    if header.Err? then Err(header.error)
    else
      var h := ParseHeader(header.value);
      if h.length < 8 then Err(InvalidLength)
      else
        var (payload, _) := TakeExact(rest, h.length - 8);
        if payload.Err? then Err(payload.error)
        else
          var p := Packet(h, payload.value);
          if h.checksum != 0 && Expected(p, endpoints) != h.checksum then Err(InvalidUdpChecksum)
          else Ok(p)
  }

  /** NewPacket as written: the checksum is checked without a
      pseudo-header. */
  function NewPacket(s: seq<Byte>): (r: Result<Packet>)
    ensures |s| >= 8 && ReadBE16(s[4], s[5]) < 8 ==> r == Err(InvalidLength)
    ensures r.Ok? ==> (8 <= r.value.header.length <= |s| && HeaderBytes(r.value.header) == s[..8])
    ensures r.Ok? ==> r.value.payload == s[8..r.value.header.length]
    ensures r.Ok? ==> (r.value.header.checksum == 0 || r.value.header.checksum == CalculateChecksum(r.value))
  {
    Decode(s, None)
  }

  /** NewPacket checking the checksum of RFC 768 for the given endpoints. */
  function NewPacketRfc768(s: seq<Byte>, source: Address, destination: Address): (r: Result<Packet>)
    ensures r.Ok? ==> (8 <= r.value.header.length <= |s| && HeaderBytes(r.value.header) == s[..8])
    ensures r.Ok? ==> r.value.payload == s[8..r.value.header.length]
    ensures r.Ok? ==> (r.value.header.checksum == 0 ||
                       r.value.header.checksum == CalculateChecksumRfc768(r.value, source, destination))
  {
    Decode(s, Some(Endpoints(source, destination)))
  }

  /** A datagram whose Length counts its header and payload and whose
      Checksum is zero or the expected one is read back from its bytes,
      whatever follows them. */
  lemma {:induction false} DecodeRoundTrip(p: Packet, endpoints: Option<Endpoints>, rest: seq<Byte>)
    requires p.header.length == 8 + |p.payload|
    requires p.header.checksum == 0 || p.header.checksum == Expected(p, endpoints)
    ensures Decode(PacketBytes(p) + rest, endpoints) == Ok(p)
  {
    var s := PacketBytes(p) + rest;
    assert s[..8] == HeaderBytes(p.header) && s[8..] == p.payload + rest;
    assert TakeExact(s, 8) == (Ok(HeaderBytes(p.header)), p.payload + rest);
    ParseHeaderBytes(p.header);
    assert (p.payload + rest)[..|p.payload|] == p.payload && (p.payload + rest)[|p.payload|..] == rest;
    assert TakeExact(p.payload + rest, |p.payload|) == (Ok(p.payload), rest);
    assert Packet(p.header, p.payload) == p;
  }

  lemma RoundTrip(p: Packet, rest: seq<Byte>)
    requires p.header.length == 8 + |p.payload|
    requires p.header.checksum == 0 || p.header.checksum == CalculateChecksum(p)
    ensures NewPacket(PacketBytes(p) + rest) == Ok(p)
  {
    DecodeRoundTrip(p, None, rest);
  }

  lemma RoundTripRfc768(p: Packet, source: Address, destination: Address, rest: seq<Byte>)
    requires p.header.length == 8 + |p.payload|
    requires p.header.checksum == 0 || p.header.checksum == CalculateChecksumRfc768(p, source, destination)
    ensures NewPacketRfc768(PacketBytes(p) + rest, source, destination) == Ok(p)
  {
    DecodeRoundTrip(p, Some(Endpoints(source, destination)), rest);
  }

  /** With the Length right, a zero Checksum skips validation, and any other
      Checksum than the calculated one is refused with InvalidChecksum. */
  lemma ChecksumValidation(p: Packet, c: U16, rest: seq<Byte>)
    requires p.header.length == 8 + |p.payload|
    ensures c == 0 ==> NewPacket(PacketBytes(p.(header := p.header.(checksum := c))) + rest).Ok?
    ensures c != 0 && c != CalculateChecksum(p) ==>
      NewPacket(PacketBytes(p.(header := p.header.(checksum := c))) + rest) == Err(InvalidUdpChecksum)
  {
    var q := p.(header := p.header.(checksum := c));
    CalculateChecksumIgnoresField(p, c);
    var s := PacketBytes(q) + rest;
    assert s[..8] == HeaderBytes(q.header) && s[8..] == q.payload + rest;
    assert TakeExact(s, 8) == (Ok(HeaderBytes(q.header)), q.payload + rest);
    ParseHeaderBytes(q.header);
    assert (q.payload + rest)[..|q.payload|] == q.payload && (q.payload + rest)[|q.payload|..] == rest;
    assert TakeExact(q.payload + rest, |q.payload|) == (Ok(q.payload), rest);
    assert Packet(q.header, q.payload) == q;
  }

  // ----- The pseudo-header --------------------------------------------------

  /** An empty datagram between ports 0 sent from 10.0.0.1 to 10.0.0.2,
      with the checksum RFC 768 gives it. */
  const InteropDatagram: Packet := Packet(Header(0, 0, 8, 0xEBDB), [])

  lemma InteropPseudoHeaderSum()
    ensures Checksum.WordSum(PseudoHeader([10, 0, 0, 1], [10, 0, 0, 2], 8)) == 0x141C
  {
    var b := PseudoHeader([10, 0, 0, 1], [10, 0, 0, 2], 8);
    assert b == [10, 0, 0, 1, 10, 0, 0, 2, 0, 17, 0, 8];
    assert Checksum.WordSum(b[10..]) == 0x0008;
    assert Checksum.WordSum(b[8..]) == 0x0011 + 0x0008;
    assert Checksum.WordSum(b[6..]) == 0x0002 + 0x0011 + 0x0008;
    assert Checksum.WordSum(b[4..]) == 0x0A00 + 0x0002 + 0x0011 + 0x0008;
    assert Checksum.WordSum(b[2..]) == 0x0001 + 0x0A00 + 0x0002 + 0x0011 + 0x0008;
  }

  lemma InteropDatagramSum()
    ensures Checksum.WordSum(PacketBytes(InteropDatagram.(header := InteropDatagram.header.(checksum := 0)))) == 8
  {
    var b := PacketBytes(InteropDatagram.(header := InteropDatagram.header.(checksum := 0)));
    assert b == [0, 0, 0, 0, 0, 8, 0, 0];
    assert Checksum.WordSum(b[6..]) == 0;
    assert Checksum.WordSum(b[4..]) == 8;
  }

  /** The datagram's checksum is right by RFC 768, yet NewPacket as written
      refuses it, since it expects the checksum without the pseudo-header
      (0xFFF7); checking against the pseudo-header accepts it. */
  lemma PseudoHeaderOmitted()
    ensures CalculateChecksumRfc768(InteropDatagram, [10, 0, 0, 1], [10, 0, 0, 2]) == InteropDatagram.header.checksum
    ensures NewPacket(PacketBytes(InteropDatagram)) == Err(InvalidUdpChecksum)
    ensures NewPacketRfc768(PacketBytes(InteropDatagram), [10, 0, 0, 1], [10, 0, 0, 2]) == Ok(InteropDatagram)
  {
    var p := InteropDatagram;
    var z := PacketBytes(p.(header := p.header.(checksum := 0)));
    var pseudo := PseudoHeader([10, 0, 0, 1], [10, 0, 0, 2], 8);
    InteropPseudoHeaderSum();
    InteropDatagramSum();
    Checksum.WordSumAppend(pseudo, z);
    assert Checksum.Fold(0x1424) == 0x1424;
    assert Checksum.Fold(8) == 8;
    assert CalculateChecksum(p) == 0xFFF7;
    ChecksumValidation(p.(header := p.header.(checksum := 0)), 0xEBDB, []);
    assert PacketBytes(p) + [] == PacketBytes(p);
    RoundTripRfc768(p, [10, 0, 0, 1], [10, 0, 0, 2], []);
  }

  /** A datagram with its checksum set to the calculated one. */
  function WithChecksum(p: Packet): (q: Packet)
    ensures q.header.checksum == CalculateChecksum(p)
    ensures q.header.(checksum := p.header.checksum) == p.header && q.payload == p.payload
  {
    p.(header := p.header.(checksum := CalculateChecksum(p)))
  }

  /** The sum of a datagram with its checksum set complements to 0 and so,
      after the remap, the Internet checksum over it is 0xFFFF: a receiver
      that sums the whole datagram sees it is intact. */
  lemma StampedDatagramSumsToAllOnes(p: Packet)
    requires 8 + |p.payload| <= 131072
    ensures Checksum.InternetChecksum(PacketBytes(WithChecksum(p))) == 0xFFFF
  {
    var z := p.(header := p.header.(checksum := 0));
    var prefix := BE16(p.header.sourcePort) + BE16(p.header.destinationPort) + BE16(p.header.length);
    assert PacketBytes(z) == prefix + [0, 0] + p.payload;
    assert PacketBytes(WithChecksum(p)) == prefix + BE16(CalculateChecksum(p)) + p.payload;
    Checksum.StampedSumsToAllOnes(prefix, p.payload);
  }
}
