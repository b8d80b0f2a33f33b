/** ICMP packets (icmp/packet.go): the common 4-byte header, the echo
    request/reply data of RFC 792 (identifier, sequence number, payload),
    reading, writing and stamping the checksum. */
module IcmpPacket {
  import opened Common
  import Checksum

  const EchoReplyType: Byte := 0
  const EchoRequestType: Byte := 8
  const EchoReplyCode: Byte := 0
  const EchoRequestCode: Byte := 0

  datatype Header = Header(icmpType: Byte, code: Byte, checksum: U16)

  /** The echo request/reply data, the only kind of data the package has. */
  datatype Echo = Echo(identifier: U16, sequenceNumber: U16, payload: seq<Byte>)

  datatype Packet = Packet(header: Header, data: Echo)

  /** The (type, code) pairs NewPacket reads data for: an echo request or an
      echo reply. (For the reply the source compares the code with
      EchoReplyType, which has the same value as EchoReplyCode.) */
  predicate Supported(icmpType: Byte, code: Byte): (b: bool)
    ensures b <==> code == 0 && (icmpType == EchoRequestType || icmpType == EchoReplyType)
  {
    (icmpType == EchoRequestType && code == EchoRequestCode) ||
    (icmpType == EchoReplyType && code == EchoReplyType)
  }

  /** Echo.Write, with the layout it is meant to have: identifier and
      sequence number big-endian, then the payload. */
  function EchoBytes(d: Echo): (b: seq<Byte>)
    ensures |b| == 4 + |d.payload| && b[4..] == d.payload
  {
    BE16(d.identifier) + BE16(d.sequenceNumber) + d.payload
  }

  /** Packet.Write: type, code, checksum, then the data. */
  function Write(p: Packet): (b: seq<Byte>)
    ensures |b| == 8 + |p.data.payload|
    ensures b[0] == p.header.icmpType && b[1] == p.header.code && b[2..4] == BE16(p.header.checksum)
    ensures b[4..] == EchoBytes(p.data)
  {
    [p.header.icmpType, p.header.code] + BE16(p.header.checksum) + EchoBytes(p.data)
  }

  /** NewEcho: the 4-byte echo header, then everything left as the payload
      (ioutil.ReadAll). */
  function NewEcho(s: seq<Byte>): (r: Result<Echo>)
    ensures r.Ok? <==> |s| >= 4
    ensures r.Ok? ==> EchoBytes(r.value) == s
    ensures r.Err? ==> r.error == (if |s| == 0 then EOF else UnexpectedEOF)
  {
    var (header, rest) := TakeExact(s, 4);
    if header.Err? then Err(header.error)
    else
      var h := header.value;
      var d := Echo(ReadBE16(h[0], h[1]), ReadBE16(h[2], h[3]), rest);
      assert EchoBytes(d) == h + rest;
      Ok(d)
  }

  /** NewPacket: the 4-byte header; echo data for an echo request or reply,
      ErrUnsupportedICMPPacket for any other type and code. A packet read
      is exactly what Write produces for it. */
  function NewPacket(s: seq<Byte>): (r: Result<Packet>)
    ensures |s| < 4 ==> r == Err(if |s| == 0 then EOF else UnexpectedEOF)
    ensures |s| >= 4 && !Supported(s[0], s[1]) ==> r == Err(UnsupportedIcmpPacket)
    ensures r.Ok? <==> |s| >= 8 && Supported(s[0], s[1])
    ensures r.Ok? ==> Write(r.value) == s
  {
    var (header, rest) := TakeExact(s, 4);
    if header.Err? then Err(header.error)
    else
      var b := header.value;
      var h := Header(b[0], b[1], ReadBE16(b[2], b[3]));
      if Supported(h.icmpType, h.code) then
        match NewEcho(rest)
        case Ok(d) =>
          assert Write(Packet(h, d)) == b + rest;
          Ok(Packet(h, d))
        case Err(e) => Err(if |rest| == 0 then EOF else UnexpectedEOF)
      else Err(UnsupportedIcmpPacket)
  }

  /** Distinct packets are written differently. */
  lemma WriteInjective(p: Packet, q: Packet)
    requires Write(p) == Write(q)
    ensures p == q
  {
    var a, b := Write(p), Write(q);
    BE16Injective(p.header.checksum, q.header.checksum);
    assert a[2..4] == BE16(p.header.checksum) && b[2..4] == BE16(q.header.checksum);
    var x, y := EchoBytes(p.data), EchoBytes(q.data);
    assert x[0..2] == BE16(p.data.identifier) && y[0..2] == BE16(q.data.identifier);
    assert x[2..4] == BE16(p.data.sequenceNumber) && y[2..4] == BE16(q.data.sequenceNumber);
    BE16Injective(p.data.identifier, q.data.identifier);
    BE16Injective(p.data.sequenceNumber, q.data.sequenceNumber);
  }

  /** Every echo request or reply is read back from its bytes. */
  lemma RoundTrip(p: Packet)
    requires Supported(p.header.icmpType, p.header.code)
    ensures NewPacket(Write(p)) == Ok(p)
  {
    var r := NewPacket(Write(p));
    WriteInjective(r.value, p);
  }

  /** The checksum field of p is the Internet checksum of p written with
      the field zeroed. */
  ghost predicate Stamped(p: Packet)
  {
    p.header.checksum == Checksum.InternetChecksum(Write(p.(header := p.header.(checksum := 0))))
  }

  /** WithChecksum: a copy whose checksum is stamped; nothing else changes. */
  function WithChecksum(p: Packet): (q: Packet)
    ensures Stamped(q)
    ensures q.(header := q.header.(checksum := p.header.checksum)) == p
  {
    var z := p.(header := p.header.(checksum := 0));
    var q := p.(header := p.header.(checksum := Checksum.InternetChecksum(Write(z))));
    assert q.(header := q.header.(checksum := 0)) == z;
    q
  }

  /** Stamping a stamped packet changes nothing. */
  lemma WithChecksumIdempotent(p: Packet)
    ensures WithChecksum(WithChecksum(p)) == WithChecksum(p)
  {
    var q := WithChecksum(p);
    assert q.(header := q.header.(checksum := 0)) == p.(header := p.header.(checksum := 0));
  }

  /** A stamped packet passes the receiver's check of RFC 1071: the checksum
      over all its bytes is 0xFFFF. */
  lemma StampedSumsToAllOnes(p: Packet)
    requires 8 + |p.data.payload| <= 131074
    ensures Checksum.InternetChecksum(Write(WithChecksum(p))) == 0xFFFF
  {
    var prefix := [p.header.icmpType, p.header.code];
    var z := p.(header := p.header.(checksum := 0));
    var q := WithChecksum(p);
    assert Write(z) == prefix + [0, 0] + EchoBytes(p.data);
    assert Write(q) == prefix + BE16(q.header.checksum) + EchoBytes(p.data);
    Checksum.StampedSumsToAllOnes(prefix, EchoBytes(p.data));
  }

  /** NewEchoRequest: a stamped echo request carrying ident, sequence and the
      payload. */
  function NewEchoRequest(ident: U16, sequence: U16, payload: seq<Byte>): (p: Packet)
    ensures p.header.icmpType == EchoRequestType && p.header.code == EchoRequestCode
    ensures p.data == Echo(ident, sequence, payload) && Stamped(p)
  {
    WithChecksum(Packet(Header(EchoRequestType, EchoRequestCode, 0), Echo(ident, sequence, payload)))
  }

  /** NewEchoReply: a stamped echo reply carrying ident, sequence and the
      payload. */
  function NewEchoReply(ident: U16, sequence: U16, payload: seq<Byte>): (p: Packet)
    ensures p.header.icmpType == EchoReplyType && p.header.code == EchoReplyCode
    ensures p.data == Echo(ident, sequence, payload) && Stamped(p)
  {
    WithChecksum(Packet(Header(EchoReplyType, EchoReplyCode, 0), Echo(ident, sequence, payload)))
  }

  /** Requests and replies built here are read back unchanged. */
  lemma EchoRoundTrip(ident: U16, sequence: U16, payload: seq<Byte>)
    ensures NewPacket(Write(NewEchoRequest(ident, sequence, payload))) == Ok(NewEchoRequest(ident, sequence, payload))
    ensures NewPacket(Write(NewEchoReply(ident, sequence, payload))) == Ok(NewEchoReply(ident, sequence, payload))
  {
    RoundTrip(NewEchoRequest(ident, sequence, payload));
    RoundTrip(NewEchoReply(ident, sequence, payload));
  }
}
