/** IPv4 headers and packets (ipv4/packet.go): the 20-byte raw header of
    section 3.1 of RFC 791 and the logical header it is converted to and from,
    the header checksum and the three ordered header checks, reading headers
    and packets from a byte stream, writing them, and building outgoing
    packets. */
module Ipv4Packet {
  import opened Common
  import opened Bits
  import Checksum

  /** An IPv4 address, four bytes in network order. */
  type Address = s: seq<Byte> | |s| == 4 witness [0, 0, 0, 0]

  type Protocol = Byte

  const ProtocolICMP: Protocol := 1

  const ZeroAddress: Address := [0, 0, 0, 0]

  /** Address.Bytes: a new slice that holds the address's bytes, copied one
      at a time. */
  method AddressBytes(a: Address) returns (s: seq<Byte>)
    ensures s == a
  {
    s := [0, 0, 0, 0];
    for i := 0 to 4
      invariant |s| == 4
      invariant forall j :: 0 <= j < i ==> s[j] == a[j]
    {
      s := s[i := a[i]];
    }
  }

  /** The logical header: every field separate, Options as read or to be
      written after the fixed 20 bytes. */
  datatype Header = Header(
    version: Byte,
    ihl: Byte,
    tos: Byte,
    totalLength: U16,
    identification: U16,
    flags: Byte,
    fragmentOffset: U16,
    ttl: Byte,
    protocol: Protocol,
    checksum: U16,
    source: Address,
    destination: Address,
    options: seq<Byte>)

  /** The raw header: the fields as laid out on the wire, Version and IHL
      sharing a byte and Flags and FragmentOffset sharing a word. */
  datatype RawHeader = RawHeader(
    versionIHL: Byte,
    tos: Byte,
    totalLength: U16,
    identification: U16,
    flagsFragmentOffset: U16,
    ttl: Byte,
    protocol: Protocol,
    checksum: U16,
    source: Address,
    destination: Address)

  datatype Packet = Packet(header: Header, payload: seq<Byte>)

  // ----- Conversions between the raw and the logical header -----------------

  /** Header.RawHeader: Version into the high nibble and IHL OR-ed into the
      low one (both uint8), Flags shifted to bits 15-13 and OR-ed with
      FragmentOffset (both uint16); every other field copied. */
  function ToRaw(h: Header): (raw: RawHeader)
    ensures raw.tos == h.tos && raw.totalLength == h.totalLength && raw.identification == h.identification
    ensures raw.ttl == h.ttl && raw.protocol == h.protocol && raw.checksum == h.checksum
    ensures raw.source == h.source && raw.destination == h.destination
    ensures h.version < 16 && h.ihl < 16 ==> raw.versionIHL == h.version * 16 + h.ihl
    ensures h.flags < 8 && h.fragmentOffset < 0x2000 ==>
      raw.flagsFragmentOffset == h.flags * 0x2000 + h.fragmentOffset
  {
    PackedFields(h);
    RawHeader(
      Or8((h.version * 16) % 0x100, h.ihl),
      h.tos, h.totalLength, h.identification,
      Or16((h.flags * 0x2000) % 0x1_0000, h.fragmentOffset),
      h.ttl, h.protocol, h.checksum, h.source, h.destination)
  }

  /** RawHeader.Header as written: Version is the high nibble, but IHL is
      masked with 0x07 and so loses bit 3 of its 4-bit field; Flags are
      bits 15-13 and FragmentOffset bits 12-0; Options are left empty. */
  function FromRaw(r: RawHeader): (h: Header)
    ensures h.version < 16 && h.ihl < 8 && h.flags < 8 && h.fragmentOffset < 0x2000
    ensures h.tos == r.tos && h.totalLength == r.totalLength && h.identification == r.identification
    ensures h.ttl == r.ttl && h.protocol == r.protocol && h.checksum == r.checksum
    ensures h.source == r.source && h.destination == r.destination && h.options == []
  {
    Header(
      (r.versionIHL / 16) % 16, r.versionIHL % 8,
      r.tos, r.totalLength, r.identification,
      (r.flagsFragmentOffset / 0x2000) % 8, r.flagsFragmentOffset % 0x2000,
      r.ttl, r.protocol, r.checksum, r.source, r.destination, [])
  }

  /** The conversion with IHL masked with 0x0F, the full field of section
      3.1 of RFC 791. */
  function FromRawCorrected(r: RawHeader): (h: Header)
    ensures h.(ihl := FromRaw(r).ihl) == FromRaw(r)
    ensures h.ihl < 16 && h.ihl % 8 == FromRaw(r).ihl
    ensures h.ihl == FromRaw(r).ihl <==> r.versionIHL % 16 < 8
  {
    FromRaw(r).(ihl := r.versionIHL % 16)
  }

  /** The packing of ToRaw: within their field widths, Version and IHL
      fill the two nibbles and Flags and FragmentOffset the two bit fields. */
  lemma PackedFields(h: Header)
    ensures h.version < 16 && h.ihl < 16 ==> Or8((h.version * 16) % 0x100, h.ihl) == h.version * 16 + h.ihl
    ensures h.flags < 8 && h.fragmentOffset < 0x2000 ==>
      Or16((h.flags * 0x2000) % 0x1_0000, h.fragmentOffset) == h.flags * 0x2000 + h.fragmentOffset
  {
    if h.version < 16 && h.ihl < 16 {
      Or8Nibbles(h.version, h.ihl);
      SmallFits(h.version * 16, 0x100);
    }
    if h.flags < 8 && h.fragmentOffset < 0x2000 {
      Or16FlagsOffset(h.flags, h.fragmentOffset);
      SmallFits(h.flags * 0x2000, 0x1_0000);
    }
  }

  /** Logical to raw to logical keeps every field but Options exactly when
      each field fits its place in the raw header. */
  lemma ConversionRoundTrip(h: Header)
    ensures FromRaw(ToRaw(h)) == h.(options := [])
        <==> h.version < 16 && h.ihl < 8 && h.flags < 8 && h.fragmentOffset < 0x2000
  {
    if h.version < 16 && h.ihl < 8 && h.flags < 8 && h.fragmentOffset < 0x2000 {
      ConversionKeepsFields(h);
    }
  }

  lemma ConversionKeepsFields(h: Header)
    requires h.version < 16 && h.ihl < 8 && h.flags < 8 && h.fragmentOffset < 0x2000
    ensures FromRaw(ToRaw(h)) == h.(options := [])
  {
    NibblesKept(h);
    FlagsKept(h);
  }

  lemma NibblesKept(h: Header)
    requires h.version < 16 && h.ihl < 8
    ensures FromRaw(ToRaw(h)).version == h.version && FromRaw(ToRaw(h)).ihl == h.ihl
  {
    var x := ToRaw(h).versionIHL;
    assert x == Or8((h.version * 16) % 0x100, h.ihl);
    PackNibbles(h.version, h.ihl);
    assert x % 8 == h.ihl % 8;
    SmallFits(h.ihl, 8);
  }

  lemma SmallFits(n: int, m: int)
    requires 0 <= n < m
    ensures n % m == n
  {
  }

  lemma FlagsKept(h: Header)
    requires h.flags < 8 && h.fragmentOffset < 0x2000
    ensures FromRaw(ToRaw(h)).flags == h.flags
    ensures FromRaw(ToRaw(h)).fragmentOffset == h.fragmentOffset
  {
    PackFlags(h.flags, h.fragmentOffset);
  }

  /** Raw to logical to raw is the identity exactly when bit 3 of the
      VersionIHL byte is clear: the 0x07 mask drops that bit. */
  lemma RawConversionRoundTrip(r: RawHeader)
    ensures ToRaw(FromRaw(r)) == r <==> r.versionIHL % 16 < 8
  {
    UnpackNibbles(r.versionIHL);
    UnpackFlags(r.flagsFragmentOffset);
  }

  /** With the 0x0F mask, the round trip keeps every IHL of the 4-bit
      field. */
  lemma CorrectedConversionRoundTrip(h: Header)
    ensures FromRawCorrected(ToRaw(h)) == h.(options := [])
        <==> h.version < 16 && h.ihl < 16 && h.flags < 8 && h.fragmentOffset < 0x2000
  {
    if h.version < 16 && h.ihl < 16 && h.flags < 8 && h.fragmentOffset < 0x2000 {
      PackNibbles(h.version, h.ihl);
      PackFlags(h.flags, h.fragmentOffset);
    }
  }

  /** An IHL from 8 to 15, legal under RFC 791, comes back 8 smaller. */
  lemma IhlMaskDropsBit3(h: Header)
    requires h.version < 16 && 8 <= h.ihl < 16
    ensures FromRaw(ToRaw(h)).ihl == h.ihl - 8
  {
    PackNibbles(h.version, h.ihl);
    assert FromRaw(ToRaw(h)).ihl == h.ihl % 8;
  }

  /** The VersionIHL byte ToRaw packs, read back through both masks. */
  lemma PackNibbles(version: Byte, ihl: Byte)
    requires version < 16 && ihl < 16
    ensures var x := Or8((version * 16) % 0x100, ihl);
      (x / 16) % 16 == version && x % 16 == ihl && x % 8 == ihl % 8
  {
    Or8Nibbles(version, ihl);
    NibbleSplit(version, ihl);
  }

  /** The FlagsFragmentOffset word ToRaw packs, read back. */
  lemma PackFlags(flags: Byte, fragmentOffset: U16)
    requires flags < 8 && fragmentOffset < 0x2000
    ensures var y := Or16((flags * 0x2000) % 0x1_0000, fragmentOffset);
      (y / 0x2000) % 8 == flags && y % 0x2000 == fragmentOffset
  {
    Or16FlagsOffset(flags, fragmentOffset);
    FlagsSplit(flags, fragmentOffset);
  }

  /** A VersionIHL byte split by FromRaw and packed again by ToRaw. */
  lemma UnpackNibbles(x: Byte)
    ensures Or8((((x / 16) % 16) * 16) % 0x100, x % 8) == x <==> x % 16 < 8
  {
    var v := x / 16;
    assert v % 16 == v && (v * 16) % 0x100 == v * 16;
    Or8Nibbles(v, x % 8);
    assert x == v * 16 + x % 16;
    assert x % 16 < 8 <==> x % 16 == x % 8;
  }

  /** A FlagsFragmentOffset word split by FromRaw and packed again. */
  lemma UnpackFlags(f: U16)
    ensures Or16((((f / 0x2000) % 8) * 0x2000) % 0x1_0000, f % 0x2000) == f
  {
    var fl := f / 0x2000;
    assert fl % 8 == fl && (fl * 0x2000) % 0x1_0000 == fl * 0x2000;
    Or16FlagsOffset(fl, f % 0x2000);
  }

  lemma NibbleSplit(hi: nat, lo: nat)
    requires hi < 16 && lo < 16
    ensures (hi * 16 + lo) / 16 % 16 == hi && (hi * 16 + lo) % 16 == lo
    ensures (hi * 16 + lo) % 8 == lo % 8
    ensures (hi * 16) % 0x100 == hi * 16
  {
  }

  lemma FlagsSplit(hi: nat, lo: nat)
    requires hi < 8 && lo < 0x2000
    ensures (hi * 0x2000 + lo) / 0x2000 % 8 == hi && (hi * 0x2000 + lo) % 0x2000 == lo
    ensures (hi * 0x2000) % 0x1_0000 == hi * 0x2000
  {
  }

  // ----- Wire layout ---------------------------------------------------------

  /** RawHeader.Write: the fields in order, big-endian, 20 bytes. */
  function RawBytes(r: RawHeader): (b: seq<Byte>)
    ensures |b| == 20
  {
    [r.versionIHL, r.tos] + BE16(r.totalLength) + BE16(r.identification)
      + BE16(r.flagsFragmentOffset) + [r.ttl, r.protocol] + BE16(r.checksum)
      + r.source + r.destination
  }

  /** NewRawHeader on 20 bytes read: the raw header whose layout they are. */
  function ParseRaw(b: seq<Byte>): (r: RawHeader)
    requires |b| == 20
    ensures RawBytes(r) == b
  {
    var r := RawHeader(
      b[0], b[1], ReadBE16(b[2], b[3]), ReadBE16(b[4], b[5]), ReadBE16(b[6], b[7]),
      b[8], b[9], ReadBE16(b[10], b[11]), b[12..16], b[16..20]);
    assert RawBytes(r) == b;
    r
  }

  /** Reading back the layout of a raw header gives that header. */
  lemma ParseRawBytes(r: RawHeader)
    ensures ParseRaw(RawBytes(r)) == r
  {
    var b := RawBytes(r);
    BE16Injective(ParseRaw(b).totalLength, r.totalLength);
    BE16Injective(ParseRaw(b).identification, r.identification);
    BE16Injective(ParseRaw(b).flagsFragmentOffset, r.flagsFragmentOffset);
    BE16Injective(ParseRaw(b).checksum, r.checksum);
    assert b[2..4] == BE16(r.totalLength);
    assert b[4..6] == BE16(r.identification);
    assert b[6..8] == BE16(r.flagsFragmentOffset);
    assert b[10..12] == BE16(r.checksum);
    assert b[12..16] == r.source && b[16..20] == r.destination;
  }

  /** Header.Write: the raw header's 20 bytes, then the Options. */
  function HeaderBytes(h: Header): (b: seq<Byte>)
    ensures |b| == 20 + |h.options|
    ensures ParseRaw(b[..20]) == ToRaw(h) && b[20..] == h.options
  {
    var raw := RawBytes(ToRaw(h));
    ParseRawBytes(ToRaw(h));
    assert (raw + h.options)[..20] == raw;
    raw + h.options
  }

  /** Packet.Write: the header, then the payload. */
  function PacketBytes(p: Packet): (b: seq<Byte>)
    ensures |b| == 20 + |p.header.options| + |p.payload|
    ensures b[..20 + |p.header.options|] == HeaderBytes(p.header)
    ensures b[20 + |p.header.options|..] == p.payload
  {
    HeaderBytes(p.header) + p.payload
  }

  // ----- Checksum and checks -------------------------------------------------

  /** Header.CalculateChecksum: the Internet checksum of the header written
      with its Checksum field zeroed. */
  function CalculateChecksum(h: Header): (c: U16)
    ensures c != 0
  {
    Checksum.InternetChecksum(HeaderBytes(h.(checksum := 0)))
  }

  /** The stored Checksum does not enter the calculation. */
  lemma CalculateChecksumIgnoresField(h: Header, c: U16)
    ensures CalculateChecksum(h.(checksum := c)) == CalculateChecksum(h)
  {
    assert h.(checksum := c).(checksum := 0) == h.(checksum := 0);
  }

  /** IHL counts the 5 fixed words plus one per 4 bytes of Options. */
  predicate IhlMatchesOptions(h: Header)
  {
    |h.options| % 4 == 0 && h.ihl == 5 + |h.options| / 4
  }

  /** Header.Check: the IHL test, then the TotalLength test, then the
      checksum; None when all three pass. */
  function Check(h: Header): (e: Option<Error>)
    ensures e == None <==>
      IhlMatchesOptions(h) && h.ihl * 4 <= h.totalLength && h.checksum == CalculateChecksum(h)
    ensures e.Some? ==> e.value == InvalidIHL || e.value == InvalidTotalLength || e.value == InvalidChecksum
  {
    if !IhlMatchesOptions(h) then Some(InvalidIHL)
    else if h.ihl * 4 > h.totalLength then Some(InvalidTotalLength)
    else if CalculateChecksum(h) != h.checksum then Some(InvalidChecksum)
    else None
  }

  /** The order of the checks: an IHL mismatch is reported whatever the
      TotalLength and Checksum, and a too small TotalLength whatever the
      Checksum. */
  lemma CheckPrecedence(h: Header, totalLength: U16, c: U16)
    ensures !IhlMatchesOptions(h) ==>
      Check(h.(totalLength := totalLength, checksum := c)) == Some(InvalidIHL)
    ensures IhlMatchesOptions(h) && h.ihl * 4 > h.totalLength ==>
      Check(h.(checksum := c)) == Some(InvalidTotalLength)
  {
  }

  /** A header that passes the IHL and TotalLength tests passes Check exactly
      when its Checksum is the calculated one, and fails with
      InvalidChecksum otherwise. */
  lemma CheckDecidedByChecksum(h: Header, c: U16)
    requires IhlMatchesOptions(h) && h.ihl * 4 <= h.totalLength
    ensures Check(h.(checksum := c)) == None <==> c == CalculateChecksum(h)
    ensures c != CalculateChecksum(h) ==> Check(h.(checksum := c)) == Some(InvalidChecksum)
  {
    CalculateChecksumIgnoresField(h, c);
  }

  /** Inverting every bit of the Checksum of a valid header makes it fail. */
  lemma InvertedChecksumFails(h: Header)
    requires Check(h) == None
    ensures Check(h.(checksum := 0xFFFF - h.checksum)) == Some(InvalidChecksum)
  {
    CheckDecidedByChecksum(h, 0xFFFF - h.checksum);
  }

  /** Go's zero Header with the given IHL and Options. */
  function ZeroHeader(ihl: Byte, options: seq<Byte>): Header
  {
    Header(0, ihl, 0, 0, 0, 0, 0, 0, 0, 0, ZeroAddress, ZeroAddress, options)
  }

  /** The inconsistent IHL and Options pairs of the tests are refused with
      InvalidIHL whatever their Checksum (the tests set the calculated one);
      the pair (6, four bytes) that the tests call valid is refused with
      InvalidTotalLength, since its TotalLength is 0. */
  lemma CheckVectors(c: U16)
    ensures Check(ZeroHeader(6, []).(checksum := c)) == Some(InvalidIHL)
    ensures Check(ZeroHeader(7, [1, 2, 3, 4]).(checksum := c)) == Some(InvalidIHL)
    ensures Check(ZeroHeader(6, [1]).(checksum := c)) == Some(InvalidIHL)
    ensures Check(ZeroHeader(6, [1, 2, 3, 4]).(checksum := c)) == Some(InvalidTotalLength)
  {
  }

  // ----- Reading -------------------------------------------------------------

  /** NewHeader as written: a raw header, then (IHL - 5) * 8 option bytes;
      an IHL below 5 is refused. Returns the header and the unread input. */
  function DecodeHeader(s: seq<Byte>): (r: (Result<Header>, seq<Byte>))
    ensures |s| < 20 ==> r.0 == Err(if |s| == 0 then EOF else UnexpectedEOF)
    ensures |s| >= 20 && s[0] % 8 < 5 ==> r.0 == Err(InvalidIHL)
    ensures |s| >= 20 && s[0] % 8 >= 5 ==>
      (r.0.Ok? <==> |s| >= 20 + (s[0] as int % 8 - 5) * 8)
    ensures |s| >= 20 && s[0] % 8 >= 5 && |s| < 20 + (s[0] as int % 8 - 5) * 8 ==>
      r.0 == Err(if |s| == 20 then EOF else UnexpectedEOF)
    ensures r.0.Ok? ==> (|s| >= 20 &&
      var n := (s[0] as int % 8 - 5) * 8;
      0 <= n && 20 + n <= |s| && r.0.value == FromRaw(ParseRaw(s[..20])).(options := s[20..20 + n])
      && r.1 == s[20 + n..])
  {
    var (raw, rest) := TakeExact(s, 20);
    if raw.Err? then (Err(raw.error), rest)
    else
      var h := FromRaw(ParseRaw(raw.value));
      var numOptionBytes := (h.ihl - 5) * 8;
      if numOptionBytes < 0 then (Err(InvalidIHL), rest)
      else if numOptionBytes == 0 then (Ok(h), rest)
      else
        var (options, rest') := TakeExact(rest, numOptionBytes);
        if options.Err? then (Err(options.error), rest')
        else (Ok(h.(options := options.value)), rest')
  }

  /** NewHeader with the IHL read through a 0x0F mask and 4 option bytes per
      word, as section 3.1 of RFC 791 lays them out. */
  function DecodeHeaderCorrected(s: seq<Byte>): (r: (Result<Header>, seq<Byte>))
    ensures |s| >= 20 && s[0] % 16 < 5 ==> r.0 == Err(InvalidIHL)
    ensures r.0.Ok? ==> IhlMatchesOptions(r.0.value)
  {
    var (raw, rest) := TakeExact(s, 20);
    if raw.Err? then (Err(raw.error), rest)
    else
      var h := FromRawCorrected(ParseRaw(raw.value));
      var numOptionBytes := (h.ihl - 5) * 4;
      if numOptionBytes < 0 then (Err(InvalidIHL), rest)
      else if numOptionBytes == 0 then (Ok(h), rest)
      else
        var (options, rest') := TakeExact(rest, numOptionBytes);
        if options.Err? then (Err(options.error), rest')
        else (Ok(h.(options := options.value)), rest')
  }

  /** The rest of NewPacket once a header is read: Check it, then read
      TotalLength - IHL * 4 payload bytes. */
  function CheckAndReadPayload(header: Result<Header>, rest: seq<Byte>): (r: (Result<Packet>, seq<Byte>))
    ensures r.0.Ok? ==> header.Ok? && r.0.value.header == header.value && Check(header.value) == None
    ensures r.0.Ok? ==> |r.0.value.payload| == r.0.value.header.totalLength - r.0.value.header.ihl * 4
    ensures r.0.Ok? ==> rest == r.0.value.payload + r.1
  {
    if header.Err? then (Err(header.error), rest)
    else
      var h := header.value;
      var check := Check(h);
      if check.Some? then (Err(check.value), rest)
      else
        var (payload, rest') := TakeExact(rest, h.totalLength - h.ihl * 4);
        if payload.Err? then (Err(payload.error), rest')
        else (Ok(Packet(h, payload.value)), rest')
  }

  /** NewPacket as written: only a header that passes Check is returned, with
      exactly TotalLength - IHL * 4 payload bytes. */
  function DecodePacket(s: seq<Byte>): (r: (Result<Packet>, seq<Byte>))
    ensures r.0.Ok? ==> Check(r.0.value.header) == None
    ensures r.0.Ok? ==> |r.0.value.payload| == r.0.value.header.totalLength - r.0.value.header.ihl * 4
  {
    var (header, rest) := DecodeHeader(s);
    CheckAndReadPayload(header, rest)
  }

  function DecodePacketCorrected(s: seq<Byte>): (r: (Result<Packet>, seq<Byte>))
    ensures r.0.Ok? ==> Check(r.0.value.header) == None
    ensures r.0.Ok? ==> |r.0.value.payload| == r.0.value.header.totalLength - r.0.value.header.ihl * 4
  {
    var (header, rest) := DecodeHeaderCorrected(s);
    CheckAndReadPayload(header, rest)
  }

  /** NewHeader reading from a byte stream. */
  method NewHeader(r: Reader) returns (result: Result<Header>)
    modifies r
    ensures (result, r.rest) == DecodeHeader(old(r.rest))
  {
    var raw := r.ReadFull(20);
    if raw.Err? {
      return Err(raw.error);
    }
    var h := FromRaw(ParseRaw(raw.value));
    var numOptionBytes := (h.ihl - 5) * 8;
    if numOptionBytes < 0 {
      return Err(InvalidIHL);
    } else if numOptionBytes > 0 {
      var options := r.ReadFull(numOptionBytes);
      if options.Err? {
        return Err(options.error);
      }
      h := h.(options := options.value);
    }
    return Ok(h);
  }

  /** NewPacket reading from a byte stream. */
  method NewPacket(r: Reader) returns (result: Result<Packet>)
    modifies r
    ensures (result, r.rest) == DecodePacket(old(r.rest))
  {
    var header := NewHeader(r);
    if header.Err? {
      return Err(header.error);
    }
    var h := header.value;
    var check := Check(h);
    if check.Some? {
      return Err(check.value);
    }
    var payload := r.ReadFull(h.totalLength - h.ihl * 4);
    if payload.Err? {
      return Err(payload.error);
    }
    return Ok(Packet(h, payload.value));
  }

  // ----- Round trips ---------------------------------------------------------

  /** A packet as the checks and the wire layout allow it: it passes Check,
      its fields fit their raw places, and its payload length agrees with
      TotalLength. */
  predicate WellFormed(p: Packet)
  {
    Check(p.header) == None
    && p.header.version < 16 && p.header.ihl < 16 && p.header.flags < 8
    && p.header.fragmentOffset < 0x2000
    && |p.payload| == p.header.totalLength - p.header.ihl * 4
  }

  lemma ReadRawPrefix(h: Header, tail: seq<Byte>)
    ensures TakeExact(HeaderBytes(h) + tail, 20).0 == Ok(HeaderBytes(h)[..20])
    ensures TakeExact(HeaderBytes(h) + tail, 20).1 == h.options + tail
    ensures ParseRaw(HeaderBytes(h)[..20]) == ToRaw(h)
  {
    var b := HeaderBytes(h);
    assert (b + tail)[..20] == b[..20];
    assert (b + tail)[20..] == h.options + tail;
  }

  /** A header with (IHL - 5) * 8 option bytes, its fields fitting their
      raw places, is read back by NewHeader as written, whatever follows
      it. */
  lemma HeaderRoundTrip(h: Header, tail: seq<Byte>)
    requires 5 <= h.ihl < 8 && |h.options| == (h.ihl - 5) * 8
    requires h.version < 16 && h.flags < 8 && h.fragmentOffset < 0x2000
    ensures DecodeHeader(HeaderBytes(h) + tail) == (Ok(h), tail)
  {
    ReadRawPrefix(h, tail);
    ConversionKeepsFields(h);
    var n := |h.options|;
    assert (h.options + tail)[..n] == h.options;
    assert (h.options + tail)[n..] == tail;
    assert h.(options := []).(options := h.options) == h;
  }

  /** A header that passes Check is followed by exactly its payload. */
  lemma PayloadRoundTrip(p: Packet, rest: seq<Byte>)
    requires Check(p.header) == None
    requires |p.payload| == p.header.totalLength - p.header.ihl * 4
    ensures CheckAndReadPayload(Ok(p.header), p.payload + rest) == (Ok(p), rest)
  {
    assert (p.payload + rest)[..|p.payload|] == p.payload;
    assert (p.payload + rest)[|p.payload|..] == rest;
  }

  /** As written, a packet without options is read back from its bytes,
      whatever follows it. */
  lemma {:induction false} PacketRoundTrip(p: Packet, rest: seq<Byte>)
    requires WellFormed(p) && p.header.ihl == 5
    ensures DecodePacket(PacketBytes(p) + rest) == (Ok(p), rest)
  {
    var h := p.header;
    assert PacketBytes(p) + rest == HeaderBytes(h) + (p.payload + rest);
    assert h.options == [];
    HeaderRoundTrip(h, p.payload + rest);
    PayloadRoundTrip(p, rest);
  }

  /** As written, every packet NewPacket accepts has IHL 5 and no Options:
      (IHL - 5) * 8 option bytes never make the IHL that Check asks for
      unless there are none. */
  lemma OnlyIhlFiveAccepted(s: seq<Byte>)
    ensures DecodePacket(s).0.Ok? ==>
      DecodePacket(s).0.value.header.ihl == 5 && DecodePacket(s).0.value.header.options == []
  {
  }

  /** So a packet whose IHL is not 5, a well-formed one with options
      included, is never read back as itself: for IHL 6 and 4 option bytes,
      the reader takes 8. */
  lemma OptionsPacketRejected(p: Packet, rest: seq<Byte>)
    requires p.header.ihl != 5
    ensures DecodePacket(PacketBytes(p) + rest).0 != Ok(p)
  {
    OnlyIhlFiveAccepted(PacketBytes(p) + rest);
  }

  /** With the corrected reader every well-formed packet, options included,
      is read back from its bytes, whatever follows it. */
  lemma {:induction false} CorrectedPacketRoundTrip(p: Packet, rest: seq<Byte>)
    requires WellFormed(p)
    ensures DecodePacketCorrected(PacketBytes(p) + rest) == (Ok(p), rest)
  {
    var h := p.header;
    assert PacketBytes(p) + rest == HeaderBytes(h) + (p.payload + rest);
    CorrectedHeaderRoundTrip(h, p.payload + rest);
    PayloadRoundTrip(p, rest);
  }

  /** The corrected NewHeader reads back every header whose Options fill
      its IHL and whose fields fit their raw places. */
  lemma CorrectedHeaderRoundTrip(h: Header, tail: seq<Byte>)
    requires IhlMatchesOptions(h)
    requires h.version < 16 && h.ihl < 16 && h.flags < 8 && h.fragmentOffset < 0x2000
    ensures DecodeHeaderCorrected(HeaderBytes(h) + tail) == (Ok(h), tail)
  {
    ReadRawPrefix(h, tail);
    CorrectedConversionRoundTrip(h);
    var n := (h.ihl - 5) * 4;
    assert n == |h.options|;
    assert (h.options + tail)[..n] == h.options;
    assert (h.options + tail)[n..] == tail;
    assert h.(options := []).(options := h.options) == h;
  }

  // ----- Test vectors --------------------------------------------------------

  const VectorBytes: seq<Byte> :=
    [0x45, 0x00, 0x00, 0x34, 0x9c, 0x83, 0x40, 0x00, 0x3e, 0x06,
     0x56, 0xdb, 0xc0, 0xa8, 0x64, 0x01, 0xc0, 0xa8, 0x64, 0x13]

  const VectorRaw: RawHeader :=
    RawHeader(0x45, 0, 52, 40067, 0x4000, 62, 6, 0x56db, [192, 168, 100, 1], [192, 168, 100, 19])

  const VectorHeader: Header :=
    Header(4, 5, 0, 52, 40067, 2, 0, 62, 6, 0x56db, [192, 168, 100, 1], [192, 168, 100, 19], [])

  lemma VectorParse()
    ensures RawBytes(VectorRaw) == VectorBytes && ParseRaw(VectorBytes) == VectorRaw
  {
    assert RawBytes(VectorRaw) == VectorBytes;
    ParseRawBytes(VectorRaw);
  }

  /** The raw header of the test vector converts to the logical header of
      the test and back. */
  lemma VectorConversions()
    ensures FromRaw(VectorRaw) == VectorHeader && ToRaw(VectorHeader) == VectorRaw
  {
    VectorFromRaw();
    PackNibbles(4, 5);
    PackFlags(2, 0);
    RawConversionRoundTrip(VectorRaw);
  }

  lemma VectorFromRaw()
    ensures FromRaw(VectorRaw) == VectorHeader
  {
  }

  /** ToRaw copies the Checksum field. */
  lemma ToRawChecksum(h: Header, c: U16)
    ensures ToRaw(h.(checksum := c)) == ToRaw(h).(checksum := c)
  {
  }

  lemma VectorChecksum()
    ensures CalculateChecksum(VectorHeader) == 0x56db
  {
    VectorConversions();
    ToRawChecksum(VectorHeader, 0);
    assert RawBytes(VectorRaw.(checksum := 0)) == Checksum.HeaderVectorBytes;
    assert HeaderBytes(VectorHeader.(checksum := 0)) == Checksum.HeaderVectorBytes;
    Checksum.HeaderVector();
  }

  /** The test vector reads as its header, writes back as its bytes, and
      passes Check. */
  lemma VectorHeaderRoundTrip()
    ensures DecodeHeader(VectorBytes) == (Ok(VectorHeader), [])
    ensures HeaderBytes(VectorHeader) == VectorBytes
    ensures Check(VectorHeader) == None
  {
    VectorParse();
    VectorConversions();
    VectorChecksum();
    assert VectorBytes[..20] == VectorBytes && VectorBytes[20..] == [];
  }

  const OptionsVectorBytes: seq<Byte> := [0x46] + VectorBytes[1..] + [0, 1, 2, 3, 4, 5, 6, 7]

  const OptionsVectorHeader: Header := VectorHeader.(ihl := 6, options := [0, 1, 2, 3, 4, 5, 6, 7])

  const OptionsVectorRaw: RawHeader := VectorRaw.(versionIHL := 0x46)

  lemma OptionsVectorLayout()
    ensures OptionsVectorBytes[..20] == RawBytes(OptionsVectorRaw)
    ensures OptionsVectorBytes[20..] == OptionsVectorHeader.options
    ensures ParseRaw(RawBytes(OptionsVectorRaw)) == OptionsVectorRaw
  {
    VectorParse();
    assert RawBytes(OptionsVectorRaw) == [0x46] + VectorBytes[1..];
    ParseRawBytes(OptionsVectorRaw);
  }

  /** The options test: with the IHL nibble set to 6 and eight option bytes
      appended, the header reads with those eight bytes as Options... */
  lemma OptionsVectorDecodes()
    ensures DecodeHeader(OptionsVectorBytes) == (Ok(OptionsVectorHeader), [])
  {
    var b, h := OptionsVectorBytes, OptionsVectorHeader;
    OptionsVectorLayout();
    assert TakeExact(b, 20) == (Ok(RawBytes(OptionsVectorRaw)), h.options);
    assert FromRaw(OptionsVectorRaw) == h.(options := []);
    assert h.options[..8] == h.options && h.options[8..] == [];
  }

  /** ...and writes back as the same bytes. */
  lemma OptionsVectorEncodes()
    ensures HeaderBytes(OptionsVectorHeader) == OptionsVectorBytes
  {
    OptionsVectorLayout();
    OptionsVectorToRaw();
    assert OptionsVectorBytes == OptionsVectorBytes[..20] + OptionsVectorBytes[20..];
  }

  lemma OptionsVectorToRaw()
    ensures ToRaw(OptionsVectorHeader) == OptionsVectorRaw
  {
    var h := OptionsVectorHeader;
    assert FromRaw(OptionsVectorRaw) == h.(options := []);
    RawConversionRoundTrip(OptionsVectorRaw);
    assert ToRaw(h) == ToRaw(h.(options := []));
  }

  /** The IHL test: with the IHL nibble set to 4 the header is refused. */
  lemma VectorInvalidIhl()
    ensures DecodeHeader([0x44] + VectorBytes[1..]).0 == Err(InvalidIHL)
  {
  }

  // ----- Building packets ----------------------------------------------------

  /** NewDefaultPacket, given the value the identification counter was
      incremented to (its low 16 bits become Identification). */
  function NewDefaultPacket(counter: U32): (p: Packet)
    ensures p.header.version == 4 && p.header.ihl == 5 && p.header.tos == 0 && p.header.ttl == 64
    ensures p.header.totalLength == 20 && p.header.identification == counter % 0x1_0000
    ensures p.header.flags == 0 && p.header.fragmentOffset == 0 && p.header.protocol == 0
    ensures p.header.checksum == 0 && p.header.source == ZeroAddress && p.header.destination == ZeroAddress
    ensures p.header.options == [] && p.payload == []
    ensures IhlMatchesOptions(p.header) && Check(p.header.(checksum := CalculateChecksum(p.header))) == None
  {
    var h := Header(4, 5, 0, 20, counter % 0x1_0000, 0, 0, 64, 0, 0, ZeroAddress, ZeroAddress, []);
    CheckDecidedByChecksum(h, CalculateChecksum(h));
    Packet(h, [])
  }

  /** NewPacketTo: a default packet to the given destination, carrying the
      given protocol and payload, TotalLength 20 plus the payload length
      (a uint16). */
  function NewPacketTo(to: Address, proto: Protocol, payload: seq<Byte>, counter: U32): (p: Packet)
    ensures p.header.version == 4 && p.header.ihl == 5 && p.header.tos == 0 && p.header.ttl == 64
    ensures p.header.destination == to && p.header.protocol == proto && p.payload == payload
    ensures p.header.options == [] && p.header.totalLength == (20 + |payload|) % 0x1_0000
    ensures p.header.identification == counter % 0x1_0000 && p.header.flags == 0 && p.header.fragmentOffset == 0
    ensures p.header.checksum == 0 && p.header.source == ZeroAddress
  {
    var p := NewDefaultPacket(counter);
    Packet(p.header.(destination := to, protocol := proto, totalLength := (20 + |payload|) % 0x1_0000), payload)
  }

  /** A packet with its header checksum set to the calculated one. */
  function WithHeaderChecksum(p: Packet): (q: Packet)
    ensures q.header.checksum == CalculateChecksum(p.header)
    ensures q.header.(checksum := p.header.checksum) == p.header && q.payload == p.payload
  {
    p.(header := p.header.(checksum := CalculateChecksum(p.header)))
  }

  /** Setting the calculated checksum makes a packet well formed when its
      other fields already are. */
  lemma StampedWellFormed(p: Packet)
    requires IhlMatchesOptions(p.header) && p.header.ihl * 4 <= p.header.totalLength
    requires p.header.version < 16 && p.header.ihl < 16 && p.header.flags < 8
    requires p.header.fragmentOffset < 0x2000
    requires |p.payload| == p.header.totalLength - p.header.ihl * 4
    ensures WellFormed(WithHeaderChecksum(p))
  {
    CheckDecidedByChecksum(p.header, CalculateChecksum(p.header));
  }

  lemma BuiltPacketWellFormed(to: Address, proto: Protocol, payload: seq<Byte>, counter: U32)
    requires |payload| <= 0xFFFF - 20
    ensures WellFormed(WithHeaderChecksum(NewPacketTo(to, proto, payload, counter)))
    ensures WithHeaderChecksum(NewPacketTo(to, proto, payload, counter)).header.ihl == 5
  {
    var p := NewPacketTo(to, proto, payload, counter);
    U16Fits(20 + |payload|);
    StampedWellFormed(p);
  }

  /** A packet built by NewPacketTo with a payload that fits TotalLength,
      once its header checksum is set, is read back from its bytes. */
  lemma BuiltPacketRoundTrip(to: Address, proto: Protocol, payload: seq<Byte>, counter: U32, rest: seq<Byte>)
    requires |payload| <= 0xFFFF - 20
    ensures
      var q := WithHeaderChecksum(NewPacketTo(to, proto, payload, counter));
      DecodePacket(PacketBytes(q) + rest) == (Ok(q), rest)
  {
    BuiltPacketWellFormed(to, proto, payload, counter);
    PacketRoundTrip(WithHeaderChecksum(NewPacketTo(to, proto, payload, counter)), rest);
  }

  /** The effect of WritePayload: the payload replaced and TotalLength set to
      IHL * 4 plus its length, in uint16 arithmetic. */
  function WithPayload(p: Packet, payload: seq<Byte>): (q: Packet)
    ensures q.payload == payload
    ensures q.header.(totalLength := p.header.totalLength) == p.header
    ensures q.header.totalLength == (p.header.ihl * 4 + |payload|) % 0x1_0000
  {
    Packet(p.header.(totalLength := (p.header.ihl * 4 + |payload|) % 0x1_0000), payload)
  }

  /** After WritePayload, TotalLength accounts for exactly the header and the
      new payload whenever their length fits 16 bits, so the length check
      passes. */
  lemma WithPayloadKeepsLength(p: Packet, payload: seq<Byte>)
    requires p.header.ihl * 4 + |payload| <= 0xFFFF
    ensures |WithPayload(p, payload).payload|
      == WithPayload(p, payload).header.totalLength - WithPayload(p, payload).header.ihl * 4
    ensures IhlMatchesOptions(p.header) ==>
      Check(WithPayload(p, payload).header) != Some(InvalidTotalLength)
  {
  }

  /** An IPv4 packet being built in place, as a *Packet. */
  class OutgoingPacket {
    var header: Header
    var payload: seq<Byte>

    constructor (p: Packet)
      ensures Value() == p
    {
      header := p.header;
      payload := p.payload;
    }

    function Value(): Packet
      reads this
    {
      Packet(header, payload)
    }

    /** Packet.WritePayload, given the bytes the payload writer produced. */
    method WritePayload(bytes: seq<Byte>)
      modifies this
      ensures Value() == WithPayload(old(Value()), bytes)
    {
      payload := bytes;
      header := header.(totalLength := (header.ihl * 4 + |payload|) % 0x1_0000);
    }
  }
}
