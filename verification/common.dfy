/** Fixed-width unsigned integers, the error values of the stack, big-endian
    byte layouts and exact-length reads, shared by every layer. */
module Common {

  /** Go's uint8, uint16 and uint32, as bounded integers. */
  type Byte = x: int | 0 <= x < 0x100
  type U16 = x: int | 0 <= x < 0x1_0000
  type U32 = x: int | 0 <= x < 0x1_0000_0000

  /** The error values the stack returns (Go's error variables of each package,
      and the io errors that a short read produces). */
  datatype Error =
    | EOF                          // io.EOF: nothing was left to read
    | UnexpectedEOF                // io.ErrUnexpectedEOF: a fixed region was cut short
    | InvalidIHL                   // ipv4.ErrInvalidIHL
    | InvalidTotalLength           // ipv4.ErrInvalidTotalLength
    | InvalidChecksum              // ipv4.ErrInvalidChecksum
    | InvalidLength                // udp.ErrInvalidLength
    | InvalidUdpChecksum           // udp.ErrInvalidChecksum
    | UnsupportedIcmpPacket        // icmp.ErrUnsupportedICMPPacket
    | ArpTimeout                   // ipv4.ErrARPTimeout
    | NoRouteToDestinationAddress  // ipv4.ErrNoRouteToDestinationAddress
    | Other(code: nat)             // any other error of a collaborator, passed through

  datatype Option<+T> = None | Some(value: T)

  datatype Result<+T> = Ok(value: T) | Err(error: Error)

  /** Big-endian layout of a 16-bit value, as encoding/binary writes it. */
  function BE16(v: U16): (r: seq<Byte>)
    ensures |r| == 2 && r[0] as int * 0x100 + r[1] == v
  {
    [v / 0x100, v % 0x100]
  }

  /** Reads a big-endian 16-bit value. */
  function ReadBE16(hi: Byte, lo: Byte): (v: U16)
    ensures BE16(v) == [hi, lo]
  {
    hi * 0x100 + lo
  }

  /** Truncation to 16 bits keeps a value that already fits. */
  lemma U16Fits(x: int)
    requires 0 <= x < 0x1_0000
    ensures x % 0x1_0000 == x
  {
  }

  lemma BE16Injective(a: U16, b: U16)
    ensures BE16(a) == BE16(b) <==> a == b
  {
  }

  /** One read of exactly n bytes from the remaining input s, in the manner of
      io.ReadFull (which binary.Read uses): the bytes and what is left, or
      EOF when nothing was left and UnexpectedEOF when the input was cut
      short; a failed read consumes the input. */
  function TakeExact(s: seq<Byte>, n: nat): (r: (Result<seq<Byte>>, seq<Byte>))
    ensures r.0.Ok? <==> n <= |s|
    ensures r.0.Ok? ==> r.0.value + r.1 == s && |r.0.value| == n
    ensures r.0.Err? ==> r.1 == [] && r.0.error == (if |s| == 0 then EOF else UnexpectedEOF)
  {
    if n <= |s| then (Ok(s[..n]), s[n..])
    else (Err(if |s| == 0 then EOF else UnexpectedEOF), [])
  }

  /** A byte stream that is read from the front (a bytes.Reader). */
  class Reader {
    var rest: seq<Byte>

    constructor (data: seq<Byte>)
      ensures rest == data
    {
      rest := data;
    }

    /** Reads exactly n bytes, or fails as TakeExact says. */
    method ReadFull(n: nat) returns (r: Result<seq<Byte>>)
      modifies this
      ensures (r, rest) == TakeExact(old(rest), n)
    {
      if n <= |rest| {
        r := Ok(rest[..n]);
        rest := rest[n..];
      } else {
        r := Err(if |rest| == 0 then EOF else UnexpectedEOF);
        rest := [];
      }
    }
  }
}
