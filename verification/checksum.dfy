/** The Internet checksum (RFC 1071, section 1) as checksum.go computes it:
    a 32-bit sum of big-endian 16-bit words, carries folded back until the
    sum fits in 16 bits, the complement, and 0 remapped to 0xFFFF. */
module Checksum {
  import opened Common

  const Modulus32 := 0x1_0000_0000

  /** The big-endian 16-bit word formed by two bytes. */
  function Word(hi: Byte, lo: Byte): (w: U16)
    ensures w == ReadBE16(hi, lo)
  {
    hi * 0x100 + lo
  }

  /** The exact (unbounded) sum of the input's big-endian words; an odd
      trailing byte counts as the high byte of a zero-padded word. */
  function WordSum(b: seq<Byte>): nat
  {
    if |b| >= 2 then Word(b[0], b[1]) + WordSum(b[2..])
    else if |b| == 1 then b[0] as int * 0x100
    else 0
  }

  /** The carry-folding loop: add the high half to the low half until the
      value fits in 16 bits. */
  function Fold(s: nat): (r: nat)
    ensures r <= 0xFFFF
    decreases s
  {
    if s > 0xFFFF then
      assert s / 0x1_0000 + s % 0x1_0000 < s;
      Fold(s / 0x1_0000 + s % 0x1_0000)
    else s
  }

  /** The value checksum.go returns: the complement of the folded 32-bit sum
      (which wraps modulo 2^32 like Go's uint32), never 0. */
  function InternetChecksum(b: seq<Byte>): (c: U16)
    ensures c != 0
  {
    var folded := Fold(Total(0, b));
    var csum := 0xFFFF - folded;
    if csum == 0 then 0xFFFF else csum
  }

  /** checksum.go's Checksum: one loop re-slices the input two bytes at a time
      while accumulating a wrapping uint32, then a second loop folds the sum. */
  method Checksum(b: seq<Byte>) returns (csum: U16)
    ensures csum == InternetChecksum(b)
  {
    ghost var total := Total(0, b);
    var sum: U32 := 0;
    var rest := b;
    while |rest| >= 2
      invariant Total(sum, rest) == total
      decreases |rest|
    {
      sum := AddWord(sum, rest);
      rest := rest[2..];
    }
    if |rest| > 0 {
      sum := AddOddByte(sum, rest);
    } else {
      TotalOfNothing(sum, rest);
    }
    while sum > 0xFFFF
      invariant Fold(sum) == Fold(total)
      decreases sum
    {
      sum := FoldStep(sum);
    }
    csum := 0xFFFF - sum;
    if csum == 0 {
      csum := 0xFFFF;
    }
  }

  /** The wrapped 32-bit sum that the first loop reaches from sum with the
      words of rest still to add. */
  function Total(sum: U32, rest: seq<Byte>): U32
  {
    (sum + WordSum(rest)) % Modulus32
  }

  lemma TotalOfNothing(sum: U32, rest: seq<Byte>)
    requires |rest| == 0
    ensures Total(sum, rest) == sum
  {
    U32Fits(sum);
  }

  /** The loop body `sum += (b0 << 8) | b1` on a uint32; the total it leads
      to stays the same. */
  function AddWord(sum: U32, rest: seq<Byte>): (r: U32)
    requires |rest| >= 2
    ensures Total(r, rest[2..]) == Total(sum, rest)
  {
    AddWordTotal(sum, rest);
    (sum + Word(rest[0], rest[1])) % Modulus32
  }

  lemma AddWordTotal(sum: U32, rest: seq<Byte>)
    requires |rest| >= 2
    ensures Total((sum + Word(rest[0], rest[1])) % Modulus32, rest[2..]) == Total(sum, rest)
  {
    var w := Word(rest[0], rest[1]);
    var t := WordSum(rest[2..]);
    assert WordSum(rest) == w + t;
    AddMod32(sum + w, t);
  }

  lemma AddMod32(x: int, t: int)
    ensures (x % Modulus32 + t) % Modulus32 == (x + t) % Modulus32
  {
    ModAdd(x, t, Modulus32);
  }

  /** The statement `sum += uint32(b[0]) << 8` for the odd trailing byte,
      which completes the total. */
  function AddOddByte(sum: U32, rest: seq<Byte>): (r: U32)
    requires |rest| == 1
    ensures r == Total(sum, rest)
  {
    (sum + rest[0] as int * 0x100) % Modulus32
  }

  /** The folding loop's body `sum = (sum >> 16) + (sum & 0xFFFF)`. */
  function FoldStep(sum: U32): (r: U32)
    requires sum > 0xFFFF
    ensures r < sum && Fold(r) == Fold(sum)
  {
    sum / 0x1_0000 + sum % 0x1_0000
  }

  lemma U32Fits(x: U32)
    ensures x % Modulus32 == x
  {
  }

  /** Adding terms modulo m one at a time or all at once agrees, for the two
      moduli the checksum works with. */
  lemma ModAdd(x: int, y: int, m: int)
    requires m == Modulus32 || m == 0xFFFF
    ensures (x % m + y) % m == (x + y) % m
  {
  }

  // ----- Properties of the checksum -----------------------------------------

  /** Word sums split at an even offset. */
  lemma {:induction false} WordSumAppend(a: seq<Byte>, c: seq<Byte>)
    requires |a| % 2 == 0
    ensures WordSum(a + c) == WordSum(a) + WordSum(c)
  {
    if |a| >= 2 {
      assert (a + c)[2..] == a[2..] + c;
      WordSumAppend(a[2..], c);
    } else {
      assert a + c == c;
    }
  }

  /** An odd trailing byte is added as the high byte of a zero-padded word. */
  lemma OddBytePadded(b: seq<Byte>, x: Byte)
    requires |b| % 2 == 0
    ensures InternetChecksum(b + [x]) == InternetChecksum(b + [x, 0])
  {
    WordSumAppend(b, [x]);
    WordSumAppend(b, [x, 0]);
  }

  /** Appending one zero byte to an even-length input leaves the checksum
      unchanged. */
  lemma TrailingZeroByte(b: seq<Byte>)
    requires |b| % 2 == 0
    ensures InternetChecksum(b + [0]) == InternetChecksum(b)
  {
    WordSumAppend(b, [0]);
  }

  /** The input 450000349c8340003e060000c0a86401c0a86413, grouped four
      bytes at a time. */
  const HeaderVectorBytes: seq<Byte> :=
    [0x45, 0x00, 0x00, 0x34] + ([0x9c, 0x83, 0x40, 0x00] + ([0x3e, 0x06, 0x00, 0x00] +
    ([0xc0, 0xa8, 0x64, 0x01] + [0xc0, 0xa8, 0x64, 0x13])))

  /** Four bytes in front of rest add their two words. */
  lemma WordSumFour(a: Byte, b: Byte, c: Byte, d: Byte, rest: seq<Byte>)
    ensures WordSum([a, b, c, d] + rest) == Word(a, b) + Word(c, d) + WordSum(rest)
  {
    assert ([a, b, c, d] + rest)[2..] == [c, d] + rest;
    WordSumTwo(c, d, rest);
  }

  /** Two bytes in front of rest add their word. */
  lemma WordSumTwo(a: Byte, b: Byte, rest: seq<Byte>)
    ensures WordSum([a, b] + rest) == Word(a, b) + WordSum(rest)
  {
    assert ([a, b] + rest)[2..] == rest;
  }

  lemma HeaderVectorWordSum()
    ensures WordSum(HeaderVectorBytes) == 0x3A921
  {
    var s4: seq<Byte> := [0xc0, 0xa8, 0x64, 0x13];
    var s3: seq<Byte> := [0xc0, 0xa8, 0x64, 0x01] + s4;
    var s2: seq<Byte> := [0x3e, 0x06, 0x00, 0x00] + s3;
    var s1: seq<Byte> := [0x9c, 0x83, 0x40, 0x00] + s2;
    WordSumFour(0xc0, 0xa8, 0x64, 0x13, []);
    assert [0xc0, 0xa8, 0x64, 0x13] + [] == s4;
    WordSumFour(0xc0, 0xa8, 0x64, 0x01, s4);
    WordSumFour(0x3e, 0x06, 0x00, 0x00, s3);
    WordSumFour(0x9c, 0x83, 0x40, 0x00, s2);
    WordSumFour(0x45, 0x00, 0x00, 0x34, s1);
  }

  /** The test vector: an IPv4 header with its checksum field zeroed checks
      to 0x56DB, and so does the same with one trailing zero byte. */
  lemma HeaderVector()
    ensures InternetChecksum(HeaderVectorBytes) == 0x56DB
  {
    HeaderVectorWordSum();
    assert Fold(0xA924) == 0xA924;
    assert Fold(0x3A921) == 0xA924;
  }

  lemma HeaderVectorPadded()
    ensures InternetChecksum(HeaderVectorBytes + [0x00]) == 0x56DB
  {
    var b := HeaderVectorBytes;
    assert |b| == 20;
    TrailingZeroByte(b);
    HeaderVector();
  }

  /** The all-ones word sums to 0xFFFF, whose complement 0 is remapped. */
  lemma AllOnesVector()
    ensures InternetChecksum([0xFF, 0xFF]) == 0xFFFF
  {
    assert WordSum([0xFF, 0xFF]) == 0xFFFF;
  }

  // ----- Relation to the ones'-complement sum -------------------------------

  /** Ones'-complement addition of two 16-bit values: a carry out of bit 15
      is added back in at bit 0 (end-around carry). */
  function OnesAdd(x: U16, y: U16): (r: U16)
  {
    if x + y > 0xFFFF then x + y - 0xFFFF else x + y
  }

  /** The ones'-complement sum of the input's big-endian words, the odd
      trailing byte zero-padded; an independent reference definition. */
  function OnesSum(b: seq<Byte>): U16
  {
    if |b| >= 2 then OnesAdd(Word(b[0], b[1]), OnesSum(b[2..]))
    else if |b| == 1 then b[0] as int * 0x100
    else 0
  }

  /** The reference checksum: the complement of the ones'-complement sum,
      with 0 reported as 0xFFFF. */
  function ReferenceChecksum(b: seq<Byte>): U16
  {
    var c := 0xFFFF - OnesSum(b);
    if c == 0 then 0xFFFF else c
  }

  lemma {:induction false} OnesSumCongruent(b: seq<Byte>)
    ensures OnesSum(b) % 0xFFFF == WordSum(b) % 0xFFFF
    ensures OnesSum(b) == 0 <==> WordSum(b) == 0
  {
    if |b| >= 2 {
      var w, rest := Word(b[0], b[1]), b[2..];
      OnesSumCongruent(rest);
      OnesAddCongruent(w, OnesSum(rest));
      AddCongruent(w, OnesSum(rest), WordSum(rest));
      assert WordSum(b) == w + WordSum(rest);
      assert OnesSum(b) == OnesAdd(w, OnesSum(rest));
    }
  }

  /** Adding the same term keeps two values congruent modulo 0xFFFF. */
  lemma AddCongruent(w: int, x: int, y: int)
    requires x % 0xFFFF == y % 0xFFFF
    ensures (w + x) % 0xFFFF == (w + y) % 0xFFFF
  {
    ModAdd(x, w, 0xFFFF);
    ModAdd(y, w, 0xFFFF);
  }

  lemma OnesAddCongruent(x: U16, y: U16)
    ensures OnesAdd(x, y) % 0xFFFF == (x + y) % 0xFFFF
    ensures OnesAdd(x, y) == 0 <==> x == 0 && y == 0
  {
    if x + y > 0xFFFF {
      assert (x + y - 0xFFFF) % 0xFFFF == (x + y) % 0xFFFF;
    }
  }

  lemma {:induction false} FoldCongruent(s: nat)
    ensures Fold(s) % 0xFFFF == s % 0xFFFF
    ensures Fold(s) == 0 <==> s == 0
    decreases s
  {
    if s > 0xFFFF {
      var q, r := s / 0x1_0000, s % 0x1_0000;
      assert s == q * 0xFFFF + (q + r);
      assert (q * 0xFFFF + (q + r)) % 0xFFFF == (q + r) % 0xFFFF;
      FoldCongruent(q + r);
    }
  }

  lemma {:induction false} WordSumBound(b: seq<Byte>)
    ensures WordSum(b) <= 0xFFFF * ((|b| + 1) / 2)
  {
    if |b| >= 2 {
      WordSumBound(b[2..]);
    }
  }

  lemma WordSumFits(b: seq<Byte>)
    requires |b| <= 131074
    ensures WordSum(b) < Modulus32 && WordSum(b) % Modulus32 == WordSum(b)
  {
    WordSumBound(b);
    assert (|b| + 1) / 2 <= 65537;
    assert WordSum(b) <= 0xFFFF * 65537;
    U32Fits(WordSum(b));
  }

  /** Two values in 0..0xFFFF that agree modulo 0xFFFF and are zero together
      are equal (0xFFFF is the ones'-complement "negative zero"). */
  lemma OnesValuesEqual(x: nat, y: nat)
    requires x <= 0xFFFF && y <= 0xFFFF
    requires x % 0xFFFF == y % 0xFFFF && (x == 0 <==> y == 0)
    ensures x == y
  {
  }

  /** A word-aligned checksum field: the sum with the field holding w is the
      sum with the field zeroed, plus w. */
  lemma FieldWordSum(prefix: seq<Byte>, w: U16, suffix: seq<Byte>)
    requires |prefix| % 2 == 0
    ensures WordSum(prefix + BE16(w) + suffix) == WordSum(prefix + [0, 0] + suffix) + w
  {
    FieldWordSumAt(prefix, BE16(w)[0], BE16(w)[1], suffix);
    FieldWordSumAt(prefix, 0, 0, suffix);
    assert BE16(w) == [BE16(w)[0], BE16(w)[1]];
  }

  lemma FieldWordSumAt(prefix: seq<Byte>, hi: Byte, lo: Byte, suffix: seq<Byte>)
    requires |prefix| % 2 == 0
    ensures WordSum(prefix + [hi, lo] + suffix) == WordSum(prefix) + Word(hi, lo) + WordSum(suffix)
  {
    assert prefix + [hi, lo] + suffix == prefix + ([hi, lo] + suffix);
    WordSumAppend(prefix, [hi, lo] + suffix);
    WordSumTwo(hi, lo, suffix);
  }

  /** The receiver's check of RFC 1071, section 1: once a word-aligned field
      holds the checksum computed with that field zeroed, the checksum over
      the whole message comes out as 0xFFFF (its folded sum is all ones). */
  lemma StampedSumsToAllOnes(prefix: seq<Byte>, suffix: seq<Byte>)
    requires |prefix| % 2 == 0 && |prefix| + 2 + |suffix| <= 131074
    ensures InternetChecksum(prefix + BE16(InternetChecksum(prefix + [0, 0] + suffix)) + suffix) == 0xFFFF
  {
    var zeroed := prefix + [0, 0] + suffix;
    var c := InternetChecksum(zeroed);
    var stamped := prefix + BE16(c) + suffix;
    var w := WordSum(zeroed);
    FieldWordSum(prefix, c, suffix);
    WordSumFits(zeroed);
    WordSumFits(stamped);
    assert Total(0, zeroed) == w;
    ComplementCompletes(w);
    assert Total(0, stamped) == w + c;
  }

  /** A sum plus the checksum it yields folds to all ones. */
  lemma ComplementCompletes(w: nat)
    ensures var f := Fold(w); Fold(w + (if f == 0xFFFF then 0xFFFF else 0xFFFF - f)) == 0xFFFF
  {
    var f := Fold(w);
    var c := if f == 0xFFFF then 0xFFFF else 0xFFFF - f;
    FoldCongruent(w);
    SumWithComplement(w, f, c);
    FoldOfMultiple(w + c);
  }

  /** A positive multiple of 0xFFFF folds to 0xFFFF, not to 0. */
  lemma FoldOfMultiple(x: nat)
    requires x > 0 && x % 0xFFFF == 0
    ensures Fold(x) == 0xFFFF
  {
    FoldCongruent(x);
  }

  /** A sum plus the complement of its fold is 0 modulo 0xFFFF. */
  lemma SumWithComplement(w: nat, f: nat, c: nat)
    requires f <= 0xFFFF && f % 0xFFFF == w % 0xFFFF
    requires c == (if f == 0xFFFF then 0xFFFF else 0xFFFF - f)
    ensures (w + c) % 0xFFFF == 0 && w + c > 0
  {
    ModAdd(w, c, 0xFFFF);
    ModAdd(f, c, 0xFFFF);
  }

  /** For every input short enough that the uint32 accumulator cannot wrap
      (131074 bytes: 65537 words of at most 0xFFFF sum to at most 2^32 - 1),
      the checksum is the complement of the ones'-complement sum. */
  lemma ChecksumIsOnesComplement(b: seq<Byte>)
    requires |b| <= 131074
    ensures InternetChecksum(b) == ReferenceChecksum(b)
  {
    WordSumFits(b);
    OnesSumCongruent(b);
    FoldCongruent(WordSum(b));
    OnesValuesEqual(Fold(WordSum(b)), OnesSum(b));
  }
}
