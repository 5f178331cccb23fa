/** Fixed-width little-endian integer packing, written out field by field so
    that nothing depends on the in-memory layout of a packed struct or on the
    host's byte order. A file is a sequence of bytes in 0..255. */
module LittleEndian {

  type Byte = b: int | 0 <= b < 256

  const TwoTo16: int := 0x1_0000
  const TwoTo31: int := 0x8000_0000
  const TwoTo32: int := 0x1_0000_0000

  predicate IsU16(v: int) { 0 <= v < TwoTo16 }
  predicate IsU32(v: int) { 0 <= v < TwoTo32 }
  predicate IsI32(v: int) { -TwoTo31 <= v < TwoTo31 }

  /** Assigning a non-negative value to a uint32_t keeps its low 32 bits. */
  function TruncU32(v: nat): (r: int)
    ensures IsU32(r)
    ensures v < TwoTo32 ==> r == v
  {
    v % 0x1_0000_0000
  }

  /** The bit pattern of an int32_t, read as an unsigned 32-bit value. */
  function I32Bits(v: int): (u: int)
    requires IsI32(v)
    ensures IsU32(u)
    ensures SignedOf(u) == v
  {
    if v < 0 then v + 0x1_0000_0000 else v
  }

  /** A 32-bit pattern read back as an int32_t (two's complement). */
  function SignedOf(u: int): (v: int)
    requires IsU32(u)
    ensures IsI32(v)
    ensures v >= 0 <==> u < TwoTo31
  {
    if u < 0x8000_0000 then u else u - 0x1_0000_0000
  }

  lemma SignedOfBits(u: int)
    requires IsU32(u)
    ensures I32Bits(SignedOf(u)) == u
  {
  }

  /** Two bytes, low byte first. */
  function Le16(v: int): (r: seq<Byte>)
    requires IsU16(v)
    ensures |r| == 2 && ReadLe16(r, 0) == v
  {
    [v % 256, v / 256]
  }

  /** Four bytes, least significant first: the low half, then the high half. */
  function Le32(v: int): (r: seq<Byte>)
    requires IsU32(v)
    ensures |r| == 4 && ReadLe32(r, 0) == v
  {
    Le16(v % 0x1_0000) + Le16(v / 0x1_0000)
  }

  function ReadLe16(s: seq<Byte>, at: nat): (v: int)
    requires at + 2 <= |s|
    ensures IsU16(v)
  {
    var lo: int := s[at];
    var hi: int := s[at + 1];
    lo + 256 * hi
  }

  function ReadLe32(s: seq<Byte>, at: nat): (v: int)
    requires at + 4 <= |s|
    ensures IsU32(v)
  {
    ReadLe16(s, at) + 0x1_0000 * ReadLe16(s, at + 2)
  }

  /** Reading two bytes and packing the value again gives the same bytes. */
  lemma Le16OfRead(s: seq<Byte>, at: nat)
    requires at + 2 <= |s|
    ensures Le16(ReadLe16(s, at)) == s[at..at + 2]
  {
  }

  /** Reading four bytes and packing the value again gives the same bytes. */
  lemma Le32OfRead(s: seq<Byte>, at: nat)
    requires at + 4 <= |s|
    ensures Le32(ReadLe32(s, at)) == s[at..at + 4]
  {
    var lo, hi := ReadLe16(s, at), ReadLe16(s, at + 2);
    assert ReadLe32(s, at) % 0x1_0000 == lo && ReadLe32(s, at) / 0x1_0000 == hi;
    Le16OfRead(s, at);
    Le16OfRead(s, at + 2);
  }

  /** The same for a signed field: four bytes read as a signed value pack
      back to themselves. */
  lemma Le32OfSignedRead(s: seq<Byte>, at: nat)
    requires at + 4 <= |s|
    ensures Le32(I32Bits(SignedOf(ReadLe32(s, at)))) == s[at..at + 4]
  {
    SignedOfBits(ReadLe32(s, at));
    Le32OfRead(s, at);
  }

  /** Two adjacent slices join into one. */
  lemma JoinSlices(s: seq<Byte>, i: nat, j: nat, k: nat)
    requires i <= j <= k <= |s|
    ensures s[i..j] + s[j..k] == s[i..k]
  {
  }
}
