/** Bytes of a file and the 4-byte pattern of a single-precision float.

    A file is a sequence of bytes; a field is read at an absolute byte offset
    and the read fails when the file ends before the field does (the stream's
    `gcount` check). Floats are never interpreted as numbers here: a float is
    the four bytes it occupies in memory on a little-endian host, and its
    meaning is given by the field layout of an IEEE 754 binary32 value
    (section 3.4 of IEEE 754-2008: 1 sign bit, 8 exponent bits, 23 fraction
    bits, most significant byte last in memory). */
module Bytes {
  import opened Outcomes

  /** C++ `unsigned char` and `unsigned short` values. */
  type uint8 = x: int | 0 <= x < 0x100
  type uint16 = x: int | 0 <= x < 0x1_0000
  /** C++ `unsigned long` on the LP64 hosts the reader targets. */
  type uint64 = x: int | 0 <= x < 0x1_0000_0000_0000_0000

  /** A byte of a file, as the unsigned value it reads as. */
  type byte = uint8
  type Bytes = seq<byte>

  /** `n` bytes starting at `offset`, or a failure when the file is shorter. */
  function ReadBytes(file: Bytes, offset: nat, n: nat): (r: Option<Bytes>)
    ensures r.Some? <==> offset + n <= |file|
    ensures r.Some? ==> |r.value| == n
    ensures r.Some? ==> forall i :: 0 <= i < n ==> r.value[i] == file[offset + i]
  {
    if offset + n <= |file| then Some(file[offset..offset + n]) else None
  }

  /** A block of `n` zero bytes: what `ByteArray(n)` holds after construction. */
  function Zeros(n: nat): (z: Bytes)
    ensures |z| == n
    ensures forall i :: 0 <= i < n ==> z[i] == 0
  {
    seq(n, _ => 0)
  }

  /** The memory image of a binary32 value, lowest address first. */
  datatype Bits32 = Bits32(b0: bv8, b1: bv8, b2: bv8, b3: bv8)

  /** The pattern held by four file bytes, first byte lowest. */
  function BitsOf(b0: byte, b1: byte, b2: byte, b3: byte): Bits32 {
    Bits32(b0 as bv8, b1 as bv8, b2 as bv8, b3 as bv8)
  }

  /** `0.0f`. */
  const FloatZero: Bits32 := Bits32(0, 0, 0, 0)

  /** The sign bit (bit 31). */
  function Sign(f: Bits32): bv8 {
    f.b3 >> 7
  }

  /** The biased exponent (bits 30..23). */
  function Exponent(f: Bits32): bv8 {
    (f.b3 << 1) | (f.b2 >> 7)
  }

  /** The trailing significand (bits 22..0), as its high 7 bits and its
      two low bytes. */
  function Fraction(f: Bits32): (bv8, bv8, bv8) {
    (f.b2 & 0x7F, f.b1, f.b0)
  }

  /** The three IEEE fields describe the pattern completely. */
  lemma FieldsDetermineBits(f: Bits32, g: Bits32)
    requires Sign(f) == Sign(g) && Exponent(f) == Exponent(g) && Fraction(f) == Fraction(g)
    ensures f == g
  {
  }

  /** `f` with its sign bit cleared: the absolute value of a binary32. */
  function Abs(f: Bits32): (a: Bits32)
    ensures Sign(a) == 0 && Exponent(a) == Exponent(f) && Fraction(a) == Fraction(f)
  {
    Bits32(f.b0, f.b1, f.b2, f.b3 & 0x7F)
  }
}
