/** The hash function of FIPS 180-4, sections 4.1.2, 4.2.2, 5.1.1, 5.3.3 and 6.2.2,
    for messages of whole bytes. */
module Sha256Standard {
  newtype Byte = x: int | 0 <= x < 256 witness 0
  newtype Word = x: int | 0 <= x < 0x1_0000_0000 witness 0

  // Words as bits, for the bitwise operations.
  type Bits = bv32

  function Xor(x: Word, y: Word): Word { ((x as Bits) ^ (y as Bits)) as Word }
  function And(x: Word, y: Word): Word { ((x as Bits) & (y as Bits)) as Word }
  function Not(x: Word): Word { (!(x as Bits)) as Word }

  function ShR(x: Word, n: nat): Word
    requires n <= 32
  {
    ((x as Bits) >> n) as Word
  }

  function RotR(x: Word, n: nat): Word
    requires n <= 32
  {
    (((x as Bits) >> n) | ((x as Bits) << (32 - n))) as Word
  }

  /** Addition modulo 2^32. */
  function Sum(x: Word, y: Word): Word { ((x as int + y as int) % 0x1_0000_0000) as Word }

  function Ch(x: Word, y: Word, z: Word): Word { Xor(And(x, y), And(Not(x), z)) }
  function Maj(x: Word, y: Word, z: Word): Word { Xor(Xor(And(x, y), And(x, z)), And(y, z)) }
  function BigSigma0(x: Word): Word { Xor(Xor(RotR(x, 2), RotR(x, 13)), RotR(x, 22)) }
  function BigSigma1(x: Word): Word { Xor(Xor(RotR(x, 6), RotR(x, 11)), RotR(x, 25)) }
  function SmallSigma0(x: Word): Word { Xor(Xor(RotR(x, 7), RotR(x, 18)), ShR(x, 3)) }
  function SmallSigma1(x: Word): Word { Xor(Xor(RotR(x, 17), RotR(x, 19)), ShR(x, 10)) }

  /** The table of section 4.2.2, eight words to a row. */
  function Constants(row: nat): (words: seq<Word>)
    ensures |words| == 8
  {
    match row
    case 0 => [0x428a2f98, 0x71374491, 0xb5c0fbcf, 0xe9b5dba5, 0x3956c25b, 0x59f111f1, 0x923f82a4, 0xab1c5ed5]
    case 1 => [0xd807aa98, 0x12835b01, 0x243185be, 0x550c7dc3, 0x72be5d74, 0x80deb1fe, 0x9bdc06a7, 0xc19bf174]
    case 2 => [0xe49b69c1, 0xefbe4786, 0x0fc19dc6, 0x240ca1cc, 0x2de92c6f, 0x4a7484aa, 0x5cb0a9dc, 0x76f988da]
    case 3 => [0x983e5152, 0xa831c66d, 0xb00327c8, 0xbf597fc7, 0xc6e00bf3, 0xd5a79147, 0x06ca6351, 0x14292967]
    case 4 => [0x27b70a85, 0x2e1b2138, 0x4d2c6dfc, 0x53380d13, 0x650a7354, 0x766a0abb, 0x81c2c92e, 0x92722c85]
    case 5 => [0xa2bfe8a1, 0xa81a664b, 0xc24b8b70, 0xc76c51a3, 0xd192e819, 0xd6990624, 0xf40e3585, 0x106aa070]
    case 6 => [0x19a4c116, 0x1e376c08, 0x2748774c, 0x34b0bcb5, 0x391c0cb3, 0x4ed8aa4a, 0x5b9cca4f, 0x682e6ff3]
    case _ => [0x748f82ee, 0x78a5636f, 0x84c87814, 0x8cc70208, 0x90befffa, 0xa4506ceb, 0xbef9a3f7, 0xc67178f2]
  }

  function K(t: nat): Word
    requires t < 64
  {
    Constants(t / 8)[t % 8]
  }

  /** The hash value and the working variables are eight words. */
  datatype Words8 = Words8(a: Word, b: Word, c: Word, d: Word, e: Word, f: Word, g: Word, h: Word)

  /** Section 5.3.3. */
  function InitialValue(): Words8 {
    Words8(0x6a09e667, 0xbb67ae85, 0x3c6ef372, 0xa54ff53a, 0x510e527f, 0x9b05688c, 0x1f83d9ab, 0x5be0cd19)
  }

  predicate IsBlock(block: seq<Byte>) { |block| == 64 }

  function BigEndian(b0: Byte, b1: Byte, b2: Byte, b3: Byte): Word {
    (((b0 as int * 256 + b1 as int) * 256 + b2 as int) * 256 + b3 as int) as Word
  }

  function Extend(w2: Word, w7: Word, w15: Word, w16: Word): Word { Sum(Sum(Sum(SmallSigma1(w2), w7), SmallSigma0(w15)), w16) }

  /** The message schedule of section 6.2.2. */
  function W(block: seq<Byte>, t: nat): Word
    requires IsBlock(block) && t < 64
  {
    if t < 16 then BigEndian(block[4 * t], block[4 * t + 1], block[4 * t + 2], block[4 * t + 3])
    else Extend(W(block, t - 2), W(block, t - 7), W(block, t - 15), W(block, t - 16))
  }

  function T1(e: Word, f: Word, g: Word, h: Word, k: Word, w: Word): Word { Sum(Sum(Sum(Sum(h, BigSigma1(e)), Ch(e, f, g)), k), w) }

  function T2(a: Word, b: Word, c: Word): Word { Sum(BigSigma0(a), Maj(a, b, c)) }

  /** One round of section 6.2.2. */
  function Round(v: Words8, k: Word, w: Word): Words8 {
    var t1 := T1(v.e, v.f, v.g, v.h, k, w);
    Words8(Sum(t1, T2(v.a, v.b, v.c)), v.a, v.b, v.c, Sum(v.d, t1), v.e, v.f, v.g)
  }

  function Rounds(v: Words8, block: seq<Byte>, n: nat): Words8
    requires IsBlock(block) && n <= 64
  {
    if n == 0 then v else Round(Rounds(v, block, n - 1), K(n - 1), W(block, n - 1))
  }

  function Add8(x: Words8, y: Words8): Words8 {
    Words8(Sum(x.a, y.a), Sum(x.b, y.b), Sum(x.c, y.c), Sum(x.d, y.d),
           Sum(x.e, y.e), Sum(x.f, y.f), Sum(x.g, y.g), Sum(x.h, y.h))
  }

  /** The next hash value after one block. */
  function Compress(v: Words8, block: seq<Byte>): Words8
    requires IsBlock(block)
  {
    Add8(v, Rounds(v, block, 64))
  }

  /** The hash value after the blocks of `m`. */
  function Absorb(m: seq<Byte>): Words8
    requires |m| % 64 == 0
  {
    if m == [] then InitialValue() else Compress(Absorb(m[..|m| - 64]), m[|m| - 64..])
  }

  /** `n` in base 256, in `width` digits. */
  function Base256(n: nat, width: nat): (s: seq<Byte>)
    ensures |s| == width
  {
    if width == 0 then [] else Base256(n / 256, width - 1) + [(n % 256) as Byte]
  }

  function Zeros(n: nat): (s: seq<Byte>)
    ensures |s| == n
  {
    seq(n, _ => 0)
  }

  /** The least number of zero bytes that takes a message of `n` bytes and the byte
      0x80 to 56 bytes modulo 64. */
  function ZeroCount(n: nat): nat { (55 - n) % 64 }

  /** Section 5.1.1. */
  function Pad(m: seq<Byte>): (p: seq<Byte>)
    ensures |p| % 64 == 0 && m <= p
  {
    m + [0x80] + Zeros(ZeroCount(|m|)) + Base256(8 * |m|, 8)
  }

  function LowByte(n: int): Byte { (n % 256) as Byte }

  function BytesOf(w: Word): (s: seq<Byte>)
    ensures |s| == 4
  {
    [LowByte(w as int / 0x100_0000), LowByte(w as int / 0x1_0000), LowByte(w as int / 0x100), LowByte(w as int)]
  }

  function BytesOf8(v: Words8): (s: seq<Byte>)
    ensures |s| == 32
  {
    BytesOf(v.a) + BytesOf(v.b) + BytesOf(v.c) + BytesOf(v.d) + BytesOf(v.e) + BytesOf(v.f) + BytesOf(v.g) + BytesOf(v.h)
  }

  /** The SHA-256 hash of a message. */
  function Digest(m: seq<Byte>): (d: seq<Byte>)
    ensures |d| == 32
  {
    BytesOf8(Absorb(Pad(m)))
  }
}
