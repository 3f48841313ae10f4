/** Where the constants of FIPS 180-4 come from: sections 4.2.2 and 5.3.3. */
module Sha256Constants {
  import opened Sha256
  import opened Sha256Standard

  /** `k` is the first 32 bits of the fractional part of the cube root of `p`. */
  predicate CubeRoot(p: nat, whole: nat, k: Word) {
    var c := whole * 0x1_0000_0000 + k as nat;
    c * c * c <= p * 0x1_0000_0000_0000_0000_0000_0000 < (c + 1) * (c + 1) * (c + 1)
  }

  predicate SquareRoot(p: nat, whole: nat, h: Word) {
    var c := whole * 0x1_0000_0000 + h as nat;
    c * c <= p * 0x1_0000_0000_0000_0000 < (c + 1) * (c + 1)
  }

  /** The initial hash value: the square roots of the first eight primes. */
  lemma InitialIsSquareRoots()
    ensures var v := InitialValue();
      && SquareRoot(2, 1, v.a) && SquareRoot(3, 1, v.b) && SquareRoot(5, 2, v.c) && SquareRoot(7, 2, v.d)
      && SquareRoot(11, 3, v.e) && SquareRoot(13, 3, v.f) && SquareRoot(17, 4, v.g) && SquareRoot(19, 4, v.h)
  {
  }

  /** The round constants, from the first to the last: the cube roots of the first 64
      primes. */
  lemma CubeRootsFrom0()
    ensures CubeRoot(2, 1, K(0)) && CubeRoot(3, 1, K(1)) && CubeRoot(5, 1, K(2)) && CubeRoot(7, 1, K(3))
  {
  }

  lemma CubeRootsFrom4()
    ensures CubeRoot(11, 2, K(4)) && CubeRoot(13, 2, K(5)) && CubeRoot(17, 2, K(6)) && CubeRoot(19, 2, K(7))
  {
  }

  lemma CubeRootsFrom8()
    ensures CubeRoot(23, 2, K(8)) && CubeRoot(29, 3, K(9)) && CubeRoot(31, 3, K(10)) && CubeRoot(37, 3, K(11))
  {
  }

  lemma CubeRootsFrom12()
    ensures CubeRoot(41, 3, K(12)) && CubeRoot(43, 3, K(13)) && CubeRoot(47, 3, K(14)) && CubeRoot(53, 3, K(15))
  {
  }

  lemma CubeRootsFrom16()
    ensures CubeRoot(59, 3, K(16)) && CubeRoot(61, 3, K(17)) && CubeRoot(67, 4, K(18)) && CubeRoot(71, 4, K(19))
  {
  }

  lemma CubeRootsFrom20()
    ensures CubeRoot(73, 4, K(20)) && CubeRoot(79, 4, K(21)) && CubeRoot(83, 4, K(22)) && CubeRoot(89, 4, K(23))
  {
  }

  lemma CubeRootsFrom24()
    ensures CubeRoot(97, 4, K(24)) && CubeRoot(101, 4, K(25)) && CubeRoot(103, 4, K(26)) && CubeRoot(107, 4, K(27))
  {
  }

  lemma CubeRootsFrom28()
    ensures CubeRoot(109, 4, K(28)) && CubeRoot(113, 4, K(29)) && CubeRoot(127, 5, K(30)) && CubeRoot(131, 5, K(31))
  {
  }

  lemma CubeRootsFrom32()
    ensures CubeRoot(137, 5, K(32)) && CubeRoot(139, 5, K(33)) && CubeRoot(149, 5, K(34)) && CubeRoot(151, 5, K(35))
  {
  }

  lemma CubeRootsFrom36()
    ensures CubeRoot(157, 5, K(36)) && CubeRoot(163, 5, K(37)) && CubeRoot(167, 5, K(38)) && CubeRoot(173, 5, K(39))
  {
  }

  lemma CubeRootsFrom40()
    ensures CubeRoot(179, 5, K(40)) && CubeRoot(181, 5, K(41)) && CubeRoot(191, 5, K(42)) && CubeRoot(193, 5, K(43))
  {
  }

  lemma CubeRootsFrom44()
    ensures CubeRoot(197, 5, K(44)) && CubeRoot(199, 5, K(45)) && CubeRoot(211, 5, K(46)) && CubeRoot(223, 6, K(47))
  {
  }

  lemma CubeRootsFrom48()
    ensures CubeRoot(227, 6, K(48)) && CubeRoot(229, 6, K(49)) && CubeRoot(233, 6, K(50)) && CubeRoot(239, 6, K(51))
  {
  }

  lemma CubeRootsFrom52()
    ensures CubeRoot(241, 6, K(52)) && CubeRoot(251, 6, K(53)) && CubeRoot(257, 6, K(54)) && CubeRoot(263, 6, K(55))
  {
  }

  lemma CubeRootsFrom56()
    ensures CubeRoot(269, 6, K(56)) && CubeRoot(271, 6, K(57)) && CubeRoot(277, 6, K(58)) && CubeRoot(281, 6, K(59))
  {
  }

  lemma CubeRootsFrom60()
    ensures CubeRoot(283, 6, K(60)) && CubeRoot(293, 6, K(61)) && CubeRoot(307, 6, K(62)) && CubeRoot(311, 6, K(63))
  {
  }

  /** Words are read and written with the highest byte first. */
  lemma BytesAreBigEndian(b0: Byte, b1: Byte, b2: Byte, b3: Byte, w: Word)
    ensures BigEndian(b0, b1, b2, b3) as nat == Value256([b0, b1, b2, b3])
    ensures Value256(BytesOf(w)) == w as nat
  {
    FourDigits(b0, b1, b2, b3);
    hide BytesOf, Value256;
    BytesValue(w);
  }

  lemma BytesValue(w: Word)
    ensures Value256(BytesOf(w)) == w as nat
  {
    hide Value256;
    var n := w as nat;
    var n1, n2, n3 := n / 256, n / 0x1_0000, n / 0x100_0000;
    assert n2 == n1 / 256 && n3 == n2 / 256 && n3 < 256;
    FourDigits(LowByte(n3), LowByte(n2), LowByte(n1), LowByte(n));
  }

  lemma FourDigits(b0: Byte, b1: Byte, b2: Byte, b3: Byte)
    ensures Value256([b0, b1, b2, b3]) == ((b0 as nat * 256 + b1 as nat) * 256 + b2 as nat) * 256 + b3 as nat
  {
    assert Value256([b0]) == b0 as nat by { assert [b0][..0] == []; }
    assert Value256([b0, b1]) == b0 as nat * 256 + b1 as nat by { assert [b0, b1][..1] == [b0]; }
    assert Value256([b0, b1, b2]) == (b0 as nat * 256 + b1 as nat) * 256 + b2 as nat by { assert [b0, b1, b2][..2] == [b0, b1]; }
    assert [b0, b1, b2, b3][..3] == [b0, b1, b2];
  }
}
