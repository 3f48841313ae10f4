/** The streaming hash, and the whole-file digests built on it. */
module Sha256 {
  import opened Arithmetic
  import opened Sha256Standard

  function Pow256(n: nat): (p: nat)
    ensures p > 0
  {
    if n == 0 then 1 else 256 * Pow256(n - 1)
  }

  // --- the length field

  lemma {:induction false} Base256At(n: nat, width: nat, i: nat)
    requires i < width
    ensures Base256(n, width)[i] == ((n / Pow256(width - 1 - i)) % 256) as Byte
  {
    if i < width - 1 {
      Base256At(n / 256, width - 1, i);
      Quotient(n, 256, Pow256(width - 2 - i));
    }
  }

  /** Only the low digits show: a length modulo 256^width reads the same. */
  lemma {:induction false} Base256Mod(n: nat, width: nat)
    ensures Base256(n % Pow256(width), width) == Base256(n, width)
  {
    if width > 0 {
      Quotient(n, 256, Pow256(width - 1));
      Base256Mod(n / 256, width - 1);
    }
  }

  /** The value of a digit string in base 256. */
  function Value256(s: seq<Byte>): nat {
    if s == [] then 0 else 256 * Value256(s[..|s| - 1]) + s[|s| - 1] as nat
  }

  /** A message of `n` bytes, the byte 0x80 and `z` zeros leave 8 bytes of a block free. */
  predicate MakesRoom(n: nat, z: nat) { (n + 1 + z) % 64 == 56 }

  /** Below 2^61 bytes the length field is the length of the message in bits, and
      the padding is the shortest that makes room for it. */
  lemma PaddingIsStandard(m: seq<Byte>)
    requires |m| < 0x2000_0000_0000_0000
    ensures Value256(Base256(8 * |m|, 8)) == 8 * |m|
    ensures MakesRoom(|m|, ZeroCount(|m|)) && forall z: nat :: MakesRoom(|m|, z) ==> ZeroCount(|m|) <= z
  {
    hide Base256, Value256, Pow256, ZeroCount;
    EightDigits();
    Base256Value(8 * |m|, 8);
    LeastRoom(|m|, ZeroCount(|m|));
    forall z: nat | MakesRoom(|m|, z) ensures ZeroCount(|m|) <= z { LeastRoom(|m|, z); }
  }

  lemma LeastRoom(n: nat, z: nat)
    ensures MakesRoom(n, ZeroCount(n)) && (MakesRoom(n, z) ==> ZeroCount(n) <= z)
  {
    assert MakesRoom(n, z) ==> z % 64 == (55 - n) % 64;
  }

  lemma EightDigits()
    ensures Pow256(8) == TwoTo64
  {
    assert Pow256(2) == 0x1_0000;
    assert Pow256(4) == 0x1_0000_0000;
    assert Pow256(6) == 0x1_0000_0000_0000;
  }

  lemma {:induction false} Base256Value(n: nat, width: nat)
    requires n < Pow256(width)
    ensures Value256(Base256(n, width)) == n
  {
    if width > 0 {
      Base256Value(n / 256, width - 1);
      var s := Base256(n, width);
      assert s[..|s| - 1] == Base256(n / 256, width - 1);
    }
  }

  // --- blocks

  lemma AbsorbBlock(m: seq<Byte>, block: seq<Byte>)
    requires |m| % 64 == 0 && IsBlock(block)
    ensures Absorb(m + block) == Compress(Absorb(m), block)
  {
    var all := m + block;
    assert all[..|all| - 64] == m && all[|all| - 64..] == block;
  }

  /** The program adds in another order. */
  lemma ExtendOrder(w2: Word, w7: Word, w15: Word, w16: Word)
    ensures Extend(w2, w7, w15, w16) == Sum(Sum(Sum(w16, SmallSigma0(w15)), w7), SmallSigma1(w2))
  {
    hide SmallSigma0, SmallSigma1, Sum;
    var a, b, c, d := SmallSigma1(w2), w7, SmallSigma0(w15), w16;
    SumOfFour(a, b, c, d);
    SumOfFour(d, c, b, a);
  }

  lemma SumOfFour(a: Word, b: Word, c: Word, d: Word)
    ensures Sum(Sum(Sum(a, b), c), d) as int == (a as int + b as int + c as int + d as int) % 0x1_0000_0000
  {
    SumAdds(a as int, a, b);
    SumAdds(a as int + b as int, Sum(a, b), c);
    SumAdds(a as int + b as int + c as int, Sum(Sum(a, b), c), d);
  }

  lemma SumAdds(n: nat, x: Word, y: Word)
    requires x as int == n % 0x1_0000_0000
    ensures Sum(x, y) as int == (n + y as int) % 0x1_0000_0000
  {
  }

  lemma ScheduleStep(block: seq<Byte>, t: nat)
    requires IsBlock(block) && t < 64
    ensures W(block, t) ==
      if t < 16 then BigEndian(block[4 * t], block[4 * t + 1], block[4 * t + 2], block[4 * t + 3])
      else Extend(W(block, t - 2), W(block, t - 7), W(block, t - 15), W(block, t - 16))
  {
    hide BigEndian, Extend;
  }

  lemma AbsorbNothing()
    ensures Absorb([]) == InitialValue()
  {
    hide InitialValue;
  }

  class Context {
    const state: array<Word>
    const buffer: array<Byte>
    var bufferSize: nat
    var totalSize: nat
    ghost var fed: seq<Byte>

    ghost function Hash(): Words8
      requires state.Length == 8
      reads state
    {
      Words8(state[0], state[1], state[2], state[3], state[4], state[5], state[6], state[7])
    }

    /** The whole blocks of what was fed are hashed, the rest is in the buffer. */
    ghost predicate Holds()
      reads this, state, buffer
    {
      && state.Length == 8 && buffer.Length == 64 && bufferSize <= 64 && bufferSize <= |fed|
      && (|fed| - bufferSize) % 64 == 0
      && buffer[..bufferSize] == fed[|fed| - bufferSize..]
      && Hash() == Absorb(fed[..|fed| - bufferSize])
    }

    /** The context between calls, after the message `fed`. */
    ghost predicate Valid()
      reads this, state, buffer
    {
      Holds() && bufferSize < 64 && totalSize == |fed| % TwoTo64
    }

    /** pux_sha256_init. */
    constructor ()
      ensures Valid() && fresh(state) && fresh(buffer) && fed == []
    {
      hide Absorb, InitialValue, Compress, Context.Hash, Context.Valid, Context.Holds;
      AbsorbNothing();
      var v := InitialValue();
      state := new Word[8] [v.a, v.b, v.c, v.d, v.e, v.f, v.g, v.h];
      buffer := new Byte[64];
      bufferSize, totalSize, fed := 0, 0, [];
      new;
      HashIs(v);
      Begins();
    }

    lemma Begins()
      requires state.Length == 8 && buffer.Length == 64 && bufferSize == 0 && totalSize == 0 && fed == [] && Hash() == Absorb([])
      ensures Valid()
    {
      hide Absorb, Hash;
      assert fed[..0] == [];
    }

    lemma HashIs(v: Words8)
      requires state.Length == 8 && state[..] == [v.a, v.b, v.c, v.d, v.e, v.f, v.g, v.h]
      ensures Hash() == v
    {
      assert state[0] == state[..][0] && state[1] == state[..][1] && state[2] == state[..][2] && state[3] == state[..][3];
      assert state[4] == state[..][4] && state[5] == state[..][5] && state[6] == state[..][6] && state[7] == state[..][7];
    }

    method Schedule() returns (w: array<Word>)
      requires buffer.Length == 64
      ensures fresh(w) && w.Length == 64 && forall t :: 0 <= t < 64 ==> w[t] == W(buffer[..], t)
    {
      hide BigEndian, W, Extend, Sum, Xor, RotR, ShR;
      w := new Word[64];
      ghost var block := buffer[..];
      for i := 0 to 16
        invariant forall t :: 0 <= t < i ==> w[t] == W(block, t)
      {
        ScheduleStep(block, i);
        w[i] := BigEndian(buffer[4 * i], buffer[4 * i + 1], buffer[4 * i + 2], buffer[4 * i + 3]);
      }
      for i := 16 to 64
        invariant forall t :: 0 <= t < i ==> w[t] == W(block, t)
      {
        ScheduleStep(block, i);
        ExtendOrder(w[i - 2], w[i - 7], w[i - 15], w[i - 16]);
        var s0 := Xor(Xor(RotR(w[i - 15], 7), RotR(w[i - 15], 18)), ShR(w[i - 15], 3));
        var s1 := Xor(Xor(RotR(w[i - 2], 17), RotR(w[i - 2], 19)), ShR(w[i - 2], 10));
        w[i] := Sum(Sum(Sum(w[i - 16], s0), w[i - 7]), s1);
      }
    }

    /** transform on the buffer. */
    method Transform()
      requires state.Length == 8 && buffer.Length == 64
      modifies state
      ensures Hash() == Compress(old(Hash()), buffer[..])
    {
      hide K, W, Sum, Xor, And, Not, RotR;
      var w := Schedule();
      ghost var start, block := Hash(), buffer[..];
      var a, b, c, d := state[0], state[1], state[2], state[3];
      var e, f, g, h := state[4], state[5], state[6], state[7];
      for i := 0 to 64
        invariant Words8(a, b, c, d, e, f, g, h) == Rounds(start, block, i)
      {
        var s1 := Xor(Xor(RotR(e, 6), RotR(e, 11)), RotR(e, 25));
        var ch := Xor(And(e, f), And(Not(e), g));
        var temp1 := Sum(Sum(Sum(Sum(h, s1), ch), K(i)), w[i]);
        var s0 := Xor(Xor(RotR(a, 2), RotR(a, 13)), RotR(a, 22));
        var maj := Xor(Xor(And(a, b), And(a, c)), And(b, c));
        var temp2 := Sum(s0, maj);
        h := g;
        g := f;
        f := e;
        e := Sum(d, temp1);
        d := c;
        c := b;
        b := a;
        a := Sum(temp1, temp2);
      }
      state[0], state[1], state[2], state[3] := Sum(state[0], a), Sum(state[1], b), Sum(state[2], c), Sum(state[3], d);
      state[4], state[5], state[6], state[7] := Sum(state[4], e), Sum(state[5], f), Sum(state[6], g), Sum(state[7], h);
    }

    /** Hashes the full buffer and empties it. */
    method Flush()
      requires Holds() && bufferSize == 64
      modifies this`bufferSize, state
      ensures Holds() && bufferSize == 0
    {
      hide Compress;
      AbsorbBlock(fed[..|fed| - 64], buffer[..]);
      assert fed == fed[..|fed| - 64] + buffer[..] && fed[..|fed|] == fed;
      Transform();
      bufferSize := 0;
    }

    /** Appends bytes that fit. */
    method Append(data: seq<Byte>)
      requires Holds() && bufferSize + |data| <= 64
      modifies this`bufferSize, this`fed, buffer
      ensures Holds() && bufferSize == old(bufferSize) + |data| && fed == old(fed) + data
    {
      hide Absorb;
      ghost var hashed := fed[..|fed| - bufferSize];
      forall j | 0 <= j < |data| { buffer[bufferSize + j] := data[j]; }
      bufferSize := bufferSize + |data|;
      fed := fed + data;
      assert buffer[..bufferSize] == old(buffer[..bufferSize]) + data;
      assert fed[|fed| - bufferSize..] == old(fed[|fed| - bufferSize..]) + data;
      assert fed[..|fed| - bufferSize] == hashed;
    }

    /** pux_sha256_update. */
    method Update(data: seq<Byte>)
      requires Valid()
      modifies this`bufferSize, this`totalSize, this`fed, state, buffer
      ensures Valid() && fed == old(fed) + data
    {
      hide Absorb, Hash;
      ghost var total := fed + data;
      CountsModulo(|fed|, |data|);
      totalSize := (totalSize + |data|) % TwoTo64;
      var rest := data;
      while |rest| > 0
        invariant Holds() && bufferSize < 64
        invariant fed + rest == total && totalSize == |total| % TwoTo64
      {
        var remaining := 64 - bufferSize;
        var take := if |rest| < remaining then |rest| else remaining;
        assert fed + rest == (fed + rest[..take]) + rest[take..];
        Append(rest[..take]);
        rest := rest[take..];
        if bufferSize == 64 { Flush(); }
      }
      assert rest == [] && fed == total;
    }

    method AppendZeros(limit: nat, ghost zeros: nat, ghost m: seq<Byte>) returns (ghost count: nat)
      requires Holds() && bufferSize <= limit <= 64 && fed == m + [0x80] + Zeros(zeros)
      modifies this`bufferSize, this`fed, buffer
      ensures Holds() && bufferSize == limit && count == zeros + limit - old(bufferSize)
      ensures fed == m + [0x80] + Zeros(count)
    {
      hide Absorb, Hash;
      count := zeros;
      while bufferSize < limit
        invariant Holds() && bufferSize <= limit && count == zeros + bufferSize - old(bufferSize)
        invariant fed == m + [0x80] + Zeros(count)
      {
        assert Zeros(count) + [0] == Zeros(count + 1);
        Append([0]);
        count := count + 1;
      }
    }

    lemma BetweenCalls()
      requires Valid()
      ensures Holds() && bufferSize == |fed| % 64
    {
      hide Absorb, Hash;
      RestModulo(|fed|, bufferSize);
    }

    /** The first half of the padding: the byte 0x80 and zeros up to byte 56 of a block. */
    method AppendMarker()
      requires Valid()
      modifies this`bufferSize, this`fed, state, buffer
      ensures Holds() && bufferSize == 56
      ensures fed == old(fed) + [0x80] + Zeros(ZeroCount(|old(fed)|))
    {
      hide Valid, Holds, Zeros, ZeroCount;
      BetweenCalls();
      ghost var m, start := fed, bufferSize;
      Append([0x80]);
      ghost var zeros := 0;
      assert Zeros(0) == [];
      assert fed == m + [0x80] + Zeros(0);
      if bufferSize > 56 {
        zeros := AppendZeros(64, zeros, m);
        Flush();
      }
      zeros := AppendZeros(56, zeros, m);
      ZerosNeeded(|m|, start);
    }

    /** The second half: the length in bits. */
    method AppendLength(bitLength: nat, ghost m: seq<Byte>)
      requires Holds() && bufferSize == 56 && bitLength == (|m| % TwoTo64) * 8 % TwoTo64
      modifies this`bufferSize, this`fed, buffer
      ensures Holds() && bufferSize == 64 && fed == old(fed) + Base256(8 * |m|, 8)
    {
      hide Absorb, Hash, Base256, Pow256;
      ghost var body, length := fed, Base256(8 * |m|, 8);
      for i := 0 to 8
        invariant Holds() && bufferSize == 56 + i
        invariant fed == body + length[..i]
      {
        LengthByte(|m|, i);
        Append([((bitLength / Pow256(7 - i)) % 256) as Byte]);
      }
    }

    /** pux_sha256_final: the digest of everything fed. */
    method Final() returns (digest: seq<Byte>)
      requires Valid()
      modifies this, state, buffer
      ensures digest == Digest(old(fed))
    {
      hide Absorb, BytesOf, Base256, Zeros, ZeroCount;
      ghost var m := fed;
      var bitLength := totalSize * 8 % TwoTo64;
      AppendMarker();
      AppendLength(bitLength, m);
      assert fed == Pad(m);
      Flush();
      assert fed[..|fed|] == fed;
      digest := BytesOf(state[0]) + BytesOf(state[1]) + BytesOf(state[2]) + BytesOf(state[3])
        + BytesOf(state[4]) + BytesOf(state[5]) + BytesOf(state[6]) + BytesOf(state[7]);
      forall i | 0 <= i < 8 { state[i] := 0; }
      forall i | 0 <= i < 64 { buffer[i] := 0; }
      bufferSize, totalSize := 0, 0;
    }
  }

  /** Both ways of padding, on either side of byte 56. */
  lemma ZerosNeeded(n: nat, used: nat)
    requires used == n % 64
    ensures ZeroCount(n) == if used + 1 > 56 then (64 - (used + 1)) + 56 else 56 - (used + 1)
  {
  }

  lemma RestModulo(n: nat, used: nat)
    requires used <= n && used < 64 && (n - used) % 64 == 0
    ensures used == n % 64
  {
  }

  lemma CountsModulo(n: nat, k: nat)
    ensures (n % TwoTo64 + k) % TwoTo64 == (n + k) % TwoTo64
  {
  }

  /** The counters run modulo 2^64; the bytes written are those of the bit length. */
  lemma LengthByte(n: nat, i: nat)
    requires i < 8
    ensures (((n % TwoTo64) * 8 % TwoTo64 / Pow256(7 - i)) % 256) as Byte == Base256(8 * n, 8)[i]
  {
    EightDigits();
    assert (n % TwoTo64) * 8 % TwoTo64 == 8 * n % TwoTo64;
    Base256Mod(8 * n, 8);
    Base256At(8 * n % TwoTo64, 8, i);
  }

  // --- digests of whole files

  function Joined(pieces: seq<seq<Byte>>): seq<Byte> {
    if pieces == [] then [] else Joined(pieces[..|pieces| - 1]) + pieces[|pieces| - 1]
  }

  function HexDigit(n: nat): char
    requires n < 16
  {
    if n < 10 then '0' + n as char else 'a' + (n - 10) as char
  }

  function Hex(d: seq<Byte>): (s: string)
    ensures |s| == 2 * |d|
  {
    if d == [] then "" else [HexDigit(d[0] as nat / 16), HexDigit(d[0] as nat % 16)] + Hex(d[1..])
  }

  /** Equal hexadecimal digests are equal digests. */
  lemma {:induction false} HexInjective(d: seq<Byte>, e: seq<Byte>)
    requires |d| == |e|
    ensures Hex(d) == Hex(e) <==> d == e
  {
    if d != [] && Hex(d) == Hex(e) {
      assert Hex(d)[0] == Hex(e)[0] && Hex(d)[1] == Hex(e)[1];
      assert Hex(d)[2..] == Hex(d[1..]) && Hex(e)[2..] == Hex(e[1..]);
      HexInjective(d[1..], e[1..]);
      SameDigits(d[0] as nat, e[0] as nat);
      assert d == [d[0]] + d[1..] && e == [e[0]] + e[1..];
    }
  }

  lemma SameDigits(x: nat, y: nat)
    requires x < 256 && y < 256
    requires HexDigit(x / 16) == HexDigit(y / 16) && HexDigit(x % 16) == HexDigit(y % 16)
    ensures x == y
  {
  }

  /** The value of a lower-case hexadecimal digit. */
  function DigitValue(c: char): int {
    if '0' <= c <= '9' then c as int - '0' as int else if 'a' <= c <= 'f' then c as int - 'a' as int + 10 else -1
  }

  /** Read in base 16, the text is the digest: two digits for a byte, the higher first. */
  lemma {:induction false} HexReads(d: seq<Byte>, i: nat)
    requires i < |d|
    ensures var high, low := DigitValue(Hex(d)[2 * i]), DigitValue(Hex(d)[2 * i + 1]);
      0 <= high < 16 && 0 <= low < 16 && 16 * high + low == d[i] as int
  {
    if i > 0 {
      HexReads(d[1..], i - 1);
      assert Hex(d)[2..] == Hex(d[1..]);
    }
  }

  /** pux_sha256_hex. */
  method WriteHex(digest: seq<Byte>) returns (output: string)
    ensures output == Hex(digest)
  {
    output := "";
    for i := 0 to |digest|
      invariant output + Hex(digest[i..]) == Hex(digest)
    {
      assert digest[i..][0] == digest[i] && digest[i..][1..] == digest[i + 1..];
      output := output + [HexDigit(digest[i] as nat / 16), HexDigit(digest[i] as nat % 16)];
    }
  }

  /** pux_sha256_file over the pieces that the reads return: however the file is cut,
      the result is the digest of the whole. */
  method HashPieces(pieces: seq<seq<Byte>>) returns (output: string)
    ensures output == Hex(Digest(Joined(pieces)))
  {
    hide Context.Valid, Context.Holds, Context.Hash, Absorb, Digest, Hex;
    var ctx := new Context();
    for i := 0 to |pieces|
      invariant ctx.Valid() && ctx.fed == Joined(pieces[..i])
      invariant fresh(ctx) && fresh(ctx.state) && fresh(ctx.buffer)
    {
      assert pieces[..i + 1][..i] == pieces[..i];
      ctx.Update(pieces[i]);
    }
    assert pieces[..|pieces|] == pieces;
    var digest := ctx.Final();
    output := WriteHex(digest);
  }
}
