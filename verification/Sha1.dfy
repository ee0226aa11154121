/** SHA-1 as FIPS 180-4 defines it. */
module Fips {
  import opened Bits

  /** Section 3.2. */
  function Rotl(n: nat, x: bv32): bv32
    requires 0 < n < 32
  {
    (x << n) | (x >> (32 - n))
  }

  /** Section 4.1.1. */
  function Ch(x: bv32, y: bv32, z: bv32): bv32 {
    (x & y) ^ ((!x) & z)
  }

  function Parity(x: bv32, y: bv32, z: bv32): bv32 {
    x ^ y ^ z
  }

  function Maj(x: bv32, y: bv32, z: bv32): bv32 {
    (x & y) ^ (x & z) ^ (y & z)
  }

  function F(t: nat, x: bv32, y: bv32, z: bv32): bv32 {
    if t <= 19 then Ch(x, y, z) else if t <= 39 then Parity(x, y, z) else if t <= 59 then Maj(x, y, z) else Parity(x, y, z)
  }

  /** Section 4.2.1. */
  function K(t: nat): bv32 {
    if t <= 19 then 0x5a827999 else if t <= 39 then 0x6ed9eba1 else if t <= 59 then 0x8f1bbcdc else 0xca62c1d6
  }

  datatype Registers = Registers(a: bv32, b: bv32, c: bv32, d: bv32, e: bv32)

  /** Section 5.3.1. */
  const INITIAL := Registers(0x67452301, 0xefcdab89, 0x98badcfe, 0x10325476, 0xc3d2e1f0)

  const BLOCK: nat := 64

  function Word(b0: bv8, b1: bv8, b2: bv8, b3: bv8): bv32 {
    ((b0 as bv32) << 24) | ((b1 as bv32) << 16) | ((b2 as bv32) << 8) | (b3 as bv32)
  }

  /** Section 6.1.2, step 1. */
  function W(block: seq<bv8>, t: nat): bv32
    requires |block| == BLOCK
  {
    if t < 16 then Word(block[4 * t], block[4 * t + 1], block[4 * t + 2], block[4 * t + 3])
    else Rotl(1, W(block, t - 3) ^ W(block, t - 8) ^ W(block, t - 14) ^ W(block, t - 16))
  }

  /** Addition modulo 2^32. */
  function Sum(p: bv32, q: bv32, r: bv32, s: bv32, t: bv32): bv32 {
    p + q + r + s + t
  }

  function Plus(x: bv32, y: bv32): bv32 {
    x + y
  }

  /** Section 6.1.2, step 3, one value of `t`. */
  function Step(r: Registers, t: nat, w: bv32): Registers {
    Registers(Sum(Rotl(5, r.a), F(t, r.b, r.c, r.d), r.e, K(t), w), r.a, Rotl(30, r.b), r.c, r.d)
  }

  const ROUNDS: nat := 80

  /** The working variables after `t` values. */
  function Rounds(h: Registers, block: seq<bv8>, t: nat): Registers
    requires |block| == BLOCK
  {
    if t == 0 then h else Step(Rounds(h, block, t - 1), t - 1, W(block, t - 1))
  }

  /** Section 6.1.2, steps 2 to 4. */
  function Compress(h: Registers, block: seq<bv8>): Registers
    requires |block| == BLOCK
  {
    var r := Rounds(h, block, ROUNDS);
    Registers(Plus(r.a, h.a), Plus(r.b, h.b), Plus(r.c, h.c), Plus(r.d, h.d), Plus(r.e, h.e))
  }

  function Blocks(h: Registers, message: seq<bv8>): Registers
    decreases |message|
  {
    if |message| < BLOCK then h else Blocks(Compress(h, message[..BLOCK]), message[BLOCK..])
  }

  function WordBytes(x: bv32): (s: seq<bv8>)
    ensures |s| == 4
  {
    [((x >> 24) & 0xff) as bv8, ((x >> 16) & 0xff) as bv8, ((x >> 8) & 0xff) as bv8, (x & 0xff) as bv8]
  }

  function Digest(h: Registers): (s: seq<bv8>)
    ensures |s| == 20
  {
    WordBytes(h.a) + WordBytes(h.b) + WordBytes(h.c) + WordBytes(h.d) + WordBytes(h.e)
  }

  // ---------------------------------------------------------------------------------------------
  // The constants and the chaining, from outside
  // ---------------------------------------------------------------------------------------------

  /** `k` is the square root of `n` in 30 binary places, rounded down. */
  predicate IsScaledRoot(k: nat, n: nat) {
    k * k <= n * 0x1000_0000_0000_0000 < (k + 1) * (k + 1)
  }

  /** The round constants are the square roots of 2, 3, 5 and 10, each for twenty rounds. */
  lemma {:induction false} RoundConstants(t: nat)
    requires t < ROUNDS
    ensures IsScaledRoot(K(t) as nat, if t < 20 then 2 else if t < 40 then 3 else if t < 60 then 5 else 10)
  {
    assert IsScaledRoot(0x5a827999, 2) && IsScaledRoot(0x6ed9eba1, 3) && IsScaledRoot(0x8f1bbcdc, 5) && IsScaledRoot(0xca62c1d6, 10);
  }

  function Reversed(s: seq<bv8>): seq<bv8>
    requires |s| == 4
  {
    [s[3], s[2], s[1], s[0]]
  }

  /** The initial value, low byte first, counts the nibbles up, then down, then takes every other one. */
  lemma {:induction false} InitialValue()
    ensures Reversed(WordBytes(INITIAL.a)) + Reversed(WordBytes(INITIAL.b)) == [0x01, 0x23, 0x45, 0x67, 0x89, 0xab, 0xcd, 0xef]
    ensures Reversed(WordBytes(INITIAL.c)) + Reversed(WordBytes(INITIAL.d)) == [0xfe, 0xdc, 0xba, 0x98, 0x76, 0x54, 0x32, 0x10]
    ensures Reversed(WordBytes(INITIAL.e)) == [0xf0, 0xe1, 0xd2, 0xc3]
  {
  }

  lemma PlusCommutes(x: bv32, y: bv32)
    ensures Plus(x, y) == Plus(y, x)
  {
  }

  /** Whatever value a block starts from is added to what its 80 rounds give. */
  lemma {:induction false} FeedForward(h: Registers, block: seq<bv8>)
    requires |block| == BLOCK
    ensures var g, r := Compress(h, block), Rounds(h, block, 80);
            && g.a == Plus(h.a, r.a) && g.b == Plus(h.b, r.b) && g.c == Plus(h.c, r.c)
            && g.d == Plus(h.d, r.d) && g.e == Plus(h.e, r.e)
  {
    hide Rounds, Plus;
    var r := Rounds(h, block, ROUNDS);
    PlusCommutes(r.a, h.a);
    PlusCommutes(r.b, h.b);
    PlusCommutes(r.c, h.c);
    PlusCommutes(r.d, h.d);
    PlusCommutes(r.e, h.e);
  }

  /** Each block starts from what the blocks before it gave. */
  lemma {:induction false} BlocksChain(h: Registers, message: seq<bv8>, block: seq<bv8>)
    requires |message| % BLOCK == 0 && |block| == BLOCK
    ensures Blocks(h, []) == h && Blocks(h, message + block) == Compress(Blocks(h, message), block)
    decreases |message|
  {
    hide Compress;
    var all := message + block;
    if message == [] {
      assert all[..BLOCK] == block && all[BLOCK..] == [];
    } else {
      assert all[..BLOCK] == message[..BLOCK] && all[BLOCK..] == message[BLOCK..] + block;
      BlocksChain(Compress(h, message[..BLOCK]), message[BLOCK..], block);
    }
  }

  // ---------------------------------------------------------------------------------------------
  // Padding, section 5.1.1
  // ---------------------------------------------------------------------------------------------

  /** Zero bytes between the 0x80 and the length field. */
  function ZeroBytes(length: nat): (z: nat)
    ensures z < 64 && (length + 1 + z) % 64 == 56
  {
    (55 - length) % 64
  }

  /** Bytes of the length field. */
  const FIELD: nat := 8

  function ZeroRun(z: nat): (s: seq<bv8>)
    ensures |s| == z
  {
    seq(z, _ => 0)
  }

  function Padded(m: seq<bv8>): seq<bv8> {
    m + ([0x80] + ZeroRun(ZeroBytes(|m|))) + BigEndian(8 * |m|, FIELD)
  }

  function Sha1(m: seq<bv8>): (digest: seq<bv8>)
    ensures |digest| == 20
  {
    Digest(Blocks(INITIAL, Padded(m)))
  }

  function ZeroBits(k: nat): (b: seq<bool>)
    ensures |b| == k
  {
    seq(k, _ => false)
  }

  lemma {:induction false} ZerosAreZero(z: nat)
    ensures OfBytes(ZeroRun(z)) == ZeroBits(8 * z)
  {
    if z > 0 {
      assert ZeroRun(z)[1..] == ZeroRun(z - 1);
      ZerosAreZero(z - 1);
      assert OfByte(0) == ZeroBits(8);
      assert ZeroBits(8 * z) == ZeroBits(8) + ZeroBits(8 * (z - 1));
    }
  }

  lemma {:induction false} MarkerByte()
    ensures OfByte(0x80) == [true] + ZeroBits(7)
    ensures OfBytes([0x80]) == [true] + ZeroBits(7)
  {
    var x: bv8 := 0x80;
    assert x & 0x80 != 0 && x & 0x40 == 0 && x & 0x20 == 0 && x & 0x10 == 0 && x & 8 == 0 && x & 4 == 0 && x & 2 == 0 && x & 1 == 0;
    assert [x][1..] == [];
  }

  lemma {:induction false} TailBits(z: nat)
    ensures OfBytes([0x80] + ZeroRun(z)) == [true] + ZeroBits(8 * z + 7)
  {
    OfBytesConcat([0x80], ZeroRun(z));
    MarkerByte();
    ZerosAreZero(z);
    assert ZeroBits(8 * z + 7) == ZeroBits(7) + ZeroBits(8 * z);
    assert ([true] + ZeroBits(7)) + ZeroBits(8 * z) == [true] + (ZeroBits(7) + ZeroBits(8 * z));
  }

  predicate Reaches448(l: nat, k: nat) {
    (l + 1 + k) % 512 == 448
  }

  /** The least number of zero bits that brings a message of `l` bits, with its one bit, to 448 modulo 512. */
  function ZeroBitCount(l: nat): (k: nat)
    ensures Reaches448(l, k)
    ensures forall j :: 0 <= j < k ==> !Reaches448(l, j)
  {
    (447 - l) % 512
  }

  function OneThenZeros(l: nat): seq<bool> {
    [true] + ZeroBits(ZeroBitCount(l))
  }

  function LengthBits(l: nat): seq<bool> {
    Low(l, 8 * FIELD)
  }

  /** The message, a one bit, `k` zero bits and the length in 64 bits. */
  function PaddedBitString(b: seq<bool>): seq<bool> {
    b + OneThenZeros(|b|) + LengthBits(|b|)
  }

  lemma {:induction false} Remainder512(y: int, q: int, r: int)
    requires y == 512 * q + r && 0 <= r < 512
    ensures y % 512 == r
  {
    var found := y / 512;
    assert y == 512 * found + y % 512;
    assert found == q;
  }

  lemma {:induction false} EightTimes(x: int, q: int, m: int)
    requires x == 64 * q + m && 0 <= m < 64
    ensures (8 * x + 7) % 512 == 8 * m + 7
  {
    Remainder512(8 * x + 7, q, 8 * m + 7);
  }

  lemma {:induction false} ZeroCounts(length: nat)
    ensures ZeroBitCount(8 * length) == 8 * ZeroBytes(length) + 7
  {
    var x := 55 - length;
    var q, m := x / 64, x % 64;
    EightTimes(x, q, m);
    assert 447 - 8 * length == 8 * x + 7;
  }

  lemma {:induction false} PaddedParts(m: seq<bv8>)
    ensures OfBytes(Padded(m))
      == OfBytes(m) + OfBytes([0x80] + ZeroRun(ZeroBytes(|m|))) + OfBytes(BigEndian(8 * |m|, FIELD))
  {
    OfBytesConcat3(m, [0x80] + ZeroRun(ZeroBytes(|m|)), BigEndian(8 * |m|, FIELD));
  }

  lemma {:induction false} MiddleBits(length: nat)
    ensures OfBytes([0x80] + ZeroRun(ZeroBytes(length))) == OneThenZeros(8 * length)
  {
    TailBits(ZeroBytes(length));
    ZeroCounts(length);
  }

  lemma {:induction false} FieldBits(length: nat)
    ensures OfBytes(BigEndian(8 * length, FIELD)) == LengthBits(8 * length)
  {
    BigEndianBits(8 * length, FIELD);
  }

  /** Bit for bit, the padded bytes are the padded message of section 5.1.1. */
  lemma {:induction false} PaddedBits(m: seq<bv8>)
    ensures OfBytes(Padded(m)) == PaddedBitString(OfBytes(m))
  {
    PaddedParts(m);
    MiddleBits(|m|);
    FieldBits(|m|);
  }

  lemma ZeroBytesLeast(length: nat, z: nat)
    requires z <= ZeroBytes(length)
    ensures (length + 1 + z) % 64 == 56 <==> z == ZeroBytes(length)
  {
  }

  /** The length field read back, for as long as the bit length fits in it. */
  lemma {:induction false} LengthField(n: nat)
    requires n < Pow2(8 * FIELD)
    ensures Value(OfBytes(BigEndian(n, FIELD))) == n
  {
    BigEndianBits(n, FIELD);
    ValueOfLow(n, 8 * FIELD);
  }

  /** A padded message is a whole number of blocks. */
  lemma {:induction false} PaddedLength(m: seq<bv8>)
    ensures |Padded(m)| % 64 == 0 && |Padded(m)| >= 64
  {
    hide BigEndian, ZeroRun, ZeroBytes;
    assert |Padded(m)| == |m| + 1 + ZeroBytes(|m|) + 8;
    WholeBlocks(|m| + 1 + ZeroBytes(|m|));
  }

  lemma {:induction false} WholeBlocks(n: nat)
    requires n % 64 == 56
    ensures (n + 8) % 64 == 0
  {
    assert n + 8 == 64 * (n / 64 + 1);
  }

  /** What a receiver can do with a padded message: read the bit length and take that many bytes. */
  function Unpadded(p: seq<bv8>): seq<bv8> {
    if |p| < 8 then []
    else
      var length := Value(OfBytes(p[|p| - 8..])) / 8;
      if length > |p| then [] else p[..length]
  }

  /** Every message of fewer than 2^61 bytes is recovered from its padded form. */
  lemma {:induction false} UnpadPadded(m: seq<bv8>)
    requires 8 * |m| < Pow2(8 * FIELD)
    ensures Unpadded(Padded(m)) == m
  {
    hide BigEndian, OfBytes, Value, ZeroBytes;
    var p := Padded(m);
    assert p[|p| - 8..] == BigEndian(8 * |m|, FIELD);
    LengthField(8 * |m|);
    assert p[..|m|] == m;
  }
}

/** SHA-1 as the built-in TOTP provider computes it, in place. */
module Sha1 {
  import opened Bits
  import Fips

  lemma ChooseByOr(i: nat, b: bv32, c: bv32, d: bv32)
    requires i <= 19
    ensures (b & c) | ((!b) & d) == Fips.F(i, b, c, d)
  {
  }

  lemma {:induction false} ParityRounds(i: nat, b: bv32, c: bv32, d: bv32)
    requires 19 < i <= 39 || 59 < i
    ensures Fips.F(i, b, c, d) == Fips.Parity(b, c, d)
  {
    hide Fips.Ch, Fips.Maj, Fips.Parity;
  }

  lemma ParityByXor(b: bv32, c: bv32, d: bv32)
    ensures b ^ c ^ d == Fips.Parity(b, c, d)
  {
  }

  lemma MajorityByOr(i: nat, b: bv32, c: bv32, d: bv32)
    requires 39 < i <= 59
    ensures (b & c) | (b & d) | (c & d) == Fips.F(i, b, c, d)
  {
  }

  /** The word the schedule computes at `i` from the words before it. */
  lemma NextWord(chunk: seq<bv8>, i: nat)
    requires |chunk| == 64 && i >= 16
    ensures Fips.Rotl(1, Fips.W(chunk, i - 3) ^ Fips.W(chunk, i - 8) ^ Fips.W(chunk, i - 14) ^ Fips.W(chunk, i - 16))
      == Fips.W(chunk, i)
  {
  }

  /** `rotate_left`: the bits shifted out at the top come back at the bottom. */
  method RotateLeft1(x: bv32) returns (r: bv32)
    ensures r == Fips.Rotl(1, x)
  {
    r := (x << 1) | (x >> 31);
  }

  method RotateLeft5(x: bv32) returns (r: bv32)
    ensures r == Fips.Rotl(5, x)
  {
    r := (x << 5) | (x >> 27);
  }

  method RotateLeft30(x: bv32) returns (r: bv32)
    ensures r == Fips.Rotl(30, x)
  {
    r := (x << 30) | (x >> 2);
  }

  /** Append 0x80, zeros up to 56 modulo 64, and the bit length. */
  method Pad(input: seq<bv8>) returns (msg: seq<bv8>)
    ensures msg == Fips.Padded(input)
  {
    hide Fips.ZeroBytes;
    msg := input + [0x80];
    Fips.ZeroBytesLeast(|input|, 0);
    ghost var zeros: nat := 0;
    while |msg| % 64 != 56
      invariant zeros <= Fips.ZeroBytes(|input|)
      invariant |msg| % 64 == 56 <==> zeros == Fips.ZeroBytes(|input|)
      invariant msg == input + ([0x80] + Fips.ZeroRun(zeros))
      decreases Fips.ZeroBytes(|input|) - zeros
    {
      assert Fips.ZeroRun(zeros + 1) == Fips.ZeroRun(zeros) + [0];
      msg := msg + [0];
      zeros := zeros + 1;
      Fips.ZeroBytesLeast(|input|, zeros);
    }
    msg := msg + BigEndian(8 * |input|, Fips.FIELD);
  }

  /** The 80-word message schedule, filled in place. */
  method Schedule(chunk: seq<bv8>) returns (w: array<bv32>)
    requires |chunk| == 64
    ensures fresh(w) && w.Length == 80
    ensures forall t :: 0 <= t < 80 ==> w[t] == Fips.W(chunk, t)
  {
    hide Fips.Word;
    w := new bv32[80];
    for i := 0 to 16
      invariant forall t :: 0 <= t < i ==> w[t] == Fips.W(chunk, t)
    {
      var j := i * 4;
      w[i] := Fips.Word(chunk[j], chunk[j + 1], chunk[j + 2], chunk[j + 3]);
    }
    for i := 16 to 80
      invariant forall t :: 0 <= t < i ==> w[t] == Fips.W(chunk, t)
    {
      NextWord(chunk, i);
      var turned := RotateLeft1(w[i - 3] ^ w[i - 8] ^ w[i - 14] ^ w[i - 16]);
      w[i] := turned;
    }
  }

  /** The round function and constant chosen by the round number. */
  method Select(i: nat, b: bv32, c: bv32, d: bv32) returns (f: bv32, k: bv32)
    requires i < 80
    ensures f == Fips.F(i, b, c, d) && k == Fips.K(i)
  {
    hide Fips.F;
    if i <= 19 {
      ChooseByOr(i, b, c, d);
      f, k := (b & c) | ((!b) & d), 0x5a827999;
    } else if i <= 39 {
      ParityRounds(i, b, c, d);
      ParityByXor(b, c, d);
      f, k := b ^ c ^ d, 0x6ed9eba1;
    } else if i <= 59 {
      MajorityByOr(i, b, c, d);
      f, k := (b & c) | (b & d) | (c & d), 0x8f1bbcdc;
    } else {
      ParityRounds(i, b, c, d);
      ParityByXor(b, c, d);
      f, k := b ^ c ^ d, 0xca62c1d6;
    }
  }

  method WrappingSum(p: bv32, q: bv32, r: bv32, s: bv32, t: bv32) returns (x: bv32)
    ensures x == Fips.Sum(p, q, r, s, t)
  {
    x := p + q + r + s + t;
  }

  /** The code adds the register to the state, the standard the state to the register. */
  method WrappingAdd(h: bv32, x: bv32) returns (r: bv32)
    ensures r == Fips.Plus(x, h)
  {
    r := h + x;
  }

  /** One round, as the five assignments in the loop body. */
  method Round(a0: bv32, b0: bv32, c0: bv32, d0: bv32, e0: bv32, i: nat, word: bv32)
    returns (a: bv32, b: bv32, c: bv32, d: bv32, e: bv32)
    requires i < 80
    ensures Fips.Registers(a, b, c, d, e) == Fips.Step(Fips.Registers(a0, b0, c0, d0, e0), i, word)
  {
    hide Fips.Sum, Fips.Rotl, Fips.F, Fips.K;
    a, b, c, d, e := a0, b0, c0, d0, e0;
    var f, k := Select(i, b, c, d);
    var turned := RotateLeft5(a);
    var temp := WrappingSum(turned, f, e, k, word);
    e := d;
    d := c;
    c := RotateLeft30(b);
    b := a;
    a := temp;
  }

  /** The 80 rounds over the schedule of one chunk. */
  method RunRounds(h0: bv32, h1: bv32, h2: bv32, h3: bv32, h4: bv32, chunk: seq<bv8>)
    returns (a: bv32, b: bv32, c: bv32, d: bv32, e: bv32)
    requires |chunk| == 64
    ensures Fips.Registers(a, b, c, d, e) == Fips.Rounds(Fips.Registers(h0, h1, h2, h3, h4), chunk, Fips.ROUNDS)
  {
    hide Fips.Step, Fips.W;
    var w := Schedule(chunk);
    a, b, c, d, e := h0, h1, h2, h3, h4;
    ghost var h := Fips.Registers(h0, h1, h2, h3, h4);
    for i := 0 to 80
      invariant forall t :: 0 <= t < 80 ==> w[t] == Fips.W(chunk, t)
      invariant Fips.Registers(a, b, c, d, e) == Fips.Rounds(h, chunk, i)
    {
      a, b, c, d, e := Round(a, b, c, d, e, i, w[i]);
    }
  }

  /** One 64-byte chunk: the registers after 80 rounds are added to the state. */
  method CompressChunk(h0: bv32, h1: bv32, h2: bv32, h3: bv32, h4: bv32, chunk: seq<bv8>)
    returns (g0: bv32, g1: bv32, g2: bv32, g3: bv32, g4: bv32)
    requires |chunk| == 64
    ensures Fips.Registers(g0, g1, g2, g3, g4) == Fips.Compress(Fips.Registers(h0, h1, h2, h3, h4), chunk)
  {
    hide Fips.Rounds, Fips.Plus;
    var a, b, c, d, e := RunRounds(h0, h1, h2, h3, h4, chunk);
    g0 := WrappingAdd(h0, a);
    g1 := WrappingAdd(h1, b);
    g2 := WrappingAdd(h2, c);
    g3 := WrappingAdd(h3, d);
    g4 := WrappingAdd(h4, e);
  }

  method Sha1(input: seq<bv8>) returns (out: seq<bv8>)
    ensures out == Fips.Sha1(input)
  {
    var h0, h1, h2, h3, h4: bv32 := 0x67452301, 0xefcdab89, 0x98badcfe, 0x10325476, 0xc3d2e1f0;
    var msg := Pad(input);
    var chunks := |msg| / 64;
    for n := 0 to chunks
      invariant Fips.Blocks(Fips.Registers(h0, h1, h2, h3, h4), msg[64 * n..]) == Fips.Blocks(Fips.INITIAL, msg)
    {
      ghost var rest := msg[64 * n..];
      var chunk := msg[64 * n..64 * n + 64];
      assert rest[..64] == chunk && rest[64..] == msg[64 * (n + 1)..];
      h0, h1, h2, h3, h4 := CompressChunk(h0, h1, h2, h3, h4, chunk);
    }
    out := Fips.WordBytes(h0) + Fips.WordBytes(h1) + Fips.WordBytes(h2) + Fips.WordBytes(h3) + Fips.WordBytes(h4);
  }
}
