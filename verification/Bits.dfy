/**
 Bit strings, most significant bit first, and their relation to numbers and machine words. Bit
 strings are the reference in which base32 is specified.
 */
module Bits {

  function Pow2(n: nat): (p: nat)
    ensures p >= 1
  {
    if n == 0 then 1 else 2 * Pow2(n - 1)
  }

  /** The low `w` bits of a number. */
  function Low(n: nat, w: nat): (b: seq<bool>)
    ensures |b| == w
  {
    if w == 0 then [] else Low(n / 2, w - 1) + [n % 2 == 1]
  }

  function Value(b: seq<bool>): (n: nat)
    ensures n < Pow2(|b|)
  {
    if b == [] then 0 else 2 * Value(b[..|b| - 1]) + if b[|b| - 1] then 1 else 0
  }

  lemma {:induction false} ValueOfLow(n: nat, w: nat)
    requires n < Pow2(w)
    ensures Value(Low(n, w)) == n
  {
    if w > 0 {
      ValueOfLow(n / 2, w - 1);
      assert Low(n, w)[..w - 1] == Low(n / 2, w - 1);
    }
  }

  lemma {:induction false} LowOfValue(b: seq<bool>)
    ensures Low(Value(b), |b|) == b
  {
    if b != [] {
      LowOfValue(b[..|b| - 1]);
      assert b == b[..|b| - 1] + [b[|b| - 1]];
    }
  }

  /** A number cut at bit `k` is a bit string cut `k` bits before its end. */
  lemma {:induction false} LowConcat(hi: nat, lo: nat, w: nat, k: nat)
    requires lo < Pow2(k)
    ensures Low(hi * Pow2(k) + lo, w + k) == Low(hi, w) + Low(lo, k)
  {
    if k == 0 {
      assert Low(hi, w) + [] == Low(hi, w);
    } else {
      var p := Pow2(k - 1);
      var n := hi * Pow2(k) + lo;
      assert n == 2 * (hi * p) + lo by {
        assert hi * (2 * p) == 2 * (hi * p);
      }
      assert n / 2 == hi * p + lo / 2 && n % 2 == lo % 2;
      LowConcat(hi, lo / 2, w, k - 1);
    }
  }

  // ---------------------------------------------------------------------------------------------
  // Bytes
  // ---------------------------------------------------------------------------------------------

  const BYTE: nat := 8

  function OfByte(x: bv8): (b: seq<bool>)
    ensures |b| == BYTE
  {
    [x & 0x80 != 0, x & 0x40 != 0, x & 0x20 != 0, x & 0x10 != 0, x & 8 != 0, x & 4 != 0, x & 2 != 0, x & 1 != 0]
  }

  function ToByte(b: seq<bool>): bv8
    requires |b| == BYTE
  {
    (if b[0] then 0x80 else 0) | (if b[1] then 0x40 else 0) | (if b[2] then 0x20 else 0) | (if b[3] then 0x10 else 0)
    | (if b[4] then 8 else 0) | (if b[5] then 4 else 0) | (if b[6] then 2 else 0) | (if b[7] then 1 else 0)
  }

  lemma ByteRoundTrip(x: bv8)
    ensures ToByte(OfByte(x)) == x
  {
  }

  lemma BitsRoundTrip(b: seq<bool>)
    requires |b| == BYTE
    ensures OfByte(ToByte(b)) == b
  {
  }

  /** `n as u8`: the low eight bits. */
  function U8(n: nat): bv8 {
    ToByte(Low(n, BYTE))
  }

  function OfBytes(s: seq<bv8>): (b: seq<bool>)
    ensures |b| == 8 * |s|
  {
    if s == [] then [] else OfByte(s[0]) + OfBytes(s[1..])
  }

  /** The whole bytes of a bit string; up to seven bits at the end are dropped. */
  function WholeBytes(b: seq<bool>): (s: seq<bv8>)
    ensures |s| == |b| / 8
  {
    if |b| < 8 then [] else [ToByte(b[..8])] + WholeBytes(b[8..])
  }

  lemma {:induction false} WholeBytesCons(x: bv8, rest: seq<bool>)
    ensures WholeBytes(OfByte(x) + rest) == [x] + WholeBytes(rest)
  {
    var b := OfByte(x) + rest;
    assert b[..8] == OfByte(x) && b[8..] == rest;
    ByteRoundTrip(x);
  }

  lemma {:induction false} WholeBytesOf(s: seq<bv8>, rest: seq<bool>)
    requires |rest| < 8
    ensures WholeBytes(OfBytes(s) + rest) == s
  {
    if s != [] {
      assert OfBytes(s) + rest == OfByte(s[0]) + (OfBytes(s[1..]) + rest);
      WholeBytesCons(s[0], OfBytes(s[1..]) + rest);
      WholeBytesOf(s[1..], rest);
    }
  }

  lemma {:induction false} WholeBytesHeld(s: seq<bv8>, b: seq<bool>)
    requires OfBytes(s) <= b && |b| < |OfBytes(s)| + 8
    ensures WholeBytes(b) == s
  {
    var rest := b[|OfBytes(s)|..];
    assert b == OfBytes(s) + rest;
    WholeBytesOf(s, rest);
  }

  /** The whole bytes carry the bits of the string, in order. */
  lemma {:induction false} WholeBytesBits(b: seq<bool>)
    ensures OfBytes(WholeBytes(b)) == b[..8 * (|b| / 8)]
  {
    if |b| >= 8 {
      BitsRoundTrip(b[..8]);
      WholeBytesBits(b[8..]);
      var k := 8 * (|b[8..]| / 8);
      assert 8 * (|b| / 8) == 8 + k;
      assert b[..8 + k] == b[..8] + b[8..][..k];
    }
  }

  lemma {:induction false} OfBytesConcat(s: seq<bv8>, t: seq<bv8>)
    ensures OfBytes(s + t) == OfBytes(s) + OfBytes(t)
  {
    if s == [] {
      assert s + t == t;
    } else {
      assert (s + t)[1..] == s[1..] + t;
      OfBytesConcat(s[1..], t);
      assert OfByte(s[0]) + (OfBytes(s[1..]) + OfBytes(t)) == OfBytes(s) + OfBytes(t);
    }
  }

  lemma {:induction false} OfBytesConcat3(s: seq<bv8>, t: seq<bv8>, u: seq<bv8>)
    ensures OfBytes(s + t + u) == OfBytes(s) + OfBytes(t) + OfBytes(u)
  {
    OfBytesConcat(s + t, u);
    OfBytesConcat(s, t);
  }

  lemma {:induction false} OfBytesAppend(s: seq<bv8>, x: bv8)
    ensures OfBytes(s + [x]) == OfBytes(s) + OfByte(x)
  {
    if s == [] {
      assert s + [x] == [x];
      assert [x][1..] == [];
    } else {
      assert (s + [x])[1..] == s[1..] + [x];
      OfBytesAppend(s[1..], x);
    }
  }

  /** The big-endian form of the low `8 * k` bits of a number. */
  function BigEndian(n: nat, k: nat): (s: seq<bv8>)
    ensures |s| == k
  {
    if k == 0 then [] else BigEndian(n / 256, k - 1) + [U8(n % 256)]
  }

  lemma {:induction false} NoBits(n: nat)
    ensures OfBytes([]) == Low(n, 0)
  {
    assert Low(n, 0) == [];
  }

  lemma {:induction false} BigEndianBits(n: nat, k: nat)
    ensures OfBytes(BigEndian(n, k)) == Low(n, 8 * k)
  {
    hide Low, OfBytes, Pow2, Value;
    if k == 0 {
      NoBits(n);
    } else {
      BigEndianBits(n / 256, k - 1);
      OfBytesAppend(BigEndian(n / 256, k - 1), U8(n % 256));
      BitsRoundTrip(Low(n % 256, BYTE));
      PowByte();
      LowConcat(n / 256, n % 256, 8 * (k - 1), BYTE);
    }
  }

  // ---------------------------------------------------------------------------------------------
  // Unsigned 32-bit words, as numbers
  // ---------------------------------------------------------------------------------------------

  const WORD: nat := 0x1_0000_0000

  function Or(x: nat, y: nat): nat
    decreases x + y
  {
    if x == 0 && y == 0 then 0
    else 2 * Or(x / 2, y / 2) + if x % 2 == 1 || y % 2 == 1 then 1 else 0
  }

  function And(x: nat, y: nat): nat
    decreases x + y
  {
    if x == 0 && y == 0 then 0
    else 2 * And(x / 2, y / 2) + if x % 2 == 1 && y % 2 == 1 then 1 else 0
  }

  /** `x << s` drops what leaves the word. */
  function Shl(x: nat, s: nat): nat {
    x * Pow2(s) % WORD
  }

  function Shr(x: nat, s: nat): nat {
    Quotient(x, Pow2(s))
  }

  function Quotient(x: nat, m: nat): nat
    requires m >= 1
  {
    x / m
  }

  lemma {:induction false} OrZero(y: nat)
    ensures Or(0, y) == y
  {
    if y != 0 {
      OrZero(y / 2);
    }
  }

  /** Or-ing into freed low bits adds. */
  lemma {:induction false} OrAdds(x: nat, y: nat, s: nat)
    requires y < Pow2(s)
    ensures Or(x * Pow2(s), y) == x * Pow2(s) + y
    decreases s
  {
    if s == 0 {
      OrLow(x);
    } else {
      var p := Pow2(s - 1);
      assert x * Pow2(s) == 2 * (x * p) by {
        assert x * (2 * p) == 2 * (x * p);
      }
      OrAdds(x, y / 2, s - 1);
    }
  }

  lemma {:induction false} OrLow(x: nat)
    ensures Or(x, 0) == x
  {
    if x != 0 {
      OrLow(x / 2);
    }
  }

  lemma {:induction false} AndNone(x: nat)
    ensures And(x, 0) == 0
  {
    if x != 0 {
      AndNone(x / 2);
    }
  }

  /** Masking with `s` ones takes the remainder. */
  lemma {:induction false} AndMask(x: nat, s: nat)
    ensures And(x, Pow2(s) - 1) == x % Pow2(s)
    decreases s
  {
    if s == 0 {
      AndNone(x);
    } else {
      AndMask(x / 2, s - 1);
      MaskStep(x, Pow2(s - 1));
    }
  }

  lemma {:induction false} MaskStep(x: nat, p: nat)
    requires p >= 1 && And(x / 2, p - 1) == (x / 2) % p
    ensures And(x, 2 * p - 1) == x % (2 * p)
  {
    AndStep(x, p);
    RemainderSteps(x, p);
  }

  lemma {:induction false} AndStep(x: nat, p: nat)
    requires p >= 1
    ensures And(x, 2 * p - 1) == 2 * And(x / 2, p - 1) + x % 2
  {
    assert (2 * p - 1) / 2 == p - 1 && (2 * p - 1) % 2 == 1;
  }

  lemma {:induction false} RemainderSteps(x: nat, p: nat)
    requires p >= 1
    ensures x % (2 * p) == 2 * (x / 2 % p) + x % 2
  {
    var q, r := x / 2 / p, x / 2 % p;
    assert x / 2 == q * p + r;
    assert x == q * (2 * p) + (2 * r + x % 2) by {
      assert 2 * (q * p) == q * (2 * p);
    }
    Remainder(x, 2 * p, q, 2 * r + x % 2);
  }

  lemma {:induction false} Gap(a: nat, b: nat, m: nat)
    requires a > b
    ensures a * m >= b * m + m
  {
    assert (a - b - 1) * m >= 0;
    assert (a - b - 1) * m == a * m - b * m - m;
  }

  lemma {:induction false} Remainder(x: nat, m: nat, q: nat, r: nat)
    requires m >= 1 && r < m && x == q * m + r
    ensures x % m == r && x / m == q
  {
    var q' := x / m;
    assert x == q' * m + x % m;
    if q > q' {
      Gap(q, q', m);
    } else if q < q' {
      Gap(q', q, m);
    }
  }

  lemma {:induction false} QuotientBound(x: nat, m: nat, bound: nat)
    requires m >= 1 && x < bound * m
    ensures x / m < bound
  {
    var q := x / m;
    assert x == q * m + x % m;
    if q > bound {
      Gap(q, bound, m);
    }
  }

  // ---------------------------------------------------------------------------------------------
  // The bit accumulator
  // ---------------------------------------------------------------------------------------------

  lemma {:induction false} PowersAdd(a: nat, b: nat)
    ensures Pow2(a + b) == Pow2(a) * Pow2(b)
  {
    if a > 0 {
      PowersAdd(a - 1, b);
    }
  }

  const QUINTET: nat := 5

  lemma {:induction false} PowQuintet()
    ensures Pow2(QUINTET) == 32
  {
    assert Pow2(3) == 8;
  }

  lemma {:induction false} SmallWord(bits: nat, w: nat)
    requires w <= 7 && bits < Pow2(w)
    ensures bits < 128
  {
    PowersMonotone(w, 7);
    assert Pow2(7) == 128 by {
      assert Pow2(5) == 32;
    }
  }

  lemma {:induction false} ShiftInWord(bits: nat, value: nat)
    requires bits < 128 && value < 32
    ensures Or(Shl(bits, QUINTET), value) == bits * Pow2(QUINTET) + value
  {
    hide Or, Pow2;
    PowQuintet();
    OrAdds(bits, value, QUINTET);
  }

  lemma NextBound(bits: nat, p: nat, value: nat)
    requires bits < p && value < 32
    ensures bits * 32 + value < p * 32
  {
  }

  /** `(bits << 5) | value` appends the five bits of `value` to the bit string held. */
  lemma {:induction false} ShiftIn(bits: nat, w: nat, value: nat)
    requires w <= 7 && bits < Pow2(w) && value < 32
    ensures var next := Or(Shl(bits, QUINTET), value);
            next < Pow2(w + QUINTET) && Low(next, w + QUINTET) == Low(bits, w) + Low(value, QUINTET)
  {
    SmallWord(bits, w);
    ShiftInWord(bits, value);
    PowQuintet();
    LowConcat(bits, value, w, QUINTET);
    PowersAdd(w, QUINTET);
    NextBound(bits, Pow2(w), value);
  }

  lemma {:induction false} PowersMonotone(a: nat, b: nat)
    requires a <= b
    ensures Pow2(a) <= Pow2(b)
  {
    if a < b {
      PowersMonotone(a, b - 1);
    }
  }

  lemma {:induction false} PowByte()
    ensures Pow2(BYTE) == 256
  {
    PowersAdd(4, 4);
    assert Pow2(4) == 16;
  }

  lemma {:induction false} KeepByte(q: nat)
    requires q < 256
    ensures And(q, 0xff) == q
  {
    hide And, Pow2;
    PowByte();
    AndMask(q, BYTE);
    assert Pow2(BYTE) - 1 == 0xff && q % Pow2(BYTE) == q;
  }

  lemma Division(x: nat, m: nat)
    requires m >= 1
    ensures x == (x / m) * m + x % m
  {
  }

  /** The two word operations that take a byte out, as quotient and remainder. */
  lemma {:induction false} TakeByte(bits: nat, s: nat)
    requires bits < Pow2(s + BYTE)
    ensures var q, r := And(Shr(bits, s), 0xff), And(bits, Pow2(s) - 1);
            q < 256 && r < Pow2(s) && bits == q * Pow2(s) + r
  {
    assert bits < 256 * Pow2(s) by {
      PowByte();
      PowersAdd(BYTE, s);
    }
    QuotientBound(bits, Pow2(s), 256);
    KeepByte(bits / Pow2(s));
    AndMask(bits, s);
    Division(bits, Pow2(s));
  }

  /** Taking the top byte out and masking it off cuts the bit string after eight bits. */
  lemma {:induction false} ShiftOut(bits: nat, s: nat)
    requires bits < Pow2(s + BYTE)
    ensures var q, r := And(Shr(bits, s), 0xff), And(bits, Pow2(s) - 1);
            r < Pow2(s) && Low(bits, s + BYTE) == OfByte(U8(q)) + Low(r, s)
  {
    TakeByte(bits, s);
    var q, r := And(Shr(bits, s), 0xff), And(bits, Pow2(s) - 1);
    BitsRoundTrip(Low(q, BYTE));
    LowConcat(q, r, BYTE, s);
    assert s + BYTE == BYTE + s;
  }
}
