/**
 One-time passwords: HMAC-SHA-1 as section 2 of RFC 2104 has it, dynamic truncation as section 5.3
 of RFC 4226 has it, the time step of section 4.2 of RFC 6238, and the provider that computes them.
 */
module Totp {
  import opened Text
  import opened Bits
  import Base32
  import Fips
  import Sha1

  // ---------------------------------------------------------------------------------------------
  // HMAC
  // ---------------------------------------------------------------------------------------------

  /** The key extended with zeros to the block length, hashed first when it is longer. */
  function KeyBlock(key: seq<bv8>): (k: seq<bv8>)
    ensures |k| == Fips.BLOCK
  {
    var short := if |key| > Fips.BLOCK then Fips.Sha1(key) else key;
    short + Fips.ZeroRun(Fips.BLOCK - |short|)
  }

  function XorAll(k: seq<bv8>, pad: bv8): (r: seq<bv8>)
    ensures |r| == |k|
  {
    seq(|k|, i requires 0 <= i < |k| => pad ^ k[i])
  }

  /** H(K XOR opad, H(K XOR ipad, text)). */
  function Hmac(key: seq<bv8>, text: seq<bv8>): (mac: seq<bv8>)
    ensures |mac| == 20
  {
    Fips.Sha1(XorAll(KeyBlock(key), 0x5c) + Fips.Sha1(XorAll(KeyBlock(key), 0x36) + text))
  }

  /** Byte `i` of the key as HMAC uses it: of the key itself or, for a long one, of its digest, then zeros. */
  function KeyByte(key: seq<bv8>, i: nat): bv8 {
    var short := if |key| <= 64 then key else Fips.Sha1(key);
    if i < |short| then short[i] else 0
  }

  /** The keyed hash of section 2 of RFC 2104, from any two pads that are right byte by byte. */
  lemma {:induction false} HmacOfPads(key: seq<bv8>, text: seq<bv8>, inner: seq<bv8>, outer: seq<bv8>)
    requires |inner| == 64 && |outer| == 64
    requires forall i :: 0 <= i < 64 ==> inner[i] == KeyByte(key, i) ^ 0x36 && outer[i] == KeyByte(key, i) ^ 0x5c
    ensures Hmac(key, text) == Fips.Sha1(outer + Fips.Sha1(inner + text))
  {
    hide Fips.Sha1;
    var block := KeyBlock(key);
    forall i | 0 <= i < 64
      ensures XorAll(block, 0x36)[i] == inner[i] && XorAll(block, 0x5c)[i] == outer[i]
    {
      assert block[i] == KeyByte(key, i);
      XorCommutes(block[i], 0x36);
      XorCommutes(block[i], 0x5c);
    }
    assert XorAll(block, 0x36) == inner && XorAll(block, 0x5c) == outer;
  }

  lemma XorCommutes(x: bv8, y: bv8)
    ensures x ^ y == y ^ x
  {
  }

  method FillKeyBlock(key: seq<bv8>) returns (block: array<bv8>)
    ensures fresh(block) && block[..] == KeyBlock(key)
  {
    var source := key;
    if |key| > 64 {
      source := Sha1.Sha1(key);
    }
    block := new bv8[64](_ => 0);
    for i := 0 to |source|
      invariant forall j :: 0 <= j < i ==> block[j] == source[j]
      invariant forall j :: i <= j < 64 ==> block[j] == 0
    {
      block[i] := source[i];
    }
    assert block[..] == source + Fips.ZeroRun(64 - |source|);
  }

  /** The two pads, each xor-ed with the key block in place. */
  method XorPads(keyBlock: array<bv8>) returns (outer: array<bv8>, inner: array<bv8>)
    requires keyBlock.Length == 64
    ensures fresh(outer) && fresh(inner)
    ensures outer[..] == XorAll(keyBlock[..], 0x5c) && inner[..] == XorAll(keyBlock[..], 0x36)
  {
    var key := keyBlock[..];
    outer := new bv8[64](_ => 0x5c);
    inner := new bv8[64](_ => 0x36);
    for i := 0 to 64
      invariant forall j :: 0 <= j < i ==> outer[j] == 0x5c ^ key[j] && inner[j] == 0x36 ^ key[j]
      invariant forall j :: i <= j < 64 ==> outer[j] == 0x5c && inner[j] == 0x36
    {
      outer[i] := outer[i] ^ key[i];
      inner[i] := inner[i] ^ key[i];
    }
    assert keyBlock[..] == key;
  }

  method HmacSha1(key: seq<bv8>, message: seq<bv8>) returns (mac: seq<bv8>)
    ensures mac == Hmac(key, message)
  {
    var keyBlock := FillKeyBlock(key);
    var outer, inner := XorPads(keyBlock);
    var outerPad, innerPad := outer[..], inner[..];
    var innerHash := Sha1.Sha1(innerPad + message);
    mac := Sha1.Sha1(outerPad + innerHash);
  }

  // ---------------------------------------------------------------------------------------------
  // Truncation and digits
  // ---------------------------------------------------------------------------------------------

  /** The low four bits of the last byte. */
  function Offset(mac: seq<bv8>): (o: nat)
    requires |mac| == 20
    ensures o < 16
  {
    ((mac[19] & 0x0f) as bv4) as nat
  }

  /** Dynamic truncation: the last 31 bits of the four bytes at the offset. */
  function Truncate(mac: seq<bv8>): bv32
    requires |mac| == 20
  {
    var o := Offset(mac);
    Last31(mac[o], mac[o + 1], mac[o + 2], mac[o + 3])
  }

  function Last31(a: bv8, b: bv8, c: bv8, d: bv8): bv32 {
    Fips.Word(a, b, c, d) & 0x7fffffff
  }

  /** The offset is the last byte modulo 16. */
  lemma {:induction false} OffsetMeaning(mac: seq<bv8>)
    requires |mac| == 20
    ensures Offset(mac) == mac[19] as nat % 16
  {
    LowNibble(mac[19]);
  }

  lemma LowNibble(x: bv8)
    ensures ((x & 0x0f) as bv4) as nat == x as nat % 16
  {
  }

  /** Four bytes read as one number, the first the most significant. */
  function FourBytes(a: nat, b: nat, c: nat, d: nat): nat {
    a * 0x100_0000 + b * 0x1_0000 + c * 0x100 + d
  }

  predicate IsMasked(x: bv32, a: bv8, b: bv8, c: bv8, d: bv8) {
    x == (((a as bv32) & 0x7f) << 24) | ((b as bv32) << 16) | ((c as bv32) << 8) | (d as bv32)
  }

  lemma Last31IsMasked(a: bv8, b: bv8, c: bv8, d: bv8)
    ensures IsMasked(Last31(a, b, c, d), a, b, c, d)
  {
  }

  lemma WordNumber(x: bv32, a: bv8, b: bv8, c: bv8, d: bv8)
    requires x == (((a as bv32) & 0x7f) << 24) | ((b as bv32) << 16) | ((c as bv32) << 8) | (d as bv32)
    ensures x as nat == (a & 0x7f) as nat * 0x100_0000 + b as nat * 0x1_0000 + c as nat * 0x100 + d as nat
  {
  }

  lemma {:induction false} MaskedNumber(x: bv32, a: bv8, b: bv8, c: bv8, d: bv8)
    requires IsMasked(x, a, b, c, d)
    ensures x as nat == FourBytes((a & 0x7f) as nat, b as nat, c as nat, d as nat)
  {
    WordNumber(x, a, b, c, d);
  }

  lemma LowSeven(a: bv8)
    ensures (a & 0x7f) as nat == a as nat % 128
  {
  }

  lemma TopBitDropped(a: nat, b: nat, c: nat, d: nat)
    requires a < 256 && b < 256 && c < 256 && d < 256
    ensures FourBytes(a % 128, b, c, d) == FourBytes(a, b, c, d) % 0x8000_0000
  {
  }

  lemma {:induction false} Last31Meaning(a: bv8, b: bv8, c: bv8, d: bv8)
    ensures Last31(a, b, c, d) as nat == FourBytes(a as nat, b as nat, c as nat, d as nat) % 0x8000_0000
  {
    hide Last31, IsMasked, FourBytes;
    Last31IsMasked(a, b, c, d);
    MaskedNumber(Last31(a, b, c, d), a, b, c, d);
    LowSeven(a);
    TopBitDropped(a as nat, b as nat, c as nat, d as nat);
  }

  /** Section 5.3 of RFC 4226: four bytes from the offset in the last byte's low nibble, modulo 2^31. */
  lemma {:induction false} TruncateMeaning(mac: seq<bv8>)
    requires |mac| == 20
    ensures var o := mac[19] as nat % 16;
            Truncate(mac) as nat == FourBytes(mac[o] as nat, mac[o + 1] as nat, mac[o + 2] as nat, mac[o + 3] as nat) % 0x8000_0000
  {
    hide Last31, FourBytes, Offset;
    OffsetMeaning(mac);
    var o := Offset(mac);
    Last31Meaning(mac[o], mac[o + 1], mac[o + 2], mac[o + 3]);
  }

  method MaskedWord(a: bv8, b: bv8, c: bv8, d: bv8) returns (x: bv32)
    ensures x == Last31(a, b, c, d)
  {
    x := (((a as bv32) & 0x7f) << 24) | ((b as bv32) << 16) | ((c as bv32) << 8) | (d as bv32);
  }

  method TruncateDigest(digest: seq<bv8>) returns (binary: bv32)
    requires |digest| == 20
    ensures binary == Truncate(digest)
  {
    hide Last31, Offset;
    var offset := Offset(digest);
    binary := MaskedWord(digest[offset], digest[offset + 1], digest[offset + 2], digest[offset + 3]);
  }

  /** The one-time code for a key and a counter. */
  function Hotp(key: seq<bv8>, counter: nat, digits: nat): (code: string)
    requires digits >= 1
    ensures |code| == digits && AllDigits(code)
    ensures ValueOf(code) == (Truncate(Hmac(key, BigEndian(counter, 8))) as nat) % Pow10(digits)
  {
    var number := Truncate(Hmac(key, BigEndian(counter, 8))) as nat % Pow10(digits);
    PadDecMeaning(number, digits);
    PadDec(number, digits)
  }

  lemma {:induction false} EightBytes(message: seq<bv8>)
    requires |message| == 8
    ensures BigEndian(Value(OfBytes(message)), 8) == message
  {
    hide BigEndian, OfBytes, Value, Low, WholeBytes;
    var bits, n := OfBytes(message), Value(OfBytes(message));
    BigEndianBits(n, 8);
    LowOfValue(bits);
    WholeBytesOf(message, []);
    WholeBytesOf(BigEndian(n, 8), []);
    assert OfBytes(message) + [] == OfBytes(message) && OfBytes(BigEndian(n, 8)) + [] == OfBytes(BigEndian(n, 8));
  }

  /** The message is the counter in eight bytes, most significant first. */
  lemma {:induction false} HotpOfMessage(key: seq<bv8>, message: seq<bv8>, digits: nat)
    requires |message| == 8 && digits >= 1
    ensures ValueOf(Hotp(key, Value(OfBytes(message)), digits)) == Truncate(Hmac(key, message)) as nat % Pow10(digits)
  {
    hide Hotp, Hmac, Truncate, BigEndian;
    EightBytes(message);
  }

  datatype Error = ZeroStep | BadDigits | BadSecret(error: Base32.Error)

  datatype Result = Code(code: string) | Failed(error: Error)

  /** RFC 6238 over a decoded secret, with the provider's own refusals in their order. */
  function TotpAt(secret: string, timestamp: nat, step: nat, digits: nat): Result {
    if step == 0 then Failed(ZeroStep)
    else if !(6 <= digits <= 8) then Failed(BadDigits)
    else
      match Base32.Decoded(secret)
      case Err(e) => Failed(BadSecret(e))
      case Ok(key) => Code(Hotp(key, timestamp / step, digits))
  }

  lemma {:induction false} CounterOf(step: nat, c: nat, r: nat)
    requires r < step
    ensures (step * c + r) / step == c
  {
    Remainder(step * c + r, step, c, r);
  }

  /** All instants of one time step have the code of the step's number, counted from 0 at instant 0. */
  lemma {:induction false} OneCodePerStep(secret: string, key: seq<bv8>, step: nat, c: nat, r: nat, digits: nat)
    requires Base32.Decoded(secret) == Base32.Ok(key) && r < step && 6 <= digits <= 8
    ensures TotpAt(secret, step * c + r, step, digits) == Code(Hotp(key, c, digits))
  {
    hide Hotp, Base32.Decoded;
    CounterOf(step, c, r);
  }

  /** The refusals, each exactly when those before it do not apply. */
  lemma Refusals(secret: string, timestamp: nat, step: nat, digits: nat)
    ensures var r := TotpAt(secret, timestamp, step, digits);
            && (r == Failed(ZeroStep) <==> step == 0)
            && (r == Failed(BadDigits) <==> step > 0 && digits != 6 && digits != 7 && digits != 8)
            && (r.Failed? && r.error.BadSecret? <==> step > 0 && (digits == 6 || digits == 7 || digits == 8) && Base32.Decoded(secret).Err?)
            && (r.Failed? && r.error.BadSecret? ==> Base32.Decoded(secret) == Base32.Err(r.error.error))
  {
  }

  method GenerateTotpAt(secret: string, timestamp: nat, step: nat, digits: nat) returns (r: Result)
    ensures r == TotpAt(secret, timestamp, step, digits)
  {
    hide Hmac, Truncate, BigEndian, Pow10, PadDec, Base32.Decoded;
    if step == 0 {
      return Failed(ZeroStep);
    }
    if !(6 <= digits <= 8) {
      return Failed(BadDigits);
    }
    var decoded := Base32.DecodeBase32(secret);
    if decoded.Err? {
      return Failed(BadSecret(decoded.error));
    }
    var counter := timestamp / step;
    var digest := HmacSha1(decoded.value, BigEndian(counter, 8));
    var binary := TruncateDigest(digest);
    return Code(PadDec(binary as nat % Pow10(digits), digits));
  }

  lemma {:induction false} Pow10Divides(a: nat, b: nat)
    ensures Pow10(a + b) == Pow10(a) * Pow10(b)
  {
    if a > 0 {
      Pow10Divides(a - 1, b);
    }
  }

  lemma {:induction false} SuffixStep(code: string, d: nat, q: nat, p: nat, r: nat)
    requires code != [] && AllDigits(code)
    requires ValueOf(code[..|code| - 1]) == q * p + r
    ensures ValueOf(code) == q * (10 * p) + (10 * r + DigitValue(code[|code| - 1]))
  {
    TenTimes(q, p, r);
  }

  lemma TenTimes(q: nat, p: nat, r: nat)
    ensures 10 * (q * p + r) == q * (10 * p) + 10 * r
  {
  }

  /** A digit string cut `d` digits before its end. */
  lemma {:induction false} SuffixValue(code: string, d: nat)
    requires AllDigits(code) && d <= |code|
    ensures ValueOf(code) == ValueOf(code[..|code| - d]) * Pow10(d) + ValueOf(code[|code| - d..])
    decreases d
  {
    if d == 0 {
      assert code[..|code|] == code;
    } else {
      var n := |code|;
      var head, tail := code[..n - 1], code[n - d..];
      SuffixValue(head, d - 1);
      assert |tail| == d && |head| - (d - 1) == n - d;
      assert tail[..d - 1] == code[n - d..n - 1] == head[n - d..];
      assert head[..|head| - (d - 1)] == code[..n - d];
      SuffixStep(code, d, ValueOf(code[..n - d]), Pow10(d - 1), ValueOf(head[|head| - (d - 1)..]));
    }
  }

  /** The last `d` digits of a number's code are the digits of its remainder. */
  lemma {:induction false} LastDigits(code: string, d: nat)
    requires AllDigits(code) && d <= |code|
    ensures ValueOf(code[|code| - d..]) == ValueOf(code) % Pow10(d)
  {
    var tail := code[|code| - d..];
    SuffixValue(code, d);
    ValueBound(tail);
    Remainder(ValueOf(code), Pow10(d), ValueOf(code[..|code| - d]), ValueOf(tail));
  }

  lemma {:induction false} CodesAgree(number: nat, short: string, long: string)
    requires AllDigits(short) && AllDigits(long) && |short| <= |long|
    requires ValueOf(short) == number % Pow10(|short|) && ValueOf(long) == number % Pow10(|long|)
    ensures short == long[|long| - |short|..]
  {
    var d, e := |short|, |long|;
    LastDigits(long, d);
    Pow10Divides(e - d, d);
    RemainderOfRemainder(number, Pow10(e - d), Pow10(d));
    ValueInjective(long[e - d..], short);
  }

  /** Shortening a code to fewer digits keeps its last digits: the 6-digit code ends the 8-digit one. */
  lemma {:induction false} ShorterCodeIsSuffix(key: seq<bv8>, counter: nat, d: nat, e: nat)
    requires 1 <= d <= e
    ensures Hotp(key, counter, d) == Hotp(key, counter, e)[e - d..]
  {
    hide Hotp, Hmac, Truncate, BigEndian;
    CodesAgree(Truncate(Hmac(key, BigEndian(counter, 8))) as nat, Hotp(key, counter, d), Hotp(key, counter, e));
  }

  lemma {:induction false} RemainderOfRemainder(x: nat, k: nat, m: nat)
    requires k >= 1 && m >= 1
    ensures k * m >= 1 && x % (k * m) % m == x % m
  {
    assert k * m >= 1 by { Gap(k, 0, m); }
    var q, r := x / (k * m), x % (k * m);
    Division(x, k * m);
    var q' := r / m;
    Division(r, m);
    Regroup(q, k, q', m);
    Remainder(x, m, q * k + q', r % m);
  }

  lemma Regroup(q: nat, k: nat, q': nat, m: nat)
    ensures (q * k + q') * m == q * (k * m) + q' * m
  {
  }

  // ---------------------------------------------------------------------------------------------
  // The boundary guard
  // ---------------------------------------------------------------------------------------------

  /** Seconds to wait before generating a code at corrected time `now`. */
  function SafeWait(now: nat): nat {
    var position := now % 30;
    if position >= 27 then 32 - position else if position < 2 then 2 - position else 0
  }

  predicate SafePosition(now: nat) {
    2 <= now % 30 <= 26
  }

  /** The wait is the shortest one after which the position in the time step is from 2 to 26. */
  lemma SafeWaitIsLeast(now: nat, wait: nat)
    requires wait <= SafeWait(now)
    ensures SafePosition(now + wait) <==> wait == SafeWait(now)
  {
  }
}
