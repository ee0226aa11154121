/**
 Decoding of a base32 TOTP secret: the loop with its bit accumulator, proved against bit strings,
 and section 6 of RFC 4648 as the encoding it inverts.
 */
module Base32 {
  import opened Text
  import opened Bits

  datatype Error = DataAfterPadding | UnexpectedCharacter(c: char) | EmptySecret

  datatype Result<+T> = Ok(value: T) | Err(error: Error)

  // ---------------------------------------------------------------------------------------------
  // The reference
  // ---------------------------------------------------------------------------------------------

  /** `char::is_ascii_whitespace`, or a hyphen. */
  predicate Ignored(c: char) {
    c == ' ' || c == '\t' || c == '\n' || c as int == 0x0C || c == '\r' || c == '-'
  }

  predicate IsBase32(c: char) {
    'A' <= UpperChar(c) <= 'Z' || '2' <= c <= '7'
  }

  function DigitOf(c: char): (v: nat)
    requires IsBase32(c)
    ensures v < 32
  {
    if 'A' <= UpperChar(c) <= 'Z' then UpperChar(c) as int - 'A' as int else c as int - '2' as int + 26
  }

  /** What is left of a text when ignored characters are dropped. */
  function Significant(s: string): string {
    if s == [] then []
    else Significant(s[..|s| - 1]) + if Ignored(s[|s| - 1]) then [] else [s[|s| - 1]]
  }

  /** The part before the first '='. */
  function Data(s: string): (d: string)
    ensures d <= s && '=' !in d
    ensures |d| < |s| ==> s[|d|] == '='
  {
    if s == [] || s[0] == '=' then [] else [s[0]] + Data(s[1..])
  }

  function FirstForeign(s: string): Option<char> {
    if s == [] then None else if !IsBase32(s[0]) then Some(s[0]) else FirstForeign(s[1..])
  }

  predicate AllBase32(s: string) {
    forall i :: 0 <= i < |s| ==> IsBase32(s[i])
  }

  /** The bit string of base32 characters, five bits each. */
  function BitString(s: string): (b: seq<bool>)
    requires AllBase32(s)
    ensures |b| == 5 * |s|
  {
    if s == [] then [] else BitString(s[..|s| - 1]) + Low(DigitOf(s[|s| - 1]), QUINTET)
  }

  lemma {:induction false} NoForeign(s: string)
    ensures FirstForeign(s).None? <==> AllBase32(s)
  {
    if s != [] {
      NoForeign(s[1..]);
      assert forall i :: 1 <= i < |s| ==> s[i] == s[1..][i - 1];
    }
  }

  /**
   The decoded secret: every significant character before the padding must be base32, nothing but
   '=' may follow the padding, and the result is the first floor(5n/8) bytes of the bit string.
   */
  function Decoded(secret: string): (r: Result<seq<bv8>>)
    ensures r.Ok? ==> |r.value| == 5 * |Data(Significant(secret))| / 8 && r.value != []
  {
    var core := Significant(secret);
    var data := Data(core);
    var foreign := FirstForeign(data);
    if foreign.Some? then Err(UnexpectedCharacter(foreign.value))
    else if exists i :: |data| <= i < |core| && core[i] != '=' then Err(DataAfterPadding)
    else
      NoForeign(data);
      var bytes := WholeBytes(BitString(data));
      if bytes == [] then Err(EmptySecret) else Ok(bytes)
  }

  // ---------------------------------------------------------------------------------------------
  // The loop
  // ---------------------------------------------------------------------------------------------

  lemma {:induction false} SignificantConcat(a: string, b: string)
    ensures Significant(a + b) == Significant(a) + Significant(b)
  {
    if b == [] {
      assert a + b == a;
    } else {
      assert (a + b)[..|a + b| - 1] == a + b[..|b| - 1];
      SignificantConcat(a, b[..|b| - 1]);
    }
  }

  lemma {:induction false} DataConcat(a: string, b: string)
    ensures Data(a + b) == if '=' in a then Data(a) else a + Data(b)
  {
    if a == [] {
      assert a + b == b;
    } else if a[0] != '=' {
      assert (a + b)[1..] == a[1..] + b;
      DataConcat(a[1..], b);
    }
  }

  lemma {:induction false} FirstForeignAfter(a: string, c: char, rest: string)
    requires AllBase32(a) && !IsBase32(c)
    ensures FirstForeign(a + [c] + rest) == Some(c)
  {
    var s := a + [c] + rest;
    if a != [] {
      assert s[1..] == a[1..] + [c] + rest;
      FirstForeignAfter(a[1..], c, rest);
    }
  }

  /** Only blanks and hyphens are ignored, and wherever they stand. */
  lemma {:induction false} IgnoredAnywhere(a: string, c: char, b: string)
    ensures Significant([c]) == [] <==> c == ' ' || c == '\t' || c == '\n' || c == '\r' || c == '\U{000C}' || c == '-'
    ensures Significant([c]) == [] ==> Decoded(a + [c] + b) == Decoded(a + b)
  {
    hide Decoded;
    assert [c][..0] == [];
    SignificantConcat(a, [c]);
    SignificantConcat(a + [c], b);
    SignificantConcat(a, b);
    if Significant([c]) == [] {
      assert Significant(a + [c] + b) == Significant(a + b);
      SameCore(a + [c] + b, a + b);
    }
  }

  lemma SameCore(a: string, b: string)
    requires Significant(a) == Significant(b)
    ensures Decoded(a) == Decoded(b)
  {
  }

  /** The first character outside the alphabet decides the outcome, whatever follows. */
  lemma {:induction false} ForeignCharacterRejects(secret: string, n: nat)
    requires n < |secret| && !Ignored(secret[n]) && secret[n] != '=' && !IsBase32(secret[n])
    requires '=' !in Significant(secret[..n]) && AllBase32(Significant(secret[..n]))
    ensures Decoded(secret) == Err(UnexpectedCharacter(secret[n]))
  {
    var before, rest := Significant(secret[..n]), Significant(secret[n + 1..]);
    var c := secret[n];
    SplitAt(secret, n);
    DataConcat(before + [c], rest);
    FirstForeignAfter(before, c, Data(rest));
  }

  /** The secret is called empty exactly when it is well formed and has fewer than two characters of data. */
  lemma {:induction false} EmptyExactly(secret: string)
    ensures var core := Significant(secret);
            Decoded(secret) == Err(EmptySecret) <==>
              AllBase32(Data(core)) && |Data(core)| < 2 && forall i :: |Data(core)| <= i < |core| ==> core[i] == '='
  {
    NoForeign(Data(Significant(secret)));
  }

  /** A character other than '=' after the padding rejects, whatever follows. */
  lemma {:induction false} DataAfterPaddingRejects(secret: string, n: nat)
    requires n < |secret| && !Ignored(secret[n]) && secret[n] != '='
    requires '=' in Significant(secret[..n]) && AllBase32(Data(Significant(secret[..n])))
    ensures Decoded(secret) == Err(DataAfterPadding)
  {
    var before, rest := Significant(secret[..n]), [secret[n]] + Significant(secret[n + 1..]);
    var core := Significant(secret);
    SplitAt(secret, n);
    assert core == before + rest;
    DataConcat(before, rest);
    assert Data(core) == Data(before);
    NoForeign(Data(before));
    assert |Data(core)| <= |before| < |core| && core[|before|] != '=';
  }

  lemma {:induction false} SplitAt(secret: string, n: nat)
    requires n < |secret|
    ensures Significant(secret) ==
      Significant(secret[..n]) + (if Ignored(secret[n]) then [] else [secret[n]]) + Significant(secret[n + 1..])
  {
    var a, b := secret[..n + 1], secret[n + 1..];
    assert secret == a + b;
    SignificantConcat(a, b);
    assert |a| == n + 1 && a[..n] == secret[..n] && a[n] == secret[n];
  }

  /** The bits a decoder has taken in: whole bytes put out, then the bits still held. */
  ghost function TakenIn(out: seq<bv8>, bits: nat, bitCount: nat): seq<bool> {
    OfBytes(out) + Low(bits, bitCount)
  }

  lemma {:induction false} ByteMoves(out: seq<bv8>, bits: nat, shift: nat)
    requires bits < Pow2(shift + BYTE)
    ensures var byte, rest := U8(And(Shr(bits, shift), 0xff)), And(bits, Pow2(shift) - 1);
            rest < Pow2(shift) && TakenIn(out + [byte], rest, shift) == TakenIn(out, bits, shift + BYTE)
  {
    ShiftOut(bits, shift);
    OfBytesAppend(out, U8(And(Shr(bits, shift), 0xff)));
  }

  lemma {:induction false} DigitMoves(out: seq<bv8>, bits: nat, bitCount: nat, value: nat)
    requires bitCount <= 7 && bits < Pow2(bitCount) && value < 32
    ensures var next := Or(Shl(bits, QUINTET), value);
            && next < Pow2(bitCount + QUINTET)
            && TakenIn(out, next, bitCount + QUINTET) == TakenIn(out, bits, bitCount) + Low(value, QUINTET)
  {
    ShiftIn(bits, bitCount, value);
  }

  /** One character's worth of the loop: shift five bits in and put out the bytes completed. */
  method TakeDigit(bits0: nat, bitCount0: nat, out0: seq<bv8>, value: nat)
    returns (bits: nat, bitCount: nat, out: seq<bv8>)
    requires bitCount0 < 8 && bits0 < Pow2(bitCount0) && value < 32
    ensures bitCount < 8 && bits < Pow2(bitCount)
    ensures TakenIn(out, bits, bitCount) == TakenIn(out0, bits0, bitCount0) + Low(value, QUINTET)
  {
    DigitMoves(out0, bits0, bitCount0, value);
    bits := Or(Shl(bits0, 5), value);
    bitCount := bitCount0 + 5;
    out := out0;
    while bitCount >= 8
      invariant bits < Pow2(bitCount)
      invariant TakenIn(out, bits, bitCount) == TakenIn(out0, bits0, bitCount0) + Low(value, QUINTET)
    {
      var shift := bitCount - 8;
      ByteMoves(out, bits, shift);
      out := out + [U8(And(Shr(bits, shift), 0xff))];
      bitCount := bitCount - 8;
      bits := And(bits, Pow2(bitCount) - 1);
    }
  }

  /** What the loop has established about the significant characters read so far. */
  ghost predicate Progress(core: string, sawPadding: bool, taken: seq<bool>) {
    var data := Data(core);
    && (sawPadding <==> '=' in core)
    && AllBase32(data)
    && (forall i :: |data| <= i < |core| ==> core[i] == '=')
    && BitString(data) == taken
  }

  lemma {:induction false} SignificantStep(s: string, n: nat)
    requires n < |s|
    ensures Significant(s[..n + 1]) == if Ignored(s[n]) then Significant(s[..n]) else Significant(s[..n]) + [s[n]]
  {
    assert s[..n + 1][..n] == s[..n];
    assert Significant(s[..n]) + [] == Significant(s[..n]);
  }

  lemma {:induction false} NoPaddingAllData(s: string)
    requires '=' !in s
    ensures Data(s) == s
  {
    DataConcat(s, []);
    assert s + [] == s;
  }

  lemma {:induction false} PaddingAddsNoData(core: string)
    ensures Data(core + ['=']) == Data(core)
  {
    DataConcat(core, ['=']);
    if '=' !in core {
      NoPaddingAllData(core);
    }
  }

  lemma {:induction false} ProgressPadding(core: string, sawPadding: bool, taken: seq<bool>)
    requires Progress(core, sawPadding, taken)
    ensures Progress(core + ['='], true, taken)
  {
    PaddingAddsNoData(core);
  }

  lemma {:induction false} ProgressDigit(core: string, ch: char, taken: seq<bool>)
    requires Progress(core, false, taken) && ch != '=' && IsBase32(ch)
    ensures Progress(core + [ch], false, taken + Low(DigitOf(ch), QUINTET))
  {
    NoPaddingAllData(core);
    NoPaddingAllData(core + [ch]);
    assert (core + [ch])[..|core|] == core;
  }

  method DecodeBase32(secret: string) returns (r: Result<seq<bv8>>)
    ensures r == Decoded(secret)
  {
    var bits: nat := 0;
    var bitCount: nat := 0;
    var out: seq<bv8> := [];
    var sawPadding := false;

    for n := 0 to |secret|
      invariant bitCount < 8 && bits < Pow2(bitCount)
      invariant Progress(Significant(secret[..n]), sawPadding, TakenIn(out, bits, bitCount))
    {
      var ch := secret[n];
      SignificantStep(secret, n);
      if Ignored(ch) {
        continue;
      }
      if ch == '=' {
        ProgressPadding(Significant(secret[..n]), sawPadding, TakenIn(out, bits, bitCount));
        sawPadding := true;
        continue;
      }
      if sawPadding {
        DataAfterPaddingRejects(secret, n);
        return Err(DataAfterPadding);
      }
      if !IsBase32(ch) {
        NoPaddingAllData(Significant(secret[..n]));
        ForeignCharacterRejects(secret, n);
        return Err(UnexpectedCharacter(ch));
      }
      ProgressDigit(Significant(secret[..n]), ch, TakenIn(out, bits, bitCount));
      bits, bitCount, out := TakeDigit(bits, bitCount, out, DigitOf(ch));
    }

    assert secret[..|secret|] == secret;
    NoForeign(Data(Significant(secret)));
    WholeBytesOf(out, Low(bits, bitCount));
    if out == [] {
      return Err(EmptySecret);
    }
    return Ok(out);
  }

  // ---------------------------------------------------------------------------------------------
  // The encoding
  // ---------------------------------------------------------------------------------------------

  const ALPHABET := "ABCDEFGHIJKLMNOPQRSTUVWXYZ234567"

  predicate Plain(c: char) {
    'A' <= c <= 'Z' || '2' <= c <= '7' || c == '='
  }

  lemma AlphabetDigits(v: nat)
    requires v < 32
    ensures IsBase32(ALPHABET[v]) && DigitOf(ALPHABET[v]) == v && Plain(ALPHABET[v])
  {
  }

  /** The accepted characters: the letters in either case and the digits 2 to 7, worth 0 to 31 in that order. */
  lemma {:induction false} AcceptedCharacters(c: char)
    ensures IsBase32(c) <==> 'A' <= c <= 'Z' || 'a' <= c <= 'z' || '2' <= c <= '7'
    ensures 'A' <= c <= 'Z' ==> DigitOf(c) == c as int - 65
    ensures 'a' <= c <= 'z' ==> DigitOf(c) == c as int - 97
    ensures '2' <= c <= '7' ==> DigitOf(c) == c as int - 24
  {
  }

  /** Five bits at a time, with zero bits added on the right to complete the last group. */
  function EncodeBits(b: seq<bool>): (s: string)
    ensures |s| == (|b| + 4) / 5
  {
    if b == [] then []
    else if |b| < 5 then [Letter(b + seq(5 - |b|, _ => false))]
    else [Letter(b[..5])] + EncodeBits(b[5..])
  }

  function Letter(group: seq<bool>): char
    requires |group| == 5
  {
    assert Pow2(5) == 32;
    ALPHABET[Value(group)]
  }

  /** Section 6 of RFC 4648, padded with '=' to a multiple of eight characters. */
  function Encode(bytes: seq<bv8>): string {
    var s := EncodeBits(OfBytes(bytes));
    s + Padding((8 - |s| % 8) % 8)
  }

  function Padding(k: nat): string {
    seq(k, _ => '=')
  }

  lemma {:induction false} LetterBits(group: seq<bool>)
    requires |group| == QUINTET
    ensures IsBase32(Letter(group)) && Low(DigitOf(Letter(group)), QUINTET) == group
    ensures Letter(group) != '=' && Plain(Letter(group))
  {
    PowQuintet();
    AlphabetDigits(Value(group));
    LowOfValue(group);
  }

  lemma Associative(a: seq<bool>, b: seq<bool>, c: seq<bool>)
    ensures (a + b) + c == a + (b + c)
  {
  }

  lemma {:induction false} BitStringCons(c: char, s: string)
    requires IsBase32(c) && AllBase32(s)
    ensures AllBase32([c] + s) && BitString([c] + s) == Low(DigitOf(c), QUINTET) + BitString(s)
  {
    var t := [c] + s;
    if s == [] {
      assert t == [c] && t[..0] == [];
    } else {
      var s' := s[..|s| - 1];
      assert t[..|t| - 1] == [c] + s' && t[|t| - 1] == s[|s| - 1];
      BitStringCons(c, s');
      Associative(Low(DigitOf(c), QUINTET), BitString(s'), Low(DigitOf(s[|s| - 1]), QUINTET));
    }
  }

  /** The letters hold the bit string and fewer than five further zero bits. */
  lemma {:induction false} EncodeBitsHolds(b: seq<bool>)
    ensures AllBase32(EncodeBits(b)) && '=' !in EncodeBits(b)
    ensures b <= BitString(EncodeBits(b)) && |BitString(EncodeBits(b))| < |b| + 5
  {
    if b != [] && |b| < 5 {
      var group := b + seq(5 - |b|, _ => false);
      LetterBits(group);
      BitStringCons(Letter(group), []);
      assert [Letter(group)] + [] == [Letter(group)];
    } else if b != [] {
      LetterBits(b[..5]);
      EncodeBitsHolds(b[5..]);
      BitStringCons(Letter(b[..5]), EncodeBits(b[5..]));
      assert b == b[..5] + b[5..];
    }
  }

  lemma {:induction false} UpperKeepsBits(s: string, t: string)
    requires Upper(s) == t && AllBase32(t)
    ensures AllBase32(s) && BitString(s) == BitString(t)
  {
    assert forall i :: 0 <= i < |s| ==> t[i] == UpperChar(s[i]);
    if s != [] {
      assert Upper(s[..|s| - 1]) == t[..|t| - 1];
      UpperKeepsBits(s[..|s| - 1], t[..|t| - 1]);
    }
  }

  /**
   Decoding undoes the encoding of every non-empty byte string, however the letters' case is
   changed, whitespace and hyphens are put in, and the padding is shortened, dropped or extended.
   */
  lemma {:induction false} DecodeInvertsEncode(bytes: seq<bv8>, secret: string, pad: nat)
    requires bytes != []
    requires Upper(Significant(secret)) == EncodeBits(OfBytes(bytes)) + Padding(pad)
    ensures Decoded(secret) == Ok(bytes)
  {
    var b := OfBytes(bytes);
    var core := Significant(secret);
    EncodeBitsHolds(b);
    PaddedText(core, EncodeBits(b), pad);
    UpperKeepsBits(Data(core), EncodeBits(b));
    DecodedWhenHeld(secret, bytes);
  }

  lemma {:induction false} PaddedText(core: string, letters: string, pad: nat)
    requires Upper(core) == letters + Padding(pad) && '=' !in letters
    ensures Upper(Data(core)) == letters
    ensures forall i :: |Data(core)| <= i < |core| ==> core[i] == '='
  {
    var n := |letters|;
    assert forall i :: 0 <= i < |core| ==> UpperChar(core[i]) == Upper(core)[i];
    assert forall i :: n <= i < |core| ==> core[i] == '=';
    assert Upper(core[..n]) == letters;
    assert forall i :: 0 <= i < n ==> UpperChar(core[i]) == letters[i];
    DataEnds(core, n);
  }

  lemma {:induction false} DataEnds(core: string, n: nat)
    requires n <= |core|
    requires forall i :: 0 <= i < n ==> core[i] != '='
    requires forall i :: n <= i < |core| ==> core[i] == '='
    ensures Data(core) == core[..n]
  {
    if n > 0 {
      DataEnds(core[1..], n - 1);
    }
  }

  lemma {:induction false} DecodedWhenHeld(secret: string, bytes: seq<bv8>)
    requires bytes != []
    requires var core := Significant(secret);
             && AllBase32(Data(core)) && (forall i :: |Data(core)| <= i < |core| ==> core[i] == '=')
             && OfBytes(bytes) <= BitString(Data(core)) && |BitString(Data(core))| < |OfBytes(bytes)| + 8
    ensures Decoded(secret) == Ok(bytes)
  {
    NoForeign(Data(Significant(secret)));
    WholeBytesHeld(bytes, BitString(Data(Significant(secret))));
  }

  /** In particular of the padded form that RFC 4648 prescribes, written as it is. */
  lemma {:induction false} RoundTrip(bytes: seq<bv8>)
    requires bytes != []
    ensures Decoded(Encode(bytes)) == Ok(bytes)
  {
    hide Decoded, EncodeBits, OfBytes, Significant, Upper, Padding;
    var s := EncodeBits(OfBytes(bytes));
    var pad := (8 - |s| % 8) % 8;
    EncodePlain(bytes);
    NothingIgnored(Encode(bytes));
    DecodeInvertsEncode(bytes, Encode(bytes), pad);
  }

  lemma {:induction false} EncodePlain(bytes: seq<bv8>)
    ensures forall i :: 0 <= i < |Encode(bytes)| ==> Plain(Encode(bytes)[i])
  {
    EncodedIsPlain(OfBytes(bytes));
  }

  lemma {:induction false} EncodedIsPlain(b: seq<bool>)
    ensures forall i :: 0 <= i < |EncodeBits(b)| ==> Plain(EncodeBits(b)[i])
  {
    if b != [] && |b| < 5 {
      LetterBits(b + seq(5 - |b|, _ => false));
    } else if b != [] {
      LetterBits(b[..5]);
      EncodedIsPlain(b[5..]);
    }
  }

  lemma {:induction false} NothingIgnored(s: string)
    requires forall i :: 0 <= i < |s| ==> Plain(s[i])
    ensures Significant(s) == s && Upper(s) == s
  {
    if s != [] {
      NothingIgnored(s[..|s| - 1]);
      assert s == s[..|s| - 1] + [s[|s| - 1]];
    }
  }
}
