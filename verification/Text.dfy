/**
 Strings as the Rust and Python sources handle them: trimming, splitting on a separator or on
 whitespace, and decimal numerals. Every other module builds on these definitions.
 */
module Text {

  datatype Option<+T> = None | Some(value: T)

  /** Unicode White_Space, the class Rust's `char::is_whitespace` tests. */
  predicate IsWhitespace(c: char) {
    var n := c as int;
    || 0x09 <= n <= 0x0D || n == 0x20 || n == 0x85 || n == 0xA0 || n == 0x1680
    || 0x2000 <= n <= 0x200A || n == 0x2028 || n == 0x2029 || n == 0x202F || n == 0x205F || n == 0x3000
  }

  predicate NoWhitespace(s: string) {
    forall i :: 0 <= i < |s| ==> !IsWhitespace(s[i])
  }

  function TrimStart(s: string): string {
    if s != [] && IsWhitespace(s[0]) then TrimStart(s[1..]) else s
  }

  function TrimEnd(s: string): string {
    if s != [] && IsWhitespace(s[|s| - 1]) then TrimEnd(s[..|s| - 1]) else s
  }

  function Trim(s: string): string {
    TrimEnd(TrimStart(s))
  }

  /** A string whose first and last characters are not whitespace is its own trimming. */
  lemma TrimFixed(s: string)
    requires s != [] ==> !IsWhitespace(s[0]) && !IsWhitespace(s[|s| - 1])
    ensures Trim(s) == s
  {
  }

  lemma {:induction false} TrimEndShape(s: string)
    ensures TrimEnd(s) <= s
    ensures TrimEnd(s) != [] ==> !IsWhitespace(TrimEnd(s)[|TrimEnd(s)| - 1])
  {
    if s != [] && IsWhitespace(s[|s| - 1]) {
      TrimEndShape(s[..|s| - 1]);
    }
  }

  lemma {:induction false} TrimStartShape(s: string)
    ensures TrimStart(s) != [] ==> !IsWhitespace(TrimStart(s)[0])
    ensures |TrimStart(s)| <= |s| && TrimStart(s) == s[|s| - |TrimStart(s)|..]
  {
    if s != [] && IsWhitespace(s[0]) {
      TrimStartShape(s[1..]);
    }
  }

  lemma {:induction false} TrimEndConcat(a: string, b: string)
    ensures TrimEnd(b) != [] ==> TrimEnd(a + b) == a + TrimEnd(b)
    ensures TrimEnd(b) == [] ==> TrimEnd(a + b) == TrimEnd(a)
  {
    if b == [] {
      assert a + b == a;
    } else {
      var ab := a + b;
      if IsWhitespace(b[|b| - 1]) {
        assert ab[..|ab| - 1] == a + b[..|b| - 1];
        TrimEndConcat(a, b[..|b| - 1]);
      }
    }
  }

  /** Trimming the two ends commutes. */
  lemma {:induction false} TrimOrder(s: string)
    ensures Trim(s) == TrimStart(TrimEnd(s))
  {
    if s != [] && IsWhitespace(s[0]) {
      TrimOrder(s[1..]);
      assert s == [s[0]] + s[1..];
      TrimEndConcat([s[0]], s[1..]);
      if TrimEnd(s[1..]) == [] {
        assert TrimEnd([s[0]]) == [];
      }
    } else {
      TrimEndShape(s);
    }
  }

  /** What Python's `str.isspace` tests: the same class and the four information separators. */
  predicate IsPySpace(c: char) {
    IsWhitespace(c) || 0x1C <= c as int <= 0x1F
  }

  /** The space characters of the two languages, one by one. */
  lemma SpaceCharacters(c: char)
    ensures c as int < 128 ==> (IsWhitespace(c) <==> c in "\t\n\U{000B}\U{000C}\r ")
    ensures IsPySpace(c) <==> IsWhitespace(c) || c in "\U{001C}\U{001D}\U{001E}\U{001F}"
    ensures c as int >= 128 ==> (IsWhitespace(c) <==>
      c in "\U{0085}\U{00A0}\U{1680}\U{2000}\U{2001}\U{2002}\U{2003}\U{2004}\U{2005}\U{2006}\U{2007}\U{2008}\U{2009}\U{200A}"
      || c in "\U{2028}\U{2029}\U{202F}\U{205F}\U{3000}")
  {
  }

  function StripStart(s: string): string {
    if s != [] && IsPySpace(s[0]) then StripStart(s[1..]) else s
  }

  function StripEnd(s: string): string {
    if s != [] && IsPySpace(s[|s| - 1]) then StripEnd(s[..|s| - 1]) else s
  }

  /** Python's `strip()`. */
  function Strip(s: string): string {
    StripEnd(StripStart(s))
  }

  predicate AllSpace(s: string) {
    forall i :: 0 <= i < |s| ==> IsPySpace(s[i])
  }

  predicate AllWhitespace(s: string) {
    forall i :: 0 <= i < |s| ==> IsWhitespace(s[i])
  }

  lemma {:induction false} StripStartIs(before: string, rest: string)
    requires AllSpace(before) && (rest != [] ==> !IsPySpace(rest[0]))
    ensures StripStart(before + rest) == rest
  {
    if before == [] {
      assert before + rest == rest;
    } else {
      assert (before + rest)[1..] == before[1..] + rest;
      StripStartIs(before[1..], rest);
    }
  }

  lemma {:induction false} StripEndIs(core: string, after: string)
    requires AllSpace(after) && (core != [] ==> !IsPySpace(core[|core| - 1]))
    ensures StripEnd(core + after) == core
  {
    if after == [] {
      assert core + after == core;
    } else {
      var all := core + after;
      assert all[..|all| - 1] == core + after[..|after| - 1];
      StripEndIs(core, after[..|after| - 1]);
    }
  }

  /** What is stripped is the space at both ends and nothing else. */
  lemma {:induction false} StripIs(before: string, core: string, after: string)
    requires AllSpace(before) && AllSpace(after)
    requires core != [] ==> !IsPySpace(core[0]) && !IsPySpace(core[|core| - 1])
    ensures Strip(before + core + after) == core
  {
    if core == [] {
      var all := before + after;
      assert before + core + after == all + [];
      StripStartIs(all, []);
    } else {
      assert before + core + after == before + (core + after);
      StripStartIs(before, core + after);
      StripEndIs(core, after);
    }
  }

  lemma {:induction false} TrimStartIs(before: string, rest: string)
    requires AllWhitespace(before) && (rest != [] ==> !IsWhitespace(rest[0]))
    ensures TrimStart(before + rest) == rest
  {
    if before == [] {
      assert before + rest == rest;
    } else {
      assert (before + rest)[1..] == before[1..] + rest;
      TrimStartIs(before[1..], rest);
    }
  }

  /** And trimmed is the whitespace at both ends of a text. */
  lemma {:induction false} TrimIs(before: string, core: string, after: string)
    requires AllWhitespace(before) && AllWhitespace(after)
    requires core != [] && !IsWhitespace(core[0]) && !IsWhitespace(core[|core| - 1])
    ensures Trim(before + core + after) == core
  {
    assert before + core + after == before + (core + after);
    TrimStartIs(before, core + after);
    TrimEndOf(core, after);
  }

  lemma {:induction false} TrimEndOf(core: string, after: string)
    requires AllWhitespace(after) && core != [] && !IsWhitespace(core[|core| - 1])
    ensures TrimEnd(core + after) == core
  {
    if after == [] {
      assert core + after == core;
    } else {
      var all := core + after;
      assert all[..|all| - 1] == core + after[..|after| - 1];
      TrimEndOf(core, after[..|after| - 1]);
    }
  }

  // ---------------------------------------------------------------------------------------------
  // Splitting
  // ---------------------------------------------------------------------------------------------

  /** `split(sep)`: always at least one piece, and one more piece than there are separators. */
  function SplitOn(s: string, sep: char): (pieces: seq<string>)
    ensures |pieces| >= 1
    decreases |s|
  {
    if s == [] then [""]
    else
      var rest := SplitOn(s[1..], sep);
      if s[0] == sep then [""] + rest
      else [[s[0]] + rest[0]] + rest[1..]
  }

  function Join(pieces: seq<string>, sep: char): string
    requires |pieces| >= 1
  {
    if |pieces| == 1 then pieces[0]
    else pieces[0] + [sep] + Join(pieces[1..], sep)
  }

  lemma {:induction false} SplitPrefix(p: string, s: string, sep: char)
    requires sep !in p
    ensures SplitOn(p + [sep] + s, sep) == [p] + SplitOn(s, sep)
  {
    var all := p + [sep] + s;
    if p == [] {
      assert all[1..] == s;
    } else {
      assert all[1..] == p[1..] + [sep] + s;
      SplitPrefix(p[1..], s, sep);
      assert [p[0]] + p[1..] == p;
    }
  }

  lemma {:induction false} SplitNone(p: string, sep: char)
    requires sep !in p
    ensures SplitOn(p, sep) == [p]
  {
    if p != [] {
      SplitNone(p[1..], sep);
      assert [p[0]] + p[1..] == p;
    }
  }

  /** Pieces that do not contain the separator survive being joined and split again. */
  lemma {:induction false} SplitJoin(pieces: seq<string>, sep: char)
    requires |pieces| >= 1
    requires forall i :: 0 <= i < |pieces| ==> sep !in pieces[i]
    ensures SplitOn(Join(pieces, sep), sep) == pieces
  {
    if |pieces| == 1 {
      SplitNone(pieces[0], sep);
    } else {
      SplitPrefix(pieces[0], Join(pieces[1..], sep), sep);
      SplitJoin(pieces[1..], sep);
    }
  }

  /** And splitting loses nothing: the pieces are free of the separator and join back. */
  lemma {:induction false} JoinSplit(s: string, sep: char)
    ensures Join(SplitOn(s, sep), sep) == s
    ensures forall i :: 0 <= i < |SplitOn(s, sep)| ==> sep !in SplitOn(s, sep)[i]
    decreases |s|
  {
    if s != [] {
      var rest := SplitOn(s[1..], sep);
      JoinSplit(s[1..], sep);
      assert s == [s[0]] + s[1..];
      if s[0] == sep {
        assert ([""] + rest)[1..] == rest;
      } else {
        var pieces := [[s[0]] + rest[0]] + rest[1..];
        assert pieces[1..] == rest[1..];
      }
    }
  }

  /** The longest prefix without whitespace. */
  function FirstWord(s: string): (w: string)
    ensures w <= s && NoWhitespace(w)
    ensures |w| < |s| ==> IsWhitespace(s[|w|])
  {
    if s == [] || IsWhitespace(s[0]) then [] else [s[0]] + FirstWord(s[1..])
  }

  /** `split_whitespace()`: the maximal runs of non-whitespace characters, in order. */
  function Words(s: string): (ws: seq<string>)
    ensures forall i :: 0 <= i < |ws| ==> ws[i] != [] && NoWhitespace(ws[i])
    decreases |s|
  {
    if s == [] then []
    else if IsWhitespace(s[0]) then Words(s[1..])
    else var w := FirstWord(s); [w] + Words(s[|w|..])
  }

  lemma {:induction false} FirstWordIs(w: string, rest: string)
    requires NoWhitespace(w)
    requires rest != [] ==> IsWhitespace(rest[0])
    ensures FirstWord(w + rest) == w
  {
    if w == [] {
      assert w + rest == rest;
    } else {
      assert (w + rest)[1..] == w[1..] + rest;
      FirstWordIs(w[1..], rest);
    }
  }

  lemma {:induction false} WordsCons(w: string, rest: string)
    requires w != [] && NoWhitespace(w)
    requires rest != [] ==> IsWhitespace(rest[0])
    ensures Words(w + rest) == [w] + Words(rest)
  {
    FirstWordIs(w, rest);
    assert (w + rest)[|w|..] == rest;
  }

  // ---------------------------------------------------------------------------------------------
  // Case
  // ---------------------------------------------------------------------------------------------

  function UpperChar(c: char): char {
    if 'a' <= c <= 'z' then (c as int - 32) as char else c
  }

  /** The Kelvin sign is the one character outside ASCII whose lower case is an ASCII letter alone. */
  function LowerChar(c: char): char {
    if 'A' <= c <= 'Z' then (c as int + 32) as char else if c == '\U{212A}' then 'k' else c
  }

  /** `to_ascii_uppercase`. */
  function Upper(s: string): (r: string)
    ensures |r| == |s|
  {
    seq(|s|, i requires 0 <= i < |s| => UpperChar(s[i]))
  }

  /** Python's `lower()`, as far as a comparison with an ASCII word can tell. */
  function Lower(s: string): (r: string)
    ensures |r| == |s|
  {
    seq(|s|, i requires 0 <= i < |s| => LowerChar(s[i]))
  }

  // ---------------------------------------------------------------------------------------------
  // Decimal numerals
  // ---------------------------------------------------------------------------------------------

  predicate IsDigit(c: char) {
    '0' <= c <= '9'
  }

  predicate AllDigits(s: string) {
    forall i :: 0 <= i < |s| ==> IsDigit(s[i])
  }

  function DigitValue(c: char): (d: nat)
    requires IsDigit(c)
    ensures d < 10
  {
    c as int - '0' as int
  }

  function DigitChar(d: nat): (c: char)
    requires d < 10
    ensures IsDigit(c) && DigitValue(c) == d
  {
    ('0' as int + d) as char
  }

  /** The number a string of digits denotes. */
  function ValueOf(s: string): nat
    requires AllDigits(s)
  {
    if s == [] then 0 else 10 * ValueOf(s[..|s| - 1]) + DigitValue(s[|s| - 1])
  }

  /** `{}` of a natural number. */
  function Dec(n: nat): (s: string)
    ensures s != [] && AllDigits(s)
    ensures ValueOf(s) == n
  {
    if n < 10 then [DigitChar(n)] else Dec(n / 10) + [DigitChar(n % 10)]
  }

  /** `{}` of an integer. */
  function DecInt(n: int): (s: string)
    ensures s != []
  {
    if n < 0 then "-" + Dec(-n) else Dec(n)
  }

  function Pow10(d: nat): (p: nat)
    ensures p >= 1
  {
    if d == 0 then 1 else 10 * Pow10(d - 1)
  }

  /** `{:0width$}`: the numeral, with zeros in front up to the width. */
  function PadDec(n: nat, width: nat): string {
    var s := Dec(n);
    if |s| >= width then s else Zeros(width - |s|) + s
  }

  function Zeros(k: nat): (s: string)
    ensures |s| == k && AllDigits(s)
  {
    seq(k, _ => '0')
  }

  lemma DecInjective(a: nat, b: nat)
    requires Dec(a) == Dec(b)
    ensures a == b
  {
  }

  lemma {:induction false} DecIntInjective(a: int, b: int)
    requires DecInt(a) == DecInt(b)
    ensures a == b
  {
    if a < 0 {
      assert DecInt(a)[0] == '-';
      assert DecInt(a)[1..] == Dec(-a);
    }
    if b < 0 {
      assert DecInt(b)[0] == '-';
      assert DecInt(b)[1..] == Dec(-b);
    }
  }

  lemma {:induction false} ZerosValue(k: nat, s: string)
    requires AllDigits(s)
    ensures AllDigits(Zeros(k) + s) && ValueOf(Zeros(k) + s) == ValueOf(s)
    decreases |s|, k
  {
    var t := Zeros(k) + s;
    if s == [] {
      if k > 0 {
        assert t[..|t| - 1] == Zeros(k - 1) + [];
        ZerosValue(k - 1, []);
      }
    } else {
      assert t[..|t| - 1] == Zeros(k) + s[..|s| - 1];
      ZerosValue(k, s[..|s| - 1]);
    }
  }

  lemma {:induction false} ValueBound(s: string)
    requires AllDigits(s)
    ensures ValueOf(s) < Pow10(|s|)
  {
    if s != [] {
      ValueBound(s[..|s| - 1]);
    }
  }

  lemma {:induction false} DecLength(n: nat, d: nat)
    requires d >= 1 && n < Pow10(d)
    ensures |Dec(n)| <= d
  {
    if n >= 10 {
      DecLength(n / 10, d - 1);
    }
  }

  /** Two digit strings of the same length that denote the same number are the same string. */
  lemma {:induction false} ValueInjective(s: string, t: string)
    requires AllDigits(s) && AllDigits(t) && |s| == |t|
    requires ValueOf(s) == ValueOf(t)
    ensures s == t
  {
    if s != [] {
      var s', t' := s[..|s| - 1], t[..|t| - 1];
      var a, b := DigitValue(s[|s| - 1]), DigitValue(t[|t| - 1]);
      assert 10 * ValueOf(s') + a == 10 * ValueOf(t') + b;
      assert a == b && ValueOf(s') == ValueOf(t');
      ValueInjective(s', t');
      assert s == s' + [s[|s| - 1]] && t == t' + [t[|t| - 1]];
    }
  }

  /** A padded numeral that fits its width has exactly that many digits and denotes its number. */
  lemma {:induction false} PadDecMeaning(n: nat, width: nat)
    requires width >= 1 && n < Pow10(width)
    ensures |PadDec(n, width)| == width && AllDigits(PadDec(n, width)) && ValueOf(PadDec(n, width)) == n
  {
    hide Dec, ValueOf, Pow10, Zeros;
    DecLength(n, width);
    ZerosValue(width - |Dec(n)|, Dec(n));
  }

  // ---------------------------------------------------------------------------------------------
  // Reading numerals
  // ---------------------------------------------------------------------------------------------

  const U32_MAX: nat := 0xFFFF_FFFF

  /** Rust's `str::parse::<u32>()`: an optional '+', at least one digit, no overflow. */
  function ParseU32(s: string): Option<nat> {
    var digits := if s != [] && s[0] == '+' then s[1..] else s;
    if digits == [] || !AllDigits(digits) || ValueOf(digits) > U32_MAX then None
    else Some(ValueOf(digits))
  }

  /** Read are the digits with or without a plus, up to the largest 32-bit number. */
  lemma {:induction false} ParseU32Exactly(s: string, n: nat)
    ensures ParseU32(s) == Some(n) <==>
      exists digits :: (s == digits || s == "+" + digits) && digits != [] && AllDigits(digits) && ValueOf(digits) == n && n <= 4294967295
  {
    if ParseU32(s) == Some(n) {
      var digits := if s[0] == '+' then s[1..] else s;
      assert s[0] == '+' ==> s == "+" + digits;
      assert AllDigits(digits) && ValueOf(digits) == n;
    }
    if digits :| (s == digits || s == "+" + digits) && digits != [] && AllDigits(digits) && ValueOf(digits) == n && n <= 4294967295 {
      if s == digits {
        assert IsDigit(s[0]);
      } else {
        assert s[1..] == digits;
      }
    }
  }

  /** The digits of a Python numeral body: single underscores may stand between digits. */
  function PyDigits(s: string): Option<string> {
    if s == [] || !IsDigit(s[0]) then None
    else if |s| == 1 then Some(s)
    else
      var rest := PyDigits(if s[1] == '_' then s[2..] else s[1..]);
      if rest.None? then None else Some([s[0]] + rest.value)
  }

  lemma {:induction false} PyDigitsShape(s: string)
    ensures PyDigits(s).Some? ==> AllDigits(PyDigits(s).value)
  {
    if s != [] && IsDigit(s[0]) && |s| > 1 {
      PyDigitsShape(if s[1] == '_' then s[2..] else s[1..]);
    }
  }

  lemma {:induction false} PyDigitsOfDigits(s: string)
    requires s != [] && AllDigits(s)
    ensures PyDigits(s) == Some(s)
  {
    if |s| > 1 {
      assert s[1] != '_';
      PyDigitsOfDigits(s[1..]);
      assert [s[0]] + s[1..] == s;
    }
  }

  /**
   Python's `int(text)` on ASCII numerals: surrounding whitespace, a sign, grouped digits. Unlike
   `strip`, it does not take the information separators for whitespace.
   */
  function PyInt(s: string): Option<int> {
    var t := Trim(s);
    var signed := t != [] && (t[0] == '+' || t[0] == '-');
    var body := PyDigits(if signed then t[1..] else t);
    if body.None? then None
    else
      PyDigitsShape(if signed then t[1..] else t);
      var magnitude: int := ValueOf(body.value);
      Some(if signed && t[0] == '-' then -magnitude else magnitude)
  }

  lemma {:induction false} PyIntOfDigits(s: string)
    requires s != [] && AllDigits(s)
    ensures PyInt(s) == Some(ValueOf(s))
  {
    TrimFixed(s);
    PyDigitsOfDigits(s);
  }

  /** Whitespace around a numeral and a plus before it do not matter; a minus negates. */
  lemma {:induction false} PyIntWritten(before: string, sign: string, digits: string, after: string)
    requires AllWhitespace(before) && AllWhitespace(after) && digits != [] && AllDigits(digits)
    requires sign == "" || sign == "+" || sign == "-"
    ensures PyInt(before + (sign + digits) + after) == Some(if sign == "-" then -(ValueOf(digits) as int) else ValueOf(digits))
  {
    hide Trim, ValueOf, PyDigits;
    var core := sign + digits;
    assert core[|core| - 1] == digits[|digits| - 1];
    DigitIsNoSpace(digits[|digits| - 1]);
    DigitIsNoSpace(digits[0]);
    TrimIs(before, core, after);
    PyDigitsOfDigits(digits);
    if sign == "" {
      assert core == digits;
    } else {
      assert core[0] == sign[0] && core[1..] == digits;
    }
  }

  lemma DigitIsNoSpace(c: char)
    requires IsDigit(c)
    ensures !IsWhitespace(c)
  {
  }

  lemma {:induction false} PyDigitsCons(c: char, rest: string)
    requires IsDigit(c) && rest != []
    ensures rest[0] != '_' ==> PyDigits([c] + rest) == if PyDigits(rest).None? then None else Some([c] + PyDigits(rest).value)
    ensures rest[0] == '_' ==> PyDigits([c] + rest) == if PyDigits(rest[1..]).None? then None else Some([c] + PyDigits(rest[1..]).value)
  {
    var all := [c] + rest;
    assert all[1..] == rest && all[2..] == rest[1..];
  }

  /** A single underscore between digits does not matter either. */
  lemma {:induction false} PyDigitsGrouped(a: string, b: string)
    requires a != [] && b != [] && AllDigits(a) && AllDigits(b)
    ensures PyDigits(a + "_" + b) == Some(a + b)
  {
    hide PyDigits;
    var rest := a[1..] + "_" + b;
    assert a + "_" + b == [a[0]] + rest && a == [a[0]] + a[1..];
    PyDigitsCons(a[0], rest);
    if |a| == 1 {
      assert rest[1..] == b;
      PyDigitsOfDigits(b);
      assert [a[0]] + b == a + b;
    } else {
      assert rest[0] == a[1];
      PyDigitsGrouped(a[1..], b);
      assert [a[0]] + (a[1..] + b) == a + b;
    }
  }

  /** Two of them, or one before or after the digits, or any other character, make no numeral. */
  lemma {:induction false} NoNumerals()
    ensures PyInt("1__2") == None && PyInt("_1") == None && PyInt("1_") == None && PyInt("") == None && PyInt("1.5") == None
  {
    TrimFixed("1__2");
    TrimFixed("_1");
    TrimFixed("1_");
    TrimFixed("1.5");
    assert "1__2"[2..] == "_2" && "1_"[2..] == "" && "1.5"[1..] == ".5";
    assert PyDigits("_2") == None && PyDigits("") == None && PyDigits(".5") == None;
  }

  /** Every integer is read back from its numeral. */
  lemma {:induction false} PyIntOfDecInt(n: int)
    ensures PyInt(DecInt(n)) == Some(n)
  {
    if n < 0 {
      var t := DecInt(n);
      TrimFixed(t);
      assert t[1..] == Dec(-n);
      PyDigitsOfDigits(Dec(-n));
    } else {
      PyIntOfDigits(Dec(n));
    }
  }
}
