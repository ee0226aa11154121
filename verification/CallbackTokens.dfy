/**
 Signed callback tokens: minting, validating, and the command line that carries one to ibctl. The
 signature and the base64 test are parameters.
 */
module CallbackTokens {
  import opened Text

  /** `sign` is the base64url HMAC of a prefix under a key; `decodes` is the base64 decoding test. */
  datatype Signer = Signer(sign: (string, string) -> string, decodes: string -> bool)

  /** What the encoding guarantees: a non-empty dot-free, whitespace-free text that decodes. */
  ghost predicate Base64Url(s: Signer) {
    forall key, prefix ::
      var sig := s.sign(key, prefix);
      sig != "" && '.' !in sig && NoWhitespace(sig) && s.decodes(sig)
  }

  const VERSION := "v2"

  predicate ValidIntent(intent: string) {
    intent == "hitl" || intent == "reconnect"
  }

  predicate ValidMode(mode: string) {
    mode == "live" || mode == "paper"
  }

  // ---------------------------------------------------------------------------------------------
  // Minting and validating
  // ---------------------------------------------------------------------------------------------

  datatype MintError = EmptyKey | UnknownIntent | DottedMode | UnknownMode

  datatype MintResult = Minted(token: string) | Refused(error: MintError)

  function Prefix(intent: string, issued: int, expires: int, mode: string): string {
    VERSION + "." + intent + "." + DecInt(issued) + "." + DecInt(expires) + "." + mode
  }

  function Mint(s: Signer, key: string, mode: string, hours: int, intent: string, now: nat): MintResult {
    if key == "" then Refused(EmptyKey)
    else if !ValidIntent(intent) then Refused(UnknownIntent)
    else
      var norm := Lower(mode);
      if '.' in norm then Refused(DottedMode)
      else if !ValidMode(norm) then Refused(UnknownMode)
      else
        Minted(TokenText(s, key, norm, now, now + hours * 3600, intent))
  }

  function TokenText(s: Signer, key: string, mode: string, issued: int, expires: int, intent: string): string {
    var prefix := Prefix(intent, issued, expires, mode);
    prefix + "." + s.sign(key, prefix)
  }

  datatype Verdict = Ok | Malformed | BadVersion | BadSignature | BadIntent | Expired

  function Validate(s: Signer, key: string, token: string, expected: string, now: nat): Verdict {
    var parts := SplitOn(token, '.');
    if token == "" || |parts| != 6 then Malformed else ValidateParts(s, key, parts, expected, now)
  }

  function ValidateParts(s: Signer, key: string, parts: seq<string>, expected: string, now: nat): Verdict
    requires |parts| == 6
  {
    if parts[0] != VERSION then BadVersion
    else if parts[1] == "" || parts[4] == "" then Malformed
    else
      var issued, expires := PyInt(parts[2]), PyInt(parts[3]);
      if issued.None? || expires.None? then Malformed
      else if issued.value < 0 || expires.value <= issued.value then Malformed
      else if !s.decodes(parts[5]) then Malformed
      else if parts[5] != s.sign(key, Prefix(parts[1], issued.value, expires.value, parts[4])) then BadSignature
      else if parts[1] != expected then BadIntent
      else if expires.value <= now then Expired
      else Ok
  }

  function ExtractMode(token: string): Option<string> {
    var parts := SplitOn(token, '.');
    if |parts| != 6 || parts[4] == "" then None else Some(parts[4])
  }

  /** The expiry instant a token's text carries, when it has one. */
  function ExpiryOf(token: string): Option<int> {
    var parts := SplitOn(token, '.');
    if |parts| != 6 then None else PyInt(parts[3])
  }

  // ---------------------------------------------------------------------------------------------
  // What minting gives
  // ---------------------------------------------------------------------------------------------

  lemma NumeralNoDot(n: int)
    ensures '.' !in DecInt(n) && NoWhitespace(DecInt(n))
  {
  }

  /** The six segments of a minted token. */
  function Segments(s: Signer, key: string, mode: string, issued: int, expires: int, intent: string): seq<string> {
    [VERSION, intent, DecInt(issued), DecInt(expires), mode, s.sign(key, Prefix(intent, issued, expires, mode))]
  }

  lemma {:induction false} Join6(a: string, b: string, c: string, d: string, e: string, f: string)
    ensures Join([a, b, c, d, e, f], '.') == a + "." + b + "." + c + "." + d + "." + e + "." + f
  {
    var p := [a, b, c, d, e, f];
    assert p[1..] == [b, c, d, e, f] && p[1..][1..] == [c, d, e, f] && p[1..][1..][1..] == [d, e, f];
    assert Join([f], '.') == f;
    assert Join([e, f], '.') == e + ['.'] + f by { assert [e, f][1..] == [f]; }
    assert Join([d, e, f], '.') == d + ['.'] + Join([e, f], '.') by { assert [d, e, f][1..] == [e, f]; }
    assert Join([c, d, e, f], '.') == c + ['.'] + Join([d, e, f], '.') by { assert [c, d, e, f][1..] == [d, e, f]; }
    assert Join([b, c, d, e, f], '.') == b + ['.'] + Join([c, d, e, f], '.') by { assert [b, c, d, e, f][1..] == [c, d, e, f]; }
    assert Join(p, '.') == a + ['.'] + Join([b, c, d, e, f], '.');
  }

  /** A minted token is its six segments joined by dots, and splits back into exactly them. */
  lemma {:induction false} MintedSplits(s: Signer, key: string, mode: string, issued: int, expires: int, intent: string)
    requires Base64Url(s) && ValidIntent(intent) && ValidMode(mode)
    ensures var parts := Segments(s, key, mode, issued, expires, intent);
            && TokenText(s, key, mode, issued, expires, intent) == Join(parts, '.')
            && SplitOn(TokenText(s, key, mode, issued, expires, intent), '.') == parts
            && TokenText(s, key, mode, issued, expires, intent) != ""
  {
    var parts := Segments(s, key, mode, issued, expires, intent);
    var sig := s.sign(key, Prefix(intent, issued, expires, mode));
    Join6(VERSION, intent, DecInt(issued), DecInt(expires), mode, sig);
    NumeralNoDot(issued);
    NumeralNoDot(expires);
    assert forall i :: 0 <= i < |parts| ==> '.' !in parts[i];
    SplitJoin(parts, '.');
  }

  /**
   A token minted for a valid mode and intent, whatever its lifetime, splits into six segments,
   yields its mode and carries its expiry. With a positive lifetime it validates at every instant
   before that expiry, is expired from then on, and for any other intent is always refused as such.
   With any other lifetime it is malformed at every instant and for every intent.
   */
  lemma {:induction false} MintedValidates(s: Signer, key: string, mode: string, hours: int, intent: string, minted: nat, expected: string, now: nat)
    requires Base64Url(s) && key != "" && ValidIntent(intent) && ValidMode(Lower(mode))
    ensures var r := Mint(s, key, mode, hours, intent, minted);
            && r.Minted?
            && |SplitOn(r.token, '.')| == 6 && ExtractMode(r.token) == Some(Lower(mode))
            && ExpiryOf(r.token) == Some(minted + hours * 3600)
            && Validate(s, key, r.token, expected, now) ==
               if hours <= 0 then Malformed
               else if intent != expected then BadIntent
               else if now < minted + hours * 3600 then Ok else Expired
  {
    hide SplitOn, PyInt, TokenText, ValidateParts, DecInt, Join;
    var norm := Lower(mode);
    var expires := minted + hours * 3600;
    MintedSplits(s, key, norm, minted, expires, intent);
    SegmentsValidate(s, key, norm, minted, expires, intent, expected, now);
    PyIntOfDecInt(expires);
    assert '.' !in norm;
  }

  lemma {:induction false} SegmentsValidate(s: Signer, key: string, mode: string, issued: int, expires: int, intent: string, expected: string, now: nat)
    requires Base64Url(s) && ValidIntent(intent) && ValidMode(mode) && issued >= 0
    ensures ValidateParts(s, key, Segments(s, key, mode, issued, expires, intent), expected, now) ==
      if expires <= issued then Malformed
      else if intent != expected then BadIntent
      else if now < expires then Ok else Expired
  {
    hide PyInt, DecInt, Prefix;
    PyIntOfDecInt(issued);
    PyIntOfDecInt(expires);
    assert s.decodes(s.sign(key, Prefix(intent, issued, expires, mode)));
  }

  /** The text that is signed, and what minting refuses, in this order. */
  lemma {:induction false} MintExactly(s: Signer, key: string, mode: string, hours: int, intent: string, now: nat)
    ensures var m := Lower(mode);
            var signed := "v2." + intent + "." + DecInt(now) + "." + DecInt(now + hours * 3600) + "." + m;
            Mint(s, key, mode, hours, intent, now) ==
              if key == "" then Refused(EmptyKey)
              else if intent != "hitl" && intent != "reconnect" then Refused(UnknownIntent)
              else if '.' in m then Refused(DottedMode)
              else if m != "live" && m != "paper" then Refused(UnknownMode)
              else Minted(signed + "." + s.sign(key, signed))
  {
    hide DecInt, Lower;
    var m, e := Lower(mode), now + hours * 3600;
    assert Prefix(intent, now, e, m) == "v2." + intent + "." + DecInt(now) + "." + DecInt(e) + "." + m;
  }

  /**
   The verdict on every text. Six dot-free parts are judged in this order: version, empty parts,
   numbers, lifetime, encoding, signature over the canonical text, intent, expiry; a text of more or
   fewer parts is malformed.
   */
  lemma {:induction false} VerdictExactly(s: Signer, key: string, parts: seq<string>, expected: string, now: nat)
    requires |parts| >= 1 && forall i :: 0 <= i < |parts| ==> '.' !in parts[i]
    ensures var verdict := Validate(s, key, Join(parts, '.'), expected, now);
            if |parts| != 6 then verdict == Malformed
            else if parts[0] != "v2" then verdict == BadVersion
            else if parts[1] == "" || parts[4] == "" || PyInt(parts[2]) == None || PyInt(parts[3]) == None then verdict == Malformed
            else
              var issued, expires := PyInt(parts[2]).value, PyInt(parts[3]).value;
              var signed := "v2." + parts[1] + "." + DecInt(issued) + "." + DecInt(expires) + "." + parts[4];
              verdict ==
                if issued < 0 || expires <= issued || !s.decodes(parts[5]) then Malformed
                else if parts[5] != s.sign(key, signed) then BadSignature
                else if parts[1] != expected then BadIntent
                else if expires <= now then Expired
                else Ok
  {
    hide SplitOn, PyInt, DecInt, Join;
    SplitJoin(parts, '.');
    EmptySplits();
    if |parts| == 6 && PyInt(parts[2]).Some? && PyInt(parts[3]).Some? {
      var issued, expires := PyInt(parts[2]).value, PyInt(parts[3]).value;
      assert Prefix(parts[1], issued, expires, parts[4]) ==
        "v2." + parts[1] + "." + DecInt(issued) + "." + DecInt(expires) + "." + parts[4];
    }
  }

  /**
   What acceptance means, for every text: its fields, read as numbers and written back in canonical
   form, carry the right signature, the intent is the expected one, and the expiry is still to come.
   */
  lemma {:induction false} AcceptedMeans(s: Signer, key: string, token: string, expected: string, now: nat)
    ensures Validate(s, key, token, expected, now) == Ok <==>
      exists issued: nat, expires: nat, mode: string ::
        Carries(s, key, token, expected, issued, expires, mode) && issued < expires && now < expires
  {
    if Validate(s, key, token, expected, now) == Ok {
      var parts := SplitOn(token, '.');
      assert Carries(s, key, token, expected, PyInt(parts[2]).value, PyInt(parts[3]).value, parts[4]);
    }
  }

  predicate Carries(s: Signer, key: string, token: string, intent: string, issued: nat, expires: nat, mode: string) {
    var parts := SplitOn(token, '.');
    && |parts| == 6 && parts[0] == VERSION && parts[1] == intent && intent != "" && parts[4] == mode && mode != ""
    && PyInt(parts[2]) == Some(issued) && PyInt(parts[3]) == Some(expires)
    && parts[5] == s.sign(key, Prefix(intent, issued, expires, mode)) && s.decodes(parts[5])
  }

  /** The text of a token with `zeros` zeros before its issue instant, under the original signature. */
  function Respelled(s: Signer, key: string, mode: string, issued: nat, expires: nat, intent: string, zeros: nat): string {
    Join(RespelledSegments(s, key, mode, issued, expires, intent, zeros), '.')
  }

  function RespelledSegments(
    s: Signer, key: string, mode: string, issued: nat, expires: nat, intent: string, zeros: nat): (parts: seq<string>)
    ensures |parts| == 6
  {
    [VERSION, intent, Zeros(zeros) + Dec(issued), Dec(expires), mode, s.sign(key, Prefix(intent, issued, expires, mode))]
  }

  lemma {:induction false} RespelledSplits(s: Signer, key: string, mode: string, issued: nat, expires: nat, intent: string, zeros: nat)
    requires Base64Url(s) && ValidIntent(intent) && ValidMode(mode)
    ensures SplitOn(Respelled(s, key, mode, issued, expires, intent, zeros), '.')
            == RespelledSegments(s, key, mode, issued, expires, intent, zeros)
  {
    hide Prefix;
    var parts := RespelledSegments(s, key, mode, issued, expires, intent, zeros);
    NumeralNoDot(expires);
    ZerosValue(zeros, Dec(issued));
    assert '.' !in parts[2];
    assert '.' !in parts[5];
    SplitJoin(parts, '.');
  }

  /** Leading zeros change the text, and neither the verdict nor the mode. */
  lemma {:induction false} RespelledValidates(s: Signer, key: string, mode: string, issued: nat, expires: nat, intent: string, zeros: nat, now: nat)
    requires Base64Url(s) && ValidIntent(intent) && ValidMode(mode) && issued < expires
    ensures var text := Respelled(s, key, mode, issued, expires, intent, zeros);
            && Validate(s, key, text, intent, now) == (if now < expires then Ok else Expired)
            && ExtractMode(text) == Some(mode)
            && (zeros > 0 ==> text != TokenText(s, key, mode, issued, expires, intent))
  {
    hide SplitOn, PyInt, TokenText, Join, Prefix, Respelled;
    var parts := RespelledSegments(s, key, mode, issued, expires, intent, zeros);
    RespelledSplits(s, key, mode, issued, expires, intent, zeros);
    MintedSplits(s, key, mode, issued, expires, intent);
    ZerosValue(zeros, Dec(issued));
    PyIntOfDigits(parts[2]);
    PyIntOfDecInt(expires);
    assert s.decodes(parts[5]);
    assert zeros > 0 ==> |parts[2]| > |Dec(issued)|;
    EmptySplits();
  }

  lemma EmptySplits()
    ensures |SplitOn("", '.')| == 1
  {
  }

  // ---------------------------------------------------------------------------------------------
  // The command line
  // ---------------------------------------------------------------------------------------------

  const KEYWORD := "RESUME_RECONNECT"

  /** What follows the first separator: the second piece of `splitn(2, sep)`. */
  function AfterFirst(s: string, sep: char): Option<string> {
    if s == [] then None else if s[0] == sep then Some(s[1..]) else AfterFirst(s[1..], sep)
  }

  /** The token of a RESUME_RECONNECT line; other keywords and empty arguments give none. */
  function ResumeToken(input: string): Option<string> {
    var trimmed := Trim(input);
    var parts := Words(Upper(trimmed));
    if parts == [] || parts[0] != KEYWORD then None
    else
      var rest := AfterFirst(trimmed, ' ');
      var token := Trim(if rest.Some? then rest.value else "");
      if token == "" then None else Some(token)
  }

  lemma {:induction false} AfterFirstIs(p: string, sep: char, rest: string)
    requires sep !in p
    ensures AfterFirst(p + [sep] + rest, sep) == Some(rest)
  {
    var s := p + [sep] + rest;
    if p == [] {
      assert s[1..] == rest;
    } else {
      assert s[1..] == p[1..] + [sep] + rest;
      AfterFirstIs(p[1..], sep, rest);
    }
  }

  lemma {:induction false} AfterFirstNone(p: string, sep: char)
    requires sep !in p
    ensures AfterFirst(p, sep) == None
  {
    if p != [] {
      AfterFirstNone(p[1..], sep);
    }
  }

  /** The keyword, in any mixture of cases. */
  predicate IsKeyword(k: string) {
    Upper(k) == "RESUME_RECONNECT"
  }

  lemma {:induction false} KeywordFacts(k: string)
    requires IsKeyword(k)
    ensures |k| == 16 && NoWhitespace(k) && ' ' !in k && Upper(k) == KEYWORD && NoWhitespace(KEYWORD)
  {
    forall i | 0 <= i < |k| ensures !IsWhitespace(k[i]) {
      assert UpperChar(k[i]) == KEYWORD[i];
    }
  }

  lemma UpperConcat(a: string, b: string)
    ensures Upper(a + b) == Upper(a) + Upper(b)
  {
  }

  /** How the line with argument `t` is trimmed. */
  lemma {:induction false} TrimmedLine(k: string, t: string)
    requires k != "" && NoWhitespace(k)
    ensures TrimEnd(t) != "" ==> Trim(k + " " + t) == k + " " + TrimEnd(t)
    ensures TrimEnd(t) == "" ==> Trim(k + " " + t) == k
  {
    var line := k + " " + t;
    assert line[0] == k[0];
    assert TrimStart(line) == line;
    TrimEndConcat(k + " ", t);
    TrimEndConcat(k, " ");
    assert TrimEnd(" ") == TrimEnd("") by { assert " "[..0] == ""; }
  }

  lemma {:induction false} UpperNoWhitespace(k: string)
    requires NoWhitespace(k)
    ensures NoWhitespace(Upper(k))
  {
  }

  lemma {:induction false} FirstWordOfLine(k: string, u: string)
    requires k != "" && NoWhitespace(k)
    ensures Words(Upper(k + " " + u)) != [] && Words(Upper(k + " " + u))[0] == Upper(k)
    ensures Words(Upper(k)) == [Upper(k)]
  {
    UpperNoWhitespace(k);
    var rest := " " + u;
    assert k + " " + u == k + rest;
    UpperConcat(k, rest);
    assert Upper(rest)[0] == ' ';
    WordsCons(Upper(k), Upper(rest));
    WordsCons(Upper(k), "");
    assert Upper(k) + "" == Upper(k);
  }

  lemma {:induction false} EmptyArgument(k: string, t: string)
    requires IsKeyword(k) && TrimEnd(t) == ""
    ensures ResumeToken(k + " " + t) == None
  {
    KeywordFacts(k);
    TrimmedLine(k, t);
    AfterFirstNone(k, ' ');
    assert Trim("") == "";
  }

  lemma {:induction false} Argument(k: string, t: string)
    requires IsKeyword(k) && TrimEnd(t) != ""
    ensures ResumeToken(k + " " + t) == if Trim(t) == "" then None else Some(Trim(t))
  {
    hide TrimStart, TrimEnd, Words, AfterFirst, Upper;
    var u := TrimEnd(t);
    KeywordFacts(k);
    TrimmedLine(k, t);
    FirstWordOfLine(k, u);
    AfterFirstIs(k, ' ', u);
    TrimTwice(t);
  }

  lemma {:induction false} TrimTwice(t: string)
    ensures Trim(TrimEnd(t)) == Trim(t)
  {
    TrimOrder(t);
    TrimOrder(TrimEnd(t));
    TrimEndShape(t);
  }

  /** For every argument the command parser gives back its trimming, or nothing when that is empty. */
  lemma {:induction false} ResumeTokenOf(k: string, t: string)
    requires IsKeyword(k)
    ensures ResumeToken(k + " " + t) == if Trim(t) == "" then None else Some(Trim(t))
  {
    if TrimEnd(t) == "" {
      EmptyArgument(k, t);
      TrimOrder(t);
    } else {
      Argument(k, t);
    }
  }

  /** No other command carries a token, and no command without an argument. */
  lemma {:induction false} NoOtherTokens(k: string, t: string)
    requires k != "" && NoWhitespace(k)
    ensures ResumeToken(k) == None
    ensures !IsKeyword(k) ==> ResumeToken(k + " " + t) == None
  {
    hide TrimStart, TrimEnd, Words, AfterFirst, Upper;
    TrimmedLine(k, t);
    FirstWordOfLine(k, TrimEnd(t));
    TrimFixed(k);
    AfterFirstNone(k, ' ');
    TrimFixed("");
  }

  lemma {:induction false} JoinNoWhitespace(pieces: seq<string>)
    requires |pieces| >= 1 && forall i :: 0 <= i < |pieces| ==> NoWhitespace(pieces[i])
    ensures NoWhitespace(Join(pieces, '.'))
  {
    if |pieces| > 1 {
      JoinNoWhitespace(pieces[1..]);
    }
  }

  lemma {:induction false} MintedNoWhitespace(s: Signer, key: string, mode: string, issued: int, expires: int, intent: string)
    requires Base64Url(s) && ValidIntent(intent) && ValidMode(mode)
    ensures NoWhitespace(TokenText(s, key, mode, issued, expires, intent)) && TokenText(s, key, mode, issued, expires, intent) != ""
  {
    hide TokenText, DecInt, Join, SplitOn, Prefix;
    MintedSplits(s, key, mode, issued, expires, intent);
    var parts := Segments(s, key, mode, issued, expires, intent);
    NumeralNoDot(issued);
    NumeralNoDot(expires);
    assert NoWhitespace(parts[5]);
    JoinNoWhitespace(parts);
  }

  lemma KeywordIsOne()
    ensures IsKeyword("RESUME_RECONNECT")
  {
  }

  lemma {:induction false} TrimNewline(token: string)
    requires token != "" && NoWhitespace(token)
    ensures Trim(token + "\n") == token
  {
    assert TrimStart(token + "\n") == token + "\n";
    TrimEndConcat(token, "\n");
    assert TrimEnd("\n") == "" by { assert "\n"[..0] == ""; }
  }

  /** A minted token sent as a line, newline included, is recovered character for character. */
  lemma {:induction false} MintedSurvivesWire(s: Signer, key: string, mode: string, hours: int, intent: string, minted: nat)
    requires Base64Url(s) && key != "" && ValidIntent(intent) && ValidMode(Lower(mode))
    ensures Mint(s, key, mode, hours, intent, minted).Minted?
    ensures var token := Mint(s, key, mode, hours, intent, minted).token;
            ResumeToken("RESUME_RECONNECT " + (token + "\n")) == Some(token)
  {
    hide TokenText, Trim, ResumeToken;
    assert '.' !in Lower(mode);
    var token := TokenText(s, key, Lower(mode), minted, minted + hours * 3600, intent);
    MintedNoWhitespace(s, key, Lower(mode), minted, minted + hours * 3600, intent);
    assert IsKeyword("RESUME_RECONNECT") by { KeywordIsOne(); }
    ResumeTokenOf("RESUME_RECONNECT", token + "\n");
    assert "RESUME_RECONNECT" + " " == "RESUME_RECONNECT ";
    TrimNewline(token);
  }
}
