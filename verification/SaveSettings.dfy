/**
 The daily settings-save scheduler: parsing its schedule text, and the timer that must send each
 scheduled save exactly once.
 */
module SaveSettings {
  import opened Text
  import opened Calendar
  import opened Sorting

  datatype Time = Time(hour: nat, minute: nat)

  predicate ValidTime(t: Time) {
    t.hour <= 23 && t.minute <= 59
  }

  function MinuteOf(t: Time): int {
    60 * t.hour + t.minute
  }

  // ---------------------------------------------------------------------------------------------
  // One entry
  // ---------------------------------------------------------------------------------------------

  predicate IsAmPm(s: string) {
    Upper(s) == "AM" || Upper(s) == "PM"
  }

  /** The hour a 12-hour or 24-hour reading denotes. */
  function ResolveHour(hour: nat, ampm: Option<string>): Option<nat> {
    match ampm
    case None => if hour > 23 then None else Some(hour)
    case Some(half) =>
      if half == "AM" then (if hour == 12 then Some(0) else if hour > 11 then None else Some(hour))
      else if half == "PM" then (if hour == 12 then Some(12) else if hour <= 11 then Some(hour + 12) else None)
      else None
  }

  /** In 12-hour readings only the hours 0 to 12 mean something, and 12 counts as 0 of its half. */
  lemma ResolveHourMeaning(hour: nat, half: string)
    ensures ResolveHour(hour, None) == if hour < 24 then Some(hour) else None
    ensures ResolveHour(hour, Some(half)) ==
      if hour <= 12 && (half == "AM" || half == "PM") then Some(hour % 12 + if half == "PM" then 12 else 0) else None
  {
  }

  /** "HH:MM", with an optional AM or PM after whitespace. */
  function ParseTime(value: string): (r: Option<Time>)
    ensures r.Some? ==> ValidTime(r.value)
  {
    var parts := Words(value);
    if parts == [] || |parts| > 2 then None
    else
      var ampm := if |parts| == 2 then Some(Upper(parts[1])) else None;
      var hm := SplitOn(parts[0], ':');
      if |hm| < 2 then None
      else
        var hour, minute := ParseU32(hm[0]), ParseU32(hm[1]);
        if hour.None? || minute.None? || |hm| > 2 || minute.value > 59 then None
        else
          var resolved := ResolveHour(hour.value, ampm);
          if resolved.None? then None else Some(Time(resolved.value, minute.value))
  }

  // ---------------------------------------------------------------------------------------------
  // The schedule
  // ---------------------------------------------------------------------------------------------

  function Spaced(input: string): (r: string)
    ensures |r| == |input|
  {
    seq(|input|, i requires 0 <= i < |input| => if input[i] == ',' || input[i] == ';' then ' ' else input[i])
  }

  /** Tokens grouped into entries: an AM or PM token belongs to the token before it. */
  function Entries(tokens: seq<string>): seq<string> {
    if tokens == [] then []
    else if |tokens| > 1 && IsAmPm(tokens[1]) then [tokens[0] + " " + tokens[1]] + Entries(tokens[2..])
    else [tokens[0]] + Entries(tokens[1..])
  }

  /** Some entry of the text denotes this time. */
  ghost predicate Denotes(input: string, t: Time) {
    exists k :: 0 <= k < |Entries(Words(Spaced(input)))| && ParseTime(Entries(Words(Spaced(input)))[k]) == Some(t)
  }

  predicate StrictlyIncreasing(s: seq<Time>) {
    forall i, j :: 0 <= i < j < |s| ==> MinuteOf(s[i]) < MinuteOf(s[j])
  }

  /** The times of a schedule: in order, on the clock face, and exactly those the text denotes. */
  ghost predicate IsSchedule(input: string, out: seq<Time>) {
    && StrictlyIncreasing(out)
    && (forall t :: t in out ==> ValidTime(t))
    && (forall t :: t in out <==> Denotes(input, t))
  }

  /** The distinct times read from the first `k` entries. */
  ghost predicate Collected(entries: seq<string>, k: nat, out: seq<Time>)
    requires k <= |entries|
  {
    && (forall i, j :: 0 <= i < j < |out| ==> out[i] != out[j])
    && (forall t :: t in out <==> exists e :: 0 <= e < k && ParseTime(entries[e]) == Some(t))
  }

  lemma {:induction false} CollectOne(entries: seq<string>, k: nat, out: seq<Time>, next: seq<Time>)
    requires k < |entries| && Collected(entries, k, out)
    requires var r := ParseTime(entries[k]);
             next == if r.Some? && r.value !in out then out + [r.value] else out
    ensures Collected(entries, k + 1, next)
  {
    hide ParseTime;
    var r := ParseTime(entries[k]);
    forall t ensures t in next <==> exists e :: 0 <= e < k + 1 && ParseTime(entries[e]) == Some(t) {
      assert t in next <==> t in out || r == Some(t);
      if t in next {
        if r == Some(t) {
          assert ParseTime(entries[k]) == Some(t);
        } else {
          var e :| 0 <= e < k && ParseTime(entries[e]) == Some(t);
        }
      }
    }
  }

  lemma {:induction false} SortedSchedule(input: string, out: seq<Time>, sorted: seq<Time>)
    requires Collected(Entries(Words(Spaced(input))), |Entries(Words(Spaced(input)))|, out)
    requires multiset(sorted) == multiset(out) && Ordered(sorted, MinuteOf)
    ensures IsSchedule(input, sorted)
  {
    hide Words, Spaced, Entries, ParseTime;
    forall t ensures t in sorted <==> t in out {
      assert t in sorted <==> t in multiset(sorted);
    }
    forall t | t in sorted ensures ValidTime(t) {
      var e :| 0 <= e < |Entries(Words(Spaced(input)))| && ParseTime(Entries(Words(Spaced(input)))[e]) == Some(t);
    }
    forall i, j | 0 <= i < j < |sorted| ensures MinuteOf(sorted[i]) < MinuteOf(sorted[j]) {
      DistinctStaysDistinct(out, sorted, i, j);
      assert sorted[i] in sorted && sorted[j] in sorted;
    }
  }

  lemma {:induction false} DistinctStaysDistinct(out: seq<Time>, sorted: seq<Time>, i: nat, j: nat)
    requires forall a, b :: 0 <= a < b < |out| ==> out[a] != out[b]
    requires multiset(sorted) == multiset(out) && i < j < |sorted|
    ensures sorted[i] != sorted[j]
  {
    if sorted[i] == sorted[j] {
      var x := sorted[i];
      var l, r := sorted[..j], sorted[j..];
      assert sorted == l + r;
      assert l[i] == x && r[0] == x;
      assert multiset(l)[x] >= 1 && multiset(r)[x] >= 1;
      CountDistinct(out, x);
      assert false;
    }
  }

  lemma {:induction false} CountDistinct(s: seq<Time>, x: Time)
    requires forall a, b :: 0 <= a < b < |s| ==> s[a] != s[b]
    ensures multiset(s)[x] <= 1
  {
    if s != [] {
      CountDistinct(s[1..], x);
      assert s == [s[0]] + s[1..];
      if s[0] == x {
        assert x !in s[1..];
      }
    }
  }

  method ParseSchedule(input: string) returns (schedule: seq<Time>)
    ensures IsSchedule(input, schedule)
  {
    var tokens := Words(Spaced(input));
    ghost var entries := Entries(tokens);
    var out: seq<Time> := [];
    var i := 0;
    ghost var k := 0;
    while i < |tokens|
      invariant i <= |tokens| && k <= |entries|
      invariant Entries(tokens[i..]) == entries[k..]
      invariant Collected(entries, k, out)
    {
      ghost var rest := tokens[i..];
      var token := tokens[i];
      var candidate: string;
      if i + 1 < |tokens| && IsAmPm(tokens[i + 1]) {
        candidate := token + " " + tokens[i + 1];
        assert rest[2..] == tokens[i + 2..];
        i := i + 2;
      } else {
        candidate := token;
        assert rest[1..] == tokens[i + 1..];
        i := i + 1;
      }
      assert candidate == entries[k..][0] && Entries(tokens[i..]) == entries[k..][1..];
      var parsed := ParseTime(candidate);
      ghost var before := out;
      if parsed.Some? && parsed.value !in out {
        out := out + [parsed.value];
      }
      CollectOne(entries, k, before, out);
      k := k + 1;
    }
    assert entries[k..] == [];
    schedule := SortByKey(out, MinuteOf);
    SortedSchedule(input, out, schedule);
  }

  lemma {:induction false} Inhabited(b: seq<Time>)
    requires b != []
    ensures exists t :: t in b
  {
    assert b[0] in b;
  }

  /** The contract determines the schedule. */
  lemma {:induction false} ScheduleUnique(a: seq<Time>, b: seq<Time>)
    requires StrictlyIncreasing(a) && StrictlyIncreasing(b)
    requires forall t :: t in a <==> t in b
    ensures a == b
    decreases |a|
  {
    if a == [] {
      if b != [] {
        Inhabited(b);
      }
    } else {
      assert a[0] in b;
      assert b != [] && b[0] in a;
      assert a[0] == b[0];
      assert forall i :: 0 <= i < |a[1..]| ==> a[1..][i] == a[i + 1] && MinuteOf(a[0]) < MinuteOf(a[i + 1]);
      assert forall i :: 0 <= i < |b[1..]| ==> b[1..][i] == b[i + 1] && MinuteOf(b[0]) < MinuteOf(b[i + 1]);
      forall t ensures t in a[1..] <==> t in b[1..] {
        assert t in a <==> t == a[0] || t in a[1..] by { assert a == [a[0]] + a[1..]; }
        assert t in b <==> t == b[0] || t in b[1..] by { assert b == [b[0]] + b[1..]; }
      }
      ScheduleUnique(a[1..], b[1..]);
      assert a == [a[0]] + a[1..] && b == [b[0]] + b[1..];
    }
  }

  // ---------------------------------------------------------------------------------------------
  // Printing and reading back
  // ---------------------------------------------------------------------------------------------

  function Clock(t: Time): string {
    PadDec(t.hour, 2) + ":" + PadDec(t.minute, 2)
  }

  /** "HH:MM, HH:MM", as the scheduler logs it. */
  function Display(times: seq<Time>): string {
    if times == [] then ""
    else if |times| == 1 then Clock(times[0])
    else Clock(times[0]) + ", " + Display(times[1..])
  }

  lemma {:induction false} ClockShape(t: Time)
    requires ValidTime(t)
    ensures var h, m := PadDec(t.hour, 2), PadDec(t.minute, 2);
            && AllDigits(h) && AllDigits(m) && |h| == 2 && |m| == 2 && ValueOf(h) == t.hour && ValueOf(m) == t.minute
            && Clock(t) == h + ":" + m
  {
    assert Pow10(2) == 100;
    PadDecMeaning(t.hour, 2);
    PadDecMeaning(t.minute, 2);
  }

  lemma {:induction false} ClockPlain(t: Time)
    requires ValidTime(t)
    ensures |Clock(t)| == 5 && NoWhitespace(Clock(t)) && Spaced(Clock(t)) == Clock(t) && !IsAmPm(Clock(t))
  {
    ClockShape(t);
    var c := Clock(t);
    assert forall i :: 0 <= i < 5 ==> IsDigit(c[i]) || c[i] == ':';
  }

  lemma {:induction false} ReadNumeral(s: string, n: nat)
    requires AllDigits(s) && |s| == 2 && ValueOf(s) == n
    ensures ParseU32(s) == Some(n)
  {
    assert s[0] != '+';
    assert Pow10(2) == 100;
    ValueBound(s);
  }

  lemma {:induction false} ParseClock(t: Time)
    requires ValidTime(t)
    ensures ParseTime(Clock(t)) == Some(t)
  {
    ClockPlain(t);
    WordsOfOne(Clock(t));
    ClockSplits(t);
  }

  /** The 12-hour reading of a time. */
  function Clock12(t: Time): string {
    Clock(Spoken(t)) + " " + Half(t)
  }

  lemma {:induction false} WordsOfTwo(a: string, b: string)
    requires a != "" && NoWhitespace(a) && b != "" && NoWhitespace(b)
    ensures Words(a + " " + b) == [a, b]
  {
    var rest := " " + b;
    assert a + " " + b == a + rest;
    WordsCons(a, rest);
    WordsOfOne(b);
    assert rest[1..] == b;
  }

  /** The hour as it is said, from 1 to 12, and the half of the day. */
  function Spoken(t: Time): Time {
    Time(if t.hour % 12 == 0 then 12 else t.hour % 12, t.minute)
  }

  function Half(t: Time): string {
    if t.hour < 12 then "AM" else "PM"
  }

  lemma HalfFacts(t: Time)
    ensures Half(t) != "" && NoWhitespace(Half(t)) && Upper(Half(t)) == Half(t)
  {
  }

  lemma HalfResolves(t: Time)
    requires ValidTime(t)
    ensures ResolveHour(Spoken(t).hour, Some(Half(t))) == Some(t.hour)
  {
  }

  /** Every time of the day is read back from its 12-hour form too, noon and midnight included. */
  lemma {:induction false} ParseClock12(t: Time)
    requires ValidTime(t)
    ensures ParseTime(Clock12(t)) == Some(t)
  {
    hide Clock, Half, PadDec, Words, SplitOn, ParseTime, ResolveHour;
    var spoken, half := Spoken(t), Half(t);
    ClockPlain(spoken);
    HalfFacts(t);
    WordsOfTwo(Clock(spoken), half);
    ClockSplits(spoken);
    HalfResolves(t);
    ParseHalf(Clock12(t), Clock(spoken), half, PadDec(spoken.hour, 2), PadDec(spoken.minute, 2), spoken.hour, spoken.minute);
  }

  lemma {:induction false} ClockSplits(t: Time)
    requires ValidTime(t)
    ensures SplitOn(Clock(t), ':') == [PadDec(t.hour, 2), PadDec(t.minute, 2)]
    ensures ParseU32(PadDec(t.hour, 2)) == Some(t.hour) && ParseU32(PadDec(t.minute, 2)) == Some(t.minute)
  {
    ClockShape(t);
    var h, m := PadDec(t.hour, 2), PadDec(t.minute, 2);
    SplitPrefix(h, m, ':');
    SplitNone(m, ':');
    ReadNumeral(h, t.hour);
    ReadNumeral(m, t.minute);
  }

  lemma ParseHalf(value: string, hm: string, half: string, h: string, m: string, hour: nat, minute: nat)
    requires Words(value) == [hm, half] && SplitOn(hm, ':') == [h, m] && Upper(half) == half
    requires ParseU32(h) == Some(hour) && ParseU32(m) == Some(minute) && minute <= 59
    ensures ParseTime(value) ==
      var resolved := ResolveHour(hour, Some(half));
      if resolved.None? then None else Some(Time(resolved.value, minute))
  {
  }

  lemma {:induction false} WordsOfOne(w: string)
    requires w != "" && NoWhitespace(w)
    ensures Words(w) == [w]
  {
    WordsCons(w, "");
    assert w + "" == w;
  }

  function Clocks(times: seq<Time>): (r: seq<string>)
    ensures |r| == |times|
  {
    seq(|times|, i requires 0 <= i < |times| => Clock(times[i]))
  }

  lemma SpacedConcat(a: string, b: string)
    ensures Spaced(a + b) == Spaced(a) + Spaced(b)
  {
  }

  lemma {:induction false} WordsAfterComma(c: string, rest: string)
    requires c != "" && NoWhitespace(c)
    ensures Words(c + "  " + rest) == [c] + Words(rest)
  {
    var gap := "  " + rest;
    assert c + "  " + rest == c + gap;
    WordsCons(c, gap);
    assert gap[1..] == " " + rest && (" " + rest)[1..] == rest;
    assert Words(gap) == Words(" " + rest) == Words(rest);
  }

  lemma {:induction false} DisplayWords(times: seq<Time>)
    requires forall t :: t in times ==> ValidTime(t)
    ensures Words(Spaced(Display(times))) == Clocks(times)
  {
    hide Clock;
    if times != [] {
      var c, rest := Clock(times[0]), Display(times[1..]);
      ClockPlain(times[0]);
      assert Clocks(times) == [c] + Clocks(times[1..]);
      if |times| == 1 {
        WordsOfOne(c);
      } else {
        DisplayWords(times[1..]);
        SpacedConcat(c + ", ", rest);
        SpacedConcat(c, ", ");
        assert Spaced(", ") == "  ";
        WordsAfterComma(c, Spaced(rest));
      }
    }
  }

  lemma {:induction false} NoAmPmEntries(tokens: seq<string>)
    requires forall i :: 0 <= i < |tokens| ==> !IsAmPm(tokens[i])
    ensures Entries(tokens) == tokens
  {
    if tokens != [] {
      NoAmPmEntries(tokens[1..]);
    }
  }

  lemma {:induction false} DisplayDenotes(times: seq<Time>, t: Time)
    requires forall x :: x in times ==> ValidTime(x)
    ensures Denotes(Display(times), t) <==> t in times
  {
    DisplayWords(times);
    var entries := Clocks(times);
    forall i | 0 <= i < |times| ensures !IsAmPm(entries[i]) && ParseTime(entries[i]) == Some(times[i]) {
      assert times[i] in times;
      ClockPlain(times[i]);
      ParseClock(times[i]);
    }
    NoAmPmEntries(entries);
    if t in times {
      var i :| 0 <= i < |times| && times[i] == t;
      assert ParseTime(entries[i]) == Some(t);
    }
  }

  /** Reading the printed form of any schedule gives the schedule back. */
  lemma {:induction false} DisplayRoundTrip(times: seq<Time>, read: seq<Time>)
    requires StrictlyIncreasing(times) && forall t :: t in times ==> ValidTime(t)
    requires IsSchedule(Display(times), read)
    ensures read == times
  {
    forall t ensures t in read <==> t in times {
      DisplayDenotes(times, t);
    }
    ScheduleUnique(read, times);
  }

  // ---------------------------------------------------------------------------------------------
  // Schedules as people write them
  // ---------------------------------------------------------------------------------------------

  /** One thing in a schedule text: a time with any numerals, perhaps with a half of the day, or something else. */
  datatype Written = Plain(hour: string, minute: string) | Halved(hour: string, minute: string, half: string) | Other(word: string)

  predicate Numeral(s: string) {
    s != "" && AllDigits(s)
  }

  predicate Am(half: string) {
    half == "AM" || half == "Am" || half == "aM" || half == "am"
  }

  predicate Pm(half: string) {
    half == "PM" || half == "Pm" || half == "pM" || half == "pm"
  }

  /** A word that is neither a time nor a half of the day. */
  predicate Word(s: string) {
    s != "" && !Am(s) && !Pm(s) && forall i :: 0 <= i < |s| ==> !Separator(s[i]) && s[i] != ':'
  }

  predicate WellWritten(w: Written) {
    match w
    case Plain(h, m) => Numeral(h) && Numeral(m)
    case Halved(h, m, half) => Numeral(h) && Numeral(m) && (Am(half) || Pm(half))
    case Other(word) => Word(word)
  }

  /** The time that is written, if what is written is one. */
  function Meaning(w: Written): Option<Time>
    requires WellWritten(w)
  {
    match w
    case Plain(h, m) =>
      if ValueOf(h) < 24 && ValueOf(m) < 60 then Some(Time(ValueOf(h), ValueOf(m))) else None
    case Halved(h, m, half) =>
      if ValueOf(h) <= 12 && ValueOf(m) < 60 then Some(Time(ValueOf(h) % 12 + if Pm(half) then 12 else 0, ValueOf(m))) else None
    case Other(_) => None
  }

  function WordsOf(w: Written): seq<string> {
    match w
    case Plain(h, m) => [h + ":" + m]
    case Halved(h, m, half) => [h + ":" + m, half]
    case Other(word) => [word]
  }

  function EntryOf(w: Written): string {
    match w
    case Plain(h, m) => h + ":" + m
    case Halved(h, m, half) => h + ":" + m + " " + half
    case Other(word) => word
  }

  function AllWords(ws: seq<Written>): seq<string> {
    if ws == [] then [] else WordsOf(ws[0]) + AllWords(ws[1..])
  }

  predicate Separator(c: char) {
    c == ',' || c == ';' || IsWhitespace(c)
  }

  /** The words with gaps before, between and after them. */
  function Laid(words: seq<string>, gaps: seq<string>): string
    requires |gaps| == |words| + 1
  {
    if words == [] then gaps[0] else gaps[0] + words[0] + Laid(words[1..], gaps[1..])
  }

  /** Gaps are made of commas, semicolons and whitespace; between two words there is one. */
  predicate GapsOk(words: seq<string>, gaps: seq<string>) {
    && |gaps| == |words| + 1
    && (forall i :: 0 <= i < |gaps| ==> AllSeparators(gaps[i]))
    && (forall i :: 1 <= i < |words| ==> gaps[i] != "")
  }

  predicate AllSeparators(s: string) {
    forall i :: 0 <= i < |s| ==> Separator(s[i])
  }

  predicate NoSeparators(s: string) {
    forall i :: 0 <= i < |s| ==> !Separator(s[i])
  }

  lemma {:induction false} GapSkipped(gap: string, rest: string)
    requires AllSeparators(gap)
    ensures Words(Spaced(gap) + rest) == Words(rest)
  {
    if gap == "" {
      assert Spaced(gap) + rest == rest;
    } else {
      var all := Spaced(gap) + rest;
      assert all[1..] == Spaced(gap[1..]) + rest;
      GapSkipped(gap[1..], rest);
      assert IsWhitespace(all[0]);
    }
  }

  lemma {:induction false} WordStays(word: string)
    requires NoSeparators(word)
    ensures Spaced(word) == word && NoWhitespace(word)
  {
  }

  lemma {:induction false} GapStart(gap: string, rest: string)
    requires AllSeparators(gap) && gap != ""
    ensures Spaced(gap) + rest != "" && IsWhitespace((Spaced(gap) + rest)[0])
  {
    assert Separator(gap[0]);
  }

  /** Any text of words and gaps is taken apart into exactly those words. */
  lemma {:induction false} LaidWords(words: seq<string>, gaps: seq<string>)
    requires GapsOk(words, gaps) && forall i :: 0 <= i < |words| ==> words[i] != "" && NoSeparators(words[i])
    ensures Words(Spaced(Laid(words, gaps))) == words
    decreases |words|
  {
    hide Spaced, Words, Separator;
    if words == [] {
      GapSkipped(gaps[0], "");
      assert Spaced(gaps[0]) + "" == Spaced(gaps[0]);
      EmptyWords();
    } else {
      var word, rest := words[0], Laid(words[1..], gaps[1..]);
      LaidWords(words[1..], gaps[1..]);
      WordStays(word);
      SpacedConcat(gaps[0] + word, rest);
      SpacedConcat(gaps[0], word);
      assert Spaced(gaps[0]) + word + Spaced(rest) == Spaced(gaps[0]) + (word + Spaced(rest));
      GapSkipped(gaps[0], word + Spaced(rest));
      RestStartsWithGap(words[1..], gaps[1..]);
      WordsCons(word, Spaced(rest));
    }
  }

  lemma EmptyWords()
    ensures Words("") == []
  {
  }

  lemma {:induction false} RestStartsWithGap(words: seq<string>, gaps: seq<string>)
    requires |gaps| == |words| + 1 && AllSeparators(gaps[0]) && (words != [] ==> gaps[0] != "")
    ensures var rest := Spaced(Laid(words, gaps)); rest != [] ==> IsWhitespace(rest[0])
  {
    if words == [] {
      if gaps[0] != "" {
        GapStart(gaps[0], "");
        assert Spaced(gaps[0]) + "" == Spaced(gaps[0]);
      }
    } else {
      var tail := words[0] + Laid(words[1..], gaps[1..]);
      assert Laid(words, gaps) == gaps[0] + tail;
      SpacedConcat(gaps[0], tail);
      GapStart(gaps[0], Spaced(tail));
    }
  }

  lemma {:induction false} HalfWords(s: string)
    ensures IsAmPm(s) <==> Am(s) || Pm(s)
    ensures Am(s) ==> Upper(s) == "AM"
    ensures Pm(s) ==> Upper(s) == "PM"
    ensures Am(s) || Pm(s) ==> NoSeparators(s) && s != ""
  {
    if |s| == 2 {
      assert s == [s[0], s[1]];
      assert Upper(s) == [UpperChar(s[0]), UpperChar(s[1])];
    }
  }

  lemma {:induction false} ClockWord(h: string, m: string)
    requires Numeral(h) && Numeral(m)
    ensures var w := h + ":" + m; w != "" && NoSeparators(w) && !IsAmPm(w)
  {
    var w := h + ":" + m;
    assert forall i :: 0 <= i < |w| ==> IsDigit(w[i]) || w[i] == ':';
    assert w[0] == h[0] && IsDigit(w[0]);
    HalfWords(w);
  }

  lemma {:induction false} FirstIsNoHalf(ws: seq<Written>)
    requires forall i :: 0 <= i < |ws| ==> WellWritten(ws[i])
    ensures AllWords(ws) != [] ==> !IsAmPm(AllWords(ws)[0])
  {
    if ws != [] {
      var w := ws[0];
      if w.Other? {
        HalfWords(w.word);
      } else {
        ClockWord(w.hour, w.minute);
      }
    }
  }

  function EntriesOf(ws: seq<Written>): (r: seq<string>)
    ensures |r| == |ws|
  {
    seq(|ws|, i requires 0 <= i < |ws| => EntryOf(ws[i]))
  }

  /** A half of the day goes with the time before it, and everything else stands alone. */
  lemma {:induction false} WordsPair(ws: seq<Written>)
    requires forall i :: 0 <= i < |ws| ==> WellWritten(ws[i])
    ensures Entries(AllWords(ws)) == EntriesOf(ws)
  {
    hide IsAmPm;
    if ws != [] {
      var w, rest := ws[0], AllWords(ws[1..]);
      WordsPair(ws[1..]);
      FirstIsNoHalf(ws[1..]);
      var all := AllWords(ws);
      assert EntriesOf(ws) == [EntryOf(w)] + EntriesOf(ws[1..]);
      if w.Halved? {
        HalfWords(w.half);
        assert all[2..] == rest && all[0] + " " + all[1] == EntryOf(w);
      } else {
        assert all[1..] == rest && all[0] == EntryOf(w);
        assert |all| > 1 ==> all[1] == rest[0];
      }
    }
  }

  lemma {:induction false} WordsAreWords(ws: seq<Written>)
    requires forall i :: 0 <= i < |ws| ==> WellWritten(ws[i])
    ensures forall i :: 0 <= i < |AllWords(ws)| ==> AllWords(ws)[i] != "" && NoSeparators(AllWords(ws)[i])
  {
    if ws != [] {
      var w := ws[0];
      WordsAreWords(ws[1..]);
      match w
      case Plain(h, m) => ClockWord(h, m);
      case Halved(h, m, half) =>
        ClockWord(h, m);
        HalfWords(half);
      case Other(_) =>
    }
  }

  lemma {:induction false} ReadAnyNumeral(s: string)
    requires Numeral(s)
    ensures ParseU32(s) == if ValueOf(s) <= U32_MAX then Some(ValueOf(s)) else None
  {
    assert IsDigit(s[0]);
  }

  lemma {:induction false} ClockParts(h: string, m: string)
    requires Numeral(h) && Numeral(m)
    ensures SplitOn(h + ":" + m, ':') == [h, m]
  {
    SplitPrefix(h, m, ':');
    SplitNone(m, ':');
  }

  lemma {:induction false} ReadPlain(h: string, m: string)
    requires Numeral(h) && Numeral(m)
    ensures ParseTime(h + ":" + m) == Meaning(Plain(h, m))
  {
    hide Words, SplitOn, ParseU32, ValueOf;
    ClockWord(h, m);
    WordStays(h + ":" + m);
    WordsOfOne(h + ":" + m);
    ClockParts(h, m);
    ReadAnyNumeral(h);
    ReadAnyNumeral(m);
  }

  lemma {:induction false} ReadHalved(h: string, m: string, half: string)
    requires Numeral(h) && Numeral(m) && (Am(half) || Pm(half))
    ensures ParseTime(h + ":" + m + " " + half) == Meaning(Halved(h, m, half))
  {
    hide Words, SplitOn, ParseU32, ValueOf, Upper;
    ClockWord(h, m);
    WordStays(h + ":" + m);
    HalfWords(half);
    WordStays(half);
    WordsOfTwo(h + ":" + m, half);
    ClockParts(h, m);
    ReadAnyNumeral(h);
    ReadAnyNumeral(m);
  }

  lemma {:induction false} ReadOther(word: string)
    requires Word(word)
    ensures ParseTime(word) == None
  {
    hide Words, SplitOn, Separator;
    WordStays(word);
    WordsOfOne(word);
    SplitNone(word, ':');
  }

  lemma {:induction false} ReadWritten(w: Written)
    requires WellWritten(w)
    ensures ParseTime(EntryOf(w)) == Meaning(w)
  {
    hide ParseTime, Meaning;
    match w
    case Plain(h, m) => ReadPlain(h, m);
    case Halved(h, m, half) => ReadHalved(h, m, half);
    case Other(word) =>
      ReadOther(word);
      OtherMeansNothing(word);
  }

  lemma OtherMeansNothing(word: string)
    requires Word(word)
    ensures Meaning(Other(word)) == None
  {
  }

  /** Some of what is written means this time. */
  ghost predicate Means(ws: seq<Written>, t: Time)
    requires forall i :: 0 <= i < |ws| ==> WellWritten(ws[i])
  {
    exists i :: 0 <= i < |ws| && Meaning(ws[i]) == Some(t)
  }

  /**
   Whatever times, in 24-hour or 12-hour form, in any numerals and either case of AM and PM, and
   whatever other words are laid out with commas, semicolons and whitespace between them, the
   schedule read from the text has exactly the times that were written, in order.
   */
  lemma {:induction false} WrittenScheduleReads(ws: seq<Written>, gaps: seq<string>, read: seq<Time>)
    requires forall i :: 0 <= i < |ws| ==> WellWritten(ws[i])
    requires GapsOk(AllWords(ws), gaps) && IsSchedule(Laid(AllWords(ws), gaps), read)
    ensures StrictlyIncreasing(read) && forall t :: t in read <==> Means(ws, t)
  {
    hide ParseTime, Meaning, Words, Entries, Spaced, Laid, AllWords, WellWritten, StrictlyIncreasing;
    var text := Laid(AllWords(ws), gaps);
    WordsAreWords(ws);
    LaidWords(AllWords(ws), gaps);
    WordsPair(ws);
    assert Entries(Words(Spaced(text))) == EntriesOf(ws);
    forall i | 0 <= i < |ws| ensures ParseTime(EntriesOf(ws)[i]) == Meaning(ws[i]) {
      ReadWritten(ws[i]);
    }
    forall t ensures t in read <==> Means(ws, t) {
      assert t in read <==> Denotes(text, t);
      if Denotes(text, t) {
        var k :| 0 <= k < |EntriesOf(ws)| && ParseTime(EntriesOf(ws)[k]) == Some(t);
        assert Meaning(ws[k]) == Some(t);
      }
      if Means(ws, t) {
        var k :| 0 <= k < |ws| && Meaning(ws[k]) == Some(t);
        assert ParseTime(EntriesOf(ws)[k]) == Some(t);
      }
    }
  }

  /** The source's own example. */
  lemma {:induction false} ExampleSchedule(read: seq<Time>)
    requires IsSchedule("8:00 AM, 5:30 PM", read)
    ensures read == [Time(8, 0), Time(17, 30)]
  {
    hide IsSchedule;
    var a, b := Halved("8", "00", "AM"), Halved("5", "30", "PM");
    var ws, gaps := [a, b], ["", " ", ", ", " ", ""];
    ExampleValues();
    ExampleWords();
    ExampleText();
    WrittenScheduleReads(ws, gaps, read);
    forall t ensures t in read <==> t in [Time(8, 0), Time(17, 30)] {
      if t in read {
        var i :| 0 <= i < 2 && Meaning(ws[i]) == Some(t);
      }
      assert Meaning(ws[0]) == Some(Time(8, 0)) && Meaning(ws[1]) == Some(Time(17, 30));
    }
    ScheduleUnique(read, [Time(8, 0), Time(17, 30)]);
  }

  lemma {:induction false} ExampleValues()
    ensures ValueOf("8") == 8 && ValueOf("00") == 0 && ValueOf("5") == 5 && ValueOf("30") == 30
  {
    assert "8"[..0] == "" && "00"[..1] == "0" && "0"[..0] == "" && "5"[..0] == "" && "30"[..1] == "3" && "3"[..0] == "";
  }

  lemma {:induction false} ExampleWords()
    ensures AllWords([Halved("8", "00", "AM"), Halved("5", "30", "PM")]) == ["8:00", "AM", "5:30", "PM"]
  {
    var a, b := Halved("8", "00", "AM"), Halved("5", "30", "PM");
    assert "8" + ":" + "00" == "8:00" && "5" + ":" + "30" == "5:30";
    assert [a, b][1..] == [b] && [b][1..] == [];
    assert AllWords([b]) == ["5:30", "PM"];
  }

  lemma {:induction false} LaidCons(word: string, gap: string, words: seq<string>, gaps: seq<string>)
    requires |gaps| == |words| + 1
    ensures Laid([word] + words, [gap] + gaps) == gap + word + Laid(words, gaps)
  {
    assert ([word] + words)[1..] == words && ([gap] + gaps)[1..] == gaps;
  }

  lemma {:induction false} ExampleTail()
    ensures Laid(["5:30", "PM"], [", ", " ", ""]) == ", 5:30 PM"
  {
    hide Laid;
    LaidCons("PM", " ", [], [""]);
    LaidCons("5:30", ", ", ["PM"], [" ", ""]);
    assert Laid([], [""]) == "" by { NoWords(""); }
    assert [] + ["PM"] == ["PM"] + [] == ["PM"] && ["5:30"] + ["PM"] == ["5:30", "PM"];
    assert [" "] + [""] == [" ", ""] && [", "] + [" ", ""] == [", ", " ", ""];
  }

  lemma {:induction false} NoWords(gap: string)
    ensures Laid([], [gap]) == gap
  {
    assert [gap][0] == gap;
  }

  lemma {:induction false} ExampleText()
    ensures var words, gaps := ["8:00", "AM", "5:30", "PM"], ["", " ", ", ", " ", ""];
            GapsOk(words, gaps) && Laid(words, gaps) == "8:00 AM, 5:30 PM"
  {
    hide Laid;
    ExampleTail();
    LaidCons("AM", " ", ["5:30", "PM"], [", ", " ", ""]);
    LaidCons("8:00", "", ["AM", "5:30", "PM"], [" ", ", ", " ", ""]);
    assert ["AM"] + ["5:30", "PM"] == ["AM", "5:30", "PM"] && [" "] + [", ", " ", ""] == [" ", ", ", " ", ""];
    assert ["8:00"] + ["AM", "5:30", "PM"] == ["8:00", "AM", "5:30", "PM"];
    assert [""] + [" ", ", ", " ", ""] == ["", " ", ", ", " ", ""];
  }

  /** The value is written as these numerals with or without a half. */
  predicate ReadAs(value: string, h: string, m: string, half: Option<string>) {
    ':' !in h && ':' !in m && Words(value) == [h + ":" + m] + if half.Some? then [half.value] else []
  }

  predicate HourMeans(said: nat, half: Option<string>, hour: nat) {
    if half.None? then said < 24 && hour == said
    else said <= 12 && ((Am(half.value) && hour == said % 12) || (Pm(half.value) && hour == said % 12 + 12))
  }

  lemma {:induction false} HourExactly(said: nat, half: Option<string>, hour: nat)
    ensures ResolveHour(said, if half.Some? then Some(Upper(half.value)) else None) == Some(hour) <==> HourMeans(said, half, hour)
  {
    hide Upper;
    if half.Some? {
      HalfWords(half.value);
      ResolveHourMeaning(said, Upper(half.value));
    }
  }

  lemma {:induction false} TwoPieces(s: string)
    ensures |SplitOn(s, ':')| == 2 <==> exists h, m :: ':' !in h && ':' !in m && s == h + ":" + m
    ensures |SplitOn(s, ':')| == 2 ==>
      var hm := SplitOn(s, ':'); ':' !in hm[0] && ':' !in hm[1] && s == hm[0] + ":" + hm[1]
  {
    JoinSplit(s, ':');
    var hm := SplitOn(s, ':');
    if |hm| == 2 {
      assert hm[1..] == [hm[1]];
      assert Join(hm, ':') == hm[0] + [':'] + Join([hm[1]], ':');
      assert s == hm[0] + ":" + hm[1];
    }
    if h, m :| ':' !in h && ':' !in m && s == h + ":" + m {
      SplitPrefix(h, m, ':');
      SplitNone(m, ':');
    }
  }

  predicate Tells(value: string, h: string, m: string, half: Option<string>, t: Time) {
    && ReadAs(value, h, m, half) && ParseU32(h).Some? && HourMeans(ParseU32(h).value, half, t.hour)
    && ParseU32(m) == Some(t.minute) && t.minute < 60
  }

  /** A text denotes a time exactly when it is two numerals around one colon, on the clock face, with at most a half after them. */
  lemma {:induction false} ParseTimeExactly(value: string, t: Time)
    ensures ParseTime(value) == Some(t) <==> exists h, m, half :: Tells(value, h, m, half, t)
  {
    hide Words, SplitOn, ParseU32, ResolveHour, Upper, HourMeans;
    if ParseTime(value) == Some(t) {
      var parts := Words(value);
      TwoPieces(parts[0]);
      var hm := SplitOn(parts[0], ':');
      var half := if |parts| == 2 then Some(parts[1]) else None;
      HourExactly(ParseU32(hm[0]).value, half, t.hour);
      assert Tells(value, hm[0], hm[1], half, t);
    }
    if h, m, half :| Tells(value, h, m, half, t) {
      HourExactly(ParseU32(h).value, half, t.hour);
      SplitPrefix(h, m, ':');
      SplitNone(m, ':');
    }
  }

  // ---------------------------------------------------------------------------------------------
  // The timer
  // ---------------------------------------------------------------------------------------------

  /** "{year}-{day_of_year}-{hour:02}:{minute:02}". */
  function FireKey(now: Stamp): string {
    DayKey(now.day) + "-" + PadDec(now.hour, 2) + ":" + PadDec(now.minute, 2)
  }

  lemma {:induction false} ReadablePads()
    ensures PadDec(9, 2) == "09" && PadDec(5, 2) == "05" && PadDec(8, 2) == "08" && PadDec(0, 2) == "00"
    ensures PadDec(17, 2) == "17" && PadDec(30, 2) == "30"
  {
    assert Dec(9) == "9" && Dec(5) == "5" && Dec(8) == "8" && Dec(0) == "0" && Dec(1) == "1" && Dec(3) == "3";
    assert Dec(17) == "17" && Dec(30) == "30";
  }

  /** A key as it is remembered. */
  lemma {:induction false} ReadableFireKey()
    ensures FireKey(Stamp(Day(2024, 7), 9, 5, 0)) == "2024-7-09:05"
  {
    hide DayKey, PadDec;
    ReadableKey();
    ReadablePads();
  }

  /** A schedule as it is logged. */
  lemma {:induction false} ReadableDisplay()
    ensures Display([Time(8, 0), Time(17, 30)]) == "08:00, 17:30"
  {
    hide PadDec;
    ReadablePads();
    assert Clock(Time(8, 0)) == "08:00" && Clock(Time(17, 30)) == "17:30";
    assert [Time(8, 0), Time(17, 30)][1..] == [Time(17, 30)];
    assert Display([Time(17, 30)]) == "17:30";
  }

  predicate Scheduled(times: seq<Time>, now: Stamp) {
    Time(now.hour, now.minute) in times
  }

  /** `last` is the key remembered across ticks; `sent` are the samples at which a save was sent. */
  datatype Timer = Timer(last: Option<string>, sent: seq<Stamp>)

  function Tick(times: seq<Time>, s: Timer, now: Stamp): Timer {
    if !Scheduled(times, now) || s.last == Some(FireKey(now)) then s
    else Timer(Some(FireKey(now)), s.sent + [now])
  }

  function RunTimer(times: seq<Time>, samples: seq<Stamp>): Timer {
    if samples == [] then Timer(None, [])
    else Tick(times, RunTimer(times, samples[..|samples| - 1]), samples[|samples| - 1])
  }

  lemma {:induction false} SentGrows(times: seq<Time>, samples: seq<Stamp>, n: nat)
    requires n <= |samples|
    ensures RunTimer(times, samples[..n]).sent <= RunTimer(times, samples).sent
    decreases |samples|
  {
    if n < |samples| {
      var before := samples[..|samples| - 1];
      SentGrows(times, before, n);
      assert before[..n] == samples[..n];
    } else {
      assert samples[..n] == samples;
    }
  }

  method FindTarget(times: seq<Time>, now: Stamp) returns (found: bool)
    ensures found <==> Scheduled(times, now)
  {
    for i := 0 to |times|
      invariant Time(now.hour, now.minute) !in times[..i]
    {
      if times[i].hour == now.hour && times[i].minute == now.minute {
        return true;
      }
    }
    return false;
  }

  /** The loop, over any finite stretch of samples. The receiver takes `accepted` sends and is then gone. */
  method TimerLoop(times: seq<Time>, samples: seq<Stamp>, accepted: nat) returns (sent: seq<Stamp>, closed: bool)
    ensures closed <==> |RunTimer(times, samples).sent| > accepted
    ensures sent == if closed then RunTimer(times, samples).sent[..accepted] else RunTimer(times, samples).sent
  {
    hide FireKey, Scheduled;
    sent, closed := [], false;
    var lastFiredKey: Option<string> := None;
    for n := 0 to |samples|
      invariant Timer(lastFiredKey, sent) == RunTimer(times, samples[..n]) && |sent| <= accepted
    {
      assert samples[..n + 1][..n] == samples[..n];
      var now := samples[n];
      var found := FindTarget(times, now);
      if found {
        var key := FireKey(now);
        if lastFiredKey == Some(key) {
          continue;
        }
        lastFiredKey := Some(key);
        if |sent| == accepted {
          SentGrows(times, samples, n + 1);
          return sent, true;
        }
        sent := sent + [now];
      }
    }
    assert samples[..|samples|] == samples;
  }

  lemma {:induction false} FireKeyInjective(a: Stamp, b: Stamp)
    requires ValidStamp(a) && ValidStamp(b) && FireKey(a) == FireKey(b)
    ensures MinuteIndex(a) == MinuteIndex(b)
  {
    assert Pow10(2) == 100;
    PadDecMeaning(a.hour, 2);
    PadDecMeaning(b.hour, 2);
    PadDecMeaning(a.minute, 2);
    PadDecMeaning(b.minute, 2);
    var p, q := DayKey(a.day) + "-" + PadDec(a.hour, 2), DayKey(b.day) + "-" + PadDec(b.hour, 2);
    LastSeparator(p, q, PadDec(a.minute, 2), PadDec(b.minute, 2), ':');
    LastSeparator(DayKey(a.day), DayKey(b.day), PadDec(a.hour, 2), PadDec(b.hour, 2), '-');
    DayKeyInjective(a.day, b.day);
  }

  lemma {:induction false} FireKeySame(a: Stamp, b: Stamp)
    requires ValidStamp(a) && ValidStamp(b) && MinuteIndex(a) == MinuteIndex(b)
    ensures FireKey(a) == FireKey(b) && a.hour == b.hour && a.minute == b.minute
  {
    SameMinute(a, b);
  }

  function SentIn(sent: seq<Stamp>, minute: int): nat {
    if sent == [] then 0
    else SentIn(sent[..|sent| - 1], minute) + if MinuteIndex(sent[|sent| - 1]) == minute then 1 else 0
  }

  /** Valid samples of a local clock that never goes back. */
  predicate Forward(samples: seq<Stamp>) {
    && (forall i :: 0 <= i < |samples| ==> ValidStamp(samples[i]))
    && (forall i, j :: 0 <= i < j < |samples| ==> Instant(samples[i]) <= Instant(samples[j]))
  }

  ghost predicate SampledIn(times: seq<Time>, samples: seq<Stamp>, minute: int) {
    exists i :: 0 <= i < |samples| && MinuteIndex(samples[i]) == minute && Scheduled(times, samples[i])
  }

  /** What the timer keeps, for one minute. */
  ghost predicate Counted(times: seq<Time>, samples: seq<Stamp>, s: Timer, minute: int) {
    && SentIn(s.sent, minute) == (if SampledIn(times, samples, minute) then 1 else 0)
    && (s.sent == [] <==> s.last == None)
    && (s.sent != [] ==> s.last == Some(FireKey(s.sent[|s.sent| - 1])) && ValidStamp(s.sent[|s.sent| - 1]))
    && (samples != [] && MinuteIndex(samples[|samples| - 1]) == minute && Scheduled(times, samples[|samples| - 1]) ==>
          s.sent != [] && MinuteIndex(s.sent[|s.sent| - 1]) == minute)
    && (s.sent != [] ==> samples != [])
  }

  lemma {:induction false} SampledSplits(times: seq<Time>, samples: seq<Stamp>, minute: int)
    requires samples != []
    ensures var n := |samples| - 1;
            SampledIn(times, samples, minute) <==>
              SampledIn(times, samples[..n], minute) || (MinuteIndex(samples[n]) == minute && Scheduled(times, samples[n]))
  {
    var n := |samples| - 1;
    assert forall i :: 0 <= i < n ==> samples[..n][i] == samples[i];
    if SampledIn(times, samples, minute) {
      var i :| 0 <= i <= n && MinuteIndex(samples[i]) == minute && Scheduled(times, samples[i]);
      if i < n {
        assert MinuteIndex(samples[..n][i]) == minute;
      }
    }
  }

  lemma MinutesForward(a: Stamp, b: Stamp)
    requires ValidStamp(a) && ValidStamp(b) && Instant(a) <= Instant(b)
    ensures MinuteIndex(a) <= MinuteIndex(b)
  {
  }

  /** A minute sampled before and sampled now was also the minute of the sample just before. */
  lemma {:induction false} MinuteStaysCurrent(times: seq<Time>, samples: seq<Stamp>, minute: int)
    requires samples != [] && Forward(samples)
    requires SampledIn(times, samples[..|samples| - 1], minute) && MinuteIndex(samples[|samples| - 1]) == minute
    ensures |samples| > 1 && MinuteIndex(samples[|samples| - 2]) == minute && Scheduled(times, samples[|samples| - 2])
  {
    hide MinuteIndex, Instant;
    var n := |samples| - 1;
    var i :| 0 <= i < n && MinuteIndex(samples[..n][i]) == minute && Scheduled(times, samples[..n][i]);
    assert samples[..n][i] == samples[i];
    if i < n - 1 {
      MinutesForward(samples[i], samples[n - 1]);
      MinutesForward(samples[n - 1], samples[n]);
      FireKeySame(samples[i], samples[n - 1]);
    }
  }

  lemma {:induction false} SentAppend(sent: seq<Stamp>, now: Stamp, minute: int)
    ensures SentIn(sent + [now], minute) == SentIn(sent, minute) + if MinuteIndex(now) == minute then 1 else 0
  {
    assert (sent + [now])[..|sent|] == sent;
  }

  lemma {:induction false} LastSentCounts(sent: seq<Stamp>)
    requires sent != []
    ensures SentIn(sent, MinuteIndex(sent[|sent| - 1])) >= 1
  {
  }

  lemma {:induction false} TickCounts(times: seq<Time>, samples: seq<Stamp>, s: Timer, minute: int)
    requires samples != [] && Forward(samples)
    requires Counted(times, samples[..|samples| - 1], s, minute)
    ensures Counted(times, samples, Tick(times, s, samples[|samples| - 1]), minute)
  {
    hide FireKey, MinuteIndex, SampledIn, SentIn;
    var n := |samples| - 1;
    var now := samples[n];
    SampledSplits(times, samples, minute);
    SentAppend(s.sent, now, minute);
    if MinuteIndex(now) == minute && Scheduled(times, now) {
      if s.last == Some(FireKey(now)) {
        FireKeyInjective(s.sent[|s.sent| - 1], now);
        LastSentCounts(s.sent);
      } else if SampledIn(times, samples[..n], minute) {
        MinuteStaysCurrent(times, samples, minute);
        assert samples[..n][n - 1] == samples[n - 1];
        FireKeySame(s.sent[|s.sent| - 1], now);
      }
    }
  }

  lemma {:induction false} RunCounts(times: seq<Time>, samples: seq<Stamp>, minute: int)
    requires Forward(samples)
    ensures Counted(times, samples, RunTimer(times, samples), minute)
  {
    if samples != [] {
      RunCounts(times, samples[..|samples| - 1], minute);
      TickCounts(times, samples, RunTimer(times, samples[..|samples| - 1]), minute);
    }
  }

  /** A clock minute sends exactly one save if some sample falls in it and it is scheduled, and otherwise none. */
  lemma {:induction false} ExactlyOnePerSampledMinute(times: seq<Time>, samples: seq<Stamp>, minute: int)
    requires Forward(samples)
    ensures SentIn(RunTimer(times, samples).sent, minute) == if SampledIn(times, samples, minute) then 1 else 0
  {
    RunCounts(times, samples, minute);
  }

  predicate AtMostAMinuteApart(samples: seq<Stamp>) {
    forall i :: 0 <= i < |samples| - 1 ==> Instant(samples[i + 1]) - Instant(samples[i]) <= MINUTE
  }

  /** Samples at most a minute apart cannot jump over a whole minute. */
  lemma {:induction false} MinuteIsSampled(samples: seq<Stamp>, minute: int)
    requires Forward(samples) && AtMostAMinuteApart(samples) && samples != []
    requires Instant(samples[0]) < minute * MINUTE <= Instant(samples[|samples| - 1])
    ensures exists i :: 0 <= i < |samples| && MinuteIndex(samples[i]) == minute
  {
    var n := |samples| - 1;
    if Instant(samples[n - 1]) >= minute * MINUTE {
      var before := samples[..n];
      assert forall i :: 0 <= i < n ==> before[i] == samples[i];
      MinuteIsSampled(before, minute);
      var i :| 0 <= i < n && MinuteIndex(before[i]) == minute;
      assert MinuteIndex(samples[i]) == minute;
    } else {
      assert Instant(samples[n]) - Instant(samples[n - 1]) <= MINUTE;
      InMinute(samples[n], minute);
    }
  }

  lemma InMinute(s: Stamp, minute: int)
    requires ValidStamp(s) && minute * MINUTE <= Instant(s) < (minute + 1) * MINUTE
    ensures MinuteIndex(s) == minute
  {
  }

  lemma {:induction false} TimeOfMinute(s: Stamp, minute: int)
    requires ValidStamp(s) && MinuteIndex(s) == minute
    ensures s.hour == minute % 1440 / 60 && s.minute == minute % 60
  {
    MinuteParts(Ordinal(s.day), s.hour, s.minute);
  }

  lemma {:induction false} MinuteParts(day: int, h: nat, m: nat)
    requires h < 24 && m < 60
    ensures (day * 1440 + h * 60 + m) % 1440 / 60 == h && (day * 1440 + h * 60 + m) % 60 == m
  {
    assert (day * 1440 + h * 60 + m) % 1440 == h * 60 + m;
    assert day * 1440 + h * 60 + m == 60 * (24 * day + h) + m;
  }

  /**
   With samples at most a minute apart on a clock that never goes back, every scheduled minute that
   starts after the first sample and no later than the last one sends exactly one save.
   */
  lemma {:induction false} EveryScheduledMinuteFiresOnce(times: seq<Time>, samples: seq<Stamp>, minute: int)
    requires Forward(samples) && AtMostAMinuteApart(samples) && samples != []
    requires Instant(samples[0]) < minute * MINUTE <= Instant(samples[|samples| - 1])
    requires Time(minute % 1440 / 60, minute % 60) in times
    ensures SentIn(RunTimer(times, samples).sent, minute) == 1
  {
    MinuteIsSampled(samples, minute);
    var i :| 0 <= i < |samples| && MinuteIndex(samples[i]) == minute;
    TimeOfMinute(samples[i], minute);
    ExactlyOnePerSampledMinute(times, samples, minute);
  }
}
