/**
 Time verification: the median of the accepted NTP offsets, and why a minority of wrong servers
 cannot move it out of the range of the others.
 */
module TimeSync {
  import opened Text
  import opened Sorting

  const MAX_ACCEPTED_OFFSET_MS: int := 120_000

  datatype TimeSyncResult = TimeSyncResult(offsetMs: int, samples: nat)

  predicate Plausible(offset: int) {
    -MAX_ACCEPTED_OFFSET_MS <= offset <= MAX_ACCEPTED_OFFSET_MS
  }

  /** The offsets that answered and are within two minutes; `None` is a server that failed. */
  function AcceptedOffsets(samples: seq<Option<int>>): seq<int> {
    if samples == [] then []
    else
      var last := samples[|samples| - 1];
      AcceptedOffsets(samples[..|samples| - 1]) + if last.Some? && Plausible(last.value) then [last.value] else []
  }

  /** How many of the values lie in an interval. */
  function CountIn(s: seq<int>, lo: int, hi: int): (n: nat)
    ensures n <= |s|
  {
    if s == [] then 0 else (if lo <= s[0] <= hi then 1 else 0) + CountIn(s[1..], lo, hi)
  }

  lemma {:induction false} CountConcat(a: seq<int>, b: seq<int>, lo: int, hi: int)
    ensures CountIn(a + b, lo, hi) == CountIn(a, lo, hi) + CountIn(b, lo, hi)
  {
    if a == [] {
      assert a + b == b;
    } else {
      assert (a + b)[1..] == a[1..] + b;
      CountConcat(a[1..], b, lo, hi);
    }
  }

  lemma {:induction false} CountNone(s: seq<int>, lo: int, hi: int)
    requires forall i :: 0 <= i < |s| ==> !(lo <= s[i] <= hi)
    ensures CountIn(s, lo, hi) == 0
  {
    if s != [] {
      CountNone(s[1..], lo, hi);
    }
  }

  lemma {:induction false} CountPermutation(a: seq<int>, b: seq<int>, lo: int, hi: int)
    requires multiset(a) == multiset(b)
    ensures CountIn(a, lo, hi) == CountIn(b, lo, hi)
    decreases |a|
  {
    if a == [] {
      assert |b| == |multiset(b)| == 0;
    } else {
      var x := a[0];
      assert x in multiset(b);
      var j :| 0 <= j < |b| && b[j] == x;
      RemoveMultiset(b, j);
      RemoveMultiset(a, 0);
      assert a[..0] + a[1..] == a[1..];
      assert multiset(a[1..]) == multiset(a) - multiset{x};
      var l, r := b[..j], b[j + 1..];
      assert multiset(l + r) == multiset(b) - multiset{x};
      CountPermutation(a[1..], l + r, lo, hi);
      CountRemove(b, j, lo, hi);
    }
  }

  lemma {:induction false} CountRemove(b: seq<int>, j: nat, lo: int, hi: int)
    requires j < |b|
    ensures CountIn(b, lo, hi) == CountIn(b[..j] + b[j + 1..], lo, hi) + if lo <= b[j] <= hi then 1 else 0
  {
    var l, r := b[..j], b[j + 1..];
    assert b == l + ([b[j]] + r);
    CountConcat(l, r, lo, hi);
    CountConcat(l, [b[j]] + r, lo, hi);
    assert ([b[j]] + r)[1..] == r;
  }

  lemma {:induction false} SortedMajority(s: seq<int>, lo: int, hi: int)
    requires forall i, j :: 0 <= i < j < |s| ==> s[i] <= s[j]
    requires 2 * CountIn(s, lo, hi) > |s|
    ensures s != [] && lo <= s[|s| / 2] <= hi
  {
    var m := |s| / 2;
    assert CountIn(s, lo, hi) <= |s|;
    if s[m] < lo {
      var a, b := s[..m + 1], s[m + 1..];
      assert s == a + b;
      CountNone(a, lo, hi);
      CountConcat(a, b, lo, hi);
    } else if s[m] > hi {
      var a, b := s[..m], s[m..];
      assert s == a + b;
      CountNone(b, lo, hi);
      CountConcat(a, b, lo, hi);
    }
  }

  /** The middle element, the upper of two, of the values in order. */
  ghost predicate UpperMedian(values: seq<int>, m: int) {
    exists s: seq<int> :: SortsTo(values, s) && |s| > 0 && m == s[|s| / 2]
  }

  ghost predicate SortsTo(values: seq<int>, s: seq<int>) {
    multiset(s) == multiset(values) && forall i, j :: 0 <= i < j < |s| ==> s[i] <= s[j]
  }

  /** If more than half of the values lie in an interval, so does the median. */
  lemma {:induction false} MedianIsInMajority(values: seq<int>, m: int, lo: int, hi: int)
    requires UpperMedian(values, m) && 2 * CountIn(values, lo, hi) > |values|
    ensures lo <= m <= hi
  {
    var s: seq<int> :| SortsTo(values, s) && |s| > 0 && m == s[|s| / 2];
    CountPermutation(s, values, lo, hi);
    assert |s| == |multiset(s)| == |values|;
    SortedMajority(s, lo, hi);
  }

  lemma {:induction false} CountAll(s: seq<int>, lo: int, hi: int)
    requires forall i :: 0 <= i < |s| ==> lo <= s[i] <= hi
    ensures CountIn(s, lo, hi) == |s|
  {
    if s != [] {
      CountAll(s[1..], lo, hi);
    }
  }

  lemma {:induction false} SortedRank(s: seq<int>, lo: int, hi: int)
    requires s != [] && forall i, j :: 0 <= i < j < |s| ==> s[i] <= s[j]
    requires forall i :: 0 <= i < |s| ==> lo <= s[i] <= hi
    ensures var m := s[|s| / 2]; CountIn(s, lo, m) >= |s| / 2 + 1 && CountIn(s, m, hi) >= |s| - |s| / 2
  {
    var k, m := |s| / 2, s[|s| / 2];
    assert s == s[..k + 1] + s[k + 1..];
    CountConcat(s[..k + 1], s[k + 1..], lo, m);
    CountAll(s[..k + 1], lo, m);
    assert s == s[..k] + s[k..];
    CountConcat(s[..k], s[k..], m, hi);
    CountAll(s[k..], m, hi);
  }

  /** More than half of the values are not above the median, and at least half are not below it: of two it is the greater. */
  lemma {:induction false} MedianRank(values: seq<int>, m: int, lo: int, hi: int)
    requires UpperMedian(values, m) && forall x :: x in values ==> lo <= x <= hi
    ensures CountIn(values, lo, m) >= |values| / 2 + 1 && CountIn(values, m, hi) >= |values| - |values| / 2
  {
    var s: seq<int> :| SortsTo(values, s) && |s| > 0 && m == s[|s| / 2];
    assert |s| == |multiset(s)| == |values|;
    forall i | 0 <= i < |s| ensures lo <= s[i] <= hi {
      assert s[i] in multiset(values);
      assert s[i] in values;
    }
    SortedRank(s, lo, hi);
    CountPermutation(s, values, lo, m);
    CountPermutation(s, values, m, hi);
  }

  lemma {:induction false} MedianIsAValue(values: seq<int>, m: int)
    requires UpperMedian(values, m)
    ensures m in values
  {
    var s: seq<int> :| SortsTo(values, s) && |s| > 0 && m == s[|s| / 2];
    assert m in multiset(s);
  }

  /** How often a server answered with this offset. */
  function Answers(samples: seq<Option<int>>, x: int): nat {
    multiset(samples)[Some(x)]
  }

  /** Every answer of at most two minutes is kept as often as it was given, and no other. */
  lemma {:induction false} AcceptedExactly(samples: seq<Option<int>>, x: int)
    ensures multiset(AcceptedOffsets(samples))[x] == if -120000 <= x <= 120000 then Answers(samples, x) else 0
  {
    if samples != [] {
      var n := |samples| - 1;
      AcceptedExactly(samples[..n], x);
      assert samples == samples[..n] + [samples[n]];
      assert multiset(samples) == multiset(samples[..n]) + multiset{samples[n]};
    }
  }

  lemma {:induction false} AcceptedArePlausible(samples: seq<Option<int>>, x: int)
    requires x in AcceptedOffsets(samples)
    ensures Plausible(x) && Some(x) in samples
  {
    var n := |samples| - 1;
    if x in AcceptedOffsets(samples[..n]) {
      AcceptedArePlausible(samples[..n], x);
    } else {
      assert samples[n] == Some(x);
    }
  }

  /** One pass over the servers' answers, then sort and take the middle. */
  method VerifyServers(samples: seq<Option<int>>) returns (r: Option<TimeSyncResult>)
    ensures r.None? <==> AcceptedOffsets(samples) == []
    ensures r.Some? ==> UpperMedian(AcceptedOffsets(samples), r.value.offsetMs) && r.value.samples == |AcceptedOffsets(samples)|
  {
    var offsets: seq<int> := [];
    for n := 0 to |samples|
      invariant offsets == AcceptedOffsets(samples[..n])
    {
      assert samples[..n + 1][..n] == samples[..n];
      if samples[n].Some? && Plausible(samples[n].value) {
        offsets := offsets + [samples[n].value];
      }
    }
    assert samples[..|samples|] == samples;
    if offsets == [] {
      return None;
    }
    var sorted := SortByKey(offsets, (x: int) => x);
    assert |sorted| == |multiset(sorted)| == |offsets|;
    assert SortsTo(offsets, sorted);
    return Some(TimeSyncResult(sorted[|sorted| / 2], |sorted|));
  }

  /**
   Whatever the servers answer, the stored offset is one of the accepted answers, at most two minutes
   in size, and inside every interval that holds more than half of the accepted answers.
   */
  lemma {:induction false} StoredOffsetIsSound(samples: seq<Option<int>>, offset: int, lo: int, hi: int)
    requires UpperMedian(AcceptedOffsets(samples), offset)
    ensures Some(offset) in samples && Plausible(offset)
    ensures 2 * CountIn(AcceptedOffsets(samples), lo, hi) > |AcceptedOffsets(samples)| ==> lo <= offset <= hi
  {
    MedianIsAValue(AcceptedOffsets(samples), offset);
    AcceptedArePlausible(samples, offset);
    if 2 * CountIn(AcceptedOffsets(samples), lo, hi) > |AcceptedOffsets(samples)| {
      MedianIsInMajority(AcceptedOffsets(samples), offset, lo, hi);
    }
  }
}
