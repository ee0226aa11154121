/**
 The per-client sliding-window rate limiter, eviction included. Its buckets are proved to be exactly
 the accepted requests of a closed window; a full table is proved to refuse every new client with a
 lookup error.
 */
module RateLimiter {

  /** A client address; only equality of addresses matters. */
  type Client = nat

  /** The dictionary of buckets, with its insertion order. */
  datatype Table = Table(clients: seq<Client>, buckets: map<Client, seq<real>>)

  datatype Outcome = Allowed | Limited | LookupError

  const EMPTY := Table([], map[])

  // ---------------------------------------------------------------------------------------------
  // The check, as a function of the table
  // ---------------------------------------------------------------------------------------------

  function DropStale(bucket: seq<real>, cutoff: real): seq<real> {
    if bucket != [] && bucket[0] < cutoff then DropStale(bucket[1..], cutoff) else bucket
  }

  /** The last hit of a client; an empty bucket ranks as time zero. */
  function LastHit(t: Table, c: Client): real {
    if c in t.buckets && t.buckets[c] != [] then t.buckets[c][|t.buckets[c]| - 1] else 0.0
  }

  /** The first of the first `n` clients with the least last hit, as Python's `min` picks it. */
  function OldestOf(t: Table, n: nat): Client
    requires 1 <= n <= |t.clients|
  {
    if n == 1 then t.clients[0]
    else
      var best := OldestOf(t, n - 1);
      if LastHit(t, t.clients[n - 1]) < LastHit(t, best) then t.clients[n - 1] else best
  }

  /** Of the first `n` clients every one before `k` has a greater last hit, every one after it no smaller. */
  predicate FirstLeast(t: Table, k: nat, n: nat)
    requires k < n <= |t.clients|
  {
    && (forall i :: 0 <= i < k ==> LastHit(t, t.clients[i]) > LastHit(t, t.clients[k]))
    && (forall i :: k < i < n ==> LastHit(t, t.clients[i]) >= LastHit(t, t.clients[k]))
  }

  /** The oldest is the first with the least last hit. */
  lemma {:induction false} OldestIsFirstLeast(t: Table, n: nat) returns (k: nat)
    requires 1 <= n <= |t.clients|
    ensures k < n && t.clients[k] == OldestOf(t, n) && FirstLeast(t, k, n)
  {
    hide LastHit;
    k := 0;
    if n > 1 {
      k := OldestIsFirstLeast(t, n - 1);
      if LastHit(t, t.clients[n - 1]) < LastHit(t, t.clients[k]) {
        NewLeast(t, k, n);
        k := n - 1;
      }
    }
  }

  lemma {:induction false} NewLeast(t: Table, k: nat, n: nat)
    requires k < n - 1 < |t.clients| && FirstLeast(t, k, n - 1)
    requires LastHit(t, t.clients[n - 1]) < LastHit(t, t.clients[k])
    ensures FirstLeast(t, n - 1, n)
  {
    hide LastHit;
    forall i | 0 <= i < n - 1 ensures LastHit(t, t.clients[i]) > LastHit(t, t.clients[n - 1]) {
      assert i == k || i < k || k < i;
    }
  }

  function Without(s: seq<Client>, c: Client): seq<Client> {
    if s == [] then [] else if s[0] == c then s[1..] else [s[0]] + Without(s[1..], c)
  }

  function Remove(t: Table, c: Client): Table {
    Table(Without(t.clients, c), t.buckets - {c})
  }

  function Evicted(t: Table, cap: nat): Table {
    if |t.clients| <= cap || t.clients == [] then t else Remove(t, OldestOf(t, |t.clients|))
  }

  /** The table with a bucket for the client, if eviction leaves it there. */
  function Admitted(t: Table, c: Client, cap: nat): Table {
    if c in t.buckets then t else Evicted(Table(t.clients + [c], t.buckets[c := []]), cap)
  }

  function Decision(bucket: seq<real>, max: nat): Outcome {
    if |bucket| >= max then Limited else Allowed
  }

  function OutcomeOf(t: Table, c: Client, now: real, window: real, max: nat, cap: nat): Outcome {
    var a := Admitted(t, c, cap);
    if c !in a.buckets then LookupError
    else Decision(DropStale(a.buckets[c], now - window), max)
  }

  function AfterCheck(t: Table, c: Client, now: real, window: real, max: nat, cap: nat): Table {
    var a := Admitted(t, c, cap);
    if c !in a.buckets then a
    else
      var bucket := DropStale(a.buckets[c], now - window);
      var kept := if bucket == [] && |a.clients| > cap then Without(a.clients, c) + [c] else a.clients;
      Table(kept, a.buckets[c := if |bucket| >= max then bucket else bucket + [now]])
  }

  // ---------------------------------------------------------------------------------------------
  // The limiter as an object
  // ---------------------------------------------------------------------------------------------

  class Limiter {
    const window: real
    const max: nat
    const cap: nat
    var clients: seq<Client>
    var buckets: map<Client, seq<real>>

    constructor (window: real, max: nat, cap: nat)
      ensures this.window == window && this.max == max && this.cap == cap && Current() == EMPTY
    {
      this.window, this.max, this.cap := window, max, cap;
      clients, buckets := [], map[];
    }

    function Current(): Table
      reads this
    {
      Table(clients, buckets)
    }

    method EvictIfNeeded()
      modifies this
      ensures Current() == Evicted(old(Current()), cap)
    {
      if |clients| <= cap || clients == [] {
        return;
      }
      var oldest := clients[0];
      for n := 1 to |clients|
        invariant oldest == OldestOf(Current(), n)
      {
        if LastHit(Current(), clients[n]) < LastHit(Current(), oldest) {
          oldest := clients[n];
        }
      }
      clients, buckets := Without(clients, oldest), buckets - {oldest};
    }

    /** The client's bucket, made if it is new; eviction may take it away again. */
    method Admit(c: Client)
      modifies this
      ensures Current() == Admitted(old(Current()), c, cap)
    {
      if c !in buckets {
        clients, buckets := clients + [c], buckets[c := []];
        EvictIfNeeded();
      }
    }

    method Prune(bucket0: seq<real>, cutoff: real) returns (bucket: seq<real>)
      ensures bucket == DropStale(bucket0, cutoff)
    {
      bucket := bucket0;
      while bucket != [] && bucket[0] < cutoff
        invariant DropStale(bucket, cutoff) == DropStale(bucket0, cutoff)
        decreases |bucket|
      {
        bucket := bucket[1..];
      }
    }

    method Check(c: Client, now: real) returns (outcome: Outcome)
      modifies this
      ensures Current() == AfterCheck(old(Current()), c, now, window, max, cap)
      ensures outcome == OutcomeOf(old(Current()), c, now, window, max, cap)
    {
      hide DropStale, Admitted, Without;
      var cutoff := now - window;
      Admit(c);
      if c !in buckets {
        return LookupError;
      }
      var bucket := Prune(buckets[c], cutoff);
      if bucket == [] && |clients| > cap {
        clients := Without(clients, c) + [c];
      }
      if |bucket| >= max {
        buckets := buckets[c := bucket];
        return Limited;
      }
      buckets := buckets[c := bucket + [now]];
      return Allowed;
    }
  }

  // ---------------------------------------------------------------------------------------------
  // Runs
  // ---------------------------------------------------------------------------------------------

  datatype Request = Request(client: Client, at: real)

  datatype Limits = Limits(window: real, max: nat, cap: nat)

  /** Positive times that never go back. */
  predicate ClockOk(requests: seq<Request>) {
    && (forall i :: 0 <= i < |requests| ==> requests[i].at > 0.0)
    && (forall i, j :: 0 <= i < j < |requests| ==> requests[i].at <= requests[j].at)
  }

  function RunTable(requests: seq<Request>, l: Limits): Table {
    if requests == [] then EMPTY
    else
      var r := requests[|requests| - 1];
      AfterCheck(RunTable(requests[..|requests| - 1], l), r.client, r.at, l.window, l.max, l.cap)
  }

  /** The answer to one more request. */
  function Answer(requests: seq<Request>, r: Request, l: Limits): Outcome {
    OutcomeOf(RunTable(requests, l), r.client, r.at, l.window, l.max, l.cap)
  }

  /** The times of a client's accepted requests. */
  function Accepted(requests: seq<Request>, c: Client, l: Limits): seq<real> {
    if requests == [] then []
    else
      var before, r := requests[..|requests| - 1], requests[|requests| - 1];
      Accepted(before, c, l) + if r.client == c && Answer(before, r, l) == Allowed then [r.at] else []
  }

  /** The clients that have had a request accepted. */
  function Known(requests: seq<Request>, l: Limits): set<Client> {
    set i | 0 <= i < |requests| && Accepted(requests, requests[i].client, l) != [] :: requests[i].client
  }

  /** The accepted times in the closed window that starts at `from`. */
  function Since(times: seq<real>, from: real): seq<real> {
    if times == [] then []
    else Since(times[..|times| - 1], from) + if times[|times| - 1] >= from then [times[|times| - 1]] else []
  }

  // ---------------------------------------------------------------------------------------------
  // What every check keeps
  // ---------------------------------------------------------------------------------------------

  predicate Sorted(times: seq<real>) {
    forall i, j :: 0 <= i < j < |times| ==> times[i] <= times[j]
  }

  function Bucket(t: Table, c: Client): seq<real> {
    if c in t.buckets then t.buckets[c] else []
  }

  /** A bucket is the end of the accepted times; what was dropped is older than the window. */
  ghost predicate SuffixOk(bucket: seq<real>, accepted: seq<real>, now: real, l: Limits) {
    && |bucket| <= |accepted| && accepted[|accepted| - |bucket|..] == bucket
    && (forall i :: 0 <= i < |accepted| - |bucket| ==> accepted[i] < now - l.window)
  }

  /** Accepted times are in order, positive, past, and `max` apart they exceed the window. */
  ghost predicate TimesOk(accepted: seq<real>, now: real, l: Limits) {
    && Sorted(accepted)
    && (forall i :: 0 <= i < |accepted| ==> 0.0 < accepted[i] <= now)
    && (forall i :: 0 <= i && i + l.max < |accepted| ==> accepted[i] + l.window < accepted[i + l.max])
  }

  ghost predicate ClientOk(t: Table, accepted: seq<real>, c: Client, now: real, l: Limits) {
    && TimesOk(accepted, now, l) && SuffixOk(Bucket(t, c), accepted, now, l)
    && (c in t.buckets ==> t.buckets[c] != []) && (c !in t.buckets ==> accepted == [])
  }

  ghost predicate KeysOk(t: Table) {
    && (forall i, j :: 0 <= i < j < |t.clients| ==> t.clients[i] != t.clients[j])
    && (forall c :: c in t.buckets <==> c in t.clients)
  }

  /** No empty buckets, and no client beyond the cap. */
  ghost predicate TableOk(t: Table, cap: nat) {
    KeysOk(t) && |t.clients| <= cap && forall c :: c in t.buckets ==> LastHit(t, c) > 0.0
  }

  lemma {:induction false} DropStaleIsSuffix(bucket: seq<real>, cutoff: real)
    requires Sorted(bucket)
    ensures var b := DropStale(bucket, cutoff);
            && |b| <= |bucket| && b == bucket[|bucket| - |b|..]
            && (forall i :: 0 <= i < |bucket| - |b| ==> bucket[i] < cutoff)
            && (forall i :: |bucket| - |b| <= i < |bucket| ==> bucket[i] >= cutoff)
  {
    if bucket != [] && bucket[0] < cutoff {
      var rest := bucket[1..];
      DropStaleIsSuffix(rest, cutoff);
      assert forall i :: 1 <= i < |bucket| ==> bucket[i] == rest[i - 1];
    } else if bucket != [] {
      assert forall i :: 0 <= i < |bucket| ==> bucket[0] <= bucket[i];
    }
  }

  lemma {:induction false} SinceIsSuffix(times: seq<real>, from: real, k: nat)
    requires k <= |times|
    requires forall i :: 0 <= i < k ==> times[i] < from
    requires forall i :: k <= i < |times| ==> times[i] >= from
    ensures Since(times, from) == times[k..]
  {
    if times != [] {
      var n := |times| - 1;
      if k <= n {
        SinceIsSuffix(times[..n], from, k);
        assert times[k..] == times[..n][k..] + [times[n]];
      } else {
        SinceIsSuffix(times[..n], from, n);
      }
    }
  }

  /** Pruning a bucket leaves exactly the accepted times of the window. */
  lemma {:induction false} PrunedIsSuffix(bucket: seq<real>, accepted: seq<real>, before: real, now: real, l: Limits)
    requires SuffixOk(bucket, accepted, before, l) && Sorted(accepted) && before <= now
    ensures SuffixOk(DropStale(bucket, now - l.window), accepted, now, l)
    ensures var b := DropStale(bucket, now - l.window);
            forall i :: |accepted| - |b| <= i < |accepted| ==> accepted[i] >= now - l.window
  {
    var d := |accepted| - |bucket|;
    assert forall i :: 0 <= i < |bucket| ==> bucket[i] == accepted[d + i];
    DropStaleIsSuffix(bucket, now - l.window);
    var b := DropStale(bucket, now - l.window);
    var e := |bucket| - |b|;
    assert accepted[d + e..] == bucket[e..];
    forall i | 0 <= i < d + e ensures accepted[i] < now - l.window {
      if i >= d {
        assert bucket[i - d] < now - l.window;
      }
    }
    forall i | d + e <= i < |accepted| ensures accepted[i] >= now - l.window {
      assert bucket[i - d] >= now - l.window;
    }
  }

  lemma {:induction false} PrunedIsWindow(bucket: seq<real>, accepted: seq<real>, before: real, now: real, l: Limits)
    requires SuffixOk(bucket, accepted, before, l) && Sorted(accepted) && before <= now
    ensures DropStale(bucket, now - l.window) == Since(accepted, now - l.window)
  {
    PrunedIsSuffix(bucket, accepted, before, now, l);
    SinceIsSuffix(accepted, now - l.window, |accepted| - |DropStale(bucket, now - l.window)|);
  }

  lemma {:induction false} NewcomerIsOldest(t: Table, n: nat)
    requires 1 <= n <= |t.clients|
    requires forall i :: 0 <= i < |t.clients| - 1 ==> LastHit(t, t.clients[i]) > 0.0
    requires LastHit(t, t.clients[|t.clients| - 1]) == 0.0
    ensures n == |t.clients| ==> OldestOf(t, n) == t.clients[n - 1]
    ensures n < |t.clients| ==> LastHit(t, OldestOf(t, n)) > 0.0
  {
    if n > 1 {
      NewcomerIsOldest(t, n - 1);
    }
  }

  lemma {:induction false} WithoutLast(s: seq<Client>, c: Client)
    requires c !in s
    ensures Without(s + [c], c) == s
  {
    if s != [] {
      assert (s + [c])[1..] == s[1..] + [c];
      WithoutLast(s[1..], c);
    }
  }

  /** Admission: a known client keeps its place, a new one gets an empty bucket or, at the cap, nothing. */
  lemma {:induction false} Admission(t: Table, c: Client, cap: nat)
    requires TableOk(t, cap)
    ensures Admitted(t, c, cap) ==
      if c in t.buckets || |t.clients| == cap then t else Table(t.clients + [c], t.buckets[c := []])
  {
    if c !in t.buckets && |t.clients| == cap {
      var u := Table(t.clients + [c], t.buckets[c := []]);
      forall i | 0 <= i < |u.clients| - 1 ensures LastHit(u, u.clients[i]) > 0.0 {
        assert u.clients[i] == t.clients[i];
        assert LastHit(u, t.clients[i]) == LastHit(t, t.clients[i]);
      }
      NewcomerIsOldest(u, |u.clients|);
      WithoutLast(t.clients, c);
      assert u.buckets - {c} == t.buckets;
    }
  }

  predicate Full(t: Table, c: Client, cap: nat) {
    c !in t.buckets && |t.clients| == cap
  }

  function Pruned(t: Table, c: Client, now: real, l: Limits): seq<real> {
    DropStale(Bucket(t, c), now - l.window)
  }

  /** What one check does to a table in good order. */
  lemma {:induction false} CheckEffect(t: Table, c: Client, now: real, l: Limits)
    requires TableOk(t, l.cap)
    ensures OutcomeOf(t, c, now, l.window, l.max, l.cap) ==
      if Full(t, c, l.cap) then LookupError else Decision(Pruned(t, c, now, l), l.max)
    ensures AfterCheck(t, c, now, l.window, l.max, l.cap) ==
      if Full(t, c, l.cap) then t
      else Table(if c in t.buckets then t.clients else t.clients + [c],
                 t.buckets[c := Pruned(t, c, now, l) + if |Pruned(t, c, now, l)| >= l.max then [] else [now]])
  {
    Admission(t, c, l.cap);
    var b := Pruned(t, c, now, l);
    assert b + [] == b;
  }

  lemma {:induction false} TimesGrow(accepted: seq<real>, b: seq<real>, before: real, now: real, l: Limits)
    requires TimesOk(accepted, before, l) && before <= now && now > 0.0
    requires SuffixOk(b, accepted, now, l) && |b| < l.max
    ensures TimesOk(accepted + [now], now, l) && SuffixOk(b + [now], accepted + [now], now, l)
  {
    var a := accepted + [now];
    forall i | 0 <= i && i + l.max < |a| ensures a[i] + l.window < a[i + l.max] {
      if i + l.max == |accepted| {
        assert accepted[i] < now - l.window;
      } else {
        assert accepted[i] + l.window < accepted[i + l.max];
      }
    }
    assert a[|accepted| - |b|..] == b + [now];
  }

  lemma LaterTimes(accepted: seq<real>, before: real, now: real, l: Limits)
    requires TimesOk(accepted, before, l) && before <= now
    ensures TimesOk(accepted, now, l)
  {
  }

  /** A check keeps the requesting client's bucket the end of its accepted times. */
  lemma {:induction false} OwnStep(t: Table, accepted: seq<real>, c: Client, before: real, now: real, l: Limits)
    requires TableOk(t, l.cap) && ClientOk(t, accepted, c, before, l) && before <= now && now > 0.0 && l.max >= 1
    ensures var allowed := OutcomeOf(t, c, now, l.window, l.max, l.cap) == Allowed;
            ClientOk(AfterCheck(t, c, now, l.window, l.max, l.cap), accepted + if allowed then [now] else [], c, now, l)
  {
    hide DropStale, Admitted, OutcomeOf, AfterCheck, KeysOk;
    CheckEffect(t, c, now, l);
    PrunedIsSuffix(Bucket(t, c), accepted, before, now, l);
    var b := Pruned(t, c, now, l);
    LaterTimes(accepted, before, now, l);
    assert accepted + [] == accepted && b + [] == b;
    if !Full(t, c, l.cap) && |b| < l.max {
      TimesGrow(accepted, b, before, now, l);
    }
  }

  lemma {:induction false} OtherStep(t: Table, accepted: seq<real>, x: Client, c: Client, before: real, now: real, l: Limits)
    requires TableOk(t, l.cap) && ClientOk(t, accepted, x, before, l) && before <= now && x != c
    ensures ClientOk(AfterCheck(t, c, now, l.window, l.max, l.cap), accepted, x, now, l)
  {
    CheckEffect(t, c, now, l);
    LaterTimes(accepted, before, now, l);
  }

  lemma {:induction false} KeysStep(t: Table, c: Client, now: real, l: Limits)
    requires TableOk(t, l.cap)
    ensures KeysOk(AfterCheck(t, c, now, l.window, l.max, l.cap))
    ensures |AfterCheck(t, c, now, l.window, l.max, l.cap).clients| <= l.cap
  {
    CheckEffect(t, c, now, l);
    var u := t.clients + [c];
    assert forall x :: x in u <==> x in t.clients || x == c;
  }

  lemma {:induction false} ClientHit(t: Table, accepted: seq<real>, c: Client, now: real, l: Limits)
    requires ClientOk(t, accepted, c, now, l) && c in t.buckets
    ensures LastHit(t, c) > 0.0 && accepted != []
  {
    var b := t.buckets[c];
    assert b[|b| - 1] == accepted[|accepted| - 1];
  }

  ghost predicate RunOk(requests: seq<Request>, now: real, l: Limits) {
    var t := RunTable(requests, l);
    TableOk(t, l.cap) && forall c :: ClientOk(t, Accepted(requests, c, l), c, now, l)
  }

  lemma {:induction false} RunStep(requests: seq<Request>, r: Request, c: Client, l: Limits)
    ensures RunTable(requests + [r], l) == AfterCheck(RunTable(requests, l), r.client, r.at, l.window, l.max, l.cap)
    ensures Accepted(requests + [r], c, l)
      == Accepted(requests, c, l) + if r.client == c && Answer(requests, r, l) == Allowed then [r.at] else []
  {
    assert (requests + [r])[..|requests|] == requests;
  }

  lemma {:induction false} ClientStep(requests: seq<Request>, r: Request, c: Client, l: Limits)
    requires RunOk(requests, r.at, l) && r.at > 0.0 && l.max >= 1
    ensures ClientOk(RunTable(requests + [r], l), Accepted(requests + [r], c, l), c, r.at, l)
  {
    hide RunTable, Accepted, AfterCheck, OutcomeOf;
    RunStep(requests, r, c, l);
    var t, accepted := RunTable(requests, l), Accepted(requests, c, l);
    assert ClientOk(t, accepted, c, r.at, l);
    if c == r.client {
      OwnStep(t, accepted, c, r.at, r.at, l);
    } else {
      OtherStep(t, accepted, c, r.client, r.at, r.at, l);
      assert accepted + [] == accepted;
    }
  }

  lemma {:induction false} RunGrows(requests: seq<Request>, r: Request, l: Limits)
    requires RunOk(requests, r.at, l) && r.at > 0.0 && l.max >= 1
    ensures RunOk(requests + [r], r.at, l)
  {
    hide RunTable, Accepted, AfterCheck, ClientOk;
    var t := RunTable(requests + [r], l);
    forall c ensures ClientOk(t, Accepted(requests + [r], c, l), c, r.at, l) {
      ClientStep(requests, r, c, l);
    }
    RunStep(requests, r, r.client, l);
    KeysStep(RunTable(requests, l), r.client, r.at, l);
    forall c | c in t.buckets ensures LastHit(t, c) > 0.0 {
      ClientHit(t, Accepted(requests + [r], c, l), c, r.at, l);
    }
  }

  lemma {:induction false} RunLater(requests: seq<Request>, before: real, now: real, l: Limits)
    requires RunOk(requests, before, l) && before <= now
    ensures RunOk(requests, now, l)
  {
    hide RunTable, Accepted, TableOk;
    forall c ensures ClientOk(RunTable(requests, l), Accepted(requests, c, l), c, now, l) {
      assert ClientOk(RunTable(requests, l), Accepted(requests, c, l), c, before, l);
    }
  }

  lemma {:induction false} RunStaysOk(requests: seq<Request>, now: real, l: Limits)
    requires ClockOk(requests) && l.max >= 1
    requires forall i :: 0 <= i < |requests| ==> requests[i].at <= now
    ensures RunOk(requests, now, l)
  {
    if requests != [] {
      var before, r := requests[..|requests| - 1], requests[|requests| - 1];
      RunStaysOk(before, r.at, l);
      RunGrows(before, r, l);
      assert requests == before + [r];
      RunLater(requests, r.at, now, l);
    }
  }

  // ---------------------------------------------------------------------------------------------
  // The guarantees
  // ---------------------------------------------------------------------------------------------

  lemma {:induction false} AcceptedAsked(requests: seq<Request>, c: Client, l: Limits)
    requires Accepted(requests, c, l) != []
    ensures exists i :: 0 <= i < |requests| && requests[i].client == c
  {
    var n := |requests| - 1;
    if requests[n].client != c {
      AcceptedAsked(requests[..n], c, l);
    }
  }

  /** The table holds the known clients and no others. */
  lemma {:induction false} TableIsKnown(requests: seq<Request>, now: real, l: Limits)
    requires RunOk(requests, now, l)
    ensures var t := RunTable(requests, l);
            (forall c :: c in t.buckets <==> c in Known(requests, l)) && |t.clients| == |Known(requests, l)|
  {
    hide RunTable, Accepted;
    var t := RunTable(requests, l);
    forall c ensures c in t.buckets <==> c in Known(requests, l) {
      assert ClientOk(t, Accepted(requests, c, l), c, now, l);
      if c in t.buckets {
        ClientHit(t, Accepted(requests, c, l), c, now, l);
        AcceptedAsked(requests, c, l);
      }
    }
    assert Elements(t.clients) == Known(requests, l);
    DistinctCount(t.clients);
  }

  function Elements(s: seq<Client>): set<Client> {
    set c | c in s
  }

  lemma {:induction false} DistinctCount(s: seq<Client>)
    requires forall i, j :: 0 <= i < j < |s| ==> s[i] != s[j]
    ensures |Elements(s)| == |s|
  {
    if s != [] {
      var rest := s[1..];
      DistinctCount(rest);
      assert s == [s[0]] + rest;
      assert Elements(s) == Elements(rest) + {s[0]};
    }
  }

  /** The requests before one more keep the run's clock. */
  lemma {:induction false} ClockPrefix(requests: seq<Request>, r: Request)
    requires ClockOk(requests + [r])
    ensures ClockOk(requests) && r.at > 0.0 && forall i :: 0 <= i < |requests| ==> requests[i].at <= r.at
  {
    var all := requests + [r];
    assert forall i :: 0 <= i < |requests| ==> all[i] == requests[i];
    assert all[|requests|] == r;
  }

  /**
   Over every run with a positive clock that never goes back, a request raises a lookup error exactly
   when its client has no accepted request yet and as many clients as the table can hold have one;
   otherwise it is refused exactly when the closed window ending now already holds `max` acceptances
   of that client.
   */
  lemma {:induction false} ExactDecision(requests: seq<Request>, r: Request, l: Limits)
    requires ClockOk(requests + [r]) && l.max >= 1
    ensures Answer(requests, r, l) ==
      if r.client !in Known(requests, l) && |Known(requests, l)| == l.cap then LookupError
      else if |Since(Accepted(requests, r.client, l), r.at - l.window)| >= l.max then Limited
      else Allowed
  {
    hide RunTable, Accepted, Known, Since, DropStale, OutcomeOf;
    ClockPrefix(requests, r);
    RunStaysOk(requests, r.at, l);
    TableIsKnown(requests, r.at, l);
    var t, accepted := RunTable(requests, l), Accepted(requests, r.client, l);
    CheckEffect(t, r.client, r.at, l);
    assert ClientOk(t, accepted, r.client, r.at, l);
    PrunedIsWindow(Bucket(t, r.client), accepted, r.at, r.at, l);
  }

  lemma {:induction false} AcceptedGrows(requests: seq<Request>, more: seq<Request>, c: Client, l: Limits)
    ensures Accepted(requests, c, l) <= Accepted(requests + more, c, l)
  {
    hide Answer;
    if more == [] {
      assert requests + more == requests;
    } else {
      var n := |more| - 1;
      AcceptedGrows(requests, more[..n], c, l);
      assert requests + more == requests + more[..n] + [more[n]];
      RunStep(requests + more[..n], more[n], c, l);
    }
  }

  lemma {:induction false} KnownGrows(requests: seq<Request>, more: seq<Request>, l: Limits)
    ensures Known(requests, l) <= Known(requests + more, l)
  {
    hide Accepted;
    forall c | c in Known(requests, l) ensures c in Known(requests + more, l) {
      var i :| 0 <= i < |requests| && requests[i].client == c && Accepted(requests, c, l) != [];
      AcceptedGrows(requests, more, c, l);
      assert (requests + more)[i].client == c;
    }
  }

  lemma {:induction false} FewAccepted(requests: seq<Request>, c: Client, l: Limits)
    ensures |Accepted(requests, c, l)| <= |requests|
  {
    if requests != [] {
      FewAccepted(requests[..|requests| - 1], c, l);
    }
  }

  lemma {:induction false} FewSince(times: seq<real>, from: real)
    ensures |Since(times, from)| <= |times|
  {
    if times != [] {
      FewSince(times[..|times| - 1], from);
    }
  }

  lemma {:induction false} FewClients(requests: seq<Request>, clients: set<Client>)
    requires forall c :: c in clients ==> exists i :: 0 <= i < |requests| && requests[i].client == c
    ensures |clients| <= |requests|
  {
    if requests == [] {
      assert clients == {};
    } else {
      var n := |requests| - 1;
      var rest := clients - {requests[n].client};
      forall c | c in rest ensures exists i :: 0 <= i < n && requests[..n][i].client == c {
        var i :| 0 <= i < |requests| && requests[i].client == c;
        assert requests[..n][i].client == c;
      }
      FewClients(requests[..n], rest);
      assert clients <= rest + {requests[n].client};
      if requests[n].client in clients {
        assert clients == rest + {requests[n].client};
      } else {
        assert clients == rest;
      }
    }
  }

  lemma {:induction false} FewKnown(requests: seq<Request>, l: Limits)
    ensures |Known(requests, l)| <= |requests|
  {
    FewClients(requests, Known(requests, l));
  }

  lemma {:induction false} KnownFits(requests: seq<Request>, l: Limits)
    requires ClockOk(requests) && l.max >= 1
    ensures |Known(requests, l)| <= l.cap
  {
    var now := if requests == [] then 0.0 else requests[|requests| - 1].at;
    RunStaysOk(requests, now, l);
    TableIsKnown(requests, now, l);
  }

  lemma {:induction false} FullSetIsWhole(a: set<Client>, b: set<Client>)
    requires a <= b && |b| <= |a|
    ensures a == b
  {
    assert b == a + (b - a);
  }

  /** Once as many clients as the table can hold have been accepted, no other ever is. */
  lemma {:induction false} FullTableIsFinal(requests: seq<Request>, more: seq<Request>, l: Limits)
    requires ClockOk(requests + more) && l.max >= 1
    requires |Known(requests, l)| == l.cap
    ensures Known(requests + more, l) == Known(requests, l)
  {
    KnownGrows(requests, more, l);
    KnownFits(requests + more, l);
    FullSetIsWhole(Known(requests, l), Known(requests + more, l));
  }

  /** A client that once met the lookup error meets it at every later request, whoever else calls in between. */
  lemma {:induction false} LockedOutForever(requests: seq<Request>, r: Request, more: seq<Request>, again: Request, l: Limits)
    requires ClockOk(requests + [r] + more + [again]) && l.max >= 1
    requires Answer(requests, r, l) == LookupError && again.client == r.client
    ensures Answer(requests + [r] + more, again, l) == LookupError
  {
    hide Answer, Known;
    var all := requests + [r] + more + [again];
    assert requests + ([r] + more) == requests + [r] + more;
    assert forall i :: 0 <= i <= |requests| ==> all[i] == (requests + [r])[i];
    assert ClockOk(requests + [r]);
    ClockPrefix(requests + [r] + more, again);
    ExactDecision(requests, r, l);
    FullTableIsFinal(requests, [r] + more, l);
    ExactDecision(requests + [r] + more, again, l);
  }

  /** The lookup error does occur: a table for one client, and a second client. */
  lemma {:induction false} SecondClientLockedOut()
    ensures var l := Limits(60.0, 10, 1);
            var first, second := Request(0, 1.0), Request(1, 2.0);
            ClockOk([first] + [second]) && Answer([], first, l) == Allowed && Answer([first], second, l) == LookupError
  {
    hide Answer, RunTable;
    var l := Limits(60.0, 10, 1);
    var first, second := Request(0, 1.0), Request(1, 2.0);
    var empty: seq<Request> := [];
    assert ClockOk(empty + [first]);
    ExactDecision(empty, first, l);
    RunStep(empty, first, 0, l);
    assert empty + [first] == [first];
    assert Known([first], l) == {0};
    ExactDecision([first], second, l);
  }

  lemma {:induction false} SpanBound(a: seq<real>, now: real, l: Limits, i: nat, j: nat)
    requires TimesOk(a, now, l) && i + l.max <= j < |a|
    ensures a[j] - a[i] > l.window
  {
    assert a[i] + l.window < a[i + l.max];
    assert i + l.max == j || a[i + l.max] <= a[j];
  }

  /** No closed window of the configured length ever holds more than `max` acceptances of one client. */
  lemma {:induction false} WindowNeverOverfull(requests: seq<Request>, c: Client, l: Limits, i: nat, j: nat)
    requires ClockOk(requests) && l.max >= 1
    requires i <= j < |Accepted(requests, c, l)|
    requires Accepted(requests, c, l)[j] - Accepted(requests, c, l)[i] <= l.window
    ensures j - i + 1 <= l.max
  {
    var now := if requests == [] then 0.0 else requests[|requests| - 1].at;
    RunStaysOk(requests, now, l);
    assert ClientOk(RunTable(requests, l), Accepted(requests, c, l), c, now, l);
    if j - i >= l.max {
      SpanBound(Accepted(requests, c, l), now, l, i, j);
    }
  }

  /** The stored bucket of a client is, right after its check, the accepted times of the window. */
  lemma {:induction false} BucketIsWindow(requests: seq<Request>, r: Request, l: Limits)
    requires ClockOk(requests + [r]) && l.max >= 1 && Answer(requests, r, l) != LookupError
    ensures var t := RunTable(requests + [r], l);
            r.client in t.buckets
            && t.buckets[r.client] == Since(Accepted(requests, r.client, l), r.at - l.window)
               + if Answer(requests, r, l) == Allowed then [r.at] else []
  {
    hide RunTable, Accepted, Since, DropStale, OutcomeOf, AfterCheck;
    ClockPrefix(requests, r);
    RunStaysOk(requests, r.at, l);
    RunStep(requests, r, r.client, l);
    var t, accepted := RunTable(requests, l), Accepted(requests, r.client, l);
    CheckEffect(t, r.client, r.at, l);
    assert ClientOk(t, accepted, r.client, r.at, l);
    PrunedIsWindow(Bucket(t, r.client), accepted, r.at, r.at, l);
  }
}
