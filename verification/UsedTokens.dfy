/**
 The cache of consumed token digests: a deque in insertion order and a dictionary of expiry times,
 proved equal in behaviour to a plain log of timed additions.
 */
module UsedTokens {

  // ---------------------------------------------------------------------------------------------
  // The data structure
  // ---------------------------------------------------------------------------------------------

  /** A SHA-256 digest, as the number its hexadecimal text denotes. */
  type Digest = nat

  datatype Cache = Cache(expiry: map<Digest, real>, order: seq<Digest>)

  const EMPTY := Cache(map[], [])

  function DropHead(c: Cache): Cache
    requires c.order != []
  {
    Cache(c.expiry - {c.order[0]}, c.order[1..])
  }

  /** The expiry recorded for the head of the deque, with the source's default. */
  function HeadExpiry(c: Cache): real
    requires c.order != []
  {
    if c.order[0] in c.expiry then c.expiry[c.order[0]] else 0.0
  }

  function DropExpired(c: Cache, now: real): Cache
    decreases |c.order|
  {
    if c.order == [] || HeadExpiry(c) > now then c else DropExpired(DropHead(c), now)
  }

  function DropOldest(c: Cache, max: nat): Cache
    decreases |c.order|
  {
    if |c.order| <= max then c else DropOldest(DropHead(c), max)
  }

  function Swept(c: Cache, now: real, max: nat): Cache {
    DropOldest(DropExpired(c, now), max)
  }

  /** `contains` removes a stale dictionary entry that sweeping left behind, and reports it absent. */
  function AfterContains(c: Cache, digest: Digest, now: real, max: nat): Cache {
    var s := Swept(c, now, max);
    if digest in s.expiry && s.expiry[digest] <= now then s.(expiry := s.expiry - {digest}) else s
  }

  predicate Contains(c: Cache, digest: Digest, now: real, max: nat) {
    var s := Swept(c, now, max);
    digest in s.expiry && s.expiry[digest] > now
  }

  function AfterAdd(c: Cache, digest: Digest, now: real, ttl: real, max: nat): Cache {
    var s := Swept(c, now, max);
    if digest in s.expiry then s else Cache(s.expiry[digest := now + ttl], s.order + [digest])
  }

  class UsedTokenCache {
    const ttl: real
    const max: nat
    var expiry: map<Digest, real>
    var order: seq<Digest>

    constructor (ttl: real, max: nat)
      ensures this.ttl == ttl && this.max == max && Current() == EMPTY
    {
      this.ttl, this.max, expiry, order := ttl, max, map[], [];
    }

    function Current(): Cache
      reads this
    {
      Cache(expiry, order)
    }

    method Sweep(now: real)
      modifies this
      ensures Current() == Swept(old(Current()), now, max)
    {
      while |order| > 0
        invariant DropExpired(Current(), now) == DropExpired(old(Current()), now)
        decreases |order|
      {
        var head := order[0];
        var exp := if head in expiry then expiry[head] else 0.0;
        if exp <= now {
          order := order[1..];
          expiry := expiry - {head};
        } else {
          break;
        }
      }
      while |order| > max
        invariant DropOldest(Current(), max) == Swept(old(Current()), now, max)
        decreases |order|
      {
        var head := order[0];
        order := order[1..];
        expiry := expiry - {head};
      }
    }

    method Has(digest: Digest, now: real) returns (found: bool)
      modifies this
      ensures Current() == AfterContains(old(Current()), digest, now, max)
      ensures found == Contains(old(Current()), digest, now, max)
    {
      Sweep(now);
      if digest !in expiry {
        return false;
      }
      if expiry[digest] <= now {
        expiry := expiry - {digest};
        return false;
      }
      return true;
    }

    method Add(digest: Digest, now: real)
      modifies this
      ensures Current() == AfterAdd(old(Current()), digest, now, ttl, max)
    {
      Sweep(now);
      if digest in expiry {
        return;
      }
      expiry := expiry[digest := now + ttl];
      order := order + [digest];
    }
  }

  // ---------------------------------------------------------------------------------------------
  // The reference: a log of timed additions
  // ---------------------------------------------------------------------------------------------

  datatype Entry = Entry(digest: Digest, at: real)

  /** The digest is among the last `max` additions and still inside its lifetime. */
  ghost predicate Remembered(log: seq<Entry>, digest: Digest, now: real, ttl: real, max: nat) {
    exists i :: 0 <= i < |log| && |log| - max <= i && log[i].digest == digest && log[i].at + ttl > now
  }

  /** Adding a remembered digest has no effect. */
  ghost function Logged(log: seq<Entry>, digest: Digest, now: real, ttl: real, max: nat): seq<Entry> {
    if Remembered(log, digest, now, ttl, max) then log else log + [Entry(digest, now)]
  }

  datatype Op = Query(digest: Digest, at: real) | Insert(digest: Digest, at: real)

  predicate ClockNeverGoesBack(ops: seq<Op>) {
    forall i, j :: 0 <= i < j < |ops| ==> ops[i].at <= ops[j].at
  }

  predicate NotBefore(ops: seq<Op>, now: real) {
    forall i :: 0 <= i < |ops| ==> ops[i].at <= now
  }

  function RunCache(ops: seq<Op>, ttl: real, max: nat): Cache {
    if ops == [] then EMPTY
    else
      var c, op := RunCache(ops[..|ops| - 1], ttl, max), ops[|ops| - 1];
      match op
      case Query(d, now) => AfterContains(c, d, now, max)
      case Insert(d, now) => AfterAdd(c, d, now, ttl, max)
  }

  ghost function RunLog(ops: seq<Op>, ttl: real, max: nat): seq<Entry> {
    if ops == [] then []
    else
      var log, op := RunLog(ops[..|ops| - 1], ttl, max), ops[|ops| - 1];
      match op
      case Query(_, _) => log
      case Insert(d, now) => Logged(log, d, now, ttl, max)
  }

  // ---------------------------------------------------------------------------------------------
  // Agreement
  // ---------------------------------------------------------------------------------------------

  ghost predicate LogOk(log: seq<Entry>, now: real) {
    && (forall i, j :: 0 <= i < j < |log| ==> log[i].at <= log[j].at)
    && (forall i :: 0 <= i < |log| ==> log[i].at <= now)
  }

  /** The deque is duplicate-free and holds the dictionary's keys. */
  ghost predicate Shape(c: Cache) {
    && (forall i, j :: 0 <= i < j < |c.order| ==> c.order[i] != c.order[j])
    && (forall d :: d in c.expiry <==> d in c.order)
  }

  /** The deque lists the log from index `k` on, and the dictionary has those entries' expiries. */
  ghost predicate Tail(c: Cache, log: seq<Entry>, k: int, ttl: real) {
    && 0 <= k && k + |c.order| == |log|
    && forall i {:trigger c.order[i]} :: 0 <= i < |c.order| ==>
      c.order[i] == log[k + i].digest && c.order[i] in c.expiry && c.expiry[c.order[i]] == log[k + i].at + ttl
  }

  /** Every entry before index `k` is expired or outranked. */
  ghost predicate Gone(log: seq<Entry>, k: int, now: real, ttl: real, max: nat)
    requires k <= |log|
  {
    forall i :: 0 <= i < k ==> log[i].at + ttl <= now || i < |log| - max
  }

  ghost predicate Holds(c: Cache, log: seq<Entry>, now: real, ttl: real, max: nat) {
    var k := |log| - |c.order|;
    Shape(c) && Tail(c, log, k, ttl) && Gone(log, k, now, ttl, max)
  }

  lemma {:induction false} DropHeadShape(c: Cache)
    requires Shape(c) && c.order != []
    ensures Shape(DropHead(c))
  {
    var c' := DropHead(c);
    assert c.order == [c.order[0]] + c'.order;
    forall d ensures d in c'.expiry <==> d in c'.order {
      assert d in c.order <==> d == c.order[0] || d in c'.order;
      if d in c'.order {
        var j :| 0 <= j < |c'.order| && c'.order[j] == d;
        assert c.order[j + 1] == d;
      }
    }
  }

  lemma {:induction false} DropHeadTail(c: Cache, log: seq<Entry>, k: int, ttl: real)
    requires Shape(c) && Tail(c, log, k, ttl) && c.order != []
    ensures Tail(DropHead(c), log, k + 1, ttl)
  {
    var c' := DropHead(c);
    forall i {:trigger c'.order[i]} | 0 <= i < |c'.order|
      ensures c'.order[i] == log[k + 1 + i].digest && c'.order[i] in c'.expiry && c'.expiry[c'.order[i]] == log[k + 1 + i].at + ttl
    {
      assert c'.order[i] == c.order[i + 1];
    }
  }

  lemma {:induction false} HeadIsLogged(c: Cache, log: seq<Entry>, k: int, ttl: real)
    requires Tail(c, log, k, ttl) && c.order != []
    ensures 0 <= k < |log| && HeadExpiry(c) == log[k].at + ttl
  {
    assert c.order[0] == log[k].digest;
  }

  lemma {:induction false} DropHeadHolds(c: Cache, log: seq<Entry>, now: real, ttl: real, max: nat)
    requires Holds(c, log, now, ttl, max) && c.order != []
    requires HeadExpiry(c) <= now || |c.order| > max
    ensures Holds(DropHead(c), log, now, ttl, max)
  {
    hide Shape, Gone, HeadExpiry, Tail;
    var k := |log| - |c.order|;
    DropHeadShape(c);
    DropHeadTail(c, log, k, ttl);
    HeadIsLogged(c, log, k, ttl);
    GoneNext(log, k, now, ttl, max);
  }

  lemma GoneNext(log: seq<Entry>, k: nat, now: real, ttl: real, max: nat)
    requires k < |log| && Gone(log, k, now, ttl, max)
    requires log[k].at + ttl <= now || k < |log| - max
    ensures Gone(log, k + 1, now, ttl, max)
  {
  }

  lemma {:induction false} DropExpiredHolds(c: Cache, log: seq<Entry>, now: real, ttl: real, max: nat)
    requires Holds(c, log, now, ttl, max)
    ensures var c' := DropExpired(c, now);
            Holds(c', log, now, ttl, max) && (c'.order == [] || HeadExpiry(c') > now)
    decreases |c.order|
  {
    if c.order != [] && HeadExpiry(c) <= now {
      DropHeadHolds(c, log, now, ttl, max);
      DropExpiredHolds(DropHead(c), log, now, ttl, max);
    }
  }

  /** No entry held has expired. */
  ghost predicate Fresh(c: Cache, now: real) {
    forall i :: 0 <= i < |c.order| ==> c.order[i] in c.expiry && c.expiry[c.order[i]] > now
  }

  lemma {:induction false} HeadFreshAllFresh(c: Cache, log: seq<Entry>, now: real, ttl: real, max: nat)
    requires Holds(c, log, now, ttl, max) && LogOk(log, now)
    requires c.order == [] || HeadExpiry(c) > now
    ensures Fresh(c, now)
  {
    var k := |log| - |c.order|;
    forall i | 0 <= i < |c.order| ensures c.order[i] in c.expiry && c.expiry[c.order[i]] > now {
      assert c.order[0] == log[k].digest;
      assert i == 0 || log[k].at <= log[k + i].at;
    }
  }

  lemma {:induction false} DropOldestHolds(c: Cache, log: seq<Entry>, now: real, ttl: real, max: nat)
    requires Holds(c, log, now, ttl, max) && Fresh(c, now)
    ensures var c' := DropOldest(c, max);
            Holds(c', log, now, ttl, max) && Fresh(c', now) && |c'.order| <= max
    decreases |c.order|
  {
    if |c.order| > max {
      DropHeadHolds(c, log, now, ttl, max);
      var c' := DropHead(c);
      forall i | 0 <= i < |c'.order| ensures c'.order[i] in c'.expiry && c'.expiry[c'.order[i]] > now {
        assert c'.order[i] == c.order[i + 1];
      }
      DropOldestHolds(c', log, now, ttl, max);
    }
  }

  lemma {:induction false} SweptHolds(c: Cache, log: seq<Entry>, now: real, ttl: real, max: nat)
    requires Holds(c, log, now, ttl, max) && LogOk(log, now)
    ensures var s := Swept(c, now, max);
            Holds(s, log, now, ttl, max) && Fresh(s, now) && |s.order| <= max
  {
    DropExpiredHolds(c, log, now, ttl, max);
    HeadFreshAllFresh(DropExpired(c, now), log, now, ttl, max);
    DropOldestHolds(DropExpired(c, now), log, now, ttl, max);
  }

  /** After a sweep the cache holds exactly the remembered digests. */
  lemma {:induction false} SweptIsRemembered(s: Cache, log: seq<Entry>, digest: Digest, now: real, ttl: real, max: nat)
    requires Holds(s, log, now, ttl, max) && Fresh(s, now) && |s.order| <= max
    ensures digest in s.expiry <==> Remembered(log, digest, now, ttl, max)
    ensures digest in s.expiry ==> s.expiry[digest] > now
  {
    var k := |log| - |s.order|;
    if digest in s.expiry {
      var i :| 0 <= i < |s.order| && s.order[i] == digest;
      assert log[k + i].digest == digest;
    }
    if Remembered(log, digest, now, ttl, max) {
      var i :| 0 <= i < |log| && |log| - max <= i && log[i].digest == digest && log[i].at + ttl > now;
      assert s.order[i - k] == digest;
    }
  }

  lemma LaterHolds(c: Cache, log: seq<Entry>, before: real, now: real, ttl: real, max: nat)
    requires Holds(c, log, before, ttl, max) && LogOk(log, before) && before <= now
    ensures Holds(c, log, now, ttl, max) && LogOk(log, now)
  {
  }

  lemma {:induction false} TailFits(s: Cache, log: seq<Entry>, k: int, ttl: real)
    requires Tail(s, log, k, ttl)
    ensures 0 <= k <= |log|
  {
    assert |s.order| >= 0;
  }

  lemma {:induction false} AddHolds(s: Cache, log: seq<Entry>, digest: Digest, now: real, ttl: real, max: nat)
    requires Holds(s, log, now, ttl, max) && Fresh(s, now) && |s.order| <= max && LogOk(log, now)
    requires digest !in s.expiry
    ensures Holds(Cache(s.expiry[digest := now + ttl], s.order + [digest]), log + [Entry(digest, now)], now, ttl, max)
    ensures LogOk(log + [Entry(digest, now)], now)
  {
    hide Shape, Tail, Gone, LogOk, Fresh;
    TailFits(s, log, |log| - |s.order|, ttl);
    AddShape(s, digest, now + ttl);
    AddTail(s, log, |log| - |s.order|, digest, now, ttl);
    AddLog(log, |log| - |s.order|, Entry(digest, now), now, ttl, max);
  }

  lemma AddLog(log: seq<Entry>, k: nat, e: Entry, now: real, ttl: real, max: nat)
    requires k <= |log| && Gone(log, k, now, ttl, max) && LogOk(log, now) && e.at == now
    ensures Gone(log + [e], k, now, ttl, max) && LogOk(log + [e], now)
  {
  }

  lemma {:induction false} AddTail(s: Cache, log: seq<Entry>, k: int, digest: Digest, now: real, ttl: real)
    requires Tail(s, log, k, ttl) && digest !in s.expiry
    ensures Tail(Cache(s.expiry[digest := now + ttl], s.order + [digest]), log + [Entry(digest, now)], k, ttl)
  {
    var s' := Cache(s.expiry[digest := now + ttl], s.order + [digest]);
    var log' := log + [Entry(digest, now)];
    forall i {:trigger s'.order[i]} | 0 <= i < |s'.order|
      ensures s'.order[i] == log'[k + i].digest && s'.order[i] in s'.expiry && s'.expiry[s'.order[i]] == log'[k + i].at + ttl
    {
      if i < |s.order| {
        assert s'.order[i] == s.order[i];
      }
    }
  }

  lemma {:induction false} AddShape(s: Cache, digest: Digest, expires: real)
    requires Shape(s) && digest !in s.expiry
    ensures Shape(Cache(s.expiry[digest := expires], s.order + [digest]))
  {
    var order := s.order + [digest];
    assert digest !in s.order;
    assert forall d :: d in order <==> d in s.order || d == digest;
  }

  /** With a clock that never goes back the second expiry test in `contains` never succeeds: sweeping leaves nothing stale. */
  lemma {:induction false} QueryOnlySweeps(c: Cache, log: seq<Entry>, digest: Digest, now: real, ttl: real, max: nat)
    requires Holds(c, log, now, ttl, max) && LogOk(log, now)
    ensures AfterContains(c, digest, now, max) == Swept(c, now, max)
    ensures Holds(AfterContains(c, digest, now, max), log, now, ttl, max)
  {
    SweptHolds(c, log, now, ttl, max);
    SweptIsRemembered(Swept(c, now, max), log, digest, now, ttl, max);
  }

  lemma {:induction false} InsertHolds(c: Cache, log: seq<Entry>, digest: Digest, now: real, ttl: real, max: nat)
    requires Holds(c, log, now, ttl, max) && LogOk(log, now)
    ensures Holds(AfterAdd(c, digest, now, ttl, max), Logged(log, digest, now, ttl, max), now, ttl, max)
    ensures LogOk(Logged(log, digest, now, ttl, max), now)
  {
    var s := Swept(c, now, max);
    SweptHolds(c, log, now, ttl, max);
    SweptIsRemembered(s, log, digest, now, ttl, max);
    if digest in s.expiry {
      assert AfterAdd(c, digest, now, ttl, max) == s;
    } else {
      AddHolds(s, log, digest, now, ttl, max);
      assert AfterAdd(c, digest, now, ttl, max) == Cache(s.expiry[digest := now + ttl], s.order + [digest]);
    }
  }

  lemma {:induction false} RunHolds(ops: seq<Op>, now: real, ttl: real, max: nat)
    requires ClockNeverGoesBack(ops) && NotBefore(ops, now)
    ensures Holds(RunCache(ops, ttl, max), RunLog(ops, ttl, max), now, ttl, max)
    ensures LogOk(RunLog(ops, ttl, max), now)
  {
    if ops != [] {
      var before, op := ops[..|ops| - 1], ops[|ops| - 1];
      RunHolds(before, op.at, ttl, max);
      if op.Query? {
        QueryOnlySweeps(RunCache(before, ttl, max), RunLog(before, ttl, max), op.digest, op.at, ttl, max);
      } else {
        InsertHolds(RunCache(before, ttl, max), RunLog(before, ttl, max), op.digest, op.at, ttl, max);
      }
      LaterHolds(RunCache(ops, ttl, max), RunLog(ops, ttl, max), op.at, now, ttl, max);
    }
  }

  /**
   After every sequence of calls under a clock that never goes back, a query is answered with true
   exactly when the digest is among the last `max` effective additions and inside its lifetime.
   */
  lemma {:induction false} ContainsIsExact(ops: seq<Op>, digest: Digest, now: real, ttl: real, max: nat)
    requires ClockNeverGoesBack(ops) && NotBefore(ops, now)
    ensures Contains(RunCache(ops, ttl, max), digest, now, max)
      <==> Remembered(RunLog(ops, ttl, max), digest, now, ttl, max)
  {
    RunHolds(ops, now, ttl, max);
    SweptHolds(RunCache(ops, ttl, max), RunLog(ops, ttl, max), now, ttl, max);
    SweptIsRemembered(Swept(RunCache(ops, ttl, max), now, max), RunLog(ops, ttl, max), digest, now, ttl, max);
  }

  /** Always: no duplicates in the deque, the dictionary's keys and no others, expiries in order. */
  lemma {:induction false} DequeAgreesWithDictionary(ops: seq<Op>, ttl: real, max: nat)
    requires ClockNeverGoesBack(ops)
    ensures var c := RunCache(ops, ttl, max);
            && Shape(c)
            && (forall i, j :: 0 <= i < j < |c.order| ==> c.expiry[c.order[i]] <= c.expiry[c.order[j]])
            && |c.order| <= max + 1
  {
    var now := if ops == [] then 0.0 else ops[|ops| - 1].at;
    RunHolds(ops, now, ttl, max);
    var c, log := RunCache(ops, ttl, max), RunLog(ops, ttl, max);
    var k := |log| - |c.order|;
    forall i, j | 0 <= i < j < |c.order| ensures c.expiry[c.order[i]] <= c.expiry[c.order[j]] {
      assert log[k + i].at <= log[k + j].at;
    }
    SizeBound(ops, ttl, max);
  }

  lemma {:induction false} DropOldestSize(c: Cache, max: nat)
    ensures |DropOldest(c, max).order| <= max
    decreases |c.order|
  {
    if |c.order| > max {
      DropOldestSize(DropHead(c), max);
    }
  }

  /** Whatever the clock does, the deque holds at most one entry more than its cap. */
  lemma {:induction false} SizeBound(ops: seq<Op>, ttl: real, max: nat)
    ensures |RunCache(ops, ttl, max).order| <= max + 1
  {
    if ops != [] {
      var before, op := ops[..|ops| - 1], ops[|ops| - 1];
      DropOldestSize(DropExpired(RunCache(before, ttl, max), op.at), max);
    }
  }

  /** As many entries as the cap allows, and the oldest of them alive. */
  predicate FullAt(log: seq<Entry>, now: real, ttl: real, max: nat) {
    |log| >= max && (max > 0 ==> log[|log| - max].at + ttl > now)
  }

  /** A sweep leaves the cache full exactly when the last `max` additions are all alive. */
  lemma {:induction false} SweptFull(s: Cache, log: seq<Entry>, now: real, ttl: real, max: nat)
    requires Holds(s, log, now, ttl, max) && Fresh(s, now) && |s.order| <= max && LogOk(log, now)
    ensures |s.order| == max <==> FullAt(log, now, ttl, max)
  {
    var k := |log| - |s.order|;
    if |s.order| == max && max > 0 {
      assert s.order[0] == log[k].digest;
    }
    if |s.order| < max && |log| >= max {
      assert log[|log| - max].at + ttl <= now;
    }
  }

  /**
   The cap is exceeded, by one entry, exactly right after the addition of a digest that is not
   remembered to a log whose last `max` entries are all alive.
   */
  lemma {:induction false} OverCapExactly(ops: seq<Op>, op: Op, ttl: real, max: nat)
    requires ClockNeverGoesBack(ops + [op])
    ensures var log := RunLog(ops, ttl, max);
            |RunCache(ops + [op], ttl, max).order| == max + 1 <==>
              op.Insert? && !Remembered(log, op.digest, op.at, ttl, max) && FullAt(log, op.at, ttl, max)
    ensures |RunCache(ops + [op], ttl, max).order| <= max + 1
  {
    hide Remembered, Fresh, FullAt, LogOk, Swept;
    var all := ops + [op];
    assert all[..|ops|] == ops;
    assert forall i :: 0 <= i < |ops| ==> all[i] == ops[i];
    assert all[|ops|] == op;
    var c, log := RunCache(ops, ttl, max), RunLog(ops, ttl, max);
    RunHolds(ops, op.at, ttl, max);
    SweptHolds(c, log, op.at, ttl, max);
    var s := Swept(c, op.at, max);
    SweptIsRemembered(s, log, op.digest, op.at, ttl, max);
    SweptFull(s, log, op.at, ttl, max);
  }

  /** It is exceeded: a cache for one digest, and two of them within one lifetime. */
  lemma {:induction false} TwoInACacheForOne()
    ensures ClockNeverGoesBack([Insert(1, 1.0)] + [Insert(2, 2.0)])
    ensures |RunCache([Insert(1, 1.0)] + [Insert(2, 2.0)], 10.0, 1).order| == 2
  {
    var a, b := Insert(1, 1.0), Insert(2, 2.0);
    assert [a][..0] == [] && ([a] + [b])[..1] == [a];
    assert RunCache([a], 10.0, 1) == Cache(map[1 := 11.0], [1]);
  }

  // ---------------------------------------------------------------------------------------------
  // The second expiry test under any clock
  // ---------------------------------------------------------------------------------------------

  /** The query for `digest` finds an expired entry that sweeping left behind. */
  predicate FindsStale(c: Cache, digest: Digest, now: real, max: nat) {
    var s := Swept(c, now, max);
    digest in s.expiry && s.expiry[digest] <= now
  }

  function Dropped(before: Cache, after: Cache): int {
    |before.order| - |after.order|
  }

  /** The second cache is the first without some of its oldest entries. */
  ghost predicate Newest(before: Cache, after: Cache) {
    && Dropped(before, after) >= 0 && after.order == before.order[Dropped(before, after)..] && Shape(after)
    && forall d :: d in after.expiry ==> d in before.expiry && after.expiry[d] == before.expiry[d]
  }

  lemma {:induction false} DropHeadNewest(c: Cache, after: Cache)
    requires Shape(c) && c.order != [] && Newest(DropHead(c), after)
    ensures Newest(c, after)
  {
    hide Shape;
    var rest := DropHead(c);
    assert rest.order[Dropped(rest, after)..] == c.order[Dropped(c, after)..];
  }

  lemma {:induction false} AllNewest(c: Cache)
    requires Shape(c)
    ensures Newest(c, c)
  {
    assert c.order[0..] == c.order;
  }

  /** The first `m` entries have expired, and the next has not. */
  ghost predicate ExpiredUpTo(c: Cache, m: int, now: real)
    requires Shape(c) && 0 <= m <= |c.order|
  {
    && (forall i :: 0 <= i < m ==> c.expiry[c.order[i]] <= now)
    && (m < |c.order| ==> c.expiry[c.order[m]] > now)
  }

  lemma {:induction false} DropHeadExpired(c: Cache, m: int, now: real)
    requires Shape(c) && c.order != [] && HeadExpiry(c) <= now && Shape(DropHead(c))
    requires 1 <= m <= |c.order| && ExpiredUpTo(DropHead(c), m - 1, now)
    ensures ExpiredUpTo(c, m, now)
  {
    var rest := DropHead(c);
    forall i | 0 <= i < m ensures c.expiry[c.order[i]] <= now {
      if i > 0 {
        assert rest.order[i - 1] == c.order[i];
      }
    }
    if m < |c.order| {
      assert rest.order[m - 1] == c.order[m];
    }
  }

  lemma {:induction false} NoneExpired(c: Cache, now: real)
    requires Shape(c) && (c.order == [] || HeadExpiry(c) > now)
    ensures Newest(c, c) && ExpiredUpTo(c, 0, now)
  {
    AllNewest(c);
    assert c.order != [] ==> c.order[0] in c.order;
  }

  lemma {:induction false} DropExpiredNewest(c: Cache, now: real)
    requires Shape(c)
    ensures Newest(c, DropExpired(c, now)) && ExpiredUpTo(c, Dropped(c, DropExpired(c, now)), now)
    decreases |c.order|
  {
    hide Shape, Newest, ExpiredUpTo, HeadExpiry;
    if c.order == [] || HeadExpiry(c) > now {
      NoneExpired(c, now);
    } else {
      DropHeadShape(c);
      DropExpiredNewest(DropHead(c), now);
      var after := DropExpired(DropHead(c), now);
      DropHeadNewest(c, after);
      assert Dropped(DropHead(c), after) >= 0 by { NewestIsShorter(DropHead(c), after); }
      DropHeadExpired(c, Dropped(c, after), now);
    }
  }

  lemma {:induction false} NewestIsShorter(before: Cache, after: Cache)
    requires Newest(before, after)
    ensures 0 <= Dropped(before, after) <= |before.order|
  {
    assert |after.order| >= 0;
  }

  lemma {:induction false} DropOldestNewest(c: Cache, max: nat)
    requires Shape(c)
    ensures var after := DropOldest(c, max);
            Newest(c, after) && |after.order| == if |c.order| <= max then |c.order| else max
    decreases |c.order|
  {
    if |c.order| <= max {
      AllNewest(c);
    } else {
      DropHeadShape(c);
      DropOldestNewest(DropHead(c), max);
      DropHeadNewest(c, DropOldest(DropHead(c), max));
    }
  }

  lemma {:induction false} KeptExactly(before: Cache, after: Cache, j: nat)
    requires Shape(before) && Newest(before, after) && j < |before.order|
    ensures before.order[j] in after.expiry <==> Dropped(before, after) <= j
  {
    var m := Dropped(before, after);
    assert forall i :: 0 <= i < |after.order| ==> after.order[i] == before.order[m + i];
    if m <= j {
      assert after.order[j - m] == before.order[j];
    }
  }

  /**
   Any clock: the query for an entry finds it stale exactly when it has expired, is among the last
   `max` entries, and an entry added before it has not expired. Expiries in order rule that out.
   */
  lemma {:induction false} FindsStaleExactly(c: Cache, j: nat, now: real, max: nat)
    requires Shape(c) && j < |c.order|
    ensures FindsStale(c, c.order[j], now, max) <==>
      && c.expiry[c.order[j]] <= now && |c.order| - max <= j
      && exists i :: 0 <= i < j && c.expiry[c.order[i]] > now
  {
    hide DropExpired, DropOldest, Shape;
    var alive := DropExpired(c, now);
    DropExpiredNewest(c, now);
    DropOldestNewest(alive, max);
    var m, d := Dropped(c, alive), c.order[j];
    KeptExactly(c, alive, j);
    assert ExpiredUpTo(c, m, now);
    if m <= j {
      assert alive.order[j - m] == d;
      KeptExactly(alive, DropOldest(alive, max), j - m);
    }
  }

  /** A clock that goes back does it: the query removes digest 2 from the dictionary and leaves it in the deque. */
  lemma {:induction false} BackwardClockFindsStale()
    ensures var c := RunCache([Insert(1, 100.0), Insert(2, 50.0)], 10.0, 4096);
            FindsStale(c, 2, 70.0, 4096) && !Shape(AfterContains(c, 2, 70.0, 4096))
  {
    var a, b := Insert(1, 100.0), Insert(2, 50.0);
    assert [a][..0] == [] && [a, b][..1] == [a];
    assert RunCache([a], 10.0, 4096) == Cache(map[1 := 110.0], [1]);
    var c := RunCache([a, b], 10.0, 4096);
    assert c == Cache(map[1 := 110.0, 2 := 60.0], [1, 2]);
    assert Swept(c, 70.0, 4096) == c;
    var after := AfterContains(c, 2, 70.0, 4096);
    assert after.order[1] == 2 && 2 !in after.expiry;
  }
}
