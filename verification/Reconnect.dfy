/**
 The reconnect callback endpoint: the order of its checks, its two pieces of state, and the single
 use of a token over whole runs of requests.
 */
module Reconnect {
  import opened Text
  import Tokens = CallbackTokens
  import Cache = UsedTokens
  import Rate = RateLimiter

  /** What the ibctl client returned for the forwarded command. */
  datatype Reply = Unreachable | Raised | Replied(text: string)

  /** One request, handled at one instant. `known` says whether the mode has a registered instance. */
  datatype Request = Request(client: Rate.Client, post: bool, token: string, mode: string, at: real, known: bool, reply: Reply)

  datatype Response =
    | RateLimited | LookupFailed | KeyMissing | InvalidMode | InvalidToken(verdict: Tokens.Verdict) | ModeMismatch
    | Prompted | Replay | NoInstance | IbctlUnreachable | DispatchFailed | CommandRejected | Accepted

  datatype Endpoint = Endpoint(
    signer: Tokens.Signer, key: string, digest: string -> Cache.Digest,
    limits: Rate.Limits, ttl: real, max: nat)

  datatype State = State(table: Rate.Table, cache: Cache.Cache)

  const EMPTY := State(Rate.EMPTY, Cache.EMPTY)

  function Seconds(at: real): nat {
    if at.Floor < 0 then 0 else at.Floor
  }

  /** The whole second an instant falls in. */
  lemma SecondsMeaning(at: real)
    requires at >= 0.0
    ensures Seconds(at) as real <= at < Seconds(at) as real + 1.0
  {
  }

  predicate StartsWith(s: string, p: string) {
    p <= s
  }

  /** An empty reply, or one that starts with "error" or "nack" in any case. */
  predicate LooksLikeNack(text: string) {
    var result := Strip(text);
    result == "" || StartsWith(Lower(result), "error") || StartsWith(Lower(result), "nack")
  }

  /** The character is the lower-case letter, its capital, or for k the Kelvin sign. */
  predicate Spells(c: char, letter: char) {
    c == letter || c as int == letter as int - 32 || (letter == 'k' && c == '\U{212A}')
  }

  predicate Begins(s: string, word: string) {
    |word| <= |s| && forall i :: 0 <= i < |word| ==> Spells(s[i], word[i])
  }

  lemma LowerSpells(c: char, letter: char)
    requires 'a' <= letter <= 'z'
    ensures LowerChar(c) == letter <==> Spells(c, letter)
  {
  }

  lemma {:induction false} LowerBegins(s: string, word: string)
    requires forall i :: 0 <= i < |word| ==> 'a' <= word[i] <= 'z'
    ensures StartsWith(Lower(s), word) <==> Begins(s, word)
  {
    hide LowerChar, Spells;
    if |word| <= |s| {
      forall i | 0 <= i < |word| ensures Lower(s)[i] == word[i] <==> Spells(s[i], word[i]) {
        LowerSpells(s[i], word[i]);
      }
    }
  }

  /** Refused are the replies of which stripping leaves nothing, or "error" or "nack" in any case at the start. */
  lemma {:induction false} NackMeaning(before: string, core: string, after: string)
    requires AllSpace(before) && AllSpace(after)
    requires core != "" ==> !IsPySpace(core[0]) && !IsPySpace(core[|core| - 1])
    ensures LooksLikeNack(before + core + after) <==> core == "" || Begins(core, "error") || Begins(core, "nack")
  {
    hide Strip, Begins;
    StripIs(before, core, after);
    LowerBegins(core, "error");
    LowerBegins(core, "nack");
  }

  /** The checks shared by both verbs, after the rate limiter let the request through. */
  function Refusal(e: Endpoint, r: Request): Option<Response> {
    var mode := Lower(Strip(r.mode));
    if e.key == "" then Some(KeyMissing)
    else if !Tokens.ValidMode(mode) || '.' in mode then Some(InvalidMode)
    else
      var verdict := Tokens.Validate(e.signer, e.key, r.token, "reconnect", Seconds(r.at));
      if verdict != Tokens.Ok then Some(InvalidToken(verdict))
      else
        var tokenMode := Tokens.ExtractMode(r.token);
        if tokenMode.Some? && tokenMode.value != mode then Some(ModeMismatch) else None
  }

  /** What happens to a command once the token is known to be unused. */
  function Dispatch(r: Request): Response {
    if !r.known then NoInstance
    else
      match r.reply
      case Unreachable => IbctlUnreachable
      case Raised => DispatchFailed
      case Replied(text) => if LooksLikeNack(text) then CommandRejected else Accepted
  }

  function Respond(e: Endpoint, s: State, r: Request): Response {
    match Rate.OutcomeOf(s.table, r.client, r.at, e.limits.window, e.limits.max, e.limits.cap)
    case LookupError => LookupFailed
    case Limited => RateLimited
    case Allowed =>
      var refusal := Refusal(e, r);
      if refusal.Some? then refusal.value
      else if !r.post then Prompted
      else if Cache.Contains(s.cache, e.digest(r.token), r.at, e.max) then Replay
      else Dispatch(r)
  }

  /** The cache is consulted only by a POST that passed every other check. */
  predicate Consults(e: Endpoint, s: State, r: Request) {
    && Rate.OutcomeOf(s.table, r.client, r.at, e.limits.window, e.limits.max, e.limits.cap) == Rate.Allowed
    && Refusal(e, r) == None && r.post
  }

  function After(e: Endpoint, s: State, r: Request): State {
    var table := Rate.AfterCheck(s.table, r.client, r.at, e.limits.window, e.limits.max, e.limits.cap);
    if !Consults(e, s, r) then State(table, s.cache)
    else
      var seen := Cache.AfterContains(s.cache, e.digest(r.token), r.at, e.max);
      State(table, if Respond(e, s, r) == Accepted then Cache.AfterAdd(seen, e.digest(r.token), r.at, e.ttl, e.max) else seen)
  }

  class Handler {
    const e: Endpoint
    const limiter: Rate.Limiter
    const used: Cache.UsedTokenCache

    constructor (e: Endpoint)
      ensures this.e == e && Ready() && Current() == EMPTY
      ensures fresh(limiter) && fresh(used)
    {
      this.e := e;
      limiter := new Rate.Limiter(e.limits.window, e.limits.max, e.limits.cap);
      used := new Cache.UsedTokenCache(e.ttl, e.max);
    }

    predicate Ready() {
      && limiter.window == e.limits.window && limiter.max == e.limits.max && limiter.cap == e.limits.cap
      && used.ttl == e.ttl && used.max == e.max
    }

    function Current(): State
      reads limiter, used
    {
      State(limiter.Current(), used.Current())
    }

    method Handle(r: Request) returns (response: Response)
      requires Ready()
      modifies limiter, used
      ensures response == Respond(e, old(Current()), r)
      ensures Current() == After(e, old(Current()), r)
    {
      var outcome := limiter.Check(r.client, r.at);
      if outcome == Rate.LookupError {
        return LookupFailed;
      }
      if outcome == Rate.Limited {
        return RateLimited;
      }
      var refusal := Refusal(e, r);
      if refusal.Some? {
        return refusal.value;
      }
      if !r.post {
        return Prompted;
      }
      var digest := e.digest(r.token);
      var replay := used.Has(digest, r.at);
      if replay {
        return Replay;
      }
      response := Dispatch(r);
      if response == Accepted {
        used.Add(digest, r.at);
      }
    }
  }

  // ---------------------------------------------------------------------------------------------
  // Runs
  // ---------------------------------------------------------------------------------------------

  predicate ClockNeverGoesBack(requests: seq<Request>) {
    forall i, j :: 0 <= i < j < |requests| ==> requests[i].at <= requests[j].at
  }

  function StateAfter(e: Endpoint, requests: seq<Request>): State {
    if requests == [] then EMPTY
    else After(e, StateAfter(e, requests[..|requests| - 1]), requests[|requests| - 1])
  }

  /** The response to request `i` of a run. */
  function ResponseAt(e: Endpoint, requests: seq<Request>, i: nat): Response
    requires i < |requests|
  {
    Respond(e, StateAfter(e, requests[..i]), requests[i])
  }

  /** What the run has accepted: the digest and the instant of each acceptance, in order. */
  function AcceptedLog(e: Endpoint, requests: seq<Request>): seq<Cache.Entry> {
    if requests == [] then []
    else
      var n := |requests| - 1;
      AcceptedLog(e, requests[..n]) +
      if ResponseAt(e, requests, n) == Accepted then [Cache.Entry(e.digest(requests[n].token), requests[n].at)] else []
  }

  /** The calls a run makes on the cache. */
  function CacheOps(e: Endpoint, requests: seq<Request>): seq<Cache.Op> {
    if requests == [] then []
    else
      var n, r := |requests| - 1, requests[|requests| - 1];
      var d := e.digest(r.token);
      CacheOps(e, requests[..n]) +
      (if !Consults(e, StateAfter(e, requests[..n]), r) then []
       else if ResponseAt(e, requests, n) == Accepted then [Cache.Query(d, r.at), Cache.Insert(d, r.at)]
       else [Cache.Query(d, r.at)])
  }

  lemma {:induction false} RunAppend(ops: seq<Cache.Op>, op: Cache.Op, ttl: real, max: nat)
    ensures op.Query? ==>
      && Cache.RunCache(ops + [op], ttl, max) == Cache.AfterContains(Cache.RunCache(ops, ttl, max), op.digest, op.at, max)
      && Cache.RunLog(ops + [op], ttl, max) == Cache.RunLog(ops, ttl, max)
    ensures op.Insert? ==>
      && Cache.RunCache(ops + [op], ttl, max) == Cache.AfterAdd(Cache.RunCache(ops, ttl, max), op.digest, op.at, ttl, max)
      && Cache.RunLog(ops + [op], ttl, max) == Cache.Logged(Cache.RunLog(ops, ttl, max), op.digest, op.at, ttl, max)
  {
    assert (ops + [op])[..|ops|] == ops;
  }

  lemma {:induction false} TimelyAppend(ops: seq<Cache.Op>, more: seq<Cache.Op>, at: real, now: real)
    requires Cache.ClockNeverGoesBack(ops) && Cache.NotBefore(ops, at) && at <= now
    requires forall i :: 0 <= i < |more| ==> more[i].at == at
    ensures Cache.ClockNeverGoesBack(ops + more) && Cache.NotBefore(ops + more, now)
  {
  }

  lemma {:induction false} OpsAreTimely(e: Endpoint, requests: seq<Request>, now: real)
    requires ClockNeverGoesBack(requests)
    requires forall i :: 0 <= i < |requests| ==> requests[i].at <= now
    ensures Cache.ClockNeverGoesBack(CacheOps(e, requests)) && Cache.NotBefore(CacheOps(e, requests), now)
  {
    hide StateAfter, Respond, Consults, ResponseAt, Cache.ClockNeverGoesBack, Cache.NotBefore;
    if requests == [] {
      NoOps(now);
    } else {
      var n := |requests| - 1;
      OpsAreTimely(e, requests[..n], requests[n].at);
      var ops := CacheOps(e, requests[..n]);
      assert CacheOps(e, requests) == ops + CacheOps(e, requests)[|ops|..];
      TimelyAppend(ops, CacheOps(e, requests)[|ops|..], requests[n].at, now);
    }
  }

  lemma NoOps(now: real)
    ensures Cache.ClockNeverGoesBack([]) && Cache.NotBefore([], now)
  {
  }

  lemma QueryThenInsert(ops: seq<Cache.Op>, d: Cache.Digest, at: real, ttl: real, max: nat)
    ensures ops + [Cache.Query(d, at), Cache.Insert(d, at)] == (ops + [Cache.Query(d, at)]) + [Cache.Insert(d, at)]
  {
  }

  /** The cache's calls for one more request. */
  lemma {:induction false} OpsStep(e: Endpoint, requests: seq<Request>, n: nat)
    requires n < |requests|
    ensures var r, s := requests[n], StateAfter(e, requests[..n]);
            CacheOps(e, requests[..n + 1]) == CacheOps(e, requests[..n]) +
              (if !Consults(e, s, r) then []
               else if Respond(e, s, r) == Accepted then [Cache.Query(e.digest(r.token), r.at), Cache.Insert(e.digest(r.token), r.at)]
               else [Cache.Query(e.digest(r.token), r.at)])
    ensures StateAfter(e, requests[..n + 1]) == After(e, StateAfter(e, requests[..n]), requests[n])
    ensures AcceptedLog(e, requests[..n + 1]) == AcceptedLog(e, requests[..n]) +
      if ResponseAt(e, requests, n) == Accepted then [Cache.Entry(e.digest(requests[n].token), requests[n].at)] else []
  {
    var p := requests[..n + 1];
    assert |p| == n + 1 && p[..n] == requests[..n] && p[n] == requests[n];
  }

  lemma AcceptedConsults(e: Endpoint, s: State, r: Request)
    requires Respond(e, s, r) == Accepted
    ensures Consults(e, s, r) && !Cache.Contains(s.cache, e.digest(r.token), r.at, e.max)
    ensures Tokens.Validate(e.signer, e.key, r.token, "reconnect", Seconds(r.at)) == Tokens.Ok
  {
  }

  lemma {:induction false} RunClock(requests: seq<Request>, n: nat)
    requires ClockNeverGoesBack(requests) && n < |requests|
    ensures ClockNeverGoesBack(requests[..n])
    ensures forall i :: 0 <= i < n ==> requests[..n][i].at <= requests[n].at
  {
    assert forall i :: 0 <= i < n ==> requests[..n][i] == requests[i];
  }

  /** The cache is the result of its calls, and the log of effective additions is the acceptances. */
  lemma {:induction false} CacheFollowsRun(e: Endpoint, requests: seq<Request>, n: nat)
    requires ClockNeverGoesBack(requests) && n <= |requests|
    ensures StateAfter(e, requests[..n]).cache == Cache.RunCache(CacheOps(e, requests[..n]), e.ttl, e.max)
    ensures Cache.RunLog(CacheOps(e, requests[..n]), e.ttl, e.max) == AcceptedLog(e, requests[..n])
  {
    hide After, Respond, Consults, Cache.AfterContains, Cache.AfterAdd, Cache.Logged;
    if n > 0 {
      CacheFollowsRun(e, requests, n - 1);
      CacheStep(e, requests, n - 1);
    }
  }

  lemma {:induction false} CacheStep(e: Endpoint, requests: seq<Request>, n: nat)
    requires ClockNeverGoesBack(requests) && n < |requests|
    requires StateAfter(e, requests[..n]).cache == Cache.RunCache(CacheOps(e, requests[..n]), e.ttl, e.max)
    requires Cache.RunLog(CacheOps(e, requests[..n]), e.ttl, e.max) == AcceptedLog(e, requests[..n])
    ensures StateAfter(e, requests[..n + 1]).cache == Cache.RunCache(CacheOps(e, requests[..n + 1]), e.ttl, e.max)
    ensures Cache.RunLog(CacheOps(e, requests[..n + 1]), e.ttl, e.max) == AcceptedLog(e, requests[..n + 1])
  {
    hide StateAfter, CacheOps, AcceptedLog, Respond, Consults, Cache.RunCache, Cache.RunLog, Cache.AfterContains, Cache.AfterAdd, Cache.Contains;
    var r, s, ops := requests[n], StateAfter(e, requests[..n]), CacheOps(e, requests[..n]);
    var d := e.digest(r.token);
    OpsStep(e, requests, n);
    RunAppend(ops, Cache.Query(d, r.at), e.ttl, e.max);
    RunAppend(ops + [Cache.Query(d, r.at)], Cache.Insert(d, r.at), e.ttl, e.max);
    QueryThenInsert(ops, d, r.at, e.ttl, e.max);
    assert ops + [] == ops && AcceptedLog(e, requests[..n]) + [] == AcceptedLog(e, requests[..n]);
    if Respond(e, s, r) == Accepted {
      AcceptedConsults(e, s, r);
      RunClock(requests, n);
      OpsAreTimely(e, requests[..n], r.at);
      Cache.ContainsIsExact(ops, d, r.at, e.ttl, e.max);
    }
  }

  lemma ConsultedResponse(e: Endpoint, s: State, r: Request)
    requires Consults(e, s, r)
    ensures Respond(e, s, r) == Replay <==> Cache.Contains(s.cache, e.digest(r.token), r.at, e.max)
  {
  }

  /** A POST that passes every other check is refused as a replay exactly when its token is remembered. */
  lemma {:induction false} ReplayIsExact(e: Endpoint, requests: seq<Request>, n: nat)
    requires ClockNeverGoesBack(requests) && n < |requests|
    requires Consults(e, StateAfter(e, requests[..n]), requests[n])
    ensures ResponseAt(e, requests, n) == Replay <==>
      Cache.Remembered(AcceptedLog(e, requests[..n]), e.digest(requests[n].token), requests[n].at, e.ttl, e.max)
  {
    hide StateAfter, CacheOps, AcceptedLog, Respond, Consults, Cache.RunCache, Cache.RunLog, Cache.Contains, Cache.Remembered;
    ConsultedResponse(e, StateAfter(e, requests[..n]), requests[n]);
    CacheFollowsRun(e, requests, n);
    RunClock(requests, n);
    OpsAreTimely(e, requests[..n], requests[n].at);
    Cache.ContainsIsExact(CacheOps(e, requests[..n]), e.digest(requests[n].token), requests[n].at, e.ttl, e.max);
  }

  /** The requests as the rate limiter sees them: every one counts, whatever becomes of it. */
  function RateRequests(requests: seq<Request>): (r: seq<Rate.Request>)
    ensures |r| == |requests|
  {
    seq(|requests|, i requires 0 <= i < |requests| => Rate.Request(requests[i].client, requests[i].at))
  }

  lemma {:induction false} TableFollowsRun(e: Endpoint, requests: seq<Request>, n: nat)
    requires n <= |requests|
    ensures StateAfter(e, requests[..n]).table == Rate.RunTable(RateRequests(requests[..n]), e.limits)
  {
    hide Rate.AfterCheck;
    if n > 0 {
      TableFollowsRun(e, requests, n - 1);
      OpsStep(e, requests, n - 1);
      var all, before := RateRequests(requests[..n]), RateRequests(requests[..n - 1]);
      assert all[..n - 1] == before;
    }
  }

  /** The limiter lets a request through when its client is known or has room, and its window is not full. */
  ghost predicate WithinLimits(before: seq<Rate.Request>, r: Rate.Request, l: Rate.Limits) {
    && (r.client in Rate.Known(before, l) || |Rate.Known(before, l)| != l.cap)
    && |Rate.Since(Rate.Accepted(before, r.client, l), r.at - l.window)| < l.max
  }

  lemma {:induction false} LimiterIsExact(e: Endpoint, requests: seq<Request>, n: nat)
    requires ClockNeverGoesBack(requests) && n < |requests| && requests[0].at > 0.0 && e.limits.max >= 1
    ensures var r := requests[n];
            Rate.OutcomeOf(StateAfter(e, requests[..n]).table, r.client, r.at, e.limits.window, e.limits.max, e.limits.cap) == Rate.Allowed
            <==> WithinLimits(RateRequests(requests[..n]), Rate.Request(r.client, r.at), e.limits)
  {
    hide StateAfter, Rate.OutcomeOf, Rate.Known, Rate.Accepted, Rate.Since;
    LimiterOutcome(e, requests, n);
  }

  /**
   A token is accepted exactly when the request is within its client's limits, the key is configured,
   mode and token are valid and agree, it is a POST, the token is not remembered as used, and the
   instance is known and acknowledged the command.
   */
  lemma {:induction false} AcceptedExactly(e: Endpoint, requests: seq<Request>, n: nat)
    requires ClockNeverGoesBack(requests) && n < |requests| && requests[0].at > 0.0 && e.limits.max >= 1
    ensures var r := requests[n];
            var mode := Lower(Strip(r.mode));
            ResponseAt(e, requests, n) == Accepted <==>
              && WithinLimits(RateRequests(requests[..n]), Rate.Request(r.client, r.at), e.limits)
              && e.key != "" && Tokens.ValidMode(mode) && r.post
              && Tokens.Validate(e.signer, e.key, r.token, "reconnect", Seconds(r.at)) == Tokens.Ok
              && Tokens.ExtractMode(r.token) == Some(mode)
              && !Cache.Remembered(AcceptedLog(e, requests[..n]), e.digest(r.token), r.at, e.ttl, e.max)
              && r.known && r.reply.Replied? && !LooksLikeNack(r.reply.text)
  {
    hide StateAfter, AcceptedLog, Cache.Remembered, Cache.Contains, Rate.OutcomeOf, Rate.AfterCheck, WithinLimits, LooksLikeNack, Tokens.Validate, Tokens.ExtractMode;
    var r := requests[n];
    LimiterIsExact(e, requests, n);
    PlainModes(Lower(Strip(r.mode)));
    if Tokens.Validate(e.signer, e.key, r.token, "reconnect", Seconds(r.at)) == Tokens.Ok {
      ValidHasMode(e, r.token, Seconds(r.at));
    }
    if Consults(e, StateAfter(e, requests[..n]), r) {
      ReplayIsExact(e, requests, n);
    }
  }

  /**
   The response to every request of a run: the first check that fails names it. Limits and replay
   are told by the history of acceptances.
   */
  lemma {:induction false} ResponseExactly(e: Endpoint, requests: seq<Request>, n: nat)
    requires ClockNeverGoesBack(requests) && n < |requests| && requests[0].at > 0.0 && e.limits.max >= 1
    ensures var r, before := requests[n], RateRequests(requests[..n]);
            var mode := Lower(Strip(r.mode));
            var verdict := Tokens.Validate(e.signer, e.key, r.token, "reconnect", Seconds(r.at));
            ResponseAt(e, requests, n) ==
              if r.client !in Rate.Known(before, e.limits) && |Rate.Known(before, e.limits)| == e.limits.cap then LookupFailed
              else if |Rate.Since(Rate.Accepted(before, r.client, e.limits), r.at - e.limits.window)| >= e.limits.max then RateLimited
              else if e.key == "" then KeyMissing
              else if mode != "live" && mode != "paper" then InvalidMode
              else if verdict != Tokens.Ok then InvalidToken(verdict)
              else if Tokens.ExtractMode(r.token) != Some(mode) then ModeMismatch
              else if !r.post then Prompted
              else if Cache.Remembered(AcceptedLog(e, requests[..n]), e.digest(r.token), r.at, e.ttl, e.max) then Replay
              else if !r.known then NoInstance
              else if r.reply == Unreachable then IbctlUnreachable
              else if r.reply == Raised then DispatchFailed
              else if LooksLikeNack(r.reply.text) then CommandRejected
              else Accepted
  {
    hide StateAfter, AcceptedLog, Cache.Remembered, Cache.Contains, Rate.OutcomeOf, Rate.Known, Rate.Since, Rate.Accepted,
      LooksLikeNack, Tokens.Validate, Tokens.ExtractMode, Strip, Lower;
    var r := requests[n];
    LimiterOutcome(e, requests, n);
    PlainModes(Lower(Strip(r.mode)));
    if Tokens.Validate(e.signer, e.key, r.token, "reconnect", Seconds(r.at)) == Tokens.Ok {
      ValidHasMode(e, r.token, Seconds(r.at));
    }
    if Consults(e, StateAfter(e, requests[..n]), r) {
      ReplayIsExact(e, requests, n);
    }
  }

  lemma {:induction false} LimiterOutcome(e: Endpoint, requests: seq<Request>, n: nat)
    requires ClockNeverGoesBack(requests) && n < |requests| && requests[0].at > 0.0 && e.limits.max >= 1
    ensures var r, before := requests[n], RateRequests(requests[..n]);
            Rate.OutcomeOf(StateAfter(e, requests[..n]).table, r.client, r.at, e.limits.window, e.limits.max, e.limits.cap) ==
              if r.client !in Rate.Known(before, e.limits) && |Rate.Known(before, e.limits)| == e.limits.cap then Rate.LookupError
              else if |Rate.Since(Rate.Accepted(before, r.client, e.limits), r.at - e.limits.window)| >= e.limits.max then Rate.Limited
              else Rate.Allowed
  {
    hide StateAfter, Rate.OutcomeOf, Rate.Known, Rate.Accepted, Rate.RunTable, Rate.Since;
    TableFollowsRun(e, requests, n);
    var before, r := RateRequests(requests[..n]), Rate.Request(requests[n].client, requests[n].at);
    assert forall i :: 0 <= i < |before + [r]| ==> (before + [r])[i].at == requests[i].at;
    Rate.ExactDecision(before, r, e.limits);
  }

  /** A refused command leaves its token unused: the cache is as the query left it, and the log as it was. */
  lemma {:induction false} RefusedCommandKeepsToken(e: Endpoint, requests: seq<Request>, n: nat)
    requires n < |requests| && ResponseAt(e, requests, n) == CommandRejected
    ensures var r := requests[n];
            StateAfter(e, requests[..n + 1]).cache == Cache.AfterContains(StateAfter(e, requests[..n]).cache, e.digest(r.token), r.at, e.max)
    ensures AcceptedLog(e, requests[..n + 1]) == AcceptedLog(e, requests[..n])
  {
    hide Rate.AfterCheck, Rate.OutcomeOf, Cache.AfterContains, Cache.Contains, AcceptedLog, StateAfter, CacheOps, Refusal, LooksLikeNack;
    OpsStep(e, requests, n);
    RejectedConsults(e, StateAfter(e, requests[..n]), requests[n]);
  }

  lemma {:induction false} RejectedConsults(e: Endpoint, s: State, r: Request)
    requires Respond(e, s, r) == CommandRejected
    ensures Consults(e, s, r)
  {
    hide Rate.OutcomeOf, Cache.Contains, LooksLikeNack, Tokens.Validate, Tokens.ExtractMode;
  }

  lemma PlainModes(mode: string)
    ensures Tokens.ValidMode(mode) ==> '.' !in mode
  {
  }

  lemma ValidHasMode(e: Endpoint, token: string, now: nat)
    requires Tokens.Validate(e.signer, e.key, token, "reconnect", now) == Tokens.Ok
    ensures Tokens.ExtractMode(token).Some?
  {
  }

  // ---------------------------------------------------------------------------------------------
  // Single use
  // ---------------------------------------------------------------------------------------------

  lemma {:induction false} LogGrows(e: Endpoint, requests: seq<Request>, m: nat, n: nat)
    requires m <= n <= |requests|
    ensures AcceptedLog(e, requests[..m]) <= AcceptedLog(e, requests[..n])
    decreases n
  {
    hide AcceptedLog, StateAfter, CacheOps, ResponseAt;
    if m < n {
      LogGrows(e, requests, m, n - 1);
      OpsStep(e, requests, n - 1);
    }
  }

  lemma EmptyLog(e: Endpoint, requests: seq<Request>)
    ensures AcceptedLog(e, requests[..0]) == []
  {
  }

  lemma {:induction false} LogTimes(e: Endpoint, requests: seq<Request>, n: nat, now: real)
    requires ClockNeverGoesBack(requests) && n <= |requests|
    requires forall i :: 0 <= i < n ==> requests[i].at <= now
    ensures forall p :: 0 <= p < |AcceptedLog(e, requests[..n])| ==> AcceptedLog(e, requests[..n])[p].at <= now
  {
    hide AcceptedLog, ResponseAt, Respond, StateAfter, CacheOps;
    if n > 0 {
      LogTimes(e, requests, n - 1, now);
      OpsStep(e, requests, n - 1);
    } else {
      EmptyLog(e, requests);
    }
  }

  /** No stretch of acceptances shorter than the lifetime is longer than the cache is large. */
  ghost predicate UseBounded(log: seq<Cache.Entry>, ttl: real, max: nat) {
    forall p, q :: 0 <= p <= q < |log| && log[q].at < log[p].at + ttl ==> q - p + 1 <= max
  }

  /** An acceptance leaves its entry in the log at the position of the acceptances before it. */
  lemma {:induction false} AcceptanceLogged(e: Endpoint, requests: seq<Request>, i: nat, j: nat)
    requires i < j <= |requests| && ResponseAt(e, requests, i) == Accepted
    ensures var p := |AcceptedLog(e, requests[..i])|;
            var log := AcceptedLog(e, requests[..j]);
            p < |log| && log[p] == Cache.Entry(e.digest(requests[i].token), requests[i].at)
  {
    OpsStep(e, requests, i);
    LogGrows(e, requests, i + 1, j);
  }

  /** While its lifetime runs, an accepted token is remembered. */
  lemma {:induction false} StillRemembered(e: Endpoint, requests: seq<Request>, i: nat, j: nat)
    requires ClockNeverGoesBack(requests) && i < j < |requests|
    requires UseBounded(AcceptedLog(e, requests), e.ttl, e.max)
    requires ResponseAt(e, requests, i) == Accepted && requests[j].at < requests[i].at + e.ttl
    ensures Cache.Remembered(AcceptedLog(e, requests[..j]), e.digest(requests[i].token), requests[j].at, e.ttl, e.max)
  {
    var p, log := |AcceptedLog(e, requests[..i])|, AcceptedLog(e, requests[..j]);
    AcceptanceLogged(e, requests, i, j);
    LogTimes(e, requests, j, requests[j].at);
    LogGrows(e, requests, j, |requests|);
    assert requests[..|requests|] == requests;
    var q := |log| - 1;
    assert log[p] == AcceptedLog(e, requests)[p] && log[q] == AcceptedLog(e, requests)[q];
    assert q - p + 1 <= e.max;
  }

  lemma ExpiredAfter(e: Endpoint, token: string, now: nat)
    requires Tokens.ExpiryOf(token).Some? && Tokens.ExpiryOf(token).value <= now
    ensures Tokens.Validate(e.signer, e.key, token, "reconnect", now) != Tokens.Ok
  {
  }

  /**
   Once a token whose expiry is at most one cache lifetime away has been accepted, a later request
   with the same text either fails an earlier check, expiry among them, or is refused as a replay:
   its command is not forwarded again.
   */
  lemma {:induction false} AcceptedOnce(e: Endpoint, requests: seq<Request>, i: nat, j: nat)
    requires ClockNeverGoesBack(requests) && i < j < |requests| && requests[0].at >= 0.0
    requires UseBounded(AcceptedLog(e, requests), e.ttl, e.max)
    requires requests[i].token == requests[j].token && ResponseAt(e, requests, i) == Accepted
    requires var expiry := Tokens.ExpiryOf(requests[i].token);
             expiry.Some? && expiry.value as real <= requests[i].at + e.ttl
    ensures Consults(e, StateAfter(e, requests[..j]), requests[j]) ==> ResponseAt(e, requests, j) == Replay
    ensures ResponseAt(e, requests, j) != Accepted
  {
    var r, s := requests[j], StateAfter(e, requests[..j]);
    if ResponseAt(e, requests, j) == Accepted {
      AcceptedConsults(e, s, r);
    }
    if Consults(e, s, r) {
      if r.at < requests[i].at + e.ttl {
        StillRemembered(e, requests, i, j);
        ReplayIsExact(e, requests, j);
      } else {
        assert 0.0 <= r.at;
        ExpiredAfter(e, r.token, Seconds(r.at));
      }
    }
  }

  /** The configured endpoint: 10 requests in 60 seconds, 1024 clients, 4096 tokens for 12 hours. */
  predicate Configured(e: Endpoint) {
    e.limits == Rate.Limits(60.0, 10, 1024) && e.ttl == 43200.0 && e.max == 4096
  }

  /**
   A token minted for at most twelve hours, before its first use, is accepted at most once over every
   run in which no twelve hours see more than 4096 acceptances.
   */
  lemma {:induction false} MintedTokenSingleUse(e: Endpoint, requests: seq<Request>, i: nat, j: nat, mode: string, hours: int, minted: nat)
    requires Configured(e) && Tokens.Base64Url(e.signer) && e.key != ""
    requires Tokens.ValidMode(Lower(mode)) && hours <= 12
    requires ClockNeverGoesBack(requests) && i < j < |requests| && requests[0].at >= 0.0
    requires UseBounded(AcceptedLog(e, requests), e.ttl, e.max)
    requires minted as real <= requests[i].at
    requires Tokens.Mint(e.signer, e.key, mode, hours, "reconnect", minted) == Tokens.Minted(requests[i].token)
    requires requests[j].token == requests[i].token && ResponseAt(e, requests, i) == Accepted
    ensures Consults(e, StateAfter(e, requests[..j]), requests[j]) ==> ResponseAt(e, requests, j) == Replay
    ensures ResponseAt(e, requests, j) != Accepted
  {
    Tokens.MintedValidates(e.signer, e.key, mode, hours, "reconnect", minted, "reconnect", minted);
    AcceptedOnce(e, requests, i, j);
  }

  /** No acceptance so far was of a token with this digest. */
  predicate Unused(log: seq<Cache.Entry>, d: Cache.Digest) {
    forall p :: 0 <= p < |log| ==> log[p].digest != d
  }

  /** A POST within the limits, to an instance that is known and acknowledges the command. */
  ghost predicate Serviceable(e: Endpoint, requests: seq<Request>, n: nat)
    requires n < |requests|
  {
    var r := requests[n];
    && WithinLimits(RateRequests(requests[..n]), Rate.Request(r.client, r.at), e.limits)
    && r.post && r.known && r.reply.Replied? && !LooksLikeNack(r.reply.text)
  }

  /** In any run, a text that validates for its request's mode and was not accepted before is accepted. */
  lemma {:induction false} UnusedTextAccepted(e: Endpoint, requests: seq<Request>, n: nat)
    requires ClockNeverGoesBack(requests) && n < |requests| && requests[0].at > 0.0 && e.limits.max >= 1
    requires e.key != "" && Serviceable(e, requests, n)
    requires Tokens.ValidMode(Lower(Strip(requests[n].mode)))
    requires Tokens.Validate(e.signer, e.key, requests[n].token, "reconnect", Seconds(requests[n].at)) == Tokens.Ok
    requires Tokens.ExtractMode(requests[n].token) == Some(Lower(Strip(requests[n].mode)))
    requires Unused(AcceptedLog(e, requests[..n]), e.digest(requests[n].token))
    ensures ResponseAt(e, requests, n) == Accepted
  {
    hide WithinLimits, LooksLikeNack, Tokens.Validate, Tokens.ExtractMode, Respond, AcceptedLog, Rate.Known, Rate.Since;
    AcceptedExactly(e, requests, n);
  }

  /** The partner: after any history, the first use of a live minted token is accepted. */
  lemma {:induction false} FirstUseAccepted(e: Endpoint, requests: seq<Request>, n: nat, mode: string, hours: int, minted: nat)
    requires ClockNeverGoesBack(requests) && n < |requests| && requests[0].at > 0.0 && e.limits.max >= 1
    requires Tokens.Base64Url(e.signer) && e.key != "" && Serviceable(e, requests, n)
    requires Tokens.ValidMode(Lower(mode)) && Lower(Strip(requests[n].mode)) == Lower(mode)
    requires Tokens.Mint(e.signer, e.key, mode, hours, "reconnect", minted) == Tokens.Minted(requests[n].token)
    requires hours > 0 && Seconds(requests[n].at) < minted + hours * 3600
    requires Unused(AcceptedLog(e, requests[..n]), e.digest(requests[n].token))
    ensures ResponseAt(e, requests, n) == Accepted
  {
    hide Serviceable, Tokens.Validate, Tokens.ExtractMode, Tokens.Mint, ResponseAt, Unused, AcceptedLog;
    Tokens.MintedValidates(e.signer, e.key, mode, hours, "reconnect", minted, "reconnect", Seconds(requests[n].at));
    UnusedTextAccepted(e, requests, n);
  }

  /** What acceptance of a text with the given signed fields tells about them. */
  lemma {:induction false} AcceptedFields(e: Endpoint, requests: seq<Request>, i: nat, issued: nat, expires: nat, mode: string)
    requires ClockNeverGoesBack(requests) && i < |requests| && requests[0].at > 0.0 && e.limits.max >= 1
    requires ResponseAt(e, requests, i) == Accepted
    requires Tokens.Carries(e.signer, e.key, requests[i].token, "reconnect", issued, expires, mode)
    ensures e.key != "" && Tokens.ValidMode(mode) && issued < expires
  {
    hide AcceptedLog, ResponseAt, WithinLimits, LooksLikeNack, Cache.Remembered, SplitOn;
    AcceptedExactly(e, requests, i);
    Tokens.AcceptedMeans(e.signer, e.key, requests[i].token, "reconnect", Seconds(requests[i].at));
  }

  /** Whoever carries the fields validates exactly until they expire, and has their mode. */
  lemma {:induction false} CarrierValidates(e: Endpoint, token: string, issued: nat, expires: nat, mode: string, now: nat)
    requires Tokens.Carries(e.signer, e.key, token, "reconnect", issued, expires, mode) && issued < expires
    ensures Tokens.Validate(e.signer, e.key, token, "reconnect", now) == Tokens.Ok <==> now < expires
    ensures Tokens.ExtractMode(token) == Some(mode)
  {
    hide SplitOn, PyInt, Tokens.Prefix;
    Tokens.AcceptedMeans(e.signer, e.key, token, "reconnect", now);
  }

  /**
   Single use is of a text, not of its signed fields. Once a text was accepted, any text that carries
   the same intent, instants, mode and signature, however its numerals are written, is accepted
   exactly when the request is serviceable and asks for that mode, the fields have not expired, and
   that text's own digest is not remembered. The digest of the first text is remembered as long as
   the fields are alive, so only another text can get through.
   */
  lemma {:induction false} SameFieldsAcceptedExactly(
    e: Endpoint, requests: seq<Request>, i: nat, j: nat, issued: nat, expires: nat, mode: string)
    requires ClockNeverGoesBack(requests) && i < j < |requests| && requests[0].at > 0.0 && e.limits.max >= 1
    requires ResponseAt(e, requests, i) == Accepted
    requires Tokens.Carries(e.signer, e.key, requests[i].token, "reconnect", issued, expires, mode)
    requires Tokens.Carries(e.signer, e.key, requests[j].token, "reconnect", issued, expires, mode)
    ensures ResponseAt(e, requests, j) == Accepted <==>
      && Serviceable(e, requests, j) && Lower(Strip(requests[j].mode)) == mode && Seconds(requests[j].at) < expires
      && !Cache.Remembered(AcceptedLog(e, requests[..j]), e.digest(requests[j].token), requests[j].at, e.ttl, e.max)
    ensures UseBounded(AcceptedLog(e, requests), e.ttl, e.max) && expires as real <= requests[i].at + e.ttl ==>
      (ResponseAt(e, requests, j) == Accepted ==> e.digest(requests[j].token) != e.digest(requests[i].token))
  {
    hide AcceptedLog, ResponseAt, WithinLimits, LooksLikeNack, Cache.Remembered, UseBounded, Tokens.Carries, Tokens.Validate, Tokens.ExtractMode;
    AcceptedFields(e, requests, i, issued, expires, mode);
    CarrierValidates(e, requests[j].token, issued, expires, mode, Seconds(requests[j].at));
    AcceptedExactly(e, requests, j);
    if UseBounded(AcceptedLog(e, requests), e.ttl, e.max) && expires as real <= requests[i].at + e.ttl
      && ResponseAt(e, requests, j) == Accepted
    {
      SecondsBelow(requests[j].at, expires);
      StillRemembered(e, requests, i, j);
    }
  }

  lemma {:induction false} SecondsBelow(at: real, n: nat)
    requires Seconds(at) < n
    ensures at < n as real
  {
    assert at < (at.Floor + 1) as real;
  }

  /** One kind of such texts exists for every token: its fields with zeros before the issue instant. */
  lemma {:induction false} RespelledTokenAcceptedAgain(
    e: Endpoint, requests: seq<Request>, i: nat, j: nat, mode: string, hours: int, minted: nat, zeros: nat)
    requires ClockNeverGoesBack(requests) && i < j < |requests| && requests[0].at > 0.0 && e.limits.max >= 1
    requires Tokens.Base64Url(e.signer) && e.key != "" && Serviceable(e, requests, j)
    requires Tokens.ValidMode(Lower(mode)) && Lower(Strip(requests[j].mode)) == Lower(mode)
    requires Tokens.Mint(e.signer, e.key, mode, hours, "reconnect", minted) == Tokens.Minted(requests[i].token)
    requires ResponseAt(e, requests, i) == Accepted && hours > 0 && zeros > 0
    requires requests[j].token ==
      Tokens.Respelled(e.signer, e.key, Lower(mode), minted, minted + hours * 3600, "reconnect", zeros)
    requires Seconds(requests[j].at) < minted + hours * 3600
    requires Unused(AcceptedLog(e, requests[..j]), e.digest(requests[j].token))
    ensures requests[j].token != requests[i].token && ResponseAt(e, requests, j) == Accepted
  {
    hide Serviceable, Tokens.Validate, Tokens.ExtractMode, Tokens.TokenText, Tokens.Respelled, ResponseAt, Unused, AcceptedLog;
    var expires := minted + hours * 3600;
    Tokens.RespelledValidates(e.signer, e.key, Lower(mode), minted, expires, "reconnect", zeros, Seconds(requests[j].at));
    UnusedTextAccepted(e, requests, j);
  }

  /** Fewer requests than the table and the window hold cannot put anyone over the limits. */
  lemma {:induction false} FewRequests(before: seq<Rate.Request>, r: Rate.Request, l: Rate.Limits)
    requires |before| < l.max && |before| < l.cap
    ensures WithinLimits(before, r, l)
  {
    Rate.FewAccepted(before, r.client, l);
    Rate.FewSince(Rate.Accepted(before, r.client, l), r.at - l.window);
    Rate.FewKnown(before, l);
  }

  /** Such a run exists for every token: two requests, two spellings, two acceptances. */
  lemma {:induction false} TwoSpellingsAccepted(e: Endpoint, a: Request, b: Request, mode: string, hours: int, minted: nat, zeros: nat)
    requires hours > 0 && zeros > 0
    requires Configured(e) && Tokens.Base64Url(e.signer) && e.key != "" && Tokens.ValidMode(Lower(mode))
    requires Lower(Strip(a.mode)) == Lower(mode) && Lower(Strip(b.mode)) == Lower(mode)
    requires a.post && a.known && a.reply.Replied? && !LooksLikeNack(a.reply.text)
    requires b.post && b.known && b.reply.Replied? && !LooksLikeNack(b.reply.text)
    requires Tokens.Mint(e.signer, e.key, mode, hours, "reconnect", minted) == Tokens.Minted(a.token)
    requires b.token == Tokens.Respelled(e.signer, e.key, Lower(mode), minted, minted + hours * 3600, "reconnect", zeros)
    requires 0.0 < a.at <= b.at && Seconds(b.at) < minted + hours * 3600
    requires e.digest(a.token) != e.digest(b.token)
    ensures ResponseAt(e, [a, b], 0) == Accepted && ResponseAt(e, [a, b], 1) == Accepted
  {
    hide WithinLimits, LooksLikeNack, Tokens.Mint, Tokens.Respelled, ResponseAt, CacheOps, StateAfter, AcceptedLog;
    var both := [a, b];
    assert both[0] == a && both[1] == b;
    FewRequests(RateRequests(both[..0]), Rate.Request(a.client, a.at), e.limits);
    FewRequests(RateRequests(both[..1]), Rate.Request(b.client, b.at), e.limits);
    EmptyLog(e, both);
    FirstUseAccepted(e, both, 0, mode, hours, minted);
    OpsStep(e, both, 0);
    assert AcceptedLog(e, both[..1]) == [Cache.Entry(e.digest(a.token), a.at)];
    RespelledTokenAcceptedAgain(e, both, 0, 1, mode, hours, minted, zeros);
  }
}
