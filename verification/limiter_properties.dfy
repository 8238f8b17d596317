/** Properties of the decision engine over the in-memory store. */
module LimiterProperties {
  import opened Models
  import opened Limiter
  import Memory
  import Store

  /** None of the three calls `Allow` makes is made to fail. */
  predicate Reliable(b: Store.Backend)
  {
    && Store.IsBlockedOp !in b.failures
    && Store.IncrementRequestCountOp !in b.failures
    && Store.BlockOp !in b.failures
  }

  /** Keys built from a token and from an address never coincide. */
  lemma PrefixesDisjoint(token: string, ip: string)
    ensures TokenKey(token) != IpKey(ip)
  {
    assert TokenKey(token)[0] == 't' != 'i' == IpKey(ip)[0];
  }

  /** Requests with the same effective key are subject to the same limit kind. */
  lemma SameKeySameKind(cfg: LimiterConfig, a: LimiterRequest, b: LimiterRequest)
    requires PolicyFor(cfg, a).key == PolicyFor(cfg, b).key
    ensures PolicyFor(cfg, a).kind == PolicyFor(cfg, b).kind
    ensures PolicyFor(cfg, a).limit == PolicyFor(cfg, b).limit
    ensures PolicyFor(cfg, a).blockTime == PolicyFor(cfg, b).blockTime
  {
    if a.token != "" && b.token == "" {
      PrefixesDisjoint(a.token, b.ip);
    } else if a.token == "" && b.token != "" {
      PrefixesDisjoint(b.token, a.ip);
    }
  }

  /** A token request neither reads nor writes any IP entry, and an IP
      request none of the token entries. */
  lemma TrafficKindsIsolated(rl: RateLimiter, req: LimiterRequest, now: int, other: string)
    ensures req.token != "" ==> Memory.SameKey(rl.store.mem, Allow(rl, req, now).limiter.store.mem, IpKey(other))
    ensures req.token == "" ==> Memory.SameKey(rl.store.mem, Allow(rl, req, now).limiter.store.mem, TokenKey(other))
  {
    if req.token != "" {
      PrefixesDisjoint(req.token, other);
    } else {
      PrefixesDisjoint(other, req.ip);
    }
  }

  /** The decision reads only the effective key's entries: two limiters that
      agree there decide alike and still agree there afterwards. In
      particular a token request is not throttled by any IP state. */
  lemma DecisionReadsOnlyItsKey(rl1: RateLimiter, rl2: RateLimiter, req: LimiterRequest, now: int)
    requires rl1.config == rl2.config && rl1.store.failures == rl2.store.failures
    requires Memory.SameKey(rl1.store.mem, rl2.store.mem, PolicyFor(rl1.config, req).key)
    ensures Allow(rl1, req, now).verdict == Allow(rl2, req, now).verdict
    ensures Memory.SameKey(Allow(rl1, req, now).limiter.store.mem, Allow(rl2, req, now).limiter.store.mem,
                           PolicyFor(rl1.config, req).key)
  {
    var p := PolicyFor(rl1.config, req);
    var m1, m2 := rl1.store.mem, rl2.store.mem;
    assert Memory.IsBlocked(m1, p.key, now) == Memory.IsBlocked(m2, p.key, now);
    assert Memory.GetRequestCount(m1, p.key, now) == Memory.GetRequestCount(m2, p.key, now);
    var (c1, n1) := Memory.IncrementRequestCount(m1, p.key, Second, now);
    var (c2, n2) := Memory.IncrementRequestCount(m2, p.key, Second, now);
    assert Memory.SameKey(n1, n2, p.key);
    assert Memory.SameKey(Memory.Block(n1, p.key, p.blockTime, now), Memory.Block(n2, p.key, p.blockTime, now), p.key);
  }

  /** A blocked key is refused at once: nothing is counted and the limiter
      is returned unchanged. */
  lemma BlockedDeniesWithoutCounting(rl: RateLimiter, req: LimiterRequest, now: int)
    requires Store.IsBlockedOp !in rl.store.failures
    requires Memory.IsBlocked(rl.store.mem, PolicyFor(rl.config, req).key, now)
    ensures Allow(rl, req, now) == Decision(Deny(NewLimitExceededError(PolicyFor(rl.config, req).kind)), rl)
  {
  }

  /** An unblocked key is counted exactly once; the request passes while the
      new count is at most the limit (so a count equal to the limit passes),
      and beyond it the key is blocked for the configured time. */
  lemma UnblockedCountsOnce(rl: RateLimiter, req: LimiterRequest, now: int)
    requires Reliable(rl.store)
    requires !Memory.IsBlocked(rl.store.mem, PolicyFor(rl.config, req).key, now)
    ensures
      var p := PolicyFor(rl.config, req);
      var (count, counted) := Memory.IncrementRequestCount(rl.store.mem, p.key, Second, now);
      var d := Allow(rl, req, now);
      && count == Memory.GetRequestCount(rl.store.mem, p.key, now) + 1
      && (count <= p.limit ==> d.verdict == Permit && d.limiter.store.mem == counted)
      && (count > p.limit ==>
            d.verdict == Deny(NewLimitExceededError(p.kind))
            && d.limiter.store.mem == Memory.Block(counted, p.key, p.blockTime, now))
  {
  }

  /** Once a request trips the limit, every request with the same effective
      key is refused, uncounted, until the block time has elapsed. */
  lemma PenaltyHolds(rl: RateLimiter, req: LimiterRequest, now0: int, req2: LimiterRequest, t: int)
    requires Store.IsBlockedOp !in rl.store.failures
    requires !Memory.IsBlocked(rl.store.mem, PolicyFor(rl.config, req).key, now0)
    requires Allow(rl, req, now0).verdict.Deny?
    requires PolicyFor(rl.config, req2).key == PolicyFor(rl.config, req).key
    requires now0 <= t < now0 + PolicyFor(rl.config, req).blockTime
    ensures
      var rl1 := Allow(rl, req, now0).limiter;
      Allow(rl1, req2, t) == Decision(Deny(NewLimitExceededError(PolicyFor(rl.config, req).kind)), rl1)
  {
    SameKeySameKind(rl.config, req, req2);
  }

  /** When the block has run out the key starts a fresh window: with a limit
      of at least one the next request passes with a count of 1. */
  lemma BlockExpiryRestartsCount(rl: RateLimiter, req: LimiterRequest, now0: int, req2: LimiterRequest, t: int)
    requires Reliable(rl.store)
    requires !Memory.IsBlocked(rl.store.mem, PolicyFor(rl.config, req).key, now0)
    requires Allow(rl, req, now0).verdict.Deny?
    requires PolicyFor(rl.config, req2).key == PolicyFor(rl.config, req).key
    requires PolicyFor(rl.config, req).limit >= 1
    requires t >= now0 + PolicyFor(rl.config, req).blockTime
    ensures
      var d := Allow(Allow(rl, req, now0).limiter, req2, t);
      && d.verdict == Permit
      && Memory.GetRequestCount(d.limiter.store.mem, PolicyFor(rl.config, req).key, t) == 1
  {
    SameKeySameKind(rl.config, req, req2);
  }

  /** A store failure ends the decision with that failure, wrapped in the
      context of the step that failed, and never as a limit verdict. A
      failing block check or increment changes nothing; a failing block
      leaves the increment that preceded it in place. */
  lemma StoreFailuresShortCircuit(rl: RateLimiter, req: LimiterRequest, now: int)
    ensures
      var p := PolicyFor(rl.config, req);
      var d := Allow(rl, req, now);
      && (Store.IsBlockedOp in rl.store.failures ==>
            d == Decision(Fail(WrappedError(p.blockedContext, rl.store.failures[Store.IsBlockedOp])), rl))
      && (Store.IsBlockedOp !in rl.store.failures && !Memory.IsBlocked(rl.store.mem, p.key, now)
          && Store.IncrementRequestCountOp in rl.store.failures ==>
            d == Decision(Fail(WrappedError(p.incrementContext, rl.store.failures[Store.IncrementRequestCountOp])), rl))
      && (Store.IsBlockedOp !in rl.store.failures && !Memory.IsBlocked(rl.store.mem, p.key, now)
          && Store.IncrementRequestCountOp !in rl.store.failures
          && Memory.GetRequestCount(rl.store.mem, p.key, now) + 1 > p.limit
          && Store.BlockOp in rl.store.failures ==>
            && d.verdict == Fail(WrappedError(p.blockContext, rl.store.failures[Store.BlockOp]))
            && d.limiter.store.mem == Memory.IncrementRequestCount(rl.store.mem, p.key, Second, now).1)
      && (Reliable(rl.store) ==> !d.verdict.Fail?)
  {
  }

  /** `n` calls of `Allow` for the same request at the same instant. */
  function Burst(rl: RateLimiter, req: LimiterRequest, now: int, n: nat): (r: (seq<Verdict>, RateLimiter))
    ensures |r.0| == n
    ensures r.1.config == rl.config && r.1.store.failures == rl.store.failures
    ensures forall k :: k != PolicyFor(rl.config, req).key ==> Memory.SameKey(rl.store.mem, r.1.store.mem, k)
  {
    if n == 0 then ([], rl)
    else
      var (verdicts, rl1) := Burst(rl, req, now, n - 1);
      var d := Allow(rl1, req, now);
      Memory.OthersUnchangedChain(rl.store.mem, rl1.store.mem, d.limiter.store.mem, PolicyFor(rl.config, req).key);
      (verdicts + [d.verdict], d.limiter)
  }

  /** Starting from an empty, unblocked window, the first `limit` calls
      within one instant all pass, and the window then holds their number. */
  lemma {:induction false} BurstWithinLimit(rl: RateLimiter, req: LimiterRequest, now: int, n: nat)
    requires Reliable(rl.store)
    requires Memory.GetRequestCount(rl.store.mem, PolicyFor(rl.config, req).key, now) == 0
    requires !Memory.IsBlocked(rl.store.mem, PolicyFor(rl.config, req).key, now)
    requires n <= PolicyFor(rl.config, req).limit
    ensures forall i :: 0 <= i < n ==> Burst(rl, req, now, n).0[i] == Permit
    ensures Memory.GetRequestCount(Burst(rl, req, now, n).1.store.mem, PolicyFor(rl.config, req).key, now) == n
    ensures !Memory.IsBlocked(Burst(rl, req, now, n).1.store.mem, PolicyFor(rl.config, req).key, now)
  {
    if n > 0 {
      BurstWithinLimit(rl, req, now, n - 1);
      var (verdicts, rl1) := Burst(rl, req, now, n - 1);
      UnblockedCountsOnce(rl1, req, now);
    }
  }

  /** From an empty, unblocked window at one instant, exactly `limit` calls
      pass and the next is refused with the kind of the request's key. */
  lemma {:induction false} BurstPastLimit(rl: RateLimiter, req: LimiterRequest, now: int)
    requires Reliable(rl.store)
    requires Memory.GetRequestCount(rl.store.mem, PolicyFor(rl.config, req).key, now) == 0
    requires !Memory.IsBlocked(rl.store.mem, PolicyFor(rl.config, req).key, now)
    requires PolicyFor(rl.config, req).limit >= 0
    ensures
      var limit := PolicyFor(rl.config, req).limit;
      var kind := if req.token != "" then TokenLimit else IPLimit;
      Burst(rl, req, now, limit + 1).0 == seq(limit, _ => Permit) + [Deny(NewLimitExceededError(kind))]
  {
    var limit := PolicyFor(rl.config, req).limit;
    BurstWithinLimit(rl, req, now, limit);
    var (verdicts, rl1) := Burst(rl, req, now, limit);
    UnblockedCountsOnce(rl1, req, now);
    assert verdicts == seq(limit, _ => Permit);
  }

  /** A limiter built over a fresh in-memory store admits exactly `limit`
      requests from one client within an instant and refuses the next, for
      address and token clients alike. */
  lemma FreshLimiterAdmitsExactlyLimit(cfg: Config, req: LimiterRequest, now: int)
    requires PolicyFor(LimiterConfigOf(cfg), req).limit >= 0
    ensures
      var rl := NewRateLimiter(cfg, Store.MemoryFactory()).value;
      var limit := if req.token != "" then cfg.rateLimitToken else cfg.rateLimitIP;
      var kind := if req.token != "" then TokenLimit else IPLimit;
      Burst(rl, req, now, limit + 1).0 == seq(limit, _ => Permit) + [Deny(NewLimitExceededError(kind))]
  {
    var rl := NewRateLimiter(cfg, Store.MemoryFactory()).value;
    BurstPastLimit(rl, req, now);
  }

  /** Requests from an address that is one short of its IP limit are,
      once they carry a token, counted against the token limit alone. */
  lemma TokenOverridesIp(cfg: Config, ip: string, token: string, now: int)
    requires token != ""
    requires cfg.rateLimitIP >= 1 && cfg.rateLimitToken >= 0
    ensures
      var rl := NewRateLimiter(cfg, Store.MemoryFactory()).value;
      var afterIp := Burst(rl, LimiterRequest(ip, ""), now, cfg.rateLimitIP - 1);
      && afterIp.0 == seq(cfg.rateLimitIP - 1, _ => Permit)
      && Burst(afterIp.1, LimiterRequest(ip, token), now, cfg.rateLimitToken + 1).0
         == seq(cfg.rateLimitToken, _ => Permit) + [Deny(NewLimitExceededError(TokenLimit))]
  {
    var rl := NewRateLimiter(cfg, Store.MemoryFactory()).value;
    var ipReq := LimiterRequest(ip, "");
    var tokenReq := LimiterRequest(ip, token);
    BurstWithinLimit(rl, ipReq, now, cfg.rateLimitIP - 1);
    var afterIp := Burst(rl, ipReq, now, cfg.rateLimitIP - 1);
    assert afterIp.0 == seq(cfg.rateLimitIP - 1, _ => Permit);
    PrefixesDisjoint(token, ip);
    assert Memory.SameKey(rl.store.mem, afterIp.1.store.mem, TokenKey(token));
    BurstPastLimit(afterIp.1, tokenReq, now);
  }

  /** An address client with IP limit `L >= 1`: `L` requests pass, the next
      is refused and blocks the address, and the first request after the
      block time passes again with a window count of 1. */
  lemma {:induction false} BlockThenRecover(cfg: Config, ip: string, now: int, t: int)
    requires cfg.rateLimitIP >= 1
    requires t >= now + cfg.rateLimitIPBlockTime
    ensures
      var rl := NewRateLimiter(cfg, Store.MemoryFactory()).value;
      var req := LimiterRequest(ip, "");
      var burst := Burst(rl, req, now, cfg.rateLimitIP);
      var refused := Allow(burst.1, req, now);
      var after := Allow(refused.limiter, req, t);
      && burst.0 == seq(cfg.rateLimitIP, _ => Permit)
      && refused.verdict == Deny(NewLimitExceededError(IPLimit))
      && after.verdict == Permit
      && Memory.GetRequestCount(after.limiter.store.mem, IpKey(ip), t) == 1
  {
    var rl := NewRateLimiter(cfg, Store.MemoryFactory()).value;
    var req := LimiterRequest(ip, "");
    BurstWithinLimit(rl, req, now, cfg.rateLimitIP);
    var burst := Burst(rl, req, now, cfg.rateLimitIP);
    assert burst.0 == seq(cfg.rateLimitIP, _ => Permit);
    UnblockedCountsOnce(burst.1, req, now);
    BlockExpiryRestartsCount(burst.1, req, now, req, t);
  }

  /** The address scenario of the limiter's unit tests: an IP limit of 3 and
      five-minute blocks; three requests pass and the fourth is refused as an
      IP limit. */
  lemma IpTestScenario(now: int)
    ensures
      var minute := 60 * Second;
      var cfg := Config("", 3, 5 * minute, 5, 5 * minute, "", "", "", 0, "");
      var rl := NewRateLimiter(cfg, Store.MemoryFactory()).value;
      Burst(rl, LimiterRequest("192.168.1.1", ""), now, 4).0
        == [Permit, Permit, Permit, Deny(NewLimitExceededError(IPLimit))]
  {
    var minute := 60 * Second;
    var cfg := Config("", 3, 5 * minute, 5, 5 * minute, "", "", "", 0, "");
    FreshLimiterAdmitsExactlyLimit(cfg, LimiterRequest("192.168.1.1", ""), now);
    assert seq(3, _ => Permit) == [Permit, Permit, Permit];
  }
}
