/** The admission decision engine: a fixed one-second counting window per
    effective key, and a penalty block once the window's limit is passed. */
module Limiter {
  import opened Results
  import opened Models
  import Memory
  import Store

  /** Go's `time.Second` in nanoseconds: the length of every counting window. */
  const Second: int := 1_000_000_000

  datatype RateLimiter = RateLimiter(config: LimiterConfig, store: Store.Backend)

  /** An error wrapped with `fmt.Errorf("<context>: %w", cause)`. */
  datatype WrappedError = WrappedError(context: string, cause: Store.StoreError)

  /** The text of a wrapped error: its context, a colon, then the cause. */
  function WrappedMessage(e: WrappedError): (s: string)
    ensures |s| == |e.context| + 2 + |e.cause.message|
    ensures s[..|e.context|] == e.context
    ensures s[|e.context|..|e.context| + 2] == ": "
    ensures s[|e.context| + 2..] == e.cause.message
  {
    e.context + ": " + e.cause.message
  }

  const CreateStoreContext: string := "falha ao criar armazenamento"

  /** The limits the limiter keeps, copied from the application configuration. */
  function LimiterConfigOf(cfg: Config): (c: LimiterConfig)
    ensures c.ipLimit == cfg.rateLimitIP && c.ipBlockTime == cfg.rateLimitIPBlockTime
    ensures c.tokenLimit == cfg.rateLimitToken && c.tokenBlockTime == cfg.rateLimitTokenBlockTime
  {
    LimiterConfig(cfg.rateLimitIP, cfg.rateLimitIPBlockTime, cfg.rateLimitToken, cfg.rateLimitTokenBlockTime)
  }

  /** Builds a limiter over the store the factory yields; fails exactly when
      the factory does, wrapping its error. */
  function NewRateLimiter(cfg: Config, factory: Store.Factory): (r: Result<RateLimiter, WrappedError>)
    ensures r.Err? <==> factory.Err?
    ensures factory.Err? ==> r.error == WrappedError(CreateStoreContext, factory.error)
    ensures r.Ok? ==> r.value.store == factory.value && r.value.config == LimiterConfigOf(cfg)
  {
    match factory
    case Err(e) => Err(WrappedError(CreateStoreContext, e))
    case Ok(store) => Ok(RateLimiter(LimiterConfigOf(cfg), store))
  }

  function TokenKey(token: string): string
  {
    "token:" + token
  }

  function IpKey(ip: string): string
  {
    "ip:" + ip
  }

  /** Everything `Allow` uses about the one key it evaluates: the key, the
      limit kind it reports, the limit and block length, and the context
      text of each possible store failure. */
  datatype Policy = Policy(
    key: string,
    kind: LimitType,
    limit: int,
    blockTime: int,
    blockedContext: string,
    incrementContext: string,
    blockContext: string)

  /** Precedence rule: a non-empty token selects the token key and limits;
      otherwise the client address selects the IP key and limits. */
  function PolicyFor(cfg: LimiterConfig, req: LimiterRequest): (p: Policy)
    ensures p.kind == TokenLimit <==> req.token != ""
    ensures req.token != "" ==> p.key == TokenKey(req.token) && p.limit == cfg.tokenLimit && p.blockTime == cfg.tokenBlockTime
    ensures req.token == "" ==> p.key == IpKey(req.ip) && p.limit == cfg.ipLimit && p.blockTime == cfg.ipBlockTime
  {
    if req.token != "" then
      Policy(TokenKey(req.token), TokenLimit, cfg.tokenLimit, cfg.tokenBlockTime,
             "erro ao verificar bloqueio do token",
             "erro ao incrementar contador do token",
             "erro ao bloquear token")
    else
      Policy(IpKey(req.ip), IPLimit, cfg.ipLimit, cfg.ipBlockTime,
             "erro ao verificar bloqueio do IP",
             "erro ao incrementar contador do IP",
             "erro ao bloquear IP")
  }

  /** What `Allow` returns: Go's nil, a `LimitExceededError`, or a wrapped
      store error. */
  datatype Verdict =
    | Permit
    | Deny(limitError: LimitExceededError)
    | Fail(storeError: WrappedError)

  /** The verdict together with the limiter after the call. */
  datatype Decision = Decision(verdict: Verdict, limiter: RateLimiter)

  /** The four steps for one key: refuse while blocked, count, and block when
      the count passes the limit. */
  function Enforce(p: Policy, b: Store.Backend, now: int): (r: (Verdict, Store.Backend))
    ensures r.1.failures == b.failures
    ensures forall k :: k != p.key ==> Memory.SameKey(b.mem, r.1.mem, k)
    ensures r.0.Deny? ==> r.0.limitError == NewLimitExceededError(p.kind)
    ensures r.0.Fail? ==> r.0.storeError.cause in b.failures.Values
  {
    match Store.IsBlocked(b, p.key, now)
    case Err(e) => (Fail(WrappedError(p.blockedContext, e)), b)
    case Ok(blocked) =>
      if blocked then (Deny(NewLimitExceededError(p.kind)), b)
      else
        match Store.IncrementRequestCount(b, p.key, Second, now)
        case Err(e) => (Fail(WrappedError(p.incrementContext, e)), b)
        case Ok(counted) =>
          var (count, b1) := counted;
          if count > p.limit then
            match Store.Block(b1, p.key, p.blockTime, now)
            case Err(e) => (Fail(WrappedError(p.blockContext, e)), b1)
            case Ok(b2) => (Deny(NewLimitExceededError(p.kind)), b2)
          else (Permit, b1)
  }

  /** Decides one request at instant `now`. Only the effective key's entries
      may change, and a denial names the kind of that key. */
  function Allow(rl: RateLimiter, req: LimiterRequest, now: int): (d: Decision)
    ensures d.limiter.config == rl.config
    ensures d.limiter.store.failures == rl.store.failures
    ensures forall k :: k != PolicyFor(rl.config, req).key ==> Memory.SameKey(rl.store.mem, d.limiter.store.mem, k)
    ensures d.verdict.Deny? ==> d.verdict.limitError == NewLimitExceededError(if req.token != "" then TokenLimit else IPLimit)
  {
    var (verdict, store) := Enforce(PolicyFor(rl.config, req), rl.store, now);
    Decision(verdict, rl.(store := store))
  }

  /** Releases the store. */
  function Close(rl: RateLimiter): (r: Result<(), Store.StoreError>)
    ensures r.Err? <==> Store.CloseOp in rl.store.failures
    ensures r.Err? ==> r.error == rl.store.failures[Store.CloseOp]
  {
    Store.Close(rl.store)
  }
}
