/** Value types of the rate limiter package: limit kinds, requests, the
    limit-exceeded error and the limiter configuration. */
module Models {

  /** Which limit a denial refers to. In Go this is an `int` type whose two
      constants are declared with `iota`. */
  datatype LimitType = IPLimit | TokenLimit

  /** The integer value `iota` gives each constant. */
  function Ordinal(t: LimitType): (n: int)
    ensures 0 <= n <= 1
    ensures t == IPLimit <==> n == 0
    ensures t == TokenLimit <==> n == 1
  {
    match t
    case IPLimit => 0
    case TokenLimit => 1
  }

  /** One admission question: the client address and the (possibly empty)
      API token. */
  datatype LimiterRequest = LimiterRequest(ip: string, token: string)

  /** The one text every limit-exceeded error carries. */
  const LimitExceededMessage: string :=
    "you have reached the maximum number of requests or actions allowed within a certain time frame"

  /** The error `Allow` returns when a request is refused. */
  datatype LimitExceededError = LimitExceededError(limitType: LimitType, message: string)

  function NewLimitExceededError(t: LimitType): (e: LimitExceededError)
    ensures e.limitType == t
    ensures e.message == LimitExceededMessage
  {
    LimitExceededError(t, LimitExceededMessage)
  }

  /** Go's `error` interface method: the text shown to the client. */
  function Error(e: LimitExceededError): (s: string)
    ensures s == e.message
  {
    e.message
  }

  /** The two kinds are different constants with the values 0 and 1, and an
      error built for one kind is never the error built for the other. */
  lemma LimitKindsDistinct()
    ensures Ordinal(IPLimit) == 0 && Ordinal(TokenLimit) == 1
    ensures forall a, b :: Ordinal(a) == Ordinal(b) ==> a == b
    ensures NewLimitExceededError(IPLimit) != NewLimitExceededError(TokenLimit)
  {
  }

  /** The client-facing text does not reveal which limit was hit. */
  lemma MessageIndependentOfKind(a: LimitType, b: LimitType)
    ensures Error(NewLimitExceededError(a)) == Error(NewLimitExceededError(b)) == LimitExceededMessage
  {
  }

  /** The whole application configuration. Durations are integer
      nanoseconds, as in Go's `time.Duration`. */
  datatype Config = Config(
    serverPort: string,
    rateLimitIP: int,
    rateLimitIPBlockTime: int,
    rateLimitToken: int,
    rateLimitTokenBlockTime: int,
    redisHost: string,
    redisPort: string,
    redisPassword: string,
    redisDB: int,
    storageType: string)

  /** The part of the configuration the limiter keeps. */
  datatype LimiterConfig = LimiterConfig(
    ipLimit: int,
    ipBlockTime: int,
    tokenLimit: int,
    tokenBlockTime: int)
}
