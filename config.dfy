/** Process-wide settings read by the token codec. app/core/config.py loads
    only database credentials; the signing secret, the algorithm name and the
    two lifetimes the codec reads from it are not defined there, so they are
    left as constants whose values the model does not fix, except that both
    lifetimes are positive numbers of minutes. */
module Config {

  type PositiveMinutes = m: int | m > 0 witness 1

  /** The HMAC secret shared by signing and verification. */
  const SECRET_KEY: string

  /** The one algorithm name that is written into tokens and accepted back. */
  const ALGORITHM: string

  const ACCESS_TOKEN_EXPIRE_MINUTES: PositiveMinutes

  const REFRESH_TOKEN_EXPIRE_MINUTES: PositiveMinutes

  /** Instants and durations are whole seconds; `timedelta(minutes = m)`. */
  function Minutes(m: int): (seconds: int)
    ensures m > 0 ==> seconds > 0
  {
    60 * m
  }
}
