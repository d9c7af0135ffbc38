/**
 * The classes of HTTP status codes the probes tell apart (section 15 of
 * RFC 9110).
 */
module Http {

  /** A 2xx code: the request succeeded (section 15.3 of RFC 9110). */
  predicate Successful(code: int)
  {
    200 <= code < 300
  }

  /** A 3xx code: the target is elsewhere (section 15.4 of RFC 9110). */
  predicate Redirection(code: int)
  {
    300 <= code < 400
  }
}
