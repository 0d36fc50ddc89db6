/** The exchange registry as its readers see it: one row per domain, and the one
    rule that says whether a row may be routed to. */
module Registry {

  datatype Exchange = Exchange(domain: string, endpoint: string, trust: string, healthy: bool, priority: int)

  datatype Lookup = NotFound | ReadFailed | Row(exchange: Exchange)

  datatype Admission = Blocked | Down | Live

  /** Trust is read first: a withdrawn exchange is blocked however healthy. */
  function AdmissionOf(e: Exchange): Admission {
    if e.trust == "BLOCKED" then Blocked else if !e.healthy then Down else Live
  }

  /** The stored spelling of an endpoint: no trailing slash. */
  function CanonicalEndpoint(s: string): (r: string)
    ensures r <= s && (r == "" || r[|r| - 1] != '/')
    ensures forall i | |r| <= i < |s| :: s[i] == '/'
  {
    if s != "" && s[|s| - 1] == '/' then CanonicalEndpoint(s[..|s| - 1]) else s
  }
}
