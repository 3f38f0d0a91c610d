/** The probe adapter: what one ping of a host can yield, and how the
    monitor turns that into "the host answered". */
module Probe {

  /** What a single call to the ping library produces: a round-trip time,
      `None` (the probe timed out), `False` (the probe failed, e.g. an
      unresolvable name), or an exception raised out of the call. */
  datatype Outcome =
    | Latency(seconds: real)
    | Timeout
    | Error
    | Raised

  /** The host is considered up exactly when the library returned a value
      that is neither `None` nor `False`; an exception counts as down.
      A latency of zero still counts as up, since the test is by identity
      with `None` and `False`, not by truthiness. */
  function Reachable(o: Outcome): (up: bool)
    ensures up <==> o.Latency?
    ensures o == Timeout || o == Error || o == Raised ==> !up
  {
    match o
    case Raised => false
    case _ => o != Timeout && o != Error
  }
}
