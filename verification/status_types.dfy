/**
 Value types shared by the status stores of the liveness dashboard.

 Clock readings and ping latencies are carried around but never inspected by
 the logic modelled here, so they are small wrapper datatypes whose contents
 do not matter to any contract.
 */
module StatusTypes {

  /** An optional value; Python's `None` is `None` here. */
  datatype Option<+T> = None | Some(value: T)

  /** A reading of the UTC clock. */
  datatype Instant = Instant(ticks: int)

  /** A round-trip time in milliseconds, as parsed from ping's output or measured. */
  datatype Latency = Latency(ms: real)
}
