/**
 * What the controllers learn from probing a node: the node's address and the
 * outcome of one HTTP GET of its status document. The network itself is not
 * modelled; an outcome is given as a value.
 */
module Probe {
  import opened Wrappers

  /** An entry of a controller's NODES list. */
  datatype NodeAddr = NodeAddr(ip: string, port: int, name: string)

  /** The fields of a node's JSON status document that the controllers read; each may be missing. */
  datatype StatusBody = StatusBody(cpuLoad: Option<real>, currentUsers: Option<int>, maxUsers: Option<int>)

  /**
   * One probe: either the node answered (HTTP status, measured latency in
   * milliseconds and the decoded body), or the request or the decoding raised
   * an exception with the given message.
   */
  datatype Outcome =
    | Responded(status: int, latencyMs: real, body: StatusBody)
    | Raised(message: string)
}
