/** Optional values and the error results of calls the traceroute makes into
    code outside this model (sockets, the ICMP codec, DNS). */
module Outcomes {

  datatype Option<+T> = None | Some(value: T)

  /** A Go `(value, err)` pair: either the value, or the error the callee
      reported, kept as its message. */
  datatype Result<+T> = Ok(value: T) | Err(cause: string)
}
