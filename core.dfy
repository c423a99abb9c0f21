/**
 * Types shared across the crate: the error kinds the core reports, the
 * set operations carried by records, and the two dependency statuses.
 */
module Core {

  /** An octet of attachment data. */
  newtype byte = x: int | 0 <= x < 256

  datatype Option<+T> = None | Some(value: T)

  datatype Result<+T, +E> = Ok(value: T) | Err(error: E)

  /** The operation a set-log record stands for. */
  datatype SetOperation = Add | Del

  /** What a dependency origin reports for an endpoint. */
  datatype DependencyStatus = Pending | Complete

  /** The state of a ticket that a remote workspace reports. */
  datatype TicketState = Open | Closed

  /**
   * The core's error kinds that this model can raise. An origin's own
   * failure is a boxed error in the crate; here it is one of these kinds.
   */
  datatype Error =
    | Malformed(reason: string)
    | MalformedOrigin(slug: string)
    | UnknownOrigin(slug: string)
    | MalformedEndpoint(endpoint: string)
    | Origin(cause: Error)
}
