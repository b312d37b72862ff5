/** Optional values and remote-call results, shared by the inventory model. */
module Values {

  /** A JavaScript value that may be `undefined`/`null` (None) or present (Some). */
  datatype Option<+T> = None | Some(value: T) {

    /** The present value, or `default` when absent. */
    function ValueOr(default: T): T {
      match this
      case Some(v) => v
      case None => default
    }
  }

  /** How an awaited remote call ended: its promise resolved, or it threw. */
  datatype CallResult = Resolved | Rejected
}
