/** Optional values (the model's stand-in for JavaScript's `undefined` on optional fields) and
    results (a value, or the message of the error the source throws or rejects with). */
module Wrappers {

  datatype Option<+T> = None | Some(value: T) {

    /** The value when present, otherwise `default`: JavaScript's `x ?? default`, or an object
        spread over a default. It agrees with `x || default` only where no present value is
        falsy, or where the default is that falsy value itself: the hearing `mode` enum, an
        instruction defaulting to "". String fallbacks that also replace "" are
        `EventsView.OrElse`. */
    function GetOr(default: T): T {
      match this
      case Some(v) => v
      case None => default
    }
  }

  datatype Result<+T> = Ok(value: T) | Err(error: string)
}
