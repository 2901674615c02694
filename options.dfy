/** An optional value: `None` plays the part of JavaScript's `null`/`undefined`. */
module Options {

  datatype Option<T> = None | Some(value: T) {

    /** The value if present, else `default` (JavaScript's `??`). */
    function GetOr(default: T): T {
      if Some? then value else default
    }
  }
}
