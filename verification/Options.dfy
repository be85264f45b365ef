/** A value that may be missing: JavaScript's `undefined` and `null`, and the result of a failed parse. */
module Options {

  datatype Option<+T> = None | Some(value: T) {
    function GetOr(default: T): T {
      if Some? then value else default
    }
  }
}
