/** Values that may be missing. */
module Options {
  datatype Option<+T> = None | Some(value: T) {
    function UnwrapOr(d: T): T {
      if Some? then value else d
    }
  }
}
