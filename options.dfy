/** An optional value: the model's stand-in for a TypeScript `T | null` or an absent optional field. */
module Options {

  datatype Option<+T> = None | Some(value: T) {

    /** Returns the carried value, or `default` when there is none (the source's `x || default`). */
    function GetOr(default: T): T {
      match this
      case Some(v) => v
      case None => default
    }
  }
}
