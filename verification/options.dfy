/** The optional value used throughout the model: a regular-expression hit
    that may be absent, a text editor that may not be open, a persisted
    setting that may be unset, a prompt that may be cancelled. */
module Options {

  datatype Option<+T> = None | Some(value: T) {

    /** The value, or `default` when there is none; this is how a
        `get(key, default)` read of a key-value store behaves. */
    function GetOr(default: T): (r: T)
      ensures Some? ==> r == value
      ensures None? ==> r == default
    {
      match this
      case Some(v) => v
      case None => default
    }
  }
}
