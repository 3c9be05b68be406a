// Rust's `Option<T>`, for the values the shell may or may not have: the
// home directory, a built-in's argument, an alias lookup, a file's lines.
module Options {

  datatype Option<+T> = None | Some(value: T) {

    // `Option::unwrap_or`: the held value when there is one, else `fallback`.
    function UnwrapOr(fallback: T): T {
      if Some? then value else fallback
    }
  }
}
