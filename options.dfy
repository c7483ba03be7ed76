// The optional value used throughout the model, standing for Rust's `Option<T>`.
module Options {
  datatype Option<T> = None | Some(value: T)
  {
    function UnwrapOr(default: T): T
    {
      if Some? then value else default
    }

    function Or(other: Option<T>): Option<T>
    {
      if Some? then this else other
    }
  }
}
