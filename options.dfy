/** An optional value: a pose that may not have been detected, a hit that
    may not have happened. */
module Options {
  datatype Option<+T> = None | Some(value: T)
}
