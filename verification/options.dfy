/** A small Option type for lookups that may miss. */
module Options {

  datatype Option<+T> = None | Some(value: T)
}
