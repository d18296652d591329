/** A value that may be missing; the models return `None` where the source signals an error. */
module Options {
  datatype Option<+T> = None | Some(value: T)
}
