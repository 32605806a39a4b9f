/** An optional value: JavaScript's `T | undefined` in the modelled code. */
module Optional {

  datatype Option<+T> = None | Some(value: T)
}
