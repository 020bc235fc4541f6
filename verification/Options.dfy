/** An optional value, for null pointers, missing results and refused calls. */
module Options {
  datatype Option<+T> = None | Some(value: T)
}
