/** What the models share. */
module Common {

  type byte = b: nat | b < 256

  datatype Option<T> = None | Some(value: T)
}
