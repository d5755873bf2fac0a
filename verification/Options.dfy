/** A value that may be missing: the null pointers and negative results of the C code. */
module Options {

  datatype Option<T> = None | Some(value: T)
}
