/** The optional value used wherever the program may produce nothing (QVariant(), a missing marker). */
module Options {

  datatype Option<+T> = None | Some(value: T)
}
