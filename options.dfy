/** The optional value used for absent JSON keys, nullable results and partial decoders. */
module Options {
  datatype Option<+T> = None | Some(value: T)
}
