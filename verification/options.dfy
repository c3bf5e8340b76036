/** The optional value used wherever the source returns "nothing found" or an error code. */
module Options {

  datatype Option<+T> = None | Some(value: T)

}
