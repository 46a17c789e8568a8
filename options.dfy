/** The optional value used wherever the source reports "found" / "not found". */
module Options {
  datatype Option<+T> = None | Some(value: T)
}
