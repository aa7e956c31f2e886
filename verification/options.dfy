/** The optional value used wherever the viewer holds "a path or None". */
module Options {

  datatype Option<+T> = None | Some(value: T)
}
