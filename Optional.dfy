/** Python's `None`-or-value results, shared by both modelled files. */
module Optional {
  datatype Option<+T> = None | Some(value: T)
}
