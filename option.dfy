/** The value-or-nothing wrapper used wherever the analyzer returns `None`. */
module Optional {
  datatype Option<+T> = None | Some(value: T)
}
