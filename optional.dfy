/** The usual optional value: `None` stands for "no row", "no reply" or a failed index. */
module Optional {
  datatype Option<+T> = None | Some(value: T)
}
