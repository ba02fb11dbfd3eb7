/** The optional value used wherever the crawler returns `None` or an object. */
module Options {

  datatype Option<+T> = None | Some(value: T)
}
