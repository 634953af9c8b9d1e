/** Java's nullable references, made explicit. */
module Options {

  /** `None` stands for Java's `null`. */
  datatype Option<+T> = None | Some(value: T)
}
