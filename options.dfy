/** The "absent" value that the Java code signals with null. */
module Options {

  /** `None` stands for a Java null result or a sentinel's missing payload. */
  datatype Option<T> = None | Some(value: T)
}
