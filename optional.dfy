/** The optional-value datatype shared by every module of the model. */
module Optional {

  /** `None` stands for a missing JSON key, a Python `None`, or a failed parse. */
  datatype Option<+T> = None | Some(value: T)
}
