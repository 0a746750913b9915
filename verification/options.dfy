/** The optional-value datatype shared by the other modules: a Python value
    that may be `None`, or a result that may be absent. */
module Options {

  datatype Option<+T> = None | Some(value: T)
}
