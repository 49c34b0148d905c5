/** The optional value used throughout the model: `None` stands for Python's `None`
    and, where an operation can raise, for the raised exception. */
module Options {

  datatype Option<T> = None | Some(value: T)
}
