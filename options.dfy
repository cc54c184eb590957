/** The optional value a regex search, a capture group or a parse attempt
    yields in the preprocessor: `None` where Python gets `None` or raises
    `ValueError`. */
module Options {

  datatype Option<+T> = None | Some(value: T)
}
