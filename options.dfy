/** The outcome of a computation that may fail, as for the evaluator behind `=`. */
module Options {

  datatype Option<T> = None | Some(value: T)
}
