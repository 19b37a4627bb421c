/** The optional-value type used throughout the model: `None` stands for a
    JavaScript `undefined`/`null` or a missing table row. */
module Wrappers {

  datatype Option<+T> = None | Some(value: T)
}
