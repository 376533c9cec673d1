/** The optional value of the model: a JavaScript `null`, `undefined` or `NaN`
    is `None`, anything else `Some`. */
module Wrappers {

  datatype Option<+T> = None | Some(value: T)
}
