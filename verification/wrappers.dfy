/** The optional value used throughout the model: `None` stands for JavaScript's
    missing value (`null` from a query string, a thrown TypeError, no match). */
module Wrappers {

  datatype Option<+T> = None | Some(value: T)
}
