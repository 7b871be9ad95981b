/** The optional value used across the model: a JSON null or a string for a
    record's POV, a missing list element or column, a found index. */
module Wrappers {

  datatype Option<T> = None | Some(value: T)
}
