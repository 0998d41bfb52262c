/** The optional value used for a transport reply that may fail and for a
    decode rule that may reject its input. */
module Outcomes {

  datatype Option<T> = None | Some(value: T)
}
