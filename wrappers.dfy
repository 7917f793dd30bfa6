/** The "no value" signal of the list: `pop` and `peek` answer `undefined`
    on an empty list, modelled here as `None`. */
module Wrappers {

  datatype Option<T> = None | Some(value: T)
}
