/** The Some/None datatype used where the widget's JavaScript has a value
    that may be absent (`null` or `undefined`). */
module Wrappers {

  datatype Option<+T> = None | Some(value: T)

}
