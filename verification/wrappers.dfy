/** The optional value the scripts express with `undefined`/`null`
    (an absent DOM element, a failed lookup). */
module Wrappers {

  datatype Option<+T> = None | Some(value: T)

}
