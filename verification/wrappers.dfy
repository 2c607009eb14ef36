/** The optional-value datatype shared by the codec modules. A `None`
    result stands for a JavaScript exception (a URIError thrown by
    decodeURIComponent) or for text that no escaper could have produced. */
module Wrappers {

  datatype Option<+T> = None | Some(value: T)
}
