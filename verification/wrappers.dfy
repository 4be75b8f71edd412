/** A value that may be absent. In this model `None` also stands for the
    JavaScript `undefined` that an out-of-range array read produces. */
module Wrappers {

  datatype Option<+T> = None | Some(value: T)

}
