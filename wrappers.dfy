/** Small result types shared by the model. */
module Wrappers {

  /** Python's `None` versus a present value. */
  datatype Option<+T> = None | Some(value: T)

  /** How a Python call ends: it returns a value, or it raises the
      `TypeError` that unpacking `None` into a pair produces. */
  datatype Outcome<+T> = Returns(value: T) | RaisesTypeError
}
