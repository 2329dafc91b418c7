/** Datatypes shared by the models of the Pybricks runtime components. */
module Common {
  datatype Option<+T> = None | Some(value: T)

  datatype Result<+T> = Ok(value: T) | Err(error: Error)

  /** The exceptions the modelled operations raise. */
  datatype Error = ValueError | OverflowError | TypeError | IndexError | RuntimeError | InvalidArg | Pbio(code: int)

  /** Python objects, as far as schedulers look at them. */
  datatype Value = PyNone | Item(id: int) | Tuple(items: seq<Value>)

  type byte = b: int | 0 <= b < 256
}
