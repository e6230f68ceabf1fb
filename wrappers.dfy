/** Option type used for Java's absent values: a `null` reference, a NaN double,
    or an IllegalArgumentException raised by a validating constructor. */
module Wrappers {
  datatype Option<+T> = None | Some(value: T)
}
