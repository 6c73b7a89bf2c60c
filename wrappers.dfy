/** An optional value. A floating-point result that the C program leaves
    as NaN (a division 0/0) is modelled as None. */
module Wrappers {
  datatype Option<T> = None | Some(value: T)
}
