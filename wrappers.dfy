/** The nullable value of a column or the zero-or-one row of a query. */
module Wrappers {

  datatype Option<+T> = None | Some(value: T)
}
