/** The optional value used for nullable columns (a missing description, a
    missing or unparseable date) and for a statistic of an empty table. */
module Wrappers {

  datatype Option<+T> = None | Some(value: T)
}
