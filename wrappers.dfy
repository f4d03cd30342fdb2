/** The optional value the report matchers return: a regular-expression
    search either finds a match or finds none. */
module Wrappers {

  datatype Option<+T> = None | Some(value: T)

}
