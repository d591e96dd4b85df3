/** The optional value used where the scraper tests a value for `None`. */
module Wrappers {

  datatype Option<+T> = None | Some(value: T)
}
