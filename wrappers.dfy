/** The optional value used wherever the scraper returns None. */
module Wrappers {

  datatype Option<+T> = None | Some(value: T)
}
