/** The optional value used wherever the scraper may find nothing. */
module Wrappers {

  datatype Option<+T> = None | Some(value: T)
}
