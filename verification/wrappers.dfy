/** The optional value used wherever the scraper yields `None` or raises and recovers. */
module Wrappers {

  datatype Option<+T> = None | Some(value: T)
}
