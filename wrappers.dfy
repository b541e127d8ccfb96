/** The optional value used throughout: `None` stands for a missing entry (pandas' NaN / None). */
module Wrappers {

  datatype Option<+T> = None | Some(value: T)
}
