/** The optional value used for a duration that does not read as a number. */
module Wrappers {

  /** `None` stands where the script computes JavaScript's `NaN`. */
  datatype Option<+T> = None | Some(value: T)
}
