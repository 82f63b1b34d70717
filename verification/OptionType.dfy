/** A value or nothing: the C programs' null pointers, empty results and failed conversions. */
module OptionType {
  datatype Option<+T> = None | Some(value: T)
}
