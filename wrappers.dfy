/** The optional value used for Python look-ups that can fail (a missing dict key, `list.index` of an absent item). */
module Wrappers {
  datatype Option<+T> = None | Some(value: T)
}
