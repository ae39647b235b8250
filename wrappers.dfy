/** The Some/None datatype, standing for a Python value that may be `None`
    or an attribute that may be missing on the request object. */
module Wrappers {

  datatype Option<+T> = None | Some(value: T)

  /** Python truthiness of an optional string: present and non-empty. */
  predicate TruthyText(o: Option<string>) {
    o.Some? && o.value != ""
  }
}
