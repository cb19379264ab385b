// Small definitions that several modules share.
module Wrappers {
  datatype Option<T> = None | Some(value: T)

  /** Python's `part in s` on strings. */
  predicate Contains(s: string, part: string) {
    part <= s || (s != "" && Contains(s[1..], part))
  }
}
