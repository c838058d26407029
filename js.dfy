/**
 JavaScript value conventions shared by the server model.

 A property that the request body, the query string or the extraction
 library may leave out (or set to `null`/`undefined`) is an `Option`;
 JavaScript's truthiness of such a string is `Truthy`.
 */
module Js {
  datatype Option<+T> = None | Some(value: T)

  /** `!!s` for a possibly absent string: present and not the empty string. */
  predicate Truthy(s: Option<string>) {
    s.Some? && s.value != ""
  }
}
