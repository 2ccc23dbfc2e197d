/** The parts of an HTTP exchange the controllers observe and produce. */
module Http {
  import opened Wrappers

  /** A string-valued request field, header or setting is truthy in JavaScript
      exactly when it is present and not the empty string. */
  predicate Present(s: Option<string>) {
    s.Some? && s.value != ""
  }

  /** A JSON reply `{success, error|message}` with its status code, or a redirect. */
  datatype Reply =
    | Json(status: nat, success: bool, message: string)
    | Redirect(status: nat, location: string)
}
