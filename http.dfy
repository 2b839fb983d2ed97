/** The JSON request fields and replies of the login endpoints. */
module Http {

  /**
   * A field read with `data.get(name)` from the JSON body: absent or `null`
   * (both read as `None`), a string, or any other JSON value, which never
   * equals a string and is truthy unless it is `0`, `false`, `[]` or `{}`.
   */
  datatype Field = Missing | Text(s: string) | Other(truthy: bool)

  /** Python's `not value`. */
  predicate Falsy(f: Field)
  {
    match f
    case Missing => true
    case Text(s) => s == []
    case Other(truthy) => !truthy
  }

  datatype JsonValue = JNull | JString(s: string)

  /** A `JSONResponse`: status code and a flat JSON object. */
  datatype JsonReply = JsonReply(status: nat, body: map<string, JsonValue>)
}
