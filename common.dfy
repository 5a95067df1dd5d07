/** Value types shared by the store, the authenticator and the endpoints. */
module Common {

  datatype Option<T> = None | Some(value: T)

  /** An `HTTPException`: its status code and its detail text. */
  datatype HttpError = HttpError(status: nat, detail: string)

  /** What an endpoint produces: a response body, or the `HTTPException` it raises. */
  datatype Result<T> = Ok(value: T) | Err(error: HttpError)

  /**
   * `hashlib.sha256(s.encode()).hexdigest()`. The digest is left uninterpreted:
   * the service is built with one such function and uses it everywhere.
   */
  type Hasher = string -> string

  /** Python truthiness of an optional string: `None` and `""` are both false. */
  predicate Truthy(s: Option<string>)
    ensures Truthy(s) <==> s != None && s != Some("")
  {
    s.Some? && s.value != ""
  }
}
