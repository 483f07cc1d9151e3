/** What a handler answers with: a value, or one of the errors the server
    distinguishes. */
module Http {

  datatype Option<T> = None | Some(value: T) {
    function GetOr(default: T): T {
      match this
      case Some(v) => v
      case None => default
    }
  }

  datatype HttpError =
    | BadRequest(message: string)        // a BadRequestError thrown by a handler
    | NotFound(message: string)          // a NotFoundError thrown by a handler
    | ValidationFailed(message: string)  // a Mongoose ValidationError raised on save
    | InvalidId(message: string)         // a Mongoose CastError: a query got a malformed ObjectId
    | UploadRejected(message: string)    // an error raised by the upload middleware
    | ServerError(message: string)       // any other exception

  datatype Result<T> = Ok(value: T) | Err(error: HttpError)

  /** JavaScript truthiness of an optional string field: present and non-empty. */
  predicate Truthy(f: Option<string>) {
    f.Some? && f.value != ""
  }
}
