/** The parts of Spring's `ResponseEntity` and `UriComponentsBuilder` the controllers use. */
module Http {
  import opened Wrappers

  const Ok200 := 200
  const Created201 := 201
  const NoContent204 := 204
  const BadRequest400 := 400
  const Unauthorized401 := 401
  const NotFound404 := 404
  const InternalServerError500 := 500

  /** `uriComponentsBuilder.path(template).buildAndExpand(id)`: a path template and the id put into it. */
  datatype Uri = Uri(template: string, id: nat)

  /** A response as the controllers build it: status, optional `Location` header, optional body. */
  datatype ResponseEntity<+T> = ResponseEntity(status: int, location: Option<Uri>, body: Option<T>)

  /** The reason phrase `HttpStatus.getReasonPhrase()` gives for each status the core uses. */
  function ReasonPhrase(status: int): string
  {
    if status == 400 then "Bad Request"
    else if status == 401 then "Unauthorized"
    else if status == 404 then "Not Found"
    else if status == 500 then "Internal Server Error"
    else ""
  }
}
