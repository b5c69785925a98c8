/**
 * `ApiExceptionHandler`: the `@RestControllerAdvice` that turns an exception escaping a
 * controller into a status and an `ErrorResponse` body. The request timestamp is left out.
 */
module ApiExceptionHandler {
  import opened Wrappers
  import opened Text
  import opened Http
  import opened Jwt

  const ValidationMessage := "Error de validación en los datos enviados."
  const IntegrityDefaultMessage := "Error de integridad de datos. Es posible que estés intentando crear un recurso que ya existe (ej: email duplicado)."
  const DuplicateEmailMessage := "Ya existe un usuario registrado con ese email."
  const DuplicateValueMessage := "Ya existe un recurso con ese valor único."
  const NotFoundMessage := "El recurso solicitado no fue encontrado."
  const BadCredentialsMessage := "Credenciales inválidas. Por favor, verifica tu email y contraseña."
  const JwtExpiredMessage := "El token JWT ha expirado."
  const JwtMalformedMessage := "El token JWT está mal formado."
  const JwtUnsupportedMessage := "El token JWT no es soportado."
  const JwtKeyMessage := "Error en la clave secreta JWT. Debe tener al menos 256 bits (32 caracteres)."
  const JwtIllegalArgumentMessage := "Argumento ilegal proporcionado al procesar el token JWT."
  const JwtSignatureMessage := "Firma del token JWT inválida."
  const GenericMessage := "Ha ocurrido un error inesperado en el servidor."

  /** One rejected field of a `@Valid` request body. */
  datatype FieldError = FieldError(field: string, defaultMessage: Nullable<string>)

  /** `ValidationError`: one entry of the response's `errors` list. */
  datatype ValidationError = ValidationError(field: string, message: Nullable<string>)

  /** `ErrorResponse` without its timestamp; `errors` is null except for validation failures. */
  datatype ErrorResponse = ErrorResponse(status: int, error: string, message: string, errors: Nullable<seq<ValidationError>>)

  /** The exceptions the advice distinguishes; anything else reaches the generic handler. */
  datatype ApiException =
    | MethodArgumentNotValid(fieldErrors: seq<FieldError>)
    | DataIntegrityViolation(message: Nullable<string>)
    | EntityNotFound
    | BadCredentials
    | UsernameNotFound
    | JwtHandled(error: ParseError)
    | Unhandled(className: string)

  /** The message test written out independently of the scan `Contains` performs. */
  ghost predicate HasSubstring(s: string, sub: string)
  {
    exists i :: OccursAt(s, sub, i)
  }

  function Body(status: int, error: string, message: string, errors: Nullable<seq<ValidationError>>): ResponseEntity<ErrorResponse>
  {
    ResponseEntity(status, None, Some(ErrorResponse(status, error, message, errors)))
  }

  /** The field errors, mapped in order to validation errors. */
  function ToValidationErrors(fieldErrors: seq<FieldError>): (errors: seq<ValidationError>)
    ensures |errors| == |fieldErrors|
    ensures forall i :: 0 <= i < |fieldErrors| ==>
      errors[i].field == fieldErrors[i].field && errors[i].message == fieldErrors[i].defaultMessage
  {
    if fieldErrors == [] then []
    else [ValidationError(fieldErrors[0].field, fieldErrors[0].defaultMessage)] + ToValidationErrors(fieldErrors[1..])
  }

  /** `handleValidationExceptions`: 400 with one entry per field error. */
  function HandleValidationExceptions(fieldErrors: seq<FieldError>): (r: ResponseEntity<ErrorResponse>)
    ensures r.status == BadRequest400 && r.body.Some?
    ensures r.body.value.message == ValidationMessage
    ensures r.body.value.errors == NonNull(ToValidationErrors(fieldErrors))
  {
    Body(BadRequest400, "Bad Request", ValidationMessage, NonNull(ToValidationErrors(fieldErrors)))
  }

  /** The message `handleDataIntegrityViolationException` picks from the exception's message. */
  function IntegrityMessage(message: Nullable<string>): (m: string)
    ensures m == DuplicateEmailMessage <==>
      message.NonNull? && HasSubstring(message.value, "Duplicate entry") && HasSubstring(message.value, "email")
    ensures m == DuplicateValueMessage <==>
      message.NonNull? && HasSubstring(message.value, "Duplicate entry") && !HasSubstring(message.value, "email")
    ensures m == IntegrityDefaultMessage <==>
      message.Null? || !HasSubstring(message.value, "Duplicate entry")
  {
    if message.NonNull? then
      ContainsIff(message.value, "Duplicate entry");
      ContainsIff(message.value, "email");
      if Contains(message.value, "Duplicate entry") then
        if Contains(message.value, "email") then DuplicateEmailMessage else DuplicateValueMessage
      else IntegrityDefaultMessage
    else IntegrityDefaultMessage
  }

  /** `handleDataIntegrityViolationException`: always 400. */
  function HandleDataIntegrityViolation(message: Nullable<string>): (r: ResponseEntity<ErrorResponse>)
    ensures r.status == BadRequest400 && r.body.Some? && r.body.value.errors.Null?
    ensures r.body.value.message == IntegrityMessage(message)
  {
    Body(BadRequest400, "Bad Request", IntegrityMessage(message), Null)
  }

  /**
   * `handleJwtException`: 401 with a message for the exception's type, except that an
   * `IllegalArgumentException` whose message mentions "key" is a 500.
   */
  function HandleJwtException(e: ParseError): (r: ResponseEntity<ErrorResponse>)
    ensures r.body.Some? && r.body.value.errors.Null?
    ensures r.status == InternalServerError500 <==>
      e.IllegalArgument? && e.message.NonNull? && HasSubstring(e.message.value, "key")
    ensures r.status != InternalServerError500 ==> r.status == Unauthorized401
    ensures r.body.value.status == r.status && r.body.value.error == ReasonPhrase(r.status)
    ensures e == ExpiredJwt ==> r.body.value.message == JwtExpiredMessage
    ensures e == MalformedJwt ==> r.body.value.message == JwtMalformedMessage
    ensures e == UnsupportedJwt ==> r.body.value.message == JwtUnsupportedMessage
    ensures e == SignatureMismatch ==> r.body.value.message == JwtSignatureMessage
    ensures e.IllegalArgument? ==>
      r.body.value.message == (if r.status == InternalServerError500 then JwtKeyMessage else JwtIllegalArgumentMessage)
  {
    match e
    case ExpiredJwt => Body(Unauthorized401, ReasonPhrase(Unauthorized401), JwtExpiredMessage, Null)
    case MalformedJwt => Body(Unauthorized401, ReasonPhrase(Unauthorized401), JwtMalformedMessage, Null)
    case UnsupportedJwt => Body(Unauthorized401, ReasonPhrase(Unauthorized401), JwtUnsupportedMessage, Null)
    case IllegalArgument(message) =>
      if message.NonNull? then
        ContainsIff(message.value, "key");
        if Contains(message.value, "key") then
          Body(InternalServerError500, ReasonPhrase(InternalServerError500), JwtKeyMessage, Null)
        else Body(Unauthorized401, ReasonPhrase(Unauthorized401), JwtIllegalArgumentMessage, Null)
      else Body(Unauthorized401, ReasonPhrase(Unauthorized401), JwtIllegalArgumentMessage, Null)
    case SignatureMismatch => Body(Unauthorized401, ReasonPhrase(Unauthorized401), JwtSignatureMessage, Null)
  }

  /** The advice as a whole: Spring picks the handler declared for the exception's type. */
  function Handle(ex: ApiException): (r: ResponseEntity<ErrorResponse>)
    ensures r.body.Some? && r.body.value.status == r.status
    ensures r.location.None?
    ensures r.body.value.errors.NonNull? <==> ex.MethodArgumentNotValid?
    ensures r.status == BadRequest400 <==> ex.MethodArgumentNotValid? || ex.DataIntegrityViolation?
    ensures r.status == NotFound404 <==> ex.EntityNotFound?
    ensures r.status == Unauthorized401 <==>
      ex.BadCredentials? || ex.UsernameNotFound? ||
      (ex.JwtHandled? && !(ex.error.IllegalArgument? && ex.error.message.NonNull? && HasSubstring(ex.error.message.value, "key")))
    ensures ex.Unhandled? ==> r.status == InternalServerError500 && r.body.value.message == GenericMessage
    ensures r.body.value.error == ReasonPhrase(r.status)
    ensures ex.MethodArgumentNotValid? ==> r.body.value.message == ValidationMessage
    ensures ex.DataIntegrityViolation? ==> r.body.value.message == IntegrityMessage(ex.message)
    ensures ex.EntityNotFound? ==> r.body.value.message == NotFoundMessage
    ensures ex.BadCredentials? || ex.UsernameNotFound? ==> r.body.value.message == BadCredentialsMessage
    ensures ex.JwtHandled? ==> r.body.value.message == HandleJwtException(ex.error).body.value.message
  {
    match ex
    case MethodArgumentNotValid(fieldErrors) => HandleValidationExceptions(fieldErrors)
    case DataIntegrityViolation(message) => HandleDataIntegrityViolation(message)
    case EntityNotFound => Body(NotFound404, "Not Found", NotFoundMessage, Null)
    case BadCredentials => Body(Unauthorized401, "Unauthorized", BadCredentialsMessage, Null)
    case UsernameNotFound => Body(Unauthorized401, "Unauthorized", BadCredentialsMessage, Null)
    case JwtHandled(e) => HandleJwtException(e)
    case Unhandled(_) => Body(InternalServerError500, "Internal Server Error", GenericMessage, Null)
  }

  /** A wrong password and an unknown email get the same response: it does not tell which failed. */
  lemma CredentialFailuresIndistinguishable()
    ensures Handle(BadCredentials) == Handle(UsernameNotFound)
    ensures Handle(BadCredentials).status == Unauthorized401
  {
  }

  /** Every status the advice answers with is one of 400, 401, 404 and 500. */
  lemma StatusesUsed(ex: ApiException)
    ensures Handle(ex).status in {BadRequest400, Unauthorized401, NotFound404, InternalServerError500}
  {
  }

  /** Exactly one of the three integrity messages is chosen. */
  lemma IntegrityMessagePartition(message: Nullable<string>)
    ensures IntegrityMessage(message) in {DuplicateEmailMessage, DuplicateValueMessage, IntegrityDefaultMessage}
  {
  }
}
