# desafio-foro in Dafny

A model of the core of *desafio-foro*, a Spring Boot forum API. The model covers:

- **Tokens.** `TokenService` issues HS256-signed JWTs (issuer `foro_hub`, subject the user's
  email, an `id` claim, issued-at and expiry) and verifies them back to the subject.
- **Request authentication.** `SecurityFilter` reads a `Bearer` token from the
  `Authorization` header, verifies it and looks up the user it names. When all of that
  succeeds, it records the user as the request's authentication. Otherwise the request
  goes on unauthenticated.
- **Topics.** `Topico` is updated in place and compares by id only.
  `DatosActualizarTopico` builds its optional fields from nullable ones.
  `TopicoController` registers, updates, reads, deletes and lists topics over a
  repository.
- **Users.** `UsuarioController` registers users and answers with a projection that
  leaves out the password.
- **Errors.** `ApiExceptionHandler` maps each exception that escapes a controller to a
  status and an error body.

Java values are modelled as follows:

- `null` is `Wrappers.Nullable` and `Optional` is `Wrappers.Option`.
- An exception a member throws is the `Err` side of `Wrappers.Result`.
- Repositories are maps from id to row, plus the next identity value the database
  assigns.
- Objects whose state the model tracks are classes: `Topico` and the repositories, whose
  fields the source changes; the security context the filter writes; the filter chain and
  the password encoder, which record the calls made on them; and the servlet response,
  which the filter passes on untouched.
- Code that only computes is made of functions over datatypes.

The jjwt library's signing and parsing are a pair of function values, `Jwt.Codec`. The
properties the service relies on are stated as a hypothesis, `Jwt.IdealCodec`:

- a compact token is never empty;
- parsing with the signing key gives the claims back until they expire, and `ExpiredJwt`
  after that;
- parsing with any other key gives a signature failure.

The lemmas that follow a token from issue to verification (`TokenService.RoundTrip`,
`TokenService.ExpiredRejected`, `TokenService.OtherKeyRejected`,
`TokenService.FreshTokenAccepted`, `TokenService.BornExpired`,
`TokenService.UtcMinusFiveOneHour` and `SecurityFilter.IssuedTokenAuthenticates`) assume
this hypothesis. Everything else holds for any codec. The third law is an idealisation of
HMAC: HMAC pads a key shorter than 64 bytes with zero bytes, and hashes a key longer than
64 bytes first, so two different secrets can sign alike (for instance, two that differ
only by trailing NUL bytes).

Some behaviours of the code are easy to miss:

- **Issuer.** The issuer written and demanded is `foro_hub`.
- **Short keys.** Nothing rejects a secret shorter than 256 bits at start-up. The key is
  rebuilt on every call, so each issue and each verification fails on its own.
  `TokenService.DefaultSecretUnusable` shows that the default secret `12345678` is such a
  key.
- **Expiry.** `generarFechaExpiracion` adds the TTL to the local wall-clock time and reads
  the result as UTC, so the expiry claim is issued-at plus the zone's offset plus the TTL
  (`TokenService.ExpiryVersusIssuedAt`). It is issued-at plus the TTL only when the
  system zone is UTC. West of UTC, when the offset outweighs the TTL, a token is expired
  the moment it is issued: at UTC-5 with a one-hour TTL, every token is refused when
  presented straight away (`TokenService.BornExpired`, `TokenService.UtcMinusFiveOneHour`).
  When offset plus TTL is positive, a fresh token verifies
  (`TokenService.FreshTokenAccepted`).
- **Far expiries.** A TTL so large that the expiry does not fit in a `long` of
  milliseconds makes `Date.from` throw, and `generarToken` fails with its usual message
  (`TokenService.MaxExpirationUnissuable`).
- **Empty subject.** `getSubject` refuses only a missing subject: a token whose subject is
  the empty string verifies and yields `""` (`TokenService.EmptySubjectAccepted`).

## Model

| member | source | states |
|---|---|---|
| Wrappers.OfNullable | desafio-foro/src/main/java/alura/desafio/foro/domain/topico/DatosActualizarTopico.java:15 | `Optional.ofNullable`: empty exactly for null, otherwise holds the same value |
| Text.ContainsIff | desafio-foro/src/main/java/alura/desafio/foro/infra/exception/ApiExceptionHandler.java:46-47 | the scan used for `String.contains` succeeds exactly when some window of the string equals the pattern |
| Text.GetBytes | desafio-foro/src/main/java/alura/desafio/foro/service/TokenService.java:30 | `getBytes()` under UTF-8 gives between one and four bytes per character |
| Text.AsciiLength | desafio-foro/src/main/java/alura/desafio/foro/service/TokenService.java:21-22 | an ASCII secret encodes to one byte per character |
| Jwt.HmacShaKeyFor | desafio-foro/src/main/java/alura/desafio/foro/service/TokenService.java:30 | a key is built exactly for 256 bits or more, over the bytes given; otherwise a weak-key failure that reports the bit count |
| Usuarios.FindByEmail | desafio-foro/src/main/java/alura/desafio/foro/infra/security/SecurityFilter.java:37 | empty exactly when no stored user has the email; a found user is stored and has that email; fails exactly when several users share the email |
| Usuarios.FindByEmailUnique | desafio-foro/src/main/java/alura/desafio/foro/controller/UsuarioController.java:37 | while emails are unique, the lookup never fails and returns the one stored user with that email |
| Usuarios.UsuarioRepository.Save | desafio-foro/src/main/java/alura/desafio/foro/controller/UsuarioController.java:53 | the user is stored under the next identity value, carries that id, and the repository invariant (ids match keys, unique emails) is kept |
| TokenService.JavaDiv | desafio-foro/src/main/java/alura/desafio/foro/service/TokenService.java:76 | Java's long division: the remainder `a - b*q` lies in `[0, b)` for a non-negative dividend and in `(-b, 0]` for a negative one, so the quotient is truncated toward zero |
| TokenService.IssuedClaims | desafio-foro/src/main/java/alura/desafio/foro/service/TokenService.java:34-41 | the claims written: issuer `foro_hub`, the user's email as subject, the id (dropped when null), iat and exp in epoch seconds |
| TokenService.TokenService.Key | desafio-foro/src/main/java/alura/desafio/foro/service/TokenService.java:30 | a key exists exactly when the secret's bytes are 32 or more |
| TokenService.TokenService.GenerarFechaExpiracion | desafio-foro/src/main/java/alura/desafio/foro/service/TokenService.java:74-78 | expiry is the local wall-clock time plus the TTL cut to whole seconds, read as UTC |
| TokenService.TokenService.GenerarToken | desafio-foro/src/main/java/alura/desafio/foro/service/TokenService.java:27-48 | succeeds exactly when the key can be built and the expiry fits in a `long` of milliseconds, with the token signed over the issued claims; every failure is one RuntimeException with the issue-failure message, whose cause is the key failure, or else the out-of-range expiry |
| TokenService.TokenService.GetSubject | desafio-foro/src/main/java/alura/desafio/foro/service/TokenService.java:50-73 | null or empty token: the not-provided error without a cause; a subject exactly when the key builds, the token parses, the issuer is `foro_hub` and a subject is present, and it is the parsed subject; every other failure has the invalid-or-expired message with a cause, and a parse failure is kept as that cause |
| TokenService.FailuresAreWrapped | desafio-foro/src/main/java/alura/desafio/foro/service/TokenService.java:44-72 | every failure of either operation is a RuntimeException with one of the service's own messages |
| TokenService.OtherIssuerRejected | desafio-foro/src/main/java/alura/desafio/foro/service/TokenService.java:57-61 | a token that parses under the key but has another issuer is refused |
| TokenService.RoundTrip | desafio-foro/src/main/java/alura/desafio/foro/service/TokenService.java:27-73 | under an ideal codec, verifying an issued token up to its expiry returns the user's email |
| TokenService.ExpiredRejected | desafio-foro/src/main/java/alura/desafio/foro/service/TokenService.java:50-73 | after its expiry an issued token is refused with the invalid-or-expired message and an `ExpiredJwt` cause |
| TokenService.OtherKeyRejected | desafio-foro/src/main/java/alura/desafio/foro/service/TokenService.java:55-61 | a token issued under another secret is refused with a signature-mismatch cause |
| TokenService.DefaultSecretUnusable | desafio-foro/src/main/java/alura/desafio/foro/service/TokenService.java:21-30 | the default secret is 64 bits, so under the default configuration issuing and verifying always fail |
| TokenService.ExpiryVersusIssuedAt | desafio-foro/src/main/java/alura/desafio/foro/service/TokenService.java:32-39 | exp equals iat plus the zone offset plus the whole-second TTL, and equals iat plus the TTL exactly when the zone is UTC |
| TokenService.MaxExpirationUnissuable | desafio-foro/src/main/java/alura/desafio/foro/service/TokenService.java:24-46 | with a TTL of `Long.MAX_VALUE`, issuing at any instant from 1970 on, in a zone east of UTC, fails with the issue-failure message |
| TokenService.FreshTokenAccepted | desafio-foro/src/main/java/alura/desafio/foro/service/TokenService.java:27-78 | under an ideal codec, a token verified at its issue instant returns the email when zone offset plus TTL is positive |
| TokenService.BornExpired | desafio-foro/src/main/java/alura/desafio/foro/service/TokenService.java:27-78 | under an ideal codec, when zone offset plus TTL is negative, a token verified at its issue instant is refused with an `ExpiredJwt` cause |
| TokenService.UtcMinusFiveOneHour | desafio-foro/src/main/java/alura/desafio/foro/service/TokenService.java:74-78 | at UTC-5 with a one-hour TTL, every issued token is refused as expired when presented straight away |
| TokenService.EmptySubjectAccepted | desafio-foro/src/main/java/alura/desafio/foro/service/TokenService.java:63-68 | a token whose subject is the empty string verifies and yields the empty string |
| TokenService.TtlTruncated | desafio-foro/src/main/java/alura/desafio/foro/service/TokenService.java:76 | the TTL applied is the configured one less its sub-second part |
| ApiExceptionHandler.ToValidationErrors | desafio-foro/src/main/java/alura/desafio/foro/infra/exception/ApiExceptionHandler.java:25-29 | one validation error per field error, in order, with the same field and message |
| ApiExceptionHandler.HandleValidationExceptions | desafio-foro/src/main/java/alura/desafio/foro/infra/exception/ApiExceptionHandler.java:24-40 | 400 with the validation message and the mapped field errors |
| ApiExceptionHandler.IntegrityMessage | desafio-foro/src/main/java/alura/desafio/foro/infra/exception/ApiExceptionHandler.java:44-52 | duplicate-email message exactly when the message has "Duplicate entry" and "email"; duplicate-value message exactly when it has "Duplicate entry" without "email"; the default message exactly when it is null or lacks "Duplicate entry" |
| ApiExceptionHandler.HandleDataIntegrityViolation | desafio-foro/src/main/java/alura/desafio/foro/infra/exception/ApiExceptionHandler.java:43-63 | always 400, no error list, with the chosen integrity message |
| ApiExceptionHandler.HandleJwtException | desafio-foro/src/main/java/alura/desafio/foro/infra/exception/ApiExceptionHandler.java:99-129 | 500 exactly for an illegal argument whose message mentions "key", 401 otherwise; the error field is the status's reason phrase; the message for each exception type: expired, malformed, unsupported, signature, the key-error message for the 500 case and the illegal-argument message otherwise |
| ApiExceptionHandler.Handle | desafio-foro/src/main/java/alura/desafio/foro/infra/exception/ApiExceptionHandler.java:23-143 | which exceptions give 400, 404 and 401, that unknown exceptions give 500 with the generic message, and that only validation failures carry an error list; the error field is always the status's reason phrase; the validation, integrity, not-found, credentials and JWT messages per exception |
| ApiExceptionHandler.CredentialFailuresIndistinguishable | desafio-foro/src/main/java/alura/desafio/foro/infra/exception/ApiExceptionHandler.java:78-89 | a wrong password and an unknown email get the identical 401 response |
| ApiExceptionHandler.StatusesUsed | desafio-foro/src/main/java/alura/desafio/foro/infra/exception/ApiExceptionHandler.java:23-143 | every response status is 400, 401, 404 or 500 |
| ApiExceptionHandler.IntegrityMessagePartition | desafio-foro/src/main/java/alura/desafio/foro/infra/exception/ApiExceptionHandler.java:44-52 | the integrity message is always one of the three messages |
| Topicos.DatosActualizarTopico.OfNullables | desafio-foro/src/main/java/alura/desafio/foro/domain/topico/DatosActualizarTopico.java:14-16 | each field is empty exactly when its argument is null and otherwise holds that argument |
| Topicos.ActualizadoFields | desafio-foro/src/main/java/alura/desafio/foro/domain/topico/Topico.java:42-49 | a present field overwrites its value and an empty one keeps it |
| Topicos.ActualizadoKeepsIdentity | desafio-foro/src/main/java/alura/desafio/foro/domain/topico/Topico.java:42-49 | the update never changes id, status or creation date |
| Topicos.EmptyUpdateNoOp | desafio-foro/src/main/java/alura/desafio/foro/domain/topico/Topico.java:42-49 | an update with no fields present changes nothing |
| Topicos.ActualizadoIdempotent | desafio-foro/src/main/java/alura/desafio/foro/domain/topico/Topico.java:42-49 | applying an update twice equals applying it once |
| Topicos.AllNullUpdateNoOp | desafio-foro/src/main/java/alura/desafio/foro/domain/topico/DatosActualizarTopico.java:14-16 | an update built from four nulls leaves a topic unchanged |
| Topicos.Topico.constructor | desafio-foro/src/main/java/alura/desafio/foro/domain/topico/Topico.java:33-40 | a new topic holds the registration values, the given creation time, status ACTIVO and no id |
| Topicos.Topico.ActualizarDatos | desafio-foro/src/main/java/alura/desafio/foro/domain/topico/Topico.java:42-49 | in place, each present field is assigned, the others and id, status and creation date are kept |
| Topicos.Topico.EqualsById | desafio-foro/src/main/java/alura/desafio/foro/domain/topico/Topico.java:16 | two topics are equal exactly when their ids are equal, both nulls included |
| Topicos.EqualsByIdEquivalence | desafio-foro/src/main/java/alura/desafio/foro/domain/topico/Topico.java:16 | topic equality is reflexive, symmetric and transitive |
| TopicoController.UpdateMayDuplicatePair | desafio-foro/src/main/java/alura/desafio/foro/controller/TopicoController.java:50-57 | the update path does not re-check duplicates, so one topic can take another's title and message |
| TopicoController.TopicoController.RegistrarTopico | desafio-foro/src/main/java/alura/desafio/foro/controller/TopicoController.java:29-45 | a taken (title, message) pair gives 400 and no change; otherwise exactly one ACTIVO topic is added under a fresh id, and 201 with its location and values |
| TopicoController.TopicoController.Save | desafio-foro/src/main/java/alura/desafio/foro/controller/TopicoController.java:39 | the saved topic gets the next identity value as id and is the only change to the store |
| TopicoController.TopicoController.ActualizarTopico | desafio-foro/src/main/java/alura/desafio/foro/controller/TopicoController.java:50-62 | an unknown id gives EntityNotFound with no change; otherwise only that topic changes, by the partial update, and 200 with its new values |
| TopicoController.TopicoController.RetornaDatosTopico | desafio-foro/src/main/java/alura/desafio/foro/controller/TopicoController.java:74-78 | the stored topic's values with 200, or EntityNotFound for an unknown id |
| TopicoController.TopicoController.EliminarTopico | desafio-foro/src/main/java/alura/desafio/foro/controller/TopicoController.java:82-85 | the topic with that id is removed if present, nothing else changes, and the answer is always 204 |
| TopicoController.TopicoController.ListadoTopicos | desafio-foro/src/main/java/alura/desafio/foro/controller/TopicoController.java:64-71 | the first page of the default pageable: up to ten distinct stored topics, oldest first, and no topic left off is older than one on the page |
| TopicoController.FirstPage | desafio-foro/src/main/java/alura/desafio/foro/controller/TopicoController.java:66-68 | a first page of any size sorted by creation date, over a store keyed by id |
| TopicoController.OldestFirst | desafio-foro/src/main/java/alura/desafio/foro/controller/TopicoController.java:66-68 | the ids of the oldest topics, as many as fit: distinct, sorted by creation date, none left out older than one chosen |
| UsuarioController.Respuesta | desafio-foro/src/main/java/alura/desafio/foro/controller/UsuarioController.java:65-69 | the response carries the user's id, name and email |
| UsuarioController.RespuestaIgnoresPassword | desafio-foro/src/main/java/alura/desafio/foro/controller/UsuarioController.java:65-69 | users differing only in password give the same response |
| UsuarioController.PasswordEncoder.Encode | desafio-foro/src/main/java/alura/desafio/foro/controller/UsuarioController.java:42 | the hash is the encoder's function of the raw password, and the call is recorded |
| UsuarioController.UsuarioController.RegistrarUsuario | desafio-foro/src/main/java/alura/desafio/foro/controller/UsuarioController.java:32-63 | a taken email throws the duplicate-email error before encoding, with no change; otherwise exactly one user is stored under the next id with the encoded password, and 201 with its location and a body without the password |
| SecurityFilter.RecuperarToken | desafio-foro/src/main/java/alura/desafio/foro/infra/security/SecurityFilter.java:57-63 | a token exactly when the header exists and starts with "Bearer ", and prefix plus token is the header |
| SecurityFilter.RecuperarTokenRoundTrip | desafio-foro/src/main/java/alura/desafio/foro/infra/security/SecurityFilter.java:57-63 | the token written after "Bearer " is the token read back |
| SecurityFilter.AuthenticatedUser | desafio-foro/src/main/java/alura/desafio/foro/infra/security/SecurityFilter.java:32-53 | a user exactly when a token was extracted, its subject verified and the lookup found a user; that user is stored and has the verified email |
| SecurityFilter.FilterChain.DoFilter | desafio-foro/src/main/java/alura/desafio/foro/infra/security/SecurityFilter.java:54 | the request is passed on once |
| SecurityFilter.SecurityFilter.DoFilterInternal | desafio-foro/src/main/java/alura/desafio/foro/infra/security/SecurityFilter.java:30-55 | the authentication becomes (user, null, authorities) exactly when a user is found, and the context is otherwise untouched; the request goes down the chain exactly once on every path |
| SecurityFilter.NoBearerNoAuthentication | desafio-foro/src/main/java/alura/desafio/foro/infra/security/SecurityFilter.java:57-63 | no header, or one not starting with "Bearer ", authenticates nobody |
| SecurityFilter.LowerCaseSchemeRejected | desafio-foro/src/main/java/alura/desafio/foro/infra/security/SecurityFilter.java:59 | the scheme is case-sensitive: "bearer " yields no token |
| SecurityFilter.EmptyBearerNoAuthentication | desafio-foro/src/main/java/alura/desafio/foro/infra/security/SecurityFilter.java:57-63 | a bare "Bearer " yields the empty token, which authenticates nobody |
| SecurityFilter.UnknownUserNoAuthentication | desafio-foro/src/main/java/alura/desafio/foro/infra/security/SecurityFilter.java:37-38 | a token that verifies for an unregistered email authenticates nobody |
| SecurityFilter.IssuedTokenAuthenticates | desafio-foro/src/main/java/alura/desafio/foro/infra/security/SecurityFilter.java:30-55 | under an ideal codec and unique emails, "Bearer " plus an unexpired token issued for a stored user authenticates that user |

## Left out

- HMAC-SHA256, base64url and the JSON claims encoding are not modelled. `Jwt.Codec` is a pair of function values, and the service's expectations of it are the `Jwt.IdealCodec` hypothesis, required by the lemmas that follow a token from issue to verification.
- Jwt.IdealCodec: its third law (another key never verifies) is stronger than HMAC, which pads short keys with zero bytes and hashes long ones; `TokenService.OtherKeyRejected` inherits this.
- Text.GetBytes: `String.getBytes()` uses the platform's default charset; the model takes it to be UTF-8 (the default since Java 18, and on most servers before that).
- TokenService: `jwt.expiration` and the clock readings are unbounded integers. Only the overflow of `Date.from` is modelled; overflows inside `java.time` for instants beyond year one billion are not.
- The clock is a parameter. `generarToken` reads the time twice (`LocalDateTime.now()`, `new Date()`); the model takes one instant for both.
- Timestamps are epoch milliseconds. `LocalDateTime` is not modelled, and the creation time of a topic and the error body's timestamp are parameters or left out.
- Spring plumbing is left out: dependency injection, `@Transactional`, bean validation annotations (`@Valid`, `@NotBlank`), `UriComponentsBuilder` beyond the path and id, and the servlet types beyond the `Authorization` header.
- `DatosRespuestaTopico.java` and `DatosListadoTopico.java` are not part of this model: responses carry the topic's field values.
- `DatosRegistroTopico.java`, `Usuario.java`, `TopicoRepository.java` and `UsuarioRepository.java` are not part of this model as files. Only what the core uses of them is rebuilt from the call sites: the four record components of `DatosRegistroTopico`; the four values a `Usuario` is constructed from; and `save`, `existsByTituloAndMensaje`, `getReferenceById`, `deleteById`, `findAll(pageable)` and `findByEmail`, with Spring Data's documented behaviour.
- `Usuario.getAuthorities()` is a parameter of the filter, `SecurityFilter.SecurityFilter.getAuthorities`.
- Listing models only the default pageable (page 0, size 10, sorted by creation date). Client-chosen pages, sizes and sorts are not modelled, and neither is the page metadata.
- The HTTP status of `EmailDuplicadoException` is not modelled: its class is not part of this model, and no handler in `ApiExceptionHandler` names it.
- `AutenticacionController` (login) is not part of this model.
- BCrypt is an arbitrary function `encodeFn`. Salting, and the fact that the stored hash is never the raw password, are not modelled.
- Usuarios.UsuarioRepository.Save: requires that no stored user has the email, in place of the database's unique constraint, which would raise `DataIntegrityViolationException`.
- ApiExceptionHandler.HandleJwtException: the default message the handler starts from is overwritten for each of the five exception types it is declared for, so it is never sent and is not modelled.
- TopicoController.TopicoController.EliminarTopico: `deleteById` on a missing id is taken to be silent, as in Spring Data JPA 3. The model does not raise `EmptyResultDataAccessException`.
- TopicoController.OldestFirst: stands in for the database's `ORDER BY fecha_creacion LIMIT 10`. The order among topics created at the same instant is unspecified.
- Concurrency and the thread-local `SecurityContextHolder` are not modelled. The context is an object passed to the filter.
