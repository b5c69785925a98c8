/**
 * `TokenService`: issues HS256-signed JWTs for a user and verifies them back to the
 * user's email. The configuration (`jwt.secret`, `jwt.expiration`) and the jjwt codec
 * are the service's state, fixed at construction, so the service is a value.
 */
module TokenService {
  import opened Wrappers
  import opened Text
  import opened Jwt
  import opened Usuarios

  /** The issuer written at issue and demanded at verification. */
  const Issuer := "foro_hub"

  /** `${jwt.secret:12345678}` and `${jwt.expiration:86400000}`. */
  const DefaultSecret := "12345678"
  const DefaultExpiration := 86400000

  const IssueFailedMessage := "Error al generar el token JWT"
  const NotProvidedMessage := "Token JWT inválido o no proporcionado"
  const InvalidMessage := "Token JWT inválido o expirado"
  const NoSubjectMessage := "Token JWT inválido: no se encontró el 'subject'"

  /** The range of a Java `long`. */
  const LongMin := -0x8000_0000_0000_0000
  const LongMax := 0x7FFF_FFFF_FFFF_FFFF

  /**
   * What the service wraps: a library failure, `Date.from` refusing an instant whose
   * epoch milliseconds do not fit in a `long`, or its own missing-subject throw.
   */
  datatype Cause =
    | Library(failure: JwtFailure)
    | DateOutOfRange(millis: int)
    | SubjectNotFound(message: string)

  /** The only exception the service lets escape. */
  datatype RuntimeException = RuntimeException(message: string, cause: Nullable<Cause>)

  /** The instant the service reads the clock: UTC time and the zone's offset from it. */
  datatype Clock = Clock(utcMillis: int, zoneOffsetSeconds: int)

  /** Java's `long / long`, which truncates toward zero. */
  function JavaDiv(a: int, b: int): (q: int)
    requires b > 0
    ensures var r := a - b * q; (a >= 0 ==> 0 <= r < b) && (a < 0 ==> -b < r <= 0)
  {
    if a >= 0 then a / b else -((-a) / b)
  }

  /** jjwt stores a `Date` claim as `getTime() / 1000`. */
  function EpochSeconds(millis: int): int
  {
    JavaDiv(millis, 1000)
  }

  /** The claims `generarToken` builds: issuer, subject, `id` (dropped when null), iat and exp. */
  function IssuedClaims(usuario: Usuario, nowMillis: int, expiraMillis: int): (cl: Claims)
    ensures cl.iss == Some(Issuer)
    ensures cl.sub == Some(usuario.email)
    ensures cl.id == OfNullable(usuario.id)
    ensures cl.iat == Some(EpochSeconds(nowMillis)) && cl.exp == Some(EpochSeconds(expiraMillis))
  {
    Claims(Some(Issuer), Some(usuario.email), OfNullable(usuario.id),
           Some(EpochSeconds(nowMillis)), Some(EpochSeconds(expiraMillis)))
  }

  /** Whether `Date.from` accepts an instant this many milliseconds after the epoch. */
  predicate FitsInLong(millis: int)
  {
    LongMin <= millis <= LongMax
  }

  datatype TokenService = TokenService(secretOrKey: string, expiration: int, codec: Codec)
  {
    /** `Keys.hmacShaKeyFor(secretOrKey.getBytes())`, rebuilt on every call. */
    function Key(): (r: Result<SecretKey, JwtFailure>)
      ensures r.Ok? <==> |GetBytes(secretOrKey)| >= 32
    {
      HmacShaKeyFor(GetBytes(secretOrKey))
    }

    /**
     * `generarFechaExpiracion`: the local wall-clock time, moved on by `expiration / 1000`
     * whole seconds and then read as if it were UTC; the result is epoch milliseconds.
     */
    function GenerarFechaExpiracion(clock: Clock): (millis: int)
      ensures millis == clock.utcMillis + 1000 * clock.zoneOffsetSeconds + 1000 * JavaDiv(expiration, 1000)
    {
      var localWallMillis := clock.utcMillis + 1000 * clock.zoneOffsetSeconds;
      localWallMillis + 1000 * JavaDiv(expiration, 1000)
    }

    /**
     * `generarToken`: the signed compact token for `usuario`. A weak key fails first; an
     * expiry too far away for `Date.from` fails next; either comes out as one
     * `RuntimeException` that keeps the cause.
     */
    function GenerarToken(usuario: Usuario, clock: Clock): (r: Result<string, RuntimeException>)
      ensures r.Ok? <==> Key().Ok? && FitsInLong(GenerarFechaExpiracion(clock))
      ensures r.Ok? ==>
        r.value == codec.sign(Key().value, IssuedClaims(usuario, clock.utcMillis, GenerarFechaExpiracion(clock)))
      ensures r.Err? ==> r.error.message == IssueFailedMessage
      ensures Key().Err? ==> r == Err(RuntimeException(IssueFailedMessage, NonNull(Library(Key().error))))
      ensures Key().Ok? && !FitsInLong(GenerarFechaExpiracion(clock)) ==>
        r == Err(RuntimeException(IssueFailedMessage, NonNull(DateOutOfRange(GenerarFechaExpiracion(clock)))))
    {
      match Key()
      case Err(failure) => Err(RuntimeException(IssueFailedMessage, NonNull(Library(failure))))
      case Ok(key) =>
        var expira := GenerarFechaExpiracion(clock);
        if !FitsInLong(expira) then Err(RuntimeException(IssueFailedMessage, NonNull(DateOutOfRange(expira))))
        else Ok(codec.sign(key, IssuedClaims(usuario, clock.utcMillis, expira)))
    }

    /** Whether a claims set passes `requireIssuer("foro_hub")` and carries a subject. */
    static predicate Acceptable(cl: Claims)
    {
      cl.iss == Some(Issuer) && cl.sub.Some?
    }

    /**
     * `getSubject`: the subject of a token that parses under the key and has issuer
     * `foro_hub`. A null or empty token fails before any parsing; every later failure,
     * the service's own missing-subject throw included, is re-wrapped into one
     * `RuntimeException` with the invalid-or-expired message.
     */
    function GetSubject(token: Nullable<string>, nowMillis: int): (r: Result<string, RuntimeException>)
      ensures token.Null? || token.value == [] ==> r == Err(RuntimeException(NotProvidedMessage, Null))
      ensures r.Ok? <==>
        && token.NonNull? && token.value != []
        && Key().Ok?
        && codec.parse(Key().value, token.value, nowMillis).Ok?
        && Acceptable(codec.parse(Key().value, token.value, nowMillis).value)
      ensures r.Ok? ==> codec.parse(Key().value, token.value, nowMillis).value.sub == Some(r.value)
      ensures r.Err? && token.NonNull? && token.value != [] ==>
        r.error.message == InvalidMessage && r.error.cause.NonNull?
      ensures (r.Err? && token.NonNull? && token.value != [] && Key().Ok?
               && codec.parse(Key().value, token.value, nowMillis).Err?) ==>
        r.error.cause == NonNull(Library(Parse(codec.parse(Key().value, token.value, nowMillis).error)))
    {
      if token.Null? || token.value == [] then
        Err(RuntimeException(NotProvidedMessage, Null))
      else
        match Key()
        case Err(failure) => Err(RuntimeException(InvalidMessage, NonNull(Library(failure))))
        case Ok(key) =>
          match codec.parse(key, token.value, nowMillis)
          case Err(e) => Err(RuntimeException(InvalidMessage, NonNull(Library(Parse(e)))))
          case Ok(cl) =>
            if cl.iss.None? then Err(RuntimeException(InvalidMessage, NonNull(Library(MissingClaim("iss")))))
            else if cl.iss.value != Issuer then
              Err(RuntimeException(InvalidMessage, NonNull(Library(IncorrectClaim("iss")))))
            else if cl.sub.None? then Err(RuntimeException(InvalidMessage, NonNull(SubjectNotFound(NoSubjectMessage))))
            else Ok(cl.sub.value)
    }
  }

  /** The service as configured by default. */
  function DefaultService(codec: Codec): TokenService
  {
    TokenService(DefaultSecret, DefaultExpiration, codec)
  }

  /** Every failure of either operation is a `RuntimeException` carrying one of the service's messages. */
  lemma FailuresAreWrapped(svc: TokenService, u: Usuario, clock: Clock, token: Nullable<string>, now: int)
    ensures svc.GenerarToken(u, clock).Err? ==> svc.GenerarToken(u, clock).error.message == IssueFailedMessage
    ensures svc.GetSubject(token, now).Err? ==>
      svc.GetSubject(token, now).error.message in {NotProvidedMessage, InvalidMessage}
  {
  }

  /** A token whose issuer is not `foro_hub` is refused, even when it parses under the key. */
  lemma OtherIssuerRejected(svc: TokenService, token: string, now: int)
    requires svc.Key().Ok?
    requires svc.codec.parse(svc.Key().value, token, now).Ok?
    requires svc.codec.parse(svc.Key().value, token, now).value.iss != Some(Issuer)
    ensures svc.GetSubject(NonNull(token), now).Err?
  {
  }

  /**
   * Round trip: under an ideal codec and a strong key, verifying a freshly issued token
   * at any time up to its expiry gives back the user's email.
   */
  lemma {:induction false} RoundTrip(svc: TokenService, u: Usuario, clock: Clock, now: int)
    requires IdealCodec(svc.codec)
    requires svc.GenerarToken(u, clock).Ok?
    requires now <= EpochSeconds(svc.GenerarFechaExpiracion(clock)) * 1000
    ensures svc.GetSubject(NonNull(svc.GenerarToken(u, clock).value), now) == Ok(u.email)
  {
    var key := svc.Key().value;
    var cl := IssuedClaims(u, clock.utcMillis, svc.GenerarFechaExpiracion(clock));
    assert svc.codec.parse(key, svc.codec.sign(key, cl), now) == Ok(cl);
    assert |svc.codec.sign(key, cl)| > 0;
  }

  /** After its expiry an issued token is refused, and the cause kept is `ExpiredJwt`. */
  lemma {:induction false} ExpiredRejected(svc: TokenService, u: Usuario, clock: Clock, now: int)
    requires IdealCodec(svc.codec)
    requires svc.GenerarToken(u, clock).Ok?
    requires now > EpochSeconds(svc.GenerarFechaExpiracion(clock)) * 1000
    ensures svc.GetSubject(NonNull(svc.GenerarToken(u, clock).value), now)
         == Err(RuntimeException(InvalidMessage, NonNull(Library(Parse(ExpiredJwt)))))
  {
    var key := svc.Key().value;
    var cl := IssuedClaims(u, clock.utcMillis, svc.GenerarFechaExpiracion(clock));
    assert svc.codec.parse(key, svc.codec.sign(key, cl), now) == Err(ExpiredJwt);
    assert |svc.codec.sign(key, cl)| > 0;
  }

  /** A token issued under another secret fails signature verification. */
  lemma {:induction false} OtherKeyRejected(issuer: TokenService, verifier: TokenService, u: Usuario, clock: Clock, now: int)
    requires IdealCodec(issuer.codec) && verifier.codec == issuer.codec
    requires issuer.GenerarToken(u, clock).Ok? && verifier.Key().Ok?
    requires GetBytes(issuer.secretOrKey) != GetBytes(verifier.secretOrKey)
    ensures verifier.GetSubject(NonNull(issuer.GenerarToken(u, clock).value), now)
         == Err(RuntimeException(InvalidMessage, NonNull(Library(Parse(SignatureMismatch)))))
  {
    var key := issuer.Key().value;
    var cl := IssuedClaims(u, clock.utcMillis, issuer.GenerarFechaExpiracion(clock));
    assert verifier.Key().value != key;
    assert issuer.codec.parse(verifier.Key().value, issuer.codec.sign(key, cl), now) == Err(SignatureMismatch);
    assert |issuer.codec.sign(key, cl)| > 0;
  }

  /**
   * The default secret "12345678" is 64 bits, below the 256 HS256 needs: under the default
   * configuration no token can be issued and none verifies.
   */
  lemma DefaultSecretUnusable(codec: Codec, u: Usuario, clock: Clock, token: Nullable<string>, now: int)
    ensures |GetBytes(DefaultSecret)| * 8 == 64
    ensures DefaultService(codec).GenerarToken(u, clock).Err?
    ensures DefaultService(codec).GetSubject(token, now).Err?
  {
    AsciiLength(DefaultSecret);
  }

  /**
   * The expiry claim is the issued-at claim plus the zone offset plus the TTL cut to whole
   * seconds (for instants after 1970); it is issued-at plus the TTL exactly when the
   * system zone is UTC.
   */
  lemma {:induction false} ExpiryVersusIssuedAt(svc: TokenService, u: Usuario, clock: Clock)
    requires clock.utcMillis >= 0
    requires svc.GenerarFechaExpiracion(clock) >= 0
    ensures var cl := IssuedClaims(u, clock.utcMillis, svc.GenerarFechaExpiracion(clock));
      cl.exp.value == cl.iat.value + clock.zoneOffsetSeconds + JavaDiv(svc.expiration, 1000)
    ensures var cl := IssuedClaims(u, clock.utcMillis, svc.GenerarFechaExpiracion(clock));
      cl.exp.value - cl.iat.value == JavaDiv(svc.expiration, 1000) <==> clock.zoneOffsetSeconds == 0
  {
    var k := clock.zoneOffsetSeconds + JavaDiv(svc.expiration, 1000);
    var m := clock.utcMillis;
    assert svc.GenerarFechaExpiracion(clock) == m + 1000 * k;
    DivShift(m, k);
  }

  lemma DivShift(m: int, k: int)
    requires m >= 0 && m + 1000 * k >= 0
    ensures (m + 1000 * k) / 1000 == m / 1000 + k
  {
    var q, r := m / 1000, m % 1000;
    assert m == 1000 * q + r && 0 <= r < 1000;
    assert m + 1000 * k == 1000 * (q + k) + r;
  }

  /** The TTL loses its sub-second part: whole seconds, never more than configured, less by under a second. */
  lemma TtlTruncated(expiration: int)
    requires expiration >= 0
    ensures 1000 * JavaDiv(expiration, 1000) <= expiration < 1000 * JavaDiv(expiration, 1000) + 1000
  {
  }

  /**
   * A TTL of `Long.MAX_VALUE` milliseconds cannot be issued: from any instant after 1970
   * in a zone east of UTC, the expiry is past what a `Date` can hold.
   */
  lemma MaxExpirationUnissuable(svc: TokenService, u: Usuario, clock: Clock)
    requires svc.expiration == LongMax
    requires clock.utcMillis >= 0 && clock.zoneOffsetSeconds >= 1
    ensures svc.GenerarToken(u, clock).Err?
    ensures svc.GenerarToken(u, clock).error.message == IssueFailedMessage
  {
    assert JavaDiv(svc.expiration, 1000) == 9223372036854775;
  }

  /**
   * A token verified at the instant it was issued is accepted exactly as the zone offset
   * and the TTL leave it in the future: when their sum is positive, the user's email
   * comes back.
   */
  lemma {:induction false} FreshTokenAccepted(svc: TokenService, u: Usuario, clock: Clock)
    requires IdealCodec(svc.codec)
    requires svc.GenerarToken(u, clock).Ok?
    requires clock.utcMillis >= 0
    requires clock.zoneOffsetSeconds + JavaDiv(svc.expiration, 1000) > 0
    ensures svc.GetSubject(NonNull(svc.GenerarToken(u, clock).value), clock.utcMillis) == Ok(u.email)
  {
    ExpiryVersusIssuedAt(svc, u, clock);
    RoundTrip(svc, u, clock, clock.utcMillis);
  }

  /**
   * When the zone lies further west of UTC than the TTL reaches, a token is already
   * expired at the instant it is issued.
   */
  lemma {:induction false} BornExpired(svc: TokenService, u: Usuario, clock: Clock)
    requires IdealCodec(svc.codec)
    requires svc.GenerarToken(u, clock).Ok?
    requires clock.utcMillis >= 0 && svc.GenerarFechaExpiracion(clock) >= 0
    requires clock.zoneOffsetSeconds + JavaDiv(svc.expiration, 1000) < 0
    ensures svc.GetSubject(NonNull(svc.GenerarToken(u, clock).value), clock.utcMillis)
         == Err(RuntimeException(InvalidMessage, NonNull(Library(Parse(ExpiredJwt)))))
  {
    ExpiryVersusIssuedAt(svc, u, clock);
    ExpiredRejected(svc, u, clock, clock.utcMillis);
  }

  /**
   * For instance, at UTC-5 with a TTL of one hour, every token the service issues is
   * refused as expired when presented straight away.
   */
  lemma UtcMinusFiveOneHour(svc: TokenService, u: Usuario, utcMillis: int)
    requires IdealCodec(svc.codec) && svc.expiration == 3600000
    requires svc.GenerarToken(u, Clock(utcMillis, -18000)).Ok?
    requires utcMillis >= 14400000
    ensures svc.GetSubject(NonNull(svc.GenerarToken(u, Clock(utcMillis, -18000)).value), utcMillis)
         == Err(RuntimeException(InvalidMessage, NonNull(Library(Parse(ExpiredJwt)))))
  {
    BornExpired(svc, u, Clock(utcMillis, -18000));
  }

  /**
   * Only a null subject is refused: a token whose subject is the empty string verifies,
   * and the empty string is what comes back.
   */
  lemma EmptySubjectAccepted(svc: TokenService, token: string, now: int)
    requires token != [] && svc.Key().Ok?
    requires svc.codec.parse(svc.Key().value, token, now).Ok?
    requires svc.codec.parse(svc.Key().value, token, now).value.iss == Some(Issuer)
    requires svc.codec.parse(svc.Key().value, token, now).value.sub == Some("")
    ensures svc.GetSubject(NonNull(token), now) == Ok("")
  {
  }
}
