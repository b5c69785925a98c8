/**
 * `SecurityFilter`: once per request, reads a bearer token from the `Authorization`
 * header, verifies it, loads the user it names and records that user as the request's
 * authentication; on any failure it carries on unauthenticated. The thread-local
 * `SecurityContextHolder` is an explicit context object the filter updates.
 */
module SecurityFilter {
  import opened Wrappers
  import opened Jwt
  import opened TokenService
  import opened Usuarios

  /** The authentication scheme prefix the filter accepts, exactly as written. */
  const BearerPrefix := "Bearer "

  /** The one part of the servlet request the filter reads: `getHeader("Authorization")`. */
  datatype HttpRequest = HttpRequest(authorization: Nullable<string>)

  /** `UsernamePasswordAuthenticationToken(principal, credentials, authorities)`. */
  datatype Authentication = Authentication(principal: Usuario, credentials: Nullable<string>, authorities: seq<string>)

  /**
   * `recuperarToken`: what follows an exact, case-sensitive "Bearer " (one space) at the
   * start of the header; `null` when the header is absent or starts otherwise.
   */
  function RecuperarToken(authorization: Nullable<string>): (token: Nullable<string>)
    ensures token.NonNull? <==> authorization.NonNull? && BearerPrefix <= authorization.value
    ensures token.NonNull? ==> BearerPrefix + token.value == authorization.value
  {
    if authorization.NonNull? && BearerPrefix <= authorization.value then
      NonNull(authorization.value[|BearerPrefix|..])
    else Null
  }

  /** The only token that can be read from a header is the one written after the prefix. */
  lemma RecuperarTokenRoundTrip(token: string)
    ensures RecuperarToken(NonNull(BearerPrefix + token)) == NonNull(token)
  {
    assert (BearerPrefix + token)[|BearerPrefix|..] == token;
  }

  /**
   * The user `doFilterInternal` authenticates, if any: a token was extracted, its subject
   * verified and `findByEmail` found exactly one user with that email.
   */
  function AuthenticatedUser(svc: TokenService, usuarios: map<nat, Usuario>,
                             authorization: Nullable<string>, nowMillis: int): (u: Option<Usuario>)
    ensures u.Some? ==>
      && RecuperarToken(authorization).NonNull?
      && svc.GetSubject(RecuperarToken(authorization), nowMillis) == Ok(u.value.email)
      && exists id :: id in usuarios && usuarios[id] == u.value
    ensures u.Some? <==>
      && RecuperarToken(authorization).NonNull?
      && svc.GetSubject(RecuperarToken(authorization), nowMillis).Ok?
      && var found := FindByEmail(usuarios, svc.GetSubject(RecuperarToken(authorization), nowMillis).value);
         found.Ok? && found.value.Some?
  {
    var token := RecuperarToken(authorization);
    if token.Null? then None
    else
      match svc.GetSubject(token, nowMillis)
      case Err(_) => None
      case Ok(email) =>
        match FindByEmail(usuarios, email)
        case Ok(Some(usuario)) => Some(usuario)
        case _ => None
  }

  /** `SecurityContextHolder.getContext()` for the current request. */
  class SecurityContext {
    var authentication: Nullable<Authentication>

    constructor ()
      ensures authentication.Null?
    {
      authentication := Null;
    }
  }

  /** The rest of the filter chain; each `doFilter` call is recorded with its request. */
  class FilterChain {
    var forwarded: seq<HttpRequest>

    constructor ()
      ensures forwarded == []
    {
      forwarded := [];
    }

    method DoFilter(request: HttpRequest)
      modifies this
      ensures forwarded == old(forwarded) + [request]
    {
      forwarded := forwarded + [request];
    }
  }

  /** The servlet response; the filter hands it on without writing to it. */
  class HttpServletResponse {
    var status: int
    var body: string

    constructor ()
      ensures status == 200 && body == []
    {
      status := 200;
      body := [];
    }
  }

  class SecurityFilter {
    const tokenService: TokenService
    const usuarioRepository: UsuarioRepository
    /** `Usuario.getAuthorities()`; `Usuario.java` is not part of this model. */
    const getAuthorities: Usuario -> seq<string>

    constructor (tokenService: TokenService, usuarioRepository: UsuarioRepository, getAuthorities: Usuario -> seq<string>)
      ensures this.tokenService == tokenService && this.usuarioRepository == usuarioRepository
      ensures this.getAuthorities == getAuthorities
    {
      this.tokenService := tokenService;
      this.usuarioRepository := usuarioRepository;
      this.getAuthorities := getAuthorities;
    }

    /**
     * `doFilterInternal`: sets the authentication to (user, null, the user's authorities)
     * exactly when `AuthenticatedUser` finds one, and otherwise leaves the context as it
     * was; forwards the request to the chain exactly once and never touches the response.
     */
    method DoFilterInternal(request: HttpRequest, response: HttpServletResponse,
                            filterChain: FilterChain, context: SecurityContext, nowMillis: int)
      modifies context, filterChain
      ensures filterChain.forwarded == old(filterChain.forwarded) + [request]
      ensures var u := AuthenticatedUser(tokenService, usuarioRepository.usuarios, request.authorization, nowMillis);
        context.authentication ==
          if u.Some? then NonNull(Authentication(u.value, Null, getAuthorities(u.value)))
          else old(context.authentication)
    {
      var tokenJWT := RecuperarToken(request.authorization);
      if tokenJWT.NonNull? {
        var subject := tokenService.GetSubject(tokenJWT, nowMillis);
        if subject.Ok? {
          var optionalUsuario := FindByEmail(usuarioRepository.usuarios, subject.value);
          if optionalUsuario.Ok? && optionalUsuario.value.Some? {
            var usuario := optionalUsuario.value.value;
            context.authentication := NonNull(Authentication(usuario, Null, getAuthorities(usuario)));
          }
        }
      }
      filterChain.DoFilter(request);
    }
  }

  /** No header, or one that does not start with exactly "Bearer ", authenticates nobody. */
  lemma NoBearerNoAuthentication(svc: TokenService, usuarios: map<nat, Usuario>, authorization: Nullable<string>, now: int)
    requires authorization.Null? || !(BearerPrefix <= authorization.value)
    ensures AuthenticatedUser(svc, usuarios, authorization, now).None?
  {
  }

  /** The scheme name is compared case-sensitively: "bearer " is not accepted. */
  lemma LowerCaseSchemeRejected(token: string)
    ensures RecuperarToken(NonNull("bearer " + token)).Null?
  {
    assert ("bearer " + token)[0] == 'b';
  }

  /** A bare "Bearer " yields the empty token, which verification refuses before parsing. */
  lemma EmptyBearerNoAuthentication(svc: TokenService, usuarios: map<nat, Usuario>, now: int)
    ensures RecuperarToken(NonNull(BearerPrefix)) == NonNull("")
    ensures AuthenticatedUser(svc, usuarios, NonNull(BearerPrefix), now).None?
  {
    assert BearerPrefix[|BearerPrefix|..] == "";
  }

  /** A token that verifies for an email nobody is registered with authenticates nobody. */
  lemma UnknownUserNoAuthentication(svc: TokenService, usuarios: map<nat, Usuario>, authorization: Nullable<string>, now: int)
    requires RecuperarToken(authorization).NonNull?
    requires svc.GetSubject(RecuperarToken(authorization), now).Ok?
    requires forall id :: id in usuarios ==> usuarios[id].email != svc.GetSubject(RecuperarToken(authorization), now).value
    ensures AuthenticatedUser(svc, usuarios, authorization, now).None?
  {
  }

  /**
   * End to end: under an ideal codec, presenting "Bearer " plus a token issued for a
   * stored user, before it expires, authenticates that user.
   */
  lemma {:induction false} IssuedTokenAuthenticates(svc: TokenService, usuarios: map<nat, Usuario>, id: nat,
                                                   clock: Clock, now: int)
    requires IdealCodec(svc.codec) && UniqueEmails(usuarios)
    requires id in usuarios
    requires svc.GenerarToken(usuarios[id], clock).Ok?
    requires now <= EpochSeconds(svc.GenerarFechaExpiracion(clock)) * 1000
    ensures AuthenticatedUser(svc, usuarios, NonNull(BearerPrefix + svc.GenerarToken(usuarios[id], clock).value), now)
         == Some(usuarios[id])
  {
    var token := svc.GenerarToken(usuarios[id], clock).value;
    RecuperarTokenRoundTrip(token);
    RoundTrip(svc, usuarios[id], clock, now);
    FindByEmailUnique(usuarios, usuarios[id].email);
  }
}
