/**
 * The slice of the jjwt library the token service relies on. Signing and parsing
 * (HMAC-SHA256, base64url, JSON) are not modelled: a `Codec` is a pair of function
 * values, and `IdealCodec` states what the service expects of them.
 */
module Jwt {
  import opened Wrappers
  import opened Text

  /** RFC 7518, section 3.2: an HS256 key must be at least 256 bits long. */
  const MinHmacKeyBits := 256

  /** A `javax.crypto.SecretKey` for HMAC; only `HmacShaKeyFor` builds one. */
  datatype SecretKey = HmacKey(bytes: seq<byte>)

  /**
   * The JWT claims set the service reads and writes (RFC 7519, section 4.1, plus the
   * private claim `id`). An absent claim is `None`; `iat` and `exp` are epoch seconds.
   */
  datatype Claims = Claims(
    iss: Option<string>,
    sub: Option<string>,
    id: Option<nat>,
    iat: Option<int>,
    exp: Option<int>)

  /** What `parseClaimsJws` throws before any claim is checked. */
  datatype ParseError =
    | ExpiredJwt
    | MalformedJwt
    | UnsupportedJwt
    | SignatureMismatch
    | IllegalArgument(message: Nullable<string>)

  /** Why a key could not be built or a claims set was refused. */
  datatype JwtFailure =
    | WeakKey(bits: nat)                  // Keys.hmacShaKeyFor on fewer than 256 bits
    | Parse(error: ParseError)            // thrown by parseClaimsJws
    | MissingClaim(claim: string)         // requireX found no such claim
    | IncorrectClaim(claim: string)       // requireX found another value

  /**
   * `Keys.hmacShaKeyFor(bytes)`: a key for 256 bits or more, a `WeakKeyException`
   * otherwise.
   */
  function HmacShaKeyFor(bytes: seq<byte>): (r: Result<SecretKey, JwtFailure>)
    ensures r.Ok? <==> |bytes| * 8 >= MinHmacKeyBits
    ensures r.Ok? ==> r.value.bytes == bytes
    ensures r.Err? ==> r.error == WeakKey(|bytes| * 8)
  {
    if |bytes| * 8 >= MinHmacKeyBits then Ok(HmacKey(bytes)) else Err(WeakKey(|bytes| * 8))
  }

  /**
   * `Jwts.builder()...signWith(key, HS256).compact()` and `Jwts.parserBuilder()
   * .setSigningKey(key).build().parseClaimsJws(token)` at time `nowMillis`.
   */
  datatype Codec = Codec(
    sign: (SecretKey, Claims) -> string,
    parse: (SecretKey, string, int) -> Result<Claims, ParseError>)

  /** The moment `exp` (epoch seconds) lies behind, as jjwt compares it with the clock in milliseconds. */
  predicate ExpiredAt(cl: Claims, nowMillis: int)
  {
    cl.exp.Some? && nowMillis > cl.exp.value * 1000
  }

  /**
   * The properties of HS256 and compact serialization that the service depends on,
   * taken as hypotheses: a compact token is never empty; parsing what was signed with
   * the same key gives back the claims until they expire and `ExpiredJwt` afterwards;
   * a token signed with another key fails signature verification.
   */
  ghost predicate IdealCodec(c: Codec)
  {
    && (forall k, cl :: |c.sign(k, cl)| > 0)
    && (forall k, cl, now {:trigger c.parse(k, c.sign(k, cl), now)} ::
          c.parse(k, c.sign(k, cl), now) == if ExpiredAt(cl, now) then Err(ExpiredJwt) else Ok(cl))
    && (forall k, k', cl, now {:trigger c.parse(k', c.sign(k, cl), now)} ::
          k != k' ==> c.parse(k', c.sign(k, cl), now) == Err(SignatureMismatch))
  }
}
