/** The bearer-token authentication middleware. The scheme is that of
    section 2.1 of RFC 6750, but the prefix test is case-sensitive, stricter
    than the case-insensitive scheme names of section 2.1 of RFC 7235.
    Token verification (signature and expiry, RFC 7519) is a parameter. */
module AuthMiddleware {
  import opened Wrappers
  import opened Entities
  import opened Errors

  const Scheme: string := "Bearer "
  const NoToken: string := "No token provided"
  const BadToken: string := "Invalid or expired token"

  /** The token of an `Authorization` header: the header minus its first
      seven characters, when it starts with exactly `"Bearer "`. */
  function BearerToken(header: Field): (r: Option<string>)
    ensures r.Some? <==> header.Some? && |header.value| >= |Scheme| && header.value[..|Scheme|] == Scheme
    ensures r.Some? ==> header.value == Scheme + r.value
  {
    if header.Some? && |header.value| >= |Scheme| && header.value[..|Scheme|] == Scheme
    then Some(header.value[|Scheme|..])
    else None
  }

  /** What `authenticate` decides for a header, given the verifier: the
      payload, or an authentication error; no other error kind escapes. */
  function Authentication(header: Field, verify: string -> Option<Payload>): (r: Result<Payload, Error>)
    ensures r.Failure? ==> r.error.AuthenticationError?
    ensures BearerToken(header).None? ==> r == Failure(AuthenticationError(NoToken))
    ensures BearerToken(header).Some? && verify(BearerToken(header).value).None? ==>
              r == Failure(AuthenticationError(BadToken))
    ensures r.Success? ==> BearerToken(header).Some? && verify(BearerToken(header).value) == Some(r.value)
  {
    match BearerToken(header)
    case None => Failure(AuthenticationError(NoToken))
    case Some(token) =>
      match verify(token)
      case None => Failure(AuthenticationError(BadToken))
      case Some(payload) => Success(Payload(payload.userId, payload.email))
  }

  /** A token the verifier accepts, sent as `Bearer <token>`, authenticates
      as its payload. */
  lemma AcceptedTokenAuthenticates(token: string, payload: Payload, verify: string -> Option<Payload>)
    requires verify(token) == Some(payload)
    ensures Authentication(Some(Scheme + token), verify) == Success(payload)
  {
    assert (Scheme + token)[..|Scheme|] == Scheme;
    assert (Scheme + token)[|Scheme|..] == token;
  }

  /** The scheme is matched case-sensitively: `bearer <token>` is treated as
      no token at all, whatever the token. */
  lemma LowercaseSchemeRejected(token: string, verify: string -> Option<Payload>)
    ensures Authentication(Some("bearer " + token), verify) == Failure(AuthenticationError(NoToken))
  {
    assert ("bearer " + token)[0] != Scheme[0];
  }

  /** The request fields the middleware reads and writes. */
  class AuthRequest {
    var authorization: Field
    var user: Option<Payload>

    constructor(authorization: Field)
      ensures this.authorization == authorization && user.None?
    {
      this.authorization := authorization;
      user := None;
    }
  }

  /** `authenticate`: on success sets `req.user` to the payload's
      `{userId, email}` and calls `next` once; on failure leaves `req.user`
      alone and throws. */
  method Authenticate(req: AuthRequest, verify: string -> Option<Payload>) returns (o: Outcome<Error>)
    modifies req
    ensures req.authorization == old(req.authorization)
    ensures Authentication(req.authorization, verify).Success? ==>
              o == Next && req.user == Some(Authentication(req.authorization, verify).value)
    ensures Authentication(req.authorization, verify).Failure? ==>
              o == Throw(Authentication(req.authorization, verify).error) && req.user == old(req.user)
  {
    var header := req.authorization;
    if header.None? || !(|header.value| >= |Scheme| && header.value[..|Scheme|] == Scheme) {
      return Throw(AuthenticationError(NoToken));
    }
    var token := header.value[|Scheme|..];
    var verified := verify(token);
    if verified.None? {
      return Throw(AuthenticationError(BadToken));
    }
    req.user := Some(Payload(verified.value.userId, verified.value.email));
    o := Next;
  }
}
