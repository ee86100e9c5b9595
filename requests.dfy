/**
 * What the server reads from a request before any table is touched: JavaScript
 * truthiness of body fields, the bearer token of the `Authorization` header
 * and its verification (`authMiddleware`), and the answer language taken from
 * `Accept-Language` by the login route. Token signing and password hashing
 * are library calls; they enter as values whose laws are stated, not proved.
 */
module Requests {
  import opened Wrappers
  import opened Strings
  import opened Api

  /** `jsonwebtoken` with the server's fixed secret: `sign` and `verify`. */
  datatype Jwt = Jwt(sign: Identity -> string, verify: string -> Option<Identity>)

  /**
   * A signed token verifies to the claims it was signed with, and a compact
   * token is never empty and never contains a space; the empty token is
   * rejected ("jwt must be provided").
   */
  ghost predicate JwtLaws(jwt: Jwt)
  {
    && jwt.verify("") == None
    && forall c :: jwt.verify(jwt.sign(c)) == Some(c) && jwt.sign(c) != "" && ' ' !in jwt.sign(c)
  }

  /** `bcrypt` with the server's work factor: `hash` and `compare`. */
  datatype Hasher = Hasher(hash: string -> string, compare: (string, string) -> bool)

  /** A password matches its own hash. */
  ghost predicate HasherLaws(hasher: Hasher)
  {
    forall p :: hasher.compare(p, hasher.hash(p))
  }

  /** A body field or header is truthy when present and not the empty string. */
  predicate Truthy(v: Option<string>)
  {
    v.Some? && v.value != ""
  }

  const BearerPrefix: string := "Bearer "

  /**
   * The token of an `Authorization` header, `auth.split(' ')[1]`, when the
   * header is present and starts with `Bearer `: the text after the prefix up
   * to the next space.
   */
  function BearerToken(authorization: Option<string>): (token: Option<string>)
    ensures token.Some? <==> authorization.Some? && BearerPrefix <= authorization.value
    ensures token.Some? ==>
      var rest := authorization.value[|BearerPrefix|..];
      && token.value <= rest
      && ' ' !in token.value
      && (|token.value| == |rest| || rest[|token.value|] == ' ')
  {
    if !Truthy(authorization) || !(BearerPrefix <= authorization.value) then None
    else
      var auth := authorization.value;
      var rest := auth[|BearerPrefix|..];
      assert auth == "Bearer" + [' '] + rest;
      SplitAround("Bearer", rest, ' ');
      SplitFree("Bearer", ' ');
      SplitHead(rest, ' ');
      Some(Split(auth, ' ')[1])
  }

  /** A header built as `Bearer ${token}` gives back a token without spaces. */
  lemma BearerTokenOfHeader(token: string)
    requires ' ' !in token
    ensures BearerToken(Some(BearerPrefix + token)) == Some(token)
  {
    var header := BearerPrefix + token;
    assert BearerPrefix <= header;
    assert header[|BearerPrefix|..] == token;
    var t := BearerToken(Some(header)).value;
    assert t == token;
  }

  /**
   * `authMiddleware`: the caller's claims, or the message of the 401 answer
   * that stops the request before its handler runs.
   */
  function Authenticate(jwt: Jwt, authorization: Option<string>): (r: Result<Identity, Message>)
    ensures r.Success? <==> BearerToken(authorization).Some? && jwt.verify(BearerToken(authorization).value).Some?
    ensures r.Success? ==> jwt.verify(BearerToken(authorization).value) == Some(r.value)
    ensures r.Failure? ==> r.error == (if BearerToken(authorization).None? then NotAuthorized else InvalidToken)
  {
    match BearerToken(authorization)
    case None => Failure(NotAuthorized)
    case Some(token) =>
      match jwt.verify(token)
      case None => Failure(InvalidToken)
      case Some(claims) => Success(claims)
  }

  /** A request carrying a token the server signed is let through as the signed claims. */
  lemma AuthenticateSigned(jwt: Jwt, claims: Identity)
    requires JwtLaws(jwt)
    ensures Authenticate(jwt, Some(BearerPrefix + jwt.sign(claims))) == Success(claims)
  {
    BearerTokenOfHeader(jwt.sign(claims));
  }

  /**
   * A second space right after `Bearer ` leaves an empty token, which is
   * rejected as an invalid token rather than a missing one.
   */
  lemma EmptyBearerRejected(jwt: Jwt, rest: string)
    requires JwtLaws(jwt)
    ensures Authenticate(jwt, Some(BearerPrefix + " " + rest)) == Failure(InvalidToken)
  {
    var header := BearerPrefix + " " + rest;
    assert BearerPrefix <= header;
    assert header[|BearerPrefix|..][0] == ' ';
  }

  /**
   * The login route's language: the first comma-separated entry of
   * `Accept-Language` (or `''` when the header is absent), cut at its first
   * `-`, is compared with `en`.
   */
  function AcceptLang(acceptLanguage: Option<string>): (lang: Lang)
    ensures acceptLanguage.None? ==> lang == Sr
  {
    var header := if acceptLanguage.Some? then acceptLanguage.value else "";
    if Split(Split(header, ',')[0], '-')[0] == "en" then En else Sr
  }

  /**
   * English is chosen exactly when the header starts with `en` followed by
   * its end, a `,` or a `-`; any other header, and no header, gives Serbian.
   */
  lemma AcceptLangEnIff(acceptLanguage: Option<string>)
    ensures AcceptLang(acceptLanguage) == En <==>
      && acceptLanguage.Some?
      && "en" <= acceptLanguage.value
      && (|acceptLanguage.value| == 2 || acceptLanguage.value[2] == ',' || acceptLanguage.value[2] == '-')
  {
    var h := if acceptLanguage.Some? then acceptLanguage.value else "";
    var first := Split(h, ',')[0];
    var tag := Split(first, '-')[0];
    SplitHead(h, ',');
    SplitHead(first, '-');
    if "en" <= h && (|h| == 2 || h[2] == ',' || h[2] == '-') {
      assert first[0] == 'e' && first[1] == 'n';
      assert tag[0] == 'e' && tag[1] == 'n';
      assert |tag| == 2;
    }
  }
}
