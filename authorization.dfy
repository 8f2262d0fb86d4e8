/**
 * The bearer-token middleware of api/utils/authorization.js: a request passes
 * when its `Authorization` header, split on single spaces, has `Bearer` as its
 * first field and the configured token as its second; otherwise the response
 * is a fixed 401 error and the next handler is not run.
 *
 * The request is reduced to its optional `authorization` header, and
 * `process.env.TOKEN` is a parameter (`None` when the variable is unset).
 */
module Authorization {
  import opened Wrappers
  import opened JsString

  /** The scheme the first field must equal, compared case-sensitively. */
  const Scheme: string := "Bearer"
  /** The only separator the header is split on. */
  const Space: char := ' '

  /** The JSON body sent on rejection: `{error, message}`. */
  datatype ErrorBody = ErrorBody(error: int, message: string)

  const UnauthorizedStatus: int := 401
  const InvalidAuthorization: ErrorBody := ErrorBody(401, "Invalid authorization provided")

  /**
   * JavaScript `==` between two values that are each a string or `undefined`:
   * `undefined` equals only `undefined`, and two strings are equal when they
   * have the same characters.
   */
  function LooseEquals(a: Option<string>, b: Option<string>): (r: bool)
    ensures r <==> a == b
  {
    match (a, b)
    case (None, None) => true
    case (Some(x), Some(y)) => x == y
    case _ => false
  }

  /** `checkAuthorizationWasProvided`: the header is neither null nor undefined. */
  predicate CheckAuthorizationWasProvided(authorization: Option<string>)
  {
    authorization.Some?
  }

  /**
   * `checkAuthorizationType`: field 0 of the header is exactly `Bearer`, that
   * is, the header's text before its first space (or all of it) is `Bearer`.
   */
  predicate CheckAuthorizationType(authorization: Option<string>): (r: bool)
    ensures r <==> authorization.Some? && UpToSeparator(authorization.value, Space) == Scheme
  {
    match authorization
    case None => false
    case Some(h) =>
      SplitFirstField(h, Space);
      LooseEquals(Field(Split(h, Space), 0), Some(Scheme))
  }

  /**
   * `checkAuthorizationToken`: field 1 of the header `==` the configured token,
   * that is, the text between the first and second space equals the token, or
   * the header has no space and the token is unset.
   */
  predicate CheckAuthorizationToken(authorization: Option<string>, token: Option<string>): (r: bool)
    ensures r <==> authorization.Some? && SecondSegment(authorization.value, Space) == token
  {
    match authorization
    case None => false
    case Some(h) =>
      SplitSecondField(h, Space);
      LooseEquals(Field(Split(h, Space), 1), token)
  }

  /** The request is let through: none of the three flags is false. */
  predicate Authorized(authorization: Option<string>, token: Option<string>)
  {
    && CheckAuthorizationWasProvided(authorization)
    && CheckAuthorizationType(authorization)
    && CheckAuthorizationToken(authorization, token)
  }

  /**
   * A reference description of the headers that pass, written without `split`:
   * either the header is exactly `Bearer` and no token is configured, or it
   * starts with `Bearer ` and what follows, up to the next space or the end,
   * is the configured token.
   */
  predicate BearerCredentials(h: string, token: Option<string>)
  {
    || (h == Scheme && token == None)
    || (|h| > |Scheme| && h[..|Scheme| + 1] == Scheme + [Space]
        && token == Some(UpToSeparator(h[|Scheme| + 1..], Space)))
  }

  /**
   * The effects `validateToken` can have on an Express exchange: the status
   * and JSON body set on the response, and whether `next()` was called.
   */
  class Response {
    var status: int
    var body: Option<ErrorBody>
    var nextCalled: bool

    /** A response as Express hands it to the middleware. */
    constructor ()
      ensures status == 200 && body == None && !nextCalled
    {
      status := 200;
      body := None;
      nextCalled := false;
    }
  }

  /**
   * `validateToken(request, response, next)`. On rejection the status and body
   * are the same constants whichever check failed, and `next` is not called;
   * on acceptance only `next` is called.
   */
  method ValidateToken(authorization: Option<string>, token: Option<string>, response: Response)
    modifies response
    ensures Authorized(authorization, token) ==>
      && response.nextCalled
      && response.status == old(response.status)
      && response.body == old(response.body)
    ensures !Authorized(authorization, token) ==>
      && response.nextCalled == old(response.nextCalled)
      && response.status == UnauthorizedStatus
      && response.body == Some(InvalidAuthorization)
  {
    var flag1 := CheckAuthorizationWasProvided(authorization);
    var flag2 := CheckAuthorizationType(authorization);
    var flag3 := CheckAuthorizationToken(authorization, token);

    var flags := [flag1, flag2, flag3];

    if false in flags {
      response.status := UnauthorizedStatus;
      response.body := Some(InvalidAuthorization);
      return;
    }

    response.nextCalled := true;
  }

  /** An absent header fails all three checks, so the request is rejected. */
  lemma MissingHeaderRejected(token: Option<string>)
    ensures !CheckAuthorizationWasProvided(None)
    ensures !CheckAuthorizationType(None)
    ensures !CheckAuthorizationToken(None, token)
    ensures !Authorized(None, token)
  {
  }

  /** The presence check is implied by each of the other two, so it never decides. */
  lemma PresenceCheckRedundant(authorization: Option<string>, token: Option<string>)
    ensures CheckAuthorizationType(authorization) ==> CheckAuthorizationWasProvided(authorization)
    ensures CheckAuthorizationToken(authorization, token) ==> CheckAuthorizationWasProvided(authorization)
    ensures Authorized(authorization, token) <==>
      CheckAuthorizationType(authorization) && CheckAuthorizationToken(authorization, token)
  {
  }

  /** A header that starts with `Bearer ` passes exactly when its second field is the token. */
  lemma SchemePrefixedCase(h: string, token: Option<string>)
    requires |h| > |Scheme| && h[..|Scheme| + 1] == Scheme + [Space]
    ensures Authorized(Some(h), token) <==> BearerCredentials(h, token)
  {
    var n := |Scheme| + 1;
    assert h == Scheme + [Space] + h[n..];
    SplitAfterField(Scheme, Space, h[n..]);
    SplitFirstField(h[n..], Space);
    assert h[|Scheme|] == Space;
    assert h != Scheme;
  }

  /** A header with a space that does not start with `Bearer ` never passes. */
  lemma OtherSchemeCase(h: string, token: Option<string>)
    requires Space in h
    requires !(|h| > |Scheme| && h[..|Scheme| + 1] == Scheme + [Space])
    ensures !Authorized(Some(h), token) && !BearerCredentials(h, token)
  {
    var w := UpToSeparator(h, Space);
    assert Space !in Scheme;
    assert h != Scheme;
    assert !CheckAuthorizationType(Some(h));
  }

  /** The split-based checks let through exactly the headers of the reference description. */
  lemma AuthorizedIffBearerCredentials(authorization: Option<string>, token: Option<string>)
    ensures Authorized(authorization, token) <==>
      authorization.Some? && BearerCredentials(authorization.value, token)
  {
    if authorization.Some? {
      var h := authorization.value;
      if |h| > |Scheme| && h[..|Scheme| + 1] == Scheme + [Space] {
        SchemePrefixedCase(h, token);
      } else if Space in h {
        OtherSchemeCase(h, token);
      } else {
        NoSpaceMatchesOnlyUnsetToken(h, token);
      }
    }
  }

  /** Fields after the token are never inspected. */
  lemma TrailingFieldsIgnored(tok: string, rest: string, token: Option<string>)
    requires Space !in tok
    ensures Authorized(Some(Scheme + [Space] + tok + [Space] + rest), token) <==> token == Some(tok)
  {
    var h := Scheme + [Space] + tok + [Space] + rest;
    var after := tok + [Space] + rest;
    assert h == Scheme + [Space] + after;
    SplitAfterField(Scheme, Space, after);
    SplitAfterField(tok, Space, rest);
    var fields := Split(h, Space);
    assert fields == [Scheme] + ([tok] + Split(rest, Space));
    assert fields[0] == Scheme && fields[1] == tok;
  }

  /**
   * Two spaces after the scheme give an empty token field, which matches only
   * a configured token equal to the empty string.
   */
  lemma DoubleSpaceGivesEmptyToken(rest: string, token: Option<string>)
    ensures Field(Split(Scheme + [Space, Space] + rest, Space), 1) == Some("")
    ensures Authorized(Some(Scheme + [Space, Space] + rest), token) <==> token == Some("")
  {
    var h := Scheme + [Space, Space] + rest;
    var after := [Space] + rest;
    assert h == Scheme + [Space] + after;
    SplitAfterField(Scheme, Space, after);
    assert after == [] + [Space] + rest;
    SplitAfterField([], Space, rest);
    var fields := Split(h, Space);
    assert fields == [Scheme] + ([[]] + Split(rest, Space));
    assert fields[0] == Scheme && fields[1] == [];
  }

  /**
   * A header without a space has no field 1; `undefined == TOKEN` then holds
   * exactly when the token is unset, and only the bare `Bearer` header passes.
   */
  lemma NoSpaceMatchesOnlyUnsetToken(h: string, token: Option<string>)
    requires Space !in h
    ensures Field(Split(h, Space), 1) == None
    ensures CheckAuthorizationToken(Some(h), token) <==> token == None
    ensures Authorized(Some(h), token) <==> h == Scheme && token == None
  {
    SplitWithoutSeparator(h, Space);
  }

  /** Any first field other than exactly `Bearer` is rejected, whatever the token. */
  lemma SchemeIsCaseSensitive(scheme: string, rest: string, token: Option<string>)
    requires Space !in scheme && scheme != Scheme
    ensures !Authorized(Some(scheme + [Space] + rest), token)
  {
    SplitAfterField(scheme, Space, rest);
  }

  /** `bearer <tok>` and `BEARER <tok>` are rejected even when `tok` is the configured token. */
  lemma OtherCasingsRejected(tok: string)
    ensures !Authorized(Some("bearer " + tok), Some(tok))
    ensures !Authorized(Some("BEARER " + tok), Some(tok))
  {
    assert "bearer " + tok == "bearer" + [Space] + tok;
    SchemeIsCaseSensitive("bearer", tok, Some(tok));
    assert "BEARER " + tok == "BEARER" + [Space] + tok;
    SchemeIsCaseSensitive("BEARER", tok, Some(tok));
  }
}
