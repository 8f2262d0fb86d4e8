# Bearer-token authorization middleware

This project models the request gate of the campfire API, `validateToken` in
`api/utils/authorization.js`. The gate is Express middleware. It reads the
request's `Authorization` header and splits it on single spaces. The request
is let through (`next()` is called) only when the header is present, field 0
is exactly `Bearer`, and field 1 compares `==` to the configured
`process.env.TOKEN`. Otherwise the response gets status 401 and the JSON body
`{error: 401, message: 'Invalid authorization provided'}`.

This is a simplified form of the `Authorization: Bearer <token>` check of
section 2.1 of RFC 6750. The model follows the code, not the RFC. The scheme is
compared case-sensitively, and the header is split on each single space
character.

Modules:

- `Wrappers` (`wrappers.dfy`): `Option`. `None` stands for JavaScript's
  `null` and `undefined`.
- `JsString` (`js_string.dfy`): JavaScript's `split` with a one-character
  separator, which keeps empty fields. Also array indexing that yields
  `undefined` past the end, and the lemmas that relate `split` to `join` and to
  the longest separator-free prefix.
- `Authorization` (`authorization.dfy`): the three checks as predicates and
  their conjunction `Authorized`. Then `ValidateToken` as a method over a
  `Response` object (status, JSON body, whether `next` was called), and the
  lemmas about which headers pass. `BearerCredentials` is a reference
  description of the accepted headers that does not use `split`. The lemma
  `AuthorizedIffBearerCredentials` proves it agrees with the code's checks.

The request is reduced to its optional `authorization` header. The
environment variable `TOKEN` is a parameter: `None` means it is unset. The
model never reads the environment.

## Model

| member | source | states |
|---|---|---|
| `Authorization.LooseEquals` | api/utils/authorization.js:41 | JavaScript `==` between values that are each a string or `undefined` holds exactly when both are `undefined` or both are the same string. |
| `Authorization.CheckAuthorizationWasProvided` | api/utils/authorization.js:20-22 | The header is neither `null` nor `undefined`. |
| `Authorization.CheckAuthorizationType` | api/utils/authorization.js:24-32 | False for an absent header. Otherwise it holds exactly when the header's text before its first space (or the whole header, if it has no space) is exactly `Bearer`. |
| `Authorization.CheckAuthorizationToken` | api/utils/authorization.js:34-42 | False for an absent header. Otherwise it holds exactly when the text between the first and second space equals the configured token, or when the header has no space and the token is unset. |
| `Authorization.ValidateToken` | api/utils/authorization.js:1-17 | When all three checks hold, `next` is called and the status and body stay as they were. Otherwise the status is 401, the body is the fixed `{401, "Invalid authorization provided"}` whichever check failed, and `next` is not called. |
| `Authorization.MissingHeaderRejected` | api/utils/authorization.js:20-39 | An absent header fails all three checks, so the request is rejected. |
| `Authorization.PresenceCheckRedundant` | api/utils/authorization.js:20-42 | The type check and the token check each imply the presence check, so the verdict is their conjunction alone. |
| `Authorization.AuthorizedIffBearerCredentials` | api/utils/authorization.js:1-42 | A request passes if and only if it has a header and either (a) the header is exactly `Bearer` and no token is configured, or (b) the header starts with `Bearer ` and the text after it, up to the next space, equals the configured token. |
| `Authorization.SchemePrefixedCase` | api/utils/authorization.js:24-42 | For a header starting with `Bearer `, passing is equivalent to the reference description. |
| `Authorization.OtherSchemeCase` | api/utils/authorization.js:24-32 | A header that contains a space but does not start with `Bearer ` is rejected, and the reference description rejects it too. |
| `Authorization.TrailingFieldsIgnored` | api/utils/authorization.js:34-42 | `Bearer <tok> <anything>` with a space-free `tok` passes exactly when the configured token is `tok`. Fields after the second are never looked at. |
| `Authorization.DoubleSpaceGivesEmptyToken` | api/utils/authorization.js:41 | `Bearer` followed by two spaces has an empty field 1. Such a header passes exactly when the configured token is the empty string. |
| `Authorization.NoSpaceMatchesOnlyUnsetToken` | api/utils/authorization.js:41 | A header without a space has no field 1 (`undefined`). The token check then holds exactly when `TOKEN` is unset, and the request passes exactly when the header is `Bearer` and `TOKEN` is unset. |
| `Authorization.SchemeIsCaseSensitive` | api/utils/authorization.js:31 | A space-free first field other than exactly `Bearer`, followed by a space, rejects the request whatever the token. A header with no space at all is covered by `NoSpaceMatchesOnlyUnsetToken`. |
| `Authorization.OtherCasingsRejected` | api/utils/authorization.js:31 | For every `tok`, `bearer <tok>` and `BEARER <tok>` are rejected even when the configured token is `tok`. |
| `JsString.Split` | api/utils/authorization.js:31 | `split(' ')` yields one field more than there are spaces, and no field contains a space. |
| `JsString.JoinSplit` | api/utils/authorization.js:31 | Joining the fields of a split with the separator gives back the original header. |
| `JsString.SplitJoin` | api/utils/authorization.js:41 | Splitting the join of one or more separator-free fields gives back those fields, so the split loses nothing and invents nothing. |
| `JsString.SplitFirstField` | api/utils/authorization.js:31 | Field 0 is the longest prefix of the header that contains no space. |
| `JsString.SplitWithoutSeparator` | api/utils/authorization.js:41 | A header without a space splits into itself alone. |
| `JsString.SplitSecondField` | api/utils/authorization.js:41 | Field 1 of a split exists exactly when the header contains a space. It is then the text between the first and the second space. |
| `JsString.SplitAfterField` | api/utils/authorization.js:41 | A space-free prefix followed by a space becomes field 0. The fields of the rest follow it. |

## Left out

- `api/routes/tags.js` and `api/api.js`: route handlers that echo their parameters, and server bootstrap. They are HTTP plumbing with no decision logic.
- The tag store and tag service (guild-scoped uniqueness, existence checks, purge): no code in the repository implements them.
- Express machinery: the request is only its `authorization` header. The response is only its status, its JSON body and whether `next` was called. `response.json` also sets headers and ends the response, and those effects are not modelled.
- Node's header parsing: the header is taken as a single string or absent. Repeated `Authorization` headers are Node's concern.
- `process.env.TOKEN` is a parameter, and reading the environment is not modelled.
- The `async` nature of requests and any concurrency between requests.
