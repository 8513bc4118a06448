# Authentication centre: login and token check

A model of the authentication centre's two operations. `login` finds a user record by phone number, compares the stored password, mints a token and stores it on the record. `checkToken` splits a token `uuid_id`, looks the record up, accepts or rejects the token, and may slide its timestamp forward. Both talk to an external device registry and answer through `peerCallback` with one envelope `{retCode, description, data}`.

Everything the code gets from outside is an input of the model:
- the schema validation outcome (`None` or the error object);
- the registry's reply to the lookup, and its reply to the update;
- the clock reading `now` and the minted id;
- `errorInfo`, the code-to-description table behind `logger.getErrorInfo`.

Each operation then produces a `Trace`. It holds the registry requests issued, in order (`getDevice`/`0003` or `deviceUpdate`/`0004` with their parameters). It holds the envelopes passed to `peerCallback`. It also records whether the handler throws. The model gives each operation twice:
- `LoginSpec` and `CheckTokenSpec` are functions, and their contracts state the protocol;
- `Login` and `CheckToken` are methods that overwrite a local `responseMessage` field by field and append to a request log, in the source's order, and are proved equal to the functions.

Modules:
- `Messages`: records, requests, replies, envelopes and the trace.
- `Tokens`: `split("_")` and the token format.
- `AuthenticationCenter`: constants, decision predicates and the two operations.
- `Lifecycle`: properties that relate several calls.

Constants as in the source: `TimeOut` = 2592000000 ms (30 days) and `UpdateLimit` = 1728000000 ms. The source computes the latter as `TIME_OUT*(2/3)` in double arithmetic, which rounds to exactly that integer. `UserTypeId` = `060A08000000`. The fixed codes are 205001 (invalid credentials) and 207010 (invalid or expired token). The token helpers `Compose` (the string built at line 109) and `UuidPart` (`array[0]` at line 154) are plain definitions, as are the decision predicates `PasswordMatches` (line 86), `Expired` (line 178), `DueForRefresh` (line 182) and `Accepts` (lines 176-178) are plain definitions. The contracts below use them.

## Model

| member | source | states |
|---|---|---|
| Tokens.Split | lib/authentication-center/me-authentication-center.js:153 | `split("_")`: at least one piece; exactly one piece iff the string has no separator; no piece contains the separator |
| Tokens.JoinSplit | lib/authentication-center/me-authentication-center.js:153 | joining the pieces of a split with the separator gives back the original string |
| Tokens.SplitJoin | lib/authentication-center/me-authentication-center.js:153 | splitting separator-free pieces joined with the separator gives back the pieces |
| Tokens.IdPart | lib/authentication-center/me-authentication-center.js:155 | `array[1]` is undefined exactly when the token contains no separator |
| Tokens.SplitNoSeparator | lib/authentication-center/me-authentication-center.js:153-155 | a string without separator splits into itself alone |
| Tokens.SplitPrefix | lib/authentication-center/me-authentication-center.js:153 | a separator-free prefix followed by the separator comes off as the first piece |
| Tokens.ComposeParts | lib/authentication-center/me-authentication-center.js:153-155 | if neither contains the separator, the token `uuid + "_" + id` that login builds at line 109 splits back into `uuid` and `id` |
| Tokens.TrailingSegmentsIgnored | lib/authentication-center/me-authentication-center.js:153-155 | with two or more separators, elements 0 and 1 are the first two pieces; the rest is dropped without any check |
| Messages.Failed | lib/authentication-center/me-authentication-center.js:78-82 | a failed registry reply becomes an envelope with its code and description and `data` = `{}` |
| AuthenticationCenter.LoginSpec | lib/authentication-center/me-authentication-center.js:56-123 | `peerCallback` runs exactly once unless the handler throws. A validation error is returned as is, with no request. The lookup by type id and phone number comes first. A failed lookup passes through with `{}` and no update. The handler throws exactly on an empty successful lookup. A missing `extra` or a different password gives 205001 with `{}` and no update. An update is issued iff the password matches, and it stores `{token: id, timestamp: now}` on the record's uuid. A successful update gives 200 with `uuid_id`. A failed update gives its code and description and no token. No token is ever returned without a successful update |
| AuthenticationCenter.CheckTokenSpec | lib/authentication-center/me-authentication-center.js:143-207 | `peerCallback` runs exactly once unless the handler throws. A validation error is returned as is, with no request. The lookup by the first `"_"`-part is always sent. A failed lookup passes through with `{}` and no update. The handler throws exactly when a successful lookup yields no record or one without `extra`. No marker, a stored token different from the second part (compared with `!==`, under which two undefined values are equal) or `timestamp + TIME_OUT < now` gives 207010 with no update. An accepted token gives 200. An update setting the timestamp to `now` on the record's uuid is issued iff the token is accepted and `timestamp + UPDATE_LIMIT > now` |
| AuthenticationCenter.Login | lib/authentication-center/me-authentication-center.js:56-123 | the step-by-step login, with the envelope overwritten field by field, produces exactly the trace `LoginSpec` describes |
| AuthenticationCenter.CheckToken | lib/authentication-center/me-authentication-center.js:143-207 | the step-by-step check produces exactly the trace `CheckTokenSpec` describes. That trace does not depend on the refresh update's reply: the envelope is sent at line 202, and a failed refresh changes `responseMessage` only afterwards (lines 194-200) |
| Lifecycle.LoginTokenAccepted | lib/authentication-center/me-authentication-center.js:87-193 | once the update is stored, a token from a successful login is accepted from issue up to and including 30 days later, and the lookup goes to the record's uuid. The refresh update is sent iff the check comes less than `UpdateLimit` after issue, so a check in the very millisecond of issue writes to the registry |
| Lifecycle.AgingTokenNotRefreshed | lib/authentication-center/me-authentication-center.js:176-202 | a matching token more than `UpdateLimit` but at most `TimeOut` old is accepted with exactly one request and no update |
| Lifecycle.ExpiryBoundary | lib/authentication-center/me-authentication-center.js:176-180 | a matching marker is accepted exactly at `timestamp + TIME_OUT` and rejected with 207010 one millisecond later |
| Lifecycle.TokenWithoutSeparator | lib/authentication-center/me-authentication-center.js:153-180 | a token without `"_"` is looked up as a whole uuid; unless the record holds a marker without a `token`, it never gets code 200 or an update |
| Lifecycle.TokenlessMarkerAcceptsBareToken | lib/authentication-center/me-authentication-center.js:176-177 | against a stored marker without a `token`, a token without `"_"` is accepted until the marker expires, because `undefined !== undefined` is false |
| Lifecycle.TrailingSegmentsDoNotMatter | lib/authentication-center/me-authentication-center.js:153-155 | `uuid_id_rest` is checked exactly like `uuid_id` |

## Code versus intent

The model follows the code where it departs from the evident intent of the service:
- Refresh direction: the comment at line 14 says the refresh limit exists to avoid updating the timestamp too often, so a token is meant to be refreshed only once it is older than two thirds of its life. The test at line 182 is `timestamp + UPDATE_LIMIT > now`. That refreshes tokens in their first two thirds instead, including a token checked right after login, and never refreshes one in its last third. `DueForRefresh`, `LoginTokenAccepted` and `AgingTokenNotRefreshed` keep and exhibit this direction.
- Malformed tokens: nothing checks that a token has the form `uuid_id` before the registry is asked. The code looks up element 0 whatever the token, and element 1 may be undefined (`TokenWithoutSeparator`, `TrailingSegmentsDoNotMatter`).
- Empty lookups: an unknown user gets no answer at all, rather than the 205001 a wrong password gets. `response.data[0]` is undefined and reading through it throws at lines 85-86 and 174-176, and so does a record without `extra` at line 176. The trace marks these as `crashed`, with no envelope.

## Left out

- Logging (`logger.warn`, `logger.info`, `logger.error`) is not modelled. `logger.getErrorInfo` is the input function `errorInfo`.
- `configurator.getConfRandom`, the choice of registry endpoint (the `devices` member of each request), is load balancing and is not part of a request here.
- `messageValidate` and the JSON schemas at lines 16-32: validation is code that is not part of this model, so its outcome is an input.
- `self.message` transport and callback scheduling: each registry reply is an input value. The model assumes, as the sequential callbacks do, that a reply arrives after the request is sent. For the refresh in checkToken it assumes the reply arrives after line 202 has run.
- `peerCallback` is taken to use the envelope at the moment it is called. In the source the `responseMessage` object stays shared: a consumer that kept the reference would see the overwrite at lines 197-198 after a failed refresh. The model's envelopes are values, so `CheckToken`'s independence from the refresh reply rests on this assumption.
- `nodeUuid.v4()` and `Date.now()` are inputs. login and checkToken each read the clock once.
- Concurrent requests and "last write wins" at the registry are outside the model. It describes one request at a time and does not model the registry's stored state.
- `util.inherits` and the `VirtualDevice` constructor are object plumbing.
- JavaScript numbers: timestamps are unbounded integers. Realistic millisecond clocks stay far below 2^53, where double addition is exact.
- Stored values of the wrong JavaScript type are not modelled. The stored password and token are strings or absent (an absent token is modelled, see `TokenlessMarkerAcceptsBareToken`), and the stored timestamp is always an integer. In the source a missing or object timestamp, or a non-numeric string, gives NaN, and NaN never expires; `null` counts as 0 and `true` as 1; a numeric string is concatenated with `TIME_OUT` and then compared as a number. None of these is captured.
- A `retCode` sent as the string `"200"` would compare unequal to 200 under `!==`. Codes are integers in the model.
