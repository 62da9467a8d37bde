# OAuth2 token validation, modelled in Dafny

This project models `TokenValidationService` of the Apache Guacamole OAuth2
authentication extension. It covers the two calls made after the identity
provider redirects back with an authorization code:

- **exchangeCodeForToken** builds the Access Token Request body of RFC 6749,
  section 4.1.3. The body is `grant_type=authorization_code` plus the code,
  the redirect URI, the client ID and the client secret, each value
  URL-encoded as `java.net.URLEncoder` does with UTF-8. The call POSTs the
  body and reads `access_token` from a 200 response.
- **getUserInfoFromToken** sends the token as a Bearer credential
  (RFC 6750, section 2.1) to the userinfo endpoint. It reads the configured
  username claim, which must be present and not JSON null. It reads the
  configured groups claim as a set of element texts when that claim is an
  array.

Layout:

- `results.dfy` (module `Results`): `Option` and `Result`. They stand in for
  Java's null returns and thrown exceptions.
- `json.dfy` (module `Json`): the parsed JSON tree, with Jackson's
  `get`, `has`, `isNull`, `isArray` and `asText` semantics.
- `form_encoding.dfy` (module `FormEncoding`): `URLEncoder.encode` over
  UTF-8. It also holds a strict reference decoder for
  `application/x-www-form-urlencoded` bodies (HTML 4.01, section 17.13.4.1),
  which is the inverse the encoder is proved against.
- `token_validation.dfy` (module `TokenValidation`): the request body, the
  Authorization header, the interpretation of both responses, and
  `getUserInfoFromToken`'s group loop as an imperative method.

Each HTTP exchange is a function parameter. It maps what is sent (the form
body, or the Authorization header value) to an `HttpResponse`. A response
holds the status and the parsed body; the body is `None` when it is not JSON.

## Model

| member | source | states |
|---|---|---|
| TokenValidation.TokenRequestBodyRoundTrip | src/main/java/org/apache/guacamole/auth/oauth2/token/TokenValidationService.java:136-140 | A form decoder reading the token request body gets back exactly five fields, in order: grant_type=authorization_code, then the code, redirect URI, client ID and client secret unchanged. This holds whatever characters the values contain. |
| TokenValidation.TokenRequestBodyPairs | src/main/java/org/apache/guacamole/auth/oauth2/token/TokenValidationService.java:136-140 | Splitting the body on '&' gives exactly five "key=encoded value" pairs. No value can inject an extra pair. |
| TokenValidation.TokenFromResponse | src/main/java/org/apache/guacamole/auth/oauth2/token/TokenValidationService.java:146-167 | A status other than 200 fails with that status, except that a status of 400 or more whose error body is not JSON fails with the parse failure: the error stream is parsed before the status error is raised. The parse failure occurs exactly when the body is not JSON and the status is 200 or at least 400. Success happens exactly when the status is 200, the body is JSON and it has access_token; the token is then that field's asText. A 200 JSON body without the field fails with the missing-token error. |
| TokenValidation.ExchangeCodeForToken | src/main/java/org/apache/guacamole/auth/oauth2/token/TokenValidationService.java:122-167 | The result is decided by the response to the POST of the token request body alone. The status failure, the parse failure, success with the access_token text, and the missing-token failure are stated of that response, as for the response interpretation. |
| TokenValidation.TokenOnlyReadsAccessToken | src/main/java/org/apache/guacamole/auth/oauth2/token/TokenValidationService.java:163-164 | Two responses with the same status and the same access_token field give the same result; other fields are ignored. |
| TokenValidation.TokenExamples | src/main/java/org/apache/guacamole/auth/oauth2/token/TokenValidationService.java:146-164 | {"access_token":"abc123"} with 200 yields "abc123". A 400 with a JSON error body yields the status failure, and a 400 with a non-JSON body the parse failure. A 302, which has no error stream, yields the status failure whatever its body. |
| TokenValidation.ErrorPageMasksStatus | src/main/java/org/apache/guacamole/auth/oauth2/token/TokenValidationService.java:147-155 | A 400 response with a non-JSON error page yields the parse failure, where the evidently intended reading yields the status failure for 400. |
| TokenValidation.TokenFromResponseIntended | src/main/java/org/apache/guacamole/auth/oauth2/token/TokenValidationService.java:146-156 | The evidently intended reading: every status other than 200 fails with that status, whatever the body. Success conditions and the token are as in the as-written reading. |
| TokenValidation.IntendedDiffersOnlyOnErrorPages | src/main/java/org/apache/guacamole/auth/oauth2/token/TokenValidationService.java:147-155 | The as-written and intended readings differ exactly on responses with status 400 or more whose body is not JSON. |
| TokenValidation.NullTokenAccepted | src/main/java/org/apache/guacamole/auth/oauth2/token/TokenValidationService.java:163-164 | A JSON-null access_token counts as present, and the token is the text "null". |
| TokenValidation.BearerRoundTrip | src/main/java/org/apache/guacamole/auth/oauth2/token/TokenValidationService.java:73 | Reading the Bearer credentials from the Authorization header gives back exactly the access token. |
| TokenValidation.UserInfoFromResponse | src/main/java/org/apache/guacamole/auth/oauth2/token/TokenValidationService.java:76-108 | Any status other than 200 fails with that status. Success happens exactly when the status is 200, the body is JSON and the username claim is present and not null. The username is the claim's asText. The groups are the element texts of the groups claim when it is an array, and empty otherwise. A 200 body that is not JSON fails with the parse failure. A 200 JSON body without a usable username fails naming the claim. |
| TokenValidation.GetUserInfoFromToken | src/main/java/org/apache/guacamole/auth/oauth2/token/TokenValidationService.java:63-108 | The method sends the Bearer header and collects the groups element by element in a loop. Its result equals the response interpretation applied to the response to that header. |
| TokenValidation.GroupSetAppend | src/main/java/org/apache/guacamole/auth/oauth2/token/TokenValidationService.java:103-105 | Adding one more array element adds exactly its asText to the group set. |
| TokenValidation.GroupSetBound | src/main/java/org/apache/guacamole/auth/oauth2/token/TokenValidationService.java:99-106 | There are never more groups than array elements; duplicates collapse. |
| TokenValidation.GroupSetOrderFree | src/main/java/org/apache/guacamole/auth/oauth2/token/TokenValidationService.java:99-106 | Two arrays with the same elements, in any order and repetition, give the same groups. |
| TokenValidation.GroupsClaimIndependent | src/main/java/org/apache/guacamole/auth/oauth2/token/TokenValidationService.java:98-106 | The groups claim name never decides success and never changes the username. |
| TokenValidation.UserInfoOnlyReadsClaims | src/main/java/org/apache/guacamole/auth/oauth2/token/TokenValidationService.java:90-101 | Two responses that agree on the status and on the two configured claims give the same result. |
| TokenValidation.UserInfoExamples | src/main/java/org/apache/guacamole/auth/oauth2/token/TokenValidationService.java:89-108 | alice with ["g1","g2"] yields alice in {g1, g2}. Without a groups claim the result is alice with no groups. Without the username claim the call fails naming it. |
| TokenValidation.UsernameNotValidated | src/main/java/org/apache/guacamole/auth/oauth2/token/TokenValidationService.java:92-96 | An empty-string or array username claim is accepted, and the username is "". |
| Json.GetNonObjectAbsent | src/main/java/org/apache/guacamole/auth/oauth2/token/TokenValidationService.java:91 | A field lookup by name on a JSON value that is not an object finds nothing, and has is false. |
| Json.NatToDecimal | src/main/java/org/apache/guacamole/auth/oauth2/token/TokenValidationService.java:96 | The text of a natural number is non-empty, all decimal digits, and has no leading zero. |
| Json.DecimalRoundTrip | src/main/java/org/apache/guacamole/auth/oauth2/token/TokenValidationService.java:96 | Reading the decimal text of a natural number back gives the number. |
| Json.AsTextNumber | src/main/java/org/apache/guacamole/auth/oauth2/token/TokenValidationService.java:96 | asText of a number is its decimal form: a reader recovers the number, and a leading '-' appears exactly for negatives. |
| FormEncoding.FormRoundTrip | src/main/java/org/apache/guacamole/auth/oauth2/token/TokenValidationService.java:137-140 | Form-decoding a URL-encoded value gives the value back, for every string. |
| FormEncoding.PercentDecodeEncode | src/main/java/org/apache/guacamole/auth/oauth2/token/TokenValidationService.java:137-140 | Percent-decoding an encoded value gives exactly the UTF-8 bytes of the value. |
| FormEncoding.Utf8RoundTrip | src/main/java/org/apache/guacamole/auth/oauth2/token/TokenValidationService.java:137-140 | Strict UTF-8 decoding of the UTF-8 encoding of a string gives the string back. |
| FormEncoding.UrlEncodeSafe | src/main/java/org/apache/guacamole/auth/oauth2/token/TokenValidationService.java:137-140 | Every character of an encoded value is unreserved, '+' or '%'. |
| FormEncoding.UrlEncodeNoSeparators | src/main/java/org/apache/guacamole/auth/oauth2/token/TokenValidationService.java:137-140 | An encoded value never contains '&', '=' or a space. |
| FormEncoding.UrlEncodeUnreserved | src/main/java/org/apache/guacamole/auth/oauth2/token/TokenValidationService.java:137-140 | A value made only of unreserved characters (a-z, A-Z, 0-9, '.', '-', '*', '_') is sent unchanged. |
| FormEncoding.PairRoundTrip | src/main/java/org/apache/guacamole/auth/oauth2/token/TokenValidationService.java:137 | A pair "key=" + encoded value, with an unreserved key, parses back to that key and value. |
| FormEncoding.SplitJoin | src/main/java/org/apache/guacamole/auth/oauth2/token/TokenValidationService.java:136-140 | Parts that hold no '&', joined with '&', split back into the same parts. |

## Left out

- TokenValidation.GetUserInfoFromToken: the check `HttpURLConnection` makes on header values when line 73 sets the Authorization header is not modelled. The JDK refuses a value holding a line feed not followed by a space or tab, so an access token such as "abc\ndef" makes line 73 throw `IllegalArgumentException` before any request is sent. That failure is none of the `UserInfoError` cases. The model passes the header to the fetch parameter and may return success. The check lives in the JDK, outside the modelled source.
- The HTTP connection itself is left out: opening it, the method, the Accept and Content-Type headers, the 10-second timeouts (lines 51, 70-71 and 129-130) and the disconnect. Each exchange is a function parameter instead.
- Jackson's `readTree` is not modelled; the body arrives already parsed, or `None`. A body that is not JSON becomes the `MalformedTokenResponse` / `MalformedUserInfo` errors, where the source throws Jackson's parse exception. An empty body, which Jackson reads as a missing node, is not distinguished from an empty object; both fail for the missing field or claim.
- On a non-200 token response, the source parses the error stream and logs it (lines 148-154). The log is left out, as is all logging. The parse is modelled for its effect on the result: the error stream exists only for statuses of 400 and above, and a non-JSON error body there makes the parse failure surface instead of the status error. An empty error body parses without an exception, so it still yields the status error; the model gives an empty body as an empty object.
- `ConfigurationService` and the endpoint URIs are left out. The values the calls use are fields of `Config`.
- Only integral JSON numbers are modelled. Floating-point numbers and their `asText` form are left out.
- Java strings are UTF-16 and may hold unpaired surrogates, which `URLEncoder` writes as `%3F`. Dafny characters are Unicode scalar values, so that case is left out.
- `FormEncoding.FormDecode` is a strict reference decoder written to state the round trip. It is not `java.net.URLDecoder`, whose leniencies are left out.
- Nothing at lines 92-96 rejects an empty username: any present, non-null claim is accepted and its `asText` may be "". The model promises no non-empty username (`TokenValidation.UsernameNotValidated`).
- The state-token manager, the authorization redirect builder and the callback validation of the extension are not part of this model.

## Findings

| source | as written | input that shows it | evidently intended | confidence | as-written member | corrected member |
|---|---|---|---|---|---|---|
| src/main/java/org/apache/guacamole/auth/oauth2/token/TokenValidationService.java:147-155 | For a status of 400 or more, the error stream is parsed as JSON before the status error is raised. A parse exception therefore leaves the method first. | The token endpoint answers 400 with an HTML error page: the caller gets Jackson's parse exception, not "Failed to exchange authorization code. HTTP 400". | The error body is read for diagnostics only, and every non-200 status yields the HTTP status error. | medium, not executed | TokenValidation.ErrorPageMasksStatus | TokenValidation.TokenFromResponseIntended |
