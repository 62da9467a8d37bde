/** TokenValidationService of the OAuth2 extension: the two calls that follow
    the authorization callback.

    exchangeCodeForToken builds the Access Token Request of section 4.1.3 of
    RFC 6749 (client credentials in the body, section 2.3.1), POSTs it, and
    reads access_token from a 200 response (section 5.1). getUserInfoFromToken
    sends the token as a Bearer credential (section 2.1 of RFC 6750) to the
    userinfo endpoint and reads the configured username and groups claims.

    Each HTTP exchange is a parameter: a function from what is sent (the form
    body, the Authorization header) to the response, whose body is the parsed
    JSON tree, or None when it is not JSON. */
module TokenValidation {
  import opened Results
  import opened Json
  import opened FormEncoding

  /** The configuration values the two calls use. */
  datatype Config = Config(
    redirectUri: string,
    clientId: string,
    clientSecret: string,
    usernameClaim: string,
    groupsClaim: string)

  datatype HttpResponse = HttpResponse(status: int, body: Option<Json>)

  /** OAuth2UserInfo: the username and the set of group names. */
  datatype UserInfo = UserInfo(username: string, groups: set<string>)

  datatype TokenError =
    | TokenHttpStatus(code: int)      // "Failed to exchange authorization code. HTTP <code>"
    | MalformedTokenResponse          // the body read (200 response or error stream) is not JSON
    | MissingAccessToken              // "Access token not found in the response."

  datatype UserInfoError =
    | UserInfoHttpStatus(code: int)   // "Failed to retrieve user info. HTTP <code>"
    | MalformedUserInfo               // the 200 body is not JSON
    | MissingClaim(claim: string)     // "Username claim '<claim>' not found in user info response."

  const HttpOk := 200

  /** HttpURLConnection has an error stream only for statuses of 400 and above. */
  const ErrorStreamStatus := 400
  const AccessTokenField := "access_token"

  // ---------------------------------------------------------------------
  // exchangeCodeForToken
  // ---------------------------------------------------------------------

  /** The form body of the token request: five pairs in a fixed order, the
      key names fixed, every value but the grant type URL-encoded. */
  function TokenRequestBody(code: string, cfg: Config): (body: string)
  {
    "grant_type=authorization_code"
      + "&code=" + UrlEncode(code)
      + "&redirect_uri=" + UrlEncode(cfg.redirectUri)
      + "&client_id=" + UrlEncode(cfg.clientId)
      + "&client_secret=" + UrlEncode(cfg.clientSecret)
  }

  /** What the token endpoint is meant to read from the body. */
  function TokenRequestFields(code: string, cfg: Config): (fields: seq<(string, string)>)
  {
    [ ("grant_type", "authorization_code"),
      ("code", code),
      ("redirect_uri", cfg.redirectUri),
      ("client_id", cfg.clientId),
      ("client_secret", cfg.clientSecret) ]
  }

  /** The body written with any four values, regrouped as five pairs joined by '&'. */
  lemma BodyRegrouped(p0: string, e1: string, e2: string, e3: string, e4: string)
    ensures p0 + "&code=" + e1 + "&redirect_uri=" + e2
            + "&client_id=" + e3 + "&client_secret=" + e4
         == p0 + ['&'] +
            (("code=" + e1) + ['&'] +
             (("redirect_uri=" + e2) + ['&'] +
              (("client_id=" + e3) + ['&'] + ("client_secret=" + e4))))
  {
  }

  /** Five parts free of '&', joined by '&', split back into those parts. */
  lemma SplitFive(p0: string, p1: string, p2: string, p3: string, p4: string)
    requires '&' !in p0 && '&' !in p1 && '&' !in p2 && '&' !in p3 && '&' !in p4
    ensures SplitOn(p0 + ['&'] + (p1 + ['&'] + (p2 + ['&'] + (p3 + ['&'] + p4))), '&')
         == [p0, p1, p2, p3, p4]
  {
    var ps := [p0, p1, p2, p3, p4];
    assert ps[4..] == [p4] && ps[3..][1..] == ps[4..] && ps[2..][1..] == ps[3..]
        && ps[1..][1..] == ps[2..];
    var j3 := p3 + ['&'] + p4;
    assert JoinOn(ps[3..], '&') == j3;
    var j2 := p2 + ['&'] + j3;
    assert JoinOn(ps[2..], '&') == j2;
    var j1 := p1 + ['&'] + j2;
    assert JoinOn(ps[1..], '&') == j1;
    assert JoinOn(ps, '&') == p0 + ['&'] + j1;
    SplitJoin(ps, '&');
  }

  /** Five pairs that each parse, parse together to their five fields. */
  lemma ParseFive(p0: string, p1: string, p2: string, p3: string, p4: string,
                  f0: (string, string), f1: (string, string), f2: (string, string),
                  f3: (string, string), f4: (string, string))
    requires ParsePair(p0) == Some(f0) && ParsePair(p1) == Some(f1) && ParsePair(p2) == Some(f2)
    requires ParsePair(p3) == Some(f3) && ParsePair(p4) == Some(f4)
    ensures ParsePairs([p0, p1, p2, p3, p4]) == Some([f0, f1, f2, f3, f4])
  {
    ParsePairsEach([p0, p1, p2, p3, p4], [f0, f1, f2, f3, f4]);
  }

  /** Whatever the first pair, if it and the four values hold no '&', the
      body splits into its five pairs. */
  lemma BodySplits(p0: string, e1: string, e2: string, e3: string, e4: string)
    requires '&' !in p0 && '&' !in e1 && '&' !in e2 && '&' !in e3 && '&' !in e4
    ensures SplitOn(p0 + "&code=" + e1 + "&redirect_uri=" + e2
                    + "&client_id=" + e3 + "&client_secret=" + e4, '&')
         == [p0, "code=" + e1, "redirect_uri=" + e2, "client_id=" + e3, "client_secret=" + e4]
  {
    BodyRegrouped(p0, e1, e2, e3, e4);
    SplitFive(p0, "code=" + e1, "redirect_uri=" + e2, "client_id=" + e3, "client_secret=" + e4);
  }

  /** Splitting the body on '&' yields exactly the five "key=encoded value"
      pairs, whatever characters the code and the credentials hold. */
  lemma TokenRequestBodyPairs(code: string, cfg: Config)
    ensures SplitOn(TokenRequestBody(code, cfg), '&')
         == [ "grant_type=authorization_code",
              "code=" + UrlEncode(code),
              "redirect_uri=" + UrlEncode(cfg.redirectUri),
              "client_id=" + UrlEncode(cfg.clientId),
              "client_secret=" + UrlEncode(cfg.clientSecret) ]
  {
    UrlEncodeNoSeparators(code);
    UrlEncodeNoSeparators(cfg.redirectUri);
    UrlEncodeNoSeparators(cfg.clientId);
    UrlEncodeNoSeparators(cfg.clientSecret);
    BodySplits("grant_type=authorization_code", UrlEncode(code), UrlEncode(cfg.redirectUri),
               UrlEncode(cfg.clientId), UrlEncode(cfg.clientSecret));
  }

  /** A body of the token request's shape whose five pairs each parse
      parses to those five fields. */
  lemma FiveFieldsParse(p0: string, e1: string, e2: string, e3: string, e4: string,
                        f0: (string, string), f1: (string, string), f2: (string, string),
                        f3: (string, string), f4: (string, string))
    requires '&' !in p0 && '&' !in e1 && '&' !in e2 && '&' !in e3 && '&' !in e4
    requires ParsePair(p0) == Some(f0) && ParsePair("code=" + e1) == Some(f1)
    requires ParsePair("redirect_uri=" + e2) == Some(f2) && ParsePair("client_id=" + e3) == Some(f3)
    requires ParsePair("client_secret=" + e4) == Some(f4)
    ensures ParseForm(p0 + "&code=" + e1 + "&redirect_uri=" + e2 + "&client_id=" + e3
                      + "&client_secret=" + e4)
         == Some([f0, f1, f2, f3, f4])
  {
    BodySplits(p0, e1, e2, e3, e4);
    ParseFive(p0, "code=" + e1, "redirect_uri=" + e2, "client_id=" + e3, "client_secret=" + e4,
              f0, f1, f2, f3, f4);
  }

  /** The first pair, the fixed grant type, parses as written. */
  lemma GrantTypePairParses()
    ensures '&' !in "grant_type=authorization_code"
    ensures ParsePair("grant_type=authorization_code") == Some(("grant_type", "authorization_code"))
  {
    assert '&' !in "grant_type=authorization_code";
    PlainPairParses("grant_type=authorization_code", "grant_type", "authorization_code");
  }

  /** The body's shape with its first pair left open: any first pair that
      parses and holds no '&' is followed by the four encoded fields. */
  lemma FieldsRoundTrip(p0: string, f0: (string, string), code: string, cfg: Config)
    requires '&' !in p0 && ParsePair(p0) == Some(f0)
    ensures ParseForm(p0 + "&code=" + UrlEncode(code)
                      + "&redirect_uri=" + UrlEncode(cfg.redirectUri)
                      + "&client_id=" + UrlEncode(cfg.clientId)
                      + "&client_secret=" + UrlEncode(cfg.clientSecret))
         == Some([f0, ("code", code), ("redirect_uri", cfg.redirectUri),
                  ("client_id", cfg.clientId), ("client_secret", cfg.clientSecret)])
  {
    UrlEncodeNoSeparators(code);
    UrlEncodeNoSeparators(cfg.redirectUri);
    UrlEncodeNoSeparators(cfg.clientId);
    UrlEncodeNoSeparators(cfg.clientSecret);
    FieldRoundTrip("code=", "code", code);
    FieldRoundTrip("redirect_uri=", "redirect_uri", cfg.redirectUri);
    FieldRoundTrip("client_id=", "client_id", cfg.clientId);
    FieldRoundTrip("client_secret=", "client_secret", cfg.clientSecret);
    FiveFieldsParse(p0, UrlEncode(code), UrlEncode(cfg.redirectUri), UrlEncode(cfg.clientId),
                    UrlEncode(cfg.clientSecret), f0, ("code", code), ("redirect_uri", cfg.redirectUri),
                    ("client_id", cfg.clientId), ("client_secret", cfg.clientSecret));
  }

  /** The token endpoint, decoding the body, reads back exactly the grant
      type, the authorization code, the redirect URI, the client ID and the
      client secret, in that order. */
  lemma TokenRequestBodyRoundTrip(code: string, cfg: Config)
    ensures ParseForm(TokenRequestBody(code, cfg)) == Some(TokenRequestFields(code, cfg))
  {
    GrantTypePairParses();
    FieldsRoundTrip("grant_type=authorization_code", ("grant_type", "authorization_code"), code, cfg);
  }

  /** One pair of the body, written with its "key=" prefix, parses back. */
  lemma FieldRoundTrip(prefix: string, key: string, value: string)
    requires prefix == key + "="
    requires forall c :: c in key ==> IsUnreserved(c)
    ensures ParsePair(prefix + UrlEncode(value)) == Some((key, value))
  {
    PairRoundTrip(key, value);
  }

  /** A token response whose error stream holds a body that is not JSON.
      Before reporting a failed status, exchangeCodeForToken parses the error
      stream for its log, and that parse throws first. */
  predicate ErrorBodyUnparsable(response: HttpResponse)
  {
    response.status >= ErrorStreamStatus && response.body.None?
  }

  /** The interpretation of the token endpoint's response. Only an exact 200
      is read for a token, and then the access_token field must be present; a
      field that is JSON null is present, and its text is "null". Any other
      status fails with that status, unless its error body is unparsable,
      in which case the parse failure surfaces instead. */
  function TokenFromResponse(response: HttpResponse): (r: Result<string, TokenError>)
    ensures response.status != HttpOk && !ErrorBodyUnparsable(response)
            ==> r == Failure(TokenHttpStatus(response.status))
    ensures r == Failure(MalformedTokenResponse)
            <==> response.body.None? && (response.status == HttpOk || response.status >= ErrorStreamStatus)
    ensures r.Success? <==> response.status == HttpOk && response.body.Some?
                            && Has(response.body.value, AccessTokenField)
    ensures r.Success? ==> r.value == AsText(response.body.value.fields[AccessTokenField])
    ensures response.status == HttpOk && response.body.Some? && r.Failure? ==> r.error == MissingAccessToken
  {
    if response.status != HttpOk then
      if ErrorBodyUnparsable(response) then Failure(MalformedTokenResponse)
      else Failure(TokenHttpStatus(response.status))
    else if response.body.None? then Failure(MalformedTokenResponse)
    else
      var json := response.body.value;
      if Has(json, AccessTokenField) then Success(AsText(Get(json, AccessTokenField).value))
      else Failure(MissingAccessToken)
  }

  /** exchangeCodeForToken: one POST of the form body to the token endpoint;
      the result is read from the response to that body and to nothing else. */
  function ExchangeCodeForToken(code: string, cfg: Config, post: string -> HttpResponse): (r: Result<string, TokenError>)
    ensures var response := post(TokenRequestBody(code, cfg));
            && (response.status != HttpOk && !ErrorBodyUnparsable(response)
                ==> r == Failure(TokenHttpStatus(response.status)))
            && (r == Failure(MalformedTokenResponse)
                <==> response.body.None? && (response.status == HttpOk || response.status >= ErrorStreamStatus))
            && (r.Success? <==> response.status == HttpOk && response.body.Some?
                                && Has(response.body.value, AccessTokenField))
            && (r.Success? ==> r.value == AsText(response.body.value.fields[AccessTokenField]))
            && (response.status == HttpOk && response.body.Some? && r.Failure? ==> r.error == MissingAccessToken)
  {
    TokenFromResponse(post(TokenRequestBody(code, cfg)))
  }

  /** The evidently intended interpretation: the error stream is read for the
      log only, so every status other than 200 fails with that status,
      whatever the body. */
  function TokenFromResponseIntended(response: HttpResponse): (r: Result<string, TokenError>)
    ensures response.status != HttpOk ==> r == Failure(TokenHttpStatus(response.status))
    ensures r.Success? <==> response.status == HttpOk && response.body.Some?
                            && Has(response.body.value, AccessTokenField)
    ensures r.Success? ==> r.value == AsText(response.body.value.fields[AccessTokenField])
  {
    if response.status != HttpOk then Failure(TokenHttpStatus(response.status))
    else TokenFromResponse(response)
  }

  /** The two readings differ exactly on responses whose error body is unparsable. */
  lemma IntendedDiffersOnlyOnErrorPages(response: HttpResponse)
    ensures TokenFromResponseIntended(response) != TokenFromResponse(response)
            <==> ErrorBodyUnparsable(response)
  {
  }

  /** An HTML error page with status 400 does not yield the status failure:
      the caller sees the parse failure instead. */
  lemma ErrorPageMasksStatus()
    ensures TokenFromResponse(HttpResponse(400, None)) == Failure(MalformedTokenResponse)
    ensures TokenFromResponseIntended(HttpResponse(400, None)) == Failure(TokenHttpStatus(400))
  {
  }

  /** The token response depends on nothing but the status and the
      access_token field: other fields (token_type, expires_in, ...) are ignored. */
  lemma TokenOnlyReadsAccessToken(status: int, a: Json, b: Json)
    requires Get(a, AccessTokenField) == Get(b, AccessTokenField)
    ensures TokenFromResponse(HttpResponse(status, Some(a))) == TokenFromResponse(HttpResponse(status, Some(b)))
  {
  }

  /** A 200 response with {"access_token":"abc123"} yields "abc123"; a 400
      response with a JSON error body yields the status failure, one with a
      non-JSON error body the parse failure; a 302, which has no error
      stream, yields the status failure whatever its body. */
  lemma TokenExamples(errorJson: Json, body: Option<Json>)
    ensures TokenFromResponse(HttpResponse(200, Some(JObj(map[AccessTokenField := JStr("abc123")]))))
         == Success("abc123")
    ensures TokenFromResponse(HttpResponse(400, Some(errorJson))) == Failure(TokenHttpStatus(400))
    ensures TokenFromResponse(HttpResponse(400, None)) == Failure(MalformedTokenResponse)
    ensures TokenFromResponse(HttpResponse(302, body)) == Failure(TokenHttpStatus(302))
  {
  }

  /** A JSON-null access_token is accepted as the text "null", where a
      JSON-null username claim is refused. */
  lemma NullTokenAccepted(other: map<string, Json>)
    ensures var json := JObj(other[AccessTokenField := JNull]);
            TokenFromResponse(HttpResponse(HttpOk, Some(json))) == Success("null")
  {
  }

  // ---------------------------------------------------------------------
  // getUserInfoFromToken
  // ---------------------------------------------------------------------

  /** The Authorization header value of the userinfo request. */
  function AuthorizationHeader(accessToken: string): (header: string)
  {
    "Bearer " + accessToken
  }

  /** What a resource server reads from an Authorization header: the
      credentials after the "Bearer " scheme. */
  function BearerCredentials(header: string): (credentials: Option<string>)
  {
    if |header| >= 7 && header[..7] == "Bearer " then Some(header[7..]) else None
  }

  /** The Authorization header carries exactly the access token. */
  lemma BearerRoundTrip(accessToken: string)
    ensures BearerCredentials(AuthorizationHeader(accessToken)) == Some(accessToken)
  {
    var h := AuthorizationHeader(accessToken);
    assert h[..7] == "Bearer ";
    assert h[7..] == accessToken;
  }

  /** The asText values of the elements of a groups array, as a set. */
  function GroupSet(elems: seq<Json>): (groups: set<string>)
  {
    set e | e in elems :: AsText(e)
  }

  /** The groups read from the groups claim's node: the element texts of an
      array; nothing for an absent node, null, or any other non-array value. */
  function GroupsOf(node: Option<Json>): (groups: set<string>)
  {
    if node.Some? && IsArray(node.value) then GroupSet(node.value.elems) else {}
  }

  /** The username claim is present and not JSON null. */
  predicate HasUsername(json: Json, usernameClaim: string)
  {
    Get(json, usernameClaim).Some? && !IsNull(Get(json, usernameClaim).value)
  }

  /** The interpretation of the userinfo endpoint's response. Only an exact
      200 is read; the username claim must be present and not null, and its
      asText is the username (which may be empty); the groups claim never
      causes a failure. */
  function UserInfoFromResponse(response: HttpResponse, usernameClaim: string, groupsClaim: string)
    : (r: Result<UserInfo, UserInfoError>)
    ensures response.status != HttpOk ==> r == Failure(UserInfoHttpStatus(response.status))
    ensures r.Success? <==> response.status == HttpOk && response.body.Some?
                            && HasUsername(response.body.value, usernameClaim)
    ensures r.Success? ==> r.value.username == AsText(response.body.value.fields[usernameClaim])
    ensures r.Success? ==> r.value.groups == GroupsOf(Get(response.body.value, groupsClaim))
    ensures response.status == HttpOk && response.body.None? ==> r == Failure(MalformedUserInfo)
    ensures response.status == HttpOk && response.body.Some? && r.Failure?
            ==> r.error == MissingClaim(usernameClaim)
  {
    if response.status != HttpOk then Failure(UserInfoHttpStatus(response.status))
    else if response.body.None? then Failure(MalformedUserInfo)
    else
      var json := response.body.value;
      var usernameNode := Get(json, usernameClaim);
      if usernameNode.None? || IsNull(usernameNode.value) then Failure(MissingClaim(usernameClaim))
      else Success(UserInfo(AsText(usernameNode.value), GroupsOf(Get(json, groupsClaim))))
  }

  lemma GroupSetAppend(elems: seq<Json>, e: Json)
    ensures GroupSet(elems + [e]) == GroupSet(elems) + {AsText(e)}
  {
    var all := elems + [e];
    forall g | g in GroupSet(all) ensures g in GroupSet(elems) + {AsText(e)} {
      var x :| x in all && AsText(x) == g;
      if x != e {
        assert x in elems;
      }
    }
  }

  /** getUserInfoFromToken: one GET with the token as Bearer credential; the
      groups are collected into a set element by element, as the source's
      HashSet loop does. */
  method GetUserInfoFromToken(accessToken: string, cfg: Config, fetch: string -> HttpResponse)
    returns (r: Result<UserInfo, UserInfoError>)
    ensures r == UserInfoFromResponse(fetch(AuthorizationHeader(accessToken)), cfg.usernameClaim, cfg.groupsClaim)
  {
    var response := fetch(AuthorizationHeader(accessToken));
    if response.status != HttpOk {
      return Failure(UserInfoHttpStatus(response.status));
    }
    if response.body.None? {
      return Failure(MalformedUserInfo);
    }
    var json := response.body.value;

    var usernameNode := Get(json, cfg.usernameClaim);
    if usernameNode.None? || IsNull(usernameNode.value) {
      return Failure(MissingClaim(cfg.usernameClaim));
    }
    var username := AsText(usernameNode.value);

    var groups: set<string> := {};
    var groupsNode := Get(json, cfg.groupsClaim);
    if groupsNode.Some? && IsArray(groupsNode.value) {
      var elems := groupsNode.value.elems;
      for i := 0 to |elems|
        invariant groups == GroupSet(elems[..i])
      {
        GroupSetAppend(elems[..i], elems[i]);
        assert elems[..i + 1] == elems[..i] + [elems[i]];
        groups := groups + {AsText(elems[i])};
      }
      assert elems[..|elems|] == elems;
    }
    return Success(UserInfo(username, groups));
  }

  /** Duplicates collapse: there are never more groups than array elements. */
  lemma {:induction false} GroupSetBound(elems: seq<Json>)
    ensures |GroupSet(elems)| <= |elems|
  {
    if elems != [] {
      var init := elems[..|elems| - 1];
      var last := elems[|elems| - 1];
      assert elems == init + [last];
      GroupSetAppend(init, last);
      GroupSetBound(init);
    }
  }

  /** Neither the order of the array's elements nor their repetition matters:
      two arrays with the same elements give the same groups. */
  lemma GroupSetOrderFree(a: seq<Json>, b: seq<Json>)
    requires forall e :: e in a <==> e in b
    ensures GroupSet(a) == GroupSet(b)
  {
  }

  /** The groups claim name never changes whether the call succeeds or which
      username it yields; only the group set follows it. */
  lemma GroupsClaimIndependent(response: HttpResponse, usernameClaim: string, g1: string, g2: string)
    ensures var r1 := UserInfoFromResponse(response, usernameClaim, g1);
            var r2 := UserInfoFromResponse(response, usernameClaim, g2);
            r1.Success? == r2.Success? && (r1.Success? ==> r1.value.username == r2.value.username)
  {
  }

  /** The userinfo result depends on nothing but the status and the two
      configured claims: other claims in the response are ignored. */
  lemma UserInfoOnlyReadsClaims(status: int, a: Json, b: Json, usernameClaim: string, groupsClaim: string)
    requires Get(a, usernameClaim) == Get(b, usernameClaim)
    requires Get(a, groupsClaim) == Get(b, groupsClaim)
    ensures UserInfoFromResponse(HttpResponse(status, Some(a)), usernameClaim, groupsClaim)
         == UserInfoFromResponse(HttpResponse(status, Some(b)), usernameClaim, groupsClaim)
  {
  }

  /** {"preferred_username":"alice","groups":["g1","g2"]} with those claim names
      yields alice in g1 and g2; without the groups claim, alice in no group;
      without the username claim, a MissingClaim failure. */
  lemma UserInfoExamples()
    ensures UserInfoFromResponse(
              HttpResponse(200, Some(JObj(map["preferred_username" := JStr("alice"),
                                              "groups" := JArr([JStr("g1"), JStr("g2")])]))),
              "preferred_username", "groups")
         == Success(UserInfo("alice", {"g1", "g2"}))
    ensures UserInfoFromResponse(
              HttpResponse(200, Some(JObj(map["preferred_username" := JStr("alice")]))),
              "preferred_username", "groups")
         == Success(UserInfo("alice", {}))
    ensures UserInfoFromResponse(
              HttpResponse(200, Some(JObj(map["groups" := JArr([JStr("g1")])]))),
              "preferred_username", "groups")
         == Failure(MissingClaim("preferred_username"))
  {
    var elems := [JStr("g1"), JStr("g2")];
    assert GroupSet(elems) == {"g1", "g2"} by {
      assert elems == [JStr("g1")] + [JStr("g2")];
      GroupSetAppend([JStr("g1")], JStr("g2"));
      GroupSetAppend([], JStr("g1"));
      assert [] + [JStr("g1")] == [JStr("g1")];
    }
  }

  /** The username is not required to be a non-empty string: an empty
      string, or an array, gives the username "". */
  lemma UsernameNotValidated(groupsClaim: string)
    ensures UserInfoFromResponse(HttpResponse(200, Some(JObj(map["sub" := JStr("")]))), "sub", groupsClaim)
         == Success(UserInfo("", {}))
    ensures UserInfoFromResponse(HttpResponse(200, Some(JObj(map["sub" := JArr([])]))), "sub", groupsClaim)
         == Success(UserInfo("", {}))
  {
    assert GroupSet([]) == {};
  }
}
