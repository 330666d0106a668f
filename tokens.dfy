/** The `Static` lifetime, whose definition is not part of this model. The
    bearer tests parse `Bearer<Static>` from objects that carry no lifetime
    fields at all. Its parser is assumed here to accept every response; that
    assumption stands in for the definition. */
module TokenStatic {
  import opened Wrappers
  import opened Json
  import opened Response

  datatype Static = Static

  function FromResponse(json: Json): (r: ParseResult<Static>)
    ensures r.Ok?
  {
    Ok(Static)
  }
}

/** The bearer token instantiated with each lifetime, as the client uses it. */
module Tokens {
  import opened Wrappers
  import opened Json
  import opened Response
  import opened TokenStatic
  import opened TokenExpiring
  import opened TokenRefresh
  import opened TokenBearer

  /** `Bearer::<Static>::from_response`: only the bearer checks can fail. */
  function BearerStaticFromResponse(json: Json): (r: ParseResult<Bearer<Static>>)
    ensures r == FromResponseAndLifetime(json, Static)
  {
    TokenBearer.FromResponse(TokenStatic.FromResponse, json)
  }

  /** `Bearer::<Expiring>::from_response`. A `refresh_token` key makes it fail
      whatever the bearer fields hold. */
  function BearerExpiringFromResponse(json: Json, now: int): (r: ParseResult<Bearer<Expiring>>)
    ensures !json.JObj? ==> r == Err(ExpectedType("object"))
    ensures json.JObj? && "refresh_token" in json.fields ==> r == Err(UnexpectedField("refresh_token"))
    ensures json.JObj? && "refresh_token" !in json.fields && !HasI64(json.fields, "expires_in") ==>
              r == Err(ExpectedFieldType("expires_in", "i64"))
    ensures r.Ok? <==> json.JObj? && "refresh_token" !in json.fields && HasI64(json.fields, "expires_in")
                       && BearerFieldsValid(json.fields)
    ensures r.Ok? ==> r.value.lifetime == TokenExpiring.FromResponse(json, now).value
    ensures r.Ok? ==> !TokenExpiring.Expired(r.value.lifetime, now)
  {
    TokenBearer.FromResponse(j => TokenExpiring.FromResponse(j, now), json)
  }

  /** `Bearer::<Refresh>::from_response`. */
  function BearerRefreshFromResponse(json: Json, now: int): (r: ParseResult<Bearer<Refresh>>)
    ensures !json.JObj? ==> r == Err(ExpectedType("object"))
    ensures json.JObj? && !HasStr(json.fields, "refresh_token") ==>
              r == Err(ExpectedFieldType("refresh_token", "string"))
    ensures json.JObj? && HasStr(json.fields, "refresh_token") && !HasI64(json.fields, "expires_in") ==>
              r == Err(ExpectedFieldType("expires_in", "i64"))
    ensures r.Ok? <==> json.JObj? && HasStr(json.fields, "refresh_token") && HasI64(json.fields, "expires_in")
                       && BearerFieldsValid(json.fields)
    ensures r.Ok? ==> r.value.lifetime.refreshToken == json.fields["refresh_token"].s
    ensures r.Ok? ==> r.value.lifetime == TokenRefresh.FromResponse(json, now).value
  {
    TokenBearer.FromResponse(j => TokenRefresh.FromResponse(j, now), json)
  }

  /** `Bearer::<Refresh>::from_response_inherit`, the parse after a refresh
      request. */
  function BearerRefreshFromResponseInherit(json: Json, prev: Bearer<Refresh>, now: int)
    : (r: ParseResult<Bearer<Refresh>>)
    ensures !json.JObj? ==> r == Err(ExpectedType("object"))
    ensures json.JObj? && !HasI64(json.fields, "expires_in") ==>
              r == Err(ExpectedFieldType("expires_in", "i64"))
    ensures r.Ok? <==> json.JObj? && HasI64(json.fields, "expires_in") && BearerFieldsValid(json.fields)
    ensures r.Ok? ==> r.value.accessToken == json.fields["access_token"].s
    ensures r.Ok? ==> (r.value.scope.Some? <==> HasStr(json.fields, "scope"))
    ensures r.Ok? && r.value.scope.Some? ==> r.value.scope.value == json.fields["scope"].s
    ensures r.Ok? ==> (r.value.idToken.Some? <==> HasStr(json.fields, "id_token"))
    ensures r.Ok? && r.value.idToken.Some? ==> r.value.idToken.value == json.fields["id_token"].s
    ensures r.Ok? ==> r.value.lifetime == TokenRefresh.FromResponseInherit(json, prev.lifetime, now).value
    ensures r.Ok? ==>
              r.value.lifetime.refreshToken ==
                if HasStr(json.fields, "refresh_token") then json.fields["refresh_token"].s
                else prev.lifetime.refreshToken
    ensures json.JObj? && HasStr(json.fields, "refresh_token") ==> r == BearerRefreshFromResponse(json, now)
  {
    TokenBearer.FromResponseInherit((j, l) => TokenRefresh.FromResponseInherit(j, l, now), json, prev)
  }

  /** The responses a `Bearer<Refresh>` can come from: every token whose
      expiry lies between `now` and `now` plus the largest i64, and no other,
      is the parse at `now` of some response. */
  lemma {:induction false} BearerRefreshImage(t: Bearer<Refresh>, now: int)
    ensures (exists json :: BearerRefreshFromResponse(json, now) == Ok(t)) <==>
            now <= t.lifetime.expires <= now + I64_MAX
  {
    if now <= t.lifetime.expires <= now + I64_MAX {
      var base := map[
        "token_type" := JStr("Bearer"),
        "access_token" := JStr(t.accessToken),
        "refresh_token" := JStr(t.lifetime.refreshToken),
        "expires_in" := JInt(t.lifetime.expires - now)];
      var withScope := if t.scope.Some? then base["scope" := JStr(t.scope.value)] else base - {"scope"};
      var fields := if t.idToken.Some? then withScope["id_token" := JStr(t.idToken.value)]
                    else withScope - {"id_token"};
      var json := JObj(fields);
      assert BearerRefreshFromResponse(json, now) == Ok(t);
    }
  }

  /** The bearer module's tests of a refreshable token: the id token is kept,
      the scope is absent and the expiry falls within the hour. */
  lemma RefreshWithIdToken(now: int)
    ensures var r := BearerRefreshFromResponse(JObj(map[
                "token_type" := JStr("Bearer"), "access_token" := JStr("aaaaaaaa"),
                "expires_in" := JInt(3600), "refresh_token" := JStr("bbbbbbbb"),
                "id_token" := JStr("zzzzzzzzz")]), now);
            r.Ok? && r.value.accessToken == "aaaaaaaa" && r.value.scope == None
            && r.value.idToken == Some("zzzzzzzzz") && r.value.lifetime.refreshToken == "bbbbbbbb"
            && now < r.value.lifetime.expires <= now + 3600
  {
  }

  /** A refresh response that omits `refresh_token` keeps the previous one and
      takes everything else from the new response. */
  lemma RefreshKeepsPreviousRefreshToken(now: int, later: int)
    ensures var first := BearerRefreshFromResponse(JObj(map[
                "token_type" := JStr("Bearer"), "access_token" := JStr("aaaaaaaa"),
                "expires_in" := JInt(3600), "refresh_token" := JStr("bbbbbbbb")]), now);
            var next := BearerRefreshFromResponseInherit(JObj(map[
                "token_type" := JStr("Bearer"), "access_token" := JStr("cccccccc"),
                "expires_in" := JInt(3600)]), first.value, later);
            first.Ok? && next.Ok? && next.value.accessToken == "cccccccc" && next.value.scope == None
            && next.value.lifetime.refreshToken == "bbbbbbbb"
            && later < next.value.lifetime.expires <= later + 3600
  {
  }

  /** The lifetime is checked before the token type: a `Bearer<Expiring>`
      response with a refresh token and a "MAC" token type fails on the
      refresh token. */
  lemma LifetimeErrorFirst(now: int)
    ensures BearerExpiringFromResponse(JObj(map[
              "token_type" := JStr("MAC"), "access_token" := JStr("aaaaaaaa"),
              "refresh_token" := JStr("bbbbbbbb"), "expires_in" := JInt(3600)]), now)
            == Err(UnexpectedField("refresh_token"))
  {
  }

  /** The bearer module's tests with a static lifetime: "MAC" and "BEARER"
      are refused, "Bearer" and "bearer" accepted, and `scope` is kept. */
  lemma StaticTokenTypes()
    ensures BearerStaticFromResponse(JObj(map["token_type" := JStr("MAC"), "access_token" := JStr("aaaaaaaa")]))
            == Err(ExpectedFieldValue("token_type", "Bearer"))
    ensures BearerStaticFromResponse(JObj(map["token_type" := JStr("BEARER"), "access_token" := JStr("aaaaaaaa")]))
            == Err(ExpectedFieldValue("token_type", "Bearer"))
    ensures BearerStaticFromResponse(JObj(map["token_type" := JStr("Bearer"), "access_token" := JStr("aaaaaaaa")]))
            == Ok(Bearer("aaaaaaaa", None, None, Static))
    ensures BearerStaticFromResponse(JObj(map["token_type" := JStr("bearer"), "access_token" := JStr("aaaaaaaa")]))
            == Ok(Bearer("aaaaaaaa", None, None, Static))
    ensures BearerStaticFromResponse(JObj(map[
              "token_type" := JStr("Bearer"), "access_token" := JStr("aaaaaaaa"), "scope" := JStr("foo")]))
            == Ok(Bearer("aaaaaaaa", Some("foo"), None, Static))
  {
  }
}
