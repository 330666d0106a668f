/** The bearer token of RFC 6750, generic over its lifetime `L`. Rust's
    `FromResponse` trait bound on `L` is passed explicitly: `FromResponse`
    takes the lifetime's parser, `FromResponseInherit` its inherit parser. */
module TokenBearer {
  import opened Wrappers
  import opened Json
  import opened Response

  /** `Bearer<L>`; the accessors `access_token`, `scope`, `id_token` and
      `lifetime` are the datatype's destructors. */
  datatype Bearer<L> = Bearer(accessToken: string, scope: Option<string>, idToken: Option<string>, lifetime: L)

  /** The two spellings of the token type that are accepted. The comparison is
      exact, so for instance "BEARER" is refused. */
  function IsBearerType(tokenType: string): (b: bool)
    ensures b <==> tokenType in {"Bearer", "bearer"}
    ensures tokenType == "BEARER" ==> !b
  {
    tokenType == "Bearer" || tokenType == "bearer"
  }

  /** What the bearer checks demand of a response object: a string
      `token_type` of an accepted spelling and a string `access_token`.
      `scope` and `id_token` are never the cause of a failure. */
  predicate BearerFieldsValid(obj: Object) {
    HasStr(obj, "token_type") && IsBearerType(obj["token_type"].s) && HasStr(obj, "access_token")
  }

  /** `Bearer::from_response_and_lifetime`: the checks on the response, in
      order, then a token that holds the given lifetime unchanged. */
  function FromResponseAndLifetime<L>(json: Json, lifetime: L): (r: ParseResult<Bearer<L>>)
    ensures !json.JObj? ==> r == Err(ExpectedType("object"))
    ensures json.JObj? && !HasStr(json.fields, "token_type") ==>
              r == Err(ExpectedFieldType("token_type", "string"))
    ensures json.JObj? && HasStr(json.fields, "token_type") && !IsBearerType(json.fields["token_type"].s) ==>
              r == Err(ExpectedFieldValue("token_type", "Bearer"))
    ensures json.JObj? && HasStr(json.fields, "token_type") && IsBearerType(json.fields["token_type"].s)
              && !HasStr(json.fields, "access_token") ==>
              r == Err(ExpectedFieldType("access_token", "string"))
    ensures r.Ok? <==> json.JObj? && BearerFieldsValid(json.fields)
    ensures r.Ok? ==> r.value.accessToken == json.fields["access_token"].s
    ensures r.Ok? ==> (r.value.scope.Some? <==> HasStr(json.fields, "scope"))
    ensures r.Ok? && r.value.scope.Some? ==> r.value.scope.value == json.fields["scope"].s
    ensures r.Ok? ==> (r.value.idToken.Some? <==> HasStr(json.fields, "id_token"))
    ensures r.Ok? && r.value.idToken.Some? ==> r.value.idToken.value == json.fields["id_token"].s
    ensures r.Ok? ==> r.value.lifetime == lifetime
  {
    var obj :- AsObject(json).OkOr(ExpectedType("object"));
    var tokenType :- GetStr(obj, "token_type").OkOr(ExpectedFieldType("token_type", "string"));
    if !IsBearerType(tokenType) then
      Err(ExpectedFieldValue("token_type", "Bearer"))
    else
      var accessToken :- GetStr(obj, "access_token").OkOr(ExpectedFieldType("access_token", "string"));
      var scope := GetStr(obj, "scope");
      var idToken := GetStr(obj, "id_token");
      Ok(Bearer(accessToken, scope, idToken, lifetime))
  }

  /** `FromResponse::from_response`: the lifetime is parsed first, so its
      error takes precedence over every bearer check. */
  function FromResponse<L>(parseLifetime: Json -> ParseResult<L>, json: Json): (r: ParseResult<Bearer<L>>)
    ensures parseLifetime(json).Err? ==> r == Err(parseLifetime(json).error)
    ensures r.Ok? <==> parseLifetime(json).Ok? && json.JObj? && BearerFieldsValid(json.fields)
    ensures r.Ok? ==> r.value.lifetime == parseLifetime(json).value
    ensures r.Ok? ==> FromResponseAndLifetime(json, r.value.lifetime) == r
    ensures parseLifetime(json).Ok? && r.Err? ==> FromResponseAndLifetime(json, parseLifetime(json).value) == r
  {
    var lifetime :- parseLifetime(json);
    FromResponseAndLifetime(json, lifetime)
  }

  /** `FromResponse::from_response_inherit`: the previous token contributes
      only its lifetime, handed to the lifetime's inherit parser; everything
      else happens as in `FromResponse`. */
  function FromResponseInherit<L>(parseInherit: (Json, L) -> ParseResult<L>, json: Json, prev: Bearer<L>)
    : (r: ParseResult<Bearer<L>>)
    ensures parseInherit(json, prev.lifetime).Err? ==> r == Err(parseInherit(json, prev.lifetime).error)
    ensures r.Ok? <==> parseInherit(json, prev.lifetime).Ok? && json.JObj? && BearerFieldsValid(json.fields)
    ensures r.Ok? ==> r.value.lifetime == parseInherit(json, prev.lifetime).value
    ensures r.Ok? ==> FromResponseAndLifetime(json, r.value.lifetime) == r
    ensures r == FromResponse(j => parseInherit(j, prev.lifetime), json)
  {
    var lifetime :- parseInherit(json, prev.lifetime);
    FromResponseAndLifetime(json, lifetime)
  }

  /** Two previous tokens with the same lifetime give the same result on
      refresh: the previous access token, scope and id token are never read. */
  lemma InheritReadsOnlyPreviousLifetime<L>(
    parseInherit: (Json, L) -> ParseResult<L>, json: Json, prev: Bearer<L>, other: Bearer<L>)
    requires prev.lifetime == other.lifetime
    ensures FromResponseInherit(parseInherit, json, prev) == FromResponseInherit(parseInherit, json, other)
  {
  }
}
