/** The `Refresh` lifetime: an access token that expires and comes with a
    refresh token to obtain the next one (section 6 of RFC 6749). */
module TokenRefresh {
  import opened Wrappers
  import opened Json
  import opened Response
  import opened Clock

  /** The refresh token and the instant (in seconds) at which the access token
      stops being valid. */
  datatype Refresh = Refresh(refreshToken: string, expires: int)

  /** `Lifetime::expired`: strictly past the expiry instant. */
  function Expired(r: Refresh, now: int): (b: bool)
    ensures !b <==> now <= r.expires
    ensures r.expires == now ==> !b
  {
    r.expires < now
  }

  /** `FromResponse::from_response`: an object with a string `refresh_token`
      and an i64 `expires_in`, checked in that order. */
  function FromResponse(json: Json, now: int): (r: ParseResult<Refresh>)
    ensures !json.JObj? ==> r == Err(ExpectedType("object"))
    ensures json.JObj? && !HasStr(json.fields, "refresh_token") ==>
              r == Err(ExpectedFieldType("refresh_token", "string"))
    ensures json.JObj? && HasStr(json.fields, "refresh_token") && !HasI64(json.fields, "expires_in") ==>
              r == Err(ExpectedFieldType("expires_in", "i64"))
    ensures r.Ok? <==>
              json.JObj? && HasStr(json.fields, "refresh_token") && HasI64(json.fields, "expires_in")
    ensures r.Ok? ==> r.value.refreshToken == json.fields["refresh_token"].s
    ensures r.Ok? ==> var e := json.fields["expires_in"].i;
              r.value.expires == if e < 0 then now else now + e
    ensures r.Ok? ==> !Expired(r.value, now)
  {
    var obj :- AsObject(json).OkOr(ExpectedType("object"));
    var refreshToken :- GetStr(obj, "refresh_token").OkOr(ExpectedFieldType("refresh_token", "string"));
    var expiresIn :- GetI64(obj, "expires_in").OkOr(ExpectedFieldType("expires_in", "i64"));
    Ok(Refresh(refreshToken, ExpiresAt(now, expiresIn)))
  }

  /** `FromResponse::from_response_inherit`, used on refresh: a `refresh_token`
      that is missing, or is not a string, is taken from the previous lifetime,
      so only the object check and the `expires_in` check can fail. */
  function FromResponseInherit(json: Json, prev: Refresh, now: int): (r: ParseResult<Refresh>)
    ensures !json.JObj? ==> r == Err(ExpectedType("object"))
    ensures json.JObj? && !HasI64(json.fields, "expires_in") ==>
              r == Err(ExpectedFieldType("expires_in", "i64"))
    ensures r.Ok? <==> json.JObj? && HasI64(json.fields, "expires_in")
    ensures r.Ok? ==>
              r.value.refreshToken ==
                if HasStr(json.fields, "refresh_token") then json.fields["refresh_token"].s
                else prev.refreshToken
    ensures r.Ok? ==> var e := json.fields["expires_in"].i;
              r.value.expires == if e < 0 then now else now + e
    ensures json.JObj? && HasStr(json.fields, "refresh_token") ==> r == FromResponse(json, now)
  {
    var obj :- AsObject(json).OkOr(ExpectedType("object"));
    // `.or(Some(&prev.refresh_token)).ok_or(..)?` always yields a value, so
    // the error it names is never returned.
    var refreshToken := GetStr(obj, "refresh_token").UnwrapOr(prev.refreshToken);
    var expiresIn :- GetI64(obj, "expires_in").OkOr(ExpectedFieldType("expires_in", "i64"));
    Ok(Refresh(refreshToken, ExpiresAt(now, expiresIn)))
  }

  /** The inherit path reads only the refresh token of the previous lifetime,
      never its expiry. */
  lemma InheritIgnoresPreviousExpiry(json: Json, prev: Refresh, other: Refresh, now: int)
    requires prev.refreshToken == other.refreshToken
    ensures FromResponseInherit(json, prev, now) == FromResponseInherit(json, other, now)
  {
  }

  /** A freshly parsed lifetime becomes expired exactly when the clock is
      strictly past `now` plus `expires_in` seconds (zero for a negative
      `expires_in`). */
  lemma ExpiredAfterExpiresIn(json: Json, now: int, later: int)
    requires FromResponse(json, now).Ok?
    ensures Expired(FromResponse(json, now).value, later) <==> later > ExpiresAt(now, json.fields["expires_in"].i)
  {
  }

  /** The lifetimes `from_response` can produce at `now` are exactly those
      expiring between `now` and `now` plus the largest i64. */
  lemma {:induction false} ResponseImage(t: Refresh, now: int)
    ensures (exists json :: FromResponse(json, now) == Ok(t)) <==> now <= t.expires <= now + I64_MAX
  {
    if now <= t.expires <= now + I64_MAX {
      var json := JObj(map["refresh_token" := JStr(t.refreshToken), "expires_in" := JInt(t.expires - now)]);
      assert FromResponse(json, now) == Ok(t);
    }
  }

  /** The module's own tests: a response with a refresh token and an hour's
      lifetime, parsed directly and inherited from a previous lifetime. */
  lemma OneHourResponses(now: int)
    ensures var r := FromResponse(JObj(map["refresh_token" := JStr("aaaaaaaa"), "expires_in" := JInt(3600)]), now);
            r.Ok? && r.value.refreshToken == "aaaaaaaa" && now < r.value.expires <= now + 3600
    ensures var r := FromResponseInherit(JObj(map["expires_in" := JInt(3600)]), Refresh("aaaaaaaa", now), now);
            r.Ok? && r.value.refreshToken == "aaaaaaaa" && now < r.value.expires <= now + 3600
  {
  }
}
