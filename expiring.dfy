/** The `Expiring` lifetime: an access token that expires and cannot be
    refreshed. */
module TokenExpiring {
  import opened Wrappers
  import opened Json
  import opened Response
  import opened Clock

  /** Only the expiry instant (in seconds): there is no place for a refresh
      token. */
  datatype Expiring = Expiring(expires: int)

  /** `Lifetime::expired`: strictly past the expiry instant. */
  function Expired(e: Expiring, now: int): (b: bool)
    ensures !b <==> now <= e.expires
    ensures e.expires == now ==> !b
  {
    e.expires < now
  }

  /** `FromResponse::from_response`: an object with no `refresh_token` key at
      all (whatever its value) and an i64 `expires_in`, checked in that
      order. */
  function FromResponse(json: Json, now: int): (r: ParseResult<Expiring>)
    ensures !json.JObj? ==> r == Err(ExpectedType("object"))
    ensures json.JObj? && "refresh_token" in json.fields ==> r == Err(UnexpectedField("refresh_token"))
    ensures json.JObj? && "refresh_token" !in json.fields && !HasI64(json.fields, "expires_in") ==>
              r == Err(ExpectedFieldType("expires_in", "i64"))
    ensures r.Ok? <==> json.JObj? && "refresh_token" !in json.fields && HasI64(json.fields, "expires_in")
    ensures r.Ok? ==> var e := json.fields["expires_in"].i;
              r.value.expires == if e < 0 then now else now + e
    ensures r.Ok? ==> !Expired(r.value, now)
  {
    var obj :- AsObject(json).OkOr(ExpectedType("object"));
    if "refresh_token" in obj then
      Err(UnexpectedField("refresh_token"))
    else
      var expiresIn :- GetI64(obj, "expires_in").OkOr(ExpectedFieldType("expires_in", "i64"));
      Ok(Expiring(ExpiresAt(now, expiresIn)))
  }

  /** A freshly parsed lifetime becomes expired exactly when the clock is
      strictly past `now` plus `expires_in` seconds (zero for a negative
      `expires_in`). */
  lemma ExpiredAfterExpiresIn(json: Json, now: int, later: int)
    requires FromResponse(json, now).Ok?
    ensures Expired(FromResponse(json, now).value, later) <==> later > ExpiresAt(now, json.fields["expires_in"].i)
  {
  }

  /** The lifetimes `from_response` can produce at `now` are exactly those
      expiring between `now` and `now` plus the largest i64. */
  lemma {:induction false} ResponseImage(t: Expiring, now: int)
    ensures (exists json :: FromResponse(json, now) == Ok(t)) <==> now <= t.expires <= now + I64_MAX
  {
    if now <= t.expires <= now + I64_MAX {
      var json := JObj(map["expires_in" := JInt(t.expires - now)]);
      assert FromResponse(json, now) == Ok(t);
    }
  }

  /** The module's own test: an hour's lifetime expires within the hour. */
  lemma OneHourResponse(now: int)
    ensures var r := FromResponse(JObj(map["expires_in" := JInt(3600)]), now);
            r.Ok? && now < r.value.expires <= now + 3600
  {
  }
}
