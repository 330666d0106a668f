/** Expiry arithmetic shared by the expiring lifetimes. Time is a whole number
    of seconds, and the current time is a parameter wherever the source reads
    `SystemTime::now()`. */
module Clock {
  import opened Wrappers
  import opened Json

  /** `i64::try_into::<u64>()`: fails on a negative value. */
  function TryIntoU64(i: I64): (r: Option<nat>)
    ensures r.Some? <==> i >= 0
    ensures r.Some? ==> r.value == i
  {
    if 0 <= i <= U64_MAX then Some(i) else None
  }

  /** `now + Duration::from_secs(expires_in.try_into().unwrap_or(0))`: a
      negative lifetime counts as zero seconds; a large one is not clamped. */
  function ExpiresAt(now: int, expiresIn: I64): (t: int)
    ensures now <= t <= now + I64_MAX
    ensures expiresIn >= 0 ==> t == now + expiresIn
    ensures expiresIn < 0 ==> t == now
    ensures expiresIn > 0 ==> now < t <= now + expiresIn
  {
    now + TryIntoU64(expiresIn).UnwrapOr(0)
  }
}
