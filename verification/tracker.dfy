/** The availability tracker of feez/app.py: the process-wide map
    `rate_limited_services` from provider key to the time it was marked
    rate-limited, with a flat cooldown and lazy deletion of expired records.
    The clock is an explicit parameter `now` (whole seconds). */
module Tracker {

  type Key = string

  /** Provider key -> time it was marked rate-limited. */
  type Limits = map<Key, int>

  /** `RATE_LIMIT_COOLDOWN`, in seconds (the default of both configurations). */
  const Cooldown: int := 60

  /** The provider has a record that has not yet expired at `now`. */
  predicate CoolingDown(m: Limits, k: Key, now: int) {
    k in m && now - m[k] < Cooldown
  }

  /** The answer `is_service_available` gives at `now`. */
  predicate IsAvailable(m: Limits, k: Key, now: int) {
    !CoolingDown(m, k, now)
  }

  /** Both maps say the same about `k`. */
  predicate SameOn(m1: Limits, m2: Limits, k: Key) {
    (k in m1 <==> k in m2) && (k in m1 ==> m1[k] == m2[k])
  }

  /** Answer of an availability check plus the map it leaves behind. */
  datatype Check = Check(available: bool, limits: Limits)

  /** `is_service_available(key)`: false while the record is live; an expired
      record is deleted and the provider reported available. */
  function CheckAvailable(m: Limits, k: Key, now: int): (c: Check)
    ensures c.available <==> IsAvailable(m, k, now)
    ensures c.available ==> k !in c.limits
    ensures !c.available ==> c.limits == m
    ensures forall k' :: k' != k ==> SameOn(m, c.limits, k')
  {
    if k in m then
      if now - m[k] < Cooldown then Check(false, m)
      else Check(true, m - {k})
    else Check(true, m)
  }

  /** `mark_service_rate_limited(key)`: inserts or refreshes the record with
      `now`; every other record is untouched. */
  function MarkRateLimited(m: Limits, k: Key, now: int): (r: Limits)
    ensures k in r && r[k] == now
    ensures r.Keys == m.Keys + {k}
    ensures forall k' :: k' != k ==> SameOn(m, r, k')
  {
    m[k := now]
  }

  /** A key with no record is available and the check leaves the map alone. */
  lemma NoRecordAvailable(m: Limits, k: Key, now: int)
    requires k !in m
    ensures CheckAvailable(m, k, now) == Check(true, m)
  {
  }

  /** Just after being marked at `t` (and before `t + Cooldown`) the provider
      is reported unavailable and nothing is deleted. */
  lemma MarkedIsUnavailable(m: Limits, k: Key, t: int, now: int)
    requires now < t + Cooldown
    ensures CheckAvailable(MarkRateLimited(m, k, t), k, now) == Check(false, MarkRateLimited(m, k, t))
  {
  }

  /** Once the cooldown has elapsed the record is deleted, the provider is
      reported available and every other record is kept. */
  lemma MarkExpires(m: Limits, k: Key, t: int, now: int)
    requires now >= t + Cooldown
    ensures CheckAvailable(MarkRateLimited(m, k, t), k, now) == Check(true, m - {k})
  {
    assert MarkRateLimited(m, k, t) - {k} == m - {k};
  }

  /** Checking is idempotent: a second check gives the same answer and
      changes nothing more. */
  lemma CheckTwice(m: Limits, k: Key, now: int)
    ensures var c := CheckAvailable(m, k, now);
            CheckAvailable(c.limits, k, now) == Check(c.available, c.limits)
  {
  }

  /** Availability only depends on the record of the key asked about. */
  lemma AvailableFrame(m1: Limits, m2: Limits, k: Key, now: int)
    requires SameOn(m1, m2, k)
    ensures IsAvailable(m1, k, now) <==> IsAvailable(m2, k, now)
  {
  }

  /** Once available, a provider stays available as time goes on (for the
      same map). */
  lemma AvailableLater(m: Limits, k: Key, now: int, later: int)
    requires now <= later
    requires IsAvailable(m, k, now)
    ensures IsAvailable(m, k, later)
  {
  }
}
