/** The access-token denylist: a key-value store in which every key carries
    a time to live. A key is visible until its expiry instant has passed. */
module JwtDenylist {

  /** Seconds the entry for a token expiring at `exp` should live. */
  function TimeToExpire(exp: int, now: int): int { exp - now }

  /** Whether the store still holds `jti` at time `now`; `entries` maps each
      key to the instant at which the store drops it. */
  predicate Live(entries: map<string, int>, jti: string, now: int)
  {
    jti in entries && now <= entries[jti]
  }

  /** The store after SETEX jti ttl when ttl is positive, and unchanged otherwise. */
  function Added(entries: map<string, int>, jti: string, exp: int, now: int): (m: map<string, int>)
    ensures TimeToExpire(exp, now) <= 0 ==> m == entries
    ensures TimeToExpire(exp, now) > 0 ==> jti in m && m[jti] == now + TimeToExpire(exp, now)
    ensures m.Keys <= entries.Keys + {jti}
    ensures forall k :: k in entries && k != jti ==> k in m && m[k] == entries[k]
  {
    var ttl := TimeToExpire(exp, now);
    if ttl > 0 then entries[jti := now + ttl] else entries
  }

  class Denylist {
    var entries: map<string, int>

    constructor ()
      ensures entries == map[]
    {
      entries := map[];
    }

    method AddJtiToDenylist(jti: string, exp: int, now: int)
      modifies this
      ensures entries == Added(old(entries), jti, exp, now)
      ensures TimeToExpire(exp, now) > 0 ==> IsJtiDenylisted(jti, now)
    {
      var timeToExpire := TimeToExpire(exp, now);
      if timeToExpire > 0 {
        entries := entries[jti := now + timeToExpire];
      }
    }

    /** GET jti: the store still holds the key, its expiry not yet passed. */
    function IsJtiDenylisted(jti: string, now: int): (b: bool)
      reads this
      ensures b <==> jti in entries && now <= entries[jti]
    {
      Live(entries, jti, now)
    }
  }

  /** With a positive time to live, the added key is visible from the moment
      of the write up to exp and not after; with none, nothing is added. */
  lemma DenylistedUntilExpiry(entries: map<string, int>, jti: string, exp: int, now: int, t: int)
    requires now <= t
    ensures TimeToExpire(exp, now) > 0 ==> (Live(Added(entries, jti, exp, now), jti, t) <==> t <= exp)
    ensures TimeToExpire(exp, now) <= 0 ==> Live(Added(entries, jti, exp, now), jti, t) == Live(entries, jti, t)
  {
  }

  /** Adding one key does not change whether any other key is denylisted. */
  lemma AddLeavesOtherKeys(entries: map<string, int>, jti: string, exp: int, now: int, other: string, t: int)
    requires other != jti
    ensures Live(Added(entries, jti, exp, now), other, t) == Live(entries, other, t)
  {
  }
}
