/**
  `CacheManager` in `api/config/performance_config.py`: a key/value cache whose
  entries expire a number of seconds after they are stored. The lock that
  serialises the methods is left out; every operation is a function from
  the cache before to the cache after.

  `datetime.now()` becomes a parameter `now`, an instant counted in
  microseconds (the resolution of `datetime`), so an entry stored at `now`
  with a time-to-live of `ttl` seconds expires at
  `now + ttl * MicrosPerSecond`.
 */
module TtlCache {
  import opened Wrappers

  const MicrosPerSecond := 1_000_000

  /** The constructor's default time-to-live: one hour. */
  const DefaultTtl := 3600

  datatype Item<V> = Item(value: V, expiresAt: int)

  datatype Cache<V> = Cache(defaultTtl: int, entries: map<string, Item<V>>)

  function Empty<V>(defaultTtl: int): (c: Cache<V>)
    ensures c.defaultTtl == defaultTtl && |c.entries| == 0
  {
    Cache(defaultTtl, map[])
  }

  /** An item is expired only once `now` is strictly past its expiry
      instant; at the instant itself it is still served. */
  predicate Expired<V>(item: Item<V>, now: int) {
    now > item.expiresAt
  }

  /** A key whose entry is present and not expired. */
  predicate Live<V>(c: Cache<V>, key: string, now: int) {
    key in c.entries && !Expired(c.entries[key], now)
  }

  /** `get`: the stored value of a live key, `None` otherwise; an expired
      entry found on the way is deleted. */
  function Get<V>(c: Cache<V>, key: string, now: int): (r: (Option<V>, Cache<V>))
    ensures r.0.Some? <==> Live(c, key, now)
    ensures r.0.Some? ==> r.0.value == c.entries[key].value
    ensures r.1.defaultTtl == c.defaultTtl
    ensures r.1.entries.Keys == if key in c.entries && !Live(c, key, now) then c.entries.Keys - {key} else c.entries.Keys
    ensures forall k :: k in r.1.entries ==> r.1.entries[k] == c.entries[k]
  {
    if key !in c.entries then (None, c)
    else if Expired(c.entries[key], now) then (None, c.(entries := c.entries - {key}))
    else (Some(c.entries[key].value), c)
  }

  /** The time-to-live `set` uses: `ttl or self.default_ttl`, so both a
      missing ttl and a ttl of zero fall back to the default. */
  function EffectiveTtl<V>(c: Cache<V>, ttl: Option<int>): (r: int)
    ensures ttl.Some? && ttl.value != 0 ==> r == ttl.value
    ensures ttl.None? || ttl.value == 0 ==> r == c.defaultTtl
  {
    if ttl.Some? && ttl.value != 0 then ttl.value else c.defaultTtl
  }

  /** `set`: stores the value with its expiry instant, replacing any earlier
      entry for the key. */
  function Set<V>(c: Cache<V>, key: string, value: V, ttl: Option<int>, now: int): (r: Cache<V>)
    ensures r.defaultTtl == c.defaultTtl
    ensures r.entries.Keys == c.entries.Keys + {key}
    ensures r.entries[key] == Item(value, now + EffectiveTtl(c, ttl) * MicrosPerSecond)
    ensures forall k :: k in c.entries && k != key ==> r.entries[k] == c.entries[k]
  {
    c.(entries := c.entries[key := Item(value, now + EffectiveTtl(c, ttl) * MicrosPerSecond)])
  }

  /** `clear`: with a truthy key, drops that key (absent is fine); with
      `None` or the empty string, drops everything. */
  function Clear<V>(c: Cache<V>, key: Option<string>): (r: Cache<V>)
    ensures r.defaultTtl == c.defaultTtl
    ensures key.None? || key.value == "" ==> |r.entries| == 0
    ensures key.Some? && key.value != "" ==>
              r.entries.Keys == c.entries.Keys - {key.value}
              && forall k :: k in r.entries ==> r.entries[k] == c.entries[k]
  {
    if key.Some? && key.value != "" then c.(entries := c.entries - {key.value})
    else c.(entries := map[])
  }

  /** `cleanup_expired`: drops every expired entry. */
  function CleanupExpired<V>(c: Cache<V>, now: int): (r: Cache<V>)
    ensures r.defaultTtl == c.defaultTtl
  {
    c.(entries := map k | k in c.entries && !Expired(c.entries[k], now) :: c.entries[k])
  }

  /** Cleanup keeps exactly the live entries, unchanged. */
  lemma CleanupKeepsExactlyLive<V>(c: Cache<V>, now: int)
    ensures forall k :: k in CleanupExpired(c, now).entries <==> Live(c, k, now)
    ensures forall k :: k in CleanupExpired(c, now).entries ==> CleanupExpired(c, now).entries[k] == c.entries[k]
  {
  }

  /** A value stored at `t` is served until its expiry instant and not after,
      provided nothing else touched the key. */
  lemma GetAfterSet<V>(c: Cache<V>, key: string, value: V, ttl: Option<int>, t: int, now: int)
    ensures var expiry := t + EffectiveTtl(c, ttl) * MicrosPerSecond;
            && (now <= expiry ==> Get(Set(c, key, value, ttl, t), key, now).0 == Some(value))
            && (now > expiry ==> Get(Set(c, key, value, ttl, t), key, now).0 == None)
  {
  }

  /** Storing under one key does not change what another key reads. */
  lemma SetIsolatesKeys<V>(c: Cache<V>, key: string, other: string, value: V, ttl: Option<int>, t: int, now: int)
    requires other != key
    ensures Get(Set(c, key, value, ttl, t), other, now).0 == Get(c, other, now).0
  {
  }

  /** `get` changes what no key reads: the only entry it deletes was
      expired already. */
  lemma GetIsObservationallyPure<V>(c: Cache<V>, key: string, other: string, now: int)
    ensures Get(Get(c, key, now).1, other, now).0 == Get(c, other, now).0
  {
  }

  /** Reading after a cleanup at the same instant gives the same answer as
      reading without it. */
  lemma CleanupPreservesReads<V>(c: Cache<V>, key: string, now: int)
    ensures Get(CleanupExpired(c, now), key, now).0 == Get(c, key, now).0
  {
    CleanupKeepsExactlyLive(c, now);
  }

  /** A second cleanup at the same instant, or at an earlier one, finds
      nothing more to drop. */
  lemma CleanupIsIdempotent<V>(c: Cache<V>, now: int, earlier: int)
    requires earlier <= now
    ensures CleanupExpired(CleanupExpired(c, now), earlier) == CleanupExpired(c, now)
  {
    var once := CleanupExpired(c, now);
    var twice := CleanupExpired(once, earlier);
    CleanupKeepsExactlyLive(c, now);
    CleanupKeepsExactlyLive(once, earlier);
    assert twice.entries.Keys == once.entries.Keys;
    assert twice.entries == once.entries;
  }

  /** After clearing a key it reads as absent, and other keys read as
      before. */
  lemma ClearKey<V>(c: Cache<V>, key: string, other: string, now: int)
    requires key != ""
    ensures Get(Clear(c, Some(key)), key, now).0 == None
    ensures other != key ==> Get(Clear(c, Some(key)), other, now).0 == Get(c, other, now).0
  {
  }
}
