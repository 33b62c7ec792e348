/**
 gcache.go: the minimal cache of package `gcache`, a map from string keys to
 items whose expiry `Get` checks lazily. `Set` ignores the cache's own `ttl`
 and nothing ever sweeps the map.
 */
module Gcache {
  import opened Values

  /** A duration that asks for no expiry, and the one that asks for the default. */
  const NoExpiration: int := -1
  const DefaultExpires: int := 0

  /** `Item`: a stored value and its expiry in nanoseconds, 0 meaning never. Stored items are never updated in place. */
  datatype Item = Item(value: Value, expires: int)

  /**
   The expiry `Set` stores for a duration: `now + ttl` for a positive one and
   0 (never) for anything else, the default and `NoExpiration` included.
   */
  function ExpiryFor(ttl: int, now: int): (t: int)
    ensures ttl > 0 ==> t == now + ttl
    ensures ttl <= 0 ==> t == 0
  {
    if ttl > 0 then now + ttl else 0
  }

  /** `Get` still returns the item: no expiry, or a positive one not yet passed (inclusive). */
  predicate Fresh(it: Item, now: int)
  {
    !(it.expires > 0 && now > it.expires)
  }

  /**
   What a stored expiry means for later reads on a clock that starts at 0:
   the entry is fresh at `t` exactly when the duration was not positive or
   `t` is at most `ttl` after the store.
   */
  lemma StoredExpiryMeaning(v: Value, ttl: int, now: int, t: int)
    requires 0 <= now
    ensures Fresh(Item(v, ExpiryFor(ttl, now)), t) <==> ttl <= 0 || t <= now + ttl
  {
  }

  /** `Cache`: the item map and the `ttl` given to `New`, which no operation reads. */
  class Cache {
    const ttl: int
    var items: map<string, Item>

    /** `New`, without the commented-out eviction goroutine. */
    constructor (ttl: int)
      ensures this.ttl == ttl && items == map[]
    {
      this.ttl := ttl;
      items := map[];
    }

    /**
     Store `value` under `key`, overwriting any entry, whatever it holds.
     From then on `Get` at `t` returns it exactly while `t` has not passed a
     positive `ttl` after `now`; a `ttl` of 0 or below keeps it forever. (On a
     clock before 0, `now + ttl` could itself be 0 or below and read as never.)
     */
    method Set(key: string, value: Value, ttl: int, now: int)
      modifies this
      ensures items == old(items)[key := Item(value, ExpiryFor(ttl, now))]
      ensures 0 <= now ==>
        forall t :: Get(key, t) == if ttl <= 0 || t <= now + ttl then (value, true) else (Nil, false)
    {
      var t := 0;
      var d := ttl;
      if d == DefaultExpires {
        d := DefaultExpires;
      } else if d > 0 {
        t := now + d;
      }
      items := items[key := Item(value, t)];
    }

    /** The value under `key` and true while its entry is fresh; nil and false for a stale or missing key. */
    function Get(key: string, now: int): (r: (Value, bool))
      reads this
      ensures r.1 <==> key in items && Fresh(items[key], now)
      ensures r.1 ==> r.0 == items[key].value
      ensures !r.1 ==> r.0 == Nil
    {
      if key in items then
        var item := items[key];
        if item.expires > 0 && now > item.expires then (Nil, false) else (item.value, true)
      else
        (Nil, false)
    }

    /** Remove `key` if present; a missing key is not an error, so a second call changes nothing. */
    method Delete(key: string)
      modifies this
      ensures items == old(items) - {key}
      ensures key !in old(items) ==> items == old(items)
      ensures forall t :: Get(key, t) == (Nil, false)
    {
      if key in items {
        items := items - {key};
      }
    }

    /** `clean` takes the lock and releases it: the map is left as it was. */
    method Clean()
      ensures unchanged(this)
    {
    }
  }
}
