/**
 v2/gcache.go: the generic cache of package `cache2`: a map from keys to
 items, a lazy expiry check in `Get`, and a full-scan `DeleteExpired`.
 */
module CacheV2 {
  import opened Wrappers
  import opened Values
  import opened TtlRules

  /**
   `Cache[K, V]` together with the `cache[K, V]` it embeds, with string keys
   and dynamic values. Each method is one atomic step; the clock is `now`.
   */
  class Cache {
    var items: map<string, Item>
    const expTime: int
    const cleanupInt: int

    /** `New`, without the `cleanup` goroutine and its finalizer. */
    constructor (expTime: int, cleanupTime: int)
      ensures items == map[] && this.expTime == expTime && cleanupInt == cleanupTime
    {
      items := map[];
      this.expTime := expTime;
      cleanupInt := cleanupTime;
    }

    /**
     Store `val` under `key` unless `key` holds an item `Get` still returns.
     A refused store reports `AlreadyExists`; otherwise `add` runs and its own
     error (an empty string) is dropped.
     */
    method Set(key: string, val: Value, d: int, now: int) returns (err: Option<CacheError>)
      modifies this
      ensures key in old(items) && Live(old(items)[key], now) ==>
        err == Some(AlreadyExists) && items == old(items)
      ensures !(key in old(items) && Live(old(items)[key], now)) ==>
        err == None &&
        items == if IsEmptyString(val) then old(items)
                 else old(items)[key := Item(val, ResolveExpiration(d, expTime, now))]
      ensures err.None? && !IsEmptyString(val) ==>
        Get(key, now) == Lookup(Some(Item(val, ResolveExpiration(d, expTime, now))), None)
    {
      var found := Get(key, now);
      if found.item.Some? && found.err.None? {
        return Some(AlreadyExists);
      }
      var _ := Add(key, val, d, now);
      return None;
    }

    /**
     `add`: resolve the expiry, reject an empty string value, and otherwise
     store the item under `key`, overwriting any entry. Its "already exists"
     guard needs an item and an error from `Get` at once, which never happens.
     */
    method Add(key: string, val: Value, d: int, now: int) returns (err: Option<CacheError>)
      modifies this
      ensures err == if IsEmptyString(val) then Some(EmptyString) else None
      ensures items == if IsEmptyString(val) then old(items)
                       else old(items)[key := Item(val, ResolveExpiration(d, expTime, now))]
    {
      var dur := d;
      if dur == DefaultExpiration {
        dur := expTime;
      }
      var exp := 0;
      if dur > 0 {
        exp := now + dur;
      } else if dur < 0 {
        exp := NoExpiration;
      }
      var found := Get(key, now);
      if found.item.Some? && found.err.Some? {
        return Some(AlreadyExists);
      }
      if IsEmptyString(val) {
        return Some(EmptyString);
      }
      items := items[key := Item(val, exp)];
      return None;
    }

    /**
     The item under `key` with no error while it is live; otherwise no item and
     `Expired` for an entry past its expiry or `NotFound` for a missing key.
     Never an item and an error together.
     */
    function Get(key: string, now: int): (r: Lookup)
      reads this
      ensures r.item.Some? <==> key in items && Live(items[key], now)
      ensures r.item.Some? ==> r.item.value == items[key] && r.err.None?
      ensures key in items && !Live(items[key], now) ==> r == Lookup(None, Some(Expired))
      ensures key !in items ==> r == Lookup(None, Some(NotFound))
    {
      if key in items then
        var item := items[key];
        if item.expiration > 0 && now > item.expiration then
          Lookup(None, Some(Expired))
        else
          Lookup(Some(item), None)
      else
        Lookup(None, Some(NotFound))
    }

    /** Its test asks for an item and an error from `Get` at once, so it never answers true. */
    function IsExpired(key: string, now: int): (expired: bool)
      reads this
      ensures !expired
    {
      var found := Get(key, now);
      found.item.Some? && found.err.Some? && Expiration(found.item) > now
    }

    /** `delete`: remove a present key; a missing key is reported and nothing changes. */
    method Delete(key: string) returns (err: Option<CacheError>)
      modifies this
      ensures err.None? <==> key in old(items)
      ensures err.Some? ==> err.value == NotFound
      ensures items == old(items) - {key}
    {
      if key in items {
        items := items - {key};
        return None;
      }
      return Some(NotFound);
    }

    /**
     One sweep: visit every entry once and delete the stale ones, including
     expiry-0 entries that `Get` still returns. No deletion can fail, and
     `errors.Unwrap` of a joined error is nil, so the result is always nil.
     */
    method DeleteExpired(now: int) returns (err: Option<CacheError>)
      modifies this
      ensures items == Swept(old(items), now)
      ensures err == None
    {
      var failures: seq<CacheError> := [];
      var keys := items.Keys;
      while keys != {}
        invariant keys <= items.Keys
        invariant forall k :: k in items <==> k in old(items) && (k in keys || !Stale(old(items)[k], now))
        invariant forall k :: k in items ==> items[k] == old(items)[k]
        invariant failures == []
        decreases keys
      {
        var k :| k in keys;
        keys := keys - {k};
        var item := items[k];
        if now > item.expiration && item.expiration != NoExpiration {
          var e := Delete(k);
          failures := Join(failures, e);
        }
      }
      err := None;
    }
  }
}
