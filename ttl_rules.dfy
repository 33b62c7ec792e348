/**
 The expiry rules that v2/gcache.go and gcache_v2.go share, line for line:
 how a duration resolves to a stored expiry, when `Get` still sees an entry,
 and when `DeleteExpired` removes it. Instants are integer nanoseconds.
 */
module TtlRules {
  import opened Wrappers
  import opened Values

  /** Stored expiry of an entry that never expires, and the duration that asks for it. */
  const NoExpiration: int := -1
  /** The duration that asks for the cache's default. */
  const DefaultExpiration: int := 0

  /** `Item[V]` (and `Item2[V]`): a stored object and its expiry. Stored items are never updated in place. */
  datatype Item = Item(obj: Value, expiration: int)  // `obj` is the Go field `object`

  /** The errors the two caches return; the message texts are not modelled. */
  datatype CacheError =
    | AlreadyExists   // `Set` on a live key, or `add`'s guard
    | EmptyString     // `add` with an empty string value
    | Expired         // `Get` on an entry past its expiry
    | NotFound        // `Get` or `delete` on a missing key

  /** What `Get` returns: an item pointer and an error, either of which may be nil. */
  datatype Lookup = Lookup(item: Option<Item>, err: Option<CacheError>)

  /**
   The expiry `add` stores for a duration `d`: 0 first becomes the default
   `expTime`; then a positive duration expires that long after `now`, a
   negative one never (-1), and a duration still 0 leaves the expiry 0.
   */
  function ResolveExpiration(d: int, expTime: int, now: int): (exp: int)
    ensures d > 0 ==> exp == now + d
    ensures d < 0 ==> exp == NoExpiration
    ensures d == 0 && expTime > 0 ==> exp == now + expTime
    ensures d == 0 && expTime < 0 ==> exp == NoExpiration
    ensures d == 0 && expTime == 0 ==> exp == 0
  {
    var d' := if d == DefaultExpiration then expTime else d;
    if d' > 0 then now + d' else if d' < 0 then NoExpiration else 0
  }

  /** `Get` still returns the item: a non-positive expiry never expires, a positive one is inclusive. */
  predicate Live(it: Item, now: int)
  {
    it.expiration <= 0 || now <= it.expiration
  }

  /** `DeleteExpired` removes the item: past its expiry and not the -1 sentinel. */
  predicate Stale(it: Item, now: int)
  {
    now > it.expiration && it.expiration != NoExpiration
  }

  /** The map `DeleteExpired` leaves: exactly the entries that are not stale. */
  ghost function Swept(items: map<string, Item>, now: int): (r: map<string, Item>)
    ensures forall k :: k in r <==> k in items && !Stale(items[k], now)
    ensures forall k :: k in r ==> r[k] == items[k]
  {
    map k | k in items && !Stale(items[k], now) :: items[k]
  }

  /** The expiry of a possibly missing item; a missing item counts as 0. */
  function Expiration(it: Option<Item>): (exp: int)
    ensures it.Some? ==> exp == it.value.expiration
  {
    match it
    case Some(item) => item.expiration
    case None => 0
  }

  /** `errors.Join(errs, e)`, with the joined error kept as the list of its parts; a nil `e` adds nothing. */
  function Join(errs: seq<CacheError>, e: Option<CacheError>): (r: seq<CacheError>)
    ensures e.None? ==> r == errs
    ensures e.Some? ==> r == errs + [e.value]
  {
    match e
    case Some(x) => errs + [x]
    case None => errs
  }

  /** `Val`: the stored object of a non-nil item, the zero value (nil) otherwise. */
  function Val(it: Option<Item>): (v: Value)
    ensures it.Some? ==> v == it.value.obj
    ensures it.None? ==> v == Nil
  {
    match it
    case Some(item) => item.obj
    case None => Nil
  }

  /**
   The two readings of expiry disagree exactly on entries whose expiry is 0
   or below -1: `Get` treats them as never expiring, `DeleteExpired` removes
   them once `now` has passed.
   */
  lemma LiveButStale(it: Item, now: int)
    ensures Live(it, now) && Stale(it, now) <==>
            it.expiration <= 0 && it.expiration != NoExpiration && now > it.expiration
  {
  }

  /**
   What a stored expiry means for later reads, on a clock that starts at 0,
   in terms of the duration `dur` that remains once 0 has become the default:
   an entry stored at `now` is visible at `t` unless `dur` is positive and `t`
   is past `now + dur`; the sweep at `t` removes it in that case and also when
   `dur` is 0 and `t > 0`. So the entries that `Get` still returns but the
   sweep removes are exactly those stored with no duration at all.
   */
  lemma ResolvedExpiryMeaning(d: int, expTime: int, now: int, t: int, v: Value)
    requires 0 <= now
    ensures var dur := if d == DefaultExpiration then expTime else d;
      var it := Item(v, ResolveExpiration(d, expTime, now));
      && (Live(it, t) <==> dur <= 0 || t <= now + dur)
      && (Stale(it, t) <==> (dur == 0 && t > 0) || (dur > 0 && t > now + dur))
      && (Live(it, t) && Stale(it, t) <==> dur == 0 && t > 0)
  {
  }
}
