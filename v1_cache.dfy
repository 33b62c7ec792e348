/**
 v1/gcache.go: a cache that keeps, beside its map, a binary min-heap of the
 items ordered by expiry, so that `evict` only looks at items that have
 expired. The clock is the parameter `now`; instants and durations are
 integers.
 */
module CacheV1 {
  import opened Wrappers
  import opened Values
  import Strconv

  /** An entry. Its value and expiry never change after creation; the heap rewrites `index`. */
  class Item {
    const value: Value
    const expiresAt: int
    var index: int

    constructor (value: Value, expiresAt: int)
      ensures this.value == value && this.expiresAt == expiresAt && index == 0
    {
      this.value := value;
      this.expiresAt := expiresAt;
      index := 0;
    }
  }

  /** Go's `(x) / 2` on `int`, which truncates toward zero. */
  function HalfTowardZero(x: int): int
  {
    if x < 0 then -((-x) / 2) else x / 2
  }

  function Parent(k: nat): nat
    requires k > 0
  {
    (k - 1) / 2
  }

  /** `t` is `s` with slots `i` and `j` exchanged. */
  ghost predicate Swapped(s: seq<Item>, t: seq<Item>, i: int, j: int)
  {
    && |t| == |s| && 0 <= i < |s| && 0 <= j < |s|
    && t[i] == s[j] && t[j] == s[i]
    && forall k :: 0 <= k < |s| && k != i && k != j ==> t[k] == s[k]
  }

  /**
   Slot `p` expires no later than those of its children `2p + 1` and `2p + 2`
   that lie among the first `n` slots, leaving out the child `skip`.
   */
  ghost predicate OrderedBelow(s: seq<Item>, n: int, p: int, skip: int)
    requires 0 <= p && n <= |s|
  {
    && (2 * p + 1 < n && 2 * p + 1 != skip ==> s[p].expiresAt <= s[2 * p + 1].expiresAt)
    && (2 * p + 2 < n && 2 * p + 2 != skip ==> s[p].expiresAt <= s[2 * p + 2].expiresAt)
  }

  /** The min-heap order on the first `n` slots of `s`. */
  ghost predicate HeapOn(s: seq<Item>, n: int)
    requires n <= |s|
  {
    forall p :: 0 <= p < n ==> OrderedBelow(s, n, p, -1)
  }

  ghost predicate IsMinHeap(s: seq<Item>)
  {
    HeapOn(s, |s|)
  }

  /** In a min-heap the root expires no later than any slot. */
  lemma {:induction false} RootIsMinimum(s: seq<Item>, k: int)
    requires IsMinHeap(s) && 0 <= k < |s|
    ensures s[0].expiresAt <= s[k].expiresAt
    decreases k
  {
    if k > 0 {
      var p := Parent(k);
      assert OrderedBelow(s, |s|, p, -1);
      RootIsMinimum(s, p);
    }
  }

  /** The order holds on the first `n` slots except between `hole` and its children. */
  ghost predicate HeapBelow(s: seq<Item>, n: int, hole: int)
    requires n <= |s|
  {
    forall p :: 0 <= p < n && p != hole ==> OrderedBelow(s, n, p, -1)
  }

  /** The parent of `hole` expires no later than the children of `hole` among the first `n` slots. */
  ghost predicate BridgeBelow(s: seq<Item>, n: int, hole: int)
    requires n <= |s|
  {
    0 < hole < n ==>
      && (2 * hole + 1 < n ==> s[(hole - 1) / 2].expiresAt <= s[2 * hole + 1].expiresAt)
      && (2 * hole + 2 < n ==> s[(hole - 1) / 2].expiresAt <= s[2 * hole + 2].expiresAt)
  }

  /** The order holds everywhere except between `hole` and its parent. */
  ghost predicate HeapAbove(s: seq<Item>, hole: int)
  {
    forall p :: 0 <= p < |s| ==> OrderedBelow(s, |s|, p, hole)
  }

  /** One step of `up`: swapping a hole with its later parent moves the hole to the parent. */
  lemma UpStep(s: seq<Item>, t: seq<Item>, j: int)
    requires 0 < j < |s| && s[j].expiresAt < s[Parent(j)].expiresAt
    requires HeapAbove(s, j) && BridgeBelow(s, |s|, j)
    requires Swapped(s, t, Parent(j), j)
    ensures HeapAbove(t, Parent(j)) && BridgeBelow(t, |t|, Parent(j))
  {
    var i := Parent(j);
    assert j == 2 * i + 1 || j == 2 * i + 2;
    forall p | 0 <= p < |t|
      ensures OrderedBelow(t, |t|, p, i)
    {
      assert OrderedBelow(s, |s|, p, j);
      if p == i {
        assert OrderedBelow(s, |s|, j, j);
      }
    }
    if 0 < i {
      var g := Parent(i);
      assert i == 2 * g + 1 || i == 2 * g + 2;
      assert OrderedBelow(s, |s|, g, j);
      assert OrderedBelow(s, |s|, i, j);
    }
  }

  /** One step of `down`: swapping a hole with its earliest child moves the hole to that child. */
  lemma DownStep(s: seq<Item>, t: seq<Item>, n: int, i: int, j: int)
    requires 0 <= i && n <= |s| && (j == 2 * i + 1 || j == 2 * i + 2) && j < n
    requires s[j].expiresAt <= s[2 * i + 1].expiresAt
    requires 2 * i + 2 < n ==> s[j].expiresAt <= s[2 * i + 2].expiresAt
    requires s[j].expiresAt < s[i].expiresAt
    requires HeapBelow(s, n, i) && BridgeBelow(s, n, i)
    requires Swapped(s, t, i, j)
    ensures HeapBelow(t, n, j) && BridgeBelow(t, n, j)
  {
    forall p | 0 <= p < n && p != j
      ensures OrderedBelow(t, n, p, -1)
    {
      if p != i {
        assert OrderedBelow(s, n, p, -1);
      }
    }
    assert OrderedBelow(s, n, j, -1);
  }

  /** `down` stops when the hole has no child within the first `n` slots or none expires before it. */
  lemma DownDone(s: seq<Item>, n: int, i: int)
    requires 0 <= i && n <= |s| && HeapBelow(s, n, i)
    requires 2 * i + 1 < n ==> s[i].expiresAt <= s[2 * i + 1].expiresAt
    requires 2 * i + 2 < n ==> s[i].expiresAt <= s[2 * i + 2].expiresAt
    ensures HeapOn(s, n)
  {
    assert i < n ==> OrderedBelow(s, n, i, -1);
  }

  /** Swapping the root of a heap with its last slot leaves a hole at the root over the other slots. */
  lemma RootSwapped(s: seq<Item>, t: seq<Item>)
    requires IsMinHeap(s) && |s| > 0
    requires Swapped(s, t, 0, |s| - 1)
    ensures HeapBelow(t, |s| - 1, 0) && BridgeBelow(t, |s| - 1, 0)
  {
    var n := |s| - 1;
    forall p | 0 < p < n
      ensures OrderedBelow(t, n, p, -1)
    {
      assert OrderedBelow(s, |s|, p, -1);
    }
  }

  /** Appending to a min-heap leaves a hole only at the new last slot. */
  lemma Appended(s: seq<Item>, x: Item)
    requires IsMinHeap(s)
    ensures HeapAbove(s + [x], |s|) && BridgeBelow(s + [x], |s| + 1, |s|)
  {
    var t := s + [x];
    forall p | 0 <= p < |t|
      ensures OrderedBelow(t, |t|, p, |s|)
    {
      if p < |s| {
        assert OrderedBelow(s, |s|, p, -1);
      }
    }
  }

  /** `up` stops at the root or below a parent that expires no later. */
  lemma UpDone(s: seq<Item>, j: int)
    requires 0 <= j < |s| && HeapAbove(s, j)
    requires j > 0 ==> s[Parent(j)].expiresAt <= s[j].expiresAt
    ensures IsMinHeap(s)
  {
    forall p | 0 <= p < |s|
      ensures OrderedBelow(s, |s|, p, -1)
    {
      assert OrderedBelow(s, |s|, p, j);
      if j > 0 {
        assert j == 2 * Parent(j) + 1 || j == 2 * Parent(j) + 2;
      }
    }
  }

  /** The order on the first `n` slots is a min-heap once the rest is cut off. */
  lemma Truncated(s: seq<Item>, n: int)
    requires 0 <= n <= |s| && HeapOn(s, n)
    ensures IsMinHeap(s[..n])
  {
    forall p | 0 <= p < n
      ensures OrderedBelow(s[..n], n, p, -1)
    {
      assert OrderedBelow(s, n, p, -1);
    }
  }

  lemma RootIsMinimumAll(s: seq<Item>)
    requires IsMinHeap(s) && |s| > 0
    ensures forall y :: y in s ==> s[0].expiresAt <= y.expiresAt
  {
    forall k | 0 <= k < |s|
      ensures s[0].expiresAt <= s[k].expiresAt
    {
      RootIsMinimum(s, k);
    }
  }

  /**
   `expirationHeap`: the slice of items with the hooks that Go's `container/heap`
   calls (`Len`, `Less`, `Swap`, `Push`, `Pop`), and that package's `up`, `down`,
   `heap.Push` and `heap.Pop` written out over the slots.
   */
  class ExpirationHeap {
    var slots: seq<Item>

    /** Every slot's item records its own position. This also makes the items pairwise distinct. */
    ghost predicate Indexed()
      reads this, slots
    {
      forall k :: 0 <= k < |slots| ==> slots[k].index == k
    }

    ghost predicate Valid()
      reads this, slots
    {
      Indexed() && IsMinHeap(slots)
    }

    constructor ()
      ensures slots == [] && Valid()
    {
      slots := [];
    }

    function Len(): (n: int)
      reads this
      ensures n == |slots|
    {
      |slots|
    }

    /** Slot `i` expires strictly before slot `j` (`time.Time.Before`). */
    predicate Less(i: int, j: int)
      reads this
      requires 0 <= i < |slots| && 0 <= j < |slots|
      ensures Less(i, j) <==> slots[i].expiresAt < slots[j].expiresAt
    {
      slots[i].expiresAt < slots[j].expiresAt
    }

    method Swap(i: int, j: int)
      requires 0 <= i < |slots| && 0 <= j < |slots|
      modifies this, slots[i], slots[j]
      ensures Swapped(old(slots), slots, i, j)
      ensures multiset(slots) == multiset(old(slots))
      ensures slots[j].index == j
      ensures slots[i] != slots[j] ==> slots[i].index == i
      ensures old(Indexed()) ==> Indexed()
    {
      slots := slots[i := slots[j]][j := slots[i]];
      assert Swapped(old(slots), slots, i, j);
      slots[i].index := i;
      slots[j].index := j;
    }

    method Push(x: Item)
      modifies this, x
      ensures slots == old(slots) + [x] && x.index == old(|slots|)
      ensures old(Indexed()) && x !in old(slots) ==> Indexed()
    {
      var n := |slots|;
      x.index := n;
      slots := slots + [x];
    }

    method Pop() returns (x: Item)
      requires |slots| > 0
      modifies this, slots[|slots| - 1]
      ensures x == old(slots[|slots| - 1]) && x.index == -1
      ensures slots == old(slots[..|slots| - 1])
      ensures old(Indexed()) ==> Indexed()
    {
      var n := |slots|;
      x := slots[n - 1];
      x.index := -1;
      slots := slots[..n - 1];
    }

    /** `up` of container/heap: move slot `j0` toward the root while it expires before its parent. */
    method Up(j0: int)
      requires Indexed() && 0 <= j0 < |slots|
      requires HeapAbove(slots, j0) && BridgeBelow(slots, |slots|, j0)
      modifies this, slots
      ensures Valid()
      ensures multiset(slots) == multiset(old(slots))
    {
      var j := j0;
      while true
        invariant 0 <= j < |slots|
        invariant Indexed()
        invariant HeapAbove(slots, j) && BridgeBelow(slots, |slots|, j)
        invariant multiset(slots) == multiset(old(slots))
        decreases j
      {
        var i := HalfTowardZero(j - 1);
        if i == j || !Less(j, i) {
          UpDone(slots, j);
          break;
        }
        assert slots[i] in multiset(old(slots)) && slots[j] in multiset(old(slots));
        ghost var before := slots;
        Swap(i, j);
        UpStep(before, slots, j);
        j := i;
      }
    }

    /**
     `down` of container/heap over the first `n` slots: move slot `i0` away from
     the root while a child expires before it. `moved` says whether it left `i0`.
     */
    method Down(i0: int, n: int) returns (moved: bool)
      requires Indexed() && 0 <= i0 < |slots| && 0 <= n <= |slots|
      requires HeapBelow(slots, n, i0) && BridgeBelow(slots, n, i0)
      modifies this, slots
      ensures Indexed() && |slots| == old(|slots|) && HeapOn(slots, n)
      ensures forall k :: n <= k < |slots| ==> slots[k] == old(slots[k])
      ensures multiset(slots) == multiset(old(slots))
      ensures moved <==> slots[i0] != old(slots[i0])
    {
      var i := i0;
      ghost var first := slots[i0];
      while true
        invariant i0 <= i < |slots|
        invariant Indexed() && |slots| == old(|slots|)
        invariant HeapBelow(slots, n, i) && BridgeBelow(slots, n, i)
        invariant forall k :: n <= k < |slots| ==> slots[k] == old(slots[k])
        invariant multiset(slots) == multiset(old(slots))
        invariant (i == i0) == (slots[i0] == first)
        decreases |slots| - i
      {
        var j1 := 2 * i + 1;
        if j1 >= n || j1 < 0 {  // `j1 < 0` is Go's guard against int overflow
          DownDone(slots, n, i);
          break;
        }
        var j := j1;
        var j2 := j1 + 1;
        if j2 < n && Less(j2, j1) {
          j := j2;
        }
        if !Less(j, i) {
          DownDone(slots, n, i);
          break;
        }
        assert slots[i] != slots[j];
        assert slots[i] in multiset(old(slots)) && slots[j] in multiset(old(slots));
        ghost var before := slots;
        Swap(i, j);
        DownStep(before, slots, n, i, j);
        i := j;
      }
      moved := i > i0;
    }

    /** `heap.Push`: append the item, then restore the order from the new last slot. */
    method HeapPush(x: Item)
      requires Valid() && x !in slots
      modifies this, slots, x
      ensures Valid()
      ensures multiset(slots) == multiset(old(slots)) + multiset{x}
    {
      Appended(slots, x);
      Push(x);
      Up(Len() - 1);
    }

    /**
     `heap.Pop`: swap the root into the last slot, restore the order over the
     other slots, then remove and return the last slot: the earliest expiry.
     */
    method HeapPop() returns (x: Item)
      requires Valid() && |slots| > 0
      modifies this, slots
      ensures Valid()
      ensures x == old(slots[0]) && x.index == -1
      ensures multiset(old(slots)) == multiset(slots) + multiset{x}
      ensures forall y :: y in old(slots) ==> x.expiresAt <= y.expiresAt
    {
      RootIsMinimumAll(slots);
      var n := Len() - 1;
      ghost var full := slots;
      Swap(0, n);
      RootSwapped(full, slots);
      var _ := Down(0, n);
      ghost var before := slots;
      Truncated(before, n);
      x := Pop();
      assert before == slots + [x];
    }
  }

  /**
   The map key `evict` deletes for a popped item. Items do not record their
   key, so it is derived from the value: a `string` value is used as is, an
   `int` value in decimal, and any other value deletes nothing.
   */
  function EvictionKey(v: Value): (k: Option<string>)
    ensures k.Some? <==> v.Str? || v.Int?
    ensures v.Str? ==> k == Some(v.s)
    ensures v.Int? ==> k == Some(Strconv.Itoa(v.n))
  {
    match v
    case Str(s) => Some(s)
    case Int(n) => Some(Strconv.Itoa(n))
    case _ => None
  }

  /** Distinct `int` values lead `evict` to distinct keys; a `string` value collides with an `int` exactly when it is its decimal form. */
  lemma EvictionKeyCollisions(v: Value, w: Value)
    requires v.Int? && (w.Int? || w.Str?)
    ensures EvictionKey(v) == EvictionKey(w) <==> (if w.Int? then v.n == w.n else w.s == Strconv.Itoa(v.n))
  {
  }

  /** The keys `evict` deletes for a sequence of popped items: at most one per item. */
  ghost function EvictedKeys(popped: seq<Item>): (keys: set<string>)
    ensures |keys| <= |popped|
  {
    if popped == [] then {}
    else
      EvictedKeys(popped[..|popped| - 1]) +
      match EvictionKey(popped[|popped| - 1].value)
      case Some(k) => {k}
      case None => {}
  }

  /**
   A key is deleted by `evict` exactly when it is derived from the value of some
   popped item; the keys the popped items were stored under play no part.
   */
  lemma {:induction false} EvictedKeysMeaning(popped: seq<Item>, k: string)
    ensures k in EvictedKeys(popped) <==>
            exists i :: 0 <= i < |popped| && EvictionKey(popped[i].value) == Some(k)
  {
    if popped != [] {
      var n := |popped| - 1;
      EvictedKeysMeaning(popped[..n], k);
      if k in EvictedKeys(popped[..n]) {
        var i :| 0 <= i < n && EvictionKey(popped[..n][i].value) == Some(k);
        assert EvictionKey(popped[i].value) == Some(k);
      }
      if i :| 0 <= i < |popped| && EvictionKey(popped[i].value) == Some(k) {
        if i < n {
          assert EvictionKey(popped[..n][i].value) == Some(k);
        }
      }
    }
  }

  /**
   `Less` is a strict order on the slots, which is what `container/heap`
   needs of it: no slot is less than itself, and it is transitive.
   */
  lemma LessIsStrictOrder(h: ExpirationHeap, i: int, j: int, k: int)
    requires 0 <= i < |h.slots| && 0 <= j < |h.slots| && 0 <= k < |h.slots|
    ensures !h.Less(i, i)
    ensures h.Less(i, j) && h.Less(j, k) ==> h.Less(i, k)
    ensures h.Less(i, j) ==> !h.Less(j, i)
  {
  }

  /** `Cache`: the map from keys to items, and the heap of the same items ordered by expiry. */
  class Cache {
    const ttl: int
    var items: map<string, Item>
    const heap: ExpirationHeap

    ghost predicate Valid()
      reads this, heap, heap.slots
    {
      heap.Valid()
    }

    /** `New`, without the background `cleanEvic` goroutine. */
    constructor (ttl: int)
      ensures Valid() && fresh(heap)
      ensures this.ttl == ttl && items == map[] && heap.slots == []
    {
      this.ttl := ttl;
      items := map[];
      heap := new ExpirationHeap();
    }

    /**
     Map `key` to a fresh item that expires `ttl` after `now`, replacing any
     earlier entry, and push the item on the heap. An item the entry replaces
     stays on the heap.
     */
    method Set(key: string, value: Value, now: int)
      requires Valid()
      modifies this, heap, heap.slots
      ensures Valid()
      ensures key in items && fresh(items[key])
      ensures items[key].value == value && items[key].expiresAt == now + ttl
      ensures items == old(items)[key := items[key]]
      ensures multiset(heap.slots) == multiset(old(heap.slots)) + multiset{items[key]}
      ensures forall y :: y in heap.slots ==> heap.slots[0].expiresAt <= y.expiresAt
      ensures forall t :: Get(key, t) == if t <= now + ttl then Some(value) else None
    {
      var item := new Item(value, now + ttl);
      items := items[key := item];
      heap.HeapPush(item);
      RootIsMinimumAll(heap.slots);
    }

    /** The value stored under `key`, unless it is missing or `now` is after its expiry. */
    function Get(key: string, now: int): (r: Option<Value>)
      reads this
      ensures r.Some? <==> key in items && now <= items[key].expiresAt
      ensures r.Some? ==> r.value == items[key].value
    {
      if key in items then
        var item := items[key];
        if now > item.expiresAt then None else Some(item.value)
      else
        None
    }

    /** Remove `key` from the map only; its item stays on the heap. */
    method Delete(key: string)
      requires Valid()
      modifies this
      ensures Valid()
      ensures items == old(items) - {key}
      ensures heap.slots == old(heap.slots)
    {
      if key in items {
        items := items - {key};
      }
    }

    /**
     Pop every item that expired before `now` and delete the key derived from
     each popped item's value. `popped` lists the popped items in order.
     */
    method Evict(now: int) returns (ghost popped: seq<Item>)
      requires Valid()
      modifies this, heap, heap.slots
      ensures Valid()
      ensures heap.slots == [] || now <= heap.slots[0].expiresAt
      ensures forall y :: y in heap.slots ==> now <= y.expiresAt
      ensures forall y :: y in popped ==> y.expiresAt < now
      ensures multiset(old(heap.slots)) == multiset(heap.slots) + multiset(popped)
      ensures items == old(items) - EvictedKeys(popped)
    {
      popped := [];
      while |heap.slots| > 0 && heap.slots[0].expiresAt < now
        invariant Valid()
        invariant multiset(old(heap.slots)) == multiset(heap.slots) + multiset(popped)
        invariant forall y :: y in popped ==> y.expiresAt < now
        invariant items == old(items) - EvictedKeys(popped)
        decreases |heap.slots|
      {
        forall k | 0 <= k < |heap.slots|
          ensures heap.slots[k] in old(heap.slots)
        {
          assert heap.slots[k] in multiset(old(heap.slots));
        }
        var item := heap.HeapPop();
        assert (popped + [item])[..|popped|] == popped;
        popped := popped + [item];
        match EvictionKey(item.value)
        case Some(k) =>
          items := items - {k};
        case None =>
      }
      if |heap.slots| > 0 {
        RootIsMinimumAll(heap.slots);
      }
    }
  }
}
