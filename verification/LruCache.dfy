/** The cold engine's bounded cache of file metadata, which evicts the least recently used key. */
module LruCache {
  import opened Entries
  import opened Recency

  class LruCache<K(==, !new), V> {
    var items: seq<Item<K, V>>
    const capacity: nat
    /** Every use since the key was last deleted, least recent first. */
    ghost var uses: seq<Item<K, V>>

    ghost predicate Valid() reads this { KeysOnce(uses) && items == Last(uses, capacity) }

    constructor (capacity: nat)
      ensures Valid() && uses == [] && this.capacity == capacity
    {
      this.capacity := capacity;
      items, uses := [], [];
    }

    /** The value kept for the key, which becomes the most recently used. */
    method Get(key: K) returns (value: Option<V>)
      requires Valid()
      modifies this
      ensures Valid() && value == Lookup(old(items), key) && |items| == |old(items)|
      ensures uses == if value.Some? then Put(old(uses), key, value.value) else old(uses)
      ensures value == if Lookup(old(uses), key).Some? && |After(old(uses), key)| < capacity
                       then Lookup(old(uses), key) else None
      ensures SameContent(items, old(items))
    {
      LookupLast(uses, capacity, key);
      value := Lookup(items, key);
      if value.Some? {
        Refreshed(uses, capacity, key, value.value);
        items := Put(items, key, value.value);
        uses := Put(uses, key, value.value);
      }
    }

    /** Keeps the value, and drops the least recently used key when there is one too many. */
    method Set(key: K, value: V)
      requires Valid()
      modifies this
      ensures Valid() && uses == Put(old(uses), key, value) && |items| <= capacity
      ensures capacity > 0 ==> Lookup(items, key) == Some(value)
    {
      SetFacts(uses, capacity, key, value);
      items := Put(items, key, value);
      Evict();
      uses := Put(uses, key, value);
    }

    method Evict()
      modifies this`items
      ensures items == Last(old(items), capacity)
    {
      while |items| > capacity
        invariant |items| >= capacity || items == old(items)
        invariant |items| <= |old(items)| && items == old(items)[|old(items)| - |items|..]
      {
        items := items[1..];
      }
    }

    /** Forgets the key; what was evicted before stays forgotten. */
    method Delete(key: K)
      requires Valid()
      modifies this
      ensures Valid() && items == Remove(old(items), key) && Lookup(items, key) == None && uses == items
    {
      RemoveGone(items, key);
      LastOnce(uses, capacity);
      RemoveFacts(items, key);
      items := Remove(items, key);
      uses := items;
    }
  }

  lemma LastOnce<K, V>(m: seq<Item<K, V>>, cap: nat)
    requires KeysOnce(m)
    ensures KeysOnce(Last(m, cap)) && |Last(m, cap)| <= cap
  {
  }

  ghost predicate SameContent<K(!new), V>(a: seq<Item<K, V>>, b: seq<Item<K, V>>) {
    forall k :: Lookup(a, k) == Lookup(b, k)
  }

  lemma SetFacts<K, V>(uses: seq<Item<K, V>>, cap: nat, key: K, value: V)
    requires KeysOnce(uses)
    ensures KeysOnce(Put(uses, key, value))
    ensures Last(Put(Last(uses, cap), key, value), cap) == Last(Put(uses, key, value), cap)
    ensures |Last(Put(uses, key, value), cap)| <= cap
    ensures cap > 0 ==> Lookup(Last(Put(uses, key, value), cap), key) == Some(value)
  {
    PutFacts(uses, key, value);
    PutLast(uses, key, value, cap);
    LookupLast(Put(uses, key, value), cap, key);
    RemoveGone(uses, key);
    LookupAppend(Remove(uses, key), Item(key, value), key);
  }

  /** Using a key that is kept moves it to the end of both the cache and the history. */
  lemma Refreshed<K(!new), V>(uses: seq<Item<K, V>>, cap: nat, key: K, value: V)
    requires KeysOnce(uses) && Lookup(Last(uses, cap), key) == Some(value)
    ensures KeysOnce(Put(uses, key, value)) && Put(Last(uses, cap), key, value) == Last(Put(uses, key, value), cap)
    ensures |Put(Last(uses, cap), key, value)| == |Last(uses, cap)|
    ensures SameContent(Put(Last(uses, cap), key, value), Last(uses, cap))
  {
    var m := Last(uses, cap);
    LastOnce(uses, cap);
    PutFacts(uses, key, value);
    PutLast(uses, key, value, cap);
    LookupKeys(m, key);
    RemoveFacts(m, key);
    forall k ensures Lookup(Put(m, key, value), k) == Lookup(m, k) {
      LookupAppend(Remove(m, key), Item(key, value), k);
      if k == key { RemoveGone(m, key); } else { RemoveOther(m, key, k); }
    }
  }
}
