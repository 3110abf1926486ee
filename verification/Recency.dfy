/**
  An insertion-ordered map that is kept bounded by dropping its first key, with a key moved to the end
  whenever it is used; and what such a map still knows of the whole history of uses.
 */
module Recency {
  import opened Entries

  datatype Item<+K, +V> = Item(key: K, value: V)

  function Lookup<K(==), V>(m: seq<Item<K, V>>, k: K): Option<V> {
    if m == [] then None else if m[0].key == k then Some(m[0].value) else Lookup(m[1..], k)
  }

  /** `delete`. */
  function Remove<K(==), V>(m: seq<Item<K, V>>, k: K): seq<Item<K, V>> {
    if m == [] then [] else if m[0].key == k then Remove(m[1..], k) else [m[0]] + Remove(m[1..], k)
  }

  /** `delete`, then `set`: the key moves to the end. */
  function Put<K(==), V>(m: seq<Item<K, V>>, k: K, v: V): seq<Item<K, V>> { Remove(m, k) + [Item(k, v)] }

  /** What is left once the first keys are dropped until at most `cap` remain. */
  function Last<K, V>(m: seq<Item<K, V>>, cap: nat): seq<Item<K, V>> {
    if |m| <= cap then m else m[|m| - cap..]
  }

  ghost function Keys<K, V>(m: seq<Item<K, V>>): set<K> { set x | x in m :: x.key }

  ghost predicate KeysOnce<K, V>(m: seq<Item<K, V>>) { forall i, j :: 0 <= i < j < |m| ==> m[i].key != m[j].key }

  // ---------------------------------------------------------------- histories

  /** Every use, kept: the unbounded map, least recently used first. */
  function Full<K(==), V>(h: seq<Item<K, V>>): seq<Item<K, V>> {
    if h == [] then [] else var n := |h| - 1; Put(Full(h[..n]), h[n].key, h[n].value)
  }

  /** The bounded map after a history of uses. */
  function Bounded<K(==), V>(h: seq<Item<K, V>>, cap: nat): seq<Item<K, V>> {
    if h == [] then [] else var n := |h| - 1; Last(Put(Bounded(h[..n], cap), h[n].key, h[n].value), cap)
  }

  /** The value of a key's last use. */
  function LastUse<K(==), V>(h: seq<Item<K, V>>, k: K): Option<V> {
    if h == [] then None
    else var n := |h| - 1; if h[n].key == k then Some(h[n].value) else LastUse(h[..n], k)
  }

  /** The other keys used since a key's last use. */
  function OthersSince<K(==), V>(h: seq<Item<K, V>>, k: K): set<K> {
    if h == [] then {}
    else var n := |h| - 1; if h[n].key == k then {} else OthersSince(h[..n], k) + {h[n].key}
  }

  // ---------------------------------------------------------------- one use

  lemma {:induction false} RemoveFacts<K, V>(m: seq<Item<K, V>>, k: K)
    requires KeysOnce(m)
    ensures KeysOnce(Remove(m, k)) && Keys(Remove(m, k)) == Keys(m) - {k}
    ensures |Remove(m, k)| == if k in Keys(m) then |m| - 1 else |m|
  {
    if m != [] {
      RemoveFacts(m[1..], k);
      assert Keys(m) == {m[0].key} + Keys(m[1..]);
      assert m[0].key !in Keys(m[1..]);
      if m[0].key != k {
        var r := Remove(m[1..], k);
        forall j | 0 <= j < |r| ensures r[j].key != m[0].key { assert r[j].key in Keys(r); }
        assert Keys([m[0]] + r) == {m[0].key} + Keys(r);
      }
    }
  }

  lemma {:induction false} RemoveAppend<K, V>(a: seq<Item<K, V>>, b: seq<Item<K, V>>, k: K)
    ensures Remove(a + b, k) == Remove(a, k) + Remove(b, k)
  {
    if a == [] {
      assert a + b == b;
    } else {
      RemoveAppend(a[1..], b, k);
      var s, rest, more := a + b, Remove(a[1..], k), Remove(b, k);
      assert s[0] == a[0] && s[1..] == a[1..] + b;
      assert ([a[0]] + rest) + more == [a[0]] + (rest + more);
    }
  }

  lemma PutFacts<K, V>(m: seq<Item<K, V>>, k: K, v: V)
    requires KeysOnce(m)
    ensures KeysOnce(Put(m, k, v))
  {
    RemoveFacts(m, k);
    var r := Remove(m, k);
    forall j | 0 <= j < |r| ensures r[j].key != k { assert r[j].key in Keys(r); }
  }

  lemma LastAppend<K, V>(a: seq<Item<K, V>>, b: seq<Item<K, V>>, cap: nat)
    requires |b| >= cap
    ensures Last(a + b, cap) == Last(b, cap)
  {
  }

  /** Evicting early loses nothing that the bound would keep: using a key commutes with the bound. */
  lemma PutLast<K, V>(full: seq<Item<K, V>>, k: K, v: V, cap: nat)
    requires KeysOnce(full)
    ensures Last(Put(Last(full, cap), k, v), cap) == Last(Put(full, k, v), cap)
  {
    if |full| > cap {
      var p, s := full[..|full| - cap], full[|full| - cap..];
      assert full == p + s;
      RemoveAppend(p, s, k);
      RemoveFacts(s, k);
      assert Put(full, k, v) == Remove(p, k) + Put(s, k, v);
      LastAppend(Remove(p, k), Put(s, k, v), cap);
    }
  }

  lemma {:induction false} BoundedIsLast<K, V>(h: seq<Item<K, V>>, cap: nat)
    ensures KeysOnce(Full(h)) && Bounded(h, cap) == Last(Full(h), cap)
  {
    if h != [] {
      var n := |h| - 1;
      BoundedIsLast(h[..n], cap);
      PutFacts(Full(h[..n]), h[n].key, h[n].value);
      PutLast(Full(h[..n]), h[n].key, h[n].value, cap);
    }
  }

  // ---------------------------------------------------------------- what is still known

  function After<K(==), V>(m: seq<Item<K, V>>, k: K): seq<Item<K, V>> {
    if m == [] then [] else if m[0].key == k then m[1..] else After(m[1..], k)
  }

  lemma {:induction false} LookupKeys<K, V>(m: seq<Item<K, V>>, k: K)
    ensures Lookup(m, k).Some? <==> k in Keys(m)
  {
    if m != [] {
      LookupKeys(m[1..], k);
      assert Keys(m) == {m[0].key} + Keys(m[1..]);
    }
  }

  /** The bound keeps a key exactly while fewer than `cap` items follow it. */
  lemma {:induction false} LookupLast<K, V>(m: seq<Item<K, V>>, cap: nat, k: K)
    requires KeysOnce(m)
    ensures Lookup(Last(m, cap), k) == if Lookup(m, k).Some? && |After(m, k)| < cap then Lookup(m, k) else None
  {
    LookupKeys(m, k);
    if |m| <= cap {
      if Lookup(m, k).Some? { AfterShorter(m, k); }
    } else {
      var rest := m[1..];
      LookupLast(rest, cap, k);
      assert Last(m, cap) == Last(rest, cap);
      LookupKeys(rest, k);
    }
  }

  lemma {:induction false} AfterShorter<K, V>(m: seq<Item<K, V>>, k: K)
    requires k in Keys(m)
    ensures |After(m, k)| < |m|
  {
    if m[0].key != k {
      assert Keys(m) == {m[0].key} + Keys(m[1..]);
      AfterShorter(m[1..], k);
    }
  }

  lemma {:induction false} LookupAppend<K, V>(m: seq<Item<K, V>>, x: Item<K, V>, k: K)
    ensures Lookup(m + [x], k) ==
            if Lookup(m, k).Some? then Lookup(m, k) else if x.key == k then Some(x.value) else None
    ensures Lookup(m, k).Some? ==> After(m + [x], k) == After(m, k) + [x]
    ensures Lookup(m, k).None? && x.key == k ==> After(m + [x], k) == []
  {
    if m == [] {
      assert m + [x] == [x];
    } else {
      LookupAppend(m[1..], x, k);
      assert (m + [x])[1..] == m[1..] + [x];
    }
  }

  lemma {:induction false} RemoveOther<K, V>(m: seq<Item<K, V>>, other: K, k: K)
    requires other != k
    ensures Lookup(Remove(m, other), k) == Lookup(m, k)
    ensures After(Remove(m, other), k) == Remove(After(m, k), other)
    ensures Lookup(Remove(m, k), k) == None
  {
    if m != [] { RemoveOther(m[1..], other, k); }
  }

  lemma {:induction false} RemoveGone<K, V>(m: seq<Item<K, V>>, k: K)
    ensures Lookup(Remove(m, k), k) == None
  {
    if m != [] { RemoveGone(m[1..], k); }
  }

  lemma {:induction false} AfterKeysOnce<K, V>(m: seq<Item<K, V>>, k: K)
    requires KeysOnce(m)
    ensures KeysOnce(After(m, k))
  {
    if m != [] && m[0].key != k { AfterKeysOnce(m[1..], k); }
  }

  lemma {:induction false} KeysSize<K, V>(m: seq<Item<K, V>>)
    requires KeysOnce(m)
    ensures |Keys(m)| == |m|
  {
    if m != [] {
      KeysSize(m[1..]);
      assert Keys(m) == {m[0].key} + Keys(m[1..]);
      assert m[0].key !in Keys(m[1..]);
    }
  }

  /** The unbounded map holds each key's last use, followed by the other keys used since. */
  lemma {:induction false} FullKnows<K, V>(h: seq<Item<K, V>>, k: K)
    ensures KeysOnce(Full(h)) && Lookup(Full(h), k) == LastUse(h, k)
    ensures LastUse(h, k).Some? ==> Keys(After(Full(h), k)) == OthersSince(h, k)
  {
    if h != [] {
      var n := |h| - 1;
      var m, x := Full(h[..n]), h[n];
      FullKnows(h[..n], k);
      PutFacts(m, x.key, x.value);
      LookupAppend(Remove(m, x.key), Item(x.key, x.value), k);
      if x.key == k {
        RemoveGone(m, k);
      } else {
        RemoveOther(m, x.key, k);
        AfterKeysOnce(m, k);
        RemoveFacts(After(m, k), x.key);
        KeysAppend(Remove(After(m, k), x.key), Item(x.key, x.value));
      }
    }
  }

  lemma KeysAppend<K, V>(m: seq<Item<K, V>>, x: Item<K, V>)
    ensures Keys(m + [x]) == Keys(m) + {x.key}
  {
  }

  /**
    The bounded map agrees with the unbounded one on a key exactly until `cap` other keys have been used
    since; it then has forgotten it.
   */
  lemma BoundedKnows<K, V>(h: seq<Item<K, V>>, cap: nat, k: K)
    ensures |Bounded(h, cap)| <= cap
    ensures Lookup(Bounded(h, cap), k) ==
            if LastUse(h, k).Some? && |OthersSince(h, k)| < cap then LastUse(h, k) else None
  {
    BoundedIsLast(h, cap);
    FullKnows(h, k);
    LookupLast(Full(h), cap, k);
    AfterKeysOnce(Full(h), k);
    KeysSize(After(Full(h), k));
  }
}
