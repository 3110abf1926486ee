/**
  The entry record shared by every storage provider, its page order, and the algebra of
  "the newest k entries" that all early-stopping reads are proved against.
 */
module Entries {
  datatype Option<+T> = None | Some(value: T)

  /** A captured entry. `at` is `createdAt` in epoch milliseconds, `content` its JSON text. */
  datatype Entry = Entry(
    id: string, at: int, kind: string, batchId: string,
    family: Option<string>, traceId: Option<string>,
    tags: seq<string>, sequence: int, content: Option<string>)

  /** A keyset position: what a decoded cursor holds. */
  datatype Position = Position(at: int, id: string)

  // ---------------------------------------------------------------- string order

  /** The lexicographic order of the `<` operator on strings. */
  predicate Less(a: string, b: string) {
    |b| > 0 && (|a| == 0 || a[0] < b[0] || (a[0] == b[0] && Less(a[1..], b[1..])))
  }

  lemma {:induction false} LessTransitive(a: string, b: string, c: string)
    requires Less(a, b) && Less(b, c)
    ensures Less(a, c)
  {
    if |a| > 0 && a[0] == b[0] && b[0] == c[0] {
      LessTransitive(a[1..], b[1..], c[1..]);
    }
  }

  /** Exactly one of `a < b`, `a == b`, `b < a` holds. */
  lemma {:induction false} LessTrichotomy(a: string, b: string)
    ensures Less(a, b) ==> !Less(b, a) && a != b
    ensures Less(a, b) || a == b || Less(b, a)
  {
    if |a| > 0 && |b| > 0 && a[0] == b[0] {
      LessTrichotomy(a[1..], b[1..]);
      if a[1..] == b[1..] {
        assert a == [a[0]] + a[1..] && b == [b[0]] + b[1..];
      }
    }
  }

  // ---------------------------------------------------------------- page order

  /** `a` sorts strictly before `b` in a page: later `createdAt`, ties by id descending. */
  predicate Newer(a: Entry, b: Entry) {
    a.at > b.at || (a.at == b.at && Less(b.id, a.id))
  }

  predicate Behind(e: Entry, p: Position) {
    e.at < p.at || (e.at == p.at && Less(e.id, p.id))
  }

  function PositionOf(e: Entry): Position { Position(e.at, e.id) }

  /** The comparator is a strict order, total on entries with different positions. */
  lemma NewerOrder(a: Entry, b: Entry, c: Entry)
    ensures Newer(a, b) ==> !Newer(b, a) && PositionOf(a) != PositionOf(b)
    ensures Newer(a, b) && Newer(b, c) ==> Newer(a, c)
    ensures Newer(a, b) || PositionOf(a) == PositionOf(b) || Newer(b, a)
    ensures !Newer(b, a) && !Newer(c, b) ==> !Newer(c, a)
    ensures Behind(a, PositionOf(b)) <==> Newer(b, a)
  {
    LessTrichotomy(a.id, b.id);
    LessTrichotomy(b.id, c.id);
    LessTrichotomy(a.id, c.id);
    if Less(a.id, b.id) && Less(b.id, c.id) { LessTransitive(a.id, b.id, c.id); }
    if Less(c.id, b.id) && Less(b.id, a.id) { LessTransitive(c.id, b.id, a.id); }
    if Less(a.id, c.id) && Less(c.id, b.id) { LessTransitive(a.id, c.id, b.id); }
    if Less(b.id, c.id) && Less(c.id, a.id) { LessTransitive(b.id, c.id, a.id); }
    if Less(b.id, a.id) && Less(a.id, c.id) { LessTransitive(b.id, a.id, c.id); }
    if Less(c.id, a.id) && Less(a.id, b.id) { LessTransitive(c.id, a.id, b.id); }
  }

  lemma NewerIrreflexive(a: Entry)
    ensures !Newer(a, a)
  {
    NewerOrder(a, a, a);
  }

  lemma NewerTransitive(a: Entry, b: Entry, c: Entry)
    requires Newer(a, b) && Newer(b, c)
    ensures Newer(a, c)
  {
    NewerOrder(a, b, c);
  }

  /** Every copy of an id is the same entry. */
  ghost predicate Agree(u: set<Entry>) {
    forall a, b :: a in u && b in u && a.id == b.id ==> a == b
  }

  function Elems<T>(s: seq<T>): set<T> { set x | x in s }

  ghost predicate Distinct<T>(s: seq<T>) { forall i, j :: 0 <= i < j < |s| ==> s[i] != s[j] }

  ghost predicate Descending(s: seq<Entry>) {
    forall i, j :: 0 <= i < j < |s| ==> Newer(s[i], s[j])
  }

  // ---------------------------------------------------------------- sorting a set

  ghost predicate IsNewest(m: Entry, u: set<Entry>) {
    m in u && forall x :: x in u && x != m ==> Newer(m, x)
  }

  lemma {:induction false} NewestExists(u: set<Entry>)
    requires Agree(u) && u != {}
    ensures exists m :: IsNewest(m, u)
  {
    var m :| m in u;
    var rest := u - {m};
    assert u == rest + {m};
    if rest == {} {
      assert IsNewest(m, u);
    } else {
      NewestExists(rest);
      var n :| IsNewest(n, rest);
      assert n.id != m.id;
      NewerOrder(n, m, m);
      if Newer(n, m) {
        assert IsNewest(n, u);
      } else {
        forall x | x in rest ensures Newer(m, x) { NewerOrder(m, n, x); }
        assert IsNewest(m, u);
      }
    }
  }

  /** The entries of `u`, newest first: the oracle every paged read is compared with. */
  ghost function NewestFirst(u: set<Entry>): (s: seq<Entry>)
    requires Agree(u)
    ensures Descending(s) && Elems(s) == u && |s| == |u|
  {
    if u == {} then [] else
      var m := Newest(u);
      var rest := NewestFirst(u - {m});
      NewestThenRest(m, rest, u);
      [m] + rest
  }

  lemma NewestThenRest(m: Entry, rest: seq<Entry>, u: set<Entry>)
    requires IsNewest(m, u) && Descending(rest) && Elems(rest) == u - {m}
    ensures Descending([m] + rest) && Elems([m] + rest) == u
  {
    var s := [m] + rest;
    forall i, j | 0 <= i < j < |s| ensures Newer(s[i], s[j]) {
      assert s[j] == rest[j - 1] && s[j] in Elems(rest);
      if i > 0 { assert s[i] == rest[i - 1]; }
    }
    forall x ensures x in Elems(s) <==> x in u {
      assert x in s <==> x == m || x in rest;
      assert x in rest <==> x in Elems(rest);
    }
  }

  ghost function Newest(u: set<Entry>): (m: Entry)
    requires Agree(u) && u != {}
    ensures IsNewest(m, u)
  {
    NewestExists(u);
    var m :| IsNewest(m, u);
    m
  }

  /** "Sort everything newest first and take `k`." */
  ghost function TopK(u: set<Entry>, k: nat): (s: seq<Entry>)
    requires Agree(u)
    ensures |s| == if |u| <= k then |u| else k
    ensures Descending(s) && Elems(s) <= u
  {
    var s := NewestFirst(u);
    if |s| <= k then s else s[..k]
  }

  /** A strictly descending listing of a set is unique. */
  lemma {:induction false} DescendingUnique(s: seq<Entry>, t: seq<Entry>)
    requires Descending(s) && Descending(t) && Elems(s) == Elems(t)
    ensures s == t
  {
    DescendingSize(s);
    DescendingSize(t);
    if s != [] {
      assert s[0] in Elems(t) && (t != [] ==> t[0] in Elems(s));
      if s[0] != t[0] {
        NewerOrder(s[0], t[0], s[0]);
        assert false;
      }
      forall x ensures x in s[1..] <==> x in t[1..] {
        NewerIrreflexive(s[0]);
        assert x in s[1..] ==> x in Elems(t);
        assert x in t[1..] ==> x in Elems(s);
      }
      assert Elems(s[1..]) == Elems(t[1..]);
      DescendingUnique(s[1..], t[1..]);
      assert s == [s[0]] + s[1..] && t == [t[0]] + t[1..];
    }
  }

  // ---------------------------------------------------------------- covering

  ghost function NewerIn(s: set<Entry>, e: Entry): set<Entry> { set x | x in s && Newer(x, e) }

  /** `s` is part of `u` and whatever it lacks is older than `k` of its own entries. */
  ghost predicate Covers(s: set<Entry>, u: set<Entry>, k: nat) {
    s <= u && forall e :: e in u && e !in s ==> |NewerIn(s, e)| >= k
  }

  lemma SubsetSize<T>(a: set<T>, b: set<T>)
    requires a <= b
    ensures |a| <= |b|
  {
    assert b == a + (b - a);
  }

  lemma {:induction false} DistinctSize<T>(s: seq<T>)
    requires Distinct(s)
    ensures |Elems(s)| == |s|
  {
    if s != [] {
      DistinctSize(s[1..]);
      assert Elems(s) == {s[0]} + Elems(s[1..]);
    }
  }

  lemma DescendingSize(s: seq<Entry>)
    requires Descending(s)
    ensures |Elems(s)| == |s|
  {
    forall i, j | 0 <= i < j < |s| ensures s[i] != s[j] { NewerIrreflexive(s[i]); }
    DistinctSize(s);
  }

  lemma DescendingIndex(s: seq<Entry>, i: nat, j: nat)
    requires Descending(s) && i < |s| && j < |s|
    ensures Newer(s[i], s[j]) <==> i < j
  {
    NewerIrreflexive(s[i]);
    if j < i { NewerOrder(s[i], s[j], s[i]); }
  }

  /** An entry's index in the sorted listing is the number of entries newer than it. */
  lemma Rank(u: set<Entry>, i: nat)
    requires Agree(u) && i < |u|
    ensures |NewerIn(u, NewestFirst(u)[i])| == i
  {
    var all := NewestFirst(u);
    forall x ensures x in NewerIn(u, all[i]) <==> x in Elems(all[..i]) {
      if x in u {
        var j :| 0 <= j < |all| && all[j] == x;
        DescendingIndex(all, j, i);
        if j < i { assert all[..i][j] == x; }
      }
      if x in Elems(all[..i]) {
        var j :| 0 <= j < i && all[..i][j] == x;
        DescendingIndex(all, j, i);
      }
    }
    assert NewerIn(u, all[i]) == Elems(all[..i]);
    DescendingSize(all[..i]);
  }

  /** The newest `k` are exactly the entries with fewer than `k` newer ones. */
  lemma TopKByRank(u: set<Entry>, k: nat, e: Entry)
    requires Agree(u)
    ensures e in TopK(u, k) <==> e in u && |NewerIn(u, e)| < k
  {
    var all, top := NewestFirst(u), TopK(u, k);
    if e in u {
      assert e in Elems(all);
      var i :| 0 <= i < |all| && all[i] == e;
      Rank(u, i);
      InPrefix(all, |top|, i);
    } else {
      assert e !in Elems(top);
    }
  }

  lemma InPrefix(all: seq<Entry>, n: nat, i: nat)
    requires Descending(all) && i < |all| && n <= |all|
    ensures all[i] in all[..n] <==> i < n
  {
    if i < n { assert all[..n][i] == all[i]; }
    if all[i] in all[..n] {
      var j :| 0 <= j < n && all[..n][j] == all[i];
      DescendingIndex(all, i, j);
      DescendingIndex(all, j, i);
    }
  }

  /** The newest `k` of a covering set are the newest `k` of the whole. */
  lemma CoversTopK(s: set<Entry>, u: set<Entry>, k: nat)
    requires Agree(u) && Covers(s, u, k)
    ensures Agree(s) && TopK(s, k) == TopK(u, k)
    ensures |s| >= k || s == u
  {
    forall e ensures e in TopK(s, k) <==> e in TopK(u, k) {
      TopKByRank(s, k, e);
      TopKByRank(u, k, e);
      SubsetSize(NewerIn(s, e), NewerIn(u, e));
      if e in s && |NewerIn(s, e)| < k && |NewerIn(u, e)| >= k {
        assert NewerIn(u, e) != NewerIn(s, e);
        var y :| y in NewerIn(u, e) && y !in s;
        forall x | x in NewerIn(s, y) ensures x in NewerIn(s, e) { NewerTransitive(x, y, e); }
        SubsetSize(NewerIn(s, y), NewerIn(s, e));
      }
    }
    DescendingUnique(TopK(s, k), TopK(u, k));
    if e :| e in u && e !in s { SubsetSize(NewerIn(s, e), s); }
  }


  lemma CoversUnion(s: set<Entry>, u: set<Entry>, t: set<Entry>, v: set<Entry>, k: nat)
    requires Covers(s, u, k) && Covers(t, v, k)
    ensures Covers(s + t, u + v, k)
  {
    forall e | e in u + v && e !in s + t ensures |NewerIn(s + t, e)| >= k {
      SubsetSize(NewerIn(s, e), NewerIn(s + t, e));
      SubsetSize(NewerIn(t, e), NewerIn(s + t, e));
    }
  }

  /** Taking the newest `k` keeps a cover. */
  lemma TopKCovers(u: set<Entry>, k: nat)
    requires Agree(u)
    ensures Covers(Elems(TopK(u, k)), u, k)
  {
    var all, top := NewestFirst(u), TopK(u, k);
    assert top == all[..|top|];
    DescendingSize(top);
    forall e | e in u && e !in Elems(top) ensures |NewerIn(Elems(top), e)| >= k {
      assert e in Elems(all);
      PrefixIsNewer(all, |top|, e);
      assert NewerIn(Elems(top), e) == Elems(top);
    }
  }

  lemma PrefixIsNewer(all: seq<Entry>, p: nat, e: Entry)
    requires Descending(all) && p <= |all| && e in all && e !in all[..p]
    ensures p < |all| && forall x :: x in all[..p] ==> Newer(x, e)
  {
    var n :| 0 <= n < |all| && all[n] == e;
    assert forall m :: 0 <= m < p ==> all[..p][m] == all[m] && all[m] in all[..p];
    forall x | x in all[..p] ensures Newer(x, e) {
      var i :| 0 <= i < p && all[..p][i] == x;
      assert all[i] == x;
    }
  }

  /** `k` entries that are all newer than the rest cover it. */
  lemma CoversOlder(s: set<Entry>, u: set<Entry>, k: nat)
    requires s <= u && |s| >= k
    requires forall e, x :: e in u && e !in s && x in s ==> Newer(x, e)
    ensures Covers(s, u, k)
  {
    forall e | e in u && e !in s ensures |NewerIn(s, e)| >= k {
      assert NewerIn(s, e) == s;
    }
  }

  /** A part has the newest `k` of the whole if and only if it holds them. */
  lemma PartTopK(part: set<Entry>, whole: set<Entry>, k: nat)
    requires part <= whole && Agree(whole)
    ensures Agree(part)
    ensures TopK(part, k) == TopK(whole, k) <==> Elems(TopK(whole, k)) <= part
  {
    if Elems(TopK(whole, k)) <= part {
      TopKCovers(whole, k);
      forall e | e in whole && e !in part ensures |NewerIn(part, e)| >= k {
        SubsetSize(NewerIn(Elems(TopK(whole, k)), e), NewerIn(part, e));
      }
      CoversTopK(part, whole, k);
    }
  }
}
