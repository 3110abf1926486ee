/**
  Sorting, truncating and deduplicating lists of entries, duplicates included: the list
  operations (`sort`, `slice`, `dedupe`) the cold reads are written with.
 */
module Pages {
  import opened Entries

  /** A page of a query's answer, and the cursor of the next one when there is more. */
  datatype Page = Page(data: seq<Entry>, next: Option<Position>)

  ghost predicate Sorted(s: seq<Entry>) {
    forall i, j :: 0 <= i < j < |s| ==> !Newer(s[j], s[i])
  }

  function Insert(e: Entry, s: seq<Entry>): (r: seq<Entry>)
    ensures multiset(r) == multiset(s) + multiset{e}
  {
    if s == [] || !Newer(s[0], e) then [e] + s
    else
      assert s == [s[0]] + s[1..];
      [s[0]] + Insert(e, s[1..])
  }

  /** `sort(newestFirst)`: a stable sort of the list. */
  function SortNewest(s: seq<Entry>): (r: seq<Entry>)
    ensures multiset(r) == multiset(s) && |r| == |s|
  {
    if s == [] then [] else
      assert s == [s[0]] + s[1..];
      var r := Insert(s[0], SortNewest(s[1..]));
      assert |multiset(r)| == |multiset(s)|;
      r
  }

  /** `slice(0, limit)`, or the whole list without a limit. */
  function Take(s: seq<Entry>, limit: Option<nat>): seq<Entry> {
    if limit.None? || |s| <= limit.value then s else s[..limit.value]
  }

  function Ids(s: seq<Entry>): set<string> { set x | x in s :: x.id }

  /** `dedupe`: the first occurrence of each id. */
  function Dedupe(s: seq<Entry>): (r: seq<Entry>)
    ensures forall x :: x in r ==> x in s
    ensures Ids(r) == Ids(s)
    ensures forall i, j :: 0 <= i < j < |r| ==> r[i].id != r[j].id
  {
    if s == [] then [] else
      var n := |s| - 1;
      var r := Dedupe(s[..n]);
      assert s == s[..n] + [s[n]];
      assert Ids(s) == Ids(s[..n]) + {s[n].id};
      if s[n].id in Ids(r) then r
      else
        assert Ids(r + [s[n]]) == Ids(r) + {s[n].id};
        assert forall x :: x in r ==> x.id in Ids(r);
        r + [s[n]]
  }

  // ---------------------------------------------------------------- sorting

  lemma {:induction false} InsertSorted(e: Entry, s: seq<Entry>)
    requires Sorted(s)
    ensures Sorted(Insert(e, s))
  {
    if s == [] {
    } else if !Newer(s[0], e) {
      forall j | 0 <= j < |s| ensures !Newer(s[j], e) { NewerOrder(e, s[0], s[j]); }
    } else {
      InsertSorted(e, s[1..]);
      var t := Insert(e, s[1..]);
      forall j | 0 <= j < |t| ensures !Newer(t[j], s[0]) {
        assert t[j] in multiset(s[1..]) + multiset{e};
        NewerOrder(s[0], t[j], s[0]);
      }
    }
  }

  lemma {:induction false} SortNewestSorted(s: seq<Entry>)
    ensures Sorted(SortNewest(s))
  {
    if s != [] {
      SortNewestSorted(s[1..]);
      InsertSorted(s[0], SortNewest(s[1..]));
    }
  }

  lemma SameElems(s: seq<Entry>, t: seq<Entry>)
    requires multiset(s) == multiset(t)
    ensures Elems(s) == Elems(t) && |s| == |t|
  {
    forall x ensures x in s <==> x in t {
      assert x in s <==> x in multiset(s);
      assert x in t <==> x in multiset(t);
    }
    assert |multiset(s)| == |multiset(t)|;
  }

  lemma SortedFirst(s: seq<Entry>, t: seq<Entry>)
    requires Sorted(s) && Sorted(t) && Elems(s) == Elems(t) && Agree(Elems(s)) && s != [] && t != []
    ensures s[0] == t[0]
  {
    assert s[0] in Elems(t) && t[0] in Elems(s);
    var i :| 0 <= i < |t| && t[i] == s[0];
    var j :| 0 <= j < |s| && s[j] == t[0];
    assert !Newer(t[i], t[0]) || i == 0;
    assert !Newer(s[j], s[0]) || j == 0;
    NewerOrder(s[0], t[0], s[0]);
  }

  /** With agreeing copies a sorted arrangement is unique, repeated entries included. */
  lemma {:induction false} SortedUnique(s: seq<Entry>, t: seq<Entry>)
    requires Sorted(s) && Sorted(t) && multiset(s) == multiset(t) && Agree(Elems(s))
    ensures s == t
  {
    SameElems(s, t);
    if s != [] {
      SortedFirst(s, t);
      assert s == [s[0]] + s[1..] && t == [t[0]] + t[1..];
      assert multiset(s[1..]) == multiset(s) - multiset{s[0]};
      assert multiset(t[1..]) == multiset(t) - multiset{t[0]};
      assert Elems(s[1..]) <= Elems(s);
      SortedUnique(s[1..], t[1..]);
    }
  }

  // ---------------------------------------------------------------- sort, then take

  /** What `sort(newestFirst)` followed by `slice(0, limit)` leaves of `s`. */
  function Top(s: seq<Entry>, limit: Option<nat>): seq<Entry> { Take(SortNewest(s), limit) }

  /** `p` is a newest-`limit` part of `s`, with `r` left over. */
  ghost predicate IsTop(p: seq<Entry>, r: seq<Entry>, s: seq<Entry>, limit: Option<nat>) {
    && Sorted(p)
    && multiset(p) + multiset(r) == multiset(s)
    && (forall x, y :: x in p && y in r ==> !Newer(y, x))
    && (r == [] || (limit.Some? && |p| == limit.value))
    && (limit.Some? ==> |p| <= limit.value)
  }

  lemma TopIsTop(s: seq<Entry>, limit: Option<nat>) returns (r: seq<Entry>)
    ensures IsTop(Top(s, limit), r, s, limit)
  {
    var all, p := SortNewest(s), Top(s, limit);
    SortNewestSorted(s);
    r := all[|p|..];
    assert all == p + r;
    forall x, y | x in p && y in r ensures !Newer(y, x) {
      var i :| 0 <= i < |p| && p[i] == x;
      var j :| 0 <= j < |r| && r[j] == y;
      assert all[i] == x && all[|p| + j] == y;
    }
  }

  lemma IsTopIsUnique(p: seq<Entry>, r: seq<Entry>, s: seq<Entry>, limit: Option<nat>)
    requires IsTop(p, r, s, limit) && Agree(Elems(s))
    ensures p == Top(s, limit)
  {
    var r' := SortNewest(r);
    SortNewestSorted(s);
    SortNewestSorted(r);
    SameElems(r, r');
    assert forall y :: y in r' ==> y in Elems(r);
    SortedConcat(p, r');
    assert multiset(p + r') == multiset(p) + multiset(r');
    SameElems(p + r', s);
    SortedUnique(p + r', SortNewest(s));
    assert (p + r')[..|p|] == p;
    assert r == [] ==> p + r' == p;
  }

  lemma SortedConcat(p: seq<Entry>, r: seq<Entry>)
    requires Sorted(p) && Sorted(r) && forall x, y :: x in p && y in r ==> !Newer(y, x)
    ensures Sorted(p + r)
  {
    var t := p + r;
    forall i, j | 0 <= i < j < |t| ensures !Newer(t[j], t[i]) {
      if i < |p| <= j { assert t[i] in p && t[j] in r; }
    }
  }

  /** If `q` keeps everything of `p` and something else, it is longer than `p`. */
  lemma KeepsAll(p: seq<Entry>, t: seq<Entry>, q: seq<Entry>, r: seq<Entry>, x: Entry)
    requires multiset(q) + multiset(r) == multiset(p) + multiset(t)
    requires x in q && x !in p && forall z :: z in p ==> z !in r
    ensures |q| > |p|
  {
    assert x in multiset(q) && x !in multiset(p);
    forall z ensures (multiset(p) + multiset{x})[z] <= multiset(q)[z] {
      assert (multiset(q) + multiset(r))[z] == multiset(p)[z] + multiset(t)[z];
      if z in multiset(p) { assert z in p && z !in r && z !in multiset(r); }
    }
    assert multiset(q) == (multiset(p) + multiset{x}) + (multiset(q) - (multiset(p) + multiset{x}));
    assert |multiset(q)| == |q| && |multiset(p)| == |p|;
  }

  /** Truncating a prefix of the input early changes nothing. */
  lemma TopAbsorbs(s: seq<Entry>, t: seq<Entry>, limit: Option<nat>)
    requires Agree(Elems(s + t))
    ensures Top(Top(s, limit) + t, limit) == Top(s + t, limit)
  {
    var r := TopIsTop(s, limit);
    var p := Top(s, limit);
    var r2 := TopIsTop(p + t, limit);
    var q := Top(p + t, limit);
    forall x, y | x in q && y in r ensures !Newer(y, x) {
      if Newer(y, x) {
        // All of `p` is then newer than `x`, so `q` has no room left for `x`.
        forall z | z in p ensures Newer(z, x) && z !in r2 {
          NewerOrder(z, y, x);
          assert z in r2 ==> !Newer(z, x);
        }
        assert x !in p by { NewerIrreflexive(x); }
        assert multiset(p + t) == multiset(p) + multiset(t);
        KeepsAll(p, t, q, r2, x);
      }
    }
    AbsorbedIsTop(s, t, p, r, q, r2, limit);
    IsTopIsUnique(q, r + r2, s + t, limit);
  }

  lemma AbsorbedIsTop(s: seq<Entry>, t: seq<Entry>, p: seq<Entry>, r: seq<Entry>, q: seq<Entry>,
                      r2: seq<Entry>, limit: Option<nat>)
    requires IsTop(p, r, s, limit) && IsTop(q, r2, p + t, limit)
    requires forall x, y :: x in q && y in r ==> !Newer(y, x)
    ensures IsTop(q, r + r2, s + t, limit)
  {
    assert multiset(p + t) == multiset(p) + multiset(t);
    assert multiset(s + t) == multiset(s) + multiset(t);
    assert multiset(r + r2) == multiset(r) + multiset(r2);
    assert (multiset(q) + multiset(r2)) + multiset(r) == (multiset(p) + multiset(r)) + multiset(t);
    assert multiset(q) + multiset(r + r2) == multiset(s + t);
    assert |multiset(q)| == |q| && |multiset(p + t)| == |p| + |t|;
    if r2 == [] { assert multiset(r2) == multiset{}; }
  }

  /** Entries older than the last of `limit` kept ones change nothing. */
  lemma TopSettled(s: seq<Entry>, t: seq<Entry>, limit: nat)
    requires |Top(s, Some(limit))| == limit > 0
    requires forall y :: y in t ==> y.at < Top(s, Some(limit))[limit - 1].at
    requires Agree(Elems(s + t))
    ensures Top(s + t, Some(limit)) == Top(s, Some(limit))
  {
    var p := Top(s, Some(limit));
    var r := TopIsTop(s, Some(limit));
    SettledIsTop(p, r, s, t, limit);
    IsTopIsUnique(p, r + t, s + t, Some(limit));
  }

  lemma SettledIsTop(p: seq<Entry>, r: seq<Entry>, s: seq<Entry>, t: seq<Entry>, limit: nat)
    requires IsTop(p, r, s, Some(limit)) && |p| == limit > 0
    requires forall y :: y in t ==> y.at < p[limit - 1].at
    ensures IsTop(p, r + t, s + t, Some(limit))
  {
    forall x, y | x in p && y in t ensures !Newer(y, x) {
      var i :| 0 <= i < |p| && p[i] == x;
      assert i < limit - 1 ==> !Newer(p[limit - 1], p[i]);
    }
    assert forall y :: y in r + t ==> y in r || y in t;
    assert multiset(s + t) == multiset(s) + multiset(t);
    assert multiset(r + t) == multiset(r) + multiset(t);
  }

  /** Two lists with the same newest `limit` keep it when both are extended. */
  lemma TopExtends(s: seq<Entry>, s2: seq<Entry>, t: seq<Entry>, limit: Option<nat>)
    requires Top(s, limit) == Top(s2, limit) && Agree(Elems(s + t)) && Agree(Elems(s2 + t))
    ensures Top(s + t, limit) == Top(s2 + t, limit)
  {
    TopAbsorbs(s, t, limit);
    TopAbsorbs(s2, t, limit);
  }

  /** Sorting and truncating twice is the same as once. */
  lemma TopIdempotent(s: seq<Entry>, limit: Option<nat>)
    requires Agree(Elems(s))
    ensures Top(Top(s, limit), limit) == Top(s, limit)
    ensures forall x :: x in Top(s, limit) ==> x in s
  {
    assert s + [] == s && Top(s, limit) + [] == Top(s, limit);
    TopAbsorbs(s, [], limit);
    SameElems(s, SortNewest(s));
    forall x | x in Top(s, limit) ensures x in s {
      assert x in Elems(SortNewest(s)) && x in Elems(s);
    }
  }

  /** The order the input is read in does not matter. */
  lemma TopPermutation(s: seq<Entry>, t: seq<Entry>, limit: Option<nat>)
    requires multiset(s) == multiset(t) && Agree(Elems(s))
    ensures Top(s, limit) == Top(t, limit)
  {
    SortNewestSorted(s);
    SortNewestSorted(t);
    SameElems(s, SortNewest(s));
    SortedUnique(SortNewest(s), SortNewest(t));
  }

  // ---------------------------------------------------------------- lists without repeats

  lemma SortedDescending(s: seq<Entry>)
    requires Sorted(s) && Agree(Elems(s)) && Distinct(s)
    ensures Descending(s)
  {
    forall i, j | 0 <= i < j < |s| ensures Newer(s[i], s[j]) {
      NewerOrder(s[i], s[j], s[i]);
      assert s[i] in Elems(s) && s[j] in Elems(s);
    }
  }

  lemma {:induction false} DistinctByMultiset(s: seq<Entry>, t: seq<Entry>)
    requires multiset(s) == multiset(t) && Distinct(s)
    ensures Distinct(t)
  {
    DistinctSize(s);
    SameElems(s, t);
    forall i, j | 0 <= i < j < |t| ensures t[i] != t[j] {
      if t[i] == t[j] {
        var u := t[..j] + t[j + 1..];
        assert t == t[..j] + [t[j]] + t[j + 1..];
        assert u[i] == t[i];
        forall x | x in t ensures x in u {
          var n :| 0 <= n < |t| && t[n] == x;
          assert n < j ==> u[n] == x;
          assert n > j ==> u[n - 1] == x;
        }
        assert Elems(u) == Elems(t);
        ElemsSize(u);
      }
    }
  }

  lemma {:induction false} ElemsSize<T>(s: seq<T>)
    ensures |Elems(s)| <= |s|
  {
    if s != [] {
      ElemsSize(s[1..]);
      assert Elems(s) == {s[0]} + Elems(s[1..]);
    }
  }

  /** On a list without repeats, sort-then-take is the newest `limit` of its set. */
  lemma TopOfDistinct(s: seq<Entry>, limit: nat)
    requires Agree(Elems(s)) && Distinct(s)
    ensures Top(s, Some(limit)) == TopK(Elems(s), limit)
    ensures SortNewest(s) == NewestFirst(Elems(s))
  {
    SortNewestSorted(s);
    SameElems(s, SortNewest(s));
    DistinctByMultiset(s, SortNewest(s));
    SortedIsNewestFirst(SortNewest(s), Elems(s));
  }

  lemma SortedIsNewestFirst(all: seq<Entry>, u: set<Entry>)
    requires Sorted(all) && Elems(all) == u && Agree(u) && Distinct(all)
    ensures all == NewestFirst(u)
  {
    SortedDescending(all);
    DescendingUnique(all, NewestFirst(u));
  }

  /** Deduplicating keeps the set, and leaves no repeats. */
  lemma DedupeElems(s: seq<Entry>)
    requires Agree(Elems(s))
    ensures Elems(Dedupe(s)) == Elems(s)
    ensures Distinct(Dedupe(s))
  {
    var d := Dedupe(s);
    forall x ensures x in d <==> x in s {
      if x in s {
        assert x.id in Ids(s);
        var y :| y in d && y.id == x.id;
        assert y in Elems(s) && x in Elems(s);
      }
    }
  }

  // ---------------------------------------------------------------- counting rows

  /** How many rows, repeats counted, sort strictly before an entry. */
  function RowsNewer(rows: seq<Entry>, e: Entry): nat {
    if rows == [] then 0 else RowsNewer(rows[1..], e) + (if Newer(rows[0], e) then 1 else 0)
  }

  lemma {:induction false} InsertCount(x: Entry, s: seq<Entry>, e: Entry)
    ensures RowsNewer(Insert(x, s), e) == RowsNewer(s, e) + (if Newer(x, e) then 1 else 0)
  {
    if s != [] && Newer(s[0], x) { InsertCount(x, s[1..], e); }
  }

  lemma {:induction false} SortCount(s: seq<Entry>, e: Entry)
    ensures RowsNewer(SortNewest(s), e) == RowsNewer(s, e)
  {
    if s != [] {
      SortCount(s[1..], e);
      InsertCount(s[0], SortNewest(s[1..]), e);
    }
  }

  lemma {:induction false} NoneNewer(s: seq<Entry>, e: Entry)
    requires forall x :: x in s ==> !Newer(x, e)
    ensures RowsNewer(s, e) == 0
  {
    if s != [] { NoneNewer(s[1..], e); }
  }

  /** In a sorted list the first copy of an entry stands right behind the rows newer than it. */
  lemma {:induction false} FirstCopy(s: seq<Entry>, e: Entry)
    requires Sorted(s) && Agree(Elems(s)) && e in s
    ensures var p := RowsNewer(s, e); p < |s| && s[p] == e && forall i :: 0 <= i < p ==> s[i] != e
  {
    var n :| 0 <= n < |s| && s[n] == e;
    if Newer(s[0], e) {
      NewerIrreflexive(e);
      assert s[1..][n - 1] == e;
      assert Elems(s[1..]) <= Elems(s);
      FirstCopy(s[1..], e);
      var p := RowsNewer(s[1..], e);
      forall i | 0 <= i < p + 1 ensures s[i] != e {
        if i > 0 { assert s[i] == s[1..][i - 1]; }
      }
    } else {
      NewerIrreflexive(e);
      assert !Newer(e, s[0]);
      NewerOrder(e, s[0], e);
      assert s[0] in Elems(s) && e in Elems(s);
      NoneNewer(s, e);
    }
  }

  lemma FirstCopyTaken(all: seq<Entry>, n: nat, p: nat, e: Entry)
    requires n <= |all| && p < |all| && all[p] == e && forall i :: 0 <= i < p ==> all[i] != e
    ensures e in all[..n] <==> p < n
  {
    if p < n { assert all[..n][p] == e; }
  }

  /** Sort-then-take keeps a row exactly when fewer than `limit` rows are newer, repeats counted. */
  lemma TopMember(s: seq<Entry>, limit: nat, e: Entry)
    requires Agree(Elems(s))
    ensures e in Top(s, Some(limit)) <==> e in s && RowsNewer(s, e) < limit
  {
    var all, top := SortNewest(s), Top(s, Some(limit));
    SortNewestSorted(s);
    SameElems(s, all);
    SortCount(s, e);
    TopIdempotent(s, Some(limit));
    if e in s {
      assert e in Elems(all);
      FirstCopy(all, e);
      FirstCopyTaken(all, |top|, RowsNewer(s, e), e);
    }
  }

  lemma TopMemberOf(s: seq<Entry>, limit: Option<nat>, e: Entry)
    requires Agree(Elems(s))
    ensures e in Top(s, limit) <==> e in s && (limit.Some? ==> RowsNewer(s, e) < limit.value)
  {
    if limit.Some? {
      TopMember(s, limit.value, e);
    } else {
      SameElems(s, SortNewest(s));
      assert e in s <==> e in Elems(s);
      assert e in SortNewest(s) <==> e in Elems(SortNewest(s));
    }
  }

  /** Without repeats the count is the size of a set. */
  lemma {:induction false} DistinctCount(s: seq<Entry>, e: Entry)
    requires Distinct(s)
    ensures RowsNewer(s, e) == |NewerIn(Elems(s), e)|
  {
    if s == [] {
      assert NewerIn(Elems(s), e) == {};
    } else {
      DistinctCount(s[1..], e);
      assert s[0] !in s[1..];
      ElemsCons(s);
      NewerInCons(s[0], Elems(s[1..]), e);
    }
  }

  lemma ElemsCons(s: seq<Entry>)
    requires s != []
    ensures Elems(s) == {s[0]} + Elems(s[1..]) && (s[0] in Elems(s[1..]) <==> s[0] in s[1..])
  {
    assert s == [s[0]] + s[1..];
  }

  lemma NewerInCons(x: Entry, rest: set<Entry>, e: Entry)
    requires x !in rest
    ensures |NewerIn({x} + rest, e)| == (if Newer(x, e) then 1 else 0) + |NewerIn(rest, e)|
  {
    assert NewerIn({x} + rest, e) == if Newer(x, e) then {x} + NewerIn(rest, e) else NewerIn(rest, e);
  }
}
