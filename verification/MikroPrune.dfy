/**
  The MikroORM provider's bounded prune: find-then-delete of the oldest rows of a scope, and the walk
  over types, one index seek each, for a scope that excludes some of them.
 */
module MikroPrune {
  import opened Entries

  datatype Scope = Scope(before: int, kind: Option<string>, excludeTypes: set<string>)

  /** `scopedWhere`. */
  predicate InScope(e: Entry, s: Scope) {
    && e.at < s.before
    && (if s.kind.Some? then e.kind == s.kind.value else e.kind !in s.excludeTypes)
  }

  function Scoped(rows: set<Entry>, s: Scope): set<Entry> { set e | e in rows && InScope(e, s) }

  function OlderIn(u: set<Entry>, e: Entry): set<Entry> { set x | x in u && Newer(e, x) }

  /** `ORDER BY created_at, id LIMIT k`, as a set: the rows with fewer than `k` older ones. */
  function OldestK(u: set<Entry>, k: nat): set<Entry> { set e | e in u && |OlderIn(u, e)| < k }

  ghost predicate IsOldest(m: Entry, u: set<Entry>) {
    m in u && forall x :: x in u && x != m ==> Newer(x, m)
  }

  lemma {:induction false} OldestExists(u: set<Entry>)
    requires Agree(u) && u != {}
    ensures exists m :: IsOldest(m, u)
  {
    var m :| m in u;
    var rest := u - {m};
    assert u == rest + {m};
    if rest == {} {
      assert IsOldest(m, u);
    } else {
      OldestExists(rest);
      var n :| IsOldest(n, rest);
      NewerOrder(n, m, n);
      if Newer(m, n) {
        assert IsOldest(n, u);
      } else {
        forall x | x in rest ensures Newer(x, m) { NewerOrder(x, n, m); }
        assert IsOldest(m, u);
      }
    }
  }

  lemma OldestFirst(m: Entry, u: set<Entry>, k: nat)
    requires Agree(u) && IsOldest(m, u) && k > 0
    ensures OldestK(u, k) == {m} + OldestK(u - {m}, k - 1)
  {
    forall e | e in u && e != m ensures OlderIn(u, e) == OlderIn(u - {m}, e) + {m} {
      assert Newer(e, m);
    }
    assert OlderIn(u, m) == {} by {
      forall x | x in u ensures !Newer(m, x) { NewerOrder(m, x, m); }
    }
    NewerIrreflexive(m);
  }

  /** `part` has `k` rows of `u`, or all of them; and the others are newer than each of it. */
  ghost predicate OldestPart(part: set<Entry>, u: set<Entry>, k: nat) {
    && part <= u && |part| == (if |u| <= k then |u| else k) && (|u| <= k ==> part == u)
    && forall d, e :: d in part && e in u && e !in part ==> Newer(e, d)
  }

  lemma {:induction false} OldestKFacts(u: set<Entry>, k: nat)
    requires Agree(u)
    ensures OldestPart(OldestK(u, k), u, k)
  {
    if k == 0 || u == {} {
      NoOldest(u, k);
    } else {
      var m := Oldest(u);
      OldestKFacts(u - {m}, k - 1);
      OldestKStep(m, u, u - {m}, k);
    }
  }

  ghost function Oldest(u: set<Entry>): (m: Entry)
    requires Agree(u) && u != {}
    ensures IsOldest(m, u)
  {
    OldestExists(u);
    var m :| IsOldest(m, u);
    m
  }

  lemma NoOldest(u: set<Entry>, k: nat)
    requires k == 0 || u == {}
    ensures OldestPart(OldestK(u, k), u, k)
  {
    assert OldestK(u, k) == {};
  }

  lemma OldestKStep(m: Entry, u: set<Entry>, rest: set<Entry>, k: nat)
    requires Agree(u) && IsOldest(m, u) && k > 0 && rest == u - {m}
    requires OldestPart(OldestK(rest, k - 1), rest, k - 1)
    ensures OldestPart(OldestK(u, k), u, k)
  {
    OldestFirst(m, u, k);
    AddOldest(m, u, OldestK(rest, k - 1), k);
  }

  lemma AddOldest(m: Entry, u: set<Entry>, rest: set<Entry>, k: nat)
    requires IsOldest(m, u) && k > 0 && OldestPart(rest, u - {m}, k - 1)
    ensures OldestPart({m} + rest, u, k)
  {
    assert |{m} + rest| == |rest| + 1;
    forall d, e | d in {m} + rest && e in u && e !in {m} + rest ensures Newer(e, d) {
      if d != m { assert d in rest && e in u - {m}; }
    }
  }

  // ---------------------------------------------------------------- types

  function Types(rows: set<Entry>): set<string> { set e | e in rows :: e.kind }

  predicate IsFirst(t: string, types: set<string>) {
    t in types && forall x :: x in types ==> !Less(x, t)
  }

  lemma {:induction false} FirstExists(types: set<string>)
    requires types != {}
    ensures exists t :: IsFirst(t, types)
  {
    var t :| t in types;
    var rest := types - {t};
    assert types == rest + {t};
    LessTrichotomy(t, t);
    if rest == {} {
      assert IsFirst(t, types);
    } else {
      FirstExists(rest);
      var n :| IsFirst(n, rest);
      LessTrichotomy(t, n);
      if Less(t, n) {
        forall x | x in rest ensures !Less(x, t) { if Less(x, t) { LessTransitive(x, t, n); } }
        assert IsFirst(t, types);
      } else {
        assert IsFirst(n, types);
      }
    }
  }

  ghost predicate Rising(s: seq<string>) { forall i, j :: 0 <= i < j < |s| ==> Less(s[i], s[j]) }

  /** `found` are the types up to its last one; all others come after it. */
  ghost predicate Walked(found: seq<string>, types: set<string>) {
    && Rising(found) && (forall t :: t in found ==> t in types)
    && forall t :: t in types && t !in found ==> forall f :: f in found ==> Less(f, t)
  }

  function After(types: set<string>, found: seq<string>): set<string> {
    set t | t in types && (found != [] ==> Less(found[|found| - 1], t))
  }

  lemma WalkOn(found: seq<string>, types: set<string>, next: string)
    requires Walked(found, types) && IsFirst(next, After(types, found))
    ensures Walked(found + [next], types)
    ensures After(types, found + [next]) < After(types, found)
  {
    var more := found + [next];
    forall f | f in found ensures Less(f, next) && f != next { Precedes(found, f, next); }
    forall t | t in types && t !in more ensures Less(next, t) {
      NotFoundIsLater(found, types, t);
      LessTrichotomy(next, t);
    }
    forall t | t in After(types, more) ensures t in After(types, found) {
      if found != [] { LessTransitive(found[|found| - 1], next, t); }
    }
    LessTrichotomy(next, next);
  }

  lemma Precedes(found: seq<string>, f: string, next: string)
    requires Rising(found) && f in found && Less(found[|found| - 1], next)
    ensures Less(f, next) && f != next
  {
    var i :| 0 <= i < |found| && found[i] == f;
    if i < |found| - 1 { LessTransitive(f, found[|found| - 1], next); }
    LessTrichotomy(f, next);
  }

  lemma WalkDone(found: seq<string>, types: set<string>)
    requires Walked(found, types) && After(types, found) == {}
    ensures Elems(found) == types
  {
    forall t | t in types ensures t in found {
      if t !in found { NotFoundIsLater(found, types, t); }
    }
  }

  lemma NotFoundIsLater(found: seq<string>, types: set<string>, t: string)
    requires Walked(found, types) && t in types && t !in found
    ensures t in After(types, found)
  {
  }

  // ---------------------------------------------------------------- the prune

  /** Only the oldest rows of a scope are gone, of each type that lost any. */
  ghost predicate PrunedOldest(before: set<Entry>, after: set<Entry>, s: Scope) {
    && after <= before
    && (forall d :: d in before - after ==> InScope(d, s))
    && (forall d, e :: d in before - after && e in after && e.kind == d.kind && InScope(e, s) ==> Newer(e, d))
  }

  /**
    In the rows' own terms: what is gone is older than the cutoff, of the type if one is given and of no
    excluded one otherwise; and a row left that is all this too is later than every row of its type that is
    gone, or of the same instant with the greater id.
   */
  ghost predicate OldestGone(before: set<Entry>, after: set<Entry>, s: Scope) {
    && after <= before
    && (forall d :: d in before && d !in after ==>
          d.at < s.before && if s.kind.Some? then d.kind == s.kind.value else d.kind !in s.excludeTypes)
    && (forall d, e :: d in before && d !in after && e in after && e.kind == d.kind && e.at < s.before ==>
          d.at < e.at || (d.at == e.at && Less(d.id, e.id)))
  }

  /** Nothing older than the cutoff is left of the type given, or of the types that are not excluded. */
  ghost predicate NoneOld(rows: set<Entry>, s: Scope) {
    forall e :: e in rows && e.at < s.before ==>
      if s.kind.Some? then e.kind != s.kind.value else e.kind in s.excludeTypes
  }

  lemma PrunedRows(before: set<Entry>, after: set<Entry>, s: Scope)
    requires PrunedOldest(before, after, s)
    ensures OldestGone(before, after, s) && (Scoped(after, s) == {} ==> NoneOld(after, s))
  {
    forall d | d in before && d !in after ensures InScope(d, s) { assert d in before - after; }
    forall d, e | d in before && d !in after && e in after && e.kind == d.kind && e.at < s.before
      ensures d.at < e.at || (d.at == e.at && Less(d.id, e.id))
    {
      assert d in before - after && InScope(d, s) && InScope(e, s);
      assert Newer(e, d);
    }
    if Scoped(after, s) == {} {
      forall e | e in after && e.at < s.before
        ensures if s.kind.Some? then e.kind != s.kind.value else e.kind in s.excludeTypes
      {
        assert e !in Scoped(after, s);
      }
    }
  }

  class EntryTable {
    var rows: set<Entry>

    constructor (initial: set<Entry>)
      ensures rows == initial
    {
      rows := initial;
    }

    /** One bounded batch: exactly the scope's first `limit` rows by age go, and nothing else. */
    method PruneOldestBatch(s: Scope, limit: nat) returns (deleted: nat, hasMore: bool)
      requires Agree(rows) && limit >= 1
      modifies this
      ensures rows == old(rows) - OldestK(Scoped(old(rows), s), limit)
      ensures deleted == |OldestK(Scoped(old(rows), s), limit)|
      ensures hasMore <==> deleted == limit
      ensures Agree(rows)
    {
      var doomed := OldestK(Scoped(rows, s), limit);
      if |doomed| == 0 { return 0, false; }
      rows := rows - doomed;
      return |doomed|, |doomed| == limit;
    }

    /** Every type present: the first, then repeatedly the first after the last one found. */
    method DistinctTypes() returns (types: seq<string>)
      ensures Rising(types) && Elems(types) == Types(rows)
    {
      types := [];
      var present := Types(rows);
      while true
        invariant Walked(types, present)
        decreases |After(present, types)|
      {
        var later := After(present, types);
        if later == {} {
          WalkDone(types, present);
          return;
        }
        FirstExists(later);
        var next :| IsFirst(next, later);
        WalkOn(types, present, next);
        StrictSize(After(present, types + [next]), later);
        types := types + [next];
      }
    }

    /** At most `limit` rows of the scope, the oldest of each type, and `hasMore` when the limit was met. */
    method PruneScopedBatch(s: Scope, limit: nat) returns (deleted: nat, hasMore: bool)
      requires Agree(rows) && limit >= 1
      modifies this
      ensures PrunedOldest(old(rows), rows, s)
      ensures deleted == |old(rows) - rows| <= limit
      ensures hasMore ==> deleted == limit
      ensures !hasMore ==> Scoped(rows, s) == {}
      ensures OldestGone(old(rows), rows, s) && (!hasMore ==> NoneOld(rows, s))
    {
      ghost var before := rows;
      if s.kind.Some? || s.excludeTypes == {} {
        OldestKFacts(Scoped(rows, s), limit);
        BatchPrunes(rows, s, limit);
        deleted, hasMore := PruneOldestBatch(s, limit);
      } else {
        deleted, hasMore := PruneByType(s, limit);
      }
      PrunedRows(before, rows, s);
    }

    method PruneByType(s: Scope, limit: nat) returns (deleted: nat, hasMore: bool)
      requires Agree(rows) && limit >= 1 && s.kind.None?
      modifies this
      ensures PrunedOldest(old(rows), rows, s)
      ensures deleted == |old(rows) - rows| <= limit
      ensures hasMore ==> deleted == limit
      ensures !hasMore ==> Scoped(rows, s) == {}
    {
      ghost var before := rows;
      var types := DistinctTypes();
      deleted := 0;
      for i := 0 to |types|
        invariant PrunedTypes(before, rows, s, types, i, deleted) && deleted < limit
      {
        if types[i] in s.excludeTypes {
          SkipType(before, rows, s, types, i, deleted);
          continue;
        }
        var batch, more := PruneType(s, types, i, limit - deleted, before, deleted);
        deleted := deleted + batch;
        if more { return deleted, true; }
      }
      AllTypes(before, rows, s, types, deleted);
      hasMore := false;
    }

    /** One type that is not excluded: what is left of the limit goes to its oldest rows. */
    method PruneType(s: Scope, types: seq<string>, i: nat, limit: nat, ghost before: set<Entry>, ghost deleted: nat)
      returns (batch: nat, more: bool)
      requires i < |types| && types[i] !in s.excludeTypes && limit >= 1
      requires PrunedTypes(before, rows, s, types, i, deleted)
      modifies this
      ensures batch <= limit && (more <==> batch == limit)
      ensures PrunedOldest(before, rows, s) && |before - rows| == deleted + batch
      ensures !more ==> PrunedTypes(before, rows, s, types, i + 1, deleted + batch)
    {
      ghost var mid := rows;
      batch, more := PruneOldestBatch(Scope(s.before, Some(types[i]), {}), limit);
      TypePruned(before, mid, rows, s, types, i, limit, deleted);
    }
  }

  lemma StrictSize<T>(a: set<T>, b: set<T>)
    requires a < b
    ensures |a| < |b|
  {
    assert b == a + (b - a) && b - a != {};
  }

  lemma BatchPrunes(rows: set<Entry>, s: Scope, limit: nat)
    requires Agree(rows)
    ensures PrunedOldest(rows, rows - OldestK(Scoped(rows, s), limit), s)
    ensures rows - (rows - OldestK(Scoped(rows, s), limit)) == OldestK(Scoped(rows, s), limit)
    ensures |OldestK(Scoped(rows, s), limit)| < limit ==> Scoped(rows - OldestK(Scoped(rows, s), limit), s) == {}
  {
    OldestKFacts(Scoped(rows, s), limit);
  }

  /** The first `n` types are done: nothing of them is left in scope, and later ones are untouched. */
  ghost predicate PrunedTypes(before: set<Entry>, now: set<Entry>, s: Scope, types: seq<string>, n: nat, deleted: nat) {
    && n <= |types| && Agree(before) && s.kind.None? && Rising(types) && Elems(types) == Types(before)
    && PrunedOldest(before, now, s) && deleted == |before - now|
    && (forall e :: e in now && e.kind in types[..n] ==> !InScope(e, s))
    && (forall e :: e in before && e.kind !in types[..n] ==> e in now)
  }

  lemma SkipType(before: set<Entry>, now: set<Entry>, s: Scope, types: seq<string>, i: nat, deleted: nat)
    requires PrunedTypes(before, now, s, types, i, deleted) && i < |types| && types[i] in s.excludeTypes
    ensures PrunedTypes(before, now, s, types, i + 1, deleted)
  {
    assert types[..i + 1] == types[..i] + [types[i]];
  }

  lemma TypePruned(before: set<Entry>, mid: set<Entry>, now: set<Entry>, s: Scope, types: seq<string>, i: nat,
                   limit: nat, deleted: nat)
    requires PrunedTypes(before, mid, s, types, i, deleted) && i < |types| && types[i] !in s.excludeTypes && limit > 0
    requires now == mid - OldestK(Scoped(mid, Scope(s.before, Some(types[i]), {})), limit)
    ensures var batch := |OldestK(Scoped(mid, Scope(s.before, Some(types[i]), {})), limit)|;
            && batch <= limit && PrunedOldest(before, now, s) && |before - now| == deleted + batch
            && (batch < limit ==> PrunedTypes(before, now, s, types, i + 1, deleted + batch))
  {
    var one := Scope(s.before, Some(types[i]), {});
    var doomed := OldestK(Scoped(mid, one), limit);
    Subset(before, mid);
    OldestKFacts(Scoped(mid, one), limit);
    NotYet(types, i);
    StillOldest(before, mid, s, types[i], doomed);
    GoneSize(before, mid, doomed);
    if |doomed| < limit { NextType(before, mid, doomed, s, types, i, deleted); }
  }

  lemma GoneSize(before: set<Entry>, mid: set<Entry>, doomed: set<Entry>)
    requires mid <= before && doomed <= mid
    ensures |before - (mid - doomed)| == |before - mid| + |doomed|
  {
    assert before - (mid - doomed) == (before - mid) + doomed;
  }

  lemma StillOldest(before: set<Entry>, mid: set<Entry>, s: Scope, kind: string, doomed: set<Entry>)
    requires PrunedOldest(before, mid, s) && s.kind.None? && kind !in s.excludeTypes
    requires forall e :: e in before && e.kind == kind ==> e in mid
    requires var scope := Scoped(mid, Scope(s.before, Some(kind), {}));
             doomed <= scope && forall d, e :: d in doomed && e in scope && e !in doomed ==> Newer(e, d)
    ensures PrunedOldest(before, mid - doomed, s)
  {
  }

  lemma NextType(before: set<Entry>, mid: set<Entry>, doomed: set<Entry>, s: Scope, types: seq<string>, i: nat,
                 deleted: nat)
    requires PrunedTypes(before, mid, s, types, i, deleted) && i < |types| && types[i] !in s.excludeTypes
    requires doomed == Scoped(mid, Scope(s.before, Some(types[i]), {}))
    requires PrunedOldest(before, mid - doomed, s) && |before - (mid - doomed)| == deleted + |doomed|
    ensures PrunedTypes(before, mid - doomed, s, types, i + 1, deleted + |doomed|)
  {
    NextTypeDone(mid, doomed, s, types, i);
    NextTypeKept(before, mid, doomed, s, types, i);
  }

  lemma NextTypeDone(mid: set<Entry>, doomed: set<Entry>, s: Scope, types: seq<string>, i: nat)
    requires i < |types| && s.kind.None? && doomed == Scoped(mid, Scope(s.before, Some(types[i]), {}))
    requires forall e :: e in mid && e.kind in types[..i] ==> !InScope(e, s)
    ensures forall e :: e in mid - doomed && e.kind in types[..i + 1] ==> !InScope(e, s)
  {
    forall e | e in mid - doomed && e.kind in types[..i + 1] ensures !InScope(e, s) {
      if e.kind != types[i] { assert e.kind in types[..i]; }
    }
  }

  lemma NextTypeKept(before: set<Entry>, mid: set<Entry>, doomed: set<Entry>, s: Scope, types: seq<string>, i: nat)
    requires i < |types| && doomed == Scoped(mid, Scope(s.before, Some(types[i]), {}))
    requires forall e :: e in before && e.kind !in types[..i] ==> e in mid
    ensures forall e :: e in before && e.kind !in types[..i + 1] ==> e in mid - doomed
  {
    assert types[..i + 1] == types[..i] + [types[i]];
  }

  lemma Subset(before: set<Entry>, mid: set<Entry>)
    requires Agree(before) && mid <= before
    ensures Agree(mid)
  {
  }

  lemma NotYet(types: seq<string>, i: nat)
    requires Rising(types) && i < |types|
    ensures types[i] !in types[..i]
  {
    forall j | 0 <= j < i ensures types[j] != types[i] { LessTrichotomy(types[j], types[i]); }
  }

  lemma AllTypes(before: set<Entry>, now: set<Entry>, s: Scope, types: seq<string>, deleted: nat)
    requires PrunedTypes(before, now, s, types, |types|, deleted)
    ensures Scoped(now, s) == {}
  {
    assert types[..|types|] == types;
    forall e | e in now ensures !InScope(e, s) {
      assert e.kind in Types(before) && e.kind in Elems(types);
    }
  }
}
