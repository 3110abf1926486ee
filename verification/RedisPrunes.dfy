/** What the Redis prunes do to the entries themselves, without their members and ranges. */
module RedisPrunes {
  import opened Entries
  import opened LexKey
  import opened RedisIndexes
  import opened RedisStore

  /** The order of an index: newest first, and by ascending id within one millisecond. */
  predicate Precedes(a: Entry, b: Entry) { a.at > b.at || (a.at == b.at && Less(a.id, b.id)) }

  /** The entries of an index created before the cutoff. */
  ghost function Aged(entries: map<string, Entry>, source: IndexKey, before: int): set<Entry> {
    set id | id in entries && InIndex(entries[id], source) && entries[id].at < before :: entries[id]
  }

  ghost function Ahead(s: set<Entry>, e: Entry): set<Entry> { set x | x in s && Precedes(x, e) }

  lemma MembersInOrder(a: Entry, b: Entry)
    requires InRange(a.at) && InRange(b.at)
    ensures Less(MemberOf(a), MemberOf(b)) <==> Precedes(a, b)
  {
    MemberOrder(a.at, a.id, b.at, b.id);
  }

  lemma OldMember(base: Db, source: IndexKey, before: int, id: string)
    requires Agreement(base) && id in base.entries
    ensures IdFromMember(MemberOf(base.entries[id])) == id
    ensures Old(base.entries, source, before, MemberOf(base.entries[id])) <==>
            InIndex(base.entries[id], source) && base.entries[id].at < before
  {
    IdInverts(base.entries[id].at, id);
  }

  // ---------------------------------------------------------------- the prune with `keepLast`

  /** The members in scope, newest first. */
  function Candidates(base: Db, source: IndexKey, before: int): seq<string> {
    RangeFrom(ZOf(base.zsets, source), MinBefore(Some(before)))
  }

  lemma CandidatesOld(base: Db, source: IndexKey, before: int)
    requires Agreement(base) && Timed(base.entries) && before >= 1
    ensures Ascending(Candidates(base, source, before)) && Distinct(Candidates(base, source, before))
    ensures forall m :: m in Candidates(base, source, before) <==> Old(base.entries, source, before, m)
  {
    var aged := Candidates(base, source, before);
    RangeFacts(ZOf(base.zsets, source), MinBefore(Some(before)));
    StrictlySorted(aged);
    forall m ensures m in aged <==> Old(base.entries, source, before, m) {
      ScopeIsOld(base.entries, base.zsets, source, before, m);
    }
  }

  lemma PrecedesOnce(a: Entry, b: Entry)
    ensures Precedes(a, b) ==> a != b && !Precedes(b, a)
  {
    LessTrichotomy(a.id, b.id);
  }

  /** In a listing by that order an entry's place is the number of entries ahead of it. */
  lemma PlaceIsRank(es: seq<Entry>, p: nat)
    requires p < |es| && forall i, j :: 0 <= i < j < |es| ==> Precedes(es[i], es[j])
    ensures |Ahead(Elems(es), es[p])| == p
  {
    var first := es[..p];
    forall i, j | 0 <= i < j < p ensures first[i] != first[j] { PrecedesOnce(es[i], es[j]); }
    forall x ensures x in Elems(first) <==> x in Ahead(Elems(es), es[p]) {
      if x in Elems(first) {
        var j :| 0 <= j < p && first[j] == x;
        assert x == es[j] && x in es;
      }
      if x in Ahead(Elems(es), es[p]) {
        var j :| 0 <= j < |es| && es[j] == x;
        PrecedesOnce(x, es[p]);
        if j < p { assert first[j] == x; }
      }
    }
    assert Elems(first) == Ahead(Elems(es), es[p]);
    DistinctSize(first);
  }

  function EntriesOf(entries: map<string, Entry>, ms: seq<string>): (es: seq<Entry>)
    requires forall m :: m in ms ==> IdFromMember(m) in entries
    ensures |es| == |ms|
  {
    seq(|ms|, j requires 0 <= j < |ms| => entries[IdFromMember(ms[j])])
  }

  /** The candidates stand for the aged entries, in order. */
  lemma CandidatesInOrder(base: Db, source: IndexKey, before: int)
    requires Agreement(base) && Timed(base.entries) && before >= 1
    ensures var aged := Candidates(base, source, before);
            && (forall m :: m in aged ==> IdFromMember(m) in base.entries)
            && Elems(EntriesOf(base.entries, aged)) == Aged(base.entries, source, before)
            && forall i, j :: 0 <= i < j < |aged| ==>
                 Precedes(EntriesOf(base.entries, aged)[i], EntriesOf(base.entries, aged)[j])
  {
    var aged := Candidates(base, source, before);
    CandidatesOld(base, source, before);
    var es := EntriesOf(base.entries, aged);
    forall j | 0 <= j < |aged| ensures MemberOf(es[j]) == aged[j] && es[j] in Aged(base.entries, source, before) {
      assert aged[j] in aged;
    }
    forall x | x in Aged(base.entries, source, before) ensures x in es {
      OldMember(base, source, before, x.id);
      var j :| 0 <= j < |aged| && aged[j] == MemberOf(x);
      assert es[j] == x;
    }
    forall i, j | 0 <= i < j < |aged| ensures Precedes(es[i], es[j]) { MembersInOrder(es[i], es[j]); }
  }

  /**
    What a prune leaves, `keepLast` or none: an entry goes if and only if it is in the index, older than the
    cutoff, of no excluded type, and behind at least `keepLast` others of the index older than the cutoff.
   */
  lemma PruneLeavesExactly(base: Db, db: Db, source: IndexKey, before: int, keepLast: Option<int>,
                           excluded: set<string>, id: string)
    requires Agreement(base) && Timed(base.entries) && before >= 1 && id in base.entries
    requires Removed(base, db, Deletable(base.entries, PruneTargets(base.zsets, source, before, keepLast), excluded))
    ensures var e := base.entries[id];
            id !in db.entries <==>
              && InIndex(e, source) && e.at < before && e.kind !in excluded
              && (keepLast.Some? ==> |Ahead(Aged(base.entries, source, before), e)| >= keepLast.value)
    ensures id in db.entries ==> db.entries[id] == base.entries[id]
  {
    var e, m := base.entries[id], MemberOf(base.entries[id]);
    var aged, targets := Candidates(base, source, before), PruneTargets(base.zsets, source, before, keepLast);
    CandidatesOld(base, source, before);
    OldMember(base, source, before, id);
    DeletableFacts(base.entries, targets, excluded);
    TargetIds(base, source, before, keepLast, excluded, id);
    if m in aged {
      var p :| 0 <= p < |aged| && aged[p] == m;
      CandidatesInOrder(base, source, before);
      PlaceIsRank(EntriesOf(base.entries, aged), p);
      PastKept(aged, if keepLast.Some? && keepLast.value > 0 then keepLast.value else 0, p);
    } else {
      assert forall x :: x in targets ==> x in aged;
    }
  }

  lemma PastKept(aged: seq<string>, keep: nat, p: nat)
    requires Distinct(aged) && p < |aged|
    ensures aged[p] in (if keep <= |aged| then aged[keep..] else []) <==> p >= keep
  {
    if keep <= |aged| {
      if p >= keep { assert aged[keep..][p - keep] == aged[p]; }
    }
  }

  /** An entry is deleted exactly when its own member is a target and its type is not excluded. */
  lemma TargetIds(base: Db, source: IndexKey, before: int, keepLast: Option<int>, excluded: set<string>, id: string)
    requires Agreement(base) && id in base.entries
    ensures var targets := PruneTargets(base.zsets, source, before, keepLast);
            id in IdsOf(Deletable(base.entries, targets, excluded)) <==>
            MemberOf(base.entries[id]) in targets && base.entries[id].kind !in excluded
  {
    var targets := PruneTargets(base.zsets, source, before, keepLast);
    DeletableFacts(base.entries, targets, excluded);
    PruneTargetsImplied(base.entries, base.zsets, source, before, keepLast);
    DeletedIds(base.entries, targets, excluded, id);
  }

  lemma DeletedIds(entries: map<string, Entry>, ms: seq<string>, excluded: set<string>, id: string)
    requires AllImplied(entries, ms) && id in entries && entries[id].id == id
    ensures id in IdsOf(Deletable(entries, ms, excluded)) <==>
            MemberOf(entries[id]) in ms && entries[id].kind !in excluded
  {
    DeletableFacts(entries, ms, excluded);
    IdInverts(entries[id].at, id);
    if x :| x in Deletable(entries, ms, excluded) && IdFromMember(x) == id {
      assert Implied(entries, Global, x) && x == MemberOf(entries[id]);
    }
  }

  // ---------------------------------------------------------------- the bounded prune

  predicate InScope(e: Entry, kind: Option<string>, excludeTypes: set<string>, before: int) {
    e.at < before && (if kind.Some? then e.kind == kind.value else e.kind !in excludeTypes)
  }

  /** A member of the scanned range stands for an entry before the cutoff, of the type if one was given. */
  lemma ScannedIsOld(base: Db, kind: Option<string>, before: int, m: string)
    requires Agreement(base) && Timed(base.entries) && before >= 1
    ensures m in RevRangeFrom(ZOf(base.zsets, SourceOf(kind)), MinBefore(Some(before))) <==>
            IdFromMember(m) in base.entries && MemberOf(base.entries[IdFromMember(m)]) == m
            && base.entries[IdFromMember(m)].at < before
            && (kind.Some? ==> base.entries[IdFromMember(m)].kind == kind.value)
  {
    ScopeIsOld(base.entries, base.zsets, SourceOf(kind), before, m);
  }

  lemma {:induction false} IdsSize(entries: map<string, Entry>, ms: seq<string>)
    requires AllImplied(entries, ms)
    ensures |IdsOf(ms)| == |ms| && IdsOf(ms) <= entries.Keys
  {
    if ms != [] {
      var m, rest := ms[0], ms[1..];
      IdsSize(entries, rest);
      assert ms == [m] + rest;
      assert IdsOf(ms) == {IdFromMember(m)} + IdsOf(rest);
      IdNotAmong(entries, rest, m);
    }
  }

  lemma ScanIds(base: Db, kind: Option<string>, excludeTypes: set<string>, before: int, scanned: nat, id: string)
    requires Agreement(base) && Timed(base.entries) && before >= 1 && id in base.entries
    requires scanned <= |RevRangeFrom(ZOf(base.zsets, SourceOf(kind)), MinBefore(Some(before)))|
    ensures var scope := RevRangeFrom(ZOf(base.zsets, SourceOf(kind)), MinBefore(Some(before)));
            && Distinct(scope) && AllImplied(base.entries, scope[..scanned])
            && (id in IdsOf(Deletable(base.entries, scope[..scanned], ExcludedOf(kind, excludeTypes))) <==>
                MemberOf(base.entries[id]) in scope[..scanned] && InScope(base.entries[id], kind, excludeTypes, before))
            && (InScope(base.entries[id], kind, excludeTypes, before) ==> MemberOf(base.entries[id]) in scope)
  {
    var scope := RevRangeFrom(ZOf(base.zsets, SourceOf(kind)), MinBefore(Some(before)));
    RevRangeFacts(ZOf(base.zsets, SourceOf(kind)), MinBefore(Some(before)));
    StrictlySorted(scope);
    TargetsImplied(base.entries, base.zsets, SourceOf(kind), scope[..scanned]);
    DeletedIds(base.entries, scope[..scanned], ExcludedOf(kind, excludeTypes), id);
    IdInverts(base.entries[id].at, id);
    ScannedIsOld(base, kind, before, MemberOf(base.entries[id]));
    assert forall x :: x in scope[..scanned] ==> x in scope;
  }

  lemma NotAmongFirst(scope: seq<string>, n: nat, j: nat)
    requires j < |scope| && n <= |scope| && scope[j] !in scope[..n]
    ensures j >= n
  {
  }

  /** The entries a scan deletes sort behind every entry in scope that it leaves. */
  lemma OldestGo(base: Db, kind: Option<string>, excludeTypes: set<string>, before: int, scanned: nat, d: string,
                 e: string)
    requires Agreement(base) && Timed(base.entries) && before >= 1 && d in base.entries && e in base.entries
    requires var scope := RevRangeFrom(ZOf(base.zsets, SourceOf(kind)), MinBefore(Some(before)));
             && scanned <= |scope| && InScope(base.entries[e], kind, excludeTypes, before)
             && d in IdsOf(Deletable(base.entries, scope[..scanned], ExcludedOf(kind, excludeTypes)))
             && e !in IdsOf(Deletable(base.entries, scope[..scanned], ExcludedOf(kind, excludeTypes)))
    ensures Precedes(base.entries[e], base.entries[d])
  {
    var scope := RevRangeFrom(ZOf(base.zsets, SourceOf(kind)), MinBefore(Some(before)));
    ScanIds(base, kind, excludeTypes, before, scanned, d);
    ScanIds(base, kind, excludeTypes, before, scanned, e);
    RevRangeFacts(ZOf(base.zsets, SourceOf(kind)), MinBefore(Some(before)));
    var i :| 0 <= i < scanned && scope[i] == MemberOf(base.entries[d]);
    var j :| 0 <= j < |scope| && scope[j] == MemberOf(base.entries[e]);
    NotAmongFirst(scope, scanned, j);
    assert Less(scope[j], scope[i]);
    MembersInOrder(base.entries[e], base.entries[d]);
  }

  /**
    A bounded prune on entries: only entries of the given type, or of no excluded one, and older than the
    cutoff are gone, `deleted` of them, each behind every such entry that is left, which are unchanged.
    `hasMore: false` leaves none; for a given type `hasMore: true` means that the limit was met.
   */
  lemma BatchOnEntries(base: Db, db: Db, kind: Option<string>, excludeTypes: set<string>, before: int, limit: nat,
                       deleted: nat, hasMore: bool, scanned: nat)
    requires Agreement(base) && Timed(base.entries) && before >= 1
    requires BatchOutcome(base, db, SourceOf(kind), MinBefore(Some(before)), ExcludedOf(kind, excludeTypes), limit,
                          deleted, hasMore, scanned)
    ensures forall id :: id in base.entries && id !in db.entries ==>
              InScope(base.entries[id], kind, excludeTypes, before)
    ensures forall id :: id in db.entries ==> id in base.entries && db.entries[id] == base.entries[id]
    ensures |base.entries| == |db.entries| + deleted && deleted <= limit
    ensures forall d, e :: d in base.entries && d !in db.entries && e in db.entries
                           && InScope(db.entries[e], kind, excludeTypes, before) ==>
              Precedes(db.entries[e], base.entries[d])
    ensures !hasMore ==> forall id :: id in db.entries ==> !InScope(db.entries[id], kind, excludeTypes, before)
    ensures hasMore && kind.Some? ==> deleted == limit
  {
    var scope := RevRangeFrom(ZOf(base.zsets, SourceOf(kind)), MinBefore(Some(before)));
    var gone := Deletable(base.entries, scope[..scanned], ExcludedOf(kind, excludeTypes));
    forall id | id in base.entries && id !in db.entries ensures InScope(base.entries[id], kind, excludeTypes, before) {
      ScanIds(base, kind, excludeTypes, before, scanned, id);
    }
    forall d, e | d in base.entries && d !in db.entries && e in db.entries
                  && InScope(db.entries[e], kind, excludeTypes, before)
      ensures Precedes(db.entries[e], base.entries[d])
    {
      OldestGo(base, kind, excludeTypes, before, scanned, d, e);
    }
    BatchCount(base, db, kind, excludeTypes, before, scanned);
    if !hasMore {
      forall id | id in db.entries ensures !InScope(db.entries[id], kind, excludeTypes, before) {
        NoneLeft(db, kind, excludeTypes, before, id);
      }
    }
    if hasMore && kind.Some? { NothingSpared(base.entries, scope[..scanned]); }
  }

  lemma BatchCount(base: Db, db: Db, kind: Option<string>, excludeTypes: set<string>, before: int, scanned: nat)
    requires Agreement(base) && Timed(base.entries) && before >= 1
    requires var scope := RevRangeFrom(ZOf(base.zsets, SourceOf(kind)), MinBefore(Some(before)));
             && scanned <= |scope|
             && db.entries ==
                base.entries - IdsOf(Deletable(base.entries, scope[..scanned], ExcludedOf(kind, excludeTypes)))
    ensures var scope := RevRangeFrom(ZOf(base.zsets, SourceOf(kind)), MinBefore(Some(before)));
            |base.entries| == |db.entries| + |Deletable(base.entries, scope[..scanned], ExcludedOf(kind, excludeTypes))|
  {
    var scope := RevRangeFrom(ZOf(base.zsets, SourceOf(kind)), MinBefore(Some(before)));
    var gone := Deletable(base.entries, scope[..scanned], ExcludedOf(kind, excludeTypes));
    RevRangeFacts(ZOf(base.zsets, SourceOf(kind)), MinBefore(Some(before)));
    StrictlySorted(scope);
    TargetsImplied(base.entries, base.zsets, SourceOf(kind), scope[..scanned]);
    DeletableImplied(base.entries, scope[..scanned], ExcludedOf(kind, excludeTypes));
    GoneCount(base.entries, db.entries, gone);
  }

  lemma DeletableImplied(entries: map<string, Entry>, ms: seq<string>, excluded: set<string>)
    requires AllImplied(entries, ms)
    ensures AllImplied(entries, Deletable(entries, ms, excluded))
  {
    DeletableDistinct(entries, ms, excluded);
    DeletableFacts(entries, ms, excluded);
  }

  lemma GoneCount(entries: map<string, Entry>, left: map<string, Entry>, gone: seq<string>)
    requires AllImplied(entries, gone) && left == entries - IdsOf(gone)
    ensures |entries| == |left| + |gone|
  {
    IdsSize(entries, gone);
    assert entries.Keys == left.Keys + IdsOf(gone);
    assert |entries.Keys| == |left.Keys| + |IdsOf(gone)|;
  }

  lemma NoneLeft(db: Db, kind: Option<string>, excludeTypes: set<string>, before: int, id: string)
    requires Agreement(db) && Timed(db.entries) && before >= 1 && id in db.entries
    requires forall m :: m in RevRangeFrom(ZOf(db.zsets, SourceOf(kind)), MinBefore(Some(before))) ==>
               Spared(db.entries, m, ExcludedOf(kind, excludeTypes))
    ensures !InScope(db.entries[id], kind, excludeTypes, before)
  {
    IdInverts(db.entries[id].at, id);
    ScannedIsOld(db, kind, before, MemberOf(db.entries[id]));
  }

  lemma {:induction false} NothingSpared(entries: map<string, Entry>, ms: seq<string>)
    ensures Deletable(entries, ms, {}) == ms
  {
    if ms != [] {
      NothingSpared(entries, ms[..|ms| - 1]);
      assert ms == ms[..|ms| - 1] + [ms[|ms| - 1]];
    }
  }
}
