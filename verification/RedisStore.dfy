/** The Redis provider's writes: store, update, prune, the bounded prune, and clear. */
module RedisStore {
  import opened Entries
  import opened LexKey
  import opened RedisIndexes

  const SCAN_BUDGET_MULTIPLE: nat := 20

  /** `slice(keep)` of the members in scope: the newest `keepLast` are spared. */
  function PruneTargets(z: Zsets, source: IndexKey, before: int, keepLast: Option<int>): seq<string> {
    var candidates := RangeFrom(ZOf(z, source), MinBefore(Some(before)));
    var keep := if keepLast.Some? && keepLast.value > 0 then keepLast.value else 0;
    if keep <= |candidates| then candidates[keep..] else []
  }

  /** `LIMIT offset count` of a range. */
  function Limit(s: seq<string>, offset: nat, count: nat): seq<string> {
    if offset >= |s| then []
    else if offset + count <= |s| then s[offset..offset + count]
    else s[offset..]
  }

  // ---------------------------------------------------------------- what a prune takes

  ghost predicate Timed(entries: map<string, Entry>) {
    forall id :: id in entries ==> InRange(entries[id].at)
  }

  predicate Old(entries: map<string, Entry>, source: IndexKey, before: int, m: string) {
    Implied(entries, source, m) && entries[IdFromMember(m)].at < before
  }

  /** In scope are exactly the members of the index's entries created before the cutoff. */
  lemma ScopeIsOld(entries: map<string, Entry>, z: Zsets, source: IndexKey, before: int, m: string)
    requires IndexesAgree(entries, z) && Timed(entries) && before >= 1
    ensures m in RangeFrom(ZOf(z, source), MinBefore(Some(before))) <==> Old(entries, source, before, m)
    ensures m in RevRangeFrom(ZOf(z, source), MinBefore(Some(before))) <==> Old(entries, source, before, m)
  {
    var min := MinBefore(Some(before));
    RangeFacts(ZOf(z, source), min);
    RevRangeFacts(ZOf(z, source), min);
    assert m in ZOf(z, source) <==> Implied(entries, source, m);
    if Implied(entries, source, m) {
      var e := entries[IdFromMember(m)];
      BeforeSelects(e.at, e.id, before);
    }
  }

  lemma TargetsImplied(entries: map<string, Entry>, z: Zsets, source: IndexKey, s: seq<string>)
    requires IndexesAgree(entries, z) && Distinct(s) && forall m :: m in s ==> m in ZOf(z, source)
    ensures AllImplied(entries, s)
  {
    forall m | m in s ensures Implied(entries, Global, m) {
      assert Implied(entries, source, m);
    }
  }

  lemma PruneTargetsImplied(entries: map<string, Entry>, z: Zsets, source: IndexKey, before: int,
                            keepLast: Option<int>)
    requires IndexesAgree(entries, z)
    ensures AllImplied(entries, PruneTargets(z, source, before, keepLast))
  {
    var s := ZOf(z, source);
    RangeFacts(s, MinBefore(Some(before)));
    StrictlySorted(RangeFrom(s, MinBefore(Some(before))));
    TargetsImplied(entries, z, source, PruneTargets(z, source, before, keepLast));
  }

  /**
    Without `keepLast`, what is left are exactly the entries outside the source index, not older than
    the cutoff, or of an excluded type; and `keepLast` spares that many of the newest old ones.
   */
  lemma PruneLeaves(base: Db, db: Db, source: IndexKey, before: int, keepLast: Option<int>, excluded: set<string>)
    requires Agreement(base) && Timed(base.entries) && before >= 1
    requires Removed(base, db, Deletable(base.entries, PruneTargets(base.zsets, source, before, keepLast), excluded))
    ensures keepLast == None ==> forall id :: id in db.entries <==>
              id in base.entries
              && !(InIndex(base.entries[id], source) && base.entries[id].at < before
                   && base.entries[id].kind !in excluded)
    ensures var aged := RangeFrom(ZOf(base.zsets, source), MinBefore(Some(before)));
            keepLast.Some? ==> forall i :: 0 <= i < |aged| && i < keepLast.value ==> IdFromMember(aged[i]) in db.entries
  {
    var aged, targets := RangeFrom(ZOf(base.zsets, source), MinBefore(Some(before))),
                        PruneTargets(base.zsets, source, before, keepLast);
    DeletableFacts(base.entries, targets, excluded);
    RangeFacts(ZOf(base.zsets, source), MinBefore(Some(before)));
    StrictlySorted(aged);
    if keepLast == None {
      forall id | id in base.entries
        ensures id in db.entries <==> !(InIndex(base.entries[id], source) && base.entries[id].at < before
                                        && base.entries[id].kind !in excluded)
      {
        PrunedEntry(base, source, before, excluded, id);
      }
    } else {
      forall i | 0 <= i < |aged| && i < keepLast.value ensures IdFromMember(aged[i]) in db.entries {
        KeptEntry(base, source, before, keepLast, excluded, i);
      }
    }
  }

  lemma PrunedEntry(base: Db, source: IndexKey, before: int, excluded: set<string>, id: string)
    requires Agreement(base) && Timed(base.entries) && before >= 1 && id in base.entries
    ensures id in IdsOf(Deletable(base.entries, PruneTargets(base.zsets, source, before, None), excluded))
            <==> InIndex(base.entries[id], source) && base.entries[id].at < before
                 && base.entries[id].kind !in excluded
  {
    var targets := PruneTargets(base.zsets, source, before, None);
    var m := MemberOf(base.entries[id]);
    DeletableFacts(base.entries, targets, excluded);
    IdInverts(base.entries[id].at, id);
    ScopeIsOld(base.entries, base.zsets, source, before, m);
    if x :| x in Deletable(base.entries, targets, excluded) && IdFromMember(x) == id {
      ScopeIsOld(base.entries, base.zsets, source, before, x);
      assert x == m;
    }
  }

  lemma KeptEntry(base: Db, source: IndexKey, before: int, keepLast: Option<int>, excluded: set<string>, i: nat)
    requires Agreement(base) && Timed(base.entries) && before >= 1 && keepLast.Some? && i < keepLast.value
    requires i < |RangeFrom(ZOf(base.zsets, source), MinBefore(Some(before)))|
    ensures var m := RangeFrom(ZOf(base.zsets, source), MinBefore(Some(before)))[i];
            && IdFromMember(m) in base.entries
            && IdFromMember(m) !in IdsOf(Deletable(base.entries, PruneTargets(base.zsets, source, before, keepLast),
                                                      excluded))
  {
    var aged, targets := RangeFrom(ZOf(base.zsets, source), MinBefore(Some(before))),
                        PruneTargets(base.zsets, source, before, keepLast);
    RangeFacts(ZOf(base.zsets, source), MinBefore(Some(before)));
    StrictlySorted(aged);
    DeletableFacts(base.entries, targets, excluded);
    PruneTargetsImplied(base.entries, base.zsets, source, before, keepLast);
    ScopeIsOld(base.entries, base.zsets, source, before, aged[i]);
    assert aged[i] !in targets;
    IdNotAmong(base.entries, Deletable(base.entries, targets, excluded), aged[i]);
  }

  // ---------------------------------------------------------------- the bounded scan

  lemma {:induction false} DeletableAppend(entries: map<string, Entry>, a: seq<string>, b: seq<string>,
                                             excluded: set<string>)
    ensures Deletable(entries, a + b, excluded) == Deletable(entries, a, excluded) + Deletable(entries, b, excluded)
  {
    if b == [] {
      assert a + b == a;
    } else {
      var n := |b| - 1;
      DeletableAppend(entries, a, b[..n], excluded);
      var s := a + b;
      assert s[..|s| - 1] == a + b[..n] && s[|s| - 1] == b[n];
    }
  }

  /** What a set of exactly the deletable members leaves are the spared ones. */
  lemma {:induction false} WithoutLeavesSpared(entries: map<string, Entry>, ms: seq<string>, excluded: set<string>,
                                               gone: set<string>)
    requires forall m :: m in ms ==> (m in gone <==> !Spared(entries, m, excluded))
    ensures Without(ms, gone) == SparedOf(entries, ms, excluded)
  {
    if ms != [] {
      var n := |ms| - 1;
      WithoutLeavesSpared(entries, ms[..n], excluded, gone);
      WithoutLast(ms, gone);
    }
  }

  lemma WithoutLast(ms: seq<string>, gone: set<string>)
    requires ms != []
    ensures var n := |ms| - 1;
            Without(ms, gone) == if ms[n] in gone then Without(ms[..n], gone) else Without(ms[..n], gone) + [ms[n]]
  {
    var n := |ms| - 1;
    assert ms == ms[..n] + [ms[n]];
    WithoutAppend(ms[..n], [ms[n]], gone);
  }

  /** After the first `p` members in scope were handled, the range is the spared ones, then the rest. */
  lemma RangeAfter(base: Db, db: Db, source: IndexKey, min: LexBound, p: nat, excluded: set<string>)
    requires Agreement(base) && p <= |RevRangeFrom(ZOf(base.zsets, source), min)|
    requires var scope := RevRangeFrom(ZOf(base.zsets, source), min);
             Removed(base, db, Deletable(base.entries, scope[..p], excluded))
    ensures var scope := RevRangeFrom(ZOf(base.zsets, source), min);
            RevRangeFrom(ZOf(db.zsets, source), min) == SparedOf(base.entries, scope[..p], excluded) + scope[p..]
  {
    var scope := RevRangeFrom(ZOf(base.zsets, source), min);
    var gone := Elems(Deletable(base.entries, scope[..p], excluded));
    RevRangeFacts(ZOf(base.zsets, source), min);
    StrictlySorted(scope);
    RevRangeWithout(ZOf(base.zsets, source), min, gone);
    assert scope == scope[..p] + scope[p..];
    WithoutAppend(scope[..p], scope[p..], gone);
    DeletableFacts(base.entries, scope[..p], excluded);
    WithoutLeavesSpared(base.entries, scope[..p], excluded, gone);
    forall x | x in scope[p..] ensures x !in gone { NotInBoth(scope, p, x); }
    WithoutAbsent(scope[p..], gone);
  }

  lemma NotInBoth(s: seq<string>, p: nat, x: string)
    requires Distinct(s) && p <= |s| && x in s[p..]
    ensures x !in s[..p]
  {
    var j :| p <= j < |s| && s[j] == x;
  }

  lemma {:induction false} SameDeletable(a: map<string, Entry>, b: map<string, Entry>, ms: seq<string>,
                                           excluded: set<string>)
    requires forall m :: m in ms ==> ReadEntry(a, m) == ReadEntry(b, m)
    ensures Deletable(a, ms, excluded) == Deletable(b, ms, excluded)
    ensures SparedOf(a, ms, excluded) == SparedOf(b, ms, excluded)
  {
    if ms != [] {
      SameDeletable(a, b, ms[..|ms| - 1], excluded);
      var m := ms[|ms| - 1];
      assert m in ms && ReadEntry(a, m) == ReadEntry(b, m);
    }
  }

  /** `p` members of the scope were handled in order: the spared ones lead what is left of it. */
  ghost predicate Handled(base: Db, db: Db, scope: seq<string>, p: nat, excluded: set<string>, deleted: nat,
                          skipped: nat)
  {
    && p <= |scope| && Removed(base, db, Deletable(base.entries, scope[..p], excluded))
    && deleted == |Deletable(base.entries, scope[..p], excluded)| && skipped + deleted == p
  }

  /** The page read past the skipped members is the next part of the scope. */
  lemma NextPage(base: Db, db: Db, source: IndexKey, min: LexBound, p: nat, excluded: set<string>, deleted: nat,
                 skipped: nat, want: nat)
    requires Agreement(base)
    requires Handled(base, db, RevRangeFrom(ZOf(base.zsets, source), min), p, excluded, deleted, skipped)
    ensures var scope := RevRangeFrom(ZOf(base.zsets, source), min);
            var page := Limit(RevRangeFrom(ZOf(db.zsets, source), min), skipped, want);
            && NextPart(page, scope, p, want)
            && AllImplied(db.entries, page)
            && (forall m :: m in page ==> ReadEntry(db.entries, m) == ReadEntry(base.entries, m))
  {
    var scope := RevRangeFrom(ZOf(base.zsets, source), min);
    RangeAfter(base, db, source, min, p, excluded);
    DeletableFacts(base.entries, scope[..p], excluded);
    LimitSkips(SparedOf(base.entries, scope[..p], excluded), scope, p, want);
    PageImplied(db, source, min, skipped, want);
    SameEntries(base.entries, db.entries, Deletable(base.entries, scope[..p], excluded),
                Limit(RevRangeFrom(ZOf(db.zsets, source), min), skipped, want));
  }

  lemma SameEntries(base: map<string, Entry>, now: map<string, Entry>, gone: seq<string>, page: seq<string>)
    requires now == base - IdsOf(gone) && AllImplied(now, page)
    ensures forall m :: m in page ==> ReadEntry(now, m) == ReadEntry(base, m)
  {
    forall m | m in page ensures ReadEntry(now, m) == ReadEntry(base, m) { assert Implied(now, Global, m); }
  }

  /** `page` is the next `want` members of the scope, or all that are left. */
  ghost predicate NextPart(page: seq<string>, scope: seq<string>, p: nat, want: nat) {
    && p + |page| <= |scope| && page == scope[p..p + |page|] && |page| <= want
    && (|page| < want ==> p + |page| == |scope|)
  }

  lemma LimitSkips(spared: seq<string>, scope: seq<string>, p: nat, want: nat)
    requires p <= |scope|
    ensures NextPart(Limit(spared + scope[p..], |spared|, want), scope, p, want)
  {
  }

  lemma PageImplied(db: Db, source: IndexKey, min: LexBound, skipped: nat, want: nat)
    requires Agreement(db)
    ensures AllImplied(db.entries, Limit(RevRangeFrom(ZOf(db.zsets, source), min), skipped, want))
  {
    var now := RevRangeFrom(ZOf(db.zsets, source), min);
    var page := Limit(now, skipped, want);
    RevRangeFacts(ZOf(db.zsets, source), min);
    StrictlySorted(now);
    assert forall m :: m in page ==> m in now;
    TargetsImplied(db.entries, db.zsets, source, page);
  }

  lemma PageHandled(base: Db, mid: Db, db: Db, scope: seq<string>, p: nat, page: seq<string>,
                    want: nat, excluded: set<string>, deleted: nat, skipped: nat)
    requires Handled(base, mid, scope, p, excluded, deleted, skipped)
    requires NextPart(page, scope, p, want)
    requires forall m :: m in page ==> ReadEntry(mid.entries, m) == ReadEntry(base.entries, m)
    requires Removed(mid, db, Deletable(mid.entries, page, excluded))
    ensures var removed := |Deletable(mid.entries, page, excluded)|;
            removed <= |page|
            && Handled(base, db, scope, p + |page|, excluded, deleted + removed, skipped + |page| - removed)
  {
    PageParts(base.entries, mid.entries, scope, p, page, excluded);
    RemovedTwice(base, mid, db, Deletable(base.entries, scope[..p], excluded), Deletable(mid.entries, page, excluded));
  }

  lemma PageParts(base: map<string, Entry>, mid: map<string, Entry>, scope: seq<string>, p: nat, page: seq<string>,
                  excluded: set<string>)
    requires p + |page| <= |scope| && page == scope[p..p + |page|]
    requires forall m :: m in page ==> ReadEntry(mid, m) == ReadEntry(base, m)
    ensures |Deletable(mid, page, excluded)| <= |page|
    ensures Deletable(base, scope[..p + |page|], excluded)
         == Deletable(base, scope[..p], excluded) + Deletable(mid, page, excluded)
  {
    SameDeletable(mid, base, page, excluded);
    DeletableFacts(base, page, excluded);
    assert scope[..p + |page|] == scope[..p] + page;
    DeletableAppend(base, scope[..p], page, excluded);
  }

  /** Once the whole scope was handled only spared members are left in it. */
  lemma ScopeDone(base: Db, db: Db, source: IndexKey, min: LexBound, scope: seq<string>, walked: nat,
                  excluded: set<string>, deleted: nat, skipped: nat)
    requires Agreement(base) && scope == RevRangeFrom(ZOf(base.zsets, source), min) && walked == |scope|
    requires Handled(base, db, scope, walked, excluded, deleted, skipped)
    ensures forall m :: m in RevRangeFrom(ZOf(db.zsets, source), min) ==> Spared(db.entries, m, excluded)
  {
    RangeAfter(base, db, source, min, |scope|, excluded);
    assert scope[..|scope|] == scope && scope[|scope|..] == [];
    DeletableFacts(base.entries, scope, excluded);
    RevRangeFacts(ZOf(base.zsets, source), min);
    RevRangeFacts(ZOf(db.zsets, source), min);
    forall m | m in RevRangeFrom(ZOf(db.zsets, source), min) ensures Spared(db.entries, m, excluded) {
      assert m in ZOf(db.zsets, source) && Implied(db.entries, source, m);
      assert m in SparedOf(base.entries, scope, excluded);
      SparedMember(base.entries, scope, excluded, m);
    }
  }

  lemma {:induction false} SparedMember(entries: map<string, Entry>, ms: seq<string>, excluded: set<string>, m: string)
    requires m in SparedOf(entries, ms, excluded)
    ensures m in ms && Spared(entries, m, excluded)
  {
    var n := |ms| - 1;
    if m in SparedOf(entries, ms[..n], excluded) { SparedMember(entries, ms[..n], excluded, m); }
  }

  // ---------------------------------------------------------------- the provider

  class Redis {
    var entries: map<string, Entry>
    var zsets: Zsets
    var batches: map<string, map<string, int>>
    var tags: map<string, int>

    function State(): Db reads this { Db(entries, zsets, batches, tags) }

    constructor ()
      ensures State() == EmptyDb && Agreement(State())
    {
      entries, zsets, batches, tags := map[], map[], map[], map[];
    }

    /** Every entry's keys are set in one transaction. */
    method Store(es: seq<Entry>)
      modifies this
      ensures State() == AddAll(old(State()), es) && Stored(old(State()), State(), es)
      ensures Agreement(old(State())) && FreshIds(old(entries), es) ==> Agreement(State())
    {
      for n := 0 to |es|
        invariant State() == AddAll(old(State()), es[..n])
      {
        AddOneMore(old(State()), es, n);
        entries := entries[es[n].id := es[n]];
        zsets := IndexEntry(zsets, es[n]);
        batches := AddToBatch(batches, es[n]);
        tags := HincrTags(tags, es[n].tags);
      }
      assert es[..|es|] == es;
      AllStored(old(State()), es);
      if Agreement(old(State())) && FreshIds(old(entries), es) { FreshKeeps(old(State()), es, |es|); }
    }

    /** Rewrites the entry and no index. A missing id is left alone. */
    method Update(patched: Entry)
      modifies this
      ensures zsets == old(zsets) && batches == old(batches) && tags == old(tags)
      ensures entries == if patched.id in old(entries) then old(entries)[patched.id := patched] else old(entries)
      ensures Agreement(old(State())) && patched.id in old(entries)
              && InRange(patched.at) && InRange(old(entries)[patched.id].at) ==>
                (Agreement(State()) <==> SameIndexFields(old(entries)[patched.id], patched))
    {
      if patched.id !in entries { return; }
      if Agreement(State()) && InRange(patched.at) && InRange(entries[patched.id].at) {
        UpdateAgreement(State(), patched);
      }
      entries := entries[patched.id := patched];
    }

    /** The pipeline's commands for one member, given the entries read for it; the tags it loses. */
    method RemoveKeys(m: string, found: map<string, Entry>, ghost base: Db, ghost gone: seq<string>)
      returns (loss: multiset<string>)
      requires State() == RemoveEach(base, gone) && found == base.entries
      modifies this
      ensures State() == RemoveEach(base, gone + [m]) && loss == TagsOf(ReadEntry(found, m))
    {
      RemoveOneMore(base, gone, m);
      loss := TagsOf(ReadEntry(found, m));
      var db := RemoveMember(State(), m, ReadEntry(found, m));
      entries, zsets, batches := db.entries, db.zsets, db.batches;
    }

    /** The pipeline: every member's commands, with the tag occurrences counted on the way. */
    method RemoveAllKeys(members: seq<string>, excluded: set<string>)
      returns (removed: nat, skipped: nat, decrements: multiset<string>)
      modifies this
      ensures State() == RemoveEach(old(State()), Deletable(old(entries), members, excluded))
      ensures decrements == TagLoss(old(entries), Deletable(old(entries), members, excluded))
      ensures removed == |Deletable(old(entries), members, excluded)| && removed + skipped == |members|
    {
      var found := entries;
      ghost var base, gone := State(), [];
      removed, skipped, decrements := 0, 0, multiset{};
      for n := 0 to |members|
        invariant State() == RemoveEach(base, gone)
        invariant Piped(found, members, n, excluded, gone, removed, skipped, decrements)
      {
        PipeNext(found, members, n, excluded, gone, removed, skipped, decrements);
        if Spared(found, members[n], excluded) {
          skipped := skipped + 1;
        } else {
          var loss := RemoveKeys(members[n], found, base, gone);
          gone, removed, decrements := gone + [members[n]], removed + 1, decrements + loss;
        }
      }
      assert members[..|members|] == members;
    }

    /** Deletes the members' entries and every reference to them, sparing the excluded types. */
    method RemoveMembers(members: seq<string>, excluded: set<string>) returns (removed: nat, skipped: nat)
      requires Agreement(State()) && AllImplied(entries, members)
      modifies this
      ensures Removed(old(State()), State(), Deletable(old(entries), members, excluded))
      ensures removed == |Deletable(old(entries), members, excluded)| && removed + skipped == |members|
    {
      var decrements;
      ghost var base := State();
      RemovalDone(base, members, excluded);
      removed, skipped, decrements := RemoveAllKeys(members, excluded);
      ghost var left := State();
      if decrements != multiset{} { tags := DecrementTags(tags, decrements); }
      assert State() == left.(tags := DecrementTags(left.tags, decrements));
    }

    /** Removes what is older than the cutoff in an index, past the newest `keepLast` of it. */
    method PruneWith(source: IndexKey, before: int, keepLast: Option<int>, excluded: set<string>)
      returns (removed: nat)
      requires Agreement(State())
      modifies this
      ensures Removed(old(State()), State(),
                      Deletable(old(entries), PruneTargets(old(zsets), source, before, keepLast), excluded))
      ensures removed == |Deletable(old(entries), PruneTargets(old(zsets), source, before, keepLast), excluded)|
    {
      var targets := PruneTargets(zsets, source, before, keepLast);
      PruneTargetsImplied(entries, zsets, source, before, keepLast);
      if targets == [] {
        RemoveEachFacts(State(), []);
        return 0;
      }
      var skipped;
      removed, skipped := RemoveMembers(targets, excluded);
    }

    /** Deletes at most `limit` of the scope's deletable members, from its oldest end. */
    method PruneScopedBatch(kind: Option<string>, excludeTypes: set<string>, before: int, limit: nat)
      returns (deleted: nat, hasMore: bool, ghost scanned: nat)
      requires Agreement(State())
      modifies this
      ensures BatchOutcome(old(State()), State(), SourceOf(kind), MinBefore(Some(before)),
                           ExcludedOf(kind, excludeTypes), limit, deleted, hasMore, scanned)
    {
      var source, excluded, min := SourceOf(kind), ExcludedOf(kind, excludeTypes), MinBefore(Some(before));
      deleted, hasMore, scanned := ScanBatch(source, min, excluded, limit);
    }

    method ScanBatch(source: IndexKey, min: LexBound, excluded: set<string>, limit: nat)
      returns (deleted: nat, hasMore: bool, ghost scanned: nat)
      requires Agreement(State())
      modifies this
      ensures BatchOutcome(old(State()), State(), source, min, excluded, limit, deleted, hasMore, scanned)
    {
      var scanBudget := limit * SCAN_BUDGET_MULTIPLE;
      var walked, skipped := 0, 0;
      ghost var base, scope := State(), RevRangeFrom(ZOf(zsets, source), min);
      deleted, scanned := 0, 0;
      NothingHandled(base, scope, excluded);
      while deleted < limit && walked < scanBudget
        invariant Handled(base, State(), scope, walked, excluded, deleted, skipped)
        invariant deleted <= limit && scanned == walked
        decreases scanBudget - walked
      {
        var want := limit - deleted;
        var page, removed, spared := RemovePage(source, min, excluded, skipped, want, base, scope, walked, deleted);
        walked := walked + |page|;
        deleted := deleted + removed;
        skipped := skipped + spared;
        scanned := walked;
        if |page| < want {
          ScopeDone(base, State(), source, min, scope, walked, excluded, deleted, skipped);
          return deleted, false, scanned;
        }
      }
      hasMore := true;
    }

    /** One page past the skipped members is read and removed; a short one ends the scope. */
    method RemovePage(source: IndexKey, min: LexBound, excluded: set<string>, skipped: nat, want: nat,
                      ghost base: Db, ghost scope: seq<string>, ghost walked: nat, ghost deleted: nat)
      returns (page: seq<string>, removed: nat, spared: nat)
      requires Agreement(base) && scope == RevRangeFrom(ZOf(base.zsets, source), min)
      requires Handled(base, State(), scope, walked, excluded, deleted, skipped) && want >= 1
      modifies this
      ensures Handled(base, State(), scope, walked + |page|, excluded, deleted + removed, skipped + spared)
      ensures removed + spared == |page| <= want
      ensures |page| < want ==> walked + |page| == |scope|
    {
      ghost var mid := State();
      page := Limit(RevRangeFrom(ZOf(zsets, source), min), skipped, want);
      NextPage(base, mid, source, min, walked, excluded, deleted, skipped, want);
      removed, spared := RemoveMembers(page, excluded);
      PageHandled(base, mid, State(), scope, walked, page, want, excluded, deleted, skipped);
    }

    /** Every key of the prefix is deleted. */
    method Clear()
      modifies this
      ensures State() == EmptyDb && Agreement(State())
    {
      entries, zsets, batches, tags := map[], map[], map[], map[];
    }
  }

  // ---------------------------------------------------------------- what a store adds

  /** How often a tag stands on the entries. */
  function Occurrences(es: seq<Entry>, t: string): nat {
    if es == [] then 0 else var n := |es| - 1; Occurrences(es[..n], t) + multiset(es[n].tags)[t]
  }

  function CountOf(tags: map<string, int>, t: string): int { if t in tags then tags[t] else 0 }

  /** The last of the entries with its id. */
  ghost predicate LastOfId(es: seq<Entry>, i: int) {
    0 <= i < |es| && forall j :: i < j < |es| ==> es[j].id != es[i].id
  }

  ghost predicate HasId(es: seq<Entry>, id: string) { exists i :: 0 <= i < |es| && es[i].id == id }

  ghost predicate HasMember(es: seq<Entry>, key: IndexKey, m: string) {
    exists i :: 0 <= i < |es| && InIndex(es[i], key) && m == MemberOf(es[i])
  }

  ghost predicate HasInBatch(es: seq<Entry>, b: string, id: string) {
    exists i :: 0 <= i < |es| && es[i].batchId == b && es[i].id == id
  }

  /** What one more entry adds. */
  lemma HasNext(es: seq<Entry>, e: Entry)
    ensures forall id :: HasId(es + [e], id) <==> HasId(es, id) || id == e.id
    ensures forall key, m :: HasMember(es + [e], key, m) <==>
              HasMember(es, key, m) || (InIndex(e, key) && m == MemberOf(e))
    ensures forall b, id :: HasInBatch(es + [e], b, id) <==> HasInBatch(es, b, id) || (e.batchId == b && e.id == id)
  {
    var more := es + [e];
    assert more[|es|] == e && forall i :: 0 <= i < |es| ==> more[i] == es[i];
    forall id ensures HasId(more, id) <==> HasId(es, id) || id == e.id {
      if HasId(es, id) {
        var i :| 0 <= i < |es| && es[i].id == id;
        assert more[i].id == id;
      }
    }
    forall key, m ensures HasMember(more, key, m) <==> HasMember(es, key, m) || (InIndex(e, key) && m == MemberOf(e)) {
      if HasMember(es, key, m) {
        var i :| 0 <= i < |es| && InIndex(es[i], key) && m == MemberOf(es[i]);
        assert more[i] == es[i];
      }
    }
    forall b, id ensures HasInBatch(more, b, id) <==> HasInBatch(es, b, id) || (e.batchId == b && e.id == id) {
      if HasInBatch(es, b, id) {
        var i :| 0 <= i < |es| && es[i].batchId == b && es[i].id == id;
        assert more[i] == es[i];
      }
    }
  }

  ghost predicate StoredIds(base: map<string, Entry>, now: map<string, Entry>, es: seq<Entry>) {
    forall id :: id in now <==> id in base || HasId(es, id)
  }

  ghost predicate StoredValues(now: map<string, Entry>, es: seq<Entry>) {
    forall i :: LastOfId(es, i) ==> es[i].id in now && now[es[i].id] == es[i]
  }

  ghost predicate OthersAsBefore(base: map<string, Entry>, now: map<string, Entry>, es: seq<Entry>) {
    forall id :: id in base && !HasId(es, id) ==> id in now && now[id] == base[id]
  }

  ghost predicate StoredMembers(base: Zsets, now: Zsets, es: seq<Entry>) {
    forall key, m :: m in ZOf(now, key) <==> m in ZOf(base, key) || HasMember(es, key, m)
  }

  ghost predicate StoredInBatches(base: map<string, map<string, int>>, now: map<string, map<string, int>>,
                                  es: seq<Entry>)
  {
    forall b, id :: InBatch(now, b, id) <==> InBatch(base, b, id) || HasInBatch(es, b, id)
  }

  ghost predicate StoredTags(base: map<string, int>, now: map<string, int>, es: seq<Entry>) {
    forall t :: CountOf(now, t) == CountOf(base, t) + Occurrences(es, t)
                && (t in now <==> t in base || Occurrences(es, t) > 0)
  }

  /**
    What storing `es` leaves: every id of `es` with its last entry and every other as it was; in each
    index, the members of exactly the entries that belong to it besides the old ones; the same for the
    batches; and each tag counted once more for each time it stands on one of `es`.
   */
  ghost predicate Stored(base: Db, now: Db, es: seq<Entry>) {
    && StoredIds(base.entries, now.entries, es) && StoredValues(now.entries, es)
    && OthersAsBefore(base.entries, now.entries, es) && StoredMembers(base.zsets, now.zsets, es)
    && StoredInBatches(base.batches, now.batches, es) && StoredTags(base.tags, now.tags, es)
  }

  lemma {:induction false} AllStored(db: Db, es: seq<Entry>)
    ensures Stored(db, AddAll(db, es), es)
  {
    if es == [] {
      NothingStored(db);
    } else {
      var rest, e := es[..|es| - 1], es[|es| - 1];
      AllStored(db, rest);
      LastOf(es);
      OneStored(db, AddAll(db, rest), AddAll(db, es), rest, e, es);
    }
  }

  lemma LastOf(es: seq<Entry>)
    requires es != []
    ensures es == es[..|es| - 1] + [es[|es| - 1]]
  {
  }

  lemma NothingStored(db: Db)
    ensures Stored(db, db, [])
  {
    assert AddAll(db, []) == db;
    assert forall t :: Occurrences([], t) == 0;
  }

  lemma OneStored(base: Db, mid: Db, now: Db, es: seq<Entry>, e: Entry, more: seq<Entry>)
    requires Stored(base, mid, es) && now == AddEntry(mid, e) && more == es + [e]
    ensures Stored(base, now, more)
  {
    IdStored(base.entries, mid.entries, es, e);
    ValueStored(mid.entries, es, e);
    OthersStay(base.entries, mid.entries, es, e);
    MemberStored(base.zsets, mid.zsets, es, e);
    BatchStored(base.batches, mid.batches, es, e);
    TagsStored(base.tags, mid.tags, es, e);
  }

  lemma IdStored(base: map<string, Entry>, mid: map<string, Entry>, es: seq<Entry>, e: Entry)
    requires StoredIds(base, mid, es)
    ensures StoredIds(base, mid[e.id := e], es + [e])
  {
    HasNext(es, e);
  }

  lemma ValueStored(mid: map<string, Entry>, es: seq<Entry>, e: Entry)
    requires StoredValues(mid, es)
    ensures StoredValues(mid[e.id := e], es + [e])
  {
    var more, now := es + [e], mid[e.id := e];
    forall i | LastOfId(more, i) ensures more[i].id in now && now[more[i].id] == more[i] {
      if i < |es| { StillLast(es, e, i); }
    }
  }

  lemma OthersStay(base: map<string, Entry>, mid: map<string, Entry>, es: seq<Entry>, e: Entry)
    requires OthersAsBefore(base, mid, es)
    ensures OthersAsBefore(base, mid[e.id := e], es + [e])
  {
    HasNext(es, e);
  }

  lemma StillLast(es: seq<Entry>, e: Entry, i: nat)
    requires LastOfId(es + [e], i) && i < |es|
    ensures LastOfId(es, i) && (es + [e])[i] == es[i] && e.id != es[i].id
  {
    var more := es + [e];
    assert more[|es|].id != more[i].id;
    forall j | i < j < |es| ensures es[j].id != es[i].id { assert more[j].id != more[i].id; }
  }

  lemma MemberStored(base: Zsets, mid: Zsets, es: seq<Entry>, e: Entry)
    requires StoredMembers(base, mid, es)
    ensures StoredMembers(base, IndexEntry(mid, e), es + [e])
  {
    HasNext(es, e);
    forall key, m
      ensures m in ZOf(IndexEntry(mid, e), key) <==> m in ZOf(base, key) || HasMember(es + [e], key, m)
    {
      MembersAdded(mid, e, key, m);
    }
  }

  lemma BatchStored(base: map<string, map<string, int>>, mid: map<string, map<string, int>>, es: seq<Entry>, e: Entry)
    requires StoredInBatches(base, mid, es)
    ensures StoredInBatches(base, AddToBatch(mid, e), es + [e])
  {
    HasNext(es, e);
    forall b, id
      ensures InBatch(AddToBatch(mid, e), b, id) <==> InBatch(base, b, id) || HasInBatch(es + [e], b, id)
    {
      assert InBatch(AddToBatch(mid, e), b, id) <==> InBatch(mid, b, id) || (b == e.batchId && id == e.id);
    }
  }

  lemma TagsStored(base: map<string, int>, mid: map<string, int>, es: seq<Entry>, e: Entry)
    requires StoredTags(base, mid, es)
    ensures StoredTags(base, HincrTags(mid, e.tags), es + [e])
  {
    assert (es + [e])[..|es|] == es;
    forall t
      ensures CountOf(HincrTags(mid, e.tags), t) == CountOf(base, t) + Occurrences(es + [e], t)
      ensures t in HincrTags(mid, e.tags) <==> t in base || Occurrences(es + [e], t) > 0
    {
      HincrTagsFacts(mid, e.tags, t);
      assert t in e.tags <==> multiset(e.tags)[t] > 0;
    }
  }

  ghost predicate FreshIds(entries: map<string, Entry>, es: seq<Entry>) {
    && (forall i :: 0 <= i < |es| ==> es[i].id !in entries)
    && (forall i, j :: 0 <= i < j < |es| ==> es[i].id != es[j].id)
  }

  lemma {:induction false} NotStored(db: Db, es: seq<Entry>, id: string)
    requires id !in db.entries && forall i :: 0 <= i < |es| ==> es[i].id != id
    ensures id !in AddAll(db, es).entries
  {
    if es != [] { NotStored(db, es[..|es| - 1], id); }
  }

  /** Storing a batch of entries under fresh ids keeps the agreement. */
  lemma {:induction false} FreshKeeps(db: Db, es: seq<Entry>, n: nat)
    requires Agreement(db) && FreshIds(db.entries, es) && n <= |es|
    ensures Agreement(AddAll(db, es[..n]))
  {
    if n > 0 {
      FreshKeeps(db, es, n - 1);
      NotStored(db, es[..n - 1], es[n - 1].id);
      AddEntryKeeps(AddAll(db, es[..n - 1]), es[n - 1]);
      AddOneMore(db, es, n - 1);
    }
  }

  lemma NothingHandled(base: Db, scope: seq<string>, excluded: set<string>)
    requires Agreement(base)
    ensures Handled(base, base, scope, 0, excluded, 0, 0)
  {
    assert scope[..0] == [];
    RemoveEachFacts(base, []);
  }

  function TagsOf(found: Option<Entry>): multiset<string> {
    match found case Some(e) => multiset(e.tags) case None => multiset{}
  }

  lemma RemoveOneMore(db: Db, ms: seq<string>, m: string)
    ensures RemoveEach(db, ms + [m]) == RemoveMember(RemoveEach(db, ms), m, ReadEntry(db.entries, m))
    ensures TagLoss(db.entries, ms + [m]) == TagLoss(db.entries, ms) + TagsOf(ReadEntry(db.entries, m))
  {
    assert (ms + [m])[..|ms|] == ms;
  }

  lemma AddOneMore(db: Db, es: seq<Entry>, n: nat)
    requires n < |es|
    ensures AddAll(db, es[..n + 1]) == AddEntry(AddAll(db, es[..n]), es[n])
  {
    assert es[..n + 1][..n] == es[..n];
  }

  /** What the pipeline holds after `n` members. */
  ghost predicate Piped(found: map<string, Entry>, ms: seq<string>, n: nat, excluded: set<string>,
                        gone: seq<string>, removed: nat, skipped: nat, loss: multiset<string>)
  {
    && n <= |ms| && gone == Deletable(found, ms[..n], excluded) && loss == TagLoss(found, gone)
    && removed == |gone| && removed + skipped == n
  }

  lemma PipeNext(found: map<string, Entry>, ms: seq<string>, n: nat, excluded: set<string>,
                 gone: seq<string>, removed: nat, skipped: nat, loss: multiset<string>)
    requires Piped(found, ms, n, excluded, gone, removed, skipped, loss) && n < |ms|
    ensures if Spared(found, ms[n], excluded) then Piped(found, ms, n + 1, excluded, gone, removed, skipped + 1, loss)
            else Piped(found, ms, n + 1, excluded, gone + [ms[n]], removed + 1, skipped,
                       loss + TagsOf(ReadEntry(found, ms[n])))
  {
    assert ms[..n + 1][..n] == ms[..n];
    assert (gone + [ms[n]])[..|gone|] == gone;
  }

  /** The tag script, or its omission when no tag was lost, completes the removal. */
  lemma RemovalDone(db: Db, ms: seq<string>, excluded: set<string>)
    requires Agreement(db) && AllImplied(db.entries, ms)
    ensures var gone := Deletable(db.entries, ms, excluded);
            var loss, left := TagLoss(db.entries, gone), RemoveEach(db, gone);
            && Removed(db, left.(tags := DecrementTags(left.tags, loss)), gone)
            && (loss == multiset{} ==> DecrementTags(left.tags, loss) == left.tags)
  {
    var gone := Deletable(db.entries, ms, excluded);
    DeletableFacts(db.entries, ms, excluded);
    DeletableDistinct(db.entries, ms, excluded);
    RemovalKeeps(db, gone);
    RemoveEachFacts(db, gone);
    NoLoss(db);
  }

  function SourceOf(kind: Option<string>): IndexKey { if kind.Some? then ByKind(kind.value) else Global }

  /** The exclusions apply only to a scope over all types. */
  function ExcludedOf(kind: Option<string>, excludeTypes: set<string>): set<string> {
    if kind.None? then excludeTypes else {}
  }

  /**
    The first `scanned` members of the scope, oldest first, were looked at, and exactly the deletable
    ones of them are gone; `hasMore: false` means none is left, and `hasMore: true` with fewer
    deletions than asked for means that the scan budget was spent.
   */
  ghost predicate BatchOutcome(base: Db, db: Db, source: IndexKey, min: LexBound, excluded: set<string>, limit: nat,
                               deleted: nat, hasMore: bool, scanned: nat)
  {
    var scope := RevRangeFrom(ZOf(base.zsets, source), min);
    && scanned <= |scope| && deleted <= limit
    && Removed(base, db, Deletable(base.entries, scope[..scanned], excluded))
    && deleted == |Deletable(base.entries, scope[..scanned], excluded)|
    && (!hasMore ==> forall m :: m in RevRangeFrom(ZOf(db.zsets, source), min) ==> Spared(db.entries, m, excluded))
    && (hasMore && deleted < limit ==> scanned >= SCAN_BUDGET_MULTIPLE * limit)
  }

  /** No tag is counted zero times, so subtracting nothing drops nothing. */
  lemma NoLoss(db: Db)
    requires Agreement(db)
    ensures DecrementTags(db.tags, multiset{}) == db.tags
  {
  }
}
