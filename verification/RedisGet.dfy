/**
  The Redis provider's paged read. An index lists a millisecond's entries by ascending id while a
  page lists them by descending id, so whole milliseconds are read before sorting.
 */
module RedisGet {
  import opened Entries
  import opened Pages
  import opened ColdFilters
  import opened TextSearch
  import opened LexKey
  import opened RedisIndexes
  import opened RedisStore

  /** The one index a query reads: family, else type, else tag, else global. */
  function PrimaryIndex(q: EntryQuery): IndexKey {
    if q.family.Some? then ByFamily(q.family.value)
    else if q.kind.Some? then ByKind(q.kind.value)
    else if q.tag.Some? then ByTag(q.tag.value)
    else Global
  }

  predicate SearchFinds(e: Entry, search: string) {
    e.content.Some? && Contains(Lower(e.content.value), Lower(search))
  }

  /** The predicates the chosen index does not cover. */
  predicate MatchesSecondary(e: Entry, q: EntryQuery, key: IndexKey) {
    && (q.kind.Some? && key != ByKind(q.kind.value) ==> e.kind == q.kind.value)
    && (q.tag.Some? && key != ByTag(q.tag.value) ==> q.tag.value in e.tags)
    && (q.family.Some? && key != ByFamily(q.family.value) ==> e.family == q.family)
    && (q.batchId.Some? ==> e.batchId == q.batchId.value)
    && (q.traceId.Some? ==> e.traceId == q.traceId)
    && (q.search.Some? ==> SearchFinds(e, q.search.value))
  }

  predicate NeedsPostFilter(q: EntryQuery, key: IndexKey) {
    || (q.kind.Some? && key != ByKind(q.kind.value))
    || (q.tag.Some? && key != ByTag(q.tag.value))
    || (q.family.Some? && key != ByFamily(q.family.value))
    || q.batchId.Some? || q.traceId.Some? || q.search.Some?
  }

  /** The scan starts at the first member of the cursor's millisecond, or at `before` if the index has that later. */
  function MinBound(q: EntryQuery): LexBound {
    var min := MinBefore(q.before);
    if q.cursor.Some? && (min.Unbounded? || Less(min.s, InvBound(q.cursor.value.at)))
    then Incl(InvBound(q.cursor.value.at)) else min
  }

  predicate AlreadyReturned(e: Entry, cursor: Option<Position>) {
    cursor.Some? && e.at == cursor.value.at && !Less(e.id, cursor.value.id)
  }

  /** Whether an entry read for a member is kept. */
  predicate Keeps(e: Entry, q: EntryQuery, key: IndexKey) {
    && !AlreadyReturned(e, q.cursor)
    && (NeedsPostFilter(q, key) ==> MatchesSecondary(e, q, key))
  }

  // ---------------------------------------------------------------- ranges of an index

  function RangeOf(s: seq<string>, min: LexBound, max: LexBound): seq<string> {
    if s == [] then []
    else if AtLeast(s[0], min) && AtMost(s[0], max) then [s[0]] + RangeOf(s[1..], min, max)
    else RangeOf(s[1..], min, max)
  }

  /** `ZRANGEBYLEX … LIMIT 0 count`. */
  function ZrangeByLex(s: seq<string>, min: LexBound, max: LexBound, count: nat): seq<string> {
    var range := RangeOf(s, min, max);
    if |range| <= count then range else range[..count]
  }

  lemma {:induction false} RangeOfFacts(s: seq<string>, min: LexBound, max: LexBound)
    ensures forall m :: m in RangeOf(s, min, max) <==> m in s && AtLeast(m, min) && AtMost(m, max)
    ensures Ascending(s) ==> Ascending(RangeOf(s, min, max))
  {
    if s != [] {
      RangeOfFacts(s[1..], min, max);
      var r := RangeOf(s[1..], min, max);
      forall j | 0 <= j < |r| && Ascending(s) ensures Less(s[0], r[j]) { assert r[j] in s[1..]; }
    }
  }

  /** A strictly ascending list is determined by its members. */
  lemma {:induction false} AscendingUnique(s: seq<string>, t: seq<string>)
    requires Ascending(s) && Ascending(t) && forall m :: m in s <==> m in t
    ensures s == t
  {
    BothEmpty(s, t);
    if s != [] {
      FirstSame(s, t);
      forall m ensures m in s[1..] <==> m in t[1..] {
        StrictlySorted(s);
        StrictlySorted(t);
        assert m in s <==> m == s[0] || m in s[1..];
        assert m in t <==> m == t[0] || m in t[1..];
        assert s[0] !in s[1..] && t[0] !in t[1..];
      }
      AscendingUnique(s[1..], t[1..]);
      assert s == [s[0]] + s[1..] && t == [t[0]] + t[1..];
    }
  }

  lemma BothEmpty(s: seq<string>, t: seq<string>)
    requires forall m :: m in s <==> m in t
    ensures s == [] <==> t == []
  {
    if s != [] { assert s[0] in s; }
    if t != [] { assert t[0] in t; }
  }

  lemma FirstSame(s: seq<string>, t: seq<string>)
    requires Ascending(s) && Ascending(t) && s != [] && forall m :: m in s <==> m in t
    ensures t != [] && s[0] == t[0]
  {
    BothEmpty(s, t);
    assert s[0] in t && t[0] in s;
    LessTrichotomy(s[0], t[0]);
  }

  /** Excluding everything up to the last member read leaves exactly the rest of the range. */
  lemma RangeContinues(s: seq<string>, min: LexBound, max: LexBound, p: nat)
    requires Ascending(s) && 0 < p <= |RangeOf(s, min, max)|
    ensures RangeOf(s, Excl(RangeOf(s, min, max)[p - 1]), max) == RangeOf(s, min, max)[p..]
  {
    var range := RangeOf(s, min, max);
    var last := range[p - 1];
    RangeOfFacts(s, min, max);
    RangeOfFacts(s, Excl(last), max);
    forall m ensures m in RangeOf(s, Excl(last), max) <==> m in range[p..] {
      if m in range[p..] {
        var j :| p <= j < |range| && range[j] == m;
        assert m in range;
      }
      if m in s && Less(last, m) && AtMost(m, max) {
        assert last in range;
        StillAtLeast(last, m, min);
        var j :| 0 <= j < |range| && range[j] == m;
        LessTrichotomy(m, last);
        assert j > p - 1;
        assert m == range[p..][j - p];
      }
    }
    AscendingUnique(RangeOf(s, Excl(last), max), range[p..]);
  }

  lemma StillAtLeast(m: string, m2: string, min: LexBound)
    requires AtLeast(m, min) && Less(m, m2)
    ensures AtLeast(m2, min)
  {
    if min.Incl? {
      LessTrichotomy(m, min.s);
      if Less(m2, min.s) { LessTransitive(m, m2, min.s); }
    }
    if min.Excl? { LessTransitive(min.s, m, m2); }
  }

  // ---------------------------------------------------------------- the scan

  /** What an index member contributes: its entry, if it is there and kept, as the page shows it. */
  function KeptEntry(entries: map<string, Entry>, q: EntryQuery, key: IndexKey, m: string): Option<Entry> {
    var found := ReadEntry(entries, m);
    if found.Some? && Keeps(found.value, q, key) then Some(Project(found.value, q.omitContent)) else None
  }

  /** The prefix that the members of one millisecond share. */
  function Inv(m: string): string {
    var colon := IndexOf(m, ':');
    if colon >= 0 then m[..colon] else m
  }

  /** What the first `n` members of the range contribute. */
  function KeptOf(ms: seq<string>, n: nat, keep: string -> Option<Entry>): seq<Entry>
    requires n <= |ms|
  {
    if n == 0 then []
    else
      var kept := KeptOf(ms, n - 1, keep);
      if keep(ms[n - 1]).Some? then kept + [keep(ms[n - 1]).value] else kept
  }

  /** What the scan's variables hold after `p` members of the range. */
  ghost predicate Scanned(range: seq<string>, p: nat, keep: string -> Option<Entry>, inv: string -> string,
                          kept: seq<Entry>, groupInv: Option<string>)
  {
    && p <= |range| && kept == KeptOf(range, p, keep)
    && groupInv == (if p == 0 then None else Some(inv(range[p - 1])))
  }

  /** The scan may end after `p` members: at the end, or with enough at a millisecond boundary. */
  ghost predicate MayStop(range: seq<string>, p: nat, inv: string -> string, kept: seq<Entry>, limit: nat) {
    p == |range| || (0 < p < |range| && |kept| > limit && inv(range[p]) != inv(range[p - 1]))
  }

  /** One page of members: `members == range[from..from + |members|]`. */
  method ReadGroup(ghost range: seq<string>, from: nat, members: seq<string>, keep: string -> Option<Entry>,
                   inv: string -> string, limit: nat, held: seq<Entry>, group: Option<string>)
    returns (kept: seq<Entry>, groupInv: Option<string>, p: nat, stopped: bool)
    requires from + |members| <= |range| && members == range[from..from + |members|]
    requires Scanned(range, from, keep, inv, held, group)
    ensures Scanned(range, p, keep, inv, kept, groupInv)
    ensures !stopped ==> p == from + |members|
    ensures stopped ==> MayStop(range, p, inv, kept, limit)
  {
    kept, groupInv, p := held, group, from;
    for i := 0 to |members|
      invariant p == from + i && Scanned(range, p, keep, inv, kept, groupInv)
    {
      assert members[i] == range[p];
      // A full page ends the scan only at the first member of another millisecond.
      if |kept| > limit && Some(inv(members[i])) != groupInv {
        return kept, groupInv, p, true;
      }
      groupInv := Some(inv(members[i]));
      p := p + 1;
      var found := keep(members[i]);
      if found.Some? { kept := kept + [found.value]; }
    }
    stopped := false;
  }

  /** `rest` is what a range of the index still has to give. */
  ghost predicate Rest(index: seq<string>, min: LexBound, max: LexBound, rest: seq<string>) {
    RangeOf(index, min, max) == rest
  }

  method FetchPage(index: seq<string>, min: LexBound, max: LexBound, count: nat, ghost range: seq<string>, ghost p: nat)
    returns (members: seq<string>)
    requires p <= |range| && Rest(index, min, max, range[p..])
    ensures p + |members| <= |range| && members == range[p..p + |members|]
    ensures |members| < count ==> p + |members| == |range|
    ensures members == [] && count > 0 ==> p == |range|
  {
    members := ZrangeByLex(index, min, max, count);
  }

  /** Pages of `limit + 1` members until the range ends or a boundary is met with more than `limit` kept. */
  method ScanIndex(index: seq<string>, start: LexBound, max: LexBound, keep: string -> Option<Entry>,
                   inv: string -> string, limit: nat)
    returns (kept: seq<Entry>, p: nat)
    requires Ascending(index)
    ensures var range := RangeOf(index, start, max);
            p <= |range| && kept == KeptOf(range, p, keep) && MayStop(range, p, inv, kept, limit)
  {
    ghost var range := RangeOf(index, start, max);
    kept, p := ScanRange(index, start, max, keep, inv, limit, range);
  }

  method ScanRange(index: seq<string>, start: LexBound, max: LexBound, keep: string -> Option<Entry>,
                   inv: string -> string, limit: nat, ghost range: seq<string>)
    returns (kept: seq<Entry>, p: nat)
    requires Ascending(index) && Rest(index, start, max, range)
    ensures p <= |range| && kept == KeptOf(range, p, keep) && MayStop(range, p, inv, kept, limit)
  {
    var min, groupInv: Option<string> := start, None;
    kept, p := [], 0;
    while true
      invariant Scanned(range, p, keep, inv, kept, groupInv)
      invariant Rest(index, min, max, range[p..])
      decreases |range| - p
    {
      var members := FetchPage(index, min, max, limit + 1, range, p);
      if members == [] { return; }
      var stopped;
      kept, groupInv, p, stopped := ReadGroup(range, p, members, keep, inv, limit, kept, groupInv);
      if stopped || |members| <= limit { return; }
      min := Excl(members[|members| - 1]);
      NextRest(index, start, max, range, p);
    }
  }

  lemma NextRest(index: seq<string>, start: LexBound, max: LexBound, range: seq<string>, p: nat)
    requires Ascending(index) && Rest(index, start, max, range) && 0 < p <= |range|
    ensures Rest(index, Excl(range[p - 1]), max, range[p..])
  {
    RangeContinues(index, start, max, p);
  }

  // ---------------------------------------------------------------- what the scan finds

  /** The entries within the range's bounds that are kept. */
  ghost function Found(entries: map<string, Entry>, q: EntryQuery): set<Entry> {
    set id | id in entries
             && InIndex(entries[id], PrimaryIndex(q))
             && AtLeast(MemberOf(entries[id]), MinBound(q)) && AtMost(MemberOf(entries[id]), MaxAfter(q.after))
             && Keeps(entries[id], q, PrimaryIndex(q))
           :: Project(entries[id], q.omitContent)
  }

  lemma {:induction false} KeptMember(ms: seq<string>, n: nat, keep: string -> Option<Entry>, e: Entry)
    requires n <= |ms|
    ensures e in KeptOf(ms, n, keep) <==> exists i :: 0 <= i < n && keep(ms[i]) == Some(e)
  {
    if n > 0 { KeptMember(ms, n - 1, keep, e); }
  }

  /** Members list newer instants first, each id once. */
  ghost predicate Timeline(range: seq<string>, keep: string -> Option<Entry>) {
    forall i, j :: 0 <= i < j < |range| && keep(range[i]).Some? && keep(range[j]).Some? ==>
      && keep(range[i]).value.at >= keep(range[j]).value.at
      && keep(range[i]).value.id != keep(range[j]).value.id
  }

  /** The members before `p` are of later instants than the others. */
  ghost predicate Boundary(range: seq<string>, p: nat, keep: string -> Option<Entry>) {
    forall i, j :: 0 <= i < p <= j < |range| && keep(range[i]).Some? && keep(range[j]).Some? ==>
      keep(range[i]).value.at > keep(range[j]).value.at
  }

  lemma {:induction false} KeptIdsOnce(range: seq<string>, n: nat, keep: string -> Option<Entry>)
    requires n <= |range| && Timeline(range, keep)
    ensures forall i, j :: 0 <= i < j < |KeptOf(range, n, keep)| ==>
              KeptOf(range, n, keep)[i].id != KeptOf(range, n, keep)[j].id
  {
    if n > 0 {
      KeptIdsOnce(range, n - 1, keep);
      var kept := KeptOf(range, n - 1, keep);
      forall i | 0 <= i < |kept| && keep(range[n - 1]).Some? ensures kept[i].id != keep(range[n - 1]).value.id {
        KeptMember(range, n - 1, keep, kept[i]);
        var k :| 0 <= k < n - 1 && keep(range[k]) == Some(kept[i]);
      }
    }
  }

  /** Stopping at a boundary leaves only older entries behind, so the newest `limit` are known. */
  lemma StoppedCovers(range: seq<string>, p: nat, keep: string -> Option<Entry>, limit: nat)
    requires Timeline(range, keep) && p <= |range|
    requires p < |range| ==> |KeptOf(range, p, keep)| > limit && Boundary(range, p, keep)
    ensures Covers(Elems(KeptOf(range, p, keep)), Elems(KeptOf(range, |range|, keep)), limit + 1)
    ensures Distinct(KeptOf(range, p, keep)) && Agree(Elems(KeptOf(range, |range|, keep)))
  {
    var kept, all := KeptOf(range, p, keep), KeptOf(range, |range|, keep);
    KeptIdsOnce(range, p, keep);
    KeptIdsOnce(range, |range|, keep);
    IdsOnceAgree(all);
    DistinctSize(kept);
    forall e | e in kept ensures e in all {
      KeptMember(range, p, keep, e);
      KeptMember(range, |range|, keep, e);
    }
    if p < |range| {
      forall e, x | e in all && e !in kept && x in kept ensures Newer(x, e) {
        LaterIsOlder(range, p, keep, x, e);
      }
      CoversOlder(Elems(kept), Elems(all), limit + 1);
    }
  }

  lemma LaterIsOlder(range: seq<string>, p: nat, keep: string -> Option<Entry>, x: Entry, e: Entry)
    requires p < |range| && Boundary(range, p, keep)
    requires x in KeptOf(range, p, keep) && e in KeptOf(range, |range|, keep) && e !in KeptOf(range, p, keep)
    ensures Newer(x, e)
  {
    KeptMember(range, p, keep, e);
    KeptMember(range, |range|, keep, e);
    KeptMember(range, p, keep, x);
    var i :| 0 <= i < p && keep(range[i]) == Some(x);
    var j :| 0 <= j < |range| && keep(range[j]) == Some(e);
    assert p <= j;
  }

  lemma IdsOnceAgree(s: seq<Entry>)
    requires forall i, j :: 0 <= i < j < |s| ==> s[i].id != s[j].id
    ensures Agree(Elems(s))
  {
    forall a, b | a in Elems(s) && b in Elems(s) && a.id == b.id ensures a == b {
      var i :| 0 <= i < |s| && s[i] == a;
      var j :| 0 <= j < |s| && s[j] == b;
    }
  }

  function TimeOf(entries: map<string, Entry>, m: string): int {
    if IdFromMember(m) in entries then entries[IdFromMember(m)].at else 0
  }

  /** Two members of an index that are in order are of instants in reverse order. */
  lemma MembersInOrder(entries: map<string, Entry>, m: string, m2: string)
    requires Implied(entries, Global, m) && Implied(entries, Global, m2) && Less(m, m2) && Timed(entries)
    ensures TimeOf(entries, m) >= TimeOf(entries, m2)
    ensures Inv(m) == Inv(m2) <==> TimeOf(entries, m) == TimeOf(entries, m2)
  {
    var e, e2 := entries[IdFromMember(m)], entries[IdFromMember(m2)];
    MemberOrder(e.at, e.id, e2.at, e2.id);
    MemberDecodes(e.at, e.id);
    MemberDecodes(e2.at, e2.id);
    InvOrder(e.at, e2.at);
  }

  ghost predicate FromIndex(entries: map<string, Entry>, range: seq<string>) {
    && Ascending(range) && Timed(entries) && (forall id :: id in entries ==> entries[id].id == id)
    && forall m :: m in range ==> Implied(entries, Global, m)
  }

  function Keeper(entries: map<string, Entry>, q: EntryQuery, key: IndexKey): string -> Option<Entry> {
    m => KeptEntry(entries, q, key, m)
  }

  lemma PairInOrder(entries: map<string, Entry>, range: seq<string>, i: nat, j: nat)
    requires FromIndex(entries, range) && i <= j < |range|
    ensures TimeOf(entries, range[i]) >= TimeOf(entries, range[j])
    ensures i < j ==> IdFromMember(range[i]) != IdFromMember(range[j])
    ensures i < j && Inv(range[i]) != Inv(range[j]) ==> TimeOf(entries, range[i]) > TimeOf(entries, range[j])
  {
    if i < j {
      assert range[i] in range && range[j] in range;
      MembersInOrder(entries, range[i], range[j]);
      LessTrichotomy(range[i], range[j]);
    }
  }

  lemma KeeperFacts(entries: map<string, Entry>, q: EntryQuery, key: IndexKey, m: string)
    requires (forall id :: id in entries ==> entries[id].id == id) && Keeper(entries, q, key)(m).Some?
    ensures Keeper(entries, q, key)(m).value.id == IdFromMember(m)
    ensures Keeper(entries, q, key)(m).value.at == TimeOf(entries, m)
  {
  }

  lemma RangeTimeline(entries: map<string, Entry>, range: seq<string>, q: EntryQuery, key: IndexKey)
    requires FromIndex(entries, range)
    ensures Timeline(range, Keeper(entries, q, key))
  {
    var keep := Keeper(entries, q, key);
    forall i, j | 0 <= i < j < |range| && keep(range[i]).Some? && keep(range[j]).Some?
      ensures keep(range[i]).value.at >= keep(range[j]).value.at
      ensures keep(range[i]).value.id != keep(range[j]).value.id
    {
      PairInOrder(entries, range, i, j);
      KeeperFacts(entries, q, key, range[i]);
      KeeperFacts(entries, q, key, range[j]);
    }
  }

  /** `times` gives the instants of a range's members; where the shared prefix changes, they do. */
  ghost predicate Clocked(range: seq<string>, keep: string -> Option<Entry>, inv: string -> string, times: seq<int>) {
    && |times| == |range|
    && (forall i, j :: 0 <= i <= j < |times| ==> times[i] >= times[j])
    && (forall i, j :: 0 <= i < j < |times| && inv(range[i]) != inv(range[j]) ==> times[i] > times[j])
    && (forall i :: 0 <= i < |range| && keep(range[i]).Some? ==> keep(range[i]).value.at == times[i])
  }

  lemma ClockedBoundary(range: seq<string>, p: nat, keep: string -> Option<Entry>, inv: string -> string,
                        times: seq<int>, kept: seq<Entry>, limit: nat)
    requires Clocked(range, keep, inv, times) && p < |range| && MayStop(range, p, inv, kept, limit)
    ensures Boundary(range, p, keep)
  {
    assert times[p - 1] > times[p];
    forall i, j | 0 <= i < p <= j < |range| && keep(range[i]).Some? && keep(range[j]).Some?
      ensures keep(range[i]).value.at > keep(range[j]).value.at
    {
      assert times[i] >= times[p - 1] && times[p] >= times[j];
    }
  }

  function Times(entries: map<string, Entry>, range: seq<string>): seq<int> {
    seq(|range|, i requires 0 <= i < |range| => TimeOf(entries, range[i]))
  }

  lemma RangeClocked(entries: map<string, Entry>, range: seq<string>, q: EntryQuery, key: IndexKey)
    requires FromIndex(entries, range)
    ensures Clocked(range, Keeper(entries, q, key), Inv, Times(entries, range))
  {
    var keep, times := Keeper(entries, q, key), Times(entries, range);
    forall i, j | 0 <= i <= j < |times|
      ensures times[i] >= times[j]
      ensures i < j && Inv(range[i]) != Inv(range[j]) ==> times[i] > times[j]
    {
      PairInOrder(entries, range, i, j);
    }
    forall i | 0 <= i < |range| && keep(range[i]).Some? ensures keep(range[i]).value.at == times[i] {
      KeeperFacts(entries, q, key, range[i]);
    }
  }

  // ---------------------------------------------------------------- the page

  lemma FoundByScan(entries: map<string, Entry>, z: Zsets, q: EntryQuery, range: seq<string>)
    requires IndexesAgree(entries, z)
    requires range == RangeOf(ZOf(z, PrimaryIndex(q)), MinBound(q), MaxAfter(q.after))
    ensures Elems(KeptOf(range, |range|, Keeper(entries, q, PrimaryIndex(q)))) == Found(entries, q)
  {
    var keep := Keeper(entries, q, PrimaryIndex(q));
    forall e ensures e in KeptOf(range, |range|, keep) <==> e in Found(entries, q) {
      KeptMember(range, |range|, keep, e);
      if i :| 0 <= i < |range| && keep(range[i]) == Some(e) {
        InRangeIsFound(entries, z, q, range, range[i], e);
      }
      if e in Found(entries, q) {
        var id :| id in entries && InIndex(entries[id], PrimaryIndex(q))
                  && AtLeast(MemberOf(entries[id]), MinBound(q)) && AtMost(MemberOf(entries[id]), MaxAfter(q.after))
                  && Keeps(entries[id], q, PrimaryIndex(q)) && e == Project(entries[id], q.omitContent);
        FoundIsInRange(entries, z, q, range, id);
        var i :| 0 <= i < |range| && range[i] == MemberOf(entries[id]);
        assert keep(range[i]) == Some(e);
      }
    }
  }

  lemma InRangeIsFound(entries: map<string, Entry>, z: Zsets, q: EntryQuery, range: seq<string>, m: string, e: Entry)
    requires IndexesAgree(entries, z)
    requires range == RangeOf(ZOf(z, PrimaryIndex(q)), MinBound(q), MaxAfter(q.after))
    requires m in range && KeptEntry(entries, q, PrimaryIndex(q), m) == Some(e)
    ensures e in Found(entries, q)
  {
    RangeOfFacts(ZOf(z, PrimaryIndex(q)), MinBound(q), MaxAfter(q.after));
    assert Implied(entries, PrimaryIndex(q), m);
  }

  lemma FoundIsInRange(entries: map<string, Entry>, z: Zsets, q: EntryQuery, range: seq<string>, id: string)
    requires IndexesAgree(entries, z) && id in entries && InIndex(entries[id], PrimaryIndex(q))
    requires range == RangeOf(ZOf(z, PrimaryIndex(q)), MinBound(q), MaxAfter(q.after))
    requires AtLeast(MemberOf(entries[id]), MinBound(q)) && AtMost(MemberOf(entries[id]), MaxAfter(q.after))
    ensures MemberOf(entries[id]) in range && ReadEntry(entries, MemberOf(entries[id])) == Some(entries[id])
  {
    RangeOfFacts(ZOf(z, PrimaryIndex(q)), MinBound(q), MaxAfter(q.after));
    ImpliedMember(entries, PrimaryIndex(q), entries[id]);
    IdInverts(entries[id].at, id);
  }

  lemma RangeFromIndex(entries: map<string, Entry>, z: Zsets, key: IndexKey, min: LexBound, max: LexBound)
    requires IndexesAgree(entries, z) && Timed(entries)
    ensures FromIndex(entries, RangeOf(ZOf(z, key), min, max))
  {
    var range := RangeOf(ZOf(z, key), min, max);
    RangeOfFacts(ZOf(z, key), min, max);
    forall m | m in range ensures Implied(entries, Global, m) {
      assert Implied(entries, key, m);
    }
  }

  /** The entries kept when the scan stops decide the newest `limit`, and whether there are more. */
  lemma ScanDecides(entries: map<string, Entry>, z: Zsets, q: EntryQuery, p: nat, limit: nat)
    requires IndexesAgree(entries, z) && Timed(entries)
    requires var range := RangeOf(ZOf(z, PrimaryIndex(q)), MinBound(q), MaxAfter(q.after));
             p <= |range|
             && MayStop(range, p, Inv, KeptOf(range, p, Keeper(entries, q, PrimaryIndex(q))), limit)
    ensures var range := RangeOf(ZOf(z, PrimaryIndex(q)), MinBound(q), MaxAfter(q.after));
            var kept := KeptOf(range, p, Keeper(entries, q, PrimaryIndex(q)));
            && Distinct(kept) && Agree(Found(entries, q)) && Covers(Elems(kept), Found(entries, q), limit + 1)
  {
    var key := PrimaryIndex(q);
    var range := RangeOf(ZOf(z, key), MinBound(q), MaxAfter(q.after));
    RangeFromIndex(entries, z, key, MinBound(q), MaxAfter(q.after));
    RangeTimeline(entries, range, q, key);
    RangeClocked(entries, range, q, key);
    var kept := KeptOf(range, p, Keeper(entries, q, key));
    if p < |range| { ClockedBoundary(range, p, Keeper(entries, q, key), Inv, Times(entries, range), kept, limit); }
    StoppedCovers(range, p, Keeper(entries, q, key), limit);
    FoundByScan(entries, z, q, range);
  }

  function MakePage(kept: seq<Entry>, limit: nat): Page
    requires limit >= 1
  {
    var data := Take(SortNewest(kept), Some(limit));
    Page(data, if |kept| > limit then Some(PositionOf(data[limit - 1])) else None)
  }

  ghost predicate ExactPage(page: Page, found: set<Entry>, limit: nat) {
    && Agree(found) && page.data == TopK(found, limit)
    && (page.next.Some? <==> |found| > limit)
    && (page.next.Some? ==> page.data != [] && page.next == Some(PositionOf(page.data[|page.data| - 1])))
  }

  lemma MakePageExact(kept: seq<Entry>, found: set<Entry>, limit: nat)
    requires limit >= 1 && Distinct(kept) && Agree(found) && Covers(Elems(kept), found, limit + 1)
    ensures ExactPage(MakePage(kept, limit), found, limit)
  {
    CoversTopK(Elems(kept), found, limit + 1);
    assert Covers(Elems(kept), found, limit);
    CoversTopK(Elems(kept), found, limit);
    TopOfDistinct(kept, limit);
    DistinctSize(kept);
    SubsetSize(Elems(kept), found);
  }

  /** The newest `limit` entries the range and the filters select, with an exact next cursor. */
  method Get(entries: map<string, Entry>, z: Zsets, q: EntryQuery) returns (page: Page)
    requires IndexesAgree(entries, z) && Timed(entries)
    ensures ExactPage(page, Found(entries, q), ResolveLimit(q.limit))
  {
    var limit, key := ResolveLimit(q.limit), PrimaryIndex(q);
    var kept, p := ScanIndex(ZOf(z, key), MinBound(q), MaxAfter(q.after), Keeper(entries, q, key), Inv, limit);
    ScanDecides(entries, z, q, p, limit);
    MakePageExact(kept, Found(entries, q), limit);
    page := MakePage(kept, limit);
  }

  // ---------------------------------------------------------------- what was asked for

  /** The instants of a query are ones the bounds are exact for. */
  predicate BoundsExact(q: EntryQuery) {
    && (q.before.Some? ==> q.before.value >= 1)
    && (q.after.Some? ==> q.after.value >= 0)
    && (q.cursor.Some? ==> InRange(q.cursor.value.at))
  }

  /** The later of two inclusive bounds is both of them. */
  lemma LaterBound(m: string, a: string, b: string)
    ensures AtLeast(m, Incl(if Less(a, b) then b else a)) <==> AtLeast(m, Incl(a)) && AtLeast(m, Incl(b))
  {
    if Less(a, b) {
      if Less(m, a) { LessTransitive(m, a, b); }
    } else {
      LessTrichotomy(a, b);
      if Less(m, b) && Less(b, a) { LessTransitive(m, b, a); }
    }
  }

  lemma FromCursor(e: Entry, cursor: Position)
    requires InRange(e.at) && InRange(cursor.at)
    ensures AtLeast(MemberOf(e), Incl(InvBound(cursor.at))) <==> e.at <= cursor.at
  {
    AgainstInv(e.at, e.id, cursor.at);
  }

  lemma MinSelects(e: Entry, q: EntryQuery)
    requires InRange(e.at) && BoundsExact(q)
    ensures AtLeast(MemberOf(e), MinBound(q))
            <==> (q.before.Some? ==> e.at < q.before.value) && (q.cursor.Some? ==> e.at <= q.cursor.value.at)
  {
    if q.before.Some? { BeforeSelects(e.at, e.id, q.before.value); }
    if q.cursor.Some? {
      FromCursor(e, q.cursor.value);
      if q.before.Some? {
        LaterBound(MemberOf(e), InvBound(q.before.value - 1), InvBound(q.cursor.value.at));
      }
    }
  }

  lemma FiltersAreWanted(e: Entry, q: EntryQuery)
    requires q.ids.None? && InIndex(e, PrimaryIndex(q))
    ensures Keeps(e, q, PrimaryIndex(q)) <==>
            !AlreadyReturned(e, q.cursor) && Wanted(e, q.(before := None, after := None))
  {
  }

  lemma WantedIndexed(e: Entry, q: EntryQuery)
    requires Wanted(e, q)
    ensures InIndex(e, PrimaryIndex(q))
  {
  }

  lemma FoundIff(e: Entry, q: EntryQuery)
    requires InRange(e.at) && BoundsExact(q) && q.ids.None?
    ensures InIndex(e, PrimaryIndex(q)) && AtLeast(MemberOf(e), MinBound(q)) && AtMost(MemberOf(e), MaxAfter(q.after))
            && Keeps(e, q, PrimaryIndex(q))
            <==> Wanted(e, q) && (q.cursor.Some? ==> Behind(e, q.cursor.value))
  {
    MinSelects(e, q);
    if q.after.Some? { AfterSelects(e.at, e.id, q.after.value); }
    var open := q.(before := None, after := None);
    assert Wanted(e, q) <==> Wanted(e, open) && (q.before.Some? ==> e.at < q.before.value)
                             && (q.after.Some? ==> e.at > q.after.value);
    if InIndex(e, PrimaryIndex(q)) { FiltersAreWanted(e, q); }
    if Wanted(e, q) { WantedIndexed(e, q); }
  }

  /** For bounds within the codec's range, the page is what every storage provider promises. */
  lemma FoundIsWanted(entries: map<string, Entry>, q: EntryQuery)
    requires Timed(entries) && BoundsExact(q) && q.ids.None?
    ensures Found(entries, q) == Hits(entries.Values, q)
  {
    forall x ensures x in Found(entries, q) <==> x in Hits(entries.Values, q) {
      if x in Found(entries, q) {
        var id :| id in entries && InIndex(entries[id], PrimaryIndex(q))
                  && AtLeast(MemberOf(entries[id]), MinBound(q)) && AtMost(MemberOf(entries[id]), MaxAfter(q.after))
                  && Keeps(entries[id], q, PrimaryIndex(q)) && x == Project(entries[id], q.omitContent);
        FoundIff(entries[id], q);
        assert entries[id] in entries.Values;
      }
      if x in Hits(entries.Values, q) {
        var e :| e in entries.Values && Wanted(e, q) && (q.cursor.Some? ==> Behind(e, q.cursor.value))
                 && x == Project(e, q.omitContent);
        var id :| id in entries && entries[id] == e;
        FoundIff(e, q);
      }
    }
  }

  /** Paging and filtering by the query alone, whatever keys, members and bounds it is done with. */
  method GetPage(entries: map<string, Entry>, z: Zsets, q: EntryQuery) returns (page: Page)
    requires IndexesAgree(entries, z) && Timed(entries) && q.ids.None?
    ensures BoundsExact(q) ==> ExactPage(page, Hits(entries.Values, q), ResolveLimit(q.limit))
  {
    page := Get(entries, z, q);
    if BoundsExact(q) { FoundIsWanted(entries, q); }
  }

  // ---------------------------------------------------------------- reading by ids

  predicate IdPathKeeps(e: Entry, q: EntryQuery) {
    && Wanted(e, q.(ids := None))
    && (q.cursor.Some? ==> Behind(e, q.cursor.value))
  }

  /** One `MGET` of the ids in the order asked; missing ids are absent, repeated ones repeated. */
  function FetchIds(entries: map<string, Entry>, ids: seq<string>, q: EntryQuery): seq<Entry> {
    if ids == [] then []
    else
      var rest := FetchIds(entries, ids[1..], q);
      if ids[0] in entries && IdPathKeeps(entries[ids[0]], q) then [Project(entries[ids[0]], q.omitContent)] + rest
      else rest
  }

  /** No hit asked for more than once has room on the page for its second copy. */
  ghost predicate RepeatsHidden(entries: map<string, Entry>, q: EntryQuery, limit: nat)
    requires q.ids.Some?
  {
    forall id :: id in entries && IdPathKeeps(entries[id], q) && multiset(q.ids.value)[id] >= 2 ==>
      RowsNewer(FetchIds(entries, q.ids.value, q), Project(entries[id], q.omitContent)) + 1 >= limit
  }

  /**
    Reading by ids. The page is the newest `limit` hits if and only if no hit asked for more than once
    has fewer than `limit - 1` fetched rows, repeats counted, newer than it; and the next cursor is
    given when it should be if and only if all fetched rows fit the page or more hits than fit exist.
   */
  method GetByIds(entries: map<string, Entry>, q: EntryQuery) returns (page: Page)
    requires q.ids.Some? && forall id :: id in entries ==> entries[id].id == id
    ensures var limit, hits := ResolveLimit(q.limit), Hits(entries.Values, q);
            && Agree(hits)
            && (page.data == TopK(hits, limit) <==> RepeatsHidden(entries, q, limit))
            && ((page.next.Some? <==> |hits| > limit) <==>
                  |FetchIds(entries, q.ids.value, q)| <= limit || |hits| > limit)
            && (Distinct(q.ids.value) ==> ExactPage(page, hits, limit))
  {
    var limit := ResolveLimit(q.limit);
    var remaining := FetchIds(entries, q.ids.value, q);
    FetchedHits(entries, q.ids.value, q);
    ValuesAgree(entries, q);
    ElemsSize(remaining);
    IdPageExact(entries, q, limit);
    if Distinct(q.ids.value) {
      FetchedOnce(entries, q.ids.value, q);
      CoversSelf(Elems(remaining), limit + 1);
      MakePageExact(remaining, Hits(entries.Values, q), limit);
    }
    page := MakePage(remaining, limit);
  }

  lemma IdPageExact(entries: map<string, Entry>, q: EntryQuery, limit: nat)
    requires q.ids.Some? && limit >= 1 && forall id :: id in entries ==> entries[id].id == id
    ensures Agree(Hits(entries.Values, q))
    ensures MakePage(FetchIds(entries, q.ids.value, q), limit).data == TopK(Hits(entries.Values, q), limit)
            <==> RepeatsHidden(entries, q, limit)
  {
    var fetched := FetchIds(entries, q.ids.value, q);
    FetchedHits(entries, q.ids.value, q);
    ValuesAgree(entries, q);
    TopDistinctExact(fetched, limit);
    DistinctTopIff(fetched, limit);
    RepeatsAreCopies(entries, q, limit);
  }

  lemma RepeatsAreCopies(entries: map<string, Entry>, q: EntryQuery, limit: nat)
    requires q.ids.Some? && forall id :: id in entries ==> entries[id].id == id
    ensures var fetched := FetchIds(entries, q.ids.value, q);
            RepeatsHidden(entries, q, limit) <==>
            forall x :: x in fetched && multiset(fetched)[x] >= 2 ==> RowsNewer(fetched, x) + 1 >= limit
  {
    var ids, fetched := q.ids.value, FetchIds(entries, q.ids.value, q);
    forall id | id in entries && IdPathKeeps(entries[id], q)
      ensures multiset(fetched)[Project(entries[id], q.omitContent)] == multiset(ids)[id]
    {
      FetchedCopies(entries, ids, q, id);
    }
    forall x | x in fetched
      ensures exists id :: id in entries && IdPathKeeps(entries[id], q) && x == Project(entries[id], q.omitContent)
    {
      FetchMember(entries, ids, q, x);
    }
    forall id | id in entries && IdPathKeeps(entries[id], q) && multiset(ids)[id] >= 2
      ensures Project(entries[id], q.omitContent) in fetched
    {
      assert Project(entries[id], q.omitContent) in multiset(fetched);
    }
  }

  /** A hit is fetched as often as its id is asked for. */
  lemma {:induction false} FetchedCopies(entries: map<string, Entry>, ids: seq<string>, q: EntryQuery, id: string)
    requires id in entries && IdPathKeeps(entries[id], q) && forall i :: i in entries ==> entries[i].id == i
    ensures multiset(FetchIds(entries, ids, q))[Project(entries[id], q.omitContent)] == multiset(ids)[id]
  {
    if ids != [] {
      var x, rest := Project(entries[id], q.omitContent), FetchIds(entries, ids[1..], q);
      FetchedCopies(entries, ids[1..], q, id);
      assert ids == [ids[0]] + ids[1..];
      CopiesCons(ids[0], ids[1..], id);
      if ids[0] in entries && IdPathKeeps(entries[ids[0]], q) {
        var first := Project(entries[ids[0]], q.omitContent);
        CopiesCons(first, rest, x);
        assert first.id == ids[0] && x.id == id;
      }
    }
  }

  lemma CopiesCons<T>(first: T, rest: seq<T>, x: T)
    ensures multiset([first] + rest)[x] == multiset(rest)[x] + if first == x then 1 else 0
  {
  }

  /** The page shows a row twice exactly when the second copy has room on it. */
  lemma DistinctTopIff(s: seq<Entry>, limit: nat)
    requires Agree(Elems(s))
    ensures Distinct(Top(s, Some(limit))) <==>
            forall x :: x in s && multiset(s)[x] >= 2 ==> RowsNewer(s, x) + 1 >= limit
  {
    if Distinct(Top(s, Some(limit))) {
      forall x | x in s && multiset(s)[x] >= 2 ensures RowsNewer(s, x) + 1 >= limit { NoRoom(s, limit, x); }
    }
    if forall x :: x in s && multiset(s)[x] >= 2 ==> RowsNewer(s, x) + 1 >= limit {
      var top := Top(s, Some(limit));
      forall i, j | 0 <= i < j < |top| ensures top[i] != top[j] {
        if top[i] == top[j] { ShownTwice(s, limit, i, j); }
      }
    }
  }

  lemma NoRoom(s: seq<Entry>, limit: nat, x: Entry)
    requires Agree(Elems(s)) && Distinct(Top(s, Some(limit))) && x in s && multiset(s)[x] >= 2
    ensures RowsNewer(s, x) + 1 >= limit
  {
    var all := SortNewest(s);
    SortNewestSorted(s);
    SameElems(s, all);
    SortCount(s, x);
    assert x in Elems(all);
    SecondCopy(all, x);
    NotBoth(all, limit, RowsNewer(s, x));
  }

  lemma NotBoth(all: seq<Entry>, limit: nat, p: nat)
    requires Distinct(Take(all, Some(limit))) && p + 1 < |all| && all[p] == all[p + 1]
    ensures p + 1 >= limit
  {
  }

  lemma ShownTwice(s: seq<Entry>, limit: nat, i: int, j: int)
    requires Agree(Elems(s)) && 0 <= i < j < |Top(s, Some(limit))| && Top(s, Some(limit))[i] == Top(s, Some(limit))[j]
    ensures var x := Top(s, Some(limit))[i]; x in s && multiset(s)[x] >= 2 && RowsNewer(s, x) + 1 < limit
  {
    var all, x := SortNewest(s), Top(s, Some(limit))[i];
    SortNewestSorted(s);
    SameElems(s, all);
    SortCount(s, x);
    assert all[i] == x && all[j] == x && x in Elems(all);
    FirstCopy(all, x);
    TwoCopies(all, i, j);
  }

  lemma TwoCopies(s: seq<Entry>, i: nat, j: nat)
    requires i < j < |s| && s[i] == s[j]
    ensures multiset(s)[s[i]] >= 2
  {
    assert s == s[..j] + [s[j]] + s[j + 1..];
    assert s[..j][i] == s[i] && s[i] in multiset(s[..j]);
  }

  lemma SecondCopy(s: seq<Entry>, x: Entry)
    requires Sorted(s) && Agree(Elems(s)) && x in s && multiset(s)[x] >= 2
    ensures var p := RowsNewer(s, x); p + 1 < |s| && s[p] == x && s[p + 1] == x
  {
    FirstCopy(s, x);
    var p := RowsNewer(s, x);
    var n := LaterCopy(s, p, x);
    assert x in Elems(s) && s[p + 1] in Elems(s);
    if n > p + 1 { NewerOrder(x, s[p + 1], x); }
  }

  lemma LaterCopy(s: seq<Entry>, p: nat, x: Entry) returns (n: nat)
    requires p < |s| && s[p] == x && (forall i :: 0 <= i < p ==> s[i] != x) && multiset(s)[x] >= 2
    ensures p < n < |s| && s[n] == x
  {
    var first, rest := s[..p], s[p + 1..];
    assert x !in first && multiset(first)[x] == 0;
    assert s == first + [x] + rest;
    assert multiset(s) == multiset(first) + multiset{x} + multiset(rest);
    assert multiset(s)[x] == multiset(first)[x] + 1 + multiset(rest)[x];
    assert x in multiset(rest);
    var k :| 0 <= k < |rest| && rest[k] == x;
    n := p + 1 + k;
  }

  const TwoRows: EntryQuery :=
    EntryQuery(None, None, None, None, None, None, None, None, None, None, Some(2), false)

  /** An id asked for twice gives a page that is not the newest two of its one hit. */
  method RepeatedId(e: Entry) returns (page: Page)
    ensures var q := TwoRows.(ids := Some([e.id, e.id]));
            && Hits(map[e.id := e].Values, q) == {e} && !RepeatsHidden(map[e.id := e], q, 2)
            && page.data != [e] == TopK({e}, 2)
  {
    var entries, q := map[e.id := e], TwoRows.(ids := Some([e.id, e.id]));
    AskedTwice(e);
    page := GetByIds(entries, q);
    assert |TopK({e}, 2)| == 1 && TopK({e}, 2)[0] in Elems(TopK({e}, 2));
  }

  lemma AskedTwice(e: Entry)
    ensures var entries, q := map[e.id := e], TwoRows.(ids := Some([e.id, e.id]));
            Hits(entries.Values, q) == {e} && !RepeatsHidden(entries, q, 2)
  {
    var entries, q := map[e.id := e], TwoRows.(ids := Some([e.id, e.id]));
    var ids, one := [e.id, e.id], [e.id];
    assert ids[1..] == one && one[1..] == [];
    assert IdPathKeeps(e, q) && Project(e, false) == e;
    assert FetchIds(entries, one, q) == [e];
    assert FetchIds(entries, ids, q) == [e, e];
    FetchedHits(entries, ids, q);
    NewerIrreflexive(e);
    NoneNewer([e, e], e);
    assert multiset(ids)[e.id] == 2;
  }

  lemma CoversSelf(u: set<Entry>, k: nat)
    ensures Covers(u, u, k)
  {
  }

  lemma ValuesAgree(entries: map<string, Entry>, q: EntryQuery)
    requires forall id :: id in entries ==> entries[id].id == id
    ensures Agree(Hits(entries.Values, q))
  {
  }

  lemma {:induction false} FetchMember(entries: map<string, Entry>, ids: seq<string>, q: EntryQuery, x: Entry)
    ensures x in FetchIds(entries, ids, q) <==>
            exists id :: id in ids && id in entries && IdPathKeeps(entries[id], q)
                         && x == Project(entries[id], q.omitContent)
  {
    if ids != [] {
      FetchMember(entries, ids[1..], q, x);
      assert forall id :: id in ids <==> id == ids[0] || id in ids[1..];
    }
  }

  lemma FetchedHits(entries: map<string, Entry>, ids: seq<string>, q: EntryQuery)
    requires q.ids == Some(ids) && forall id :: id in entries ==> entries[id].id == id
    ensures Elems(FetchIds(entries, ids, q)) == Hits(entries.Values, q)
  {
    forall x ensures x in FetchIds(entries, ids, q) <==> x in Hits(entries.Values, q) {
      FetchMember(entries, ids, q, x);
      if id :| id in ids && id in entries && IdPathKeeps(entries[id], q) && x == Project(entries[id], q.omitContent) {
        assert Wanted(entries[id], q) && entries[id] in entries.Values;
      }
      if x in Hits(entries.Values, q) {
        var e :| e in entries.Values && Wanted(e, q) && (q.cursor.Some? ==> Behind(e, q.cursor.value))
                 && x == Project(e, q.omitContent);
        assert IdPathKeeps(e, q) && e.id in entries && entries[e.id] == e && e.id in ids;
      }
    }
  }

  lemma {:induction false} FetchedOnce(entries: map<string, Entry>, ids: seq<string>, q: EntryQuery)
    requires Distinct(ids) && forall id :: id in entries ==> entries[id].id == id
    ensures Distinct(FetchIds(entries, ids, q))
  {
    if ids != [] {
      FetchedOnce(entries, ids[1..], q);
      var rest := FetchIds(entries, ids[1..], q);
      forall x | x in rest ensures x.id != ids[0] {
        FetchMember(entries, ids[1..], q, x);
      }
    }
  }

  /** A sorted and cut list is the newest `limit` of its set exactly when it repeats nothing. */
  lemma TopDistinctExact(s: seq<Entry>, limit: nat)
    requires Agree(Elems(s))
    ensures Top(s, Some(limit)) == TopK(Elems(s), limit) <==> Distinct(Top(s, Some(limit)))
  {
    var top := Top(s, Some(limit));
    if Distinct(top) { DistinctTop(s, limit); }
    if top == TopK(Elems(s), limit) {
      forall i, j | 0 <= i < j < |top| ensures top[i] != top[j] { NewerIrreflexive(top[i]); }
    }
  }

  lemma AllNewerSize(top: seq<Entry>, s: seq<Entry>, e: Entry)
    requires Agree(Elems(s)) && Elems(top) <= Elems(s) && e in Elems(s) && e !in Elems(top)
    requires forall x :: x in top ==> !Newer(e, x)
    ensures NewerIn(Elems(top), e) == Elems(top)
  {
    forall x | x in top ensures Newer(x, e) {
      assert x in Elems(top);
      NewerOrder(x, e, x);
    }
  }

  lemma DistinctTop(s: seq<Entry>, limit: nat)
    requires Agree(Elems(s)) && Distinct(Top(s, Some(limit)))
    ensures Top(s, Some(limit)) == TopK(Elems(s), limit)
  {
    var top := Top(s, Some(limit));
    var r := TopIsTop(s, Some(limit));
    TopIdempotent(s, Some(limit));
    assert multiset(top + r) == multiset(s);
    SameElems(top + r, s);
    DistinctSize(top);
    forall e | e in Elems(s) && e !in Elems(top) ensures |NewerIn(Elems(top), e)| >= limit {
      assert e in Elems(top + r) && e in r;
      AllNewerSize(top, s, e);
    }
    CoversTopK(Elems(top), Elems(s), limit);
    SortedDescending(top);
    DescendingUnique(top, TopK(Elems(top), limit));
  }
}
