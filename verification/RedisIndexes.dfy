/**
  The Redis keys of the entry store: the entry strings, the sorted sets that index them, the batch
  sets and the tag counts, and the operations that must keep them in agreement.
 */
module RedisIndexes {
  import opened Entries
  import opened LexKey

  datatype IndexKey = Global | ByKind(kind: string) | ByTag(tag: string) | ByFamily(family: string)

  /** Sorted sets with score 0: their members in lexicographic order. */
  type Zsets = map<IndexKey, seq<string>>

  /** `batches` maps a batch to its ids with their sequence as score, `tags` counts live tags. */
  datatype Db = Db(entries: map<string, Entry>, zsets: Zsets, batches: map<string, map<string, int>>,
                   tags: map<string, int>)

  const EmptyDb: Db := Db(map[], map[], map[], map[])

  predicate InIndex(e: Entry, key: IndexKey) {
    match key
    case Global => true
    case ByKind(k) => e.kind == k
    case ByTag(t) => t in e.tags
    case ByFamily(f) => e.family == Some(f)
  }

  function MemberOf(e: Entry): string { LexMember(e.at, e.id) }

  // ---------------------------------------------------------------- sorted-set commands

  function ZOf(z: Zsets, key: IndexKey): seq<string> { if key in z then z[key] else [] }

  function Insert(s: seq<string>, m: string): seq<string> {
    if s == [] || Less(m, s[0]) then [m] + s
    else if m == s[0] then s
    else [s[0]] + Insert(s[1..], m)
  }

  function Without(s: seq<string>, gone: set<string>): seq<string> {
    if s == [] then [] else if s[0] in gone then Without(s[1..], gone)
    else [s[0]] + Without(s[1..], gone)
  }

  function Zadd(z: Zsets, key: IndexKey, m: string): Zsets { z[key := Insert(ZOf(z, key), m)] }

  function Zrem(z: Zsets, key: IndexKey, m: string): Zsets { z[key := Without(ZOf(z, key), {m})] }

  ghost predicate Ascending(s: seq<string>) { forall i, j :: 0 <= i < j < |s| ==> Less(s[i], s[j]) }

  lemma {:induction false} InsertFacts(s: seq<string>, m: string)
    requires Ascending(s)
    ensures Ascending(Insert(s, m)) && forall x :: x in Insert(s, m) <==> x in s || x == m
  {
    if s != [] {
      LessTrichotomy(m, s[0]);
      if Less(m, s[0]) {
        forall j | 0 < j < |s| ensures Less(m, s[j]) { LessTransitive(m, s[0], s[j]); }
      } else if m != s[0] {
        InsertFacts(s[1..], m);
        var r := Insert(s[1..], m);
        forall j | 0 <= j < |r| ensures Less(s[0], r[j]) {
          assert r[j] in s[1..] || r[j] == m;
        }
      }
    }
  }

  lemma {:induction false} WithoutFacts(s: seq<string>, gone: set<string>)
    ensures forall x :: x in Without(s, gone) <==> x in s && x !in gone
    ensures Ascending(s) ==> Ascending(Without(s, gone))
  {
    if s != [] {
      WithoutFacts(s[1..], gone);
      var r := Without(s[1..], gone);
      forall j | 0 <= j < |r| && Ascending(s) ensures Less(s[0], r[j]) { assert r[j] in s[1..]; }
    }
  }

  lemma {:induction false} WithoutTwice(s: seq<string>, a: set<string>, b: set<string>)
    ensures Without(Without(s, a), b) == Without(s, a + b)
  {
    if s != [] {
      WithoutTwice(s[1..], a, b);
      if s[0] !in a { assert ([s[0]] + Without(s[1..], a))[1..] == Without(s[1..], a); }
    }
  }

  // ---------------------------------------------------------------- agreement

  /** The member the entry map implies for an index. */
  predicate Implied(entries: map<string, Entry>, key: IndexKey, m: string) {
    var id := IdFromMember(m);
    id in entries && MemberOf(entries[id]) == m && InIndex(entries[id], key)
  }

  /** Every occurrence of every tag on a live entry. */
  ghost function TagBag(entries: map<string, Entry>): multiset<string> {
    if entries == map[] then multiset{}
    else var id :| id in entries; multiset(entries[id].tags) + TagBag(entries - {id})
  }

  lemma {:induction false} TagBagRemove(entries: map<string, Entry>, id: string)
    requires id in entries
    ensures TagBag(entries) == multiset(entries[id].tags) + TagBag(entries - {id})
  {
    var first :| first in entries && TagBag(entries) == multiset(entries[first].tags) + TagBag(entries - {first});
    if first != id {
      TagBagRemove(entries - {first}, id);
      TagBagRemove(entries - {id}, first);
      assert entries - {first} - {id} == entries - {id} - {first};
    }
  }

  ghost predicate IndexesAgree(entries: map<string, Entry>, z: Zsets) {
    && (forall id :: id in entries ==> entries[id].id == id)
    && (forall key :: Ascending(ZOf(z, key)))
    && (forall key, m :: m in ZOf(z, key) <==> Implied(entries, key, m))
  }

  ghost predicate BatchesAgree(entries: map<string, Entry>, batches: map<string, map<string, int>>) {
    && (forall b, id :: InBatch(batches, b, id) <==> id in entries && entries[id].batchId == b)
    && (forall b, id :: InBatch(batches, b, id) && id in entries ==> batches[b][id] == entries[id].sequence)
  }

  predicate InBatch(batches: map<string, map<string, int>>, b: string, id: string) {
    b in batches && id in batches[b]
  }

  /** Each tag's count is its occurrences over live entries, and no zero is kept. */
  ghost predicate TagsAgree(entries: map<string, Entry>, tags: map<string, int>) {
    forall t :: (t in tags <==> t in TagBag(entries)) && (t in tags ==> tags[t] == TagBag(entries)[t])
  }

  /** Every index holds exactly the members the entry map implies. */
  ghost predicate Agreement(db: Db) {
    IndexesAgree(db.entries, db.zsets) && BatchesAgree(db.entries, db.batches) && TagsAgree(db.entries, db.tags)
  }

  lemma ImpliedMember(entries: map<string, Entry>, key: IndexKey, e: Entry)
    requires e.id in entries && entries[e.id] == e
    ensures Implied(entries, key, MemberOf(e)) <==> InIndex(e, key)
  {
    IdInverts(e.at, e.id);
  }

  // ---------------------------------------------------------------- store

  /** `ZADD` of the entry's member to the global, type, family and tag indexes, in that order. */
  function IndexEntry(z: Zsets, e: Entry): Zsets {
    var z1 := Zadd(Zadd(z, Global, MemberOf(e)), ByKind(e.kind), MemberOf(e));
    var z2 := if e.family.Some? then Zadd(z1, ByFamily(e.family.value), MemberOf(e)) else z1;
    IndexTags(z2, e.tags, MemberOf(e))
  }

  function IndexTags(z: Zsets, tags: seq<string>, m: string): Zsets {
    if tags == [] then z
    else var n := |tags| - 1; Zadd(IndexTags(z, tags[..n], m), ByTag(tags[n]), m)
  }

  function HincrTags(counts: map<string, int>, tags: seq<string>): map<string, int> {
    if tags == [] then counts
    else var n := |tags| - 1;
         var c := HincrTags(counts, tags[..n]);
         c[tags[n] := (if tags[n] in c then c[tags[n]] else 0) + 1]
  }

  function AddToBatch(batches: map<string, map<string, int>>, e: Entry): map<string, map<string, int>> {
    batches[e.batchId := (if e.batchId in batches then batches[e.batchId] else map[])[e.id := e.sequence]]
  }

  function AddEntry(db: Db, e: Entry): Db {
    Db(db.entries[e.id := e], IndexEntry(db.zsets, e), AddToBatch(db.batches, e), HincrTags(db.tags, e.tags))
  }

  function AddAll(db: Db, es: seq<Entry>): Db {
    if es == [] then db else AddEntry(AddAll(db, es[..|es| - 1]), es[|es| - 1])
  }

  lemma ZaddFacts(z: Zsets, key: IndexKey, m: string)
    requires forall k :: Ascending(ZOf(z, k))
    ensures forall k :: Ascending(ZOf(Zadd(z, key, m), k))
    ensures forall k, x :: x in ZOf(Zadd(z, key, m), k) <==> x in ZOf(z, k) || (k == key && x == m)
  {
    InsertFacts(ZOf(z, key), m);
    forall k ensures Ascending(ZOf(Zadd(z, key, m), k)) {
      if k != key { assert ZOf(Zadd(z, key, m), k) == ZOf(z, k); }
    }
  }

  lemma {:induction false} IndexTagsFacts(z: Zsets, tags: seq<string>, m: string)
    requires forall k :: Ascending(ZOf(z, k))
    ensures forall k :: Ascending(ZOf(IndexTags(z, tags, m), k))
    ensures forall k, x :: x in ZOf(IndexTags(z, tags, m), k) <==>
                           x in ZOf(z, k) || (k.ByTag? && k.tag in tags && x == m)
  {
    if tags != [] {
      var n := |tags| - 1;
      IndexTagsFacts(z, tags[..n], m);
      ZaddFacts(IndexTags(z, tags[..n], m), ByTag(tags[n]), m);
      assert tags == tags[..n] + [tags[n]];
    }
  }

  /** Indexing an entry adds its member to exactly the indexes it belongs to. */
  lemma IndexEntryFacts(z: Zsets, e: Entry)
    requires forall k :: Ascending(ZOf(z, k))
    ensures forall k :: Ascending(ZOf(IndexEntry(z, e), k))
    ensures forall k, x :: x in ZOf(IndexEntry(z, e), k) <==> x in ZOf(z, k) || (InIndex(e, k) && x == MemberOf(e))
  {
    var m := MemberOf(e);
    ZaddFacts(z, Global, m);
    var z0 := Zadd(z, Global, m);
    ZaddFacts(z0, ByKind(e.kind), m);
    var z1 := Zadd(z0, ByKind(e.kind), m);
    var z2 := if e.family.Some? then Zadd(z1, ByFamily(e.family.value), m) else z1;
    if e.family.Some? { ZaddFacts(z1, ByFamily(e.family.value), m); }
    IndexTagsFacts(z2, e.tags, m);
  }

  lemma {:induction false} InsertMember(s: seq<string>, m: string, x: string)
    ensures x in Insert(s, m) <==> x in s || x == m
  {
    if s != [] { InsertMember(s[1..], m, x); }
  }

  lemma ZaddMember(z: Zsets, key: IndexKey, m: string, k: IndexKey, x: string)
    ensures x in ZOf(Zadd(z, key, m), k) <==> x in ZOf(z, k) || (k == key && x == m)
  {
    InsertMember(ZOf(z, key), m, x);
  }

  lemma {:induction false} TagMembers(z: Zsets, tags: seq<string>, m: string, k: IndexKey, x: string)
    ensures x in ZOf(IndexTags(z, tags, m), k) <==> x in ZOf(z, k) || (k.ByTag? && k.tag in tags && x == m)
  {
    if tags != [] {
      var n := |tags| - 1;
      TagMembers(z, tags[..n], m, k, x);
      ZaddMember(IndexTags(z, tags[..n], m), ByTag(tags[n]), m, k, x);
      assert tags == tags[..n] + [tags[n]];
    }
  }

  /** Whatever the sets hold, indexing an entry adds its member to exactly the indexes it belongs to. */
  lemma MembersAdded(z: Zsets, e: Entry, k: IndexKey, x: string)
    ensures x in ZOf(IndexEntry(z, e), k) <==> x in ZOf(z, k) || (InIndex(e, k) && x == MemberOf(e))
  {
    var m := MemberOf(e);
    var z0 := Zadd(z, Global, m);
    var z1 := Zadd(z0, ByKind(e.kind), m);
    var z2 := if e.family.Some? then Zadd(z1, ByFamily(e.family.value), m) else z1;
    ZaddMember(z, Global, m, k, x);
    ZaddMember(z0, ByKind(e.kind), m, k, x);
    if e.family.Some? { ZaddMember(z1, ByFamily(e.family.value), m, k, x); }
    TagMembers(z2, e.tags, m, k, x);
  }

  lemma {:induction false} HincrTagsFacts(counts: map<string, int>, tags: seq<string>, t: string)
    ensures t in HincrTags(counts, tags) <==> t in counts || t in tags
    ensures t in HincrTags(counts, tags) ==>
              HincrTags(counts, tags)[t] == (if t in counts then counts[t] else 0) + multiset(tags)[t]
  {
    if tags != [] {
      var n := |tags| - 1;
      HincrTagsFacts(counts, tags[..n], t);
      HincrTagsFacts(counts, tags[..n], tags[n]);
      assert tags == tags[..n] + [tags[n]];
      assert multiset(tags) == multiset(tags[..n]) + multiset{tags[n]};
      assert tags[n] !in tags[..n] ==> multiset(tags[..n])[tags[n]] == 0;
    }
  }

  /** Storing an entry under a fresh id keeps every index in agreement. */
  lemma AddEntryKeeps(db: Db, e: Entry)
    requires Agreement(db) && e.id !in db.entries
    ensures Agreement(AddEntry(db, e))
  {
    var db2 := AddEntry(db, e);
    IndexEntryFacts(db.zsets, e);
    forall key, m ensures m in ZOf(db2.zsets, key) <==> Implied(db2.entries, key, m) {
      IdInverts(e.at, e.id);
      assert m in ZOf(db.zsets, key) <==> Implied(db.entries, key, m);
    }
    AddBatchKeeps(db, e);
    AddTagsKeep(db, e);
  }

  lemma AddBatchKeeps(db: Db, e: Entry)
    requires BatchesAgree(db.entries, db.batches) && e.id !in db.entries
    ensures BatchesAgree(db.entries[e.id := e], AddToBatch(db.batches, e))
  {
    var batches := AddToBatch(db.batches, e);
    forall b, id
      ensures InBatch(batches, b, id) <==> InBatch(db.batches, b, id) || (b == e.batchId && id == e.id)
    {
    }
  }

  lemma AddTagsKeep(db: Db, e: Entry)
    requires TagsAgree(db.entries, db.tags) && e.id !in db.entries
    ensures TagsAgree(db.entries[e.id := e], HincrTags(db.tags, e.tags))
  {
    var entries := db.entries[e.id := e];
    TagBagRemove(entries, e.id);
    assert entries - {e.id} == db.entries;
    forall t
      ensures var counts := HincrTags(db.tags, e.tags);
              (t in counts <==> t in TagBag(entries)) && (t in counts ==> counts[t] == TagBag(entries)[t])
    {
      HincrTagsFacts(db.tags, e.tags, t);
      AddedCount(TagBag(db.entries), multiset(e.tags), TagBag(entries), t);
    }
  }

  lemma AddedCount(before: multiset<string>, added: multiset<string>, after: multiset<string>, t: string)
    requires after == added + before
    ensures after[t] == added[t] + before[t] && (t in after <==> t in added || t in before)
  {
  }

  // ---------------------------------------------------------------- remove

  /** `ZREM` of the member from every index its entry belongs to. */
  function UnindexEntry(z: Zsets, e: Entry, m: string): Zsets {
    var z1 := Zrem(Zrem(z, Global, m), ByKind(e.kind), m);
    var z2 := if e.family.Some? then Zrem(z1, ByFamily(e.family.value), m) else z1;
    UnindexTags(z2, e.tags, m)
  }

  function UnindexTags(z: Zsets, tags: seq<string>, m: string): Zsets {
    if tags == [] then z
    else var n := |tags| - 1; Zrem(UnindexTags(z, tags[..n], m), ByTag(tags[n]), m)
  }

  function DropFromBatch(batches: map<string, map<string, int>>, b: string, id: string): map<string, map<string, int>> {
    if b in batches then batches[b := batches[b] - {id}] else batches
  }

  function ReadEntry(entries: map<string, Entry>, m: string): Option<Entry> {
    if IdFromMember(m) in entries then Some(entries[IdFromMember(m)]) else None
  }

  /**
    All that removing one member changes, given the entry read for it, except the tag counts: one
    script settles those afterwards.
   */
  function RemoveMember(db: Db, m: string, found: Option<Entry>): Db {
    var id := IdFromMember(m);
    if found.Some? then
      var e := found.value;
      db.(entries := db.entries - {id}, zsets := UnindexEntry(db.zsets, e, m),
          batches := DropFromBatch(db.batches, e.batchId, id))
    else db.(entries := db.entries - {id}, zsets := Zrem(db.zsets, Global, m))
  }

  /** A member whose entry has an excluded type is spared; one without an entry is not. */
  predicate Spared(entries: map<string, Entry>, m: string, excluded: set<string>) {
    IdFromMember(m) in entries && entries[IdFromMember(m)].kind in excluded
  }

  /** `HINCRBY` by minus the removed occurrences; a count that reaches zero is dropped. */
  function DecrementTags(tags: map<string, int>, loss: multiset<string>): map<string, int> {
    map t | t in tags && tags[t] - loss[t] > 0 :: tags[t] - loss[t]
  }

  lemma ZremFacts(z: Zsets, key: IndexKey, m: string)
    requires forall k :: Ascending(ZOf(z, k))
    ensures forall k :: Ascending(ZOf(Zrem(z, key, m), k))
    ensures forall k :: ZOf(Zrem(z, key, m), k) == if k == key then Without(ZOf(z, k), {m}) else ZOf(z, k)
  {
    WithoutFacts(ZOf(z, key), {m});
    forall k ensures Ascending(ZOf(Zrem(z, key, m), k)) {
      if k != key { assert ZOf(Zrem(z, key, m), k) == ZOf(z, k); }
    }
  }

  lemma {:induction false} WithoutAbsent(s: seq<string>, gone: set<string>)
    requires forall x :: x in s ==> x !in gone
    ensures Without(s, gone) == s
  {
    if s != [] { WithoutAbsent(s[1..], gone); }
  }

  lemma {:induction false} UnindexTagsFacts(z: Zsets, tags: seq<string>, m: string)
    requires forall k :: Ascending(ZOf(z, k))
    ensures forall k :: Ascending(ZOf(UnindexTags(z, tags, m), k))
    ensures forall k :: ZOf(UnindexTags(z, tags, m), k) ==
                        if k.ByTag? && k.tag in tags then Without(ZOf(z, k), {m}) else ZOf(z, k)
  {
    if tags != [] {
      var n := |tags| - 1;
      UnindexTagsFacts(z, tags[..n], m);
      ZremFacts(UnindexTags(z, tags[..n], m), ByTag(tags[n]), m);
      WithoutTwice(ZOf(z, ByTag(tags[n])), {m}, {m});
      assert {m} + {m} == {m};
      assert tags == tags[..n] + [tags[n]];
    }
  }

  /** Unindexing an entry takes its member out of exactly the indexes it belongs to. */
  lemma UnindexEntryFacts(z: Zsets, e: Entry, m: string)
    requires forall k :: Ascending(ZOf(z, k))
    ensures forall k :: Ascending(ZOf(UnindexEntry(z, e, m), k))
    ensures forall k :: ZOf(UnindexEntry(z, e, m), k) ==
                        if InIndex(e, k) then Without(ZOf(z, k), {m}) else ZOf(z, k)
  {
    ZremFacts(z, Global, m);
    var z0 := Zrem(z, Global, m);
    ZremFacts(z0, ByKind(e.kind), m);
    var z1 := Zrem(z0, ByKind(e.kind), m);
    var z2 := if e.family.Some? then Zrem(z1, ByFamily(e.family.value), m) else z1;
    if e.family.Some? { ZremFacts(z1, ByFamily(e.family.value), m); }
    UnindexTagsFacts(z2, e.tags, m);
  }

  lemma UnindexedEverywhere(entries: map<string, Entry>, z: Zsets, m: string)
    requires IndexesAgree(entries, z) && Implied(entries, Global, m)
    ensures forall k :: ZOf(UnindexEntry(z, entries[IdFromMember(m)], m), k) == Without(ZOf(z, k), {m})
  {
    var e := entries[IdFromMember(m)];
    UnindexEntryFacts(z, e, m);
    forall k | !InIndex(e, k) ensures Without(ZOf(z, k), {m}) == ZOf(z, k) {
      assert m in ZOf(z, k) <==> Implied(entries, k, m);
      WithoutAbsent(ZOf(z, k), {m});
    }
  }

  lemma StillAgree(entries: map<string, Entry>, z: Zsets, z2: Zsets, m: string)
    requires IndexesAgree(entries, z) && Implied(entries, Global, m)
    requires forall k :: ZOf(z2, k) == Without(ZOf(z, k), {m})
    ensures IndexesAgree(entries - {IdFromMember(m)}, z2)
  {
    forall k ensures Ascending(ZOf(z2, k)) { WithoutFacts(ZOf(z, k), {m}); }
    forall k, x ensures x in ZOf(z2, k) <==> Implied(entries - {IdFromMember(m)}, k, x) {
      WithoutFacts(ZOf(z, k), {m});
      assert x in ZOf(z, k) <==> Implied(entries, k, x);
    }
  }

  /** Removing a member of the indexes takes it out of every one of them and leaves the rest. */
  lemma RemoveMemberFacts(db: Db, m: string)
    requires IndexesAgree(db.entries, db.zsets) && Implied(db.entries, Global, m)
    ensures var db2 := RemoveMember(db, m, ReadEntry(db.entries, m));
            && IndexesAgree(db2.entries, db2.zsets)
            && db2.entries == db.entries - {IdFromMember(m)} && db2.tags == db.tags
            && forall k :: ZOf(db2.zsets, k) == Without(ZOf(db.zsets, k), {m})
  {
    UnindexedEverywhere(db.entries, db.zsets, m);
    StillAgree(db.entries, db.zsets, RemoveMember(db, m, ReadEntry(db.entries, m)).zsets, m);
  }

  lemma RemoveBatchKeeps(db: Db, m: string)
    requires BatchesAgree(db.entries, db.batches) && Implied(db.entries, Global, m)
    ensures var db2 := RemoveMember(db, m, ReadEntry(db.entries, m));
            BatchesAgree(db2.entries, db2.batches)
  {
    var id, batches := IdFromMember(m), RemoveMember(db, m, ReadEntry(db.entries, m)).batches;
    var batch := db.entries[id].batchId;
    assert InBatch(db.batches, batch, id);
    forall b, i ensures InBatch(batches, b, i) <==> InBatch(db.batches, b, i) && !(b == batch && i == id) {
    }
  }

  /** Subtracting the removed entries' occurrences keeps the counts exact, with no zero left. */
  lemma DecrementKeeps(entries: map<string, Entry>, left: map<string, Entry>, tags: map<string, int>,
                       loss: multiset<string>)
    requires TagsAgree(entries, tags) && TagBag(entries) == loss + TagBag(left)
    ensures TagsAgree(left, DecrementTags(tags, loss))
  {
    forall t ensures t in DecrementTags(tags, loss) <==> t in TagBag(left) {
      assert TagBag(entries)[t] == loss[t] + TagBag(left)[t];
    }
  }

  // ---------------------------------------------------------------- removing many

  /** The members a removal takes, in their order. */
  function Deletable(entries: map<string, Entry>, ms: seq<string>, excluded: set<string>): seq<string> {
    if ms == [] then []
    else var n := |ms| - 1;
         if Spared(entries, ms[n], excluded) then Deletable(entries, ms[..n], excluded)
         else Deletable(entries, ms[..n], excluded) + [ms[n]]
  }

  function SparedOf(entries: map<string, Entry>, ms: seq<string>, excluded: set<string>): seq<string> {
    if ms == [] then []
    else var n := |ms| - 1;
         if Spared(entries, ms[n], excluded) then SparedOf(entries, ms[..n], excluded) + [ms[n]]
         else SparedOf(entries, ms[..n], excluded)
  }

  /** The pipeline, one member after the other, with the entries as they were read beforehand. */
  function RemoveEach(db: Db, ms: seq<string>): Db {
    if ms == [] then db
    else var n := |ms| - 1; RemoveMember(RemoveEach(db, ms[..n]), ms[n], ReadEntry(db.entries, ms[n]))
  }

  /** The tag occurrences counted while the pipeline is built. */
  function TagLoss(entries: map<string, Entry>, ms: seq<string>): multiset<string> {
    if ms == [] then multiset{}
    else var n := |ms| - 1;
         TagLoss(entries, ms[..n])
         + match ReadEntry(entries, ms[n]) case Some(e) => multiset(e.tags) case None => multiset{}
  }

  ghost function IdsOf(ms: seq<string>): set<string> { set m | m in ms :: IdFromMember(m) }

  ghost predicate AllImplied(entries: map<string, Entry>, ms: seq<string>) {
    Distinct(ms) && forall m :: m in ms ==> Implied(entries, Global, m)
  }

  /** `db` is `base` without the entries of `gone` and all that indexed them. */
  ghost predicate Removed(base: Db, db: Db, gone: seq<string>) {
    && Agreement(db)
    && db.entries == base.entries - IdsOf(gone)
    && forall k :: ZOf(db.zsets, k) == Without(ZOf(base.zsets, k), Elems(gone))
  }

  lemma IdNotAmong(entries: map<string, Entry>, ms: seq<string>, m: string)
    requires Implied(entries, Global, m) && m !in ms && forall x :: x in ms ==> Implied(entries, Global, x)
    ensures IdFromMember(m) !in IdsOf(ms)
  {
  }

  /** `db` after the pipeline for `ms`, before the tag script. */
  ghost predicate Stripped(base: Db, db: Db, ms: seq<string>) {
    && IndexesAgree(db.entries, db.zsets) && BatchesAgree(db.entries, db.batches)
    && Left(base, db, ms)
  }

  ghost predicate Left(base: Db, db: Db, ms: seq<string>) {
    && db.entries == base.entries - IdsOf(ms) && db.tags == base.tags
    && (forall k :: ZOf(db.zsets, k) == Without(ZOf(base.zsets, k), Elems(ms)))
    && TagBag(base.entries) == TagLoss(base.entries, ms) + TagBag(db.entries)
  }

  lemma StripOne(base: Db, mid: Db, ms: seq<string>, m: string)
    requires Stripped(base, mid, ms) && Implied(base.entries, Global, m) && IdFromMember(m) !in IdsOf(ms)
    ensures Stripped(base, RemoveMember(mid, m, ReadEntry(base.entries, m)), ms + [m])
  {
    assert ReadEntry(mid.entries, m) == ReadEntry(base.entries, m);
    assert Implied(mid.entries, Global, m);
    RemoveMemberFacts(mid, m);
    RemoveBatchKeeps(mid, m);
    LeftAfter(base, mid, RemoveMember(mid, m, ReadEntry(base.entries, m)), ms, m);
  }

  lemma LeftAfter(base: Db, mid: Db, db: Db, ms: seq<string>, m: string)
    requires Left(base, mid, ms) && IdFromMember(m) in mid.entries
    requires db.entries == mid.entries - {IdFromMember(m)} && db.tags == mid.tags
    requires forall k :: ZOf(db.zsets, k) == Without(ZOf(mid.zsets, k), {m})
    ensures Left(base, db, ms + [m])
  {
    var id := IdFromMember(m);
    TagBagRemove(mid.entries, id);
    StripTags(base.entries, ms, m);
    assert Elems(ms + [m]) == Elems(ms) + {m} && IdsOf(ms + [m]) == IdsOf(ms) + {id};
    assert db.entries == base.entries - IdsOf(ms + [m]);
    ZsetsTwice(base.zsets, mid.zsets, db.zsets, Elems(ms), {m});
  }

  lemma ZsetsTwice(z: Zsets, z1: Zsets, z2: Zsets, a: set<string>, b: set<string>)
    requires forall k :: ZOf(z1, k) == Without(ZOf(z, k), a)
    requires forall k :: ZOf(z2, k) == Without(ZOf(z1, k), b)
    ensures forall k :: ZOf(z2, k) == Without(ZOf(z, k), a + b)
  {
    forall k { WithoutTwice(ZOf(z, k), a, b); }
  }

  lemma StripTags(entries: map<string, Entry>, ms: seq<string>, m: string)
    requires IdFromMember(m) in entries
    ensures TagLoss(entries, ms + [m]) == TagLoss(entries, ms) + multiset(entries[IdFromMember(m)].tags)
  {
    assert (ms + [m])[..|ms|] == ms;
  }

  lemma {:induction false} RemoveEachFacts(db: Db, ms: seq<string>)
    requires Agreement(db) && AllImplied(db.entries, ms)
    ensures Stripped(db, RemoveEach(db, ms), ms)
  {
    if ms == [] {
      forall k ensures Without(ZOf(db.zsets, k), {}) == ZOf(db.zsets, k) { WithoutAbsent(ZOf(db.zsets, k), {}); }
      assert Elems(ms) == {} && db.entries - IdsOf(ms) == db.entries;
    } else {
      var n := |ms| - 1;
      RemoveEachFacts(db, ms[..n]);
      assert ms[n] !in ms[..n] && ms == ms[..n] + [ms[n]];
      IdNotAmong(db.entries, ms[..n], ms[n]);
      StripOne(db, RemoveEach(db, ms[..n]), ms[..n], ms[n]);
    }
  }

  /** The pipeline followed by the tag script keeps every index in agreement. */
  lemma RemovalKeeps(db: Db, ms: seq<string>)
    requires Agreement(db) && AllImplied(db.entries, ms)
    ensures var db2 := RemoveEach(db, ms);
            Removed(db, db2.(tags := DecrementTags(db2.tags, TagLoss(db.entries, ms))), ms)
  {
    RemoveEachFacts(db, ms);
    DecrementKeeps(db.entries, RemoveEach(db, ms).entries, db.tags, TagLoss(db.entries, ms));
  }

  lemma {:induction false} DeletableFacts(entries: map<string, Entry>, ms: seq<string>, excluded: set<string>)
    ensures forall m :: m in Deletable(entries, ms, excluded) <==> m in ms && !Spared(entries, m, excluded)
    ensures |Deletable(entries, ms, excluded)| + |SparedOf(entries, ms, excluded)| == |ms|
  {
    if ms != [] {
      var n := |ms| - 1;
      DeletableFacts(entries, ms[..n], excluded);
      assert ms == ms[..n] + [ms[n]];
    }
  }

  lemma {:induction false} DeletableDistinct(entries: map<string, Entry>, ms: seq<string>, excluded: set<string>)
    requires Distinct(ms)
    ensures Distinct(Deletable(entries, ms, excluded))
  {
    if ms != [] {
      var n := |ms| - 1;
      DeletableDistinct(entries, ms[..n], excluded);
      DeletableFacts(entries, ms[..n], excluded);
      assert ms[n] !in ms[..n];
    }
  }

  lemma RemovedTwice(base: Db, mid: Db, db: Db, g1: seq<string>, g2: seq<string>)
    requires Removed(base, mid, g1) && Removed(mid, db, g2)
    ensures Removed(base, db, g1 + g2)
  {
    assert Elems(g1 + g2) == Elems(g1) + Elems(g2) && IdsOf(g1 + g2) == IdsOf(g1) + IdsOf(g2);
    ZsetsTwice(base.zsets, mid.zsets, db.zsets, Elems(g1), Elems(g2));
    assert base.entries - IdsOf(g1) - IdsOf(g2) == base.entries - IdsOf(g1 + g2);
  }

  // ---------------------------------------------------------------- update

  /** The fields the indexes are made of. */
  ghost predicate SameIndexFields(a: Entry, b: Entry) {
    && a.at == b.at && a.kind == b.kind && a.family == b.family && multiset(a.tags) == multiset(b.tags)
    && a.batchId == b.batchId && a.sequence == b.sequence
  }

  /**
    An update rewrites the entry and no index, so it keeps the agreement if and only if the patch
    leaves every indexed field alone.
   */
  lemma UpdateAgreement(db: Db, patched: Entry)
    requires Agreement(db) && patched.id in db.entries
    requires InRange(patched.at) && InRange(db.entries[patched.id].at)
    ensures Agreement(db.(entries := db.entries[patched.id := patched]))
            <==> SameIndexFields(db.entries[patched.id], patched)
  {
    UpdateTags(db.entries, patched);
    if SameIndexFields(db.entries[patched.id], patched) { NeutralPatch(db, patched); }
    if Agreement(db.(entries := db.entries[patched.id := patched])) { BothAgree(db, patched); }
  }

  /** If the same indexes, batches and counts fit both versions, the patch was index-neutral. */
  lemma BothAgree(db: Db, patched: Entry)
    requires patched.id in db.entries && InRange(patched.at) && InRange(db.entries[patched.id].at)
    requires Agreement(db) && Agreement(db.(entries := db.entries[patched.id := patched]))
    ensures SameIndexFields(db.entries[patched.id], patched)
  {
    var after := db.entries[patched.id := patched];
    BothIndex(db, patched);
    SameCounts(db.tags, TagBag(db.entries), TagBag(after));
    UpdateTags(db.entries, patched);
    assert InBatch(db.batches, db.entries[patched.id].batchId, patched.id);
  }

  lemma SameCounts(tags: map<string, int>, a: multiset<string>, b: multiset<string>)
    requires forall t :: (t in tags <==> t in a) && (t in tags ==> tags[t] == a[t])
    requires forall t :: (t in tags <==> t in b) && (t in tags ==> tags[t] == b[t])
    ensures a == b
  {
    forall t ensures a[t] == b[t] {
      assert t in a <==> t in b;
    }
  }

  lemma UpdateTags(entries: map<string, Entry>, patched: Entry)
    requires patched.id in entries
    ensures var after := entries[patched.id := patched];
            TagBag(entries) == TagBag(after) <==> multiset(entries[patched.id].tags) == multiset(patched.tags)
  {
    var id, after := patched.id, entries[patched.id := patched];
    TagBagRemove(entries, id);
    TagBagRemove(after, id);
    var rest := TagBag(entries - {id});
    assert entries - {id} == after - {id};
    assert multiset(entries[id].tags) + rest - rest == multiset(entries[id].tags);
    assert multiset(patched.tags) + rest - rest == multiset(patched.tags);
  }

  lemma NeutralPatch(db: Db, patched: Entry)
    requires Agreement(db) && patched.id in db.entries && SameIndexFields(db.entries[patched.id], patched)
    requires TagBag(db.entries[patched.id := patched]) == TagBag(db.entries)
    ensures Agreement(db.(entries := db.entries[patched.id := patched]))
  {
    SameIndexes(db.entries[patched.id], patched);
    SameImplied(db.entries, db.zsets, patched);
    SameBatches(db.entries, db.batches, patched);
  }

  lemma SameBatches(entries: map<string, Entry>, batches: map<string, map<string, int>>, patched: Entry)
    requires BatchesAgree(entries, batches) && patched.id in entries
    requires patched.batchId == entries[patched.id].batchId && patched.sequence == entries[patched.id].sequence
    ensures BatchesAgree(entries[patched.id := patched], batches)
  {
  }

  lemma SameIndexes(a: Entry, b: Entry)
    requires SameIndexFields(a, b)
    ensures forall key :: InIndex(a, key) <==> InIndex(b, key)
  {
    forall t ensures t in a.tags <==> t in b.tags {
      assert t in a.tags <==> t in multiset(a.tags);
      assert t in b.tags <==> t in multiset(b.tags);
    }
  }

  lemma SameImplied(entries: map<string, Entry>, z: Zsets, patched: Entry)
    requires IndexesAgree(entries, z)
    requires patched.id in entries && MemberOf(patched) == MemberOf(entries[patched.id])
    requires forall key :: InIndex(patched, key) <==> InIndex(entries[patched.id], key)
    ensures IndexesAgree(entries[patched.id := patched], z)
  {
    forall key, m ensures Implied(entries[patched.id := patched], key, m) <==> Implied(entries, key, m) {
    }
  }

  /** If one set of indexes fits both versions of an entry, they agree on what it indexes. */
  lemma BothIndex(db: Db, patched: Entry)
    requires patched.id in db.entries && InRange(patched.at) && InRange(db.entries[patched.id].at)
    requires IndexesAgree(db.entries, db.zsets)
    requires IndexesAgree(db.entries[patched.id := patched], db.zsets)
    ensures var e := db.entries[patched.id];
            e.at == patched.at && e.kind == patched.kind && e.family == patched.family
  {
    var e, after := db.entries[patched.id], db.entries[patched.id := patched];
    var m := MemberOf(e);
    forall key ensures InIndex(e, key) <==> Implied(after, key, m) {
      ImpliedMember(db.entries, key, e);
      assert m in ZOf(db.zsets, key) <==> Implied(after, key, m);
    }
    assert InIndex(e, Global) && InIndex(e, ByKind(e.kind));
    IdInverts(e.at, e.id);
    assert Implied(after, ByKind(e.kind), m);
    SameInstant(e, patched);
    assert MemberOf(patched) == m;
    if e.family.Some? { assert InIndex(e, ByFamily(e.family.value)); }
    if patched.family.Some? { assert Implied(after, ByFamily(patched.family.value), m); }
  }

  lemma SameInstant(a: Entry, b: Entry)
    requires InRange(a.at) && InRange(b.at) && MemberOf(a) == MemberOf(b)
    ensures a.at == b.at
  {
    MemberDecodes(a.at, a.id);
    MemberDecodes(b.at, b.id);
    InvOrder(a.at, b.at);
  }

  // ---------------------------------------------------------------- storing an id again

  /** Nothing that referred to `a` is wrong for `b`, and no tag is counted for `a`. */
  predicate Supersedes(b: Entry, a: Entry) {
    && a.at == b.at && a.kind == b.kind && a.batchId == b.batchId && a.tags == []
    && (a.family.Some? ==> a.family == b.family)
  }

  /**
    A store adds references and removes none, so it keeps the agreement if and only if the id is fresh
    or the entry it replaces left none behind that the new one lacks, tag counts included.
   */
  lemma StoreAgreement(db: Db, e: Entry)
    requires Agreement(db) && InRange(e.at)
    requires e.id in db.entries ==> InRange(db.entries[e.id].at)
    ensures Agreement(AddEntry(db, e)) <==> e.id !in db.entries || Supersedes(e, db.entries[e.id])
  {
    if e.id !in db.entries {
      AddEntryKeeps(db, e);
    } else {
      var a := db.entries[e.id];
      if Supersedes(e, a) {
        RestoreIndexes(db, e);
        RestoreTags(db, e);
        RestoreBatches(db, e);
      }
      if Agreement(AddEntry(db, e)) {
        RestoredIndexes(db, e);
        RestoredTags(db, e);
        RestoredBatch(db, e);
      }
    }
  }

  lemma RestoreIndexes(db: Db, e: Entry)
    requires IndexesAgree(db.entries, db.zsets) && e.id in db.entries && Supersedes(e, db.entries[e.id])
    ensures IndexesAgree(db.entries[e.id := e], IndexEntry(db.zsets, e))
  {
    var after, z := db.entries[e.id := e], IndexEntry(db.zsets, e);
    IndexEntryFacts(db.zsets, e);
    IdInverts(e.at, e.id);
    forall key, m ensures m in ZOf(z, key) <==> Implied(after, key, m) {
      assert m in ZOf(db.zsets, key) <==> Implied(db.entries, key, m);
    }
  }

  lemma RestoredIndexes(db: Db, e: Entry)
    requires IndexesAgree(db.entries, db.zsets) && e.id in db.entries
    requires InRange(e.at) && InRange(db.entries[e.id].at)
    requires IndexesAgree(db.entries[e.id := e], IndexEntry(db.zsets, e))
    ensures var a := db.entries[e.id];
            a.at == e.at && a.kind == e.kind && (a.family.Some? ==> a.family == e.family)
  {
    var a, after, z := db.entries[e.id], db.entries[e.id := e], IndexEntry(db.zsets, e);
    var m := MemberOf(a);
    IndexEntryFacts(db.zsets, e);
    IdInverts(a.at, a.id);
    forall key | InIndex(a, key) ensures Implied(after, key, m) {
      ImpliedMember(db.entries, key, a);
      assert m in ZOf(db.zsets, key) && m in ZOf(z, key);
    }
    assert InIndex(a, ByKind(a.kind));
    assert Implied(after, ByKind(a.kind), m);
    SameInstant(a, e);
    if a.family.Some? { assert InIndex(a, ByFamily(a.family.value)); }
  }

  lemma RestoreBatches(db: Db, e: Entry)
    requires BatchesAgree(db.entries, db.batches) && e.id in db.entries && e.batchId == db.entries[e.id].batchId
    ensures BatchesAgree(db.entries[e.id := e], AddToBatch(db.batches, e))
  {
    var batches := AddToBatch(db.batches, e);
    forall b, id
      ensures InBatch(batches, b, id) <==> InBatch(db.batches, b, id) || (b == e.batchId && id == e.id)
    {
    }
  }

  lemma RestoredBatch(db: Db, e: Entry)
    requires BatchesAgree(db.entries, db.batches) && e.id in db.entries
    requires BatchesAgree(db.entries[e.id := e], AddToBatch(db.batches, e))
    ensures e.batchId == db.entries[e.id].batchId
  {
    var b := db.entries[e.id].batchId;
    assert InBatch(db.batches, b, e.id) && InBatch(AddToBatch(db.batches, e), b, e.id);
  }

  lemma SameBag(entries: map<string, Entry>, rest: map<string, Entry>, tags: map<string, int>)
    requires TagsAgree(entries, tags) && TagBag(entries) == multiset([]) + TagBag(rest)
    ensures TagsAgree(rest, tags)
  {
    assert TagBag(rest) == TagBag(entries);
  }

  lemma RestoreTags(db: Db, e: Entry)
    requires TagsAgree(db.entries, db.tags) && e.id in db.entries && db.entries[e.id].tags == []
    ensures TagsAgree(db.entries[e.id := e], HincrTags(db.tags, e.tags))
  {
    var rest := db.entries - {e.id};
    TagBagRemove(db.entries, e.id);
    SameBag(db.entries, rest, db.tags);
    AddTagsKeep(db.(entries := rest), e);
    assert rest[e.id := e] == db.entries[e.id := e];
  }

  lemma RestoredTags(db: Db, e: Entry)
    requires TagsAgree(db.entries, db.tags) && e.id in db.entries
    requires TagsAgree(db.entries[e.id := e], HincrTags(db.tags, e.tags))
    ensures db.entries[e.id].tags == []
  {
    var a, after := db.entries[e.id], db.entries[e.id := e];
    TagBagRemove(db.entries, e.id);
    TagBagRemove(after, e.id);
    assert after - {e.id} == db.entries - {e.id};
    NoneLost(db.tags, e.tags, multiset(a.tags), TagBag(db.entries - {e.id}));
    assert |multiset(a.tags)| == |a.tags|;
  }

  lemma NoneLost(tags: map<string, int>, added: seq<string>, lost: multiset<string>, rest: multiset<string>)
    requires forall t :: (t in tags <==> t in lost + rest) && (t in tags ==> tags[t] == (lost + rest)[t])
    requires forall t :: (t in HincrTags(tags, added) <==> t in multiset(added) + rest)
                         && (t in HincrTags(tags, added) ==> HincrTags(tags, added)[t] == (multiset(added) + rest)[t])
    ensures lost == multiset{}
  {
    forall t ensures lost[t] == 0 {
      HincrTagsFacts(tags, added, t);
      CountedOnce(tags, HincrTags(tags, added), lost, multiset(added), rest, t);
    }
  }

  /** A tag counted for the old and again for the new entry, but right for the new one, was on none. */
  lemma CountedOnce(tags: map<string, int>, after: map<string, int>, lost: multiset<string>,
                    added: multiset<string>, rest: multiset<string>, t: string)
    requires (t in tags <==> t in lost + rest) && (t in tags ==> tags[t] == (lost + rest)[t])
    requires (t in after <==> t in added + rest) && (t in after ==> after[t] == (added + rest)[t])
    requires t in tags ==> t in after
    requires t in after ==> after[t] == (if t in tags then tags[t] else 0) + added[t]
    ensures lost[t] == 0
  {
    assert (lost + rest)[t] == lost[t] + rest[t] && (added + rest)[t] == added[t] + rest[t];
  }

  // ---------------------------------------------------------------- ranges

  /** `ZRANGEBYLEX` from a bound to `+`. */
  function RangeFrom(s: seq<string>, min: LexBound): seq<string> {
    if s == [] then []
    else if AtLeast(s[0], min) then [s[0]] + RangeFrom(s[1..], min)
    else RangeFrom(s[1..], min)
  }

  /** `ZREVRANGEBYLEX` from `+` down to a bound: the oldest entries first. */
  function RevRangeFrom(s: seq<string>, min: LexBound): seq<string> {
    if s == [] then []
    else RevRangeFrom(s[1..], min) + (if AtLeast(s[0], min) then [s[0]] else [])
  }

  lemma {:induction false} RangeFacts(s: seq<string>, min: LexBound)
    ensures forall m :: m in RangeFrom(s, min) <==> m in s && AtLeast(m, min)
    ensures Ascending(s) ==> Ascending(RangeFrom(s, min))
  {
    if s != [] {
      RangeFacts(s[1..], min);
      var r := RangeFrom(s[1..], min);
      forall j | 0 <= j < |r| && Ascending(s) ensures Less(s[0], r[j]) { assert r[j] in s[1..]; }
    }
  }

  ghost predicate Falling(s: seq<string>) { forall i, j :: 0 <= i < j < |s| ==> Less(s[j], s[i]) }

  lemma {:induction false} RevRangeFacts(s: seq<string>, min: LexBound)
    ensures forall m :: m in RevRangeFrom(s, min) <==> m in s && AtLeast(m, min)
    ensures Ascending(s) ==> Falling(RevRangeFrom(s, min))
  {
    if s != [] {
      RevRangeFacts(s[1..], min);
      var r := RevRangeFrom(s[1..], min);
      forall j | 0 <= j < |r| && Ascending(s) ensures Less(s[0], r[j]) { assert r[j] in s[1..]; }
    }
  }

  lemma StrictlySorted(s: seq<string>)
    requires Ascending(s) || Falling(s)
    ensures Distinct(s)
  {
    forall i, j | 0 <= i < j < |s| ensures s[i] != s[j] { LessTrichotomy(s[i], s[j]); }
  }

  lemma WithoutFirst(x: string, rest: seq<string>, gone: set<string>)
    ensures Without([x] + rest, gone) == if x in gone then Without(rest, gone) else [x] + Without(rest, gone)
  {
    assert ([x] + rest)[1..] == rest;
  }

  lemma ConsAppend(x: string, rest: seq<string>, more: seq<string>)
    ensures ([x] + rest) + more == [x] + (rest + more)
  {
  }

  lemma {:induction false} WithoutAppend(a: seq<string>, b: seq<string>, gone: set<string>)
    ensures Without(a + b, gone) == Without(a, gone) + Without(b, gone)
  {
    if a == [] {
      assert a + b == b;
    } else {
      var rest := a[1..];
      WithoutAppend(rest, b, gone);
      assert a == [a[0]] + rest;
      WithoutFirst(a[0], rest, gone);
      WithoutFirst(a[0], rest + b, gone);
      ConsAppend(a[0], rest, b);
      ConsAppend(a[0], Without(rest, gone), Without(b, gone));
    }
  }

  lemma {:induction false} RevRangeWithout(s: seq<string>, min: LexBound, gone: set<string>)
    ensures RevRangeFrom(Without(s, gone), min) == Without(RevRangeFrom(s, min), gone)
  {
    if s != [] {
      RevRangeWithout(s[1..], min, gone);
      WithoutAppend(RevRangeFrom(s[1..], min), if AtLeast(s[0], min) then [s[0]] else [], gone);
    }
  }
}
