/**
  Rollups: additive deltas per (metric, bucket), merged by key, written in chunks of atomic upserts by
  any number of concurrent writers.
 */
module MikroRollups {
  import opened Entries

  const HISTOGRAM_BUCKET_COUNT: nat := 14
  const ROLLUP_UPSERT_CHUNK: nat := 100

  datatype Key = Key(metric: string, bucketStart: int)

  /** A histogram as stored or sent: absent, too short, or with cells that are not finite numbers. */
  type RawHistogram = Option<seq<Option<int>>>

  datatype Delta = Delta(key: Key, count: int, sum: real, max: real, histogram: RawHistogram)

  /** A stored row's aggregates; a row written long ago may have too few histogram cells. */
  datatype Total = Total(count: int, sum: real, max: real, cells: seq<int>)

  type Rollups = map<Key, Total>

  // ---------------------------------------------------------------- histograms

  function Cell(h: RawHistogram, i: nat): int {
    if h.Some? && i < |h.value| && h.value[i].Some? then h.value[i].value else 0
  }

  /** `normalizeHistogram`. */
  function Normalize(h: RawHistogram): (cells: seq<int>)
    ensures |cells| == HISTOGRAM_BUCKET_COUNT
  {
    seq(HISTOGRAM_BUCKET_COUNT, i requires 0 <= i => Cell(h, i))
  }

  function Raw(cells: seq<int>): RawHistogram {
    Some(seq(|cells|, i requires 0 <= i < |cells| => Some(cells[i])))
  }

  /** `mergeHistograms`: cell by cell, both sides normalized first. */
  function MergeHistograms(target: RawHistogram, addend: RawHistogram): (cells: seq<int>)
    ensures |cells| == HISTOGRAM_BUCKET_COUNT
  {
    var left, right := Normalize(target), Normalize(addend);
    seq(HISTOGRAM_BUCKET_COUNT, i requires 0 <= i < HISTOGRAM_BUCKET_COUNT => left[i] + right[i])
  }

  function AddCells(a: seq<int>, b: seq<int>): (cells: seq<int>)
    ensures |cells| == HISTOGRAM_BUCKET_COUNT
  {
    seq(HISTOGRAM_BUCKET_COUNT, i requires 0 <= i =>
      (if i < |a| then a[i] else 0) + (if i < |b| then b[i] else 0))
  }

  /** Merging into stored cells of any length, too few or too many, adds to them cell by cell. */
  lemma NormalizedMerge(a: seq<int>, h: RawHistogram)
    ensures MergeHistograms(Raw(a), h) == AddCells(a, Normalize(h))
    ensures MergeHistograms(Raw(Normalize(Raw(a))), h) == AddCells(a, Normalize(h))
    ensures |a| == HISTOGRAM_BUCKET_COUNT ==> Normalize(Raw(a)) == a
  {
    assert forall i :: 0 <= i < HISTOGRAM_BUCKET_COUNT ==> Normalize(Raw(a))[i] == if i < |a| then a[i] else 0;
  }

  // ---------------------------------------------------------------- adding

  function Max(a: real, b: real): real { if a > b then a else b }

  function Add(a: Total, b: Total): Total {
    Total(a.count + b.count, a.sum + b.sum, Max(a.max, b.max), AddCells(a.cells, b.cells))
  }

  function ToTotal(d: Delta): Total { Total(d.count, d.sum, d.max, Normalize(d.histogram)) }

  /** One delta upserted: the row is inserted, or added to as it is at write time. */
  function Upsert(rows: Rollups, d: Delta): Rollups {
    rows[d.key := if d.key in rows then Add(rows[d.key], ToTotal(d)) else ToTotal(d)]
  }

  /** Every delta exactly once. */
  function Fold(rows: Rollups, ds: seq<Delta>): Rollups {
    if ds == [] then rows else Upsert(Fold(rows, ds[..|ds| - 1]), ds[|ds| - 1])
  }

  lemma AddLaws(a: Total, b: Total, c: Total)
    ensures Add(a, b) == Add(b, a)
    ensures Add(Add(a, b), c) == Add(a, Add(b, c))
    ensures Add(Add(a, b), c) == Add(Add(a, c), b)
  {
  }

  /** Two upserts commute, whoever made them. */
  lemma UpsertsCommute(rows: Rollups, d: Delta, e: Delta)
    ensures Upsert(Upsert(rows, d), e) == Upsert(Upsert(rows, e), d)
  {
    if d.key == e.key {
      AddLaws(ToTotal(d), ToTotal(e), ToTotal(d));
      if d.key in rows { AddLaws(rows[d.key], ToTotal(d), ToTotal(e)); }
    }
  }

  // ---------------------------------------------------------------- order does not matter

  lemma {:induction false} FoldAppend(rows: Rollups, a: seq<Delta>, b: seq<Delta>)
    ensures Fold(rows, a + b) == Fold(Fold(rows, a), b)
  {
    if b == [] {
      assert a + b == a;
    } else {
      var s, n := a + b, |b| - 1;
      assert s[..|s| - 1] == a + b[..n] && s[|s| - 1] == b[n];
      FoldAppend(rows, a, b[..n]);
    }
  }

  lemma {:induction false} FoldFirst(rows: Rollups, d: Delta, ds: seq<Delta>)
    ensures Fold(Upsert(rows, d), ds) == Upsert(Fold(rows, ds), d)
  {
    if ds != [] {
      var n := |ds| - 1;
      FoldFirst(rows, d, ds[..n]);
      UpsertsCommute(Fold(rows, ds[..n]), d, ds[n]);
    }
  }

  lemma FoldMiddle(rows: Rollups, b: seq<Delta>, i: nat)
    requires i < |b|
    ensures Fold(rows, b) == Upsert(Fold(rows, b[..i] + b[i + 1..]), b[i])
  {
    assert b == (b[..i] + [b[i]]) + b[i + 1..];
    FoldAppend(rows, b[..i] + [b[i]], b[i + 1..]);
    FoldLast(rows, b[..i], b[i]);
    FoldFirst(Fold(rows, b[..i]), b[i], b[i + 1..]);
    FoldAppend(rows, b[..i], b[i + 1..]);
  }

  lemma FoldLast(rows: Rollups, a: seq<Delta>, d: Delta)
    ensures Fold(rows, a + [d]) == Upsert(Fold(rows, a), d)
  {
    assert (a + [d])[..|a|] == a;
  }

  lemma TakeOut(a: seq<Delta>, b: seq<Delta>) returns (i: nat)
    requires multiset(a) == multiset(b) && a != []
    ensures i < |b| && b[i] == a[|a| - 1] && multiset(b[..i] + b[i + 1..]) == multiset(a[..|a| - 1])
  {
    var n, d := |a| - 1, a[|a| - 1];
    assert d in multiset(b);
    i :| 0 <= i < |b| && b[i] == d;
    RemoveAt(b, i);
    RemoveAt(a, n);
    assert a[..n] + a[n + 1..] == a[..n];
  }

  lemma RemoveAt(s: seq<Delta>, i: nat)
    requires i < |s|
    ensures multiset(s[..i] + s[i + 1..]) == multiset(s) - multiset{s[i]}
  {
    assert s == s[..i] + [s[i]] + s[i + 1..];
  }

  /** The stored rollups depend on which deltas came, not on their order. */
  lemma {:induction false} FoldPermutation(rows: Rollups, a: seq<Delta>, b: seq<Delta>)
    requires multiset(a) == multiset(b)
    ensures Fold(rows, a) == Fold(rows, b)
    decreases |a|
  {
    assert |multiset(a)| == |multiset(b)|;
    if a != [] {
      var i := TakeOut(a, b);
      FoldMiddle(rows, b, i);
      FoldPermutation(rows, a[..|a| - 1], b[..i] + b[i + 1..]);
    }
  }

  // ---------------------------------------------------------------- merging by bucket

  /** Rows and the fold of some deltas from nothing, added key by key. */
  function Combine(rows: Rollups, more: Rollups): Rollups {
    map k | k in rows.Keys + more.Keys ::
      if k !in more then rows[k] else if k in rows then Add(rows[k], more[k]) else more[k]
  }

  lemma {:induction false} FoldCombines(rows: Rollups, ds: seq<Delta>)
    ensures Fold(rows, ds) == Combine(rows, Fold(map[], ds))
  {
    if ds == [] {
      assert Combine(rows, map[]) == rows;
    } else {
      var n, d := |ds| - 1, ds[|ds| - 1];
      FoldCombines(rows, ds[..n]);
      var m := Fold(map[], ds[..n]);
      if d.key in rows && d.key in m { AddLaws(rows[d.key], m[d.key], ToTotal(d)); }
      assert Upsert(Combine(rows, m), d) == Combine(rows, Upsert(m, d));
    }
  }

  predicate KeyLess(a: Key, b: Key) {
    Less(a.metric, b.metric) || (a.metric == b.metric && a.bucketStart < b.bucketStart)
  }

  lemma KeyOrder(a: Key, b: Key, c: Key)
    ensures KeyLess(a, b) || a == b || KeyLess(b, a)
    ensures KeyLess(a, b) ==> a != b && !KeyLess(b, a)
    ensures KeyLess(a, b) && KeyLess(b, c) ==> KeyLess(a, c)
  {
    LessTrichotomy(a.metric, b.metric);
    if Less(a.metric, b.metric) && Less(b.metric, c.metric) { LessTransitive(a.metric, b.metric, c.metric); }
  }

  function InsertByKey(d: Delta, s: seq<Delta>): (r: seq<Delta>)
    ensures multiset(r) == multiset(s) + multiset{d}
  {
    if s == [] || !KeyLess(s[0].key, d.key) then [d] + s
    else
      assert s == [s[0]] + s[1..];
      [s[0]] + InsertByKey(d, s[1..])
  }

  function SortByKey(s: seq<Delta>): (r: seq<Delta>)
    ensures multiset(r) == multiset(s)
  {
    if s == [] then []
    else
      assert s == [s[0]] + s[1..];
      InsertByKey(s[0], SortByKey(s[1..]))
  }

  ghost predicate StrictByKey(s: seq<Delta>) { forall i, j :: 0 <= i < j < |s| ==> KeyLess(s[i].key, s[j].key) }

  ghost predicate KeysOnce(s: seq<Delta>) { forall i, j :: 0 <= i < j < |s| ==> s[i].key != s[j].key }

  lemma {:induction false} InsertStrict(d: Delta, s: seq<Delta>)
    requires StrictByKey(s) && forall x :: x in s ==> x.key != d.key
    ensures StrictByKey(InsertByKey(d, s))
  {
    if s == [] {
    } else if !KeyLess(s[0].key, d.key) {
      KeyOrder(d.key, s[0].key, d.key);
      forall j | 0 < j < |s| ensures KeyLess(d.key, s[j].key) { KeyOrder(d.key, s[0].key, s[j].key); }
    } else {
      InsertStrict(d, s[1..]);
      var r := InsertByKey(d, s[1..]);
      forall j | 0 <= j < |r| ensures KeyLess(s[0].key, r[j].key) {
        assert r[j] in multiset(s[1..]) + multiset{d};
      }
    }
  }

  lemma {:induction false} SortStrict(s: seq<Delta>)
    requires KeysOnce(s)
    ensures StrictByKey(SortByKey(s))
  {
    if s != [] {
      SortStrict(s[1..]);
      forall x | x in SortByKey(s[1..]) ensures x.key != s[0].key {
        assert x in multiset(SortByKey(s[1..])) && x in s[1..];
      }
      InsertStrict(s[0], SortByKey(s[1..]));
    }
  }

  /** Deltas one per key fold to their own values. */
  lemma {:induction false} FoldDistinct(ds: seq<Delta>)
    requires KeysOnce(ds)
    ensures forall k :: k in Fold(map[], ds) <==> exists i :: 0 <= i < |ds| && ds[i].key == k
    ensures forall i :: 0 <= i < |ds| ==> ds[i].key in Fold(map[], ds) && Fold(map[], ds)[ds[i].key] == ToTotal(ds[i])
  {
    if ds != [] {
      var n := |ds| - 1;
      FoldDistinct(ds[..n]);
      assert forall i :: 0 <= i < n ==> ds[..n][i] == ds[i];
    }
  }

  /** The new delta of a key seen before: count, sum and cells added, the maximum kept. */
  function MergeInto(existing: Delta, d: Delta): Delta {
    existing.(count := existing.count + d.count, sum := existing.sum + d.sum, max := Max(existing.max, d.max),
              histogram := Raw(MergeHistograms(existing.histogram, d.histogram)))
  }

  function Values(byKey: map<Key, Delta>, order: seq<Key>): seq<Delta>
    requires forall k :: k in order ==> k in byKey
  {
    seq(|order|, i requires 0 <= i < |order| => byKey[order[i]])
  }

  /** `byKey`, in insertion order, holds the fold of the deltas so far, one delta per key. */
  ghost predicate Grouped(byKey: map<Key, Delta>, order: seq<Key>, ds: seq<Delta>) {
    && Distinct(order) && (forall k :: k in order <==> k in byKey)
    && (forall k :: k in byKey ==> byKey[k].key == k && byKey[k].histogram == Raw(Normalize(byKey[k].histogram)))
    && byKey.Keys == Fold(map[], ds).Keys
    && (forall k :: k in byKey ==> ToTotal(byKey[k]) == Fold(map[], ds)[k])
  }

  lemma MergeIntoTotal(existing: Delta, d: Delta)
    ensures ToTotal(MergeInto(existing, d)) == Add(ToTotal(existing), ToTotal(d))
    ensures MergeInto(existing, d).histogram == Raw(Normalize(MergeInto(existing, d).histogram))
  {
    var cells := MergeHistograms(existing.histogram, d.histogram);
    NormalizedMerge(cells, d.histogram);
    assert cells == AddCells(Normalize(existing.histogram), Normalize(d.histogram));
  }

  lemma FirstOfKey(d: Delta)
    ensures ToTotal(d.(histogram := Raw(Normalize(d.histogram)))) == ToTotal(d)
    ensures Raw(Normalize(Raw(Normalize(d.histogram)))) == Raw(Normalize(d.histogram))
  {
    NormalizedMerge(Normalize(d.histogram), d.histogram);
  }

  function GroupNext(byKey: map<Key, Delta>, d: Delta): map<Key, Delta> {
    byKey[d.key := if d.key in byKey then MergeInto(byKey[d.key], d)
                   else d.(histogram := Raw(Normalize(d.histogram)))]
  }

  function OrderNext(byKey: map<Key, Delta>, order: seq<Key>, key: Key): seq<Key> {
    if key in byKey then order else order + [key]
  }

  lemma GroupStep(byKey: map<Key, Delta>, order: seq<Key>, ds: seq<Delta>, d: Delta)
    requires Grouped(byKey, order, ds)
    ensures Grouped(GroupNext(byKey, d), OrderNext(byKey, order, d.key), ds + [d])
  {
    FoldLast(map[], ds, d);
    FirstOfKey(d);
    if d.key in byKey { MergeIntoTotal(byKey[d.key], d); }
  }

  lemma GroupAt(byKey: map<Key, Delta>, order: seq<Key>, ds: seq<Delta>, i: nat)
    requires i < |ds| && Grouped(byKey, order, ds[..i])
    ensures Grouped(GroupNext(byKey, ds[i]), OrderNext(byKey, order, ds[i].key), ds[..i + 1])
  {
    GroupStep(byKey, order, ds[..i], ds[i]);
    assert ds[..i + 1] == ds[..i] + [ds[i]];
  }

  /** One delta per key, strictly ascending by key, that add up to what was given. */
  ghost predicate IsMerged(merged: seq<Delta>, ds: seq<Delta>) {
    StrictByKey(merged) && Fold(map[], merged) == Fold(map[], ds)
  }

  lemma ValuesAt(byKey: map<Key, Delta>, order: seq<Key>)
    requires (forall k :: k in order ==> k in byKey) && forall k :: k in byKey ==> byKey[k].key == k
    ensures |Values(byKey, order)| == |order|
    ensures forall i :: 0 <= i < |order| ==>
              Values(byKey, order)[i] == byKey[order[i]] && Values(byKey, order)[i].key == order[i]
  {
    forall i | 0 <= i < |order|
      ensures Values(byKey, order)[i] == byKey[order[i]] && Values(byKey, order)[i].key == order[i]
    {
      assert order[i] in order;
    }
  }

  lemma ValuesFold(byKey: map<Key, Delta>, order: seq<Key>, totals: Rollups)
    requires Distinct(order) && (forall k :: k in order <==> k in byKey)
    requires forall k :: k in byKey ==> byKey[k].key == k
    requires byKey.Keys == totals.Keys && forall k :: k in byKey ==> ToTotal(byKey[k]) == totals[k]
    ensures KeysOnce(Values(byKey, order)) && Fold(map[], Values(byKey, order)) == totals
  {
    var values := Values(byKey, order);
    ValuesAt(byKey, order);
    FoldDistinct(values);
    var fold := Fold(map[], values);
    forall k ensures k in fold <==> k in totals {
      if k in totals {
        var i :| 0 <= i < |order| && order[i] == k;
        assert values[i].key == k;
      }
    }
    forall k | k in totals ensures fold[k] == totals[k] {
      var i :| 0 <= i < |order| && order[i] == k;
      assert values[i].key == k;
    }
  }

  lemma SortedMerged(byKey: map<Key, Delta>, order: seq<Key>, ds: seq<Delta>)
    requires Grouped(byKey, order, ds)
    ensures IsMerged(SortByKey(Values(byKey, order)), ds)
  {
    var values := Values(byKey, order);
    ValuesFold(byKey, order, Fold(map[], ds));
    SortStrict(values);
    FoldPermutation(map[], SortByKey(values), values);
  }

  method MergeDeltasByBucket(ds: seq<Delta>) returns (merged: seq<Delta>)
    ensures IsMerged(merged, ds)
  {
    var byKey: map<Key, Delta>, order: seq<Key> := map[], [];
    for i := 0 to |ds|
      invariant Grouped(byKey, order, ds[..i])
    {
      GroupAt(byKey, order, ds, i);
      byKey, order := GroupNext(byKey, ds[i]), OrderNext(byKey, order, ds[i].key);
    }
    assert ds[..|ds|] == ds;
    SortedMerged(byKey, order, ds);
    merged := SortByKey(Values(byKey, order));
  }

  /** Pre-merging by bucket changes nothing that is stored, whatever was there. */
  lemma MergedFoldsSame(rows: Rollups, merged: seq<Delta>, ds: seq<Delta>)
    requires IsMerged(merged, ds)
    ensures Fold(rows, merged) == Fold(rows, ds)
  {
    FoldCombines(rows, merged);
    FoldCombines(rows, ds);
  }

  // ---------------------------------------------------------------- writing

  class RollupTable {
    var rows: Rollups

    constructor ()
      ensures rows == map[]
    {
      rows := map[];
    }

    /** One upsert statement per chunk of merged buckets. */
    method RecordRollups(ds: seq<Delta>)
      modifies this
      ensures rows == Fold(old(rows), ds)
    {
      if ds == [] { return; }
      var buckets := MergeDeltasByBucket(ds);
      MergedFoldsSame(rows, buckets, ds);
      var offset := 0;
      while offset < |buckets|
        invariant offset <= |buckets| && rows == Fold(old(rows), buckets[..offset])
      {
        var end := if offset + ROLLUP_UPSERT_CHUNK <= |buckets| then offset + ROLLUP_UPSERT_CHUNK else |buckets|;
        FoldAppend(old(rows), buckets[..offset], buckets[offset..end]);
        assert buckets[..offset] + buckets[offset..end] == buckets[..end];
        rows := Fold(rows, buckets[offset..end]);
        offset := end;
      }
      assert buckets[..|buckets|] == buckets;
    }

    /** The fallback: read, modify and write each delta's row in one transaction. */
    method RecordRollupsReadModifyWrite(ds: seq<Delta>)
      modifies this
      ensures rows == Fold(old(rows), ds)
    {
      for i := 0 to |ds|
        invariant rows == Fold(old(rows), ds[..i])
      {
        var d := ds[i];
        assert ds[..i + 1][..i] == ds[..i] && ds[..i + 1][i] == d;
        if d.key in rows {
          var existing := rows[d.key];
          NormalizedMerge(existing.cells, d.histogram);
          var cells := MergeHistograms(Raw(Normalize(Raw(existing.cells))), d.histogram);
          rows := rows[d.key := Total(existing.count + d.count, existing.sum + d.sum, Max(existing.max, d.max), cells)];
        } else {
          rows := rows[d.key := Total(d.count, d.sum, d.max, Normalize(d.histogram))];
        }
      }
      assert ds[..|ds|] == ds;
    }
  }

  function Flatten(lists: seq<seq<Delta>>): seq<Delta> {
    if lists == [] then [] else Flatten(lists[..|lists| - 1]) + lists[|lists| - 1]
  }

  lemma {:induction false} FlattenedFoldSame(rows: Rollups, merged: seq<seq<Delta>>, inputs: seq<seq<Delta>>)
    requires |merged| == |inputs| && forall i :: 0 <= i < |merged| ==> IsMerged(merged[i], inputs[i])
    ensures Fold(rows, Flatten(merged)) == Fold(rows, Flatten(inputs))
  {
    if merged != [] {
      var n := |merged| - 1;
      FlattenedFoldSame(rows, merged[..n], inputs[..n]);
      FoldAppend(rows, Flatten(merged[..n]), merged[n]);
      FoldAppend(rows, Flatten(inputs[..n]), inputs[n]);
      MergedFoldsSame(Fold(rows, Flatten(inputs[..n])), merged[n], inputs[n]);
    }
  }

  /**
    Concurrent writers: `written` is every row upserted, in whatever order the writers' chunks and the
    rows within them took effect. What is stored is the fold of all deltas of all writers, each once.
   */
  lemma ConcurrentWriters(rows: Rollups, inputs: seq<seq<Delta>>, merged: seq<seq<Delta>>, written: seq<Delta>)
    requires |merged| == |inputs| && forall i :: 0 <= i < |merged| ==> IsMerged(merged[i], inputs[i])
    requires multiset(written) == multiset(Flatten(merged))
    ensures Fold(rows, written) == Fold(rows, Flatten(inputs))
  {
    FoldPermutation(rows, written, Flatten(merged));
    FlattenedFoldSame(rows, merged, inputs);
  }

  // ---------------------------------------------------------------- what a fold holds

  function CountOf(ds: seq<Delta>, k: Key): int {
    if ds == [] then 0
    else var n := |ds| - 1; CountOf(ds[..n], k) + (if ds[n].key == k then ds[n].count else 0)
  }

  function CellOf(ds: seq<Delta>, k: Key, i: nat): int {
    if ds == [] then 0
    else var n := |ds| - 1; CellOf(ds[..n], k, i) + (if ds[n].key == k then Cell(ds[n].histogram, i) else 0)
  }

  function SumOf(ds: seq<Delta>, k: Key): real {
    if ds == [] then 0.0
    else var n := |ds| - 1; SumOf(ds[..n], k) + (if ds[n].key == k then ds[n].sum else 0.0)
  }

  /** From nothing, a bucket holds the totals of its own deltas and their greatest maximum. */
  lemma {:induction false} FoldTotals(ds: seq<Delta>, k: Key)
    ensures k in Fold(map[], ds) <==> exists i :: 0 <= i < |ds| && ds[i].key == k
    ensures k in Fold(map[], ds) ==>
              var t := Fold(map[], ds)[k];
              && t.count == CountOf(ds, k) && t.sum == SumOf(ds, k) && |t.cells| == HISTOGRAM_BUCKET_COUNT
              && (forall i :: 0 <= i < HISTOGRAM_BUCKET_COUNT ==> t.cells[i] == CellOf(ds, k, i))
              && (forall i :: 0 <= i < |ds| && ds[i].key == k ==> ds[i].max <= t.max)
              && (exists i :: 0 <= i < |ds| && ds[i].key == k && ds[i].max == t.max)
  {
    if ds != [] {
      var n := |ds| - 1;
      FoldTotals(ds[..n], k);
      NothingOf(ds[..n], k);
      assert forall i :: 0 <= i < n ==> ds[..n][i] == ds[i];
      if ds[n].key == k && k in Fold(map[], ds[..n]) {
        var i :| 0 <= i < n && ds[..n][i].key == k && ds[..n][i].max == Fold(map[], ds[..n])[k].max;
        assert ds[if ds[n].max > ds[i].max then n else i].max == Fold(map[], ds)[k].max;
      }
    }
  }

  lemma {:induction false} NothingOf(ds: seq<Delta>, k: Key)
    ensures (forall i :: 0 <= i < |ds| ==> ds[i].key != k) ==>
              CountOf(ds, k) == 0 && SumOf(ds, k) == 0.0 && forall i: nat :: CellOf(ds, k, i) == 0
  {
    if ds != [] {
      var n := |ds| - 1;
      NothingOf(ds[..n], k);
      assert forall i :: 0 <= i < n ==> ds[..n][i] == ds[i];
    }
  }
}
