/**
  Rollups in Redis: one script per delta over a hash of atomic counters, which must read back as the
  same totals every store keeps.
 */
module RedisRollups {
  import opened Entries
  import opened MikroRollups

  /**
    The hash of one bucket. Histogram cells that were never incremented are absent; buckets written
    before the cells existed carry their counts in `legacy`.
   */
  datatype Hash = Hash(count: int, sum: int, max: Option<real>, cells: map<nat, int>, legacy: RawHistogram)

  const NoHash: Hash := Hash(0, 0, None, map[], None)

  predicate Integral(x: real) { x == x.Floor as real }

  function IncrementCells(cells: map<nat, int>, add: seq<int>, n: nat): map<nat, int>
    requires n <= |add|
  {
    if n == 0 then cells
    else
      var c := IncrementCells(cells, add, n - 1);
      if add[n - 1] == 0 then c else c[n - 1 := (if n - 1 in c then c[n - 1] else 0) + add[n - 1]]
  }

  /**
    The script, command by command. `HINCRBY` takes integers only: at a fractional sum it fails, and
    what was done before stays done.
   */
  function Script(h: Hash, d: Delta): Hash {
    var h1 := h.(count := h.count + d.count);
    if !Integral(d.sum) then h1
    else
      var h2 := h1.(sum := h1.sum + d.sum.Floor);
      var h3 := if h2.max.None? || d.max > h2.max.value then h2.(max := Some(d.max)) else h2;
      h3.(cells := IncrementCells(h3.cells, Normalize(d.histogram), HISTOGRAM_BUCKET_COUNT))
  }

  function CellAt(cells: map<nat, int>, i: nat): int { if i in cells then cells[i] else 0 }

  /** `readHistogram`: the cells and the legacy histogram together. */
  function ReadCells(h: Hash): (cells: seq<int>)
    ensures |cells| == HISTOGRAM_BUCKET_COUNT
  {
    AddCells(seq(HISTOGRAM_BUCKET_COUNT, i requires 0 <= i => CellAt(h.cells, i)), Normalize(h.legacy))
  }

  /** What a query reports of the hash. */
  function Read(h: Hash): Total {
    Total(h.count, h.sum as real, if h.max.Some? then h.max.value else 0.0, ReadCells(h))
  }

  lemma {:induction false} IncrementFacts(cells: map<nat, int>, add: seq<int>, n: nat, i: nat)
    requires n <= |add|
    ensures CellAt(IncrementCells(cells, add, n), i) == CellAt(cells, i) + (if i < n then add[i] else 0)
  {
    if n > 0 { IncrementFacts(cells, add, n - 1, i); }
  }

  lemma CellsAdded(h: Hash, h2: Hash, add: seq<int>)
    requires |add| == HISTOGRAM_BUCKET_COUNT && h2.legacy == h.legacy
    requires h2.cells == IncrementCells(h.cells, add, HISTOGRAM_BUCKET_COUNT)
    ensures ReadCells(h2) == AddCells(ReadCells(h), add)
  {
    forall i | 0 <= i < HISTOGRAM_BUCKET_COUNT ensures ReadCells(h2)[i] == AddCells(ReadCells(h), add)[i] {
      IncrementFacts(h.cells, add, HISTOGRAM_BUCKET_COUNT, i);
    }
  }

  /** On a bucket written before, the script adds the delta exactly, if and only if its sum is whole. */
  lemma ScriptAdds(h: Hash, d: Delta)
    requires h.max.Some?
    ensures Read(Script(h, d)) == Add(Read(h), ToTotal(d)) <==> Integral(d.sum)
    ensures Script(h, d).max.Some?
  {
    if Integral(d.sum) {
      CellsAdded(h, Script(h, d), Normalize(d.histogram));
    } else {
      WholeSum(h.sum, d.sum);
    }
  }

  /**
    On a bucket whose first script failed, which has a count and no maximum, the script adds the delta if
    and only if its sum is whole and its maximum is not below the zero that is read until then.
   */
  lemma ScriptAfterFailure(h: Hash, d: Delta)
    requires h.max.None?
    ensures Read(Script(h, d)) == Add(Read(h), ToTotal(d)) <==> Integral(d.sum) && d.max >= 0.0
    ensures Integral(d.sum) ==> Script(h, d).max == Some(d.max)
  {
    if Integral(d.sum) {
      CellsAdded(h, Script(h, d), Normalize(d.histogram));
    } else {
      WholeSum(h.sum, d.sum);
    }
  }

  /** A failed first script leaves such a bucket. */
  lemma FailedFirst(d: Delta)
    requires !Integral(d.sum)
    ensures Script(NoHash, d) == NoHash.(count := d.count)
  {
  }

  lemma WholeSum(a: int, b: real)
    requires !Integral(b)
    ensures a as real != a as real + b
  {
  }

  /** On a bucket that did not exist, it stores the delta itself, if and only if its sum is whole. */
  lemma ScriptInserts(d: Delta)
    ensures Read(Script(NoHash, d)) == ToTotal(d) <==> Integral(d.sum)
    ensures Integral(d.sum) ==> Script(NoHash, d).max.Some?
  {
    if Integral(d.sum) {
      var cells := Normalize(d.histogram);
      CellsAdded(NoHash, Script(NoHash, d), cells);
      assert AddCells(ReadCells(NoHash), cells) == cells;
    } else {
      WholeSum(0, d.sum);
    }
  }

  type Hashes = map<Key, Hash>

  function RunScripts(hs: Hashes, ds: seq<Delta>): Hashes {
    if ds == [] then hs
    else
      var n, before := |ds| - 1, RunScripts(hs, ds[..|ds| - 1]);
      var d := ds[n];
      before[d.key := Script(if d.key in before then before[d.key] else NoHash, d)]
  }

  function ReadAll(hs: Hashes): Rollups { map k | k in hs :: Read(hs[k]) }

  lemma ScriptFolds(before: Hashes, d: Delta)
    requires (forall k :: k in before ==> before[k].max.Some?) && Integral(d.sum)
    ensures var after := before[d.key := Script(if d.key in before then before[d.key] else NoHash, d)];
            (forall k :: k in after ==> after[k].max.Some?) && ReadAll(after) == Upsert(ReadAll(before), d)
  {
    if d.key in before { ScriptAdds(before[d.key], d); } else { ScriptInserts(d); }
  }

  /** Any number of scripts, in the order they took effect: what is read is the fold of all deltas. */
  lemma {:induction false} ScriptsFold(hs: Hashes, ds: seq<Delta>)
    requires forall k :: k in hs ==> hs[k].max.Some?
    requires forall d :: d in ds ==> Integral(d.sum)
    ensures forall k :: k in RunScripts(hs, ds) ==> RunScripts(hs, ds)[k].max.Some?
    ensures ReadAll(RunScripts(hs, ds)) == Fold(ReadAll(hs), ds)
  {
    if ds != [] {
      var n, d := |ds| - 1, ds[|ds| - 1];
      assert d in ds;
      ScriptsFold(hs, ds[..n]);
      ScriptFolds(RunScripts(hs, ds[..n]), d);
    }
  }
}
