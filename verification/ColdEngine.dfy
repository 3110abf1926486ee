/** The default read engine: row-group pruning, the backward window scan and the pushdown scan. */
module ColdEngine {
  import opened Entries
  import opened Pages
  import opened ColdFilters

  /** A row group with the `created_at` statistics its footer carries (infinite when absent). */
  datatype Group = Group(rows: seq<Entry>, minMs: Bound, maxMs: Bound)

  /** A cold file is immutable: its row groups in file order. */
  type File = seq<Group>

  const READ_CONCURRENCY: nat := 4
  const TAIL_WINDOW: nat := 256

  ghost predicate Ascending(s: seq<Entry>) {
    forall i, j :: 0 <= i < j < |s| ==> !Newer(s[i], s[j])
  }

  /** Rows are appended oldest first and the statistics, where present, are true of them. */
  ghost predicate SoundGroup(g: Group) {
    && Ascending(g.rows)
    && forall r :: r in g.rows ==> Le(g.minMs, Fin(r.at)) && Le(Fin(r.at), g.maxMs)
  }

  ghost predicate SoundGroups(gs: seq<Group>) { forall g :: g in gs ==> SoundGroup(g) }

  function Groups(files: seq<File>): seq<Group> {
    if files == [] then [] else files[0] + Groups(files[1..])
  }

  function Rows(gs: seq<Group>): seq<Entry> {
    if gs == [] then [] else gs[0].rows + Rows(gs[1..])
  }

  /** The rows that match, as the caller receives them. */
  function Collect(rows: seq<Entry>, f: ColdFilter): (r: seq<Entry>)
    ensures |r| <= |rows|
  {
    if rows == [] then []
    else if Matches(rows[0], f) then [Project(rows[0], f.omitContent)] + Collect(rows[1..], f)
    else Collect(rows[1..], f)
  }

  predicate Selective(f: ColdFilter) {
    f.ids.Some? || f.batchId.Some? || f.traceId.Some? || f.family.Some?
  }

  /** The equality and range clauses handed to the Parquet reader. */
  predicate Pushdown(e: Entry, f: ColdFilter, lower: Bound, upper: Bound) {
    && (f.kind.Some? ==> e.kind == f.kind.value)
    && (f.batchId.Some? ==> e.batchId == f.batchId.value)
    && (f.traceId.Some? ==> e.traceId == f.traceId)
    && (f.family.Some? ==> e.family == f.family)
    && (f.ids.Some? ==> e.id in f.ids.value)
    && (upper.Fin? ==> e.at <= upper.ms)
    && (lower.Fin? ==> e.at >= lower.ms)
  }

  function ReadRowGroup(rows: seq<Entry>, f: ColdFilter, lower: Bound, upper: Bound): seq<Entry> {
    if rows == [] then []
    else if Pushdown(rows[0], f, lower, upper)
    then [rows[0]] + ReadRowGroup(rows[1..], f, lower, upper)
    else ReadRowGroup(rows[1..], f, lower, upper)
  }

  function Overlapping(gs: seq<Group>, lower: Bound, upper: Bound): seq<Group> {
    if gs == [] then []
    else if Le(lower, gs[0].maxMs) && Le(gs[0].minMs, upper)
    then [gs[0]] + Overlapping(gs[1..], lower, upper)
    else Overlapping(gs[1..], lower, upper)
  }

  function InsertGroup(g: Group, gs: seq<Group>): seq<Group> {
    if gs == [] || Le(gs[0].maxMs, g.maxMs) then [g] + gs
    else [gs[0]] + InsertGroup(g, gs[1..])
  }

  /** Groups by the end of their range, latest first; equal ends keep their order. */
  function SortGroups(gs: seq<Group>): seq<Group> {
    if gs == [] then [] else InsertGroup(gs[0], SortGroups(gs[1..]))
  }

  ghost predicate ByEnd(gs: seq<Group>) {
    forall i, j :: 0 <= i < j < |gs| ==> Le(gs[j].maxMs, gs[i].maxMs)
  }

  // ---------------------------------------------------------------- lemmas on the parts

  lemma {:induction false} CollectAppend(a: seq<Entry>, b: seq<Entry>, f: ColdFilter)
    ensures Collect(a + b, f) == Collect(a, f) + Collect(b, f)
  {
    if a == [] {
      assert a + b == b;
    } else {
      assert (a + b)[1..] == a[1..] + b;
      CollectAppend(a[1..], b, f);
    }
  }

  lemma {:induction false} CollectMember(rows: seq<Entry>, f: ColdFilter, x: Entry)
    ensures x in Collect(rows, f) <==>
            exists r :: r in rows && Matches(r, f) && x == Project(r, f.omitContent)
  {
    if rows != [] {
      CollectMember(rows[1..], f, x);
      assert forall r :: r in rows <==> r == rows[0] || r in rows[1..];
    }
  }

  /** Filtering in the reader first never loses a matching row. */
  lemma {:induction false} PushdownSound(rows: seq<Entry>, f: ColdFilter)
    ensures Collect(ReadRowGroup(rows, f, LowerBound(f), UpperBound(f)), f) == Collect(rows, f)
  {
    if rows != [] {
      PushdownSound(rows[1..], f);
      if Matches(rows[0], f) { MatchesInBounds(rows[0], f); }
      var rest := ReadRowGroup(rows[1..], f, LowerBound(f), UpperBound(f));
      assert ([rows[0]] + rest)[1..] == rest;
    }
  }

  /** A group whose range misses the bounds has no matching row. */
  lemma {:induction false} OutsideBounds(rows: seq<Entry>, g: Group, f: ColdFilter)
    requires forall r :: r in rows ==> Le(g.minMs, Fin(r.at)) && Le(Fin(r.at), g.maxMs)
    requires !Le(LowerBound(f), g.maxMs) || !Le(g.minMs, UpperBound(f))
    ensures Collect(rows, f) == []
  {
    if rows != [] {
      if Matches(rows[0], f) { MatchesInBounds(rows[0], f); }
      OutsideBounds(rows[1..], g, f);
    }
  }

  lemma {:induction false} OverlappingSound(gs: seq<Group>, f: ColdFilter)
    requires SoundGroups(gs)
    ensures var kept := Overlapping(gs, LowerBound(f), UpperBound(f));
            SoundGroups(kept) && Collect(Rows(kept), f) == Collect(Rows(gs), f)
  {
    if gs != [] {
      OverlappingSound(gs[1..], f);
      var kept := Overlapping(gs[1..], LowerBound(f), UpperBound(f));
      CollectAppend(gs[0].rows, Rows(gs[1..]), f);
      CollectAppend(gs[0].rows, Rows(kept), f);
      assert ([gs[0]] + kept)[1..] == kept;
      assert gs[0] in gs;
      if !Le(LowerBound(f), gs[0].maxMs) || !Le(gs[0].minMs, UpperBound(f)) {
        OutsideBounds(gs[0].rows, gs[0], f);
      }
    }
  }

  lemma {:induction false} RowsAppend(a: seq<Group>, b: seq<Group>)
    ensures Rows(a + b) == Rows(a) + Rows(b)
  {
    if a == [] {
      assert a + b == b;
    } else {
      assert (a + b)[1..] == a[1..] + b;
      RowsAppend(a[1..], b);
    }
  }

  lemma {:induction false} InsertGroupOrder(g: Group, gs: seq<Group>)
    requires ByEnd(gs) && SoundGroups(gs) && SoundGroup(g)
    ensures ByEnd(InsertGroup(g, gs)) && SoundGroups(InsertGroup(g, gs))
    ensures forall x :: x in InsertGroup(g, gs) ==> x == g || x in gs
  {
    if gs != [] && !Le(gs[0].maxMs, g.maxMs) {
      InsertGroupOrder(g, gs[1..]);
      var rest := InsertGroup(g, gs[1..]);
      forall x | x in rest ensures Le(x.maxMs, gs[0].maxMs) {
        if x != g { var i :| 0 <= i < |gs| - 1 && gs[1..][i] == x; }
      }
    }
  }

  lemma {:induction false} InsertGroupRows(g: Group, gs: seq<Group>, f: ColdFilter)
    ensures multiset(Collect(Rows(InsertGroup(g, gs)), f))
         == multiset(Collect(g.rows, f)) + multiset(Collect(Rows(gs), f))
  {
    if gs == [] || Le(gs[0].maxMs, g.maxMs) {
      CollectAppend(g.rows, Rows(gs), f);
      assert ([g] + gs)[1..] == gs;
    } else {
      var rest := InsertGroup(g, gs[1..]);
      InsertGroupRows(g, gs[1..], f);
      assert ([gs[0]] + rest)[1..] == rest;
      CollectAppend(gs[0].rows, Rows(rest), f);
      CollectAppend(gs[0].rows, Rows(gs[1..]), f);
    }
  }

  lemma {:induction false} SortGroupsFacts(gs: seq<Group>, f: ColdFilter)
    requires SoundGroups(gs)
    ensures ByEnd(SortGroups(gs)) && SoundGroups(SortGroups(gs))
    ensures multiset(Collect(Rows(SortGroups(gs)), f)) == multiset(Collect(Rows(gs), f))
  {
    if gs != [] {
      SortGroupsFacts(gs[1..], f);
      InsertGroupOrder(gs[0], SortGroups(gs[1..]));
      InsertGroupRows(gs[0], SortGroups(gs[1..]), f);
      CollectAppend(gs[0].rows, Rows(gs[1..]), f);
    }
  }

  /** In a list of groups ordered by end, no row is later than the first group's end. */
  lemma RowsEnd(gs: seq<Group>, f: ColdFilter, x: Entry)
    requires ByEnd(gs) && SoundGroups(gs) && gs != [] && x in Collect(Rows(gs), f)
    ensures Le(Fin(x.at), gs[0].maxMs)
  {
    CollectMember(Rows(gs), f, x);
    var r :| r in Rows(gs) && Matches(r, f) && x == Project(r, f.omitContent);
    RowsMember(gs, r);
    var i :| 0 <= i < |gs| && r in gs[i].rows;
    assert SoundGroup(gs[i]) && (i > 0 ==> Le(gs[i].maxMs, gs[0].maxMs));
  }

  lemma {:induction false} RowsMember(gs: seq<Group>, r: Entry)
    ensures r in Rows(gs) <==> exists i :: 0 <= i < |gs| && r in gs[i].rows
  {
    if gs != [] {
      RowsMember(gs[1..], r);
      if i :| 0 <= i < |gs| && r in gs[i].rows { assert i > 0 ==> gs[1..][i - 1] == gs[i]; }
      if i :| 0 <= i < |gs[1..]| && r in gs[1..][i].rows { assert gs[i + 1] == gs[1..][i]; }
    }
  }

  lemma {:induction false} GroupsMember(files: seq<File>, g: Group)
    ensures g in Groups(files) <==> exists file :: file in files && g in file
  {
    if files != [] {
      GroupsMember(files[1..], g);
      assert forall file :: file in files <==> file == files[0] || file in files[1..];
    }
  }

  lemma RowsOfFiles(files: seq<File>, r: Entry)
    ensures r in Rows(Groups(files)) <==> exists file :: file in files && r in Rows(file)
  {
    RowsMember(Groups(files), r);
    if i :| 0 <= i < |Groups(files)| && r in Groups(files)[i].rows {
      GroupsMember(files, Groups(files)[i]);
      var file: File :| file in files && Groups(files)[i] in file;
      var j :| 0 <= j < |file| && file[j] == Groups(files)[i];
      RowsMember(file, r);
    }
    if file: File :| file in files && r in Rows(file) {
      RowsMember(file, r);
      var j :| 0 <= j < |file| && r in file[j].rows;
      GroupsMember(files, file[j]);
      var i :| 0 <= i < |Groups(files)| && Groups(files)[i] == file[j];
    }
  }

  // ---------------------------------------------------------------- reading

  /**
    The state of a scan of `all`: what is held and what is still unread (`rest`) have the same
    newest `limit` as the whole.
   */
  ghost predicate Pending(results: seq<Entry>, rest: seq<Entry>, all: seq<Entry>, limit: Option<nat>) {
    && Elems(results + rest) <= Elems(all)
    && Top(results + rest, limit) == Top(all, limit)
  }

  lemma PendingParts(results: seq<Entry>, rest: seq<Entry>, all: seq<Entry>, limit: Option<nat>)
    requires Pending(results, rest, all, limit) && Agree(Elems(all))
    ensures Agree(Elems(results + rest)) && Agree(Elems(results)) && Agree(Elems(rest))
  {
    assert Elems(results) <= Elems(results + rest) by {
      forall x | x in results ensures x in results + rest {}
    }
    assert Elems(rest) <= Elems(results + rest) by {
      forall x | x in rest ensures x in results + rest {}
    }
  }

  /** Collecting some of the unread matches. */
  lemma PendingCollect(results: seq<Entry>, more: seq<Entry>, rest: seq<Entry>, all: seq<Entry>,
                       limit: Option<nat>)
    requires Pending(results, more + rest, all, limit)
    ensures Pending(results + more, rest, all, limit)
  {
    assert results + (more + rest) == (results + more) + rest;
  }

  /** The unread matches may be named in another order. */
  lemma PendingReorder(results: seq<Entry>, rest: seq<Entry>, rest2: seq<Entry>, all: seq<Entry>,
                       limit: Option<nat>)
    requires Pending(results, rest, all, limit) && Agree(Elems(all))
    requires multiset(rest) == multiset(rest2)
    ensures Pending(results, rest2, all, limit)
  {
    assert multiset(results + rest) == multiset(results + rest2);
    SameElems(results + rest, results + rest2);
    TopPermutation(results + rest, results + rest2, limit);
  }

  /** Unread matches older than `limit` held ones can be skipped. */
  lemma PendingSkip(results: seq<Entry>, older: seq<Entry>, rest: seq<Entry>, all: seq<Entry>,
                    limit: nat, boundary: Bound)
    requires Pending(results, older + rest, all, Some(limit)) && Agree(Elems(all))
    requires LastIsLater(results, limit, boundary)
    requires forall y :: y in older ==> Le(Fin(y.at), boundary)
    ensures Pending(results, rest, all, Some(limit))
  {
    assert results + (older + rest) == (results + older) + rest;
    assert forall x :: x in results + older || x in results + rest ==> x in results + older + rest;
    assert Elems(results + older) <= Elems(all) && Elems(results + rest) <= Elems(all);
    TopSettled(results, older, limit);
    TopExtends(results + older, results, rest, Some(limit));
  }

  /** `limit` matches are held and the last of them is later than `boundary`. */
  ghost predicate LastIsLater(results: seq<Entry>, limit: nat, boundary: Bound) {
    var top := Top(results, Some(limit));
    |top| == limit > 0 && !Le(Fin(top[limit - 1].at), boundary)
  }

  /**
    Sorts and cuts the rows held, which stays decisive for the answer, and tells whether nothing at or
    before `boundary` can enter the page any more.
   */
  method Settled(results: seq<Entry>, limit: Option<nat>, boundary: Bound, ghost rest: seq<Entry>,
                 ghost all: seq<Entry>)
    returns (kept: seq<Entry>, yes: bool)
    requires Pending(results, rest, all, limit) && Agree(Elems(all))
    ensures Pending(kept, rest, all, limit)
    ensures yes ==> limit.Some? && LastIsLater(kept, limit.value, boundary)
  {
    kept := results;
    if limit.None? || |results| < limit.value { return kept, false; }
    PendingParts(results, rest, all, limit);
    TopIdempotent(results, limit);
    TopAbsorbs(results, rest, limit);
    kept := SortNewest(kept)[..limit.value];
    assert kept == Top(results, limit);
    assert forall x :: x in kept + rest ==> x in results + rest;
    yes := limit.value > 0 && !Le(Fin(kept[limit.value - 1].at), boundary);
  }

  /**
    Neither pruning, pushdown nor the early stop shows: the result is the plain sort-then-take over
    every matching row of the files, repeated rows included.
   */
  method Read(files: seq<File>, f: ColdFilter, limit: Option<nat>) returns (result: seq<Entry>)
    requires SoundGroups(Groups(files))
    requires Agree(Elems(Collect(Rows(Groups(files)), f)))
    ensures result == Top(Collect(Rows(Groups(files)), f), limit)
  {
    var lower, upper := LowerBound(f), UpperBound(f);
    var groups := SortGroups(Overlapping(Groups(files), lower, upper));
    ghost var all := Collect(Rows(groups), f);
    OverlappingSound(Groups(files), f);
    SortGroupsFacts(Overlapping(Groups(files), lower, upper), f);
    SameElems(all, Collect(Rows(Groups(files)), f));
    TopPermutation(all, Collect(Rows(Groups(files)), f), limit);

    var results;
    if limit.Some? && !Selective(f) {
      results := ReadBackwards(groups, f, limit.value);
    } else {
      results := ReadSelective(groups, f, limit);
    }
    result := Take(SortNewest(results), limit);
    assert results + [] == results;
  }

  /** Every match still to come, given the groups read so far. */
  ghost function Remaining(groups: seq<Group>, done: nat, f: ColdFilter): seq<Entry>
    requires done <= |groups|
  {
    Collect(Rows(groups[done..]), f)
  }

  lemma RemainingStep(groups: seq<Group>, done: nat, f: ColdFilter)
    requires done < |groups| && ByEnd(groups) && SoundGroups(groups)
    ensures Remaining(groups, done, f)
         == Collect(groups[done].rows, f) + Remaining(groups, done + 1, f)
    ensures forall y :: y in Remaining(groups, done, f) ==> Le(Fin(y.at), groups[done].maxMs)
    ensures SoundGroup(groups[done])
  {
    assert groups[done..][1..] == groups[done + 1..];
    CollectAppend(groups[done].rows, Rows(groups[done + 1..]), f);
    forall y | y in Remaining(groups, done, f) ensures Le(Fin(y.at), groups[done].maxMs) {
      RowsEnd(groups[done..], f, y);
    }
  }

  /** A page of a type: group by group from the latest, each from its end, until the page is settled. */
  method ReadBackwards(groups: seq<Group>, f: ColdFilter, limit: nat) returns (results: seq<Entry>)
    requires ByEnd(groups) && SoundGroups(groups)
    requires Agree(Elems(Collect(Rows(groups), f)))
    ensures Pending(results, [], Collect(Rows(groups), f), Some(limit))
  {
    ghost var all := Collect(Rows(groups), f);
    results := [];
    var i := 0;
    assert groups[0..] == groups && [] + all == all;
    while i < |groups|
      invariant 0 <= i <= |groups|
      invariant Pending(results, Remaining(groups, i, f), all, Some(limit))
    {
      var group := groups[i];
      ghost var rest := Remaining(groups, i, f);
      RemainingStep(groups, i, f);
      var settled;
      results, settled := Settled(results, Some(limit), group.maxMs, rest, all);
      if settled {
        assert rest + [] == rest;
        PendingSkip(results, rest, [], all, limit, group.maxMs);
        return;
      }
      results := ReadTail(group, f, limit, results, Remaining(groups, i + 1, f), all);
      i := i + 1;
    }
    assert Remaining(groups, |groups|, f) == [];
  }

  /** One group, read backwards in windows that double until the page is settled. */
  method ReadTail(group: Group, f: ColdFilter, limit: nat, held: seq<Entry>, ghost later: seq<Entry>,
                  ghost all: seq<Entry>)
    returns (results: seq<Entry>)
    requires SoundGroup(group) && Agree(Elems(all))
    requires Pending(held, Collect(group.rows, f) + later, all, Some(limit))
    ensures Pending(results, later, all, Some(limit))
  {
    results := held;
    var end := |group.rows|;
    var size := if TAIL_WINDOW >= limit + 1 then TAIL_WINDOW else limit + 1;
    assert group.rows[..end] == group.rows;
    while end > 0
      invariant 0 <= end <= |group.rows| && size >= 1
      invariant Pending(results, Collect(group.rows[..end], f) + later, all, Some(limit))
      decreases end
    {
      var start := if end >= size then end - size else 0;
      var rows := group.rows[start..end];
      ghost var earlier := Collect(group.rows[..start], f);
      TailWindow(group.rows, start, end, f, results, later, all, Some(limit));
      results := results + Collect(rows, f);
      var settled;
      results, settled := Settled(results, Some(limit), Fin(rows[0].at), earlier + later, all);
      if settled {
        // By the group's order no unread row of it is past the boundary just tested.
        EarlierRows(group.rows, start, f);
        PendingSkip(results, earlier, later, all, limit, Fin(rows[0].at));
        return;
      }
      end := start;
      size := size * 2;
    }
    assert Collect(group.rows[..0], f) + later == later;
  }

  /** Reading `rows[start..end]` of a group whose rows before `end` are unread. */
  lemma TailWindow(rows: seq<Entry>, start: nat, end: nat, f: ColdFilter, results: seq<Entry>,
                   later: seq<Entry>, all: seq<Entry>, limit: Option<nat>)
    requires start <= end <= |rows| && Agree(Elems(all))
    requires Pending(results, Collect(rows[..end], f) + later, all, limit)
    ensures Pending(results + Collect(rows[start..end], f), Collect(rows[..start], f) + later, all, limit)
  {
    var more, earlier := Collect(rows[start..end], f), Collect(rows[..start], f);
    assert rows[..end] == rows[..start] + rows[start..end];
    CollectAppend(rows[..start], rows[start..end], f);
    SwapParts(earlier, more, later);
    PendingReorder(results, Collect(rows[..end], f) + later, more + (earlier + later), all, limit);
    PendingCollect(results, more, earlier + later, all, limit);
  }

  lemma SwapParts<T>(a: seq<T>, b: seq<T>, c: seq<T>)
    ensures multiset(a + b + c) == multiset(b + (a + c))
  {
  }

  lemma EarlierRows(rows: seq<Entry>, start: nat, f: ColdFilter)
    requires Ascending(rows) && start < |rows|
    ensures forall y :: y in Collect(rows[..start], f) ==> y.at <= rows[start].at
  {
    forall y | y in Collect(rows[..start], f) ensures y.at <= rows[start].at {
      CollectMember(rows[..start], f, y);
      var r :| r in rows[..start] && Matches(r, f) && y == Project(r, f.omitContent);
      var n :| 0 <= n < start && rows[n] == r;
      assert !Newer(rows[n], rows[start]);
    }
  }

  /** Whole groups with pushdown, four at a time. */
  method ReadSelective(groups: seq<Group>, f: ColdFilter, limit: Option<nat>) returns (results: seq<Entry>)
    requires ByEnd(groups) && SoundGroups(groups)
    requires Agree(Elems(Collect(Rows(groups), f)))
    ensures Pending(results, [], Collect(Rows(groups), f), limit)
  {
    ghost var all := Collect(Rows(groups), f);
    results := [];
    var index := 0;
    assert groups[0..] == groups && [] + all == all;
    while index < |groups|
      invariant 0 <= index <= |groups|
      invariant Pending(results, Remaining(groups, index, f), all, limit)
    {
      var stop := if index + READ_CONCURRENCY <= |groups| then index + READ_CONCURRENCY else |groups|;
      ghost var rest := Remaining(groups, index, f);
      RemainingStep(groups, index, f);
      var settled;
      // By the order of the groups the end of this one is a boundary for all that is unread.
      results, settled := Settled(results, limit, groups[index].maxMs, rest, all);
      if settled {
        assert rest + [] == rest;
        PendingSkip(results, rest, [], all, limit.value, groups[index].maxMs);
        return;
      }
      results := ReadWindow(groups, index, stop, f, results, limit, all);
      index := stop;
    }
    assert Remaining(groups, |groups|, f) == [];
  }

  /** The groups `index..stop`, decoded with the pushdown filter and collected in order. */
  method ReadWindow(groups: seq<Group>, index: nat, stop: nat, f: ColdFilter, held: seq<Entry>,
                    limit: Option<nat>, ghost all: seq<Entry>)
    returns (results: seq<Entry>)
    requires ByEnd(groups) && SoundGroups(groups) && index <= stop <= |groups|
    requires Pending(held, Remaining(groups, index, f), all, limit)
    ensures Pending(results, Remaining(groups, stop, f), all, limit)
  {
    results := held;
    for i := index to stop
      invariant Pending(results, Remaining(groups, i, f), all, limit)
    {
      var rows := ReadRowGroup(groups[i].rows, f, LowerBound(f), UpperBound(f));
      WindowStep(groups, i, f, results, limit, all);
      results := results + Collect(rows, f);
    }
  }

  lemma WindowStep(groups: seq<Group>, i: nat, f: ColdFilter, held: seq<Entry>, limit: Option<nat>, all: seq<Entry>)
    requires ByEnd(groups) && SoundGroups(groups) && i < |groups|
    requires Pending(held, Remaining(groups, i, f), all, limit)
    ensures var rows := ReadRowGroup(groups[i].rows, f, LowerBound(f), UpperBound(f));
            Pending(held + Collect(rows, f), Remaining(groups, i + 1, f), all, limit)
  {
    PushdownSound(groups[i].rows, f);
    RemainingStep(groups, i, f);
    PendingCollect(held, Collect(groups[i].rows, f), Remaining(groups, i + 1, f), all, limit);
  }
}
