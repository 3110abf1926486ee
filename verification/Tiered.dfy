/**
  One provider over a hot store and the cold tier: a page merged from hot reads, taken one after
  the other, and a later cold read, while entries are stored, archived and deleted meanwhile.
 */
module Tiered {
  import opened Entries
  import opened Pages
  import opened ColdFilters
  import opened ColdEngine
  import opened ColdStore
  import opened Layout

  const MAX_HOT_PAGES: nat := 20

  ghost predicate IdsOnce(s: seq<Entry>) { forall i, j :: 0 <= i < j < |s| ==> s[i].id != s[j].id }

  lemma HitsAgree(s: set<Entry>, q: EntryQuery)
    requires Agree(s)
    ensures Agree(Hits(s, q))
  {
    ProjectAgrees(s, Hits(s, q), q.omitContent);
  }

  // ---------------------------------------------------------------- the hot store's contract

  /**
    The keyset contract of any hot store's `get`: matches behind the cursor, newest first, and a
    next cursor exactly when more are left.
   */
  function HotGet(hot: seq<Entry>, q: EntryQuery, count: nat): Page
    requires count >= 1
  {
    var all := SortNewest(Collect(hot, ToColdFilter(q)));
    var data := Take(all, Some(count));
    Page(data, if |all| > count then Some(PositionOf(data[count - 1])) else None)
  }

  lemma {:induction false} CollectIdsOnce(rows: seq<Entry>, f: ColdFilter)
    requires IdsOnce(rows)
    ensures IdsOnce(Collect(rows, f)) && Distinct(Collect(rows, f))
  {
    if rows != [] {
      CollectIdsOnce(rows[1..], f);
      var rest := Collect(rows[1..], f);
      forall i | 0 <= i < |rest| ensures rest[i].id != rows[0].id {
        CollectMember(rows[1..], f, rest[i]);
        var r :| r in rows[1..] && rest[i] == Project(r, f.omitContent);
        var j :| 0 <= j < |rows[1..]| && rows[1..][j] == r;
        assert rows[j + 1] == r;
      }
    }
  }

  lemma CollectHits(rows: seq<Entry>, q: EntryQuery)
    ensures Elems(Collect(rows, ToColdFilter(q))) == Hits(Elems(rows), q)
  {
    forall x ensures x in Collect(rows, ToColdFilter(q)) <==> x in Hits(Elems(rows), q) {
      CollectMember(rows, ToColdFilter(q), x);
      forall r | r in rows { MatchesWanted(r, q); }
    }
  }

  lemma HotGetFacts(hot: seq<Entry>, q: EntryQuery, count: nat)
    requires count >= 1 && IdsOnce(hot)
    ensures Agree(Hits(Elems(hot), q))
    ensures HotGet(hot, q, count).data == TopK(Hits(Elems(hot), q), count)
    ensures var page := HotGet(hot, q, count);
            && (page.next.Some? <==> |Hits(Elems(hot), q)| > count)
            && (page.next.Some? ==> page.next.value == PositionOf(page.data[count - 1]))
  {
    var rows := Collect(hot, ToColdFilter(q));
    CollectIdsOnce(hot, ToColdFilter(q));
    CollectHits(hot, q);
    forall a, b | a in Elems(rows) && b in Elems(rows) && a.id == b.id ensures a == b {
      var i :| 0 <= i < |rows| && rows[i] == a;
      var j :| 0 <= j < |rows| && rows[j] == b;
    }
    TopOfDistinct(rows, count);
    DistinctSize(rows);
  }

  // ---------------------------------------------------------------- reading the hot pages

  /** The cursor becomes a `before` bound that still lets its own millisecond through. */
  function HotQuery(q: EntryQuery): EntryQuery {
    var before :=
      if q.cursor.Some? && (q.before.None? || q.cursor.value.at + 1 < q.before.value)
      then Some(q.cursor.value.at + 1) else q.before;
    q.(before := before, cursor := None)
  }

  /** An entry of the cursor's millisecond already returned by an earlier page. */
  predicate Tie(e: Entry, cursor: Option<Position>) {
    cursor.Some? && e.at == cursor.value.at && !Less(e.id, cursor.value.id)
  }

  function SkipTies(s: seq<Entry>, cursor: Option<Position>): seq<Entry> {
    if s == [] then []
    else var n := |s| - 1;
         SkipTies(s[..n], cursor) + (if Tie(s[n], cursor) then [] else [s[n]])
  }

  lemma {:induction false} SkipTiesMember(s: seq<Entry>, cursor: Option<Position>)
    ensures forall x :: x in SkipTies(s, cursor) <==> x in s && !Tie(x, cursor)
  {
    if s != [] {
      var n := |s| - 1;
      SkipTiesMember(s[..n], cursor);
      assert s == s[..n] + [s[n]];
    }
  }

  lemma SkipTiesPush(s: seq<Entry>, e: Entry, cursor: Option<Position>)
    ensures SkipTies(s + [e], cursor) == SkipTies(s, cursor) + (if Tie(e, cursor) then [] else [e])
  {
    assert (s + [e])[..|s|] == s;
  }

  lemma {:induction false} SkipTiesDescending(s: seq<Entry>, cursor: Option<Position>)
    requires Descending(s)
    ensures Descending(SkipTies(s, cursor))
  {
    if s != [] {
      var n := |s| - 1;
      SkipTiesDescending(s[..n], cursor);
      SkipTiesMember(s[..n], cursor);
      var r := SkipTies(s[..n], cursor);
      forall i | 0 <= i < |r| ensures Newer(r[i], s[n]) {
        assert r[i] in s[..n];
        var j :| 0 <= j < n && s[j] == r[i];
      }
    }
  }

  ghost function Ties(s: set<Entry>, q: EntryQuery): set<Entry> {
    set e | e in Hits(s, HotQuery(q)) && Tie(e, q.cursor)
  }

  /** What the rewritten query finds beyond what was asked for is exactly the ties. */
  lemma HotHits(s: set<Entry>, q: EntryQuery)
    ensures Hits(s, q) == set e | e in Hits(s, HotQuery(q)) && !Tie(e, q.cursor)
    ensures Hits(s, HotQuery(q)) == Hits(s, q) + Ties(s, q)
  {
    forall e ensures Wanted(e, q) && (q.cursor.Some? ==> Behind(e, q.cursor.value))
                     <==> Wanted(e, HotQuery(q)) && !Tie(e, q.cursor) {
      assert Wanted(e, HotQuery(q)) <==>
             Wanted(e, q) && (q.cursor.Some? ==> e.at <= q.cursor.value.at);
    }
    forall x ensures x in Hits(s, q) <==> x in Hits(s, HotQuery(q)) && !Tie(x, q.cursor) {
      if x in Hits(s, q) {
        var e :| e in s && Wanted(e, q) && (q.cursor.Some? ==> Behind(e, q.cursor.value))
                 && x == Project(e, q.omitContent);
        assert Wanted(e, HotQuery(q));
      }
      if x in Hits(s, HotQuery(q)) && !Tie(x, q.cursor) {
        var e :| e in s && Wanted(e, HotQuery(q)) && x == Project(e, q.omitContent);
        assert !Tie(e, q.cursor);
      }
    }
  }

  lemma HitsBehind(s: set<Entry>, q: EntryQuery, p: Position)
    requires q.cursor.None?
    ensures Hits(s, q.(cursor := Some(p))) == set e | e in Hits(s, q) && Behind(e, p)
  {
    forall x ensures x in Hits(s, q.(cursor := Some(p))) <==> x in Hits(s, q) && Behind(x, p) {
      if x in Hits(s, q) && Behind(x, p) {
        var e :| e in s && Wanted(e, q) && x == Project(e, q.omitContent);
        assert Wanted(e, q.(cursor := Some(p))) && Behind(e, p);
      }
      if x in Hits(s, q.(cursor := Some(p))) {
        var e :| e in s && Wanted(e, q.(cursor := Some(p))) && Behind(e, p) && x == Project(e, q.omitContent);
        assert Wanted(e, q);
      }
    }
  }

  /** `e` was there, and a hit, at each of the first `n` hot snapshots. */
  ghost predicate AlwaysHit(e: Entry, snapshots: seq<seq<Entry>>, n: nat, q: EntryQuery) {
    forall i :: 0 <= i < n && i < |snapshots| ==> e in Hits(Elems(snapshots[i]), q)
  }

  function FullPages(n: nat, count: nat): nat { if n == 0 then 0 else FullPages(n - 1, count) + count }

  lemma {:induction false} FullPagesProduct(n: nat, count: nat)
    ensures FullPages(n, count) == n * count
  {
    if n > 0 { FullPagesProduct(n - 1, count); }
  }

  lemma {:induction false} FullPagesMonotone(n: nat, m: nat, count: nat)
    requires n <= m
    ensures FullPages(n, count) <= FullPages(m, count)
  {
    if n < m { FullPagesMonotone(n, m - 1, count); }
  }

  /**
    What `n` hot snapshots brought: a descending list that skips no entry there was at each of them,
    and full pages as long as a next cursor was given.
   */
  ghost predicate Fetched(got: seq<Entry>, n: nat, snapshots: seq<seq<Entry>>, q: EntryQuery, count: nat,
                          ended: bool, v: set<Entry>) {
    && n <= |snapshots|
    && Descending(got) && Elems(got) <= Hits(v, q)
    && |got| <= FullPages(n, count) && (!ended ==> |got| == FullPages(n, count))
    && (forall e :: AlwaysHit(e, snapshots, n, q) && e !in got ==>
          !ended && forall x :: x in got ==> Newer(x, e))
  }

  ghost predicate HotReads(snapshots: seq<seq<Entry>>, v: set<Entry>) {
    && |snapshots| == MAX_HOT_PAGES && Agree(v)
    && forall r :: r in snapshots ==> IdsOnce(r) && Elems(r) <= v
  }

  function CursorAfter(got: seq<Entry>): Option<Position> {
    if got == [] then None else Some(PositionOf(got[|got| - 1]))
  }

  lemma FetchMore(got: seq<Entry>, n: nat, snapshots: seq<seq<Entry>>, q: EntryQuery, count: nat, v: set<Entry>)
    requires HotReads(snapshots, v) && count >= 1 && n < |snapshots| && q.cursor.None?
    requires Fetched(got, n, snapshots, q, count, false, v)
    ensures var page := HotGet(snapshots[n], q.(cursor := CursorAfter(got)), count);
            && Fetched(got + page.data, n + 1, snapshots, q, count, page.next.None?, v)
            && (page.next.Some? ==> page.next == CursorAfter(got + page.data))
  {
    var hot, q' := snapshots[n], q.(cursor := CursorAfter(got));
    var page := HotGet(hot, q', count);
    var more := got + page.data;
    HotGetFacts(hot, q', count);
    BehindGot(got, hot, q, v);
    MoreDescending(got, page.data, hot, q, v);
    forall e | AlwaysHit(e, snapshots, n + 1, q) && e !in more
      ensures page.next.Some? && forall x :: x in more ==> Newer(x, e)
    {
      assert AlwaysHit(e, snapshots, n, q) && e in Hits(Elems(hot), q);
      LeftOver(got, hot, q, count, e);
    }
  }

  /** What the next page is drawn from: the hits older than all fetched so far. */
  lemma BehindGot(got: seq<Entry>, hot: seq<Entry>, q: EntryQuery, v: set<Entry>)
    requires Descending(got) && q.cursor.None? && Elems(hot) <= v
    ensures var rest := Hits(Elems(hot), q.(cursor := CursorAfter(got)));
            && rest <= Hits(v, q) && rest <= Hits(Elems(hot), q)
            && (forall x, e :: x in got && e in rest ==> Newer(x, e))
            && (forall e :: e in Hits(Elems(hot), q) && (forall x :: x in got ==> Newer(x, e)) ==> e in rest)
  {
    if got == [] {
      assert q.(cursor := None) == q;
    } else {
      var last := got[|got| - 1];
      HitsBehind(Elems(hot), q, PositionOf(last));
      var rest := Hits(Elems(hot), q.(cursor := CursorAfter(got)));
      forall x, e | x in got && e in rest ensures Newer(x, e) {
        NewerOrder(e, last, e);
        var i :| 0 <= i < |got| && got[i] == x;
        if i < |got| - 1 { NewerTransitive(x, last, e); }
      }
      forall e | e in Hits(Elems(hot), q) && forall x :: x in got ==> Newer(x, e) ensures e in rest {
        NewerOrder(e, last, e);
        assert last in got;
      }
    }
  }

  lemma MoreDescending(got: seq<Entry>, data: seq<Entry>, hot: seq<Entry>, q: EntryQuery, v: set<Entry>)
    requires Descending(got) && Descending(data) && Elems(got) <= Hits(v, q)
    requires Elems(data) <= Hits(v, q) && forall x, e :: x in got && e in Elems(data) ==> Newer(x, e)
    ensures Descending(got + data) && Elems(got + data) <= Hits(v, q)
  {
    forall x | x in got + data ensures x in Hits(v, q) {
      assert x in Elems(got) || x in Elems(data);
    }
  }

  /** A hit the page did not bring is older than all it brought, and the page said there is more. */
  lemma LeftOver(got: seq<Entry>, hot: seq<Entry>, q: EntryQuery, count: nat, e: Entry)
    requires count >= 1 && IdsOnce(hot) && q.cursor.None?
    requires e in Hits(Elems(hot), q.(cursor := CursorAfter(got)))
    requires e !in HotGet(hot, q.(cursor := CursorAfter(got)), count).data
    ensures var page := HotGet(hot, q.(cursor := CursorAfter(got)), count);
            page.next.Some? && forall x :: x in page.data ==> Newer(x, e)
  {
    var rest := Hits(Elems(hot), q.(cursor := CursorAfter(got)));
    HotGetFacts(hot, q.(cursor := CursorAfter(got)), count);
    OutsideTopK(rest, count, e);
  }

  /** An entry the newest `k` leave out is older than all of them, and there are `k`. */
  lemma OutsideTopK(u: set<Entry>, k: nat, e: Entry)
    requires Agree(u) && e in u && e !in TopK(u, k)
    ensures |u| > k && |TopK(u, k)| == k && forall x :: x in TopK(u, k) ==> Newer(x, e)
  {
    TopKCovers(u, k);
    var top := Elems(TopK(u, k));
    DescendingSize(TopK(u, k));
    SubsetSize(NewerIn(top, e), top);
    SubsetSize(top + {e}, u);
    ElemsSize(TopK(u, k));
    EqualSize(NewerIn(top, e), top);
  }

  lemma EqualSize<T>(a: set<T>, b: set<T>)
    requires a <= b && |a| >= |b|
    ensures a == b
  {
    assert b == a + (b - a);
  }

  /**
    A hot page: descending hits, at most `count`; within the tie budget it misses no hit that was there
    at each read, unless it is full of newer ones.
   */
  ghost predicate HotPart(hot: seq<Entry>, snapshots: seq<seq<Entry>>, q: EntryQuery, count: nat, v: set<Entry>) {
    && Descending(hot) && Elems(hot) <= Hits(v, q) && |hot| <= count
    && (TieBudget(v, q, count) ==>
          forall e :: AlwaysHit(e, snapshots, MAX_HOT_PAGES, q) && e !in hot ==>
            |hot| == count && forall x :: x in hot ==> Newer(x, e))
  }

  ghost predicate AtRest(snapshots: seq<seq<Entry>>, v: set<Entry>) { forall r :: r in snapshots ==> Elems(r) == v }

  /**
    The loop that reads the hot store page by page and skips the ties. From a store at rest its entries
    are the newest `count` hits if and only if there is none, or at most 19 pages of ties, or at most
    20 pages in all.
   */
  method HotPage(snapshots: seq<seq<Entry>>, q: EntryQuery, count: nat, ghost v: set<Entry>)
    returns (hot: seq<Entry>)
    requires HotReads(snapshots, v) && count >= 1
    ensures HotPart(hot, snapshots, q, count, v)
    ensures AtRest(snapshots, v) ==>
              && Agree(Hits(v, q))
              && (hot == TopK(Hits(v, q), count)
                  <==> Hits(v, q) == {} || TieBudget(v, q, count)
                       || |Ties(v, q)| + |Hits(v, q)| <= MAX_HOT_PAGES * count)
  {
    var out; ghost var got, n, ended;
    out, got, n, ended := HotPages(snapshots, HotQuery(q), q.cursor, count, v);
    hot := Take(SortNewest(out), Some(count));
    SkipTiesDescending(got, q.cursor);
    SortedAlready(out);
    HotPartFrom(got, n, ended, snapshots, q, count, v);
    if AtRest(snapshots, v) { HotPageExact(got, n, ended, snapshots, q, count, v); }
  }

  /** Pages are read until `count` entries are kept, the hot store has no more, or 20 were read. */
  method HotPages(snapshots: seq<seq<Entry>>, rest: EntryQuery, position: Option<Position>, count: nat,
                  ghost v: set<Entry>)
    returns (out: seq<Entry>, ghost got: seq<Entry>, ghost n: nat, ghost ended: bool)
    requires HotReads(snapshots, v) && count >= 1 && rest.cursor.None?
    ensures Fetched(got, n, snapshots, rest, count, ended, v) && out == SkipTies(got, position)
    ensures ended || |out| >= count || n == MAX_HOT_PAGES
  {
    var hotCursor: Option<Position> := None;
    out, got, n, ended := [], [], 0, false;
    NothingFetched(snapshots, rest, count, v);
    for page := 0 to MAX_HOT_PAGES
      invariant Fetched(got, page, snapshots, rest, count, false, v)
      invariant out == SkipTies(got, position) && hotCursor == CursorAfter(got)
    {
      ghost var before := got;
      var result;
      result, got, ended := ReadHot(snapshots, page, rest, count, hotCursor, got, v);
      out := PushBehind(out, result.data, position, before);
      n := page + 1;
      if |out| >= count || result.next.None? { return; }
      hotCursor := result.next;
    }
    n, ended := MAX_HOT_PAGES, false;
  }

  /** The entries of one page that are not ties are pushed. */
  method PushBehind(held: seq<Entry>, data: seq<Entry>, cursor: Option<Position>, ghost before: seq<Entry>)
    returns (out: seq<Entry>)
    requires held == SkipTies(before, cursor)
    ensures out == SkipTies(before + data, cursor)
  {
    out := held;
    ghost var seen := before;
    for i := 0 to |data|
      invariant seen == before + data[..i] && out == SkipTies(seen, cursor)
    {
      SkipTiesPush(seen, data[i], cursor);
      seen := seen + [data[i]];
      if !Tie(data[i], cursor) { out := out + [data[i]]; }
    }
    assert data[..|data|] == data;
  }

  lemma NothingFetched(snapshots: seq<seq<Entry>>, q: EntryQuery, count: nat, v: set<Entry>)
    ensures Fetched([], 0, snapshots, q, count, false, v)
  {
  }

  method ReadHot(snapshots: seq<seq<Entry>>, n: nat, q: EntryQuery, count: nat, cursor: Option<Position>,
                 ghost got: seq<Entry>, ghost v: set<Entry>)
    returns (page: Page, ghost more: seq<Entry>, ghost ended: bool)
    requires HotReads(snapshots, v) && count >= 1 && n < |snapshots| && q.cursor.None?
    requires Fetched(got, n, snapshots, q, count, false, v) && cursor == CursorAfter(got)
    ensures page == HotGet(snapshots[n], q.(cursor := cursor), count) && more == got + page.data
    ensures Fetched(more, n + 1, snapshots, q, count, ended, v) && ended == page.next.None?
    ensures page.next.Some? ==> page.next == CursorAfter(more)
  {
    FetchMore(got, n, snapshots, q, count, v);
    page := HotGet(snapshots[n], q.(cursor := cursor), count);
    more, ended := got + page.data, page.next.None?;
  }

  /** Pages fetched in order need no sorting. */
  lemma {:induction false} SortedAlready(s: seq<Entry>)
    requires Descending(s)
    ensures SortNewest(s) == s
  {
    if s != [] {
      SortedAlready(s[1..]);
      if |s| > 1 { NewerOrder(s[0], s[1], s[0]); }
    }
  }

  // ---------------------------------------------------------------- the tie budget

  /** Few enough entries of the cursor's own millisecond are still to be skipped. */
  ghost predicate TieBudget(v: set<Entry>, q: EntryQuery, count: nat) {
    |Ties(v, q)| <= (MAX_HOT_PAGES - 1) * count
  }

  function Tied(s: seq<Entry>, cursor: Option<Position>): set<Entry> { set e | e in s && Tie(e, cursor) }

  lemma SkippedTies(s: seq<Entry>, cursor: Option<Position>)
    requires Descending(s)
    ensures |SkipTies(s, cursor)| + |Tied(s, cursor)| == |s|
  {
    SkipTiesMember(s, cursor);
    DescendingSize(s);
    SkipTiesDescending(s, cursor);
    DescendingSize(SkipTies(s, cursor));
    assert Elems(s) == Elems(SkipTies(s, cursor)) + Tied(s, cursor);
  }

  lemma TakeDescending(s: seq<Entry>, count: nat)
    requires Descending(s)
    ensures var t := Take(s, Some(count));
            && Descending(t)
            && (forall x, e :: x in t && e in s && e !in t ==> |t| == count && Newer(x, e))
  {
    var t := Take(s, Some(count));
    forall x, e | x in t && e in s && e !in t ensures |t| == count && Newer(x, e) {
      var i :| 0 <= i < |t| && t[i] == x;
      var j :| 0 <= j < |s| && s[j] == e;
      assert forall k :: 0 <= k < |t| ==> s[k] in t by {
        assert forall k :: 0 <= k < |t| ==> t[k] == s[k];
      }
    }
  }

  lemma FullPage(kept: nat, skipped: nat, ties: nat, n: nat, count: nat)
    requires skipped <= ties <= (MAX_HOT_PAGES - 1) * count && kept + skipped == FullPages(n, count)
    requires kept >= count || n == MAX_HOT_PAGES
    ensures kept >= count
  {
    FullPagesProduct(n, count);
  }

  /**
    Within the tie budget the hot page misses no entry that stayed: it is on the page, or the page is
    full of newer ones.
   */
  lemma HotPageComplete(got: seq<Entry>, n: nat, ended: bool, snapshots: seq<seq<Entry>>, q: EntryQuery,
                        count: nat, v: set<Entry>, e: Entry)
    requires HotReads(snapshots, v) && count >= 1 && TieBudget(v, q, count)
    requires Fetched(got, n, snapshots, HotQuery(q), count, ended, v)
    requires ended || |Take(SkipTies(got, q.cursor), Some(count))| == count || n == MAX_HOT_PAGES
    requires AlwaysHit(e, snapshots, n, HotQuery(q)) && !Tie(e, q.cursor)
    ensures var hot := Take(SkipTies(got, q.cursor), Some(count));
            e in hot || (|hot| == count && forall x :: x in hot ==> Newer(x, e))
  {
    SkipTiesMember(got, q.cursor);
    var kept, hot := SkipTies(got, q.cursor), Take(SkipTies(got, q.cursor), Some(count));
    SkipTiesDescending(got, q.cursor);
    TakeDescending(kept, count);
    if e !in got {
      SkippedTies(got, q.cursor);
      FetchedSizes(got, q, v);
      FullPage(|kept|, |Tied(got, q.cursor)|, |Ties(v, q)|, n, count);
    }
  }

  lemma AlwaysHitHot(e: Entry, snapshots: seq<seq<Entry>>, n: nat, q: EntryQuery)
    requires AlwaysHit(e, snapshots, MAX_HOT_PAGES, q) && |snapshots| == MAX_HOT_PAGES
    ensures AlwaysHit(e, snapshots, n, HotQuery(q)) && !Tie(e, q.cursor)
  {
    forall i | 0 <= i < |snapshots| ensures e in Hits(Elems(snapshots[i]), HotQuery(q)) && !Tie(e, q.cursor) {
      HotHits(Elems(snapshots[i]), q);
    }
    assert e in Hits(Elems(snapshots[0]), q);
    HotHits(Elems(snapshots[0]), q);
  }

  lemma HotPartFrom(got: seq<Entry>, n: nat, ended: bool, snapshots: seq<seq<Entry>>, q: EntryQuery,
                    count: nat, v: set<Entry>)
    requires HotReads(snapshots, v) && count >= 1
    requires Fetched(got, n, snapshots, HotQuery(q), count, ended, v)
    requires ended || |Take(SkipTies(got, q.cursor), Some(count))| == count || n == MAX_HOT_PAGES
    ensures HotPart(Take(SkipTies(got, q.cursor), Some(count)), snapshots, q, count, v)
  {
    var kept, hot := SkipTies(got, q.cursor), Take(SkipTies(got, q.cursor), Some(count));
    SkipTiesDescending(got, q.cursor);
    SkipTiesMember(got, q.cursor);
    TakeDescending(kept, count);
    HotHits(v, q);
    assert forall x :: x in hot ==> x in kept && x in Elems(got);
    if TieBudget(v, q, count) {
      forall e | AlwaysHit(e, snapshots, MAX_HOT_PAGES, q) && e !in hot
        ensures |hot| == count && forall x :: x in hot ==> Newer(x, e)
      {
        AlwaysHitHot(e, snapshots, n, q);
        HotPageComplete(got, n, ended, snapshots, q, count, v, e);
      }
    }
  }

  // ---------------------------------------------------------------- a hot store at rest

  lemma Prefix(got: seq<Entry>, u: set<Entry>)
    requires Agree(u) && Descending(got) && Elems(got) <= u
    requires forall e, x :: e in u && e !in got && x in got ==> Newer(x, e)
    ensures got == TopK(u, |got|)
  {
    DescendingSize(got);
    SubsetSize(Elems(got), u);
    CoversOlder(Elems(got), u, |got|);
    CoversTopK(Elems(got), u, |got|);
    DescendingUnique(got, TopK(Elems(got), |got|));
  }

  /**
    On a hot store that does not change, the hot page is the newest `count` hits exactly when there
    is nothing to find, at most 19 pages of ties to skip, or at most 20 pages in all.
   */
  lemma HotPageExact(got: seq<Entry>, n: nat, ended: bool, snapshots: seq<seq<Entry>>, q: EntryQuery,
                     count: nat, v: set<Entry>)
    requires HotReads(snapshots, v) && count >= 1 && AtRest(snapshots, v)
    requires Fetched(got, n, snapshots, HotQuery(q), count, ended, v)
    requires ended || |Take(SkipTies(got, q.cursor), Some(count))| == count || n == MAX_HOT_PAGES
    ensures Agree(Hits(v, q))
    ensures Take(SkipTies(got, q.cursor), Some(count)) == TopK(Hits(v, q), count)
            <==> Hits(v, q) == {} || TieBudget(v, q, count)
                 || |Ties(v, q)| + |Hits(v, q)| <= MAX_HOT_PAGES * count
  {
    var kept, tied := SkipTies(got, q.cursor), Tied(got, q.cursor);
    NewestPart(got, n, ended, snapshots, q, count, v);
    KeptPrefix(got, q, v);
    FetchedSizes(got, q, v);
    SkippedTies(got, q.cursor);
    if ended { AllFetched(got, q, v); }
    TakeOfPrefix(kept, Hits(v, q), count);
    if kept != [] { TiesComeFirst(got, q, v); }
    FullPagesBound(n, count);
    BudgetArithmetic(|kept|, |tied|, |Hits(v, q)|, |Ties(v, q)|, FullPages(n, count), count, ended);
  }

  // Twenty pages of ties and one older entry.

  function TieEntry(k: nat): Entry { Entry(seq(k, _ => 'a'), 1, "", "", None, None, [], 0, None) }

  const OlderEntry: Entry := Entry("b", 0, "", "", None, None, [], 0, None)

  function TieEntries(n: nat): seq<Entry> { seq(n, k requires 0 <= k => TieEntry(k)) }

  /** Everything behind the cursor that sorts before all ties. */
  const AfterTies: EntryQuery :=
    EntryQuery(None, None, None, None, None, None, None, None, None, Some(Position(1, "")), None, false)

  lemma TieEntriesOnce(n: nat)
    ensures var hot := TieEntries(n) + [OlderEntry];
            && IdsOnce(hot) && Agree(Elems(hot)) && |Elems(TieEntries(n))| == n
            && Hits(Elems(hot), AfterTies) == {OlderEntry} && Elems(TieEntries(n)) <= Ties(Elems(hot), AfterTies)
  {
    var ties, hot := TieEntries(n), TieEntries(n) + [OlderEntry];
    forall i, j | 0 <= i < j < |hot| ensures hot[i].id != hot[j].id {
      assert |hot[i].id| == i;
      if j < n { assert |hot[j].id| == j; } else if i == 1 { assert hot[i].id[0] == 'a' && hot[j].id[0] == 'b'; }
    }
    forall i, j | 0 <= i < j < n ensures ties[i] != ties[j] {
      assert ties[i].id == hot[i].id && ties[j].id == hot[j].id;
    }
    DistinctSize(ties);
    assert hot[n] == OlderEntry;
    forall e | e in Elems(hot) ensures e == OlderEntry || (e.at == 1 && e in Elems(ties)) {
      var i :| 0 <= i < |hot| && hot[i] == e;
      assert i < n ==> e == ties[i];
    }
    forall x ensures x in Hits(Elems(hot), AfterTies) <==> x == OlderEntry {
      if x == OlderEntry { assert Wanted(x, AfterTies) && Behind(x, Position(1, "")) && Project(x, false) == x; }
    }
    forall e | e in Elems(ties) ensures e in Ties(Elems(hot), AfterTies) {
      var i :| 0 <= i < n && ties[i] == e;
      assert hot[i] == e && Wanted(e, HotQuery(AfterTies)) && Project(e, false) == e && Tie(e, AfterTies.cursor);
    }
  }

  /** Past the budget the hot page of a store at rest misses the only entry asked for. */
  method HotPagePastBudget(count: nat) returns (hot: seq<Entry>, ghost v: set<Entry>)
    requires count >= 1
    ensures Hits(v, AfterTies) == {OlderEntry} && Agree(Hits(v, AfterTies))
    ensures hot != TopK(Hits(v, AfterTies), count)
  {
    var store := TieEntries(MAX_HOT_PAGES * count) + [OlderEntry];
    var snapshots := seq(MAX_HOT_PAGES, _ => store);
    v := Elems(store);
    TieEntriesOnce(MAX_HOT_PAGES * count);
    SubsetSize(Elems(TieEntries(MAX_HOT_PAGES * count)), Ties(v, AfterTies));
    assert forall r :: r in snapshots ==> r == store;
    hot := HotPage(snapshots, AfterTies, count, v);
  }

  lemma NewestPart(got: seq<Entry>, n: nat, ended: bool, snapshots: seq<seq<Entry>>, q: EntryQuery,
                   count: nat, v: set<Entry>)
    requires AtRest(snapshots, v)
    requires Fetched(got, n, snapshots, HotQuery(q), count, ended, v)
    ensures forall e, x :: e in Hits(v, HotQuery(q)) && e !in got && x in got ==> Newer(x, e)
    ensures ended ==> Elems(got) == Hits(v, HotQuery(q))
  {
    forall e | e in Hits(v, HotQuery(q)) ensures AlwaysHit(e, snapshots, n, HotQuery(q)) {
    }
  }

  lemma FetchedSizes(got: seq<Entry>, q: EntryQuery, v: set<Entry>)
    requires Descending(got) && Elems(got) <= Hits(v, HotQuery(q))
    ensures |SkipTies(got, q.cursor)| <= |Hits(v, q)| && |Tied(got, q.cursor)| <= |Ties(v, q)|
  {
    SkipTiesMember(got, q.cursor);
    HotHits(v, q);
    SkipTiesDescending(got, q.cursor);
    DescendingSize(SkipTies(got, q.cursor));
    SubsetSize(Elems(SkipTies(got, q.cursor)), Hits(v, q));
    SubsetSize(Tied(got, q.cursor), Ties(v, q));
  }

  lemma AllFetched(got: seq<Entry>, q: EntryQuery, v: set<Entry>)
    requires Descending(got) && Elems(got) == Hits(v, HotQuery(q))
    ensures |got| == |Hits(v, q)| + |Ties(v, q)|
  {
    HotHits(v, q);
    DisjointSize(Hits(v, q), Ties(v, q));
    DescendingSize(got);
  }

  lemma TakeOfPrefix(kept: seq<Entry>, u: set<Entry>, count: nat)
    requires Agree(u) && kept == TopK(u, |kept|) && |kept| <= |u|
    ensures Take(kept, Some(count)) == TopK(u, count) <==> |kept| >= count || |kept| == |u|
  {
  }

  /** `kept` of `hits` and `skipped` of `ties` were fetched, ties first, `full` being `n` full pages. */
  lemma BudgetArithmetic(kept: nat, skipped: nat, hits: nat, ties: nat, full: nat, count: nat, ended: bool)
    requires count >= 1 && full <= MAX_HOT_PAGES * count && kept <= hits && skipped <= ties
    requires kept + skipped <= full && (!ended ==> kept + skipped == full)
    requires ended || kept >= count || full == MAX_HOT_PAGES * count
    requires (ended ==> kept + skipped == hits + ties) && (kept > 0 ==> skipped == ties)
    ensures kept >= count || kept == hits
            <==> hits == 0 || ties <= (MAX_HOT_PAGES - 1) * count || ties + hits <= MAX_HOT_PAGES * count
  {
  }

  lemma FullPagesBound(n: nat, count: nat)
    requires n <= MAX_HOT_PAGES
    ensures FullPages(n, count) <= MAX_HOT_PAGES * count
    ensures n == MAX_HOT_PAGES ==> FullPages(n, count) == MAX_HOT_PAGES * count
  {
    FullPagesProduct(MAX_HOT_PAGES, count);
    FullPagesMonotone(n, MAX_HOT_PAGES, count);
  }

  /** The hits among a newest part of everything are a newest part of the hits. */
  lemma KeptPrefix(got: seq<Entry>, q: EntryQuery, v: set<Entry>)
    requires Agree(v) && Descending(got) && Elems(got) <= Hits(v, HotQuery(q))
    requires forall e, x :: e in Hits(v, HotQuery(q)) && e !in got && x in got ==> Newer(x, e)
    ensures Agree(Hits(v, q))
    ensures SkipTies(got, q.cursor) == TopK(Hits(v, q), |SkipTies(got, q.cursor)|)
  {
    SkipTiesMember(got, q.cursor);
    HitsAgree(v, q);
    HotHits(v, q);
    SkipTiesDescending(got, q.cursor);
    Prefix(SkipTies(got, q.cursor), Hits(v, q));
  }

  /** The entries to skip sort before everything asked for, so all are fetched before the first hit. */
  lemma TiesComeFirst(got: seq<Entry>, q: EntryQuery, v: set<Entry>)
    requires Descending(got) && Elems(got) <= Hits(v, HotQuery(q))
    requires forall e, x :: e in Hits(v, HotQuery(q)) && e !in got && x in got ==> Newer(x, e)
    requires SkipTies(got, q.cursor) != []
    ensures Tied(got, q.cursor) == Ties(v, q)
  {
    SkipTiesMember(got, q.cursor);
    var first := SkipTies(got, q.cursor)[0];
    assert first in Elems(got) && first in Hits(v, HotQuery(q));
    var f :| f in v && Wanted(f, HotQuery(q)) && first == Project(f, HotQuery(q).omitContent);
    forall e | e in Ties(v, q) ensures e in got {
      if e !in got {
        var p := q.cursor.value;
        assert Newer(first, e) && first.at <= p.at;
        assert first.at == p.at && Less(first.id, p.id) && Less(e.id, first.id);
        LessTransitive(e.id, first.id, p.id);
      }
    }
  }

  lemma DisjointSize<T>(a: set<T>, b: set<T>)
    requires a !! b
    ensures |a + b| == |a| + |b|
  {
  }

  // ---------------------------------------------------------------- one page of both tiers

  /** No id occurs twice in one hour's listed files. */
  ghost predicate NoRepeats(t: Tier) {
    forall f: ColdFilter, h: int :: IdsOnce(Rows(Groups(HourFiles(t, f, h))))
  }

  /** A tier without repeats hides nothing from any limited read. */
  lemma NoRepeatsOK(t: Tier, f: ColdFilter, limit: Option<nat>)
    requires GoodTier(t) && NoRepeats(t)
    ensures LimitOK(t, f, limit)
  {
    MatchSetAgrees(t, f);
    if limit.Some? {
      forall e | e in TopK(MatchSet(t, f), limit.value) ensures Unhidden(t, f, limit, e) {
        var matched := HourMatches(t, f, FloorHour(e.at));
        assert IdsOnce(Rows(Groups(HourFiles(t, f, FloorHour(e.at)))));
        CollectIdsOnce(Rows(Groups(HourFiles(t, f, FloorHour(e.at)))), f);
        DistinctCount(matched, e);
        HourReadable(t, f, FloorHour(e.at));
        TopKByRank(MatchSet(t, f), limit.value, e);
        SubsetSize(NewerIn(Elems(matched), e), NewerIn(MatchSet(t, f), e));
      }
    }
  }

  lemma MatchSetHits(t: Tier, q: EntryQuery)
    ensures MatchSet(t, ToColdFilter(q)) == Hits(TierRows(t), q)
  {
    forall e | e in TierRows(t) { MatchesWanted(e, q); }
  }

  /**
    A page that is right while entries come and move: `u` was stored in either tier when it was asked
    for, `v` is everything stored until it was done. It holds only hits, newest first, and each
    hit of `u` is on it, or a next cursor is given and the page is full of newer ones. When nothing
    was stored meanwhile it is exactly the newest `limit`.
   */
  ghost predicate PageOK(page: Page, u: set<Entry>, v: set<Entry>, q: EntryQuery, limit: nat) {
    && Descending(page.data) && Elems(page.data) <= Hits(v, q) && |page.data| <= limit
    && (page.next.Some? ==> |page.data| == limit && page.next == CursorAfter(page.data))
    && (forall e :: e in Hits(u, q) && e !in page.data ==>
          page.next.Some? && forall x :: x in page.data ==> Newer(x, e))
    && (u == v ==> Agree(Hits(u, q)) && page.data == TopK(Hits(u, q), limit)
                   && (page.next.Some? <==> |Hits(u, q)| > limit))
  }

  /** `page`: both tiers' entries deduplicated, sorted and cut, with a cursor when some were cut. */
  function MakePage(hot: seq<Entry>, cold: seq<Entry>, limit: nat): Page
    requires limit >= 1
  {
    var merged := SortNewest(Dedupe(hot + cold));
    var data := Take(merged, Some(limit));
    Page(data, if |merged| > limit then Some(PositionOf(data[limit - 1])) else None)
  }

  /** Every hit of `u` is in `w`, or `w` has `count` newer ones. */
  ghost predicate Reaches(w: set<Entry>, u: set<Entry>, q: EntryQuery, count: nat) {
    forall e :: e in Hits(u, q) && e !in w ==> |NewerIn(w, e)| >= count
  }

  lemma MakePageOK(hot: seq<Entry>, cold: seq<Entry>, u: set<Entry>, v: set<Entry>, q: EntryQuery, limit: nat)
    requires limit >= 1 && Agree(v) && u <= v
    requires Elems(hot + cold) <= Hits(v, q) && Reaches(Elems(hot + cold), u, q, limit + 1)
    ensures PageOK(MakePage(hot, cold, limit), u, v, q, limit)
  {
    var w := Elems(hot + cold);
    HitsAgree(v, q);
    MergedPage(hot, cold, limit);
    AllLeftOut(w, Hits(u, q), Hits(v, q), limit);
    if u == v { PageAtRest(w, Hits(u, q), limit); }
  }

  /** The page is the newest of both parts, whatever they repeat, with a cursor exactly when more were merged. */
  lemma MergedPage(hot: seq<Entry>, cold: seq<Entry>, limit: nat)
    requires limit >= 1 && Agree(Elems(hot + cold))
    ensures var page, w := MakePage(hot, cold, limit), Elems(hot + cold);
            && page.data == TopK(w, limit) && (page.next.Some? <==> |w| > limit)
            && (page.next.Some? ==> |page.data| == limit && page.next == CursorAfter(page.data))
  {
    DedupeTop(hot + cold, Some(limit));
    DedupeTop(hot + cold, None);
  }

  lemma AllLeftOut(w: set<Entry>, some: set<Entry>, all: set<Entry>, limit: nat)
    requires Agree(all) && w <= all && some <= all
    requires forall e :: e in some && e !in w ==> |NewerIn(w, e)| >= limit + 1
    ensures Agree(w)
    ensures forall e :: e in some && e !in TopK(w, limit) ==>
              |w| > limit && forall x :: x in TopK(w, limit) ==> Newer(x, e)
  {
    forall e | e in some && e !in TopK(w, limit)
      ensures |w| > limit && forall x :: x in TopK(w, limit) ==> Newer(x, e)
    {
      LeftOut(w, all, limit, e);
    }
  }

  /** Nothing stored meanwhile: the newest of what was read are the newest of all, and both have more or neither. */
  lemma PageAtRest(w: set<Entry>, all: set<Entry>, limit: nat)
    requires Agree(all) && Covers(w, all, limit + 1)
    ensures Agree(w) && TopK(w, limit) == TopK(all, limit) && (|w| > limit <==> |all| > limit)
  {
    CoversTopK(w, all, limit + 1);
    CoversLess(w, all, limit);
    CoversTopK(w, all, limit);
    SubsetSize(w, all);
  }

  lemma CoversLess(w: set<Entry>, u: set<Entry>, k: nat)
    requires Covers(w, u, k + 1)
    ensures Covers(w, u, k)
  {
  }

  lemma LeftOut(w: set<Entry>, all: set<Entry>, limit: nat, e: Entry)
    requires Agree(all) && w <= all && e in all && e !in TopK(w, limit)
    requires e !in w ==> |NewerIn(w, e)| > limit
    ensures |w| > limit && forall x :: x in TopK(w, limit) ==> Newer(x, e)
  {
    if e in w {
      OutsideTopK(w, limit, e);
    } else {
      SubsetSize(NewerIn(w, e), w);
      forall x | x in TopK(w, limit) ensures Newer(x, e) {
        TopKByRank(w, limit, x);
        NewerOrder(x, e, x);
        if !Newer(x, e) {
          forall y | y in NewerIn(w, e) ensures y in NewerIn(w, x) { NewerTransitive(y, e, x); }
          SubsetSize(NewerIn(w, e), NewerIn(w, x));
        }
      }
    }
  }

  /** The ids no hot entry was found for. */
  function Missing(ids: seq<string>, hot: seq<Entry>): (r: seq<string>)
    ensures forall id :: id in r <==> id in ids && forall e :: e in hot ==> e.id != id
  {
    if ids == [] then []
    else
      assert forall id :: id in ids <==> id == ids[0] || id in ids[1..];
      (if exists e :: e in hot && e.id == ids[0] then [] else [ids[0]]) + Missing(ids[1..], hot)
  }

  /** The `after` of the cold query: behind a full hot page, only its last millisecond and later can matter. */
  function Floor(q: EntryQuery, hot: seq<Entry>, limit: nat): Option<int> {
    if |hot| > limit && (q.after.None? || q.after.value < hot[limit].at - 1) then Some(hot[limit].at - 1)
    else q.after
  }

  function ColdQuery(q: EntryQuery, hot: seq<Entry>, limit: nat): EntryQuery {
    q.(ids := if q.ids.Some? then Some(Missing(q.ids.value, hot)) else None,
       after := Floor(q, hot, limit))
  }

  /** An entry of `u` the cold tier does not hold yet was in the hot store at each read. */
  ghost predicate Held(snapshots: seq<seq<Entry>>, coldRows: set<Entry>, u: set<Entry>) {
    forall e, i :: e in u && e !in coldRows && 0 <= i < |snapshots| ==> e in snapshots[i]
  }

  /** Each hit of `u` is on the hot page, or cold, or older than a full hot page. */
  ghost predicate HotOK(hot: seq<Entry>, u: set<Entry>, coldRows: set<Entry>, v: set<Entry>, q: EntryQuery,
                        count: nat) {
    && Descending(hot) && Elems(hot) <= Hits(v, q) && |hot| <= count
    && forall e :: e in Hits(u, q) && e !in Hits(coldRows, q) && e !in hot ==>
         |hot| == count && forall x :: x in hot ==> Newer(x, e)
  }

  lemma HotPageOK(hot: seq<Entry>, snapshots: seq<seq<Entry>>, q: EntryQuery, count: nat, u: set<Entry>,
                  coldRows: set<Entry>, seen: set<Entry>, v: set<Entry>)
    requires TieBudget(seen, q, count) && Held(snapshots, coldRows, u) && HotPart(hot, snapshots, q, count, seen)
    requires Hits(seen, q) <= Hits(v, q)
    ensures HotOK(hot, u, coldRows, v, q, count)
  {
    forall e | e in Hits(u, q) && e !in Hits(coldRows, q) && e !in hot
      ensures |hot| == count && forall x :: x in hot ==> Newer(x, e)
    {
      StaysHot(e, snapshots, q, u, coldRows);
    }
  }

  lemma StaysHot(e: Entry, snapshots: seq<seq<Entry>>, q: EntryQuery, u: set<Entry>, coldRows: set<Entry>)
    requires Held(snapshots, coldRows, u) && e in Hits(u, q) && e !in Hits(coldRows, q)
    ensures AlwaysHit(e, snapshots, MAX_HOT_PAGES, q)
  {
    var raw :| raw in u && Wanted(raw, q) && (q.cursor.Some? ==> Behind(raw, q.cursor.value))
               && e == Project(raw, q.omitContent);
    assert raw !in coldRows;
    forall i | 0 <= i < |snapshots| ensures e in Hits(Elems(snapshots[i]), q) {
      assert raw in Elems(snapshots[i]);
    }
  }

  /** Narrowing the cold query by the found ids and the hot floor loses only what cannot matter. */
  lemma ColdQueryHits(hot: seq<Entry>, coldRows: set<Entry>, q: EntryQuery, limit: nat, v: set<Entry>)
    requires Agree(v) && coldRows <= v && Descending(hot) && Elems(hot) <= Hits(v, q) && |hot| <= limit + 1
    ensures Hits(coldRows, ColdQuery(q, hot, limit)) <= Hits(coldRows, q)
    ensures forall e :: e in Hits(coldRows, q) && e !in hot ==>
              e in Hits(coldRows, ColdQuery(q, hot, limit))
              || (|hot| == limit + 1 && forall x :: x in hot ==> Newer(x, e))
  {
    var narrow := ColdQuery(q, hot, limit);
    HitsAgree(v, q);
    forall e | e in Hits(coldRows, q) && e !in hot
      ensures e in Hits(coldRows, narrow) || (|hot| == limit + 1 && forall x :: x in hot ==> Newer(x, e))
    {
      var raw :| raw in coldRows && Wanted(raw, q) && (q.cursor.Some? ==> Behind(raw, q.cursor.value))
                 && e == Project(raw, q.omitContent);
      forall x | x in hot ensures x.id != raw.id {
        assert x in Elems(hot) && e in Hits(v, q);
      }
      if !Wanted(raw, narrow) {
        assert |hot| > limit && raw.at < hot[limit].at;
        forall x | x in hot ensures Newer(x, e) { LastIsNewer(hot, x, e); }
      }
    }
  }

  lemma LastIsNewer(hot: seq<Entry>, x: Entry, e: Entry)
    requires Descending(hot) && x in hot && e.at < hot[|hot| - 1].at
    ensures Newer(x, e)
  {
    var i :| 0 <= i < |hot| && hot[i] == x;
    if i < |hot| - 1 { NewerTransitive(x, hot[|hot| - 1], e); }
  }

  // ---------------------------------------------------------------- narrowing and repeated rows

  lemma {:induction false} SameKindFiles(t: Tier, f: ColdFilter, g: ColdFilter, hour: int)
    requires f.kind == g.kind
    ensures HourFiles(t, f, hour) == HourFiles(t, g, hour)
  {
    if t != [] { SameKindFiles(t[1..], f, g, hour); }
  }

  lemma {:induction false} FewerCollected(rows: seq<Entry>, f: ColdFilter, g: ColdFilter, e: Entry)
    requires f.omitContent == g.omitContent && forall r :: r in rows && Matches(r, g) ==> Matches(r, f)
    ensures RowsNewer(Collect(rows, g), e) <= RowsNewer(Collect(rows, f), e)
  {
    if rows != [] {
      assert rows[0] in rows;
      FewerCollected(rows[1..], f, g, e);
    }
  }

  lemma NarrowMatches(r: Entry, q: EntryQuery, hot: seq<Entry>, limit: nat)
    requires Matches(r, ToColdFilter(ColdQuery(q, hot, limit)))
    ensures Matches(r, ToColdFilter(q))
  {
    MatchesWanted(r, q);
    MatchesWanted(r, ColdQuery(q, hot, limit));
  }

  /** What the query itself does not hide, the narrower cold query does not either. */
  lemma StillUnhidden(tier: Tier, q: EntryQuery, hot: seq<Entry>, limit: nat, count: nat, e: Entry)
    requires Unhidden(tier, ToColdFilter(q), Some(count), e)
    ensures Unhidden(tier, ToColdFilter(ColdQuery(q, hot, limit)), Some(count), e)
  {
    var f, g, hour := ToColdFilter(q), ToColdFilter(ColdQuery(q, hot, limit)), FloorHour(e.at);
    SameKindFiles(tier, f, g, hour);
    var rows := Rows(Groups(HourFiles(tier, f, hour)));
    forall r | r in rows && Matches(r, g) ensures Matches(r, f) { NarrowMatches(r, q, hot, limit); }
    FewerCollected(rows, f, g, e);
  }

  /** An entry that the newest `count` of `all` leave out and the cold read misses is reached all the same. */
  lemma HiddenReached(hot: seq<Entry>, cold: seq<Entry>, all: set<Entry>, narrow: set<Entry>, read: set<Entry>,
                      count: nat, e: Entry)
    requires Agree(all) && read <= narrow <= all && cold == TopK(read, count) && Descending(hot)
    requires forall x :: x in all && x !in hot && x !in narrow ==>
               |hot| == count && forall y :: y in hot ==> Newer(y, x)
    requires forall d :: d in TopK(all, count) && d in narrow ==> d in read
    requires e in all && e !in TopK(all, count)
    ensures |NewerIn(Elems(hot + cold), e)| >= count
  {
    var w, top := Elems(hot + cold), TopK(all, count);
    assert w == Elems(hot) + Elems(cold);
    OutsideTopK(all, count, e);
    DescendingSize(top);
    if d :| d in top && d !in w {
      ReachesThrough(hot, cold, read, count, d, e);
    } else {
      SubsetSize(Elems(top), NewerIn(w, e));
    }
  }

  /** Whatever is newer than a missing entry is newer than all older than it. */
  lemma ReachesThrough(hot: seq<Entry>, cold: seq<Entry>, read: set<Entry>, count: nat, d: Entry, e: Entry)
    requires Agree(read) && cold == TopK(read, count) && Descending(hot) && Newer(d, e)
    requires d !in hot && d !in cold
    requires d in read || (|hot| == count && forall y :: y in hot ==> Newer(y, d))
    ensures |NewerIn(Elems(hot + cold), e)| >= count
  {
    var w := Elems(hot + cold);
    assert w == Elems(hot) + Elems(cold);
    forall y | y in w && Newer(y, d) ensures Newer(y, e) { NewerTransitive(y, d, e); }
    if d in read {
      TopKCovers(read, count);
      SubsetSize(NewerIn(Elems(cold), d), NewerIn(w, e));
    } else {
      DescendingSize(hot);
      SubsetSize(Elems(hot), NewerIn(w, e));
    }
  }

  /** The two lists together reach every hit. */
  lemma MergedReach(hot: seq<Entry>, cold: seq<Entry>, hits: set<Entry>, all: set<Entry>, narrow: set<Entry>,
                    read: set<Entry>, count: nat)
    requires Agree(all) && read <= narrow <= all && cold == TopK(read, count) && Descending(hot)
    requires forall e :: e in hits + all && e !in hot && e !in narrow ==>
               |hot| == count && forall x :: x in hot ==> Newer(x, e)
    requires forall d :: d in TopK(all, count) && d in narrow ==> d in read
    ensures forall e :: e in hits && e !in Elems(hot + cold) ==> |NewerIn(Elems(hot + cold), e)| >= count
  {
    var w := Elems(hot + cold);
    assert w == Elems(hot) + Elems(cold);
    forall e | e in hits && e !in w ensures |NewerIn(w, e)| >= count {
      if e in read {
        TopKCovers(read, count);
        SubsetSize(NewerIn(Elems(cold), e), NewerIn(w, e));
      } else if e in narrow {
        HiddenReached(hot, cold, all, narrow, read, count, e);
      } else {
        DescendingSize(hot);
        SubsetSize(Elems(hot), NewerIn(w, e));
      }
    }
  }

  /** The cold read of the narrower query holds whatever of the newest hits that query still finds. */
  lemma NarrowRead(tier: Tier, q: EntryQuery, hot: seq<Entry>, limit: nat)
    requires GoodTier(tier) && LimitOK(tier, ToColdFilter(q), Some(limit + 1))
    ensures var narrow := ColdQuery(q, hot, limit);
            var read := Readable(tier, ToColdFilter(narrow), Some(limit + 1));
            && Agree(Hits(TierRows(tier), q)) && read <= Hits(TierRows(tier), narrow)
            && forall d :: d in TopK(Hits(TierRows(tier), q), limit + 1) && d in Hits(TierRows(tier), narrow) ==>
                 d in read
  {
    var rows, narrow := TierRows(tier), ColdQuery(q, hot, limit);
    MatchSetHits(tier, q);
    MatchSetHits(tier, narrow);
    MatchSetAgrees(tier, ToColdFilter(q));
    forall d | d in TopK(Hits(rows, q), limit + 1) && d in Hits(rows, narrow)
      ensures d in Readable(tier, ToColdFilter(narrow), Some(limit + 1))
    {
      StillUnhidden(tier, q, hot, limit, limit + 1, d);
    }
  }

  lemma BothReach(hot: seq<Entry>, cold: seq<Entry>, u: set<Entry>, coldRows: set<Entry>, read: set<Entry>,
                  v: set<Entry>, q: EntryQuery, limit: nat)
    requires Agree(v) && coldRows <= v && HotOK(hot, u, coldRows, v, q, limit + 1) && Agree(Hits(coldRows, q))
    requires read <= Hits(coldRows, ColdQuery(q, hot, limit)) && Agree(read) && cold == TopK(read, limit + 1)
    requires forall d :: d in TopK(Hits(coldRows, q), limit + 1) && d in Hits(coldRows, ColdQuery(q, hot, limit)) ==>
               d in read
    ensures Elems(hot + cold) <= Hits(v, q) && Reaches(Elems(hot + cold), u, q, limit + 1)
  {
    ColdQueryHits(hot, coldRows, q, limit, v);
    assert Hits(coldRows, q) <= Hits(v, q) && Elems(hot + cold) == Elems(hot) + Elems(cold);
    MergedReach(hot, cold, Hits(u, q), Hits(coldRows, q), Hits(coldRows, ColdQuery(q, hot, limit)), read, limit + 1);
  }

  /** The cold tier's part of a page. */
  method ReadCold(tier: Tier, q: EntryQuery, hot: seq<Entry>, limit: nat, ghost u: set<Entry>, ghost v: set<Entry>)
    returns (cold: seq<Entry>)
    requires GoodTier(tier) && LimitOK(tier, ToColdFilter(q), Some(limit + 1))
    requires Agree(v) && TierRows(tier) <= v && HotOK(hot, u, TierRows(tier), v, q, limit + 1)
    ensures Elems(hot + cold) <= Hits(v, q) && Reaches(Elems(hot + cold), u, q, limit + 1)
  {
    cold := Query(tier, ColdQuery(q, hot, limit), Some(limit + 1));
    NarrowRead(tier, q, hot, limit);
    BothReach(hot, cold, u, TierRows(tier), Readable(tier, ToColdFilter(ColdQuery(q, hot, limit)), Some(limit + 1)),
              v, q, limit);
  }

  /** Everything the hot reads saw. */
  ghost function HotSeen(snapshots: seq<seq<Entry>>): set<Entry> { set r, e | r in snapshots && e in r :: e }

  lemma HotSeenReads(snapshots: seq<seq<Entry>>, q: EntryQuery, v: set<Entry>)
    requires HotReads(snapshots, v)
    ensures HotReads(snapshots, HotSeen(snapshots)) && HotSeen(snapshots) <= v
    ensures Hits(HotSeen(snapshots), q) <= Hits(v, q)
  {
    forall e | e in HotSeen(snapshots) ensures e in v {
      var r :| r in snapshots && e in r;
      assert e in Elems(r);
    }
  }

  /** The hot store's part of a page. */
  method ReadHotPart(snapshots: seq<seq<Entry>>, q: EntryQuery, count: nat, ghost u: set<Entry>,
                     ghost coldRows: set<Entry>, ghost v: set<Entry>)
    returns (hot: seq<Entry>)
    requires HotReads(snapshots, v) && count >= 1 && Held(snapshots, coldRows, u)
    requires TieBudget(HotSeen(snapshots), q, count)
    ensures HotOK(hot, u, coldRows, v, q, count)
  {
    HotSeenReads(snapshots, q, v);
    hot := HotPage(snapshots, q, count, HotSeen(snapshots));
    HotPageOK(hot, snapshots, q, count, u, coldRows, HotSeen(snapshots), v);
  }

  /**
    What the reads of one page of `limit` see: every entry of `u` is in each hot snapshot or archived, and
    no more than `v` is seen. The tie budget counts only what the hot reads saw, and repeated cold rows
    matter only where they hide one of the cold tier's newest `limit + 1` hits.
   */
  ghost predicate PageReads(snapshots: seq<seq<Entry>>, tier: Tier, q: EntryQuery, limit: nat, u: set<Entry>,
                            v: set<Entry>)
  {
    && HotReads(snapshots, v) && TierRows(tier) <= v && u <= v && Held(snapshots, TierRows(tier), u)
    && GoodTier(tier) && LimitOK(tier, ToColdFilter(q), Some(limit + 1))
    && TieBudget(HotSeen(snapshots), q, limit + 1)
  }

  /** One page of both tiers: the hot store is read first, then the cold tier. */
  method Get(snapshots: seq<seq<Entry>>, tier: Tier, q: EntryQuery, ghost u: set<Entry>, ghost v: set<Entry>)
    returns (page: Page)
    requires PageReads(snapshots, tier, q, ResolveLimit(q.limit), u, v)
    ensures PageOK(page, u, v, q, ResolveLimit(q.limit))
  {
    page := GetPage(snapshots, tier, q, ResolveLimit(q.limit), u, v);
  }

  method GetPage(snapshots: seq<seq<Entry>>, tier: Tier, q: EntryQuery, limit: nat, ghost u: set<Entry>,
                 ghost v: set<Entry>)
    returns (page: Page)
    requires limit >= 1 && PageReads(snapshots, tier, q, limit, u, v)
    ensures PageOK(page, u, v, q, limit)
  {
    if q.ids.Some? && |q.ids.value| == 0 {
      NothingWanted(u, v, q, limit);
      return Page([], None);
    }
    var hot := ReadHotPart(snapshots, q, limit + 1, u, TierRows(tier), v);
    if q.ids.Some? && Missing(q.ids.value, hot) == [] {
      NothingMissing(hot, u, TierRows(tier), v, q, limit);
      return MakePage(hot, [], limit);
    }
    var cold := ReadCold(tier, q, hot, limit, u, v);
    MakePageOK(hot, cold, u, v, q, limit);
    page := MakePage(hot, cold, limit);
  }

  /** No id asked for: the empty page is the right one. */
  lemma NothingWanted(u: set<Entry>, v: set<Entry>, q: EntryQuery, limit: nat)
    requires q.ids.Some? && |q.ids.value| == 0
    ensures PageOK(Page([], None), u, v, q, limit)
  {
    assert Hits(u, q) == {};
    assert Agree(Hits(u, q)) && |TopK(Hits(u, q), limit)| == 0;
  }

  /** Every id asked for was found hot: the cold tier has nothing to add. */
  lemma NothingMissing(hot: seq<Entry>, u: set<Entry>, coldRows: set<Entry>, v: set<Entry>, q: EntryQuery,
                       limit: nat)
    requires Agree(v) && u <= v && coldRows <= v && HotOK(hot, u, coldRows, v, q, limit + 1) && limit >= 1
    requires q.ids.Some? && Missing(q.ids.value, hot) == []
    ensures PageOK(MakePage(hot, [], limit), u, v, q, limit)
  {
    HitsAgree(v, q);
    assert hot + [] == hot;
    forall e | e in Hits(u, q) ensures e in hot {
      assert e.id in q.ids.value && e.id !in Missing(q.ids.value, hot);
      var x :| x in hot && x.id == e.id;
      assert x in Elems(hot) && e in Hits(v, q);
    }
    MakePageOK(hot, [], u, v, q, limit);
  }
}
